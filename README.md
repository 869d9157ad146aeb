# Ordering phase of dagre's layered layout, in Dafny

This project models `src/layout/order.js`, the step of dagre's layered
(Sugiyama-style) layout that orders the nodes within each rank so that
fewer edges cross. The hard parts are proved.

- **Crossing count.** `bilayerCrossCount` is Barth, Jünger and Mutzel's
  accumulator-tree count of crossing edges between two adjacent layers.
  `crossCount` sums it over a layering.
  - The tree walk is proved to compute the number of inversions of the
    edge-index sequence.
  - That number is proved equal to a brute-force count of crossing edge
    pairs.
- **Initial order.** `initOrder` runs a depth-first traversal from every
  rank-0 node. Each node it first reaches is appended to the layer of its
  rank. The model proves:
  - every node sits at its rank;
  - no node is placed twice;
  - exactly the nodes reachable from a rank-0 node are placed;
  - the layering is that of a functional reference of the traversal, which
    only ever appends to layers.
- **Barycenter step.** `improveLayer` (together with `rankWeights`) sorts
  the nodes of a movable layer that have a neighbour in the fixed layer by
  the mean position of those neighbours. Nodes without such a neighbour
  keep their slots. The model proves:
  - the step is a permutation;
  - unweighted slots are untouched, and weighted slots end up ordered by
    weight, with ties kept in their original slot order;
  - a second step changes nothing.
- **Sweeps.** `improveOrdering` sweeps down on even iterations and up on
  odd ones. Each layer is reordered against its already-reordered
  neighbour.
- **The exported function.** It keeps the first layering with the fewest
  crossings among the initial one and every sweep's result. That is proved
  both of the mutable implementation (rows reordered in place) and of the
  functional specification it is checked against.

## Layout

| file | module | contents |
|---|---|---|
| `graph.dfy` | `Graphs` | nodes, the graph value, neighbours, reachability from rank-0 nodes |
| `tree.dfy` | `AccumulatorTree` | heap-index arithmetic of the accumulator tree |
| `crossings.dfy` | `Crossings` | `bilayerCrossCount`, `crossCount` and their specifications |
| `crossing_pairs.dfy` | `CrossingPairs` | inversions equal crossing edge pairs; small cases |
| `barycenter.dfy` | `Barycenter` | `rankWeights`, `improveLayer` and their specifications |
| `init_order.dfy` | `InitialOrder` | `initOrder` with its traversal state as a class |
| `optimize.dfy` | `Optimize` | `improveOrdering`, the iteration loop, the best-so-far choice |

## Model

| member | source | states |
|---|---|---|
| `Graphs.ClosedHoldsAllReachable` | src/layout/order.js:86-90 | a set that holds every rank-0 node and is closed under neighbours holds every node reachable from one |
| `Crossings.PosMap` | src/layout/order.js:22 | the position map holds exactly the nodes of the layer; each maps to an index holding it, and no later index holds it |
| `Crossings.Positions` | src/layout/order.js:22 | the loop builds exactly `PosMap` of the layer |
| `Crossings.SortPositionsSorted` | src/layout/order.js:34 | sorting with the numeric comparator yields an ascending permutation of the input |
| `Crossings.InsertPositionSorted` | src/layout/order.js:34 | one insertion keeps the sequence ascending and adds exactly the inserted element |
| `Crossings.EdgeIndicesBound` | src/layout/order.js:24-36 | every collected edge index is a position of layer 2 |
| `Crossings.CollectEdgeIndices` | src/layout/order.js:24-36 | the loop yields each layer-1 node's layer-2 neighbour positions, node by node, each block sorted |
| `Crossings.TreeWidth` | src/layout/order.js:38-41 | the leaf count is the least power of two that is at least the layer length (and at least 1) |
| `Crossings.CountRightAtRoot` | src/layout/order.js:53-59 | at the root, the positions right of `x` are all earlier positions greater than `x` |
| `Crossings.CountStep` | src/layout/order.js:54-57 | one step up adds exactly the right sibling's count when the cell is a left child |
| `Crossings.InsertEdge` | src/layout/order.js:51-59 | after one edge index, every cell counts the inserted positions under it, and `cc` grows by the number of earlier positions greater than this one |
| `Crossings.Climb` | src/layout/order.js:53-58 | the walk to the root bumps exactly the cells on the leaf's path and adds the positions right of the leaf |
| `Crossings.Accumulate` | src/layout/order.js:46-60 | over an all-zero tree, the total is the number of inversions of the edge-index sequence, and every cell ends up counting the positions whose leaf lies in its subtree |
| `Crossings.BilayerCrossCount` | src/layout/order.js:20-63 | the result is the inversion count of the edge-index sequence built from layer 2's positions |
| `Crossings.CrossCount` | src/layout/order.js:2-12 | the result is the sum of the bilayer counts of every consecutive pair of layers |
| `CrossingPairs.InversionsArePairCrossings` | src/layout/order.js:24-60 | the inversions of the edge-index sequence are exactly the edge pairs, from different layer-1 nodes, whose layer-2 ends are in the opposite order |
| `CrossingPairs.BilayerIsPairCount` | src/layout/order.js:20-63 | the bilayer count equals that brute-force pairwise count |
| `CrossingPairs.EdgeIndicesPermutation` | src/layout/order.js:34-35 | sorting each node's block only permutes the edge-index sequence |
| `CrossingPairs.AscendingNoInversions` | src/layout/order.js:34 | a sorted block has no inversions: edges of one node never cross each other |
| `CrossingPairs.InversionsAppend` | src/layout/order.js:35 | the inversions of a concatenation are those of each part plus the pairs across |
| `CrossingPairs.NoEdgesNoCrossings` | src/layout/order.js:27-32 | with no neighbour in layer 2 there are no edge indices and no crossings |
| `CrossingPairs.SmallLayerNoCrossings` | src/layout/order.js:38-60 | a layer 2 of at most one node admits no crossing |
| `CrossingPairs.SingletonLayersNoCrossings` | src/layout/order.js:2-12 | a layering whose layers hold at most one node each has no crossings |
| `CrossingPairs.CrossedPairExample` | src/layout/order.js:20-63 | two crossing edges count 1; swapping layer 2 makes the count 0 |
| `Barycenter.FixedCountZero` | src/layout/order.js:156-164 | no neighbour is counted exactly when no neighbour lies in the fixed layer |
| `Barycenter.FixedSumBound` | src/layout/order.js:157-164 | the sum of counted positions is at most the count times the last position |
| `Barycenter.WeightBounds` | src/layout/order.js:155-165 | the weight is the -1 sentinel exactly for a node with no fixed neighbour; otherwise it lies between 0 and the last fixed position |
| `Barycenter.WeightMeaning` | src/layout/order.js:149-169 | the same, against the positions of the fixed layer |
| `Barycenter.NodeWeight` | src/layout/order.js:155-165 | the neighbour loop computes the node's barycenter weight, or -1 |
| `Barycenter.RankWeights` | src/layout/order.js:149-169 | the weight map is keyed by exactly the movable nodes and gives each its barycenter weight |
| `Barycenter.SortEntriesSorted` | src/layout/order.js:126-132 | the comparator's sort yields a permutation ordered by weight, then by slot |
| `Barycenter.SortEntriesOrdered` | src/layout/order.js:126-132 | an already ordered sequence is left as it is |
| `Barycenter.OrderedPairs` | src/layout/order.js:126-132 | any two entries of an ordered sequence are in comparator order: lower weight first, equal weights by slot |
| `Barycenter.WeightedEntries` | src/layout/order.js:119-123 | every entry records a weighted slot, its node and the node's weight |
| `Barycenter.CollectWeighted` | src/layout/order.js:117-124 | the loop collects the weighted slots' entries in slot order |
| `Barycenter.FillAt` | src/layout/order.js:135-141 | an unweighted slot keeps its node; a weighted slot takes the next sorted node |
| `Barycenter.WriteBack` | src/layout/order.js:134-141 | the in-place loop leaves the layer equal to `Fill` of its old contents |
| `Barycenter.FillMultiset` | src/layout/order.js:134-141 | refilling trades the weighted slots' nodes for the sorted nodes |
| `Barycenter.FillOwn` | src/layout/order.js:134-141 | refilling with the slots' own entries gives the layer back |
| `Barycenter.ImproveLayer` | src/layout/order.js:114-142 | the array ends up as the barycenter order of its old contents against the fixed layer |
| `Barycenter.ReorderPermutation` | src/layout/order.js:114-142 | the step only permutes the movable layer |
| `Barycenter.ReorderSlots` | src/layout/order.js:114-142 | unweighted slots keep their node, and weighted slots stay weighted. Each weighted slot receives the node of a weighted slot of the old layer, with that node's weight. Any two weighted slots receive theirs in comparator order: by weight, and equal weights in the order of the slots they came from |
| `Barycenter.ReorderFixesSorted` | src/layout/order.js:114-142 | a layer whose weighted slots are already in weight order is unchanged |
| `Barycenter.BarycenterIdempotent` | src/layout/order.js:114-142 | a second step against the same fixed layer changes nothing |
| `InitialOrder.Visit` | src/layout/order.js:69-84 | the traversal from `u` as a function: `u` and everything visited before stay visited, and nothing outside the graph is visited |
| `InitialOrder.VisitEach` | src/layout/order.js:81-83 | the traversal from each neighbour in turn: afterwards every one of them is visited |
| `InitialOrder.VisitRoots` | src/layout/order.js:86-90 | the traversal from each rank-0 node in node order: afterwards every rank-0 node is visited |
| `InitialOrder.PushedExtends` | src/layout/order.js:76-79 | padding and appending one node keeps every existing layer as a prefix of its new self |
| `InitialOrder.VisitExtends` | src/layout/order.js:69-84 | the traversal only appends: every existing layer stays a prefix of its new self |
| `InitialOrder.VisitEachExtends` | src/layout/order.js:81-83 | the same for the traversal from each neighbour in turn |
| `InitialOrder.PushedFacts` | src/layout/order.js:73-79 | appending a new node at its rank keeps every node at its rank and unrepeated, adds just that node, and extends every existing layer |
| `InitialOrder.RankedIsDistinct` | src/layout/order.js:65-93 | nodes at their ranks without repeats within a layer appear once in the whole layering |
| `InitialOrder.OrderBuilder.constructor` | src/layout/order.js:66-67 | the traversal starts with nothing visited and an empty layering |
| `InitialOrder.OrderBuilder.GrowTo` | src/layout/order.js:76-78 | empty layers are appended until layer `r` exists, and nothing else changes |
| `InitialOrder.OrderBuilder.Place` | src/layout/order.js:73-79 | `u` becomes visited and is appended to the layer of its rank |
| `InitialOrder.OrderBuilder.Dfs` | src/layout/order.js:69-84 | the new visited set and layering are exactly `Visit` of the old ones, so nodes are appended in the source's order. Every newly visited node has all its neighbours visited |
| `InitialOrder.OrderBuilder.VisitNeighbors` | src/layout/order.js:81-83 | the new visited set and layering are exactly `VisitEach` of the old ones over `u`'s neighbours. Every neighbour of `u` ends up visited, and newly visited nodes are closed under neighbours |
| `InitialOrder.InitOrder` | src/layout/order.js:65-93 | every node sits in its rank's layer, none twice, the last layer is non-empty, and exactly the nodes reachable from a rank-0 node are placed. The layering is exactly that of `VisitRoots` over the node sequence |
| `Optimize.Contents` | src/layout/order.js:171-173 | the value copy of the rows: one layer per row, equal to the row's current contents |
| `Optimize.BarycenterStepPermutes` | src/layout/order.js:98-102 | the barycenter step only permutes the layer it moves |
| `Optimize.BarycenterStepIdempotent` | src/layout/order.js:114-142 | repeating the step against the same fixed layer changes nothing |
| `Optimize.DownFromFacts` | src/layout/order.js:97-99 | the down sweep keeps the layers before `j` and reorders each later layer against the reordered one above it |
| `Optimize.UpFromFacts` | src/layout/order.js:101-103 | the up sweep keeps the layers after `j` and reorders each earlier layer against the reordered one below it |
| `Optimize.SweepSameLayers` | src/layout/order.js:95-105 | a sweep keeps the number of layers and the nodes of each layer |
| `Optimize.SweepAnchor` | src/layout/order.js:95-105 | a down sweep never moves the first layer; an up sweep never moves the last |
| `Optimize.SweepStable` | src/layout/order.js:95-105 | after a sweep, every reordered layer is already in barycenter order against the layer it was reordered against |
| `Optimize.WorkingSameLayers` | src/layout/order.js:181-182 | after any number of sweeps the working layering has the initial layers' nodes |
| `Optimize.BestIsEarliestMinimum` | src/layout/order.js:176-188 | the kept layering is the earliest lowest-scoring working layering of the first `k` iterations, and it carries its own score |
| `Optimize.BestLayering` | src/layout/order.js:175-191 | the returned layering has the fewest crossings of the initial layering and every sweep's result, is the first to reach that count, and has the initial layers' nodes |
| `Optimize.Step` | src/layout/order.js:97-103 | one row is reordered in place against another, and no other row changes |
| `Optimize.SweepDown` | src/layout/order.js:97-99 | the rows end up as the down sweep of their old contents |
| `Optimize.SweepUp` | src/layout/order.js:101-103 | the rows end up as the up sweep of their old contents |
| `Optimize.ImproveOrdering` | src/layout/order.js:95-105 | the rows end up as iteration `i`'s sweep of their old contents: down when `i` is even, up when odd |
| `Optimize.MakeRows` | src/layout/order.js:176 | the traversal's layering becomes fresh, pairwise distinct rows holding it |
| `Optimize.Iteration` | src/layout/order.js:182-187 | one iteration advances the rows to the next working layering and the kept candidate to the next one |
| `Optimize.KeepBest` | src/layout/order.js:177-190 | the result is the kept candidate after `orderIters` iterations (none if negative), and the rows hold the last working layering |
| `Optimize.Order` | src/layout/order.js:175-191 | the initial layering is the traversal's (`VisitRoots`) and has its properties, and the result is the kept candidate after the iterations |

## Left out

- The graph library is not part of this model. `g.nodes()` and `g.neighbors(u)` are the `Graph` value's node sequence and neighbour sequences. An unknown node has no neighbours.
- Weights are `real`, with exact division. Floating-point rounding of `weight / adjCount` is not modelled; the `-1` sentinel is `-1.0`.
- The JavaScript engine's sort algorithm is not modelled. Both sorts are insertion sorts with the source's comparator. Each comparator totally orders what it sorts: numbers, and entries whose slots are distinct. So any correct sort gives the same result.
- Object keys are strings in the source (`layer2Pos[u]`, `visited[u]`, `weights[u]`). Nodes are integers here, compared by equality.
- `firstIndex <<= 1` is a 32-bit shift in JavaScript. The model uses unbounded integers: layers of more than 2^30 nodes are outside it.
- The `i` parameter of `improveLayer` is never used (the function shadows it), so `ImproveLayer` has none.
- Recursion depth and stack overflow in `dfs` are not modelled.
- Empty layers. `crossCount` counts every consecutive pair of layers, empty ones included (as the code does; each pair with an empty layer contributes 0). It does not skip empty layers to pair the non-empty ones around them.
- Negative `orderIters` runs zero iterations, as the `for` loop at order.js:181 does; the model does not reject it.
- copyLayering is modelled by `Contents`: each copy is a value, so copies cannot alias the rows. A later sweep cannot change a kept copy.
- The outer list of the working layering is an immutable sequence of row arrays (`Rows`). The source never writes that outer list after `initOrder`. `MakeRows` builds those arrays from `initOrder`'s value result.
- `Optimize.Order` returns `initOrder`'s layering beside the result, so that its contract can relate the two. The exported function returns only the result.
- A node without a rank. `InitOrder` and `Order` require every node of the graph to have a rank (`Ranked`). The source reads `nodeMap[u].rank` at order.js:75 and order.js:87, and for a node with no `nodeMap` entry that throws a TypeError. The model does not capture that error path.
- `Barycenter.WeightBounds`: states the weight's range but does not restate it as sum divided by count. The function `Weight` defines it that way.
