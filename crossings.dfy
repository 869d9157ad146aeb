// Crossing counting between ordered layers (crossCount, bilayerCrossCount),
// after W. Barth, M. Juenger and P. Mutzel, "Bilayer Cross Counting",
// Journal of Graph Algorithms and Applications 8(2), 2004.

module Crossings {
  import opened Graphs
  import opened AccumulatorTree

  // ---------------------------------------------------------------------
  // Positions inside a layer
  // ---------------------------------------------------------------------

  /** Index of every node of `layer`, as assigning `pos[u] := i` for each
      index in turn leaves it: a node listed twice keeps its last index. */
  function PosMap(layer: seq<Node>): (pos: map<Node, nat>)
    ensures forall v :: v in pos <==> v in layer
    ensures forall v :: v in pos ==> pos[v] < |layer| && layer[pos[v]] == v
    ensures forall v, j :: v in pos && pos[v] < j < |layer| ==> layer[j] != v
    decreases |layer|
  {
    if layer == [] then map[]
    else
      var init := layer[..|layer| - 1];
      assert forall j :: 0 <= j < |init| ==> init[j] == layer[j];
      PosMap(init)[layer[|layer| - 1] := |layer| - 1]
  }

  method Positions(layer: seq<Node>) returns (pos: map<Node, nat>)
    ensures pos == PosMap(layer)
  {
    pos := map[];
    for i := 0 to |layer|
      invariant pos == PosMap(layer[..i])
    {
      assert layer[..i + 1][..i] == layer[..i];
      pos := pos[layer[i] := i];
    }
    assert layer[..|layer|] == layer;
  }

  // ---------------------------------------------------------------------
  // Sorting a node's edge positions ascending (the numeric comparator)
  // ---------------------------------------------------------------------

  /** Each element is at most its successor. */
  predicate Ascending(s: seq<nat>)
    decreases |s|
  {
    |s| <= 1 || (s[0] <= s[1] && Ascending(s[1..]))
  }

  /** `x` inserted into `s` before the first element not below it. */
  function InsertPosition(x: nat, s: seq<nat>): seq<nat>
    decreases |s|
  {
    if s == [] || x <= s[0] then [x] + s
    else [s[0]] + InsertPosition(x, s[1..])
  }

  /** Insertion sort: the model of sorting with the numeric comparator. */
  function SortPositions(s: seq<nat>): seq<nat>
    decreases |s|
  {
    if s == [] then [] else InsertPosition(s[0], SortPositions(s[1..]))
  }

  lemma {:induction false} InsertPositionSorted(x: nat, s: seq<nat>)
    requires Ascending(s)
    ensures Ascending(InsertPosition(x, s))
    ensures multiset(InsertPosition(x, s)) == multiset(s) + multiset{x}
    ensures |InsertPosition(x, s)| == |s| + 1
    ensures InsertPosition(x, s)[0] == if s == [] || x <= s[0] then x else s[0]
    decreases |s|
  {
    if s != [] && x > s[0] {
      var t := InsertPosition(x, s[1..]);
      InsertPositionSorted(x, s[1..]);
      var r := [s[0]] + t;
      assert InsertPosition(x, s) == r;
      assert r[1..] == t;
      assert s == [s[0]] + s[1..];
      assert multiset(r) == multiset{s[0]} + multiset(t);
    }
  }

  /** The sort yields the ascending permutation of its input. */
  lemma {:induction false} SortPositionsSorted(s: seq<nat>)
    ensures Ascending(SortPositions(s))
    ensures multiset(SortPositions(s)) == multiset(s)
    ensures |SortPositions(s)| == |s|
    decreases |s|
  {
    if s != [] {
      SortPositionsSorted(s[1..]);
      InsertPositionSorted(s[0], SortPositions(s[1..]));
      assert s == [s[0]] + s[1..];
    }
  }

  // ---------------------------------------------------------------------
  // The specification: inversions of the edge-position sequence
  // ---------------------------------------------------------------------

  /** Layer-2 positions of those neighbours that lie in layer 2, in
      neighbour order. */
  function NodeEdges(nbrs: seq<Node>, pos: map<Node, nat>): seq<nat>
    decreases |nbrs|
  {
    if nbrs == [] then []
    else
      var v := nbrs[|nbrs| - 1];
      NodeEdges(nbrs[..|nbrs| - 1], pos) + (if v in pos then [pos[v]] else [])
  }

  /** The edge positions of every layer-1 node in layer-1 order, each node's
      own positions sorted ascending. */
  function EdgeIndices(g: Graph, layer1: seq<Node>, pos: map<Node, nat>): seq<nat>
    decreases |layer1|
  {
    if layer1 == [] then []
    else
      var block := SortPositions(NodeEdges(Neighbors(g, layer1[|layer1| - 1]), pos));
      EdgeIndices(g, layer1[..|layer1| - 1], pos) + block
  }

  lemma {:induction false} NodeEdgesBound(nbrs: seq<Node>, pos: map<Node, nat>, n: nat)
    requires forall v :: v in pos ==> pos[v] < n
    ensures forall k :: 0 <= k < |NodeEdges(nbrs, pos)| ==> NodeEdges(nbrs, pos)[k] < n
    decreases |nbrs|
  {
    if nbrs != [] {
      NodeEdgesBound(nbrs[..|nbrs| - 1], pos, n);
    }
  }

  /** Every edge index is a position of layer 2. */
  lemma {:induction false} EdgeIndicesBound(g: Graph, layer1: seq<Node>, pos: map<Node, nat>, n: nat)
    requires forall v :: v in pos ==> pos[v] < n
    ensures forall k :: 0 <= k < |EdgeIndices(g, layer1, pos)| ==> EdgeIndices(g, layer1, pos)[k] < n
    decreases |layer1|
  {
    if layer1 != [] {
      EdgeIndicesBound(g, layer1[..|layer1| - 1], pos, n);
      var edges := NodeEdges(Neighbors(g, layer1[|layer1| - 1]), pos);
      NodeEdgesBound(Neighbors(g, layer1[|layer1| - 1]), pos, n);
      var block := SortPositions(edges);
      SortPositionsSorted(edges);
      forall k | 0 <= k < |block| ensures block[k] < n {
        assert block[k] in multiset(edges);
      }
    }
  }

  /** How many elements of `s` exceed `x`. */
  function GreaterCount(s: seq<nat>, x: nat): nat
    decreases |s|
  {
    if s == [] then 0
    else GreaterCount(s[..|s| - 1], x) + (if s[|s| - 1] > x then 1 else 0)
  }

  /** Pairs of indices a < b with s[a] > s[b]: the brute-force count. */
  function Inversions(s: seq<nat>): nat
    decreases |s|
  {
    if s == [] then 0
    else Inversions(s[..|s| - 1]) + GreaterCount(s[..|s| - 1], s[|s| - 1])
  }

  /** The crossings between two adjacent ordered layers. */
  function BilayerCrossings(g: Graph, layer1: seq<Node>, layer2: seq<Node>): nat
  {
    Inversions(EdgeIndices(g, layer1, PosMap(layer2)))
  }

  /** The crossings of a whole layering: every consecutive pair of layers,
      empty layers included. */
  function TotalCrossings(g: Graph, layering: seq<seq<Node>>): nat
    decreases |layering|
  {
    if |layering| <= 1 then 0
    else
      TotalCrossings(g, layering[..|layering| - 1])
        + BilayerCrossings(g, layering[|layering| - 2], layering[|layering| - 1])
  }

  // ---------------------------------------------------------------------
  // What the accumulator tree holds
  // ---------------------------------------------------------------------

  /** Inserted positions whose leaf (cell a + off) lies in the subtree of k. */
  function CountUnder(ins: seq<nat>, k: nat, off: nat): nat
    decreases |ins|
  {
    if ins == [] then 0
    else CountUnder(ins[..|ins| - 1], k, off) + (if Anc(k, ins[|ins| - 1] + off) then 1 else 0)
  }

  /** Inserted positions greater than x whose leaf lies in the subtree of t. */
  function CountRightUnder(ins: seq<nat>, x: nat, t: nat, off: nat): nat
    decreases |ins|
  {
    if ins == [] then 0
    else
      var a := ins[|ins| - 1];
      CountRightUnder(ins[..|ins| - 1], x, t, off) + (if a > x && Anc(t, a + off) then 1 else 0)
  }

  /** Cell k has been incremented by the walk from leaf z up to cell t. */
  function OnPath(k: nat, z: nat, t: nat): nat
  {
    if Anc(k, z) && Anc(t, k) then 1 else 0
  }

  lemma {:induction false} CountRightAtLeaf(ins: seq<nat>, x: nat, w: nat)
    requires IsPow2(w) && x < w
    requires forall k :: 0 <= k < |ins| ==> ins[k] < w
    ensures CountRightUnder(ins, x, x + w - 1, w - 1) == 0
    decreases |ins|
  {
    if ins != [] {
      var a := ins[|ins| - 1];
      CountRightAtLeaf(ins[..|ins| - 1], x, w);
      if Anc(x + w - 1, a + w - 1) {
        LeafDepth(w, x + w - 1);
        LeafDepth(w, a + w - 1);
        AncBelow(x + w - 1, a + w - 1);
      }
    }
  }

  lemma {:induction false} CountRightAtRoot(ins: seq<nat>, x: nat, off: nat)
    ensures CountRightUnder(ins, x, 0, off) == GreaterCount(ins, x)
    decreases |ins|
  {
    if ins != [] {
      CountRightAtRoot(ins[..|ins| - 1], x, off);
      AncRoot(ins[|ins| - 1] + off);
    }
  }

  /** One step of the upward walk from the leaf of x: the positions right of
      x under the parent are those under t plus, when t is a left child,
      everything under its right sibling. */
  lemma {:induction false} CountStep(ins: seq<nat>, x: nat, t: nat, w: nat)
    requires IsPow2(w) && x < w
    requires forall k :: 0 <= k < |ins| ==> ins[k] < w
    requires t > 0 && Anc(t, x + w - 1)
    ensures CountRightUnder(ins, x, Parent(t), w - 1)
         == CountRightUnder(ins, x, t, w - 1) + (if t % 2 == 1 then CountUnder(ins, t + 1, w - 1) else 0)
    decreases |ins|
  {
    if ins != [] {
      var a := ins[|ins| - 1];
      CountStep(ins[..|ins| - 1], x, t, w);
      LeafDepth(w, x + w - 1);
      LeafDepth(w, a + w - 1);
      RightOfStep(a + w - 1, x + w - 1, t);
    }
  }

  // ---------------------------------------------------------------------
  // The algorithms
  // ---------------------------------------------------------------------

  /** The number of tree leaves: the smallest power of two that is at least
      `n` (and at least 1). */
  method TreeWidth(n: nat) returns (w: nat)
    ensures IsPow2(w) && n <= w
    ensures w == 1 || w / 2 < n
  {
    w := 1;
    while w < n
      invariant IsPow2(w)
      invariant w == 1 || w / 2 < n
      decreases n - w
    {
      w := w * 2;
    }
  }

  /** Lines 24-36: the layer-2 positions of every layer-1 node's neighbours,
      node by node, each node's block sorted ascending. */
  method CollectEdgeIndices(g: Graph, layer1: seq<Node>, layer2Pos: map<Node, nat>)
    returns (edgeIndices: seq<nat>)
    ensures edgeIndices == EdgeIndices(g, layer1, layer2Pos)
  {
    edgeIndices := [];
    for k := 0 to |layer1|
      invariant edgeIndices == EdgeIndices(g, layer1[..k], layer2Pos)
    {
      var nbrs := Neighbors(g, layer1[k]);
      var nodeEdges: seq<nat> := [];
      for m := 0 to |nbrs|
        invariant nodeEdges == NodeEdges(nbrs[..m], layer2Pos)
      {
        assert nbrs[..m + 1][..m] == nbrs[..m];
        var v := nbrs[m];
        if v in layer2Pos {
          nodeEdges := nodeEdges + [layer2Pos[v]];
        }
      }
      assert nbrs[..|nbrs|] == nbrs;
      nodeEdges := SortPositions(nodeEdges);
      assert layer1[..k + 1][..k] == layer1[..k];
      edgeIndices := edgeIndices + nodeEdges;
    }
    assert layer1[..|layer1|] == layer1;
  }

  /** Lines 51-59, one edge index: bump the leaf of position `i`, then walk
      to the root, adding at every left child what its right sibling holds,
      and bump every cell on the way.  The amount added is the number of
      earlier positions greater than `i`. */
  method InsertEdge(tree: array<nat>, w: nat, ghost ins: seq<nat>, i: nat, cc: nat) returns (cc': nat)
    requires IsPow2(w) && tree.Length == 2 * w - 1 && i < w
    requires forall k :: 0 <= k < |ins| ==> ins[k] < w
    requires forall k :: 0 <= k < tree.Length ==> tree[k] == CountUnder(ins, k, w - 1)
    modifies tree
    ensures forall k :: 0 <= k < tree.Length ==> tree[k] == CountUnder(ins + [i], k, w - 1)
    ensures cc' == cc + GreaterCount(ins, i)
  {
    var firstIndex := w - 1;
    var treeIndex := i + firstIndex;
    tree[treeIndex] := tree[treeIndex] + 1;
    forall k | 0 <= k < tree.Length
      ensures tree[k] == CountUnder(ins, k, firstIndex) + OnPath(k, treeIndex, treeIndex)
    {
      if Anc(k, treeIndex) && Anc(treeIndex, k) { AncBelow(k, treeIndex); AncBelow(treeIndex, k); }
    }
    cc' := Climb(tree, w, ins, i, cc);
    CountRightAtRoot(ins, i, firstIndex);
    forall k | 0 <= k < tree.Length
      ensures tree[k] == CountUnder(ins + [i], k, firstIndex)
    {
      AncRoot(k);
      assert (ins + [i])[..|ins|] == ins;
    }
  }

  /** Lines 53-58: the walk from the leaf of `i` to the root. */
  method Climb(tree: array<nat>, w: nat, ghost ins: seq<nat>, i: nat, cc: nat) returns (cc': nat)
    requires IsPow2(w) && tree.Length == 2 * w - 1 && i < w
    requires forall k :: 0 <= k < |ins| ==> ins[k] < w
    requires forall k :: 0 <= k < tree.Length ==>
      tree[k] == CountUnder(ins, k, w - 1) + OnPath(k, i + w - 1, i + w - 1)
    modifies tree
    ensures forall k :: 0 <= k < tree.Length ==> tree[k] == CountUnder(ins, k, w - 1) + OnPath(k, i + w - 1, 0)
    ensures cc' == cc + CountRightUnder(ins, i, 0, w - 1)
  {
    var firstIndex := w - 1;
    var treeIndex := i + firstIndex;
    ghost var leaf := treeIndex;
    cc' := cc;
    CountRightAtLeaf(ins, i, w);
    while treeIndex > 0
      invariant 0 <= treeIndex < tree.Length && Anc(treeIndex, leaf)
      invariant forall k :: 0 <= k < tree.Length ==> tree[k] == CountUnder(ins, k, firstIndex) + OnPath(k, leaf, treeIndex)
      invariant cc' == cc + CountRightUnder(ins, i, treeIndex, firstIndex)
    {
      ghost var t := treeIndex;
      CountStep(ins, i, t, w);
      if treeIndex % 2 == 1 {
        SiblingApart(t, leaf);
        cc' := cc' + tree[treeIndex + 1];
      }
      treeIndex := (treeIndex - 1) / 2;
      assert treeIndex == Parent(t);
      AncTrans(treeIndex, t, leaf);
      tree[treeIndex] := tree[treeIndex] + 1;
      forall k | 0 <= k < tree.Length
        ensures tree[k] == CountUnder(ins, k, firstIndex) + OnPath(k, leaf, treeIndex)
      {
        if Anc(k, leaf) { PathStep(k, leaf, t); }
      }
    }
  }

  /** Lines 49-60: insert the positions one by one into an all-zero tree with
      `w` leaves.  The total is the number of inversions, and every cell
      ends up counting the positions whose leaf lies in its subtree. */
  method Accumulate(edgeIndices: seq<nat>, w: nat, tree: array<nat>) returns (cc: nat)
    requires IsPow2(w) && tree.Length == 2 * w - 1
    requires forall k :: 0 <= k < |edgeIndices| ==> edgeIndices[k] < w
    requires forall k :: 0 <= k < tree.Length ==> tree[k] == 0
    modifies tree
    ensures cc == Inversions(edgeIndices)
    ensures forall k :: 0 <= k < tree.Length ==> tree[k] == CountUnder(edgeIndices, k, w - 1)
  {
    cc := 0;
    for j := 0 to |edgeIndices|
      invariant forall k :: 0 <= k < tree.Length ==> tree[k] == CountUnder(edgeIndices[..j], k, w - 1)
      invariant cc == Inversions(edgeIndices[..j])
    {
      assert edgeIndices[..j + 1] == edgeIndices[..j] + [edgeIndices[j]];
      cc := InsertEdge(tree, w, edgeIndices[..j], edgeIndices[j], cc);
    }
    assert edgeIndices[..|edgeIndices|] == edgeIndices;
  }

  method BilayerCrossCount(g: Graph, layer1: seq<Node>, layer2: seq<Node>) returns (cc: nat)
    ensures cc == BilayerCrossings(g, layer1, layer2)
  {
    var layer2Pos := Positions(layer2);
    var edgeIndices := CollectEdgeIndices(g, layer1, layer2Pos);

    var firstIndex := TreeWidth(|layer2|);
    var w := firstIndex;
    var treeSize := 2 * firstIndex - 1;
    firstIndex := firstIndex - 1;

    var tree := new nat[treeSize];
    for i := 0 to treeSize
      invariant forall k :: 0 <= k < i ==> tree[k] == 0
    {
      tree[i] := 0;
    }

    EdgeIndicesBound(g, layer1, layer2Pos, w);
    cc := Accumulate(edgeIndices, w, tree);
  }

  lemma TotalCrossingsStep(g: Graph, layering: seq<seq<Node>>, k: nat)
    requires 0 < k < |layering|
    ensures TotalCrossings(g, layering[..k + 1])
         == TotalCrossings(g, layering[..k]) + BilayerCrossings(g, layering[k - 1], layering[k])
  {
    assert layering[..k + 1][..k] == layering[..k];
  }

  method CrossCount(g: Graph, layering: seq<seq<Node>>) returns (cc: nat)
    ensures cc == TotalCrossings(g, layering)
  {
    cc := 0;
    var prevLayer: Option<seq<Node>> := None;
    for k := 0 to |layering|
      invariant cc == TotalCrossings(g, layering[..k])
      invariant k == 0 ==> prevLayer == None
      invariant k > 0 ==> prevLayer == Some(layering[k - 1])
    {
      var layer := layering[k];
      if prevLayer.Some? {
        var c := BilayerCrossCount(g, prevLayer.value, layer);
        TotalCrossingsStep(g, layering, k);
        cc := cc + c;
      } else {
        assert TotalCrossings(g, layering[..1]) == 0;
      }
      prevLayer := Some(layer);
    }
    assert layering[..|layering|] == layering;
  }
}
