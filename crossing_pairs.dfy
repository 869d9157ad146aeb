// What the bilayer crossing count means: the number of pairs of edges
// (u1, v1), (u2, v2) with u1 strictly before u2 in layer 1 and v1 strictly
// after v2 in layer 2, counted pair by pair without any sorting.

module CrossingPairs {
  import opened Graphs
  import opened Crossings

  /** Pairs (a, b), a taken from `s` and b from `t`, with a > b. */
  function CrossPairs(s: seq<nat>, t: seq<nat>): nat
    decreases |t|
  {
    if t == [] then 0
    else CrossPairs(s, t[..|t| - 1]) + GreaterCount(s, t[|t| - 1])
  }

  /** The edge positions of layer 1, node by node, each node's in neighbour
      order (unsorted). */
  function EdgesInOrder(g: Graph, layer1: seq<Node>, pos: map<Node, nat>): seq<nat>
    decreases |layer1|
  {
    if layer1 == [] then []
    else EdgesInOrder(g, layer1[..|layer1| - 1], pos) + NodeEdges(Neighbors(g, layer1[|layer1| - 1]), pos)
  }

  /** The brute-force count: every edge of the last layer-1 node against
      every edge of the nodes before it. */
  function EdgePairCrossings(g: Graph, layer1: seq<Node>, pos: map<Node, nat>): nat
    decreases |layer1|
  {
    if layer1 == [] then 0
    else
      var prefix := layer1[..|layer1| - 1];
      EdgePairCrossings(g, prefix, pos)
        + CrossPairs(EdgesInOrder(g, prefix, pos), NodeEdges(Neighbors(g, layer1[|layer1| - 1]), pos))
  }

  // ---------------------------------------------------------------------
  // Counting lemmas
  // ---------------------------------------------------------------------

  lemma {:induction false} GreaterCountAppend(s: seq<nat>, t: seq<nat>, x: nat)
    ensures GreaterCount(s + t, x) == GreaterCount(s, x) + GreaterCount(t, x)
    decreases |t|
  {
    if t != [] {
      var t' := t[..|t| - 1];
      assert (s + t)[..|s + t| - 1] == s + t';
      GreaterCountAppend(s, t', x);
    } else {
      assert s + t == s;
    }
  }

  lemma {:induction false} CrossPairsAppend(s: seq<nat>, t: seq<nat>, u: seq<nat>)
    ensures CrossPairs(s, t + u) == CrossPairs(s, t) + CrossPairs(s, u)
    decreases |u|
  {
    if u != [] {
      var u' := u[..|u| - 1];
      assert (t + u)[..|t + u| - 1] == t + u';
      CrossPairsAppend(s, t, u');
    } else {
      assert t + u == t;
    }
  }

  /** The inversions of a concatenation: those inside each part and the
      pairs across. */
  lemma {:induction false} InversionsAppend(s: seq<nat>, t: seq<nat>)
    ensures Inversions(s + t) == Inversions(s) + Inversions(t) + CrossPairs(s, t)
    decreases |t|
  {
    if t != [] {
      var t' := t[..|t| - 1];
      var b := t[|t| - 1];
      assert (s + t)[..|s + t| - 1] == s + t';
      InversionsAppend(s, t');
      GreaterCountAppend(s, t', b);
    } else {
      assert s + t == s;
    }
  }

  lemma {:induction false} GreaterCountRemove(s: seq<nat>, k: nat, x: nat)
    requires k < |s|
    ensures GreaterCount(s, x) == GreaterCount(s[..k] + s[k + 1..], x) + (if s[k] > x then 1 else 0)
  {
    assert s == s[..k] + ([s[k]] + s[k + 1..]);
    GreaterCountAppend(s[..k], [s[k]] + s[k + 1..], x);
    GreaterCountAppend([s[k]], s[k + 1..], x);
    GreaterCountAppend(s[..k], s[k + 1..], x);
    assert [s[k]][..0] == [];
  }

  lemma {:induction false} CrossPairsRemove(s: seq<nat>, t: seq<nat>, k: nat)
    requires k < |t|
    ensures CrossPairs(s, t) == CrossPairs(s, t[..k] + t[k + 1..]) + GreaterCount(s, t[k])
  {
    assert t == t[..k] + ([t[k]] + t[k + 1..]);
    CrossPairsAppend(s, t[..k], [t[k]] + t[k + 1..]);
    CrossPairsAppend(s, [t[k]], t[k + 1..]);
    CrossPairsAppend(s, t[..k], t[k + 1..]);
    assert [t[k]][..0] == [];
  }

  /** Taking out the element at `k` takes it out of the multiset. */
  lemma RemoveAt(s: seq<nat>, k: nat)
    requires k < |s|
    ensures multiset(s[..k] + s[k + 1..]) == multiset(s) - multiset{s[k]}
  {
    assert s == s[..k] + [s[k]] + s[k + 1..];
  }

  /** How many elements exceed `x` depends only on the multiset. */
  lemma {:induction false} GreaterCountPermutation(s: seq<nat>, s': seq<nat>, x: nat)
    requires multiset(s) == multiset(s')
    ensures GreaterCount(s, x) == GreaterCount(s', x)
    decreases |s|
  {
    if s != [] {
      var a := s[|s| - 1];
      assert s == s[..|s| - 1] + [a];
      assert a in multiset(s');
      var k :| 0 <= k < |s'| && s'[k] == a;
      RemoveAt(s', k);
      GreaterCountRemove(s', k, x);
      GreaterCountPermutation(s[..|s| - 1], s'[..k] + s'[k + 1..], x);
    } else {
      assert |s'| == |multiset(s')|;
    }
  }

  lemma {:induction false} CrossPairsPermutationLeft(s: seq<nat>, s': seq<nat>, t: seq<nat>)
    requires multiset(s) == multiset(s')
    ensures CrossPairs(s, t) == CrossPairs(s', t)
    decreases |t|
  {
    if t != [] {
      CrossPairsPermutationLeft(s, s', t[..|t| - 1]);
      GreaterCountPermutation(s, s', t[|t| - 1]);
    }
  }

  lemma {:induction false} CrossPairsPermutationRight(s: seq<nat>, t: seq<nat>, t': seq<nat>)
    requires multiset(t) == multiset(t')
    ensures CrossPairs(s, t) == CrossPairs(s, t')
    decreases |t|
  {
    if t != [] {
      var b := t[|t| - 1];
      assert t == t[..|t| - 1] + [b];
      assert b in multiset(t');
      var k :| 0 <= k < |t'| && t'[k] == b;
      RemoveAt(t', k);
      CrossPairsRemove(s, t', k);
      CrossPairsPermutationRight(s, t[..|t| - 1], t'[..k] + t'[k + 1..]);
    } else {
      assert |t'| == |multiset(t')|;
    }
  }

  lemma {:induction false} GreaterCountNone(s: seq<nat>, x: nat)
    requires forall k :: 0 <= k < |s| ==> s[k] <= x
    ensures GreaterCount(s, x) == 0
    decreases |s|
  {
    if s != [] {
      GreaterCountNone(s[..|s| - 1], x);
    }
  }

  /** Every element of an ascending sequence is at most its last one, and
      dropping the last element keeps it ascending. */
  lemma {:induction false} AscendingLast(s: seq<nat>)
    requires Ascending(s) && s != []
    ensures forall k :: 0 <= k < |s| ==> s[k] <= s[|s| - 1]
    ensures Ascending(s[..|s| - 1])
    decreases |s|
  {
    if |s| > 1 {
      AscendingLast(s[1..]);
      assert s[1..][..|s| - 2] == s[..|s| - 1][1..];
      forall k | 0 <= k < |s| ensures s[k] <= s[|s| - 1] {
        if k > 0 { assert s[k] == s[1..][k - 1]; }
      }
    }
  }

  /** A sorted sequence has no inversions: two edges of the same node never
      cross. */
  lemma {:induction false} AscendingNoInversions(s: seq<nat>)
    requires Ascending(s)
    ensures Inversions(s) == 0
    decreases |s|
  {
    if s != [] {
      AscendingLast(s);
      AscendingNoInversions(s[..|s| - 1]);
      GreaterCountNone(s[..|s| - 1], s[|s| - 1]);
    }
  }

  lemma {:induction false} EdgeIndicesPermutation(g: Graph, layer1: seq<Node>, pos: map<Node, nat>)
    ensures multiset(EdgeIndices(g, layer1, pos)) == multiset(EdgesInOrder(g, layer1, pos))
    decreases |layer1|
  {
    if layer1 != [] {
      EdgeIndicesPermutation(g, layer1[..|layer1| - 1], pos);
      SortPositionsSorted(NodeEdges(Neighbors(g, layer1[|layer1| - 1]), pos));
    }
  }

  // ---------------------------------------------------------------------
  // The meaning of the bilayer count
  // ---------------------------------------------------------------------

  /** The inversions of the edge-index sequence are exactly the crossing
      edge pairs of the brute-force count. */
  lemma {:induction false} InversionsArePairCrossings(g: Graph, layer1: seq<Node>, pos: map<Node, nat>)
    ensures Inversions(EdgeIndices(g, layer1, pos)) == EdgePairCrossings(g, layer1, pos)
    decreases |layer1|
  {
    if layer1 != [] {
      var prefix := layer1[..|layer1| - 1];
      var edges := NodeEdges(Neighbors(g, layer1[|layer1| - 1]), pos);
      var block := SortPositions(edges);
      InversionsArePairCrossings(g, prefix, pos);
      InversionsAppend(EdgeIndices(g, prefix, pos), block);
      SortPositionsSorted(edges);
      AscendingNoInversions(block);
      EdgeIndicesPermutation(g, prefix, pos);
      CrossPairsPermutationLeft(EdgeIndices(g, prefix, pos), EdgesInOrder(g, prefix, pos), block);
      CrossPairsPermutationRight(EdgesInOrder(g, prefix, pos), block, edges);
    }
  }

  /** The bilayer crossing count equals the brute-force pairwise count. */
  lemma BilayerIsPairCount(g: Graph, layer1: seq<Node>, layer2: seq<Node>)
    ensures BilayerCrossings(g, layer1, layer2) == EdgePairCrossings(g, layer1, PosMap(layer2))
  {
    InversionsArePairCrossings(g, layer1, PosMap(layer2));
  }

  // ---------------------------------------------------------------------
  // Cases with no crossings, and the two-by-two example
  // ---------------------------------------------------------------------

  lemma {:induction false} NodeEdgesOutside(nbrs: seq<Node>, pos: map<Node, nat>)
    requires forall k :: 0 <= k < |nbrs| ==> nbrs[k] !in pos
    ensures NodeEdges(nbrs, pos) == []
    decreases |nbrs|
  {
    if nbrs != [] {
      NodeEdgesOutside(nbrs[..|nbrs| - 1], pos);
    }
  }

  /** No neighbour of a layer-1 node lies in layer 2: nothing crosses. */
  lemma {:induction false} NoEdgesNoCrossings(g: Graph, layer1: seq<Node>, layer2: seq<Node>)
    requires forall u, v :: u in layer1 && v in Neighbors(g, u) ==> v !in layer2
    ensures EdgeIndices(g, layer1, PosMap(layer2)) == []
    ensures BilayerCrossings(g, layer1, layer2) == 0
    decreases |layer1|
  {
    if layer1 != [] {
      var u := layer1[|layer1| - 1];
      NoEdgesNoCrossings(g, layer1[..|layer1| - 1], layer2);
      NodeEdgesOutside(Neighbors(g, u), PosMap(layer2));
    }
  }

  lemma {:induction false} AllZeroNoInversions(s: seq<nat>)
    requires forall k :: 0 <= k < |s| ==> s[k] == 0
    ensures Inversions(s) == 0
    decreases |s|
  {
    if s != [] {
      AllZeroNoInversions(s[..|s| - 1]);
      GreaterCountNone(s[..|s| - 1], 0);
    }
  }

  /** A layer 2 of at most one node admits no crossing. */
  lemma SmallLayerNoCrossings(g: Graph, layer1: seq<Node>, layer2: seq<Node>)
    requires |layer2| <= 1
    ensures BilayerCrossings(g, layer1, layer2) == 0
  {
    EdgeIndicesBound(g, layer1, PosMap(layer2), 1);
    AllZeroNoInversions(EdgeIndices(g, layer1, PosMap(layer2)));
  }

  /** A layering whose layers hold at most one node each (a chain) has no
      crossings. */
  lemma {:induction false} SingletonLayersNoCrossings(g: Graph, layering: seq<seq<Node>>)
    requires forall k :: 0 <= k < |layering| ==> |layering[k]| <= 1
    ensures TotalCrossings(g, layering) == 0
    decreases |layering|
  {
    if |layering| > 1 {
      SingletonLayersNoCrossings(g, layering[..|layering| - 1]);
      SmallLayerNoCrossings(g, layering[|layering| - 2], layering[|layering| - 1]);
    }
  }

  /** Layer 1 = [A, B], layer 2 = [X, Y], edges A-Y and B-X: one crossing;
      with layer 2 reordered to [Y, X], none. */
  lemma CrossedPairExample()
    ensures var g := Graph([1, 2, 3, 4], map[1 := [4], 2 := [3], 3 := [2], 4 := [1]]);
            BilayerCrossings(g, [1, 2], [3, 4]) == 1 && BilayerCrossings(g, [1, 2], [4, 3]) == 0
  {
    var g := Graph([1, 2, 3, 4], map[1 := [4], 2 := [3], 3 := [2], 4 := [1]]);
    var p := PosMap([3, 4]);
    assert [3, 4][..1] == [3];
    assert p == map[3 := 0, 4 := 1];
    assert [1, 2][..1] == [1];
    assert NodeEdges([4], p) == [1] by { assert [4][..0] == []; }
    assert NodeEdges([3], p) == [0] by { assert [3][..0] == []; }
    assert EdgeIndices(g, [1], p) == [1];
    assert Neighbors(g, 2) == [3] && SortPositions([0]) == [0];
    assert EdgeIndices(g, [1, 2], p) == [1, 0];
    assert [1, 0][..1] == [1];
    var q := PosMap([4, 3]);
    assert [4, 3][..1] == [4];
    assert q == map[4 := 0, 3 := 1];
    assert NodeEdges([4], q) == [0] by { assert [4][..0] == []; }
    assert NodeEdges([3], q) == [1] by { assert [3][..0] == []; }
    assert EdgeIndices(g, [1], q) == [0];
    assert SortPositions([1]) == [1];
    assert EdgeIndices(g, [1, 2], q) == [0, 1];
    assert [0, 1][..1] == [0];
  }
}
