// One barycenter step (improveLayer with rankWeights): each node of the
// movable layer that has neighbours in the fixed layer is weighted by the
// mean position of those neighbours; the weighted nodes are re-sorted by
// (weight, original position) into the slots weighted nodes occupied, and
// the nodes without a weight keep their slots.

module Barycenter {
  import opened Graphs
  import opened Crossings

  /** Marks a node whose neighbours include no node of the fixed layer. */
  const NoWeight: real := -1.0

  /** Sum of the fixed-layer positions of the neighbours in `nbrs`. */
  function FixedSum(nbrs: seq<Node>, pos: map<Node, nat>): nat
    decreases |nbrs|
  {
    if |nbrs| == 0 then 0
    else
      var v := nbrs[|nbrs| - 1];
      FixedSum(nbrs[..|nbrs| - 1], pos) + (if v in pos then pos[v] else 0)
  }

  /** Number of neighbours in `nbrs` that are in the fixed layer. */
  function FixedCount(nbrs: seq<Node>, pos: map<Node, nat>): nat
    decreases |nbrs|
  {
    if |nbrs| == 0 then 0
    else FixedCount(nbrs[..|nbrs| - 1], pos) + (if nbrs[|nbrs| - 1] in pos then 1 else 0)
  }

  /** The barycenter weight of `u` against the fixed layer positioned by `pos`. */
  function Weight(g: Graph, pos: map<Node, nat>, u: Node): real
  {
    var n := FixedCount(Neighbors(g, u), pos);
    if n == 0 then NoWeight else FixedSum(Neighbors(g, u), pos) as real / n as real
  }

  lemma {:induction false} FixedCountZero(nbrs: seq<Node>, pos: map<Node, nat>)
    ensures FixedCount(nbrs, pos) == 0 <==> forall v :: v in nbrs ==> v !in pos
    decreases |nbrs|
  {
    if |nbrs| > 0 {
      var p := nbrs[..|nbrs| - 1];
      var last := nbrs[|nbrs| - 1];
      FixedCountZero(p, pos);
      assert forall v :: v in nbrs <==> v in p || v == last by {
        assert nbrs == p + [last];
      }
    }
  }

  lemma {:induction false} FixedSumBound(nbrs: seq<Node>, pos: map<Node, nat>, n: nat)
    requires forall v :: v in pos ==> pos[v] < n
    ensures FixedSum(nbrs, pos) <= FixedCount(nbrs, pos) * (n - 1)
    decreases |nbrs|
  {
    if |nbrs| > 0 {
      var p := nbrs[..|nbrs| - 1];
      FixedSumBound(p, pos, n);
      var c := FixedCount(p, pos);
      assert (c + 1) * (n - 1) == c * (n - 1) + (n - 1);
    }
  }

  /** A weight is either the sentinel, for a node with no neighbour `pos`
      knows, or (being their mean) a value within the known positions. */
  lemma WeightBounds(g: Graph, pos: map<Node, nat>, u: Node, n: nat)
    requires forall v :: v in pos ==> pos[v] < n
    ensures Weight(g, pos, u) == NoWeight <==> forall v :: v in Neighbors(g, u) ==> v !in pos
    ensures Weight(g, pos, u) != NoWeight ==> 0.0 <= Weight(g, pos, u) <= (n - 1) as real
  {
    var nbrs := Neighbors(g, u);
    FixedCountZero(nbrs, pos);
    var c := FixedCount(nbrs, pos);
    if c > 0 {
      var sum := FixedSum(nbrs, pos);
      FixedSumBound(nbrs, pos, n);
      var v :| v in nbrs && v in pos;
      assert n >= 1;
      MeanBound(sum, c, n - 1);
      assert Weight(g, pos, u) == sum as real / c as real;
    } else {
      assert Weight(g, pos, u) == NoWeight;
    }
  }

  lemma MeanBound(s: nat, n: nat, k: nat)
    requires n > 0 && s <= n * k
    ensures 0.0 <= s as real / n as real <= k as real
  {
    assert (n * k) as real == n as real * k as real;
  }

  /** rankWeights, lines 149-169: the sentinel weight is given exactly to the
      nodes with no neighbour in the fixed layer; any other weight (the mean
      of their fixed positions, by WeightBounds) lies between the first and
      the last position of that layer. */
  lemma WeightMeaning(g: Graph, fixed: seq<Node>, u: Node)
    ensures Weight(g, PosMap(fixed), u) == NoWeight <==>
            forall v :: v in Neighbors(g, u) ==> v !in fixed
    ensures Weight(g, PosMap(fixed), u) != NoWeight ==>
            0.0 <= Weight(g, PosMap(fixed), u) <= (|fixed| - 1) as real
  {
    var pos := PosMap(fixed);
    WeightBounds(g, pos, u, |fixed|);
    var w := Weight(g, pos, u);
    assert w == NoWeight <==> forall v :: v in Neighbors(g, u) ==> v !in fixed;
  }

  /** An entry of `toSort`: a weighted node and its slot in the layer. */
  datatype Entry = Entry(node: Node, weight: real, pos: nat)

  /** The comparator of lines 126-132 answers "not after": lower weight
      first, ties broken by the original slot. */
  predicate NotAfter(x: Entry, y: Entry)
  {
    x.weight < y.weight || (x.weight == y.weight && x.pos <= y.pos)
  }

  predicate Ordered(s: seq<Entry>)
  {
    |s| <= 1 || (NotAfter(s[0], s[1]) && Ordered(s[1..]))
  }

  function InsertEntry(x: Entry, s: seq<Entry>): seq<Entry>
  {
    if |s| == 0 || NotAfter(x, s[0]) then [x] + s else [s[0]] + InsertEntry(x, s[1..])
  }

  /** The library sort of line 126, as an insertion sort. */
  function SortEntries(s: seq<Entry>): seq<Entry>
  {
    if |s| == 0 then [] else InsertEntry(s[0], SortEntries(s[1..]))
  }

  lemma {:induction false} InsertEntrySorted(x: Entry, s: seq<Entry>)
    requires Ordered(s)
    ensures Ordered(InsertEntry(x, s))
    ensures multiset(InsertEntry(x, s)) == multiset(s) + multiset{x}
    ensures |InsertEntry(x, s)| == |s| + 1
    ensures InsertEntry(x, s)[0] == if s == [] || NotAfter(x, s[0]) then x else s[0]
  {
    if |s| > 0 && !NotAfter(x, s[0]) {
      var t := InsertEntry(x, s[1..]);
      InsertEntrySorted(x, s[1..]);
      var r := [s[0]] + t;
      assert InsertEntry(x, s) == r;
      assert r[1..] == t;
      assert s == [s[0]] + s[1..];
      assert multiset(r) == multiset{s[0]} + multiset(t);
    }
  }

  lemma {:induction false} SortEntriesSorted(s: seq<Entry>)
    ensures Ordered(SortEntries(s))
    ensures multiset(SortEntries(s)) == multiset(s)
    ensures |SortEntries(s)| == |s|
  {
    if |s| > 0 {
      SortEntriesSorted(s[1..]);
      InsertEntrySorted(s[0], SortEntries(s[1..]));
      assert s == [s[0]] + s[1..];
    }
  }

  /** Sorting an ordered sequence leaves it as it is. */
  lemma {:induction false} SortEntriesOrdered(s: seq<Entry>)
    requires Ordered(s)
    ensures SortEntries(s) == s
  {
    if |s| > 0 {
      SortEntriesOrdered(s[1..]);
      assert s == [s[0]] + s[1..];
    }
  }

  /** Any two entries of an ordered sequence are in comparator order. */
  lemma {:induction false} OrderedPairs(s: seq<Entry>, a: nat, b: nat)
    requires Ordered(s) && a < b < |s|
    ensures NotAfter(s[a], s[b])
    decreases b
  {
    if a == 0 {
      if b > 1 { OrderedPairs(s[1..], 0, b - 1); }
    } else {
      OrderedPairs(s[1..], a - 1, b - 1);
    }
  }

  /** The weight function improveLayer consults, as a total function of
      the node (rankWeights gives a node the same weight wherever it sits). */
  function WeightFn(g: Graph, pos: map<Node, nat>): Node -> real
  {
    u => Weight(g, pos, u)
  }

  /** Lines 117-124: the weighted nodes of `m` as entries, in slot order. */
  function Weighted(W: Node -> real, m: seq<Node>): seq<Entry>
    decreases |m|
  {
    if |m| == 0 then []
    else
      var n := |m| - 1;
      Weighted(W, m[..n]) + (if W(m[n]) != NoWeight then [Entry(m[n], W(m[n]), n)] else [])
  }

  /** Number of weighted slots of `m`. */
  function CountWeighted(W: Node -> real, m: seq<Node>): nat
    decreases |m|
  {
    if |m| == 0 then 0
    else CountWeighted(W, m[..|m| - 1]) + (if W(m[|m| - 1]) != NoWeight then 1 else 0)
  }

  /** Lines 134-141: slot by slot, a weighted slot takes the next sorted
      node and an unweighted slot keeps its own. */
  function Fill(W: Node -> real, m: seq<Node>, s: seq<Entry>): (r: seq<Node>)
    requires |s| == CountWeighted(W, m)
    ensures |r| == |m|
    decreases |m|
  {
    if |m| == 0 then []
    else
      var n := |m| - 1;
      if W(m[n]) != NoWeight then Fill(W, m[..n], s[..|s| - 1]) + [s[|s| - 1].node]
      else Fill(W, m[..n], s) + [m[n]]
  }

  lemma {:induction false} WeightedCount(W: Node -> real, m: seq<Node>)
    ensures |Weighted(W, m)| == CountWeighted(W, m)
    decreases |m|
  {
    if |m| > 0 { WeightedCount(W, m[..|m| - 1]); }
  }

  /** The weighted slots of `m` refilled in sorted (weight, slot) order. */
  function Reorder(W: Node -> real, m: seq<Node>): seq<Node>
  {
    var s := SortEntries(Weighted(W, m));
    SortEntriesSorted(Weighted(W, m));
    WeightedCount(W, m);
    Fill(W, m, s)
  }

  /** The layer that improveLayer leaves in `movable`. */
  function BarycenterOrder(g: Graph, fixed: seq<Node>, m: seq<Node>): seq<Node>
  {
    Reorder(WeightFn(g, PosMap(fixed)), m)
  }

  /** The nodes of a sequence of entries, in order. */
  function Nodes(s: seq<Entry>): seq<Node>
  {
    if |s| == 0 then [] else [s[0].node] + Nodes(s[1..])
  }

  lemma {:induction false} NodesSnoc(s: seq<Entry>, e: Entry)
    ensures Nodes(s + [e]) == Nodes(s) + [e.node]
    decreases |s|
  {
    if |s| > 0 {
      assert (s + [e])[1..] == s[1..] + [e];
      NodesSnoc(s[1..], e);
    }
  }

  lemma {:induction false} InsertEntryNodes(x: Entry, s: seq<Entry>)
    ensures multiset(Nodes(InsertEntry(x, s))) == multiset(Nodes(s)) + multiset{x.node}
    decreases |s|
  {
    if |s| > 0 && !NotAfter(x, s[0]) {
      InsertEntryNodes(x, s[1..]);
    }
  }

  lemma {:induction false} SortEntriesNodes(s: seq<Entry>)
    ensures multiset(Nodes(SortEntries(s))) == multiset(Nodes(s))
    decreases |s|
  {
    if |s| > 0 {
      SortEntriesNodes(s[1..]);
      InsertEntryNodes(s[0], SortEntries(s[1..]));
    }
  }

  /** Filling the weighted slots of `m` with the nodes of `s` trades the
      weighted nodes of `m` for the nodes of `s`. */
  lemma {:induction false} FillMultiset(W: Node -> real, m: seq<Node>, s: seq<Entry>)
    requires |s| == CountWeighted(W, m)
    ensures multiset(m) + multiset(Nodes(s)) == multiset(Fill(W, m, s)) + multiset(Nodes(Weighted(W, m)))
    decreases |m|
  {
    if |m| > 0 {
      var n := |m| - 1;
      var p := m[..n];
      var a := Weighted(W, p);
      assert m == p + [m[n]];
      if W(m[n]) != NoWeight {
        var s', x, e := s[..|s| - 1], s[|s| - 1], Entry(m[n], W(m[n]), n);
        assert s == s' + [x];
        FillMultiset(W, p, s');
        var f := Fill(W, p, s');
        assert multiset(m) + multiset(Nodes(s)) == multiset(Fill(W, m, s)) + multiset(Nodes(Weighted(W, m))) by {
          NodesSnoc(s', x);
          NodesSnoc(a, e);
          assert Fill(W, m, s) == f + [x.node];
          assert Weighted(W, m) == a + [e];
          MultisetShuffle(multiset(p), multiset(Nodes(s')), multiset(f), multiset(Nodes(a)),
                          multiset{m[n]}, multiset{x.node});
        }
      } else {
        FillMultiset(W, p, s);
        var f := Fill(W, p, s);
        assert multiset(m) + multiset(Nodes(s)) == multiset(Fill(W, m, s)) + multiset(Nodes(Weighted(W, m))) by {
          assert Fill(W, m, s) == f + [m[n]];
          assert Weighted(W, m) == a;
          MultisetAddOne(multiset(p), multiset(Nodes(s)), multiset(f), multiset(Nodes(a)), multiset{m[n]});
        }
      }
    }
  }

  lemma MultisetShuffle(a: multiset<Node>, b: multiset<Node>, c: multiset<Node>, d: multiset<Node>,
                        x: multiset<Node>, y: multiset<Node>)
    requires a + b == c + d
    ensures (a + x) + (b + y) == (c + y) + (d + x)
  {
    forall k ensures ((a + x) + (b + y))[k] == ((c + y) + (d + x))[k] {
      assert (a + b)[k] == (c + d)[k];
    }
  }

  lemma MultisetAddOne(a: multiset<Node>, b: multiset<Node>, c: multiset<Node>, d: multiset<Node>,
                       x: multiset<Node>)
    requires a + b == c + d
    ensures (a + x) + b == (c + x) + d
  {
    forall k ensures ((a + x) + b)[k] == ((c + x) + d)[k] {
      assert (a + b)[k] == (c + d)[k];
    }
  }

  lemma MultisetCancel(a: multiset<Node>, b: multiset<Node>, c: multiset<Node>)
    requires a + b == c + b
    ensures a == c
  {
    forall k ensures a[k] == c[k] {
      assert (a + b)[k] == (c + b)[k];
    }
  }

  /** Every entry of `Weighted(W, m)` records a weighted slot of `m`: the
      slot, its node and the node's weight. */
  lemma {:induction false} WeightedEntries(W: Node -> real, m: seq<Node>)
    ensures forall e :: e in Weighted(W, m) ==>
      e.pos < |m| && e.node == m[e.pos] && e.weight == W(e.node) && e.weight != NoWeight
    decreases |m|
  {
    if |m| > 0 {
      WeightedEntries(W, m[..|m| - 1]);
    }
  }

  lemma {:induction false} CountWeightedStep(W: Node -> real, m: seq<Node>, i: nat, j: nat)
    requires i < j <= |m|
    ensures CountWeighted(W, m[..i]) + (if W(m[i]) != NoWeight then 1 else 0) <= CountWeighted(W, m[..j])
    decreases j
  {
    assert (m[..j])[..j - 1] == m[..j - 1];
    if j > i + 1 {
      CountWeightedStep(W, m, i, j - 1);
    }
  }

  /** One more slot of a prefix adds its own weightedness to the count. */
  lemma CountWeightedPrefix(W: Node -> real, m: seq<Node>, i: nat)
    requires i < |m|
    ensures CountWeighted(W, m[..i + 1]) == CountWeighted(W, m[..i]) + (if W(m[i]) != NoWeight then 1 else 0)
  {
    assert m[..i + 1][..i] == m[..i];
  }

  /** What `Fill` puts in slot `i`. */
  lemma {:induction false} FillAt(W: Node -> real, m: seq<Node>, s: seq<Entry>, i: nat)
    requires |s| == CountWeighted(W, m) && i < |m|
    ensures W(m[i]) == NoWeight ==> Fill(W, m, s)[i] == m[i]
    ensures W(m[i]) != NoWeight ==>
      CountWeighted(W, m[..i]) < |s| && Fill(W, m, s)[i] == s[CountWeighted(W, m[..i])].node
    decreases |m|
  {
    var n := |m| - 1;
    if i < n {
      var s' := if W(m[n]) != NoWeight then s[..|s| - 1] else s;
      FillAt(W, m[..n], s', i);
      assert (m[..n])[..i] == m[..i];
    }
  }

  lemma {:induction false} OrderedSnoc(s: seq<Entry>, e: Entry)
    requires Ordered(s) && (|s| == 0 || NotAfter(s[|s| - 1], e))
    ensures Ordered(s + [e])
    decreases |s|
  {
    if |s| > 1 {
      assert (s + [e])[1..] == s[1..] + [e];
      OrderedSnoc(s[1..], e);
    }
  }

  /** Weights that never decrease along the weighted slots. */
  ghost predicate SlotsInOrder(W: Node -> real, m: seq<Node>)
  {
    forall i, j :: 0 <= i < j < |m| && W(m[i]) != NoWeight && W(m[j]) != NoWeight ==> W(m[i]) <= W(m[j])
  }

  /** A layer whose weighted slots are in order yields its entries sorted. */
  lemma {:induction false} OrderedWeights(W: Node -> real, m: seq<Node>)
    requires SlotsInOrder(W, m)
    ensures Ordered(Weighted(W, m))
    decreases |m|
  {
    if |m| > 0 {
      var n := |m| - 1;
      var a := Weighted(W, m[..n]);
      assert SlotsInOrder(W, m[..n]) by {
        forall i, j | 0 <= i < j < n && W(m[..n][i]) != NoWeight && W(m[..n][j]) != NoWeight
          ensures W(m[..n][i]) <= W(m[..n][j])
        {
          assert m[..n][i] == m[i] && m[..n][j] == m[j];
        }
      }
      OrderedWeights(W, m[..n]);
      if W(m[n]) != NoWeight {
        var e := Entry(m[n], W(m[n]), n);
        if |a| > 0 {
          WeightedEntries(W, m[..n]);
          var last := a[|a| - 1];
          assert last in a;
          assert last.pos < n && last.node == m[last.pos];
          assert W(m[last.pos]) <= W(m[n]);
          assert NotAfter(last, e);
        }
        OrderedSnoc(a, e);
        assert Weighted(W, m) == a + [e];
      } else {
        assert Weighted(W, m) == a;
      }
    }
  }

  /** Filling the weighted slots with their own entries gives the layer back. */
  lemma {:induction false} FillOwn(W: Node -> real, m: seq<Node>)
    ensures |Weighted(W, m)| == CountWeighted(W, m)
    ensures Fill(W, m, Weighted(W, m)) == m
    decreases |m|
  {
    WeightedCount(W, m);
    if |m| > 0 {
      var n := |m| - 1;
      FillOwn(W, m[..n]);
      assert m == m[..n] + [m[n]];
      var a := Weighted(W, m[..n]);
      if W(m[n]) != NoWeight {
        var e := Entry(m[n], W(m[n]), n);
        assert Weighted(W, m) == a + [e];
        assert (a + [e])[..|a|] == a;
        assert Fill(W, m, a + [e]) == Fill(W, m[..n], a) + [e.node];
      } else {
        assert Weighted(W, m) == a;
        assert Fill(W, m, a) == Fill(W, m[..n], a) + [m[n]];
      }
    }
  }

  /** improveLayer only permutes the movable layer. */
  lemma ReorderPermutation(W: Node -> real, m: seq<Node>)
    ensures |Reorder(W, m)| == |m|
    ensures multiset(Reorder(W, m)) == multiset(m)
  {
    var w := Weighted(W, m);
    SortEntriesSorted(w);
    WeightedCount(W, m);
    SortEntriesNodes(w);
    FillMultiset(W, m, SortEntries(w));
    assert Reorder(W, m) == Fill(W, m, SortEntries(w));
    MultisetCancel(multiset(m), multiset(Nodes(w)), multiset(Reorder(W, m)));
  }

  /** The sorted entry whose node the weighted slot `i` of `m` receives. */
  ghost function Drawn(W: Node -> real, m: seq<Node>, i: nat): Entry
    requires i < |m| && W(m[i]) != NoWeight
  {
    var w := Weighted(W, m);
    SortEntriesSorted(w);
    WeightedCount(W, m);
    FillAt(W, m, SortEntries(w), i);
    SortEntries(w)[CountWeighted(W, m[..i])]
  }

  /** Unweighted slots keep their node, weighted slots stay weighted, and
      the weighted slots end up in order of weight.  Each weighted slot
      receives the node of a weighted slot of `m`, and two weighted slots
      receive theirs in comparator order: by weight, ties in the order of
      the slots the nodes came from. */
  lemma ReorderSlots(W: Node -> real, m: seq<Node>)
    ensures |Reorder(W, m)| == |m|
    ensures forall i :: 0 <= i < |m| && W(m[i]) == NoWeight ==> Reorder(W, m)[i] == m[i]
    ensures forall i :: 0 <= i < |m| ==> (W(Reorder(W, m)[i]) == NoWeight <==> W(m[i]) == NoWeight)
    ensures SlotsInOrder(W, Reorder(W, m))
    ensures forall i :: 0 <= i < |m| && W(m[i]) != NoWeight ==>
      var e := Drawn(W, m, i);
      Reorder(W, m)[i] == e.node && e.pos < |m| && m[e.pos] == e.node && e.weight == W(e.node)
    ensures forall i, j :: 0 <= i < j < |m| && W(m[i]) != NoWeight && W(m[j]) != NoWeight ==>
      NotAfter(Drawn(W, m, i), Drawn(W, m, j))
  {
    var w := Weighted(W, m);
    var s := SortEntries(w);
    SortEntriesSorted(w);
    WeightedCount(W, m);
    WeightedEntries(W, m);
    var r := Fill(W, m, s);
    assert forall e :: e in s ==> e.weight == W(e.node) && e.weight != NoWeight by {
      forall e | e in s ensures e.weight == W(e.node) && e.weight != NoWeight {
        assert e in multiset(s);
      }
    }
    forall i | 0 <= i < |m|
      ensures W(m[i]) == NoWeight ==> r[i] == m[i]
      ensures W(r[i]) == NoWeight <==> W(m[i]) == NoWeight
      ensures W(m[i]) != NoWeight ==>
        var e := Drawn(W, m, i);
        r[i] == e.node && e.pos < |m| && m[e.pos] == e.node && e.weight == W(e.node)
    {
      FillAt(W, m, s, i);
      if W(m[i]) != NoWeight {
        var e := s[CountWeighted(W, m[..i])];
        assert e in s;
        assert e in multiset(w);
        assert Drawn(W, m, i) == e;
      }
    }
    forall i, j | 0 <= i < j < |m| && W(m[i]) != NoWeight && W(m[j]) != NoWeight
      ensures NotAfter(Drawn(W, m, i), Drawn(W, m, j))
    {
      FillAt(W, m, s, i);
      FillAt(W, m, s, j);
      CountWeightedStep(W, m, i, j);
      var a, b := CountWeighted(W, m[..i]), CountWeighted(W, m[..j]);
      OrderedPairs(s, a, b);
      assert Drawn(W, m, i) == s[a] && Drawn(W, m, j) == s[b];
    }
    forall i, j | 0 <= i < j < |m| && W(r[i]) != NoWeight && W(r[j]) != NoWeight
      ensures W(r[i]) <= W(r[j])
    {
      assert NotAfter(Drawn(W, m, i), Drawn(W, m, j));
    }
  }

  /** A layer whose weighted slots are already in order is left as it is. */
  lemma ReorderFixesSorted(W: Node -> real, m: seq<Node>)
    requires SlotsInOrder(W, m)
    ensures Reorder(W, m) == m
  {
    OrderedWeights(W, m);
    SortEntriesOrdered(Weighted(W, m));
    FillOwn(W, m);
  }

  /** A second barycenter step against the same fixed layer changes nothing. */
  lemma BarycenterIdempotent(g: Graph, fixed: seq<Node>, m: seq<Node>)
    ensures BarycenterOrder(g, fixed, BarycenterOrder(g, fixed, m)) == BarycenterOrder(g, fixed, m)
  {
    var W := WeightFn(g, PosMap(fixed));
    ReorderSlots(W, m);
    ReorderFixesSorted(W, Reorder(W, m));
  }

  /** rankWeights, lines 149-169: the weight of every node of `movable`. */
  method RankWeights(g: Graph, fixed: seq<Node>, movable: seq<Node>) returns (weights: map<Node, real>)
    ensures forall u :: u in weights <==> u in movable
    ensures forall u :: u in movable ==> weights[u] == Weight(g, PosMap(fixed), u)
  {
    var fixedPos := Positions(fixed);
    weights := map[];
    for k := 0 to |movable|
      invariant forall u :: u in weights <==> u in movable[..k]
      invariant forall u :: u in weights ==> weights[u] == Weight(g, fixedPos, u)
    {
      var u := movable[k];
      var w := NodeWeight(g, fixedPos, u);
      weights := weights[u := w];
      assert movable[..k + 1] == movable[..k] + [u];
    }
    assert movable[..|movable|] == movable;
  }

  /** Lines 155-165: the weight of one node, accumulated over its neighbours. */
  method NodeWeight(g: Graph, fixedPos: map<Node, nat>, u: Node) returns (w: real)
    ensures w == Weight(g, fixedPos, u)
  {
    var nbrs := Neighbors(g, u);
    var weight := 0.0;
    var adjCount := 0;
    for j := 0 to |nbrs|
      invariant adjCount == FixedCount(nbrs[..j], fixedPos)
      invariant adjCount > 0 ==> weight == FixedSum(nbrs[..j], fixedPos) as real
      invariant adjCount == 0 ==> FixedSum(nbrs[..j], fixedPos) == 0
    {
      assert nbrs[..j + 1][..j] == nbrs[..j];
      var v := nbrs[j];
      if v in fixedPos {
        if adjCount == 0 {
          weight := 0.0;
        }
        weight := weight + fixedPos[v] as real;
        adjCount := adjCount + 1;
      }
    }
    assert nbrs[..|nbrs|] == nbrs;
    w := if adjCount > 0 then weight / adjCount as real else NoWeight;
  }

  /** improveLayer, lines 114-142: reorder `movable` in place against the
      fixed layer. */
  method ImproveLayer(g: Graph, fixed: seq<Node>, movable: array<Node>)
    modifies movable
    ensures movable[..] == BarycenterOrder(g, fixed, old(movable[..]))
  {
    ghost var W := WeightFn(g, PosMap(fixed));
    var weights := RankWeights(g, fixed, movable[..]);
    var toSort := CollectWeighted(movable[..], weights, W);
    var sorted := SortEntries(toSort);
    SortEntriesSorted(toSort);
    WeightedCount(W, movable[..]);
    WriteBack(movable, weights, sorted, W);
  }

  /** Lines 117-124: the weighted slots of `movable`, in slot order. */
  method CollectWeighted(movable: seq<Node>, weights: map<Node, real>, ghost W: Node -> real)
    returns (toSort: seq<Entry>)
    requires forall u :: u in movable ==> u in weights && weights[u] == W(u)
    ensures toSort == Weighted(W, movable)
  {
    toSort := [];
    for i := 0 to |movable|
      invariant toSort == Weighted(W, movable[..i])
    {
      assert movable[..i + 1][..i] == movable[..i];
      var u := movable[i];
      var weight := weights[u];
      if weight != NoWeight {
        toSort := toSort + [Entry(u, weight, i)];
      }
    }
    assert movable[..|movable|] == movable;
  }

  /** Lines 134-141: hand the sorted nodes out to the weighted slots. */
  method WriteBack(movable: array<Node>, weights: map<Node, real>, sorted: seq<Entry>, ghost W: Node -> real)
    requires forall u :: u in movable[..] ==> u in weights && weights[u] == W(u)
    requires |sorted| == CountWeighted(W, movable[..])
    modifies movable
    ensures movable[..] == Fill(W, old(movable[..]), sorted)
  {
    ghost var m := movable[..];
    ghost var filled := Fill(W, m, sorted);
    var toSortIndex := 0;
    for i := 0 to movable.Length
      invariant forall k :: i <= k < movable.Length ==> movable[k] == m[k]
      invariant forall k :: 0 <= k < i ==> movable[k] == filled[k]
      invariant toSortIndex == CountWeighted(W, m[..i])
    {
      FillAt(W, m, sorted, i);
      CountWeightedPrefix(W, m, i);
      var u := movable[i];
      assert u == m[i] && u in m;
      var weight := weights[u];
      if weight != NoWeight {
        movable[i] := sorted[toSortIndex].node;
        toSortIndex := toSortIndex + 1;
      }
    }
    assert movable[..] == filled;
  }
}
