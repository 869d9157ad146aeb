// The initial layering (initOrder): a depth-first traversal from every
// rank-0 node that appends each newly visited node to the layer of its rank.

module InitialOrder {
  import opened Graphs

  /** Every node the layering holds. */
  ghost function Placed(layering: seq<seq<Node>>): set<Node>
  {
    set i, a | 0 <= i < |layering| && 0 <= a < |layering[i]| :: layering[i][a]
  }

  /** Each node sits in the layer indexed by its rank. */
  ghost predicate AtRank(rank: map<Node, nat>, layering: seq<seq<Node>>)
  {
    forall i, a :: 0 <= i < |layering| && 0 <= a < |layering[i]| ==>
      layering[i][a] in rank && rank[layering[i][a]] == i
  }

  /** No layer lists a node twice. */
  ghost predicate NoRepeats(layering: seq<seq<Node>>)
  {
    forall i, a, b :: 0 <= i < |layering| && 0 <= a < b < |layering[i]| ==> layering[i][a] != layering[i][b]
  }

  /** No node appears twice anywhere in the layering. */
  ghost predicate Distinct(layering: seq<seq<Node>>)
  {
    forall i, j, a, b ::
      (0 <= i < |layering| && 0 <= a < |layering[i]| && 0 <= j < |layering| && 0 <= b < |layering[j]| &&
       layering[i][a] == layering[j][b]) ==> i == j && a == b
  }

  /** The layering is no longer than the highest rank it holds requires. */
  ghost predicate LastNonEmpty(layering: seq<seq<Node>>)
  {
    |layering| > 0 ==> |layering[|layering| - 1]| > 0
  }

  lemma PlacedGrow(layering: seq<seq<Node>>)
    ensures Placed(layering + [[]]) == Placed(layering)
  {
    var l' := layering + [[]];
    forall w | w in Placed(l') ensures w in Placed(layering) {
      var i, a :| 0 <= i < |l'| && 0 <= a < |l'[i]| && l'[i][a] == w;
      assert layering[i][a] == w;
    }
    forall w | w in Placed(layering) ensures w in Placed(l') {
      var i, a :| 0 <= i < |layering| && 0 <= a < |layering[i]| && layering[i][a] == w;
      assert l'[i][a] == w;
    }
  }

  lemma PlacedPush(layering: seq<seq<Node>>, r: nat, u: Node)
    requires r < |layering|
    ensures Placed(layering[r := layering[r] + [u]]) == Placed(layering) + {u}
  {
    var l' := layering[r := layering[r] + [u]];
    assert l'[r][|layering[r]|] == u;
    forall w | w in Placed(l') ensures w in Placed(layering) + {u} {
      var i, a :| 0 <= i < |l'| && 0 <= a < |l'[i]| && l'[i][a] == w;
      if !(i == r && a == |layering[r]|) { assert layering[i][a] == w; }
    }
    forall w | w in Placed(layering) ensures w in Placed(l') {
      var i, a :| 0 <= i < |layering| && 0 <= a < |layering[i]| && layering[i][a] == w;
      assert l'[i][a] == w;
    }
  }

  /** A layering that places nodes at their ranks without repeats within a
      layer places each node once. */
  lemma RankedIsDistinct(rank: map<Node, nat>, layering: seq<seq<Node>>)
    requires AtRank(rank, layering) && NoRepeats(layering)
    ensures Distinct(layering)
  {
  }

  /** `layering` padded with empty layers until it has a layer `r`. */
  function Extend(layering: seq<seq<Node>>, r: nat): (l': seq<seq<Node>>)
  {
    if r < |layering| then layering else layering + seq(r + 1 - |layering|, _ => [])
  }

  /** `layering` with `u` appended to layer `r`, padding as needed. */
  function Pushed(layering: seq<seq<Node>>, r: nat, u: Node): seq<seq<Node>>
  {
    var l := Extend(layering, r);
    l[r := l[r] + [u]]
  }

  lemma {:induction false} PlacedExtend(layering: seq<seq<Node>>, n: nat)
    ensures Placed(layering + seq(n, _ => [])) == Placed(layering)
    decreases n
  {
    if n > 0 {
      var l := layering + seq(n - 1, _ => []);
      PlacedExtend(layering, n - 1);
      PlacedGrow(l);
      assert l + [[]] == layering + seq(n, _ => []);
    } else {
      assert layering + seq(n, _ => []) == layering;
    }
  }

  /** Placing a new node at its own rank keeps every layering invariant and
      leaves every existing layer a prefix of its new self. */
  lemma PushedFacts(rank: map<Node, nat>, layering: seq<seq<Node>>, r: nat, u: Node)
    requires AtRank(rank, layering) && NoRepeats(layering) && LastNonEmpty(layering)
    requires u in rank && rank[u] == r && u !in Placed(layering)
    ensures AtRank(rank, Pushed(layering, r, u))
    ensures NoRepeats(Pushed(layering, r, u))
    ensures LastNonEmpty(Pushed(layering, r, u))
    ensures Placed(Pushed(layering, r, u)) == Placed(layering) + {u}
    ensures |layering| <= |Pushed(layering, r, u)|
    ensures forall j :: 0 <= j < |layering| ==> layering[j] <= Pushed(layering, r, u)[j]
  {
    var grown := Extend(layering, r);
    var l' := Pushed(layering, r, u);
    assert Placed(grown) == Placed(layering) by {
      if r >= |layering| { PlacedExtend(layering, r + 1 - |layering|); }
    }
    assert forall j, a :: 0 <= j < |layering| && 0 <= a < |layering[j]| ==> grown[j][a] == layering[j][a];
    PlacedPush(grown, r, u);
    forall j, a | 0 <= j < |l'| && 0 <= a < |l'[j]|
      ensures l'[j][a] in rank && rank[l'[j][a]] == j
    {
      if !(j == r && a == |grown[r]|) { assert l'[j][a] == grown[j][a]; }
    }
    forall j, a, b | 0 <= j < |l'| && 0 <= a < b < |l'[j]|
      ensures l'[j][a] != l'[j][b]
    {
      if j == r && b == |grown[r]| {
        assert l'[j][a] == grown[r][a];
      } else {
        assert l'[j][a] == grown[j][a] && l'[j][b] == grown[j][b];
      }
    }
    if r < |grown| - 1 {
      assert |grown| == |layering|;
      assert l'[|l'| - 1] == layering[|layering| - 1];
    }
  }

  /** A traversal state as a value: the visited set and the layering. */
  datatype Walk = Walk(visited: set<Node>, layering: seq<seq<Node>>)

  /** Lines 69-84 as a function: the traversal state after `dfs(u)`. */
  function Visit(g: Graph, rank: map<Node, nat>, w: Walk, u: Node): (r: Walk)
    requires ValidGraph(g) && Ranked(g, rank)
    requires w.visited <= NodeSet(g) && u in NodeSet(g)
    ensures w.visited + {u} <= r.visited <= NodeSet(g)
    decreases NodeSet(g) - w.visited, 0
  {
    if u in w.visited then w
    else VisitEach(g, rank, Walk(w.visited + {u}, Pushed(w.layering, rank[u], u)), Neighbors(g, u))
  }

  /** Lines 81-83 as a function: `dfs` of each node of `nbrs` in turn. */
  function VisitEach(g: Graph, rank: map<Node, nat>, w: Walk, nbrs: seq<Node>): (r: Walk)
    requires ValidGraph(g) && Ranked(g, rank)
    requires w.visited <= NodeSet(g) && forall v :: v in nbrs ==> v in NodeSet(g)
    ensures w.visited <= r.visited <= NodeSet(g)
    ensures forall v :: v in nbrs ==> v in r.visited
    decreases NodeSet(g) - w.visited, 1, |nbrs|
  {
    if nbrs == [] then w
    else VisitEach(g, rank, Visit(g, rank, w, nbrs[0]), nbrs[1..])
  }

  /** Lines 86-90 as a function: `dfs` of each rank-0 node of `nodes` in turn. */
  function VisitRoots(g: Graph, rank: map<Node, nat>, w: Walk, nodes: seq<Node>): (r: Walk)
    requires ValidGraph(g) && Ranked(g, rank)
    requires w.visited <= NodeSet(g) && forall v :: v in nodes ==> v in NodeSet(g)
    ensures w.visited <= r.visited <= NodeSet(g)
    ensures forall v :: v in nodes && rank[v] == 0 ==> v in r.visited
    decreases |nodes|
  {
    if nodes == [] then w
    else
      var u := nodes[0];
      assert u in nodes;
      assert u in NodeSet(g);
      assert u in g.nodes;
      var w' := if rank[u] == 0 then Visit(g, rank, w, u) else w;
      VisitRoots(g, rank, w', nodes[1..])
  }

  /** Every layer of `before` is a prefix of the same layer of `after`. */
  ghost predicate Extends(before: seq<seq<Node>>, after: seq<seq<Node>>)
  {
    |before| <= |after| && forall j :: 0 <= j < |before| ==> before[j] <= after[j]
  }

  lemma PushedExtends(layering: seq<seq<Node>>, r: nat, u: Node)
    ensures Extends(layering, Pushed(layering, r, u))
  {
    var l := Extend(layering, r);
    assert forall j :: 0 <= j < |layering| ==> l[j] == layering[j];
  }

  /** The traversal only appends: every existing layer stays a prefix of
      its new self. */
  lemma {:induction false} VisitExtends(g: Graph, rank: map<Node, nat>, w: Walk, u: Node)
    requires ValidGraph(g) && Ranked(g, rank)
    requires w.visited <= NodeSet(g) && u in NodeSet(g)
    ensures Extends(w.layering, Visit(g, rank, w, u).layering)
    decreases NodeSet(g) - w.visited, 0
  {
    if u !in w.visited {
      var p := Walk(w.visited + {u}, Pushed(w.layering, rank[u], u));
      PushedExtends(w.layering, rank[u], u);
      VisitEachExtends(g, rank, p, Neighbors(g, u));
    }
  }

  lemma {:induction false} VisitEachExtends(g: Graph, rank: map<Node, nat>, w: Walk, nbrs: seq<Node>)
    requires ValidGraph(g) && Ranked(g, rank)
    requires w.visited <= NodeSet(g) && forall v :: v in nbrs ==> v in NodeSet(g)
    ensures Extends(w.layering, VisitEach(g, rank, w, nbrs).layering)
    decreases NodeSet(g) - w.visited, 1, |nbrs|
  {
    if nbrs != [] {
      var w' := Visit(g, rank, w, nbrs[0]);
      VisitExtends(g, rank, w, nbrs[0]);
      VisitEachExtends(g, rank, w', nbrs[1..]);
    }
  }

  /** The state of one traversal: the visited set and the layering grown so
      far, each visited node placed exactly once at its rank. */
  class OrderBuilder {
    const g: Graph
    const rank: map<Node, nat>
    var visited: set<Node>
    var layering: seq<seq<Node>>

    ghost predicate Valid()
      reads this
    {
      && ValidGraph(g) && Ranked(g, rank)
      && visited <= NodeSet(g)
      && Placed(layering) == visited
      && AtRank(rank, layering) && NoRepeats(layering) && LastNonEmpty(layering)
      && (forall w :: w in visited ==> Reachable(g, rank, w))
    }

    constructor (g: Graph, rank: map<Node, nat>)
      requires ValidGraph(g) && Ranked(g, rank)
      ensures Valid() && this.g == g && this.rank == rank
      ensures visited == {} && layering == []
    {
      this.g := g;
      this.rank := rank;
      visited := {};
      layering := [];
    }

    /** Lines 69-84: visit `u` unless already visited; place it; recurse
        into its neighbours in their order. */
    method Dfs(u: Node)
      requires Valid() && u in NodeSet(g) && Reachable(g, rank, u)
      modifies this
      ensures Valid()
      ensures Walk(visited, layering) == Visit(g, rank, Walk(old(visited), old(layering)), u)
      ensures old(visited) + {u} <= visited
      ensures forall w, v :: w in visited - old(visited) && v in Neighbors(g, w) ==> v in visited
      decreases NodeSet(g) - visited, 0
    {
      if u in visited {
        return;
      }
      Place(u);
      VisitNeighbors(u);
    }

    /** Lines 80-82: the traversal from each neighbour of a placed node, in
        the neighbours' order. */
    method VisitNeighbors(u: Node)
      requires Valid() && u in visited
      modifies this
      ensures Valid()
      ensures Walk(visited, layering) == VisitEach(g, rank, Walk(old(visited), old(layering)), Neighbors(g, u))
      ensures old(visited) <= visited
      ensures forall v :: v in Neighbors(g, u) ==> v in visited
      ensures forall w, v :: w in visited - old(visited) && v in Neighbors(g, w) ==> v in visited
      decreases NodeSet(g) - visited, 1
    {
      var nbrs := Neighbors(g, u);
      for k := 0 to |nbrs|
        invariant Valid()
        invariant old(visited) <= visited
        invariant forall m :: 0 <= m < k ==> nbrs[m] in visited
        invariant forall w, v :: w in visited - old(visited) && v in Neighbors(g, w) ==> v in visited
        invariant VisitEach(g, rank, Walk(visited, layering), nbrs[k..])
               == VisitEach(g, rank, Walk(old(visited), old(layering)), nbrs)
      {
        assert nbrs[k..][0] == nbrs[k] && nbrs[k..][1..] == nbrs[k + 1..];
        ReachableStep(g, rank, u, nbrs[k]);
        Dfs(nbrs[k]);
      }
    }

    /** Lines 72-79: mark `u` visited, grow the layering up to its rank and
        append `u` to that layer. */
    method Place(u: Node)
      requires Valid() && u in NodeSet(g) && Reachable(g, rank, u) && u !in visited
      modifies this
      ensures Valid()
      ensures visited == old(visited) + {u}
      ensures layering == Pushed(old(layering), rank[u], u)
    {
      ghost var before := layering;
      visited := visited + {u};
      var r := rank[u];
      GrowTo(r);
      layering := layering[r := layering[r] + [u]];
      PushedFacts(rank, before, r, u);
    }

    /** Lines 74-76: append empty layers until layer `r` exists. */
    method GrowTo(r: nat)
      modifies this
      ensures layering == Extend(old(layering), r)
      ensures visited == old(visited)
    {
      var i := |layering|;
      while i <= r
        invariant i == |layering| && |old(layering)| <= i
        invariant layering == old(layering) + seq(i - |old(layering)|, _ => [])
        invariant i > |old(layering)| ==> i - 1 <= r
        invariant visited == old(visited)
      {
        layering := layering + [[]];
        i := i + 1;
      }
    }
  }

  /** Lines 65-93: traverse from every rank-0 node in node order. */
  method InitOrder(g: Graph, rank: map<Node, nat>) returns (layering: seq<seq<Node>>)
    requires ValidGraph(g) && Ranked(g, rank)
    ensures AtRank(rank, layering)
    ensures Distinct(layering)
    ensures LastNonEmpty(layering)
    ensures forall w :: w in Placed(layering) <==> Reachable(g, rank, w)
    ensures layering == VisitRoots(g, rank, Walk({}, []), g.nodes).layering
  {
    var builder := new OrderBuilder(g, rank);
    for k := 0 to |g.nodes|
      invariant builder.Valid() && builder.g == g && builder.rank == rank
      invariant forall m :: 0 <= m < k && g.nodes[m] in rank && rank[g.nodes[m]] == 0 ==> g.nodes[m] in builder.visited
      invariant forall w, v :: w in builder.visited && v in Neighbors(g, w) ==> v in builder.visited
      invariant VisitRoots(g, rank, Walk(builder.visited, builder.layering), g.nodes[k..])
             == VisitRoots(g, rank, Walk({}, []), g.nodes)
    {
      assert g.nodes[k..][0] == g.nodes[k] && g.nodes[k..][1..] == g.nodes[k + 1..];
      var u := g.nodes[k];
      if rank[u] == 0 {
        ReachableRoot(g, rank, u);
        builder.Dfs(u);
      }
    }
    assert g.nodes[|g.nodes|..] == [];
    layering := builder.layering;
    RankedIsDistinct(rank, layering);
    forall u | u in g.nodes && u in rank && rank[u] == 0 ensures u in builder.visited {
      var m :| 0 <= m < |g.nodes| && g.nodes[m] == u;
    }
    ClosedHoldsAllReachable(g, rank, builder.visited);
  }
}
