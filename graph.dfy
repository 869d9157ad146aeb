// The graph collaborator the ordering phase reads: node enumeration,
// neighbour enumeration and the rank of every node.

module Graphs {

  /** Node identifiers are opaque values, compared only by equality. */
  type Node = int

  datatype Option<T> = None | Some(value: T)

  /** `nodes` is the graph's node enumeration; `adj[u]` the neighbour
      enumeration of `u`, in its iteration order. */
  datatype Graph = Graph(nodes: seq<Node>, adj: map<Node, seq<Node>>)

  /** The neighbours of `u`; a node the graph does not know has none. */
  function Neighbors(g: Graph, u: Node): seq<Node>
  {
    if u in g.adj then g.adj[u] else []
  }

  function NodeSet(g: Graph): set<Node>
  {
    set u | u in g.nodes
  }

  /** The graph's own invariant: every neighbour is a node of the graph. */
  ghost predicate ValidGraph(g: Graph)
  {
    forall u, v :: u in g.adj && v in g.adj[u] ==> v in g.nodes
  }

  /** Rank assignment has run: every node has a rank. */
  ghost predicate Ranked(g: Graph, rank: map<Node, nat>)
  {
    forall u :: u in g.nodes ==> u in rank
  }

  /** `p` is a walk along neighbour links that starts at a rank-0 node. */
  ghost predicate RootWalk(g: Graph, rank: map<Node, nat>, p: seq<Node>)
  {
    && |p| > 0
    && p[0] in g.nodes && p[0] in rank && rank[p[0]] == 0
    && forall i :: 0 <= i < |p| - 1 ==> p[i + 1] in Neighbors(g, p[i])
  }

  /** `w` can be reached from some rank-0 node by following neighbours. */
  ghost predicate Reachable(g: Graph, rank: map<Node, nat>, w: Node)
  {
    exists p :: RootWalk(g, rank, p) && p[|p| - 1] == w
  }

  lemma ReachableRoot(g: Graph, rank: map<Node, nat>, u: Node)
    requires u in g.nodes && u in rank && rank[u] == 0
    ensures Reachable(g, rank, u)
  {
    assert RootWalk(g, rank, [u]);
  }

  lemma ReachableStep(g: Graph, rank: map<Node, nat>, u: Node, v: Node)
    requires Reachable(g, rank, u) && v in Neighbors(g, u)
    ensures Reachable(g, rank, v)
  {
    var p :| RootWalk(g, rank, p) && p[|p| - 1] == u;
    var q := p + [v];
    assert forall i :: 0 <= i < |q| - 1 ==> q[i + 1] in Neighbors(g, q[i]) by {
      forall i | 0 <= i < |q| - 1 ensures q[i + 1] in Neighbors(g, q[i]) {
        if i < |p| - 1 { assert q[i] == p[i] && q[i + 1] == p[i + 1]; }
      }
    }
    assert RootWalk(g, rank, q);
  }

  /** A set that holds every rank-0 node and is closed under neighbours
      holds every reachable node. */
  lemma {:induction false} ClosedHoldsReachable(g: Graph, rank: map<Node, nat>, s: set<Node>, p: seq<Node>)
    requires forall u :: u in g.nodes && u in rank && rank[u] == 0 ==> u in s
    requires forall u, v :: u in s && v in Neighbors(g, u) ==> v in s
    requires RootWalk(g, rank, p)
    ensures p[|p| - 1] in s
  {
    if |p| > 1 {
      var q := p[..|p| - 1];
      assert RootWalk(g, rank, q) by {
        forall i | 0 <= i < |q| - 1 ensures q[i + 1] in Neighbors(g, q[i]) {
          assert q[i] == p[i] && q[i + 1] == p[i + 1];
        }
      }
      ClosedHoldsReachable(g, rank, s, q);
      assert p[|p| - 1] in Neighbors(g, p[|p| - 2]);
    } else {
      assert p[|p| - 1] == p[0];
    }
  }

  /** The same for every reachable node at once. */
  lemma ClosedHoldsAllReachable(g: Graph, rank: map<Node, nat>, s: set<Node>)
    requires forall u :: u in g.nodes && u in rank && rank[u] == 0 ==> u in s
    requires forall u, v :: u in s && v in Neighbors(g, u) ==> v in s
    ensures forall w :: Reachable(g, rank, w) ==> w in s
  {
    forall w | Reachable(g, rank, w) ensures w in s {
      var p :| RootWalk(g, rank, p) && p[|p| - 1] == w;
      ClosedHoldsReachable(g, rank, s, p);
    }
  }
}
