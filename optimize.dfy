// The exported ordering entry point (lines 175-191) and its sweeps: build
// the initial layering, then alternately sweep down and up with barycenter
// steps, keeping a copy of the layering with the fewest crossings seen.

module Optimize {
  import opened Graphs
  import opened Crossings
  import opened Barycenter
  import opened InitialOrder

  /** The rows of a layering, each held as an array the sweeps reorder in
      place; the outer list itself is never written. */
  type Rows = seq<array<Node>>

  /** What the rows hold. */
  function Contents(L: Rows): (ls: seq<seq<Node>>)
    reads L
    ensures |ls| == |L| && forall j :: 0 <= j < |L| ==> ls[j] == L[j][..]
  {
    seq(|L|, j requires 0 <= j < |L| reads L => L[j][..])
  }

  /** The rows are distinct arrays, so a step on one leaves the others. */
  ghost predicate DistinctRows(L: Rows)
  {
    forall a, b :: 0 <= a < b < |L| ==> L[a] != L[b]
  }

  /** A step that reorders a movable layer against a fixed one. */
  type LayerStep = (seq<Node>, seq<Node>) -> seq<Node>

  /** The step improveOrdering takes (lines 98 and 102). */
  function BarycenterStep(g: Graph): LayerStep
  {
    (fixed, movable) => BarycenterOrder(g, fixed, movable)
  }

  /** Lines 97-99 from layer `j` on: each layer is reordered against the
      (already reordered) layer above it. */
  function DownFrom(step: LayerStep, ls: seq<seq<Node>>, j: nat): (r: seq<seq<Node>>)
    requires 1 <= j
    ensures |r| == |ls|
    decreases |ls| - j
  {
    if j >= |ls| then ls
    else DownFrom(step, ls[j := step(ls[j - 1], ls[j])], j + 1)
  }

  /** Lines 101-103 from layer `j` down to 0: each layer is reordered
      against the (already reordered) layer below it. */
  function UpFrom(step: LayerStep, ls: seq<seq<Node>>, j: int): (r: seq<seq<Node>>)
    requires j < |ls| - 1 || j < 0
    ensures |r| == |ls|
    decreases j + 1
  {
    if j < 0 then ls
    else UpFrom(step, ls[j := step(ls[j + 1], ls[j])], j - 1)
  }

  /** improveOrdering, lines 95-105: even iterations sweep down, odd ones up. */
  function Sweep(step: LayerStep, i: nat, ls: seq<seq<Node>>): (r: seq<seq<Node>>)
    ensures |r| == |ls|
  {
    if i % 2 == 0 then DownFrom(step, ls, 1) else UpFrom(step, ls, |ls| - 2)
  }

  /** The working layering after the first `k` sweeps. */
  function Working(step: LayerStep, ls0: seq<seq<Node>>, k: nat): seq<seq<Node>>
    decreases k
  {
    if k == 0 then ls0 else Sweep(step, k - 1, Working(step, ls0, k - 1))
  }

  /** The kept layering and its crossing count. */
  datatype Candidate = Candidate(layering: seq<seq<Node>>, score: nat)

  /** A scoring of layerings; the exported function scores by crossings. */
  type Score = seq<seq<Node>> -> nat

  function CrossingScore(g: Graph): Score
  {
    ls => TotalCrossings(g, ls)
  }

  /** Lines 176-188: the candidate kept after `k` iterations; a later
      layering replaces it only when it scores strictly lower. */
  function BestAfter(score: Score, step: LayerStep, ls0: seq<seq<Node>>, k: nat): Candidate
    decreases k
  {
    if k == 0 then Candidate(ls0, score(ls0))
    else
      var prev := BestAfter(score, step, ls0, k - 1);
      var cc := score(Working(step, ls0, k));
      if cc < prev.score then Candidate(Working(step, ls0, k), cc) else prev
  }

  // ---- what a sweep does to the layering

  /** Same layers, each a permutation of the one before. */
  ghost predicate SameLayers(a: seq<seq<Node>>, b: seq<seq<Node>>)
  {
    |a| == |b| && forall i :: 0 <= i < |a| ==> multiset(a[i]) == multiset(b[i])
  }

  /** The step only permutes the movable layer. */
  ghost predicate Permutes(step: LayerStep)
  {
    forall f, m :: multiset(step(f, m)) == multiset(m)
  }

  /** Repeating the step against the same fixed layer changes nothing. */
  ghost predicate Idempotent(step: LayerStep)
  {
    forall f, m :: step(f, step(f, m)) == step(f, m)
  }

  lemma BarycenterStepPermutes(g: Graph)
    ensures Permutes(BarycenterStep(g))
  {
    forall f, m ensures multiset(BarycenterStep(g)(f, m)) == multiset(m) {
      ReorderPermutation(WeightFn(g, PosMap(f)), m);
    }
  }

  lemma BarycenterStepIdempotent(g: Graph)
    ensures Idempotent(BarycenterStep(g))
  {
    forall f, m ensures BarycenterStep(g)(f, BarycenterStep(g)(f, m)) == BarycenterStep(g)(f, m) {
      BarycenterIdempotent(g, f, m);
    }
  }

  lemma {:induction false} DownFromFacts(step: LayerStep, ls: seq<seq<Node>>, j: nat)
    requires 1 <= j
    ensures Permutes(step) ==> SameLayers(DownFrom(step, ls, j), ls)
    ensures forall k :: 0 <= k < j && k < |ls| ==> DownFrom(step, ls, j)[k] == ls[k]
    ensures forall k :: j <= k < |ls| ==> DownFrom(step, ls, j)[k] == step(DownFrom(step, ls, j)[k - 1], ls[k])
    decreases |ls| - j
  {
    if j < |ls| {
      var ls' := ls[j := step(ls[j - 1], ls[j])];
      DownFromFacts(step, ls', j + 1);
    }
  }

  lemma {:induction false} UpFromFacts(step: LayerStep, ls: seq<seq<Node>>, j: int)
    requires j < |ls| - 1 || j < 0
    ensures Permutes(step) ==> SameLayers(UpFrom(step, ls, j), ls)
    ensures forall k :: j < k < |ls| && 0 <= k ==> UpFrom(step, ls, j)[k] == ls[k]
    ensures forall k :: 0 <= k <= j ==> UpFrom(step, ls, j)[k] == step(UpFrom(step, ls, j)[k + 1], ls[k])
    decreases j + 1
  {
    if j >= 0 {
      var ls' := ls[j := step(ls[j + 1], ls[j])];
      UpFromFacts(step, ls', j - 1);
    }
  }

  /** A barycenter sweep keeps the number of layers and the nodes of every layer. */
  lemma SweepSameLayers(g: Graph, i: nat, ls: seq<seq<Node>>)
    ensures SameLayers(Sweep(BarycenterStep(g), i, ls), ls)
  {
    BarycenterStepPermutes(g);
    if i % 2 == 0 { DownFromFacts(BarycenterStep(g), ls, 1); } else { UpFromFacts(BarycenterStep(g), ls, |ls| - 2); }
  }

  /** A down sweep never moves the first layer and an up sweep never moves
      the last: each sweep starts from a layer it treats as fixed. */
  lemma SweepAnchor(g: Graph, i: nat, ls: seq<seq<Node>>)
    requires |ls| > 0
    ensures i % 2 == 0 ==> Sweep(BarycenterStep(g), i, ls)[0] == ls[0]
    ensures i % 2 == 1 ==> Sweep(BarycenterStep(g), i, ls)[|ls| - 1] == ls[|ls| - 1]
  {
    if i % 2 == 0 { DownFromFacts(BarycenterStep(g), ls, 1); } else { UpFromFacts(BarycenterStep(g), ls, |ls| - 2); }
  }

  /** After a sweep every reordered layer is already in barycenter order
      against the neighbour layer it was reordered against: repeating the
      step on it would change nothing. */
  lemma SweepStable(g: Graph, i: nat, ls: seq<seq<Node>>)
    ensures i % 2 == 0 ==> forall k :: 1 <= k < |ls| ==>
      var r := Sweep(BarycenterStep(g), i, ls); BarycenterOrder(g, r[k - 1], r[k]) == r[k]
    ensures i % 2 == 1 ==> forall k :: 0 <= k < |ls| - 1 ==>
      var r := Sweep(BarycenterStep(g), i, ls); BarycenterOrder(g, r[k + 1], r[k]) == r[k]
  {
    var step := BarycenterStep(g);
    var r := Sweep(step, i, ls);
    BarycenterStepIdempotent(g);
    if i % 2 == 0 {
      DownFromFacts(step, ls, 1);
      forall k | 1 <= k < |ls| ensures BarycenterOrder(g, r[k - 1], r[k]) == r[k] {
        assert r[k] == step(r[k - 1], ls[k]);
        assert step(r[k - 1], step(r[k - 1], ls[k])) == step(r[k - 1], ls[k]);
      }
    } else {
      UpFromFacts(step, ls, |ls| - 2);
      forall k | 0 <= k < |ls| - 1 ensures BarycenterOrder(g, r[k + 1], r[k]) == r[k] {
        assert r[k] == step(r[k + 1], ls[k]);
        assert step(r[k + 1], step(r[k + 1], ls[k])) == step(r[k + 1], ls[k]);
      }
    }
  }

  lemma {:induction false} WorkingSameLayers(g: Graph, ls0: seq<seq<Node>>, k: nat)
    ensures SameLayers(Working(BarycenterStep(g), ls0, k), ls0)
    decreases k
  {
    if k > 0 {
      WorkingSameLayers(g, ls0, k - 1);
      SweepSameLayers(g, k - 1, Working(BarycenterStep(g), ls0, k - 1));
    }
  }

  // ---- what the kept candidate is

  /** The iteration whose working layering is kept after `k` iterations. */
  ghost function BestIndex(score: Score, step: LayerStep, ls0: seq<seq<Node>>, k: nat): nat
    decreases k
  {
    if k == 0 then 0
    else if score(Working(step, ls0, k)) < BestAfter(score, step, ls0, k - 1).score then k
    else BestIndex(score, step, ls0, k - 1)
  }

  /** The kept candidate is the earliest of the working layerings of the
      first `k` iterations with the lowest score, and carries its own
      score. */
  lemma {:induction false} BestIsEarliestMinimum(score: Score, step: LayerStep, ls0: seq<seq<Node>>, k: nat)
    ensures BestIndex(score, step, ls0, k) <= k
    ensures BestAfter(score, step, ls0, k).layering == Working(step, ls0, BestIndex(score, step, ls0, k))
    ensures BestAfter(score, step, ls0, k).score == score(BestAfter(score, step, ls0, k).layering)
    ensures forall j :: 0 <= j <= k ==> BestAfter(score, step, ls0, k).score <= score(Working(step, ls0, j))
    ensures forall j :: 0 <= j < BestIndex(score, step, ls0, k) ==>
      score(Working(step, ls0, j)) > BestAfter(score, step, ls0, k).score
    decreases k
  {
    if k > 0 {
      BestIsEarliestMinimum(score, step, ls0, k - 1);
    }
  }

  /** The layering the ordering phase returns has the fewest crossings of
      the initial layering and every sweep's result; it is the first of
      them to reach that count; its layers hold the initial layers' nodes. */
  lemma BestLayering(g: Graph, ls0: seq<seq<Node>>, k: nat)
    ensures var b := BestAfter(CrossingScore(g), BarycenterStep(g), ls0, k);
      var at := BestIndex(CrossingScore(g), BarycenterStep(g), ls0, k);
      && at <= k && b.layering == Working(BarycenterStep(g), ls0, at)
      && b.score == TotalCrossings(g, b.layering)
      && b.score <= TotalCrossings(g, ls0)
      && (forall j :: 0 <= j <= k ==> b.score <= TotalCrossings(g, Working(BarycenterStep(g), ls0, j)))
      && (forall j :: 0 <= j < at ==> TotalCrossings(g, Working(BarycenterStep(g), ls0, j)) > b.score)
      && SameLayers(b.layering, ls0)
  {
    var score, step := CrossingScore(g), BarycenterStep(g);
    BestIsEarliestMinimum(score, step, ls0, k);
    assert Working(step, ls0, 0) == ls0;
    WorkingSameLayers(g, ls0, BestIndex(score, step, ls0, k));
  }

  // ---- the imperative code

  /** improveOrdering, lines 95-105: one sweep, reordering the rows in place. */
  method ImproveOrdering(g: Graph, i: nat, L: Rows)
    requires DistinctRows(L)
    modifies L
    ensures Contents(L) == Sweep(BarycenterStep(g), i, old(Contents(L)))
  {
    if i % 2 == 0 {
      SweepDown(g, L);
    } else {
      SweepUp(g, L);
    }
  }

  /** Lines 97-99: layers 1 to the last, each against the one above. */
  method SweepDown(g: Graph, L: Rows)
    requires DistinctRows(L)
    modifies L
    ensures Contents(L) == DownFrom(BarycenterStep(g), old(Contents(L)), 1)
  {
    var j := 1;
    while j < |L|
      invariant 1 <= j && (|L| >= 1 ==> j <= |L|)
      invariant DownFrom(BarycenterStep(g), Contents(L), j) == DownFrom(BarycenterStep(g), old(Contents(L)), 1)
    {
      Step(g, L, j - 1, j);
      j := j + 1;
    }
  }

  /** Lines 101-103: layers second-to-last down to 0, each against the one below. */
  method SweepUp(g: Graph, L: Rows)
    requires DistinctRows(L)
    modifies L
    ensures Contents(L) == UpFrom(BarycenterStep(g), old(Contents(L)), |L| - 2)
  {
    var j := |L| - 2;
    while j >= 0
      invariant -2 <= j <= |L| - 2
      invariant UpFrom(BarycenterStep(g), Contents(L), j) == UpFrom(BarycenterStep(g), old(Contents(L)), |L| - 2)
    {
      Step(g, L, j + 1, j);
      j := j - 1;
    }
  }

  /** One barycenter step on row `mov` against row `fix` (lines 98 and 102). */
  method Step(g: Graph, L: Rows, fix: nat, mov: nat)
    requires DistinctRows(L) && fix < |L| && mov < |L| && fix != mov
    modifies L[mov]
    ensures Contents(L) == old(Contents(L))[mov := BarycenterStep(g)(old(L[fix][..]), old(L[mov][..]))]
  {
    ghost var before := Contents(L);
    ImproveLayer(g, L[fix][..], L[mov]);
    assert forall k :: 0 <= k < |L| && k != mov ==> L[k] != L[mov];
    assert Contents(L) == before[mov := BarycenterOrder(g, before[fix], before[mov])];
  }

  /** Fresh rows holding `ls`, one array per layer. */
  method MakeRows(ls: seq<seq<Node>>) returns (C: Rows)
    ensures |C| == |ls| && forall j :: 0 <= j < |C| ==> fresh(C[j])
    ensures DistinctRows(C)
    ensures Contents(C) == ls
  {
    C := [];
    for j := 0 to |ls|
      invariant |C| == j
      invariant forall a :: 0 <= a < j ==> fresh(C[a]) && C[a][..] == ls[a]
      invariant DistinctRows(C)
    {
      var row := new Node[|ls[j]|](k requires 0 <= k < |ls[j]| => ls[j][k]);
      assert row[..] == ls[j];
      C := C + [row];
    }
  }

  /** The ordering phase, lines 175-191.  `initial` is the layering the
      traversal built, returned beside the result so that the contract can
      name it; the result is the kept candidate after the iterations, a
      negative count running none. */
  method Order(g: Graph, orderIters: int, rank: map<Node, nat>)
    returns (best: seq<seq<Node>>, initial: seq<seq<Node>>)
    requires ValidGraph(g) && Ranked(g, rank)
    ensures AtRank(rank, initial) && Distinct(initial) && LastNonEmpty(initial)
    ensures forall w :: w in Placed(initial) <==> Reachable(g, rank, w)
    ensures initial == VisitRoots(g, rank, Walk({}, []), g.nodes).layering
    ensures best ==
      BestAfter(CrossingScore(g), BarycenterStep(g), initial, if orderIters < 0 then 0 else orderIters).layering
  {
    var layering := InitOrder(g, rank);
    initial := layering;
    var L := MakeRows(layering);
    best := KeepBest(g, orderIters, L);
  }

  /** Lines 177-190: sweep `orderIters` times, copying out the working
      layering whenever it has fewer crossings than the kept one.  The
      copies copyLayering makes (lines 171-173) are held as values. */
  method KeepBest(g: Graph, orderIters: int, L: Rows) returns (best: seq<seq<Node>>)
    requires DistinctRows(L)
    modifies L
    ensures best ==
      BestAfter(CrossingScore(g), BarycenterStep(g), old(Contents(L)), if orderIters < 0 then 0 else orderIters).layering
    ensures Contents(L) == Working(BarycenterStep(g), old(Contents(L)), if orderIters < 0 then 0 else orderIters)
  {
    ghost var ls0 := Contents(L);
    ghost var n := if orderIters < 0 then 0 else orderIters;
    best := Contents(L);
    var bestCC := CrossCount(g, Contents(L));

    var i := 0;
    while i < orderIters
      invariant 0 <= i <= n
      invariant Contents(L) == Working(BarycenterStep(g), ls0, i)
      invariant Candidate(best, bestCC) == BestAfter(CrossingScore(g), BarycenterStep(g), ls0, i)
    {
      best, bestCC := Iteration(g, i, L, best, bestCC, ls0);
      i := i + 1;
    }
    assert i == n;
  }

  /** The kept candidate one iteration on: a strictly lower score replaces it. */
  lemma BestAfterNext(score: Score, step: LayerStep, ls0: seq<seq<Node>>, k: nat, cc: nat)
    requires cc == score(Working(step, ls0, k + 1))
    ensures BestAfter(score, step, ls0, k + 1) ==
      if cc < BestAfter(score, step, ls0, k).score then Candidate(Working(step, ls0, k + 1), cc)
      else BestAfter(score, step, ls0, k)
  {
  }

  /** One pass of lines 182-187: sweep, count, and keep a copy when the
      count is strictly lower. */
  method Iteration(g: Graph, i: nat, L: Rows, best: seq<seq<Node>>, bestCC: nat,
                   ghost ls0: seq<seq<Node>>)
    returns (best': seq<seq<Node>>, bestCC': nat)
    requires DistinctRows(L) && Contents(L) == Working(BarycenterStep(g), ls0, i)
    requires Candidate(best, bestCC) == BestAfter(CrossingScore(g), BarycenterStep(g), ls0, i)
    modifies L
    ensures Contents(L) == Working(BarycenterStep(g), ls0, i + 1)
    ensures Candidate(best', bestCC') == BestAfter(CrossingScore(g), BarycenterStep(g), ls0, i + 1)
  {
    ghost var next := Working(BarycenterStep(g), ls0, i + 1);
    ImproveOrdering(g, i, L);
    assert Contents(L) == next;
    var cc := CrossCount(g, Contents(L));
    assert cc == CrossingScore(g)(next);
    BestAfterNext(CrossingScore(g), BarycenterStep(g), ls0, i, cc);
    best', bestCC' := best, bestCC;
    if cc < bestCC {
      best' := Contents(L);
      bestCC' := cc;
    }
  }
}
