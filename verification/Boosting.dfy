/**
  Tree after tree: the gradients are set, a tree is grown, the training predictions are updated.
  At the end the predictions of the training rows are what inference yields for those rows.
 */
module Boosting {
  import opened Arith
  import opened Ring
  import opened BinMatVec
  import opened TreeBuildWorker
  import opened TreeSpec
  import opened TreeBuilder
  import opened TreeTraining
  import opened TreeInference
  import opened TreePrediction

  /** What a round takes in: shared gradients, root masks, chosen buckets, shared leaf weights. */
  datatype Round = Round(g0: Vec, h0: Vec, g1: Vec, h1: Vec, mask0: seq<bool>, mask1: seq<bool>,
                         picks: seq<seq<nat>>, w0: Vec, w1: Vec)

  /** The tree a round grows, as an input of TreeSpec. */
  function RunOf(r: Round, d0: PartyData, d1: PartyData): Run
    requires |r.g0| == |r.g1| && |r.h0| == |r.h1|
  {
    Run(d0, d1, AddV(r.g0, r.g1), AddV(r.h0, r.h1), r.mask0, r.mask1)
  }

  ghost predicate RoundOk(r: Round, d0: PartyData, d1: PartyData, depth: nat) {
    && |r.g0| == |r.h0| == |r.g1| == |r.h1| == d0.n
    && (r.mask0 == [] || |r.mask0| == d0.n) && (r.mask1 == [] || |r.mask1| == d0.n)
    && depth >= 1 && PicksOk(RunOf(r, d0, d1), r.picks, depth)
    && IsVec(r.w0, Pow2(depth - 1)) && IsVec(r.w1, Pow2(depth - 1))
  }

  /** A round is not aborted. */
  ghost predicate Completes(r: Round, d0: PartyData, d1: PartyData, depth: nat) {
    |r.g0| == |r.g1| && |r.h0| == |r.h1| && GoesThrough(RunOf(r, d0, d1), r.picks, depth)
  }

  /** The trees of both parties. */
  datatype Trees = Trees(w0: seq<Vec>, w1: seq<Vec>, s0: seq<seq<Split>>, s1: seq<seq<Split>>) {
    ghost predicate Valid(depth: nat) {
      Forest(w0, w1, s0, s1, depth)
    }
  }

  function TreesOf(p0: Builder, p1: Builder): Trees
    reads p0, p1
  {
    Trees(p0.leafWeights, p1.leafWeights, p0.splitIdentifiers, p1.splitIdentifiers)
  }

  /** What tree k yields for an input. */
  function TermAt(ts: Trees, x0: seq<real>, x1: seq<real>, depth: nat, k: nat): int {
    if k < |ts.w0| && k < |ts.w1| && k < |ts.s0| && k < |ts.s1| && |ts.w0[k]| == |ts.w1[k]|
    then TreeTerm(AddV(ts.w0[k], ts.w1[k]), ts.s0[k], ts.s1[k], x0, x1, depth) else 0
  }

  predicate KeptIn(r: Round, i: nat) {
    Keeps(r.mask0, i) && Keeps(r.mask1, i)
  }

  /** The terms of those of the first t trees whose root masks keep sample i. */
  function KeptTerms(ts: Trees, rounds: seq<Round>, x0: seq<real>, x1: seq<real>, depth: nat, t: nat, i: nat): int {
    if t == 0 || t > |rounds| then 0
    else
      KeptTerms(ts, rounds, x0, x1, depth, t - 1, i)
      + if KeptIn(rounds[t - 1], i) then TermAt(ts, x0, x1, depth, t - 1) else 0
  }

  /** One more tree leaves the terms of the others as they are. */
  lemma {:induction false} KeptTermsStay(ts: Trees, us: Trees, rounds: seq<Round>, x0: seq<real>, x1: seq<real>, depth: nat, t: nat, i: nat)
    requires ts.w0 <= us.w0 && ts.w1 <= us.w1 && ts.s0 <= us.s0 && ts.s1 <= us.s1
    requires t <= |ts.w0| && t <= |ts.w1| && t <= |ts.s0| && t <= |ts.s1|
    ensures KeptTerms(us, rounds, x0, x1, depth, t, i) == KeptTerms(ts, rounds, x0, x1, depth, t, i)
  {
    hide TreeTerm, Mod;
    if t > 0 && t <= |rounds| {
      KeptTermsStay(ts, us, rounds, x0, x1, depth, t - 1, i);
    }
  }

  /** Without subsampling, or for a sample every mask kept, those are all terms. */
  lemma {:induction false} AllKept(ts: Trees, rounds: seq<Round>, x0: seq<real>, x1: seq<real>, depth: nat, t: nat, i: nat)
    requires ts.Valid(depth) && t <= |ts.w0| && t <= |rounds|
    requires forall k :: 0 <= k < t ==> KeptIn(rounds[k], i)
    ensures KeptTerms(ts, rounds, x0, x1, depth, t, i) == Terms(ts.w0, ts.w1, ts.s0, ts.s1, x0, x1, depth, t)
  {
    hide TreeTerm, Mod, Pow2;
    if t > 0 {
      AllKept(ts, rounds, x0, x1, depth, t - 1, i);
      assert CompleteTree(ts.w0[t - 1], ts.w1[t - 1], ts.s0[t - 1], ts.s1[t - 1], depth);
    }
  }

  /** The tree just grown is complete, and its splits name features the parties have. */
  lemma GrownTree(run: Run, cs: seq<Choice>, depth: nat, p0: Builder, p1: Builder, w0: Vec, w1: Vec)
    requires run.Valid() && Grown(run, cs, depth, p0, p1) && IsVec(w0, Pow2(depth - 1)) && IsVec(w1, Pow2(depth - 1))
    ensures p0.splitIdentifiers != [] && p1.splitIdentifiers != []
    ensures SplitsOk(run, cs, Last(p0.splitIdentifiers), Last(p1.splitIdentifiers)) && run.Decided(cs) && |cs| == Pow2(depth - 1)
    ensures CompleteTree(w0, w1, Last(p0.splitIdentifiers), Last(p1.splitIdentifiers), depth)
    ensures FeaturesBelow(Last(p0.splitIdentifiers), |run.d0.columns|) && FeaturesBelow(Last(p1.splitIdentifiers), |run.d1.columns|)
  {
    hide Mod, FrontOk, HistsOk, Pow2;
    var s0, s1 := Last(p0.splitIdentifiers), Last(p1.splitIdentifiers);
    RecordsComplement(run, cs, s0, s1);
    RecordedFeatures(run, cs, s0, s1);
  }

  predicate FeaturesBelow(s: seq<Split>, n: nat) {
    forall k :: 1 <= k < |s| && s[k].self ==> s[k].feature < n
  }

  lemma RecordedFeatures(run: Run, cs: seq<Choice>, s0: seq<Split>, s1: seq<Split>)
    requires run.Valid() && run.Decided(cs) && SplitsOk(run, cs, s0, s1)
    ensures FeaturesBelow(s0, |run.d0.columns|) && FeaturesBelow(s1, |run.d1.columns|)
  {
    forall k | 1 <= k < |cs|
      ensures s0[k].self ==> s0[k].feature < |run.d0.columns|
      ensures s1[k].self ==> s1[k].feature < |run.d1.columns|
    {
      assert run.InRange(cs[k]) && HasThreshold(run.Data(cs[k].owner), cs[k].bucket);
    }
  }

  /** Every tree's splits name features the parties have. */
  predicate AllFeaturesBelow(s: seq<seq<Split>>, n: nat) {
    forall t :: 0 <= t < |s| ==> FeaturesBelow(s[t], n)
  }

  /** Growing by one complete tree. */
  lemma ForestGrows(ts: Trees, us: Trees, depth: nat, n0: nat, n1: nat)
    requires ts.Valid(depth) && AllFeaturesBelow(ts.s0, n0) && AllFeaturesBelow(ts.s1, n1)
    requires TreeAdded(ts.s0, us.s0) && TreeAdded(ts.s1, us.s1) && TreeAddedW(ts.w0, us.w0) && TreeAddedW(ts.w1, us.w1)
    requires CompleteTree(us.w0[|us.w0| - 1], us.w1[|us.w1| - 1], Last(us.s0), Last(us.s1), depth)
    requires FeaturesBelow(Last(us.s0), n0) && FeaturesBelow(Last(us.s1), n1)
    ensures us.Valid(depth) && AllFeaturesBelow(us.s0, n0) && AllFeaturesBelow(us.s1, n1)
    ensures ts.w0 <= us.w0 && ts.w1 <= us.w1 && ts.s0 <= us.s0 && ts.s1 <= us.s1
  {
    hide CompleteTree, FeaturesBelow;
    var n := |ts.s0|;
    assert us.s0[..n] == ts.s0 && us.s1[..n] == ts.s1 && us.w0[..n] == ts.w0 && us.w1[..n] == ts.w1;
    forall t | 0 <= t < n
      ensures us.s0[t] == ts.s0[t] && us.s1[t] == ts.s1[t] && us.w0[t] == ts.w0[t] && us.w1[t] == ts.w1[t]
    {
      assert us.s0[..n][t] == us.s0[t] && us.s1[..n][t] == us.s1[t] && us.w0[..n][t] == us.w0[t] && us.w1[..n][t] == us.w1[t];
    }
  }

  predicate TreeAddedW(was: seq<Vec>, now: seq<Vec>) {
    |now| == |was| + 1 && now[..|was|] == was
  }

  ghost predicate Ready(d0: PartyData, d1: PartyData, p0: Builder, p1: Builder, w0: Worker, w1: Worker)
    reads w0, w1
  {
    && d0.Valid() && d1.Valid() && d0.n == d1.n > 0
    && p0 != p1 && p0.rank == 0 && p1.rank == 1
    && p0.maxDepth == p1.maxDepth >= 1 && p0.nsamples == p1.nsamples == d0.n
    && w0.Valid() && w1.Valid() && w0.View() == d0 && w1.View() == d1
  }

  /** All of row i's bins fit in 16 bits, which is when it is routed alike whatever the splits. */
  predicate BothFit(d0: PartyData, d1: PartyData, i: nat) {
    d0.BinsFit(i) && d1.BinsFit(i)
  }

  /** Each prediction of a row whose bins fit has grown by the terms of the trees that kept the row. */
  ghost predicate Predicted(ts: Trees, rounds: seq<Round>, d0: PartyData, d1: PartyData, depth: nat, t: nat, was: Vec, now: Vec) {
    |was| == |now| == d0.n
    && forall i: nat :: i < d0.n && BothFit(d0, d1, i) ==> PredictedAt(ts, rounds, d0, d1, depth, t, was, now, i)
  }

  ghost predicate PredictedAt(ts: Trees, rounds: seq<Round>, d0: PartyData, d1: PartyData, depth: nat, t: nat, was: Vec, now: Vec, i: nat) {
    i < |was| && i < |now|
    && now[i] == Mod(was[i] + KeptTerms(ts, rounds, RowOf(d0, i), RowOf(d1, i), depth, t, i))
  }

  /** What a round's tree adds for a row is the term of that tree, if the masks keep the row. */
  lemma RoundTerm(r: Round, d0: PartyData, d1: PartyData, cs: seq<Choice>, depth: nat, us: Trees, k: nat, i: nat)
    requires RoundOk(r, d0, d1, depth) && RunOf(r, d0, d1).Valid() && RunOf(r, d0, d1).Decided(cs) && BothFit(d0, d1, i)
    requires depth >= 1 && |cs| == Pow2(depth - 1) == |r.w0| == |r.w1| && i < d0.n
    requires k < |us.w0| && k < |us.w1| && k < |us.s0| && k < |us.s1| && us.w0[k] == r.w0 && us.w1[k] == r.w1
    requires SplitsOk(RunOf(r, d0, d1), cs, us.s0[k], us.s1[k])
    ensures TrainTerm(RunOf(r, d0, d1), cs, depth, AddV(r.w0, r.w1), Pow2(depth - 1), i) ==
      if KeptIn(r, i) then TermAt(us, RowOf(d0, i), RowOf(d1, i), depth, k) else 0
  {
    hide Mod, Pow2, PartyData.Valid, TrainTerm, TreeTerm, RowOf, SplitsOk, Run.Decided, PartyData.BinsFit, RoutedTruly;
    var run := RunOf(r, d0, d1);
    FittingBinsRouteTruly(run, cs, depth, i);
    TrainingMatchesInference(run, cs, depth, us.s0[k], us.s1[k], AddV(r.w0, r.w1), i);
  }

  /** One round of the training loop. */
  method TrainRound(p0: Builder, p1: Builder, worker0: Worker, worker1: Worker, r: Round, pred0: Vec, pred1: Vec, n: nat,
                    ghost d0: PartyData, ghost d1: PartyData, ghost e: nat, N: nat)
    returns (ok: bool, z0: Vec, z1: Vec)
    requires Ready(d0, d1, p0, p1, worker0, worker1) && RoundOk(r, d0, d1, p0.maxDepth) && N == Pow2(e)
    requires TreesOf(p0, p1).Valid(p0.maxDepth) && n == d0.n == |pred0| == |pred1|
    requires AllFeaturesBelow(p0.splitIdentifiers, |d0.columns|) && AllFeaturesBelow(p1.splitIdentifiers, |d1.columns|)
    modifies p0, p1
    ensures ok <==> Completes(r, d0, d1, p0.maxDepth)
    ensures ok ==> TreesOf(p0, p1).Valid(p0.maxDepth) && |p0.leafWeights| == |old(p0.leafWeights)| + 1
    ensures ok ==> AllFeaturesBelow(p0.splitIdentifiers, |d0.columns|) && AllFeaturesBelow(p1.splitIdentifiers, |d1.columns|)
    ensures ok ==> old(p0.leafWeights) <= p0.leafWeights && old(p1.leafWeights) <= p1.leafWeights
    ensures ok ==> old(p0.splitIdentifiers) <= p0.splitIdentifiers && old(p1.splitIdentifiers) <= p1.splitIdentifiers
    ensures ok ==> |z0| == |z1| == n
    ensures ok ==> forall i: nat :: i < n && BothFit(d0, d1, i) ==> AddV(z0, z1)[i] == Mod(AddV(pred0, pred1)[i] +
      if KeptIn(r, i) then TermAt(TreesOf(p0, p1), RowOf(d0, i), RowOf(d1, i), p0.maxDepth, |old(p0.leafWeights)|) else 0)
  {
    hide Mod, Pow2, Grown, Initialised, GoesThrough, PicksOk, CompleteTree, FeaturesBelow, PartyData.Valid, TrainTerm, TreeTerm, RowOf;
    hide SplitsOk, Run.Decided, PartyData.BinsFit, RoutedTruly, AllFeaturesBelow;
    ghost var ts := TreesOf(p0, p1);
    ghost var run := InitBoth(p0, p1, r.g0, r.h0, r.g1, r.h1, r.mask0, r.mask1, d0, d1);
    assert run == RunOf(r, d0, d1);
    ghost var cs;
    ok, cs := BuildTree(p0, p1, worker0, worker1, r.picks, r.w0, r.w1, run, e, N);
    if !ok {
      return false, [], [];
    }
    ghost var us := TreesOf(p0, p1);
    GrownTree(run, cs, p0.maxDepth, p0, p1, r.w0, r.w1);
    ForestGrows(ts, us, p0.maxDepth, |d0.columns|, |d1.columns|);
    z0, z1 := UpdatePrediction(p0, p1, pred0, pred1, |p0.leafWeights| - 1, n, run, cs);
    hide TermAt, KeptIn, BothFit, RunOf, AddV;
    forall i: nat | i < n && BothFit(d0, d1, i)
      ensures AddV(z0, z1)[i] == Mod(AddV(pred0, pred1)[i] +
        if KeptIn(r, i) then TermAt(us, RowOf(d0, i), RowOf(d1, i), p0.maxDepth, |old(p0.leafWeights)|) else 0)
    {
      RoundTerm(r, d0, d1, cs, p0.maxDepth, us, |old(p0.leafWeights)|, i);
    }
  }

  /**
    The training loop.  It goes through exactly when every round does, and then each training row's
    shared prediction has grown by what inference yields for the trees that kept the row, if the
    row's bins fit in 16 bits.
   */
  method Train(p0: Builder, p1: Builder, worker0: Worker, worker1: Worker, rounds: seq<Round>, pred0: Vec, pred1: Vec, n: nat,
               ghost d0: PartyData, ghost d1: PartyData, ghost e: nat, N: nat)
    returns (ok: bool, z0: Vec, z1: Vec)
    requires Ready(d0, d1, p0, p1, worker0, worker1) && N == Pow2(e) && n == d0.n == |pred0| == |pred1|
    requires forall t :: 0 <= t < |rounds| ==> RoundOk(rounds[t], d0, d1, p0.maxDepth)
    requires p0.leafWeights == p1.leafWeights == [] && p0.splitIdentifiers == p1.splitIdentifiers == []
    modifies p0, p1
    ensures ok <==> forall t :: 0 <= t < |rounds| ==> Completes(rounds[t], d0, d1, p0.maxDepth)
    ensures ok ==> TreesOf(p0, p1).Valid(p0.maxDepth) && |p0.leafWeights| == |rounds|
    ensures ok ==> AllFeaturesBelow(p0.splitIdentifiers, |d0.columns|) && AllFeaturesBelow(p1.splitIdentifiers, |d1.columns|)
    ensures ok ==> |z0| == |z1| == n
    ensures ok ==> Predicted(TreesOf(p0, p1), rounds, d0, d1, p0.maxDepth, |rounds|, AddV(pred0, pred1), AddV(z0, z1))
  {
    hide Mod, Completes, RoundOk, PartyData.Valid, FeaturesBelow, CompleteTree, TermAt, Pow2;
    z0, z1 := pred0, pred1;
    NothingPredicted(TreesOf(p0, p1), rounds, d0, d1, p0.maxDepth, pred0, pred1);
    for t := 0 to |rounds|
      invariant TreesOf(p0, p1).Valid(p0.maxDepth) && |p0.leafWeights| == t && |z0| == |z1| == n
      invariant AllFeaturesBelow(p0.splitIdentifiers, |d0.columns|) && AllFeaturesBelow(p1.splitIdentifiers, |d1.columns|)
      invariant Ready(d0, d1, p0, p1, worker0, worker1)
      invariant Predicted(TreesOf(p0, p1), rounds, d0, d1, p0.maxDepth, t, AddV(pred0, pred1), AddV(z0, z1))
      invariant forall k :: 0 <= k < t ==> Completes(rounds[k], d0, d1, p0.maxDepth)
    {
      ghost var ts, y := TreesOf(p0, p1), AddV(z0, z1);
      ok, z0, z1 := TrainRound(p0, p1, worker0, worker1, rounds[t], z0, z1, n, d0, d1, e, N);
      if !ok {
        return;
      }
      RoundPredicted(ts, TreesOf(p0, p1), rounds, d0, d1, p0.maxDepth, t, AddV(pred0, pred1), y, AddV(z0, z1));
    }
    ok := true;
  }

  lemma NothingPredicted(ts: Trees, rounds: seq<Round>, d0: PartyData, d1: PartyData, depth: nat, pred0: Vec, pred1: Vec)
    requires |pred0| == |pred1| == d0.n
    ensures Predicted(ts, rounds, d0, d1, depth, 0, AddV(pred0, pred1), AddV(pred0, pred1))
  {
    hide Mod;
    forall i: nat | i < d0.n
      ensures PredictedAt(ts, rounds, d0, d1, depth, 0, AddV(pred0, pred1), AddV(pred0, pred1), i)
    {
      ModSmall(AddV(pred0, pred1)[i]);
    }
  }

  lemma RoundPredicted(ts: Trees, us: Trees, rounds: seq<Round>, d0: PartyData, d1: PartyData, depth: nat, t: nat, was: Vec, mid: Vec, now: Vec)
    requires t < |rounds| && |mid| == |now| == d0.n && Predicted(ts, rounds, d0, d1, depth, t, was, mid)
    requires ts.w0 <= us.w0 && ts.w1 <= us.w1 && ts.s0 <= us.s0 && ts.s1 <= us.s1
    requires t <= |ts.w0| && t <= |ts.w1| && t <= |ts.s0| && t <= |ts.s1|
    requires forall i: nat :: i < d0.n && BothFit(d0, d1, i) ==> now[i] == Mod(mid[i] +
      if KeptIn(rounds[t], i) then TermAt(us, RowOf(d0, i), RowOf(d1, i), depth, t) else 0)
    ensures Predicted(us, rounds, d0, d1, depth, t + 1, was, now)
  {
    hide Mod, TermAt, RowOf, KeptIn, BothFit;
    var next := t + 1;
    forall i: nat | i < d0.n && BothFit(d0, d1, i)
      ensures PredictedAt(us, rounds, d0, d1, depth, next, was, now, i)
    {
      var x0, x1 := RowOf(d0, i), RowOf(d1, i);
      assert PredictedAt(ts, rounds, d0, d1, depth, t, was, mid, i);
      KeptTermsStay(ts, us, rounds, x0, x1, depth, t, i);
      ModLeft(was[i] + KeptTerms(us, rounds, x0, x1, depth, t, i),
              if KeptIn(rounds[t], i) then TermAt(us, x0, x1, depth, t) else 0);
    }
  }

  /**
    Inference on a training row that every root mask kept and whose bins fit, after training: it goes
    through, and opens to exactly what training has added to that row's prediction.
   */
  method InferTrainingRow(p0: Builder, p1: Builder, x0: seq<real>, x1: seq<real>, ghost rounds: seq<Round>,
                          ghost d0: PartyData, ghost d1: PartyData, ghost was: Vec, ghost now: Vec, ghost i: nat)
    returns (ok: bool, z0: int, z1: int)
    requires p0.maxDepth == p1.maxDepth && TreesOf(p0, p1).Valid(p0.maxDepth) && |p0.leafWeights| == |rounds|
    requires AllFeaturesBelow(p0.splitIdentifiers, |d0.columns|) && AllFeaturesBelow(p1.splitIdentifiers, |d1.columns|)
    requires Predicted(TreesOf(p0, p1), rounds, d0, d1, p0.maxDepth, |rounds|, was, now)
    requires i < d0.n && BothFit(d0, d1, i) && x0 == RowOf(d0, i) && x1 == RowOf(d1, i)
    requires forall t :: 0 <= t < |rounds| ==> KeptIn(rounds[t], i)
    ensures ok && i < |was| && i < |now| && now[i] == Mod(was[i] + z0 + z1)
  {
    hide Mod, Terms, CompleteTree;
    ok, z0, z1 := Inference(p0, p1, x0, x1);
    assert forall t :: 0 <= t < |p0.splitIdentifiers| ==>
      FeaturesExist(p0.splitIdentifiers[t], x0) && FeaturesExist(p1.splitIdentifiers[t], x1);
    AllKept(TreesOf(p0, p1), rounds, x0, x1, p0.maxDepth, |rounds|, i);
    assert PredictedAt(TreesOf(p0, p1), rounds, d0, d1, p0.maxDepth, |rounds|, was, now, i);
    var total := Terms(p0.leafWeights, p1.leafWeights, p0.splitIdentifiers, p1.splitIdentifiers, x0, x1, p0.maxDepth, |rounds|);
    AddCong(was[i], was[i], total, z0 + z1);
  }
}
