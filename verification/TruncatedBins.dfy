/**
  A training set on which the 16-bit bucket numbers misroute a row: more than 65537 categories of
  one feature, and the row with the largest of them.
 */
module TruncatedBins {
  import opened Arith
  import opened Binning
  import opened TreeBuildWorker
  import opened TreeSpec
  import opened TreeBuilder
  import opened TreeInference

  /** The samples 0, 1, ..., n - 1, all of them doubles while n is at most EXACT_LIMIT. */
  function Ramp(n: nat): (x: seq<real>)
    ensures |x| == n && forall i :: 0 <= i < n ==> x[i] == i as real
  {
    seq(n, i => i as real)
  }

  /** Up to here, 2^53, doubles hold every integer. */
  const EXACT_LIMIT: nat := 0x20_0000_0000_0000

  lemma TwiceLimit()
    ensures Pow2(54) == 2 * EXACT_LIMIT
  {
    assert Pow2(6) == 0x40;
    hide Pow2;
    Pow2Add(6, 6);
    Pow2Add(12, 6);
    Pow2Add(18, 18);
    Pow2Add(36, 18);
  }

  lemma FarBelow(n: nat)
    requires n <= EXACT_LIMIT
    ensures n as real + 1.0 <= DBL_MAX
  {
    hide Pow2;
    TwiceLimit();
    Pow2Grows(54, 971);
    Pow2Grows(971, 1024);
  }

  function RampThresholds(n: nat): (thr: seq<Ext>)
    requires n >= 1
    ensures |thr| == n && thr[n - 1] == PosInf && forall k :: 0 <= k < n - 1 ==> thr[k] == Fin(Ramp(n)[k + 1])
  {
    Wrapped(Ramp(n)[1..]) + [PosInf]
  }

  lemma {:induction false} SortedStays(s: seq<real>)
    requires Sorted(s)
    ensures Sort(s) == s
  {
    if s != [] {
      SortedStays(s[1..]);
    }
  }

  /** Values that can all be told apart are all categories. */
  lemma {:induction false} AllCategories(s: seq<real>, n: nat)
    requires n <= |s| && forall i :: 0 < i < |s| ==> MathNeq(s[i], s[i - 1])
    ensures Categories(s, n) == s[..n]
  {
    if n > 0 {
      AllCategories(s, n - 1);
      assert s[..n] == s[..n - 1] + [s[n - 1]];
    }
  }

  /** Fitting such a sample with a bucket for each value gives these thresholds. */
  method FitRamp(n: nat) returns (m: BinningModel)
    requires 3 <= n <= EXACT_LIMIT
    ensures m.nbuckets == n && m.binThresholds == RampThresholds(n) && ThresholdsFor(m.binThresholds, Ramp(n), n)
  {
    hide Categories, Sort, ThresholdsFor, DBL_MAX;
    var x := Ramp(n);
    FarBelow(n);
    m := new BinningModel(n);
    SortedStays(x);
    AllCategories(x, n);
    assert x[..n] == x;
    assert x != [] && !AllNearMax(x) by { assert MathNeq(x[0], DBL_MAX); }
    var ok := m.Fit(x);
  }

  lemma RampFits(n: nat)
    requires n >= 3
    ensures ThresholdsFor(RampThresholds(n), Ramp(n), n)
  {
    var thr, x := RampThresholds(n), Ramp(n);
    forall i, j | 0 <= i < j < n
      ensures Less(thr[i], thr[j])
    {
      assert j < n - 1 ==> x[i + 1] < x[j + 1];
    }
  }

  /** Rank 0 has the ramp as its only feature, rank 1 has none; all samples are kept. */
  function RampRun(n: nat): Run
    requires n >= 3
  {
    var zero := seq(n, _ => 0);
    Run(PartyData([Ramp(n)], [RampThresholds(n)], n, n), PartyData([], [], n, n), zero, zero, [], [])
  }

  lemma RampRunValid(n: nat)
    requires n >= 3
    ensures RampRun(n).Valid()
  {
    RampFits(n);
  }

  /** The largest value's bin is the last but one. */
  lemma LastBin(n: nat)
    requires n >= 3
    ensures RampRun(n).d0.Bin(0, n - 1) == n - 2
  {
    RampFits(n);
    var thr, v := RampThresholds(n), Fin(Ramp(n)[n - 1]);
    assert thr[n - 2] == v && thr[n - 3] == Fin(Ramp(n)[n - 2]);
    BinOfUnique(thr, v, n - 2);
  }

  /** Splitting the root on the bucket it is stored under, training takes it left and inference takes it right. */
  lemma TruncationMisroutes(n: nat) returns (c: Choice, s0: seq<Split>, s1: seq<Split>)
    requires 0x1_0002 <= n <= EXACT_LIMIT
    ensures var run, cs := RampRun(n), [Choice(0, 0), c];
      run.Valid() && run.Decided(cs) && SplitsOk(run, cs, s0, s1) && run.NodeOf(cs, 2, n - 1) == 2
      && LeafOf(s0, s1, RowOf(run.d0, n - 1), RowOf(run.d1, n - 1), 2) == 3
  {
    hide Run.Valid, PartyData.Bin, SplitFor, TakesLeft, RowOf, Run.Left;
    var run := RampRun(n);
    RampRunValid(n);
    LastBin(n);
    c := WrongSide(run, 0, 0, n - 1);
    var cs, none := [Choice(0, 0), c], Split(false, 0, Fin(0.0));
    s0, s1 := [none, SplitFor(run, 0, c)], [none, SplitFor(run, 1, c)];
    assert SplitsOk(run, cs, s0, s1) && run.Decided(cs);
    StepAgrees(run, cs, s0, s1, 1, n - 1);
    assert run.NodeOf(cs, 1, n - 1) == LeafOf(s0, s1, RowOf(run.d0, n - 1), RowOf(run.d1, n - 1), 1) == 1;
  }
}
