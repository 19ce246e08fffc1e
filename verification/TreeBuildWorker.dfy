/**
  One party's view of its own feature columns: which bucket every sample falls into, and the
  per-bucket gradient sums the two parties compute together from it.
 */
module TreeBuildWorker {
  import opened Arith
  import opened Ring
  import opened Binning
  import opened BinMatVec

  /** A party's columns after bucketing, as a value. */
  datatype PartyData = PartyData(columns: seq<seq<real>>, thresholds: seq<seq<Ext>>, bucketSize: nat, n: nat) {
    ghost predicate Valid() {
      && bucketSize >= 3
      && |columns| == |thresholds|
      && (forall f :: 0 <= f < |columns| ==> |columns[f]| == n)
      && (forall f :: 0 <= f < |columns| ==> ThresholdsFor(thresholds[f], columns[f], bucketSize))
    }

    function NumBuckets(): nat {
      |columns| * bucketSize
    }

    /** The bin of sample i for feature f. */
    function Bin(f: nat, i: nat): nat {
      if f < |thresholds| && f < |columns| && i < |columns[f]| then BinOf(thresholds[f], Fin(columns[f][i])) else 0
    }

    /** The bucket BuildMap stores it under: what is left of the bin in 16 bits. */
    function StoredBin(f: nat, i: nat): nat {
      Bin(f, i) % 0x1_0000
    }

    /** All bins of sample i fit in 16 bits. */
    predicate BinsFit(i: nat) {
      forall f :: 0 <= f < |columns| ==> Bin(f, i) < 0x1_0000
    }

    function Row(f: nat, b: nat): set<nat> {
      set i: nat | i < n && StoredBin(f, i) == b
    }

    /** The samples that go left when bucket t is chosen. */
    function LeftSet(t: nat): set<nat> {
      if bucketSize == 0 then {} else set i: nat | i < n && StoredBin(t / bucketSize, i) <= t % bucketSize
    }

    lemma FeatureInRange(t: nat)
      requires bucketSize >= 1 && t < NumBuckets()
      ensures 0 <= t / bucketSize < |columns| && 0 <= t % bucketSize < bucketSize
      ensures t == t / bucketSize * bucketSize + t % bucketSize
    {
      DivBelow(t, |columns|, bucketSize);
    }

    lemma StoredBinInRange(f: nat, i: nat)
      requires Valid() && f < |columns| && i < n
      ensures StoredBin(f, i) < bucketSize
    {
      FittedBinExists(thresholds[f], columns[f], bucketSize, Fin(columns[f][i]));
    }

    /** Every sample is in exactly one row of each feature. */
    lemma RowsPartition(f: nat, i: nat)
      requires Valid() && f < |columns| && i < n
      ensures exists b :: 0 <= b < bucketSize && i in Row(f, b)
      ensures forall b, c :: 0 <= b < c ==> Row(f, b) !! Row(f, c)
    {
      StoredBinInRange(f, i);
      assert i in Row(f, StoredBin(f, i));
    }

    /** The left set of a bucket is that of the bucket before it plus one row. */
    lemma LeftSetStep(f: nat, b: nat)
      requires Valid() && f < |columns| && b < bucketSize && f * bucketSize + b < NumBuckets()
      ensures b == 0 ==> LeftSet(f * bucketSize) == Row(f, 0)
      ensures b > 0 ==> f * bucketSize + b - 1 < NumBuckets()
      ensures b > 0 ==> LeftSet(f * bucketSize + b) == LeftSet(f * bucketSize + b - 1) + Row(f, b)
      ensures b > 0 ==> LeftSet(f * bucketSize + b - 1) !! Row(f, b)
    {
      DivModUnique(f * bucketSize + b, f, b, bucketSize);
      if b > 0 {
        DivModUnique(f * bucketSize + b - 1, f, b - 1, bucketSize);
      }
    }
  }

  /** Sum of s[lo..hi]. */
  function RunSum(s: Vec, lo: int, hi: int): int
    requires 0 <= lo <= hi <= |s|
    decreases hi - lo
  {
    if lo == hi then 0 else RunSum(s, lo, hi - 1) + s[hi - 1]
  }

  /** Entry k of the per-feature running sums. */
  function Accumulated(s: Vec, k: nat, bucketSize: nat): int
    requires bucketSize >= 1 && k < |s|
  {
    FeatureStart(k, bucketSize);
    Mod(RunSum(s, k / bucketSize * bucketSize, k + 1))
  }

  lemma FeatureStart(k: nat, b: nat)
    requires b >= 1
    ensures 0 <= k / b * b <= k
  {
    assert k == k / b * b + k % b;
    MulNonNeg(k / b, b);
  }

  /** In place: within each feature, every bucket becomes the sum of itself and all before it. */
  method AccumulateHistogram(histogram: array<int>, nfeatures: nat, bucketSize: nat)
    requires bucketSize >= 1 && histogram.Length == nfeatures * bucketSize
    requires IsVec(histogram[..], histogram.Length)
    modifies histogram
    ensures IsVec(histogram[..], histogram.Length)
    ensures forall k :: 0 <= k < histogram.Length ==>
      histogram[k] == Accumulated(old(histogram[..]), k, bucketSize)
  {
    hide Accumulated, Mod, RunSum;
    ghost var was := histogram[..];
    ghost var done: nat := 0;
    var j := 0;
    while j < nfeatures
      invariant 0 <= j <= nfeatures && done == j * bucketSize && done <= histogram.Length
      invariant forall k :: 0 <= k < done ==> histogram[k] == Accumulated(was, k, bucketSize)
      invariant forall k :: done <= k < histogram.Length ==> histogram[k] == was[k]
    {
      MulLt(j, nfeatures, bucketSize);
      Distribute(j, 1, bucketSize);
      var start := j * bucketSize;
      var end := start + bucketSize;
      assert was[start] == histogram[start];
      AccumulatedFirst(was, j, bucketSize);
      var k := start + 1;
      while k < end
        invariant start + 1 <= k <= end
        invariant forall i :: 0 <= i < k ==> histogram[i] == Accumulated(was, i, bucketSize)
        invariant forall i :: k <= i < histogram.Length ==> histogram[i] == was[i]
      {
        AccumulatedNext(was, j, k, bucketSize);
        histogram[k] := Mod(histogram[k] + histogram[k - 1]);
        k := k + 1;
      }
      j, done := j + 1, end;
    }
    InRange(was, histogram[..], bucketSize);
  }

  lemma AccumulatedFirst(s: Vec, j: nat, b: nat)
    requires b >= 1 && 0 <= j * b < |s| && 0 <= s[j * b] < M
    ensures Accumulated(s, j * b, b) == s[j * b]
  {
    DivModUnique(j * b, j, 0, b);
    ModSmall(s[j * b]);
    assert RunSum(s, j * b, j * b + 1) == s[j * b];
  }

  lemma InRange(s: Vec, r: Vec, b: nat)
    requires b >= 1 && |r| == |s| && forall k :: 0 <= k < |s| ==> r[k] == Accumulated(s, k, b)
    ensures IsVec(r, |s|)
  {
    hide RunSum;
  }

  lemma AccumulatedFrom(s: Vec, k: nat, b: nat, lo: int)
    requires b >= 1 && k < |s| && lo == k / b * b && 0 <= lo <= k
    ensures Accumulated(s, k, b) == Mod(RunSum(s, lo, k + 1))
  {
    hide RunSum, Mod;
  }

  lemma AccumulatedNext(s: Vec, j: nat, k: nat, b: nat)
    requires b >= 1 && 0 <= j * b < k < j * b + b && k < |s|
    ensures Accumulated(s, k, b) == Mod(s[k] + Accumulated(s, k - 1, b))
  {
    DivModUnique(k, j, k - j * b, b);
    DivModUnique(k - 1, j, k - 1 - j * b, b);
    var r := RunSum(s, j * b, k);
    ModIdem(r);
    AddCong(s[k], s[k], r, Mod(r));
  }

  /** Running sums of shares are shares of the running sums. */
  lemma {:induction false} RunSumOfShares(u: Vec, v: Vec, lo: int, hi: int)
    requires |u| == |v| && 0 <= lo <= hi <= |u|
    ensures Mod(RunSum(AddV(u, v), lo, hi)) == Mod(RunSum(u, lo, hi) + RunSum(v, lo, hi))
    decreases hi - lo
  {
    hide Mod, AddV;
    if lo < hi {
      RunSumOfShares(u, v, lo, hi - 1);
      var x, y := RunSum(u, lo, hi - 1) + RunSum(v, lo, hi - 1), u[hi - 1] + v[hi - 1];
      ModIdem(y);
      AddCong(RunSum(AddV(u, v), lo, hi - 1), x, Mod(y), y);
    }
  }

  /** The rows of one feature up to bucket b, summed, are the sum over the left set of b. */
  lemma {:induction false} RunSumIsLeftSum(d: PartyData, total: Vec, keep: set<nat>, hist: Vec, f: nat, b: nat)
    requires d.Valid() && f < |d.columns| && b < d.bucketSize && f * d.bucketSize + b < d.NumBuckets()
    requires |hist| == d.NumBuckets() && RowSums(d, total, keep, hist)
    ensures 0 <= f * d.bucketSize
    ensures Mod(RunSum(hist, f * d.bucketSize, f * d.bucketSize + b + 1))
         == Mod(SumOver(total, d.LeftSet(f * d.bucketSize + b) * keep))
    decreases b
  {
    hide PartyData.Valid, PartyData.LeftSet, PartyData.Row, SumOver, Mod, RowSums;
    MulNonNeg(f, d.bucketSize);
    var lo, t := f * d.bucketSize, f * d.bucketSize + b;
    d.LeftSetStep(f, b);
    var here := SumOver(total, d.Row(f, b) * keep);
    RowSumAt(d, total, keep, hist, f, b);
    ModIdem(here);
    assert RunSum(hist, lo, t + 1) == RunSum(hist, lo, t) + hist[t];
    if b == 0 {
      assert RunSum(hist, lo, lo) == 0;
    } else {
      RunSumIsLeftSum(d, total, keep, hist, f, b - 1);
      SumOverUnion(total, d.LeftSet(t - 1) * keep, d.Row(f, b) * keep);
      assert d.LeftSet(t) * keep == d.LeftSet(t - 1) * keep + d.Row(f, b) * keep;
      AddCong(RunSum(hist, lo, t), SumOver(total, d.LeftSet(t - 1) * keep), hist[t], here);
    }
  }

  /** hist holds, bucket by bucket, the sums over the kept samples of one row. */
  ghost predicate RowSums(d: PartyData, total: Vec, keep: set<nat>, hist: Vec)
  {
    d.bucketSize >= 1 && forall t {:trigger hist[t]} :: 0 <= t < |hist| ==>
      (hist[t] == Mod(SumOver(total, d.Row(t / d.bucketSize, t % d.bucketSize) * keep)))
  }

  lemma RowSumAt(d: PartyData, total: Vec, keep: set<nat>, hist: Vec, f: nat, b: nat)
    requires RowSums(d, total, keep, hist) && b < d.bucketSize && 0 <= f * d.bucketSize + b < |hist|
    ensures hist[f * d.bucketSize + b] == Mod(SumOver(total, d.Row(f, b) * keep))
  {
    hide PartyData.Row, SumOver, Mod;
    DivModUnique(f * d.bucketSize + b, f, b, d.bucketSize);
  }

  class Worker {
    const bucketSize: nat
    const nfeatures: nat
    var bucketMap: seq<set<nat>>
    var cols: nat
    var binnings: seq<seq<Ext>>
    ghost var columns: seq<seq<real>>

    ghost function View(): PartyData
      reads this
    {
      PartyData(columns, binnings, bucketSize, cols)
    }

    ghost predicate Valid()
      reads this
    {
      && |binnings| == nfeatures
      && View().Valid()
      && MapFor(bucketMap, View())
    }

    constructor (bucketSize: nat, nfeatures: nat)
      ensures this.bucketSize == bucketSize && this.nfeatures == nfeatures
      ensures bucketMap == [] && cols == 0 && binnings == [] && columns == []
    {
      this.bucketSize := bucketSize;
      this.nfeatures := nfeatures;
      bucketMap, cols, binnings, columns := [], 0, [], [];
    }

    /**
      Fits every column and files every sample under its bucket.  Fails exactly when some column
      cannot be fitted.
     */
    method BuildMap(dframe: seq<seq<real>>, nsamples: nat) returns (ok: bool)
      requires bucketSize >= 3 && |dframe| == nfeatures
      requires forall f :: 0 <= f < |dframe| ==> |dframe[f]| == nsamples
      requires forall f, i :: 0 <= f < |dframe| && 0 <= i < nsamples ==> dframe[f][i] <= DBL_MAX
      modifies this
      ensures ok <==> forall f :: 0 <= f < |dframe| ==> dframe[f] != [] && !AllNearMax(dframe[f])
      ensures ok ==> Valid() && columns == dframe && cols == nsamples
    {
      hide AllNearMax, FilesAs, AreQuantiles, Sort, Categories, MathNeq, DBL_MAX;
      var thresholds: seq<seq<Ext>> := [];
      var rows: seq<set<nat>> := [];
      var f := 0;
      while f < nfeatures
        invariant 0 <= f <= nfeatures && |thresholds| == f
        invariant forall g :: 0 <= g < f ==> dframe[g] != [] && !AllNearMax(dframe[g])
        invariant forall g :: 0 <= g < f ==> ThresholdsFor(thresholds[g], dframe[g], bucketSize)
        invariant MapFor(rows, PartyData(dframe[..f], thresholds, bucketSize, nsamples))
      {
        ghost var before := PartyData(dframe[..f], thresholds, bucketSize, nsamples);
        var binning := new BinningModel(bucketSize);
        var fitted := binning.Fit(dframe[f]);
        if !fitted {
          return false;
        }
        var indices := binning.Transform(Wrapped(dframe[f]));
        ghost var after := PartyData(dframe[..f + 1], thresholds + [binning.binThresholds], bucketSize, nsamples);
        assert after.Valid();
        forall i | 0 <= i < nsamples
          ensures indices[i] == after.StoredBin(f, i) < bucketSize
        {
          after.StoredBinInRange(f, i);
        }
        var mine := RowsOf(indices);
        ExtendMap(rows, before, mine, after, indices);
        thresholds := thresholds + [binning.binThresholds];
        rows := rows + mine;
        f := f + 1;
      }
      assert dframe[..nfeatures] == dframe;
      bucketMap, cols, binnings, columns := rows, nsamples, thresholds, dframe;
      ok := true;
    }

    /** One set of samples per bucket. */
    method RowsOf(indices: seq<nat>) returns (mine: seq<set<nat>>)
      requires forall i :: 0 <= i < |indices| ==> indices[i] < bucketSize
      ensures |mine| == bucketSize
      ensures FilesAs(mine, indices, |indices|)
    {
      mine := seq(bucketSize, _ => {});
      var i := 0;
      while i < |indices|
        invariant 0 <= i <= |indices| && |mine| == bucketSize
        invariant FilesAs(mine, indices, i)
      {
        var bucket := indices[i];
        mine := mine[bucket := mine[bucket] + {i}];
        i := i + 1;
      }
    }

    /** Which samples lie at or below the chosen bucket; no sample is met twice on the way. */
    method PotentialLeftIndicator(target: nat) returns (ok: bool, indicator: seq<bool>)
      requires Valid()
      ensures ok <==> target < View().NumBuckets()
      ensures ok ==> |indicator| == cols && forall i :: 0 <= i < cols ==> (indicator[i] <==> i in View().LeftSet(target))
    {
      ghost var d := View();
      if target >= nfeatures * bucketSize {
        return false, [];
      }
      d.FeatureInRange(target);
      var feature := target / bucketSize;
      var bgn := feature * bucketSize;
      indicator := seq(cols, _ => false);
      var k := bgn;
      while k <= target
        invariant bgn <= k <= target + 1 && |indicator| == cols
        invariant forall i :: 0 <= i < cols ==> (indicator[i] <==> d.StoredBin(feature, i) < k - bgn)
      {
        DivModUnique(k, feature, k - bgn, bucketSize);
        var todo := bucketMap[k];
        assert todo == d.Row(feature, k - bgn);
        while todo != {}
          invariant todo <= bucketMap[k] && |indicator| == cols
          invariant forall i :: 0 <= i < cols ==>
            (indicator[i] <==> d.StoredBin(feature, i) < k - bgn || (d.StoredBin(feature, i) == k - bgn && i !in todo))
          decreases |todo|
        {
          var s :| s in todo;
          todo := todo - {s};
          if indicator[s] {
            assert false;
            return false, [];
          }
          indicator := indicator[s := true];
        }
        k := k + 1;
      }
      ok := true;
    }

    /** The feature and the threshold of a bucket; fails when the feature has fewer thresholds. */
    method SplitInfo(target: nat) returns (ok: bool, feature: nat, threshold: Ext)
      requires Valid()
      ensures ok <==> target < View().NumBuckets() && HasThreshold(View(), target)
      ensures ok ==> feature == target / bucketSize < nfeatures
      ensures ok ==> threshold == binnings[feature][target % bucketSize]
    {
      feature, threshold := 0, PosInf;
      if target >= nfeatures * bucketSize {
        return false, 0, PosInf;
      }
      View().FeatureInRange(target);
      feature := target / bucketSize;
      var bin := target % bucketSize;
      if bin >= |binnings[feature]| {
        return false, 0, PosInf;
      }
      ok, threshold := true, binnings[feature][bin];
    }
  }

  predicate HasThreshold(d: PartyData, t: nat) {
    d.bucketSize >= 1 && t / d.bucketSize < |d.thresholds| && t % d.bucketSize < |d.thresholds[t / d.bucketSize]|
  }

  /** Set b of mine holds the positions among the first n whose bucket is b. */
  ghost predicate FilesAs(mine: seq<set<nat>>, indices: seq<nat>, n: nat)
    requires n <= |indices|
  {
    forall b: nat, i: nat {:trigger i in mine[b]} :: b < |mine| ==> (i in mine[b] <==> i < n && indices[i] == b)
  }

  ghost predicate MapFor(rows: seq<set<nat>>, d: PartyData) {
    && |rows| == d.NumBuckets() && d.bucketSize >= 1
    && forall t {:trigger rows[t]} :: 0 <= t < |rows| ==>
         rows[t] == d.Row(t / d.bucketSize, t % d.bucketSize)
  }

  lemma ExtendMap(rows: seq<set<nat>>, d: PartyData, mine: seq<set<nat>>, e: PartyData, indices: seq<nat>)
    requires d.Valid() && e.Valid() && MapFor(rows, d)
    requires |e.columns| == |d.columns| + 1 && e.columns[..|d.columns|] == d.columns
    requires e.thresholds[..|d.columns|] == d.thresholds && e.bucketSize == d.bucketSize && e.n == d.n
    requires |indices| == e.n && |mine| == e.bucketSize
    requires forall i :: 0 <= i < e.n ==> indices[i] == e.StoredBin(|d.columns|, i)
    requires FilesAs(mine, indices, |indices|)
    ensures MapFor(rows + mine, e)
  {
    var F, B := |d.columns|, d.bucketSize;
    assert e.NumBuckets() == F * B + B;
    forall t | 0 <= t < |rows + mine|
      ensures (rows + mine)[t] == e.Row(t / B, t % B)
    {
      e.FeatureInRange(t);
      if t < F * B {
        d.FeatureInRange(t);
        assert rows[t] == d.Row(t / B, t % B);
        assert d.columns[t / B] == e.columns[t / B] && d.thresholds[t / B] == e.thresholds[t / B];
      } else {
        DivModUnique(t, F, t - F * B, B);
        assert (rows + mine)[t] == mine[t - F * B];
        RowFiled(e, F, t - F * B, mine, indices);
      }
    }
  }

  lemma RowFiled(e: PartyData, f: nat, b: nat, mine: seq<set<nat>>, indices: seq<nat>)
    requires e.Valid() && f < |e.columns| && |indices| == e.n && FilesAs(mine, indices, |indices|)
    requires b < |mine|
    requires forall i :: 0 <= i < e.n ==> indices[i] == e.StoredBin(f, i)
    ensures mine[b] == e.Row(f, b)
  {
    hide FilesAs, PartyData.Valid, PartyData.StoredBin;
    forall i: nat
      ensures i in mine[b] <==> i in e.Row(f, b)
    {
      FiledAt(mine, indices, b, i);
    }
  }

  lemma FiledAt(mine: seq<set<nat>>, indices: seq<nat>, b: nat, i: nat)
    requires FilesAs(mine, indices, |indices|) && b < |mine|
    ensures i in mine[b] <==> i < |indices| && indices[i] == b
  {
  }

  // ---- the joint computation ----

  /** Bucket j of the joint numbering: rank 0's buckets come first. */
  function Owner(d0: PartyData, j: nat): nat {
    if j >= d0.NumBuckets() then 1 else 0
  }

  function MapBucket(d0: PartyData, j: nat): nat {
    if j >= d0.NumBuckets() then j - d0.NumBuckets() else j
  }

  function JointLeftSet(d0: PartyData, d1: PartyData, j: nat): set<nat> {
    if Owner(d0, j) == 0 then d0.LeftSet(MapBucket(d0, j)) else d1.LeftSet(MapBucket(d0, j))
  }

  /** The histogram of v over the samples each owner keeps. */
  function DirectHistogram(d0: PartyData, d1: PartyData, v: Vec, keep0: set<nat>, keep1: set<nat>): (h: Vec)
    ensures IsVec(h, d0.NumBuckets() + d1.NumBuckets())
  {
    seq(d0.NumBuckets() + d1.NumBuckets(), j requires 0 <= j < d0.NumBuckets() + d1.NumBuckets() =>
      Mod(SumOver(v, JointLeftSet(d0, d1, j) * (if Owner(d0, j) == 0 then keep0 else keep1))))
  }

  /** One direction: the bucket sums over w's buckets, accumulated, as shares. */
  method OneSide(w: Worker, v0: Vec, v1: Vec, indicator: seq<bool>, ghost e: nat, N: nat)
    returns (ok: bool, z0: Vec, z1: Vec)
    requires w.Valid() && N == Pow2(e) && |v0| == |v1| == w.cols > 0
    requires indicator == [] || |indicator| == w.cols
    ensures ok <==> indicator == [] || true in indicator
    ensures ok ==> IsVec(z0, w.View().NumBuckets()) && IsVec(z1, w.View().NumBuckets())
    ensures ok ==> forall t :: 0 <= t < w.View().NumBuckets() ==>
      AddV(z0, z1)[t] == Mod(SumOver(AddV(v0, v1), w.View().LeftSet(t) * Kept(indicator, w.cols)))
  {
    ghost var d := w.View();
    forall r, c | 0 <= r < |w.bucketMap| && c in w.bucketMap[r]
      ensures c < |v1|
    {
      d.FeatureInRange(r);
      assert w.bucketMap[r] == d.Row(r / d.bucketSize, r % d.bucketSize);
    }
    ok, z0, z1 := BinMatVecProtocol(v0, v1, w.bucketMap, indicator, e, N);
    if !ok {
      return;
    }
    ghost var raw := AddV(z0, z1);
    ghost var total, keep := AddV(v0, v1), Kept(indicator, w.cols);
    assert RowSums(d, total, keep, raw) by {
      forall t | 0 <= t < |raw|
        ensures raw[t] == Mod(SumOver(total, d.Row(t / d.bucketSize, t % d.bucketSize) * keep))
      {
        d.FeatureInRange(t);
        assert w.bucketMap[t] == d.Row(t / d.bucketSize, t % d.bucketSize);
      }
    }
    var a0 := Accumulate(z0, w.nfeatures, w.bucketSize);
    var a1 := Accumulate(z1, w.nfeatures, w.bucketSize);
    forall t | 0 <= t < d.NumBuckets()
      ensures AddV(a0, a1)[t] == Mod(SumOver(total, d.LeftSet(t) * keep))
    {
      AccumulatedShares(d, total, keep, z0, z1, t);
    }
    z0, z1 := a0, a1;
  }

  lemma AccumulatedShares(d: PartyData, total: Vec, keep: set<nat>, z0: Vec, z1: Vec, t: nat)
    requires d.Valid() && t < d.NumBuckets() && |z0| == |z1| == d.NumBuckets()
    requires RowSums(d, total, keep, AddV(z0, z1))
    ensures Mod(Accumulated(z0, t, d.bucketSize) + Accumulated(z1, t, d.bucketSize))
         == Mod(SumOver(total, d.LeftSet(t) * keep))
  {
    hide PartyData.Valid, PartyData.LeftSet, SumOver, Mod, RowSums, RunSum, Accumulated;
    d.FeatureInRange(t);
    FeatureStart(t, d.bucketSize);
    var f, b := t / d.bucketSize, t % d.bucketSize;
    var lo := f * d.bucketSize;
    AccumulatedFrom(z0, t, d.bucketSize, lo);
    AccumulatedFrom(z1, t, d.bucketSize, lo);
    ModInside(RunSum(z0, lo, t + 1), RunSum(z1, lo, t + 1));
    RunSumOfShares(z0, z1, lo, t + 1);
    RunSumIsLeftSum(d, total, keep, AddV(z0, z1), f, b);
  }

  method Accumulate(z: Vec, nfeatures: nat, bucketSize: nat) returns (r: Vec)
    requires bucketSize >= 1 && IsVec(z, nfeatures * bucketSize)
    ensures IsVec(r, |z|)
    ensures forall k :: 0 <= k < |z| ==> r[k] == Accumulated(z, k, bucketSize)
  {
    var a := new int[|z|](i requires 0 <= i < |z| => z[i]);
    assert a[..] == z;
    AccumulateHistogram(a, nfeatures, bucketSize);
    r := a[..];
  }

  /**
    Both directions of the sums for one vector: shares of the joint histogram over the samples
    each party's indicator keeps.  The run is refused when an indicator keeps nothing.
   */
  method ComputeGradientSums(w0: Worker, w1: Worker, v0: Vec, v1: Vec, ind0: seq<bool>, ind1: seq<bool>,
                             ghost e: nat, N: nat)
    returns (ok: bool, h0: Vec, h1: Vec)
    requires w0.Valid() && w1.Valid() && N == Pow2(e) && |v0| == |v1| == w0.cols == w1.cols > 0
    requires ind0 == [] || |ind0| == w0.cols
    requires ind1 == [] || |ind1| == w1.cols
    ensures ok <==> (ind0 == [] || true in ind0) && (ind1 == [] || true in ind1)
    ensures ok ==> IsVec(h0, w0.View().NumBuckets() + w1.View().NumBuckets()) && IsVec(h1, |h0|)
    ensures ok ==> (
      AddV(h0, h1) ==
      DirectHistogram(w0.View(), w1.View(), AddV(v0, v1), Kept(ind0, w0.cols), Kept(ind1, w1.cols)))
  {
    h0, h1 := [], [];
    var ok1, g10, g11 := OneSide(w1, v0, v1, ind1, e, N);
    // towards rank 0 the roles swap: the sender is rank 1
    var ok0, g01, g00 := OneSide(w0, v1, v0, ind0, e, N);
    ok := ok0 && ok1;
    if !ok {
      return;
    }
    AddVCommutes(v0, v1);
    AddVCommutes(g00, g01);
    h0, h1 := g00 + g10, g01 + g11;
    JoinSides(w0.View(), w1.View(), AddV(v0, v1), Kept(ind0, w0.cols), Kept(ind1, w1.cols), g00, g10, g01, g11);
  }

  lemma JoinSides(d0: PartyData, d1: PartyData, v: Vec, keep0: set<nat>, keep1: set<nat>,
                  g00: Vec, g10: Vec, g01: Vec, g11: Vec)
    requires d0.Valid() && d1.Valid()
    requires |g00| == |g01| == d0.NumBuckets() && |g10| == |g11| == d1.NumBuckets()
    requires forall t :: 0 <= t < |g00| ==> AddV(g00, g01)[t] == Mod(SumOver(v, d0.LeftSet(t) * keep0))
    requires forall t :: 0 <= t < |g10| ==> AddV(g10, g11)[t] == Mod(SumOver(v, d1.LeftSet(t) * keep1))
    ensures AddV(g00 + g10, g01 + g11) == DirectHistogram(d0, d1, v, keep0, keep1)
  {
    hide Mod, SumOver, PartyData.LeftSet, PartyData.Valid;
    var h := AddV(g00 + g10, g01 + g11);
    forall j | 0 <= j < |h|
      ensures h[j] == DirectHistogram(d0, d1, v, keep0, keep1)[j]
    {
      if j < |g00| {
        assert h[j] == AddV(g00, g01)[j];
      } else {
        assert h[j] == AddV(g10, g11)[j - |g00|];
      }
    }
  }
}
