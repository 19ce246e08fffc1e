/**
  Training a whole tree level by level, and what holds of the two parties' caches at every level.
 */
module TreeTraining {
  import opened Arith
  import opened FiniteSets
  import opened Ring
  import opened Binning
  import opened BinMatVec
  import opened TreeBuildWorker
  import opened TreeSpec
  import opened TreeBuilder

  /** The joint state before a level is trained: its nodes are open, its parents have histograms. */
  ghost predicate AtLevel(run: Run, cs: seq<Choice>, level: nat, p0: Builder, p1: Builder)
    reads p0`sampleIndicators, p0`cachedGh, p0`cachedGHs, p0`splitIdentifiers
    reads p1`sampleIndicators, p1`cachedGh, p1`cachedGHs, p1`splitIdentifiers
  {
    && level >= 1 && |cs| == Pow2(level - 1) && run.Decided(cs)
    && Open(run, cs, Range(Pow2(level - 1), Pow2(level)), p0, p1)
    && HistsOk(run, cs, MidHists(Pow2(level - 1), Pow2(level - 1)), p0.cachedGHs, p1.cachedGHs)
  }

  /** The joint state when the leaf level has been trained. */
  ghost predicate Grown(run: Run, cs: seq<Choice>, depth: nat, p0: Builder, p1: Builder)
    reads p0`sampleIndicators, p0`cachedGh, p0`cachedGHs, p0`splitIdentifiers
    reads p1`sampleIndicators, p1`cachedGh, p1`cachedGHs, p1`splitIdentifiers
  {
    && depth >= 1 && |cs| == Pow2(depth - 1) && run.Decided(cs)
    && Open(run, cs, Range(Pow2(depth - 1), Pow2(depth)), p0, p1)
    && HistsOk(run, cs, Range(Pow2(depth - 1), Pow2(depth)), p0.cachedGHs, p1.cachedGHs)
  }

  // ---- what the invariants mean ----

  /**
    At every level, both indicators of a node are set for exactly the samples that both root
    masks keep and the decisions route to that node: one node per such sample, none for the rest.
   */
  lemma SamplesPartition(run: Run, cs: seq<Choice>, level: nat, p0: Builder, p1: Builder, nd: nat, i: nat)
    requires run.Valid() && run.Decided(cs) && level >= 1 && |cs| == Pow2(level - 1)
    requires Open(run, cs, Range(Pow2(level - 1), Pow2(level)), p0, p1)
    requires Pow2(level - 1) <= nd < Pow2(level) && i < run.d0.n
    ensures nd in p0.sampleIndicators && nd in p1.sampleIndicators
    ensures Keeps(p0.sampleIndicators[nd], i) && Keeps(p1.sampleIndicators[nd], i)
      <==> i in run.Root(0) && i in run.Root(1) && nd == run.NodeOf(cs, level, i)
  {
    OpenNode(run, cs, Range(Pow2(level - 1), Pow2(level)), p0, p1, nd);
    run.BothPathsReach(cs, nd, i);
    run.ReachIsNodeOf(cs, level, nd, i);
  }

  /** The opened gradient cached at a node: the root's where the sample is routed there, else zero. */
  lemma CachedGradient(run: Run, cs: seq<Choice>, level: nat, p0: Builder, p1: Builder, nd: nat, i: nat)
    requires run.Valid() && level >= 1 && |cs| == Pow2(level - 1)
    requires Open(run, cs, Range(Pow2(level - 1), Pow2(level)), p0, p1)
    requires Pow2(level - 1) <= nd < Pow2(level) && i < run.d0.n
    ensures nd in p0.cachedGh && nd in p1.cachedGh
    ensures |p0.cachedGh[nd].g| == |p1.cachedGh[nd].g| == run.d0.n
    ensures AddV(p0.cachedGh[nd].g, p1.cachedGh[nd].g)[i] == if nd == run.NodeOf(cs, level, i) then run.rootG[i] else 0
    ensures |p0.cachedGh[nd].h| == |p1.cachedGh[nd].h| == run.d0.n
    ensures AddV(p0.cachedGh[nd].h, p1.cachedGh[nd].h)[i] == if nd == run.NodeOf(cs, level, i) then run.rootH[i] else 0
  {
    OpenNode(run, cs, Range(Pow2(level - 1), Pow2(level)), p0, p1, nd);
    run.ReachIsNodeOf(cs, level, nd, i);
  }

  /** The opened vector cached at a node, at sample i. */
  function OpenedAt(v0: map<nat, Vec>, v1: map<nat, Vec>, nd: nat, i: nat): int {
    if nd in v0 && nd in v1 && |v0[nd]| == |v1[nd]| && i < |v0[nd]| then AddV(v0[nd], v1[nd])[i] else 0
  }

  /** Its sum over the nodes lo, ..., hi - 1. */
  function CachedSum(v0: map<nat, Vec>, v1: map<nat, Vec>, lo: nat, hi: nat, i: nat): int
    decreases hi
  {
    if hi <= lo then 0 else CachedSum(v0, v1, lo, hi - 1, i) + OpenedAt(v0, v1, hi - 1, i)
  }

  function GradientsOf(gh: map<nat, GH>): map<nat, Vec> {
    map nd | nd in gh :: gh[nd].g
  }

  function HessiansOf(gh: map<nat, GH>): map<nat, Vec> {
    map nd | nd in gh :: gh[nd].h
  }

  /** A level's cached gradients add up to the root gradients, sample by sample, and so do the hessians. */
  lemma GradientsConserved(run: Run, cs: seq<Choice>, level: nat, p0: Builder, p1: Builder, i: nat)
    requires run.Valid() && level >= 1 && |cs| == Pow2(level - 1)
    requires Open(run, cs, Range(Pow2(level - 1), Pow2(level)), p0, p1) && i < run.d0.n
    ensures CachedSum(GradientsOf(p0.cachedGh), GradientsOf(p1.cachedGh), Pow2(level - 1), Pow2(level), i) == run.rootG[i]
    ensures CachedSum(HessiansOf(p0.cachedGh), HessiansOf(p1.cachedGh), Pow2(level - 1), Pow2(level), i) == run.rootH[i]
  {
    hide Open;
    var lo, hi := Pow2(level - 1), Pow2(level);
    var g0, g1, h0, h1 := GradientsOf(p0.cachedGh), GradientsOf(p1.cachedGh), HessiansOf(p0.cachedGh), HessiansOf(p1.cachedGh);
    forall nd | lo <= nd < hi
      ensures OpenedAt(g0, g1, nd, i) == run.NodeVec(run.rootG, cs, nd)[i]
      ensures OpenedAt(h0, h1, nd, i) == run.NodeVec(run.rootH, cs, nd)[i]
    {
      OpenNode(run, cs, Range(lo, hi), p0, p1, nd);
    }
    CachedSumIsContribution(run, run.rootG, cs, g0, g1, lo, hi, i);
    CachedSumIsContribution(run, run.rootH, cs, h0, h1, lo, hi, i);
    run.LevelConserves(run.rootG, cs, level, i);
    run.LevelConserves(run.rootH, cs, level, i);
  }

  lemma {:induction false} CachedSumIsContribution(run: Run, root: Vec, cs: seq<Choice>, v0: map<nat, Vec>, v1: map<nat, Vec>,
                                                   lo: nat, hi: nat, i: nat)
    requires i < |root|
    requires forall nd :: lo <= nd < hi ==> OpenedAt(v0, v1, nd, i) == run.NodeVec(root, cs, nd)[i]
    ensures CachedSum(v0, v1, lo, hi, i) == run.Contribution(root, cs, lo, hi, i)
    decreases hi
  {
    if hi > lo {
      CachedSumIsContribution(run, root, cs, v0, v1, lo, hi - 1, i);
    }
  }

  /** Entry j of the cached histograms, spelled out. */
  lemma CachedHistogram(run: Run, cs: seq<Choice>, front: set<nat>, H0: map<nat, GH>, H1: map<nat, GH>, nd: nat, j: nat)
    requires HistsOk(run, cs, front, H0, H1) && nd in front && j < run.d0.NumBuckets() + run.d1.NumBuckets()
    ensures |H0[nd].g| == |H1[nd].g| == |H0[nd].h| == |H1[nd].h| == run.d0.NumBuckets() + run.d1.NumBuckets()
    ensures AddV(H0[nd].g, H1[nd].g)[j] ==
      Mod(SumOver(run.NodeVec(run.rootG, cs, nd), JointLeftSet(run.d0, run.d1, j) * run.Root(Owner(run.d0, j))))
    ensures AddV(H0[nd].h, H1[nd].h)[j] ==
      Mod(SumOver(run.NodeVec(run.rootH, cs, nd), JointLeftSet(run.d0, run.d1, j) * run.Root(Owner(run.d0, j))))
  {
    assert HistogramAt(run, cs, nd, H0, H1);
  }

  // ---- training ----

  lemma HistsAppend(run: Run, cs: seq<Choice>, cs': seq<Choice>, front: set<nat>, H0: map<nat, GH>, H1: map<nat, GH>)
    requires cs <= cs' && HistsOk(run, cs, front, H0, H1)
    ensures HistsOk(run, cs', front, H0, H1)
  {
    forall nd | nd in front
      ensures HistogramAt(run, cs', nd, H0, H1)
    {
      assert HistogramAt(run, cs, nd, H0, H1);
      run.NodeVecAppend(run.rootG, cs, cs', nd);
      run.NodeVecAppend(run.rootH, cs, cs', nd);
    }
  }

  lemma NextLevelHists(run: Run, cs: seq<Choice>, cs': seq<Choice>, bgn: nat, H0: map<nat, GH>, H1: map<nat, GH>)
    requires bgn >= 1 && cs <= cs' && HistsOk(run, cs, Range(bgn, 2 * bgn), H0, H1)
    ensures HistsOk(run, cs', MidHists(2 * bgn, 2 * bgn), H0, H1)
  {
    HistsAppend(run, cs, cs', Range(bgn, 2 * bgn), H0, H1);
    assert MidHists(2 * bgn, 2 * bgn) == Range(bgn, 2 * bgn);
  }

  lemma LevelSizes(level: nat)
    requires level >= 1
    ensures Pow2(level) == 2 * Pow2(level - 1) && Pow2(level + 1) == 4 * Pow2(level - 1)
    ensures Pow2(level - 1) == 1 || Pow2(level - 1) % 2 == 0
  {
  }

  /** Some sample party r keeps at a node. */
  ghost predicate Populated(run: Run, r: nat, cs: seq<Choice>, nd: nat) {
    exists i: nat :: i < run.d0.n && i in run.Root(r) && run.Path(r, cs, nd, i)
  }

  /** Both parties keep a sample at every node of the level whose sums are computed directly. */
  ghost predicate LeftsPopulated(run: Run, cs: seq<Choice>, bgn: nat) {
    forall k :: bgn <= k < 2 * bgn && IsLeft(bgn, k) ==> Populated(run, 0, cs, k) && Populated(run, 1, cs, k)
  }

  lemma PopulatedIff(run: Run, r: nat, cs: seq<Choice>, nd: nat, ind: seq<bool>)
    requires run.d0.n > 0 && IndicatorOk(run, r, cs, nd, ind)
    ensures KeepsSome(ind) <==> Populated(run, r, cs, nd)
  {
    if KeepsSome(ind) {
      var i: nat :| i < run.d0.n && Keeps(ind, i) by {
        if ind == [] {
          assert Keeps(ind, 0);
        } else {
          var k :| 0 <= k < |ind| && ind[k];
          assert Keeps(ind, k);
        }
      }
      assert i in run.Root(r) && run.Path(r, cs, nd, i);
    }
    if Populated(run, r, cs, nd) {
      var i: nat :| i < run.d0.n && i in run.Root(r) && run.Path(r, cs, nd, i);
      assert Keeps(ind, i);
    }
  }

  lemma LeftsPopulatedIff(run: Run, cs: seq<Choice>, bgn: nat, p0: Builder, p1: Builder)
    requires run.d0.n > 0 && Open(run, cs, Range(bgn, 2 * bgn), p0, p1)
    ensures (forall k :: bgn <= k < 2 * bgn && IsLeft(bgn, k) ==> Productive(p0, p1, k)) <==> LeftsPopulated(run, cs, bgn)
  {
    hide Open, KeepsSome, Populated, IndicatorOk, SharesOk;
    forall k | bgn <= k < 2 * bgn
      ensures Productive(p0, p1, k) <==> Populated(run, 0, cs, k) && Populated(run, 1, cs, k)
    {
      OpenNode(run, cs, Range(bgn, 2 * bgn), p0, p1, k);
      PopulatedIff(run, 0, cs, k, p0.sampleIndicators[k]);
      PopulatedIff(run, 1, cs, k, p1.sampleIndicators[k]);
    }
  }

  /** A level goes through: no indicator it sums under is empty, and every split has a threshold. */
  ghost predicate LevelGoesThrough(run: Run, cs: seq<Choice>, level: nat, pick: seq<nat>, depth: nat) {
    level >= 1 && LeftsPopulated(run, cs, Pow2(level - 1)) && (level < depth ==> AllHaveThresholds(run, pick))
  }

  /** Sums first; then, above the leaves, the splits. */
  method TrainLevel(p0: Builder, p1: Builder, w0: Worker, w1: Worker, level: nat, pick: seq<nat>,
                    ghost run: Run, ghost cs: seq<Choice>, ghost e: nat, N: nat)
    returns (ok: bool, ghost cs': seq<Choice>)
    requires run.Valid() && p0 != p1 && Parties(run, p0, p1, w0, w1) && N == Pow2(e)
    requires AtLevel(run, cs, level, p0, p1) && level <= p0.maxDepth
    requires level < p0.maxDepth ==> |pick| == Pow2(level - 1)
    requires forall i :: 0 <= i < |pick| ==> pick[i] < run.d0.NumBuckets() + run.d1.NumBuckets()
    modifies p0`sampleIndicators, p0`splitIdentifiers, p0`cachedGh, p0`cachedGHs
    modifies p1`sampleIndicators, p1`splitIdentifiers, p1`cachedGh, p1`cachedGHs
    ensures ok <==> LevelGoesThrough(run, cs, level, pick, p0.maxDepth)
    ensures ok && level == p0.maxDepth ==> cs' == cs && Grown(run, cs', level, p0, p1)
    ensures ok && level < p0.maxDepth ==> cs' == cs + Decisions(run.d0, pick) && AtLevel(run, cs', level + 1, p0, p1)
    ensures ok ==> OlderTreesKept(old(p0.splitIdentifiers), p0.splitIdentifiers)
    ensures ok ==> OlderTreesKept(old(p1.splitIdentifiers), p1.splitIdentifiers)
  {
    hide Open, HistsOk, OlderTreesKept, MidHists, Parties, LeftsPopulated, AllHaveThresholds, Productive;
    LevelSizes(level);
    cs' := cs;
    var bgn := Pow2(level - 1);
    LeftsPopulatedIff(run, cs, bgn, p0, p1);
    TreesKeptSoFar(run, cs, Range(bgn, 2 * bgn), p0, p1);
    ok := SumLevel(p0, p1, w0, w1, bgn, run, cs, e, N);
    if !ok || level == p0.maxDepth {
      return;
    }
    ok, cs' := SplitLevel(p0, p1, w0, w1, bgn, pick, run, cs);
    if ok {
      NextLevelHists(run, cs, cs', bgn, p0.cachedGHs, p1.cachedGHs);
    }
  }

  /** Entry b of a node's two cached histograms. */
  function BucketAt(H: map<nat, GH>, k: nat, b: nat): (int, int) {
    if k in H && b < |H[k].g| && b < |H[k].h| then (H[k].g[b], H[k].h[b]) else (0, 0)
  }

  /** Reads, leaf by leaf, the last bucket of the first feature. */
  method LeafSums(p: Builder, bucketSize: nat, ghost width: nat) returns (gsum: Vec, hsum: Vec)
    requires p.maxDepth >= 1 && 1 <= bucketSize <= width
    requires forall k :: Pow2(p.maxDepth - 1) <= k < Pow2(p.maxDepth) ==>
      k in p.cachedGHs && HasHistogram(p.cachedGHs, k, width)
    ensures |gsum| == |hsum| == Pow2(p.maxDepth) - Pow2(p.maxDepth - 1)
    ensures forall k :: 0 <= k < |gsum| ==>
      (gsum[k], hsum[k]) == BucketAt(p.cachedGHs, Pow2(p.maxDepth - 1) + k, bucketSize - 1)
  {
    gsum, hsum := [], [];
    LevelSizes(p.maxDepth);
    var lo, hi := Pow2(p.maxDepth - 1), Pow2(p.maxDepth);
    hide Pow2;
    var idx := lo;
    while idx < hi
      invariant lo <= idx <= hi && |gsum| == |hsum| == idx - lo
      invariant forall k :: 0 <= k < |gsum| ==> (gsum[k], hsum[k]) == BucketAt(p.cachedGHs, lo + k, bucketSize - 1)
    {
      gsum := gsum + [p.cachedGHs[idx].g[bucketSize - 1]];
      hsum := hsum + [p.cachedGHs[idx].h[bucketSize - 1]];
      idx := idx + 1;
    }
  }

  /** The party whose first feature supplies the leaf sums: rank 0 unless it has no feature. */
  function SumOwner(run: Run): nat {
    if |run.d0.columns| > 0 then 0 else 1
  }

  /** The last bucket holds every sample, so its entry is the gradient sum of the node. */
  lemma LastBucketIsTotal(run: Run, cs: seq<Choice>, v: Vec, nd: nat)
    requires run.Valid() && |v| == run.d0.n && run.d0.bucketSize == run.d1.bucketSize
    requires |run.d0.columns| > 0 || |run.d1.columns| > 0
    ensures run.d0.bucketSize <= run.d0.NumBuckets() + run.d1.NumBuckets()
    ensures run.NodeHistogram(v, cs, nd)[run.d0.bucketSize - 1]
      == Mod(SumOver(run.NodeVec(v, cs, nd), run.Root(SumOwner(run))))
  {
    var B, r := run.d0.bucketSize, SumOwner(run);
    MulLe(1, |run.d0.columns| + |run.d1.columns|, B);
    if |run.d0.columns| > 0 {
      MulLe(1, |run.d0.columns|, B);
    }
    assert run.d0.NumBuckets() == |run.d0.columns| * B && run.d1.NumBuckets() == |run.d1.columns| * B;
    assert Owner(run.d0, B - 1) == r && MapBucket(run.d0, B - 1) == B - 1;
    var node, S := run.NodeVec(v, cs, nd), JointLeftSet(run.d0, run.d1, B - 1);
    DivModUnique(B - 1, 0, B - 1, B);
    forall i | 0 <= i < |node|
      ensures i in S
    {
      if r == 0 {
        run.d0.StoredBinInRange(0, i);
      } else {
        run.d1.StoredBinInRange(0, i);
      }
    }
    SumOverCong(node, node, S * run.Root(r), run.Root(r));
  }

  /** The entry read at a node is the sum over the samples both root masks keep. */
  ghost predicate SumsBothMasks(run: Run, cs: seq<Choice>, nd: nat, v: Vec) {
    var h, b := run.NodeHistogram(v, cs, nd), run.d0.bucketSize as int - 1;
    0 <= b < |h| && h[b] == Mod(SumOver(run.NodeVec(v, cs, nd), run.Root(0) * run.Root(1)))
  }

  /** That is so for all gradients if and only if every sample at the node that the owner's mask keeps is kept by both. */
  lemma LastBucketBothMasks(run: Run, cs: seq<Choice>, nd: nat)
    requires run.Valid() && run.d0.bucketSize == run.d1.bucketSize
    requires |run.d0.columns| > 0 || |run.d1.columns| > 0
    ensures (forall v: Vec :: IsVec(v, run.d0.n) ==> SumsBothMasks(run, cs, nd, v)) <==>
      forall i: nat :: i < run.d0.n && run.Reach(cs, nd, i) && i in run.Root(SumOwner(run)) ==> i in run.Root(0) && i in run.Root(1)
  {
    hide Mod, SumOver, DirectHistogram, Run.Reach, Run.Root, PartyData.Valid;
    var r := SumOwner(run);
    forall v: Vec | IsVec(v, run.d0.n)
      ensures SumsBothMasks(run, cs, nd, v) <==>
        Mod(SumOver(run.NodeVec(v, cs, nd), run.Root(r))) == Mod(SumOver(run.NodeVec(v, cs, nd), run.Root(0) * run.Root(1)))
    {
      LastBucketIsTotal(run, cs, v, nd);
      SomeBucket(run);
    }
    forall i: nat | i < run.d0.n && run.Reach(cs, nd, i) && i in run.Root(r) && !(i in run.Root(0) && i in run.Root(1))
      ensures exists v: Vec :: IsVec(v, run.d0.n) && !SumsBothMasks(run, cs, nd, v)
    {
      var v := DroppedShows(run, cs, nd, r, i);
    }
    if forall i: nat :: i < run.d0.n && run.Reach(cs, nd, i) && i in run.Root(r) ==> i in run.Root(0) && i in run.Root(1) {
      forall v: Vec | IsVec(v, run.d0.n)
        ensures SumsBothMasks(run, cs, nd, v)
      {
        SumOverCong(run.NodeVec(v, cs, nd), run.NodeVec(v, cs, nd), run.Root(r), run.Root(0) * run.Root(1));
      }
    }
  }

  /** The gradient vector that is 1 at one such sample tells the two sums apart. */
  lemma DroppedShows(run: Run, cs: seq<Choice>, nd: nat, r: nat, i: nat) returns (v: Vec)
    requires i < run.d0.n && run.Reach(cs, nd, i) && r < 2 && i in run.Root(r) && !(i in run.Root(0) && i in run.Root(1))
    ensures IsVec(v, run.d0.n)
    ensures Mod(SumOver(run.NodeVec(v, cs, nd), run.Root(r))) != Mod(SumOver(run.NodeVec(v, cs, nd), run.Root(0) * run.Root(1)))
  {
    hide Mod, SumOver, Run.Reach, Run.Root;
    v := seq(run.d0.n, j => if j == i then 1 else 0);
    var node := run.NodeVec(v, cs, nd);
    SumOverCong(node, node, run.Root(r), {i});
    SumOverSingle(node, i);
    SumOverCong(node, node, run.Root(0) * run.Root(1), {});
    SumOverEmpty(node);
    ModSmall(0);
    ModSmall(1);
  }

  /** Shares of every leaf's gradient and hessian sums, which the leaf weights are computed from. */
  method ComputeLeafSums(p0: Builder, p1: Builder, ghost run: Run, ghost cs: seq<Choice>, bucketSize: nat)
    returns (g0: Vec, h0: Vec, g1: Vec, h1: Vec)
    requires run.Valid() && p0.maxDepth == p1.maxDepth >= 1 && Grown(run, cs, p0.maxDepth, p0, p1)
    requires run.d0.bucketSize == run.d1.bucketSize == bucketSize
    requires |run.d0.columns| > 0 || |run.d1.columns| > 0
    ensures |g0| == |g1| == |h0| == |h1| == Pow2(p0.maxDepth) - Pow2(p0.maxDepth - 1)
    ensures forall k :: 0 <= k < |g0| ==>
      AddV(g0, g1)[k] == Mod(SumOver(run.NodeVec(run.rootG, cs, Pow2(p0.maxDepth - 1) + k), run.Root(SumOwner(run))))
    ensures forall k :: 0 <= k < |h0| ==>
      AddV(h0, h1)[k] == Mod(SumOver(run.NodeVec(run.rootH, cs, Pow2(p0.maxDepth - 1) + k), run.Root(SumOwner(run))))
  {
    hide *;
    ghost var width := run.d0.NumBuckets() + run.d1.NumBuckets();
    ghost var lo, hi := Pow2(p0.maxDepth - 1), Pow2(p0.maxDepth);
    SomeBucket(run);
    forall k | lo <= k < hi
      ensures k in p0.cachedGHs && k in p1.cachedGHs && LeafReady(run, cs, k, p0.cachedGHs, p1.cachedGHs)
      ensures HasHistogram(p0.cachedGHs, k, width) && HasHistogram(p1.cachedGHs, k, width)
    {
      LeafCached(run, cs, lo, hi, k, p0, p1);
      LeafEntry(run, cs, k, p0.cachedGHs, p1.cachedGHs);
    }
    g0, h0 := LeafSums(p0, bucketSize, width);
    g1, h1 := LeafSums(p1, bucketSize, width);
    forall k | 0 <= k < |g0|
      ensures AddV(g0, g1)[k] == Mod(SumOver(run.NodeVec(run.rootG, cs, lo + k), run.Root(SumOwner(run))))
      ensures AddV(h0, h1)[k] == Mod(SumOver(run.NodeVec(run.rootH, cs, lo + k), run.Root(SumOwner(run))))
    {
      assert lo + k in p0.cachedGHs;
      LeafTotals(run, cs, lo + k, p0.cachedGHs, p1.cachedGHs, bucketSize);
    }
  }

  lemma SomeBucket(run: Run)
    requires run.Valid() && run.d0.bucketSize == run.d1.bucketSize && (|run.d0.columns| > 0 || |run.d1.columns| > 0)
    ensures 1 <= run.d0.bucketSize <= run.d0.NumBuckets() + run.d1.NumBuckets()
  {
    LastBucketIsTotal(run, [], run.rootG, 1);
  }

  lemma LeafCached(run: Run, cs: seq<Choice>, lo: nat, hi: nat, k: nat, p0: Builder, p1: Builder)
    requires Grown(run, cs, p0.maxDepth, p0, p1) && lo == Pow2(p0.maxDepth - 1) && hi == Pow2(p0.maxDepth) && lo <= k < hi
    ensures HistogramAt(run, cs, k, p0.cachedGHs, p1.cachedGHs)
  {
    assert k in Range(lo, hi);
  }

  predicate HasHistogram(H: map<nat, GH>, k: nat, width: nat) {
    k in H && |H[k].g| == |H[k].h| == width
  }

  /** A leaf's histograms are cached on both sides, and their entry for the last bucket is the total. */
  ghost predicate LeafReady(run: Run, cs: seq<Choice>, k: nat, H0: map<nat, GH>, H1: map<nat, GH>) {
    && k in H0 && k in H1
    && |H0[k].g| == |H0[k].h| == |H1[k].g| == |H1[k].h| == run.d0.NumBuckets() + run.d1.NumBuckets()
    && 1 <= run.d0.bucketSize <= |H0[k].g|
    && Mod(H0[k].g[run.d0.bucketSize - 1] + H1[k].g[run.d0.bucketSize - 1])
       == Mod(SumOver(run.NodeVec(run.rootG, cs, k), run.Root(SumOwner(run))))
    && Mod(H0[k].h[run.d0.bucketSize - 1] + H1[k].h[run.d0.bucketSize - 1])
       == Mod(SumOver(run.NodeVec(run.rootH, cs, k), run.Root(SumOwner(run))))
  }

  lemma LeafEntry(run: Run, cs: seq<Choice>, k: nat, H0: map<nat, GH>, H1: map<nat, GH>)
    requires run.Valid() && run.d0.bucketSize == run.d1.bucketSize && (|run.d0.columns| > 0 || |run.d1.columns| > 0)
    requires HistogramAt(run, cs, k, H0, H1)
    ensures LeafReady(run, cs, k, H0, H1)
    ensures HasHistogram(H0, k, run.d0.NumBuckets() + run.d1.NumBuckets())
    ensures HasHistogram(H1, k, run.d0.NumBuckets() + run.d1.NumBuckets())
  {
    LastBucketIsTotal(run, cs, run.rootG, k);
    LastBucketIsTotal(run, cs, run.rootH, k);
    var b := run.d0.bucketSize - 1;
    assert AddV(H0[k].g, H1[k].g)[b] == Mod(H0[k].g[b] + H1[k].g[b]);
    assert AddV(H0[k].h, H1[k].h)[b] == Mod(H0[k].h[b] + H1[k].h[b]);
  }

  lemma LeafTotals(run: Run, cs: seq<Choice>, k: nat, H0: map<nat, GH>, H1: map<nat, GH>, bucketSize: nat)
    requires LeafReady(run, cs, k, H0, H1) && bucketSize == run.d0.bucketSize
    ensures 1 <= bucketSize
    ensures Mod(BucketAt(H0, k, bucketSize - 1).0 + BucketAt(H1, k, bucketSize - 1).0)
      == Mod(SumOver(run.NodeVec(run.rootG, cs, k), run.Root(SumOwner(run))))
    ensures Mod(BucketAt(H0, k, bucketSize - 1).1 + BucketAt(H1, k, bucketSize - 1).1)
      == Mod(SumOver(run.NodeVec(run.rootH, cs, k), run.Root(SumOwner(run))))
  {
  }

  /** Every level's choices: as many buckets as the level has nodes, each of them existing. */
  ghost predicate PicksOk(run: Run, picks: seq<seq<nat>>, depth: nat) {
    && |picks| == depth - 1
    && forall l :: 0 <= l < |picks| ==> PickOk(run, picks[l], l)
  }

  ghost predicate PickOk(run: Run, pick: seq<nat>, l: nat) {
    |pick| == Pow2(l) && forall i :: 0 <= i < |pick| ==> pick[i] < run.d0.NumBuckets() + run.d1.NumBuckets()
  }

  /** Both caches hold the root only, as InitGradients leaves them. */
  ghost predicate Initialised(run: Run, p0: Builder, p1: Builder)
    reads p0`sampleIndicators, p0`cachedGh, p0`cachedGHs, p1`sampleIndicators, p1`cachedGh, p1`cachedGHs
  {
    && p0.cachedGh.Keys == p1.cachedGh.Keys == {1}
    && |p0.cachedGh[1].g| == |p1.cachedGh[1].g| == |p0.cachedGh[1].h| == |p1.cachedGh[1].h| == run.d0.n
    && AddV(p0.cachedGh[1].g, p1.cachedGh[1].g) == run.rootG
    && AddV(p0.cachedGh[1].h, p1.cachedGh[1].h) == run.rootH
    && p0.cachedGHs == p1.cachedGHs == map[]
    && p0.sampleIndicators == map[1 := run.mask0] && p1.sampleIndicators == map[1 := run.mask1]
  }

  /** InitGradients on both sides establishes exactly that, for the run it describes. */
  method InitBoth(p0: Builder, p1: Builder, g0: Vec, h0: Vec, g1: Vec, h1: Vec, mask0: seq<bool>, mask1: seq<bool>,
                  ghost d0: PartyData, ghost d1: PartyData)
    returns (ghost run: Run)
    requires p0 != p1 && |g0| == |g1| == |h0| == |h1| == d0.n == d1.n > 0 && d0.Valid() && d1.Valid()
    requires (mask0 == [] || |mask0| == d0.n) && (mask1 == [] || |mask1| == d0.n)
    modifies p0`cachedGh, p0`cachedGHs, p0`sampleIndicators, p1`cachedGh, p1`cachedGHs, p1`sampleIndicators
    ensures run == Run(d0, d1, AddV(g0, g1), AddV(h0, h1), mask0, mask1)
    ensures run.Valid() && Initialised(run, p0, p1)
  {
    p0.InitGradients(g0, h0, mask0);
    p1.InitGradients(g1, h1, mask1);
    run := Run(d0, d1, AddV(g0, g1), AddV(h0, h1), mask0, mask1);
  }

  lemma RootLevel(run: Run, c: Choice, p0: Builder, p1: Builder)
    requires run.Valid() && Initialised(run, p0, p1)
    requires p0.splitIdentifiers != [] && p1.splitIdentifiers != []
    requires |Last(p0.splitIdentifiers)| == |Last(p1.splitIdentifiers)| == 1
    ensures AtLevel(run, [c], 1, p0, p1)
  {
    assert Range(1, 2) == {1} && MidHists(1, 1) == {};
    assert run.NodeVec(run.rootG, [c], 1) == run.rootG && run.NodeVec(run.rootH, [c], 1) == run.rootH;
    assert NodeOk(run, [c], 1, p0.sampleIndicators[1], p1.sampleIndicators[1], p0.cachedGh[1], p1.cachedGh[1]);
  }

  const DUMMY := Split(false, 0, Fin(0.0))

  /** A new tree's record was appended; older ones are as before. */
  ghost predicate TreeAdded(was: seq<seq<Split>>, now: seq<seq<Split>>) {
    |now| == |was| + 1 && now[..|was|] == was
  }

  lemma AddedThenGrown(was: seq<seq<Split>>, mid: seq<seq<Split>>, now: seq<seq<Split>>)
    requires TreeAdded(was, mid) && OlderTreesKept(mid, now)
    ensures TreeAdded(was, now)
  {
    assert now[..|was|] == mid[..|was|];
  }

  lemma NewRecord(was: seq<seq<Split>>)
    ensures TreeAdded(was, was + [[DUMMY]])
    ensures OlderTreesKept(was + [[DUMMY]], was + [[DUMMY]])
  {
  }

  /** The joint state before level depth, or, beyond the last level, at the end. */
  ghost predicate Progress(run: Run, cs: seq<Choice>, depth: nat, p0: Builder, p1: Builder)
    reads p0`sampleIndicators, p0`cachedGh, p0`cachedGHs, p0`splitIdentifiers
    reads p1`sampleIndicators, p1`cachedGh, p1`cachedGHs, p1`splitIdentifiers
  {
    if depth <= p0.maxDepth then AtLevel(run, cs, depth, p0, p1) else Grown(run, cs, p0.maxDepth, p0, p1)
  }

  /** One round of the loop in BuildTree. */
  method TrainDepth(p0: Builder, p1: Builder, w0: Worker, w1: Worker, depth: nat, pick: seq<nat>,
                    ghost run: Run, ghost cs: seq<Choice>, ghost e: nat, N: nat,
                    ghost s0: seq<seq<Split>>, ghost s1: seq<seq<Split>>)
    returns (ok: bool, ghost cs': seq<Choice>)
    requires run.Valid() && p0 != p1 && Parties(run, p0, p1, w0, w1) && N == Pow2(e)
    requires depth <= p0.maxDepth && Progress(run, cs, depth, p0, p1)
    requires depth < p0.maxDepth ==> depth >= 1 && PickOk(run, pick, depth - 1)
    requires depth == p0.maxDepth ==> pick == []
    requires OlderTreesKept(s0, p0.splitIdentifiers) && OlderTreesKept(s1, p1.splitIdentifiers)
    modifies p0`sampleIndicators, p0`splitIdentifiers, p0`cachedGh, p0`cachedGHs
    modifies p1`sampleIndicators, p1`splitIdentifiers, p1`cachedGh, p1`cachedGHs
    ensures ok <==> LevelGoesThrough(run, cs, depth, pick, p0.maxDepth)
    ensures ok ==> Progress(run, cs', depth + 1, p0, p1)
    ensures ok ==> cs' == if depth < p0.maxDepth then cs + Decisions(run.d0, pick) else cs
    ensures ok ==> OlderTreesKept(s0, p0.splitIdentifiers) && OlderTreesKept(s1, p1.splitIdentifiers)
  {
    hide Parties, OlderTreesKept, Open, HistsOk, Grown, LevelGoesThrough;
    ghost var t0, t1 := p0.splitIdentifiers, p1.splitIdentifiers;
    ok, cs' := TrainLevel(p0, p1, w0, w1, depth, pick, run, cs, e, N);
    if ok {
      OlderTreesTransitive(s0, t0, p0.splitIdentifiers);
      OlderTreesTransitive(s1, t1, p1.splitIdentifiers);
    }
  }

  /** The decisions of all levels, one after the other, behind the dummy for node 0. */
  function AllDecisions(d0: PartyData, picks: seq<seq<nat>>): seq<Choice> {
    if picks == [] then [Choice(0, 0)]
    else AllDecisions(d0, picks[..|picks| - 1]) + Decisions(d0, picks[|picks| - 1])
  }

  /** What TrainLevel is called with at a level. */
  function PickAt(picks: seq<seq<nat>>, level: nat): seq<nat> {
    if 1 <= level <= |picks| then picks[level - 1] else []
  }

  /** The decisions taken before a level. */
  function DecisionsBefore(d0: PartyData, picks: seq<seq<nat>>, level: nat): seq<Choice> {
    AllDecisions(d0, if 1 <= level <= |picks| then picks[..level - 1] else picks)
  }

  /** The run is not aborted: every level goes through. */
  ghost predicate GoesThrough(run: Run, picks: seq<seq<nat>>, depth: nat) {
    forall level :: 1 <= level <= depth ==> LevelGoesThroughAt(run, picks, level, depth)
  }

  ghost predicate LevelGoesThroughAt(run: Run, picks: seq<seq<nat>>, level: nat, depth: nat) {
    LevelGoesThrough(run, DecisionsBefore(run.d0, picks, level), level, PickAt(picks, level), depth)
  }

  lemma DecisionsNext(d0: PartyData, picks: seq<seq<nat>>, level: nat)
    requires 1 <= level
    ensures DecisionsBefore(d0, picks, level + 1) ==
      if level <= |picks| then DecisionsBefore(d0, picks, level) + Decisions(d0, picks[level - 1]) else AllDecisions(d0, picks)
    ensures level > |picks| ==> DecisionsBefore(d0, picks, level) == AllDecisions(d0, picks)
  {
    if level <= |picks| {
      assert picks[..level][..level - 1] == picks[..level - 1];
      if level == |picks| {
        assert picks[..level] == picks;
      }
    }
  }

  lemma NothingDecided(d0: PartyData, picks: seq<seq<nat>>)
    ensures DecisionsBefore(d0, picks, 1) == [Choice(0, 0)]
  {
    assert picks != [] ==> picks[..0] == [];
  }

  /**
    BuildTree on both sides.  The leaf weights are whatever the secure division made of the sums;
    w0 and w1 stand for their shares.
   */
  method BuildTree(p0: Builder, p1: Builder, worker0: Worker, worker1: Worker, picks: seq<seq<nat>>, w0: Vec, w1: Vec,
                   ghost run: Run, ghost e: nat, N: nat)
    returns (ok: bool, ghost cs: seq<Choice>)
    requires run.Valid() && p0 != p1 && Parties(run, p0, p1, worker0, worker1) && N == Pow2(e)
    requires p0.maxDepth >= 1 && Initialised(run, p0, p1) && PicksOk(run, picks, p0.maxDepth)
    modifies p0, p1
    ensures ok <==> GoesThrough(run, picks, p0.maxDepth)
    ensures ok ==> Grown(run, cs, p0.maxDepth, p0, p1) && cs == AllDecisions(run.d0, picks)
    ensures ok ==> TreeAdded(old(p0.splitIdentifiers), p0.splitIdentifiers)
    ensures ok ==> TreeAdded(old(p1.splitIdentifiers), p1.splitIdentifiers)
    ensures ok ==> p0.leafWeights == old(p0.leafWeights) + [w0] && p1.leafWeights == old(p1.leafWeights) + [w1]
  {
    hide Parties, OlderTreesKept, TreeAdded, HistsOk, Open, Initialised, AtLevel, Grown, PickOk, LevelGoesThrough;
    hide DecisionsBefore, AllDecisions, Decisions;
    p0.splitIdentifiers := p0.splitIdentifiers + [[DUMMY]];
    p1.splitIdentifiers := p1.splitIdentifiers + [[DUMMY]];
    ghost var s0, s1 := p0.splitIdentifiers, p1.splitIdentifiers;
    cs := [Choice(0, 0)];
    NothingDecided(run.d0, picks);
    RootLevel(run, Choice(0, 0), p0, p1);
    NewRecord(old(p0.splitIdentifiers));
    NewRecord(old(p1.splitIdentifiers));
    var depth := 1;
    while depth <= p0.maxDepth
      invariant 1 <= depth <= p0.maxDepth + 1 && Progress(run, cs, depth, p0, p1)
      invariant cs == DecisionsBefore(run.d0, picks, depth)
      invariant OlderTreesKept(s0, p0.splitIdentifiers) && OlderTreesKept(s1, p1.splitIdentifiers)
      invariant p0.leafWeights == old(p0.leafWeights) && p1.leafWeights == old(p1.leafWeights)
      invariant Parties(run, p0, p1, worker0, worker1)
      invariant forall level :: 1 <= level < depth ==> LevelGoesThroughAt(run, picks, level, p0.maxDepth)
    {
      var pick := if depth < p0.maxDepth then picks[depth - 1] else [];
      ok, cs := TrainDepth(p0, p1, worker0, worker1, depth, pick, run, cs, e, N, s0, s1);
      assert ok <==> LevelGoesThroughAt(run, picks, depth, p0.maxDepth);
      if !ok {
        return;
      }
      DecisionsNext(run.d0, picks, depth);
      depth := depth + 1;
    }
    DecisionsNext(run.d0, picks, depth);
    AddedThenGrown(old(p0.splitIdentifiers), s0, p0.splitIdentifiers);
    AddedThenGrown(old(p1.splitIdentifiers), s1, p1.splitIdentifiers);
    p0.leafWeights := p0.leafWeights + [w0];
    p1.leafWeights := p1.leafWeights + [w1];
    ok := true;
  }
}
