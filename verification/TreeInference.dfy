/**
  Oblivious inference, and the update of the training predictions: each party marks the leaves its
  own decisions allow, and a leaf's shared weight counts where both marks meet.
 */
module TreeInference {
  import opened Arith
  import opened Ring
  import opened Binning
  import opened TreeBuildWorker
  import opened TreeSpec
  import opened TreeBuilder
  import opened TreeTraining

  // ---- one party's path marks ----

  /** Going left at a recorded split: not above its threshold. */
  predicate TakesLeft(s: Split, x: seq<real>) {
    s.feature < |x| && !Less(s.threshold, Fin(x[s.feature]))
  }

  /** None of the party's own splits sends x away from node nd. */
  predicate PathBy(splits: seq<Split>, x: seq<real>, nd: nat) {
    nd == 1 || (nd > 1 && PathBy(splits, x, nd / 2) &&
      (nd / 2 < |splits| && splits[nd / 2].self ==> ((nd % 2 == 0) == TakesLeft(splits[nd / 2], x))))
  }

  /** The split features exist in x. */
  predicate FeaturesExist(splits: seq<Split>, x: seq<real>) {
    forall k :: 1 <= k < |splits| && splits[k].self ==> splits[k].feature < |x|
  }

  lemma PathSteps(splits: seq<Split>, x: seq<real>, nd: nat)
    requires nd >= 1
    ensures PathBy(splits, x, 1)
    ensures PathBy(splits, x, 2 * nd) ==
      (PathBy(splits, x, nd) && (nd < |splits| && splits[nd].self ==> TakesLeft(splits[nd], x)))
    ensures PathBy(splits, x, 2 * nd + 1) ==
      (PathBy(splits, x, nd) && (nd < |splits| && splits[nd].self ==> !TakesLeft(splits[nd], x)))
    ensures nd < |splits| && splits[nd].feature < |x| ==> (
      TakesLeft(splits[nd], x) == !Less(splits[nd].threshold, Fin(x[splits[nd].feature])))
  {
    assert 2 * nd / 2 == nd && (2 * nd + 1) / 2 == nd;
  }

  /** Marks the leaves of one tree.  Fails when a split names a feature x does not have. */
  method LeafMarks(splits: seq<Split>, x: seq<real>, depth: nat) returns (ok: bool, marks: seq<bool>)
    requires depth >= 1 && |splits| == Pow2(depth - 1)
    ensures ok <==> FeaturesExist(splits, x)
    ensures ok ==> |marks| == Pow2(depth - 1)
    ensures ok ==> forall k :: 0 <= k < |marks| ==> marks[k] == PathBy(splits, x, Pow2(depth - 1) + k)
  {
    hide Pow2, PathBy, TakesLeft, Less;
    LevelSizes(depth);
    var leafStart, size := Pow2(depth - 1), Pow2(depth);
    assert PathBy(splits, x, 1) by { PathSteps(splits, x, 1); }
    var path := new bool[size];
    path[1] := true;
    marks := [];
    var nidx := 1;
    while nidx < |splits|
      invariant 1 <= nidx <= |splits|
      invariant forall k :: 1 <= k < 2 * nidx ==> path[k] == PathBy(splits, x, k)
      invariant forall k :: 1 <= k < nidx && splits[k].self ==> splits[k].feature < |x|
    {
      var s := splits[nidx];
      var lchild, rchild := 2 * nidx, 2 * nidx + 1;
      PathSteps(splits, x, nidx);
      if s.self {
        if s.feature >= |x| {
          return false, [];
        }
        if !Less(s.threshold, Fin(x[s.feature])) {
          path[lchild], path[rchild] := path[nidx], false;
        } else {
          path[lchild], path[rchild] := false, path[nidx];
        }
      } else {
        path[lchild], path[rchild] := path[nidx], path[nidx];
      }
      nidx := nidx + 1;
    }
    ok, marks := true, path[leafStart..size];
    assert forall k :: 0 <= k < |marks| ==> marks[k] == path[leafStart + k];
  }

  /** Every inner node is decided by exactly one of the two parties. */
  predicate Complementary(s0: seq<Split>, s1: seq<Split>) {
    |s0| == |s1| && forall k :: 1 <= k < |s0| ==> s0[k].self != s1[k].self
  }

  /** The node of a level both parties' splits lead x0 and x1 to. */
  function LeafOf(s0: seq<Split>, s1: seq<Split>, x0: seq<real>, x1: seq<real>, level: nat): (nd: nat)
    requires 1 <= level
    ensures Pow2(level - 1) <= nd < Pow2(level)
    decreases level
  {
    if level == 1 then 1
    else
      var p := LeafOf(s0, s1, x0, x1, level - 1);
      if p < |s0| && p < |s1| && TakesLeft(if s0[p].self then s0[p] else s1[p], if s0[p].self then x0 else x1)
      then 2 * p else 2 * p + 1
  }

  /** Whatever the inputs, the two parties' marks meet in exactly one leaf. */
  lemma {:induction false} ExactlyOneLeaf(s0: seq<Split>, s1: seq<Split>, x0: seq<real>, x1: seq<real>, level: nat, nd: nat)
    requires Complementary(s0, s1) && 1 <= level && Pow2(level - 1) <= |s0|
    requires Pow2(level - 1) <= nd < Pow2(level)
    ensures PathBy(s0, x0, nd) && PathBy(s1, x1, nd) <==> nd == LeafOf(s0, s1, x0, x1, level)
    decreases level
  {
    if level > 1 {
      ExactlyOneLeaf(s0, s1, x0, x1, level - 1, nd / 2);
    }
  }

  // ---- weights times the meeting marks ----

  /** An entry where both bits are set, zero elsewhere. */
  function Selected(w: Vec, b0: seq<bool>, b1: seq<bool>): (r: Vec)
    ensures |r| == |w|
    ensures forall i :: 0 <= i < |w| ==> r[i] == if i < |b0| && i < |b1| && b0[i] && b1[i] then w[i] else 0
  {
    seq(|w|, i requires 0 <= i < |w| => if i < |b0| && i < |b1| && b0[i] && b1[i] then w[i] else 0)
  }

  function Masked(w: Vec, b: seq<bool>): (r: Vec)
    requires |b| == |w|
    ensures |r| == |w| && forall i :: 0 <= i < |w| ==> r[i] == if b[i] then w[i] else 0
  {
    seq(|w|, i requires 0 <= i < |w| => if b[i] then w[i] else 0)
  }

  /** Both transfers' masks t0 and t1 cancel. */
  lemma MasksCancel(t0: int, t1: int, a0: int, a1: int)
    ensures Mod(Mod(Mod(t1 + a1) - t0) + Mod(Mod(t0 + a0) - t1)) == Mod(a0 + a1)
  {
    hide Mod;
    var u, v := Mod(t1 + a1), Mod(t0 + a0);
    ModInside(u - t0, v - t1);
    ModLeft(t1 + a1, v - t1 - t0);
    ModLeft(t0 + a0, a1 - t0);
    assert u - t0 + (v - t1) == u + (v - t1 - t0);
    assert t1 + a1 + (v - t1 - t0) == v + (a1 - t0);
    assert t0 + a0 + (a1 - t0) == a0 + a1;
  }

  lemma CotsMeet(t0: int, t1: int, x0: int, x1: int, b0: bool, b1: bool, r0: int, r1: int)
    requires r1 == Mod(t0 + if b1 then (if b0 then x0 else 0) else 0)
    requires r0 == Mod(t1 + if b0 then (if b1 then x1 else 0) else 0)
    ensures Mod(Mod(r0 - t0) + Mod(r1 - t1)) == if b0 && b1 then Mod(x0 + x1) else 0
  {
    hide Mod;
    MasksCancel(t0, t1, if b0 && b1 then x0 else 0, if b0 && b1 then x1 else 0);
    ModSmall(0);
  }

  /** Two correlated OTs, one in each direction. */
  method MulArithShareWithANDBoolShare(a0: Vec, a1: Vec, b0: seq<bool>, b1: seq<bool>) returns (z0: Vec, z1: Vec)
    requires |a0| == |a1| == |b0| == |b1| && IsVec(a0, |a0|) && IsVec(a1, |a1|)
    ensures |z0| == |z1| == |a0|
    ensures AddV(z0, z1) == Selected(AddV(a0, a1), b0, b1)
  {
    hide Mod;
    var corr0, corr1 := Masked(a0, b0), Masked(a1, b1);
    var t0, r1 := Cot(corr0, b1);
    var t1, r0 := Cot(corr1, b0);
    z0, z1 := SubV(r0, t0), SubV(r1, t1);
    forall i | 0 <= i < |a0|
      ensures AddV(z0, z1)[i] == Selected(AddV(a0, a1), b0, b1)[i]
    {
      CotsMeet(t0[i], t1[i], a0[i], a1[i], b0[i], b1[i], r0[i], r1[i]);
    }
  }

  function SumSeq(v: Vec): int {
    if v == [] then 0 else SumSeq(v[..|v| - 1]) + v[|v| - 1]
  }

  lemma {:induction false} SumSeqAppend(u: Vec, v: Vec)
    ensures SumSeq(u + v) == SumSeq(u) + SumSeq(v)
  {
    if v == [] {
      assert u + v == u;
    } else {
      SumSeqAppend(u, v[..|v| - 1]);
      assert (u + v)[..|u + v| - 1] == u + v[..|v| - 1];
    }
  }

  lemma {:induction false} SumSeqOfShares(u: Vec, v: Vec)
    requires |u| == |v|
    ensures Mod(SumSeq(AddV(u, v))) == Mod(SumSeq(u) + SumSeq(v))
  {
    hide Mod;
    if u != [] {
      var k := |u| - 1;
      SumSeqOfShares(u[..k], v[..k]);
      assert AddV(u, v)[..k] == AddV(u[..k], v[..k]);
      ModIdem(u[k] + v[k]);
      AddCong(SumSeq(AddV(u[..k], v[..k])), SumSeq(u[..k]) + SumSeq(v[..k]), Mod(u[k] + v[k]), u[k] + v[k]);
    }
  }

  lemma {:induction false} SumSeqOneHot(v: Vec, k: nat)
    requires k < |v| && forall i :: 0 <= i < |v| && i != k ==> v[i] == 0
    ensures SumSeq(v) == v[k]
  {
    if k == |v| - 1 {
      SumSeqZero(v[..k]);
    } else {
      SumSeqOneHot(v[..|v| - 1], k);
    }
  }

  lemma {:induction false} SumSeqZero(v: Vec)
    requires forall i :: 0 <= i < |v| ==> v[i] == 0
    ensures SumSeq(v) == 0
  {
    if v != [] {
      SumSeqZero(v[..|v| - 1]);
    }
  }

  /** The parts of a selection are the selections of the parts. */
  lemma SelectedAppend(w: Vec, w': Vec, b0: seq<bool>, b0': seq<bool>, b1: seq<bool>, b1': seq<bool>)
    requires |w| == |b0| == |b1|
    ensures Selected(w + w', b0 + b0', b1 + b1') == Selected(w, b0, b1) + Selected(w', b0', b1')
  {
  }

  // ---- inference ----

  /** One tree's contribution: the opened weight of the leaf x0 and x1 lead to. */
  function TreeTerm(w: Vec, s0: seq<Split>, s1: seq<Split>, x0: seq<real>, x1: seq<real>, depth: nat): int {
    if depth >= 1 && LeafOf(s0, s1, x0, x1, depth) - Pow2(depth - 1) < |w|
    then w[LeafOf(s0, s1, x0, x1, depth) - Pow2(depth - 1)] else 0
  }

  /** The contributions of the first t trees. */
  function Terms(w0: seq<Vec>, w1: seq<Vec>, s0: seq<seq<Split>>, s1: seq<seq<Split>>,
                 x0: seq<real>, x1: seq<real>, depth: nat, t: nat): int
    requires t <= |w0| && t <= |w1| && t <= |s0| && t <= |s1|
  {
    if t == 0 then 0
    else
      var rest := Terms(w0, w1, s0, s1, x0, x1, depth, t - 1);
      if |w0[t - 1]| != |w1[t - 1]| then rest
      else rest + TreeTerm(AddV(w0[t - 1], w1[t - 1]), s0[t - 1], s1[t - 1], x0, x1, depth)
  }

  /** Both builders hold the same number of complete trees of this depth. */
  ghost predicate Forest(w0: seq<Vec>, w1: seq<Vec>, s0: seq<seq<Split>>, s1: seq<seq<Split>>, depth: nat) {
    && depth >= 1 && |w0| == |w1| == |s0| == |s1|
    && forall t :: 0 <= t < |s0| ==> CompleteTree(w0[t], w1[t], s0[t], s1[t], depth)
  }

  ghost predicate CompleteTree(w0: Vec, w1: Vec, s0: seq<Split>, s1: seq<Split>, depth: nat) {
    && depth >= 1 && Complementary(s0, s1) && |s0| == Pow2(depth - 1)
    && IsVec(w0, Pow2(depth - 1)) && IsVec(w1, Pow2(depth - 1))
  }

  /** Marks from both sides select exactly one tree's term. */
  lemma MarksSelectTerm(w0: Vec, w1: Vec, s0: seq<Split>, s1: seq<Split>, x0: seq<real>, x1: seq<real>, depth: nat,
                        m0: seq<bool>, m1: seq<bool>)
    requires CompleteTree(w0, w1, s0, s1, depth) && |m0| == |m1| == Pow2(depth - 1)
    requires forall k :: 0 <= k < |m0| ==> m0[k] == PathBy(s0, x0, Pow2(depth - 1) + k)
    requires forall k :: 0 <= k < |m1| ==> m1[k] == PathBy(s1, x1, Pow2(depth - 1) + k)
    ensures SumSeq(Selected(AddV(w0, w1), m0, m1)) == TreeTerm(AddV(w0, w1), s0, s1, x0, x1, depth)
  {
    hide Mod, SumSeq, PathBy, LeafOf, TakesLeft;
    LevelSizes(depth);
    var start := Pow2(depth - 1);
    var leaf := LeafOf(s0, s1, x0, x1, depth) - start;
    forall k | 0 <= k < start
      ensures m0[k] && m1[k] <==> k == leaf
    {
      ExactlyOneLeaf(s0, s1, x0, x1, depth, start + k);
    }
    SumSeqOneHot(Selected(AddV(w0, w1), m0, m1), leaf);
  }

  /**
    Inference on both sides: shares of the sum, over all trees, of the weight of the one leaf the
    inputs lead to.  Fails when some split names a feature its owner's input lacks.
   */
  method Inference(p0: Builder, p1: Builder, x0: seq<real>, x1: seq<real>) returns (ok: bool, z0: int, z1: int)
    requires p0.maxDepth == p1.maxDepth
    requires Forest(p0.leafWeights, p1.leafWeights, p0.splitIdentifiers, p1.splitIdentifiers, p0.maxDepth)
    ensures ok <==> forall t :: 0 <= t < |p0.splitIdentifiers| ==>
      FeaturesExist(p0.splitIdentifiers[t], x0) && FeaturesExist(p1.splitIdentifiers[t], x1)
    ensures ok ==> (
      Mod(z0 + z1) == Mod(Terms(p0.leafWeights, p1.leafWeights, p0.splitIdentifiers, p1.splitIdentifiers,
                                x0, x1, p0.maxDepth, |p0.leafWeights|)))
  {
    hide Complementary, CompleteTree, Terms, FeaturesExist, Pow2, PathBy, TreeTerm, Selected, SumSeq;
    z0, z1 := 0, 0;
    var w0: Vec, w1: Vec := [], [];
    var m0: seq<bool>, m1: seq<bool> := [], [];
    var t := 0;
    NoTerms(p0.leafWeights, p1.leafWeights, p0.splitIdentifiers, p1.splitIdentifiers, x0, x1, p0.maxDepth);
    while t < |p0.splitIdentifiers|
      invariant 0 <= t <= |p0.splitIdentifiers|
      invariant |w0| == |w1| == |m0| == |m1| && IsVec(w0, |w0|) && IsVec(w1, |w1|)
      invariant forall k :: 0 <= k < t ==>
        FeaturesExist(p0.splitIdentifiers[k], x0) && FeaturesExist(p1.splitIdentifiers[k], x1)
      invariant SumSeq(Selected(AddV(w0, w1), m0, m1)) ==
        Terms(p0.leafWeights, p1.leafWeights, p0.splitIdentifiers, p1.splitIdentifiers, x0, x1, p0.maxDepth, t)
    {
      assert CompleteTree(p0.leafWeights[t], p1.leafWeights[t], p0.splitIdentifiers[t], p1.splitIdentifiers[t], p0.maxDepth);
      var ok0, k0, ok1, k1;
      ok0, k0, ok1, k1 := BothMarks(p0.splitIdentifiers[t], p1.splitIdentifiers[t], x0, x1, p0.maxDepth,
                                    p0.leafWeights[t], p1.leafWeights[t]);
      if !(ok0 && ok1) {
        return false, 0, 0;
      }
      TermsNext(p0.leafWeights, p1.leafWeights, p0.splitIdentifiers, p1.splitIdentifiers, x0, x1, p0.maxDepth, t,
                w0, w1, m0, m1, k0, k1);
      w0, w1, m0, m1 := w0 + p0.leafWeights[t], w1 + p1.leafWeights[t], m0 + k0, m1 + k1;
      t := t + 1;
    }
    var u0, u1 := MulArithShareWithANDBoolShare(w0, w1, m0, m1);
    z0, z1 := Mod(SumSeq(u0)), Mod(SumSeq(u1));
    SumSeqOfShares(u0, u1);
    ModInside(SumSeq(u0), SumSeq(u1));
    ok := true;
  }

  method BothMarks(s0: seq<Split>, s1: seq<Split>, x0: seq<real>, x1: seq<real>, depth: nat, ghost w0: Vec, ghost w1: Vec)
    returns (ok0: bool, m0: seq<bool>, ok1: bool, m1: seq<bool>)
    requires CompleteTree(w0, w1, s0, s1, depth)
    ensures ok0 <==> FeaturesExist(s0, x0)
    ensures ok1 <==> FeaturesExist(s1, x1)
    ensures ok0 && ok1 ==> |m0| == |m1| == |w0| == |w1| && IsVec(w0, |w0|) && IsVec(w1, |w1|)
    ensures ok0 && ok1 ==> SumSeq(Selected(AddV(w0, w1), m0, m1)) == TreeTerm(AddV(w0, w1), s0, s1, x0, x1, depth)
  {
    ok0, m0 := LeafMarks(s0, x0, depth);
    ok1, m1 := LeafMarks(s1, x1, depth);
    if ok0 && ok1 {
      MarksSelectTerm(w0, w1, s0, s1, x0, x1, depth, m0, m1);
    }
  }

  lemma NoTerms(w0: seq<Vec>, w1: seq<Vec>, s0: seq<seq<Split>>, s1: seq<seq<Split>>, x0: seq<real>, x1: seq<real>, depth: nat)
    ensures Terms(w0, w1, s0, s1, x0, x1, depth, 0) == 0 == SumSeq(Selected(AddV([], []), [], []))
  {
  }

  lemma SharesAppend(a: Vec, b: Vec, a': Vec, b': Vec)
    requires |a| == |b| && |a'| == |b'|
    ensures AddV(a + a', b + b') == AddV(a, b) + AddV(a', b')
  {
    hide Mod;
  }

  lemma TermsNext(w0: seq<Vec>, w1: seq<Vec>, s0: seq<seq<Split>>, s1: seq<seq<Split>>, x0: seq<real>, x1: seq<real>,
                  depth: nat, t: nat, a0: Vec, a1: Vec, m0: seq<bool>, m1: seq<bool>, k0: seq<bool>, k1: seq<bool>)
    requires t < |w0| && t < |w1| && t < |s0| && t < |s1| && |w0[t]| == |w1[t]| == |k0| == |k1|
    requires |a0| == |a1| == |m0| == |m1|
    requires SumSeq(Selected(AddV(a0, a1), m0, m1)) == Terms(w0, w1, s0, s1, x0, x1, depth, t)
    requires SumSeq(Selected(AddV(w0[t], w1[t]), k0, k1)) == TreeTerm(AddV(w0[t], w1[t]), s0[t], s1[t], x0, x1, depth)
    ensures SumSeq(Selected(AddV(a0 + w0[t], a1 + w1[t]), m0 + k0, m1 + k1)) == Terms(w0, w1, s0, s1, x0, x1, depth, t + 1)
  {
    hide AddV, TreeTerm, Selected, SumSeq;
    SharesAppend(a0, a1, w0[t], w1[t]);
    SelectedAppend(AddV(a0, a1), AddV(w0[t], w1[t]), m0, k0, m1, k1);
    SumSeqAppend(Selected(AddV(a0, a1), m0, m1), Selected(AddV(w0[t], w1[t]), k0, k1));
  }

  // ---- training rows ----

  /** Sample i of a party's training columns, as an input for inference. */
  function RowOf(d: PartyData, i: nat): (x: seq<real>)
    ensures |x| == |d.columns|
  {
    seq(|d.columns|, f requires 0 <= f < |d.columns| => if i < |d.columns[f]| then d.columns[f][i] else 0.0)
  }

  /** The stored bucket of sample i is on the same side of the chosen one as its bin. */
  predicate SameSide(run: Run, c: Choice, i: nat) {
    var d := run.Data(c.owner);
    d.bucketSize >= 1 && (
      var f, b := c.bucket / d.bucketSize, c.bucket % d.bucketSize;
      d.Bin(f, i) <= b || b < d.StoredBin(f, i))
  }

  /** What inference does with training row i at a decision is what training did. */
  predicate SplitAgreesAt(run: Run, c: Choice, i: nat) {
    TakesLeft(SplitFor(run, c.owner, c), RowOf(run.Data(c.owner), i)) <==> run.Left(c, i)
  }

  /** At a recorded split that is so if and only if the row's bucket was stored on the right side. */
  lemma SplitAgrees(run: Run, c: Choice, i: nat)
    requires run.Valid() && run.InRange(c) && i < run.d0.n && HasThreshold(run.Data(c.owner), c.bucket)
    ensures SplitAgreesAt(run, c, i) <==> SameSide(run, c, i)
  {
    hide BinOf, Less;
    var d := run.Data(c.owner);
    d.FeatureInRange(c.bucket);
    var f, b := c.bucket / d.bucketSize, c.bucket % d.bucketSize;
    TruncatedAtMost(d.thresholds[f], Fin(d.columns[f][i]), b);
    TakesLeftOf(run, c, i);
  }

  lemma TakesLeftOf(run: Run, c: Choice, i: nat)
    requires run.Valid() && run.InRange(c) && i < run.d0.n && HasThreshold(run.Data(c.owner), c.bucket)
    ensures var d := run.Data(c.owner);
      var f, b := c.bucket / d.bucketSize, c.bucket % d.bucketSize;
      f < |d.columns| && |d.columns[f]| == d.n && f < |d.thresholds| && b < |d.thresholds[f]|
      && (TakesLeft(SplitFor(run, c.owner, c), RowOf(d, i)) <==> !Less(d.thresholds[f][b], Fin(d.columns[f][i])))
  {
    hide Less;
    run.Data(c.owner).FeatureInRange(c.bucket);
  }

  /** A row is routed alike at every decision that could be taken if and only if all its bins fit in 16 bits. */
  lemma RowAgreesExactly(run: Run, i: nat)
    requires run.Valid() && i < run.d0.n
    ensures (forall c :: run.InRange(c) && HasThreshold(run.Data(c.owner), c.bucket) ==> SplitAgreesAt(run, c, i))
      <==> run.d0.BinsFit(i) && run.d1.BinsFit(i)
  {
    hide BinOf, Less, SplitAgreesAt, HasThreshold;
    forall c | run.InRange(c) && HasThreshold(run.Data(c.owner), c.bucket) && run.d0.BinsFit(i) && run.d1.BinsFit(i)
      ensures SplitAgreesAt(run, c, i)
    {
      SplitAgrees(run, c, i);
      run.Data(c.owner).FeatureInRange(c.bucket);
    }
    forall r: nat, f: nat | r < 2 && f < |run.Data(r).columns| && run.Data(r).Bin(f, i) >= 0x1_0000
      ensures exists c :: run.InRange(c) && HasThreshold(run.Data(c.owner), c.bucket) && !SplitAgreesAt(run, c, i)
    {
      var c := WrongSide(run, r, f, i);
    }
    assert run.Data(0) == run.d0 && run.Data(1) == run.d1;
  }

  /** A bin that does not fit is told apart from what is stored by the split on the latter. */
  lemma WrongSide(run: Run, r: nat, f: nat, i: nat) returns (c: Choice)
    requires run.Valid() && i < run.d0.n && r < 2 && f < |run.Data(r).columns| && run.Data(r).Bin(f, i) >= 0x1_0000
    ensures c == Choice(r, f * run.Data(r).bucketSize + run.Data(r).StoredBin(f, i))
    ensures run.InRange(c) && HasThreshold(run.Data(r), c.bucket) && run.Left(c, i) && !SplitAgreesAt(run, c, i)
  {
    hide BinOf, Less, TakesLeft, SplitFor, RowOf;
    var d := run.Data(r);
    var b := d.StoredBin(f, i);
    FittedBinExists(d.thresholds[f], d.columns[f], d.bucketSize, Fin(d.columns[f][i]));
    TwoDigits(f, b, |d.columns|, d.bucketSize);
    c := Choice(r, f * d.bucketSize + b);
    SplitAgrees(run, c, i);
  }

  /** At every decision above a level, sample i's bucket was stored on the right side. */
  predicate RoutedTruly(run: Run, cs: seq<Choice>, level: nat, i: nat) {
    level <= 1 || (
      var p := run.NodeOf(cs, level - 1, i);
      RoutedTruly(run, cs, level - 1, i) && p < |cs| && SameSide(run, cs[p], i))
  }

  /** Inference takes a training row to the node that training put it in if and only if that is so. */
  lemma {:induction false} RowReachesItsLeaf(run: Run, cs: seq<Choice>, s0: seq<Split>, s1: seq<Split>, level: nat, i: nat)
    requires run.Valid() && run.Decided(cs) && SplitsOk(run, cs, s0, s1) && i < run.d0.n
    requires 1 <= level && Pow2(level - 1) <= |cs|
    ensures LeafOf(s0, s1, RowOf(run.d0, i), RowOf(run.d1, i), level) == run.NodeOf(cs, level, i) <==> RoutedTruly(run, cs, level, i)
    decreases level
  {
    hide Run.Valid, SameSide, TakesLeft, RowOf, Run.Left, SplitAgreesAt, Run.GoesLeft, SplitsOk, Pow2;
    if level > 1 {
      Pow2Grows(level - 2, level - 1);
      RowReachesItsLeaf(run, cs, s0, s1, level - 1, i);
      var p := run.NodeOf(cs, level - 1, i);
      NodeInRange(run, cs, s0, s1, level, p);
      SplitAgrees(run, cs[p], i);
      StepAgrees(run, cs, s0, s1, p, i);
    }
  }

  lemma NodeInRange(run: Run, cs: seq<Choice>, s0: seq<Split>, s1: seq<Split>, level: nat, p: nat)
    requires run.Decided(cs) && SplitsOk(run, cs, s0, s1) && 2 <= level && Pow2(level - 1) <= |cs|
    requires Pow2(level - 2) <= p < Pow2(level - 1)
    ensures 1 <= p < |cs| && p < |s0| && p < |s1|
    ensures run.InRange(cs[p]) && HasThreshold(run.Data(cs[p].owner), cs[p].bucket)
  {
    hide Pow2;
  }

  lemma StepAgrees(run: Run, cs: seq<Choice>, s0: seq<Split>, s1: seq<Split>, p: nat, i: nat)
    requires run.Valid() && run.Decided(cs) && SplitsOk(run, cs, s0, s1) && i < run.d0.n && 1 <= p < |cs|
    ensures SplitAgreesAt(run, cs[p], i) <==>
      (TakesLeft(if s0[p].self then s0[p] else s1[p], if s0[p].self then RowOf(run.d0, i) else RowOf(run.d1, i))
       <==> run.GoesLeft(cs, p, i))
  {
    hide TakesLeft, RowOf, Run.Left;
    assert run.InRange(cs[p]);
  }

  /** Which it is wherever the splits are, if the row's bins fit. */
  lemma {:induction false} FittingBinsRouteTruly(run: Run, cs: seq<Choice>, level: nat, i: nat)
    requires run.Valid() && run.Decided(cs) && run.d0.BinsFit(i) && run.d1.BinsFit(i)
    requires 1 <= level && Pow2(level - 1) <= |cs|
    ensures RoutedTruly(run, cs, level, i)
  {
    hide BinOf;
    if level > 1 {
      FittingBinsRouteTruly(run, cs, level - 1, i);
      var p := run.NodeOf(cs, level - 1, i);
      assert run.InRange(cs[p]);
      run.Data(cs[p].owner).FeatureInRange(cs[p].bucket);
    }
  }

  lemma RecordsComplement(run: Run, cs: seq<Choice>, s0: seq<Split>, s1: seq<Split>)
    requires run.Decided(cs) && SplitsOk(run, cs, s0, s1)
    ensures Complementary(s0, s1)
  {
    forall k | 1 <= k < |cs|
      ensures s0[k].self != s1[k].self
    {
      assert run.InRange(cs[k]);
    }
  }
}
