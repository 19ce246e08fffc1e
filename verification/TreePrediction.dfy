/**
  The training predictions after a tree: every leaf's shared weight, times both parties' indicators
  of that leaf, is added to the shared predictions.
 */
module TreePrediction {
  import opened Arith
  import opened FiniteSets
  import opened Ring
  import opened BinMatVec
  import opened TreeSpec
  import opened TreeBuilder
  import opened TreeTraining
  import opened TreeInference

  // ---- one weight per batch of bits ----

  /** Entry i of batch k: weight k where both bits are set, zero elsewhere. */
  ghost predicate EntryOk(z: Vec, w: Vec, n: nat, b0: seq<bool>, b1: seq<bool>, k: nat, i: nat) {
    var j := k * n + i;
    && 0 <= j < |z| && j < |b0| && j < |b1| && k < |w|
    && z[j] == if b0[j] && b1[j] then w[k] else 0
  }

  /** The first c batches are done. */
  ghost predicate BatchesOk(z: Vec, w: Vec, n: nat, b0: seq<bool>, b1: seq<bool>, c: nat) {
    && |z| == c * n
    && forall k: nat, i: nat :: k < c && i < n ==> EntryOk(z, w, n, b0, b1, k, i)
  }

  /** Each entry of the shared vector times its own batch of n bits from either side. */
  method BatchMulArithShareWithANDBoolShare(a0: Vec, a1: Vec, n: nat, b0: seq<bool>, b1: seq<bool>)
    returns (z0: Vec, z1: Vec)
    requires |a0| == |a1| && IsVec(a0, |a0|) && IsVec(a1, |a1|) && |b0| == |b1| == |a0| * n
    ensures |z0| == |z1| && BatchesOk(AddV(z0, z1), AddV(a0, a1), n, b0, b1, |a0|)
  {
    hide Mod, BatchesOk, Selected;
    z0, z1 := [], [];
    var k := 0;
    assert BatchesOk(AddV(z0, z1), AddV(a0, a1), n, b0, b1, 0) by { NoBatches(AddV(a0, a1), n, b0, b1); }
    while k < |a0|
      invariant 0 <= k <= |a0| && |z0| == |z1|
      invariant BatchesOk(AddV(z0, z1), AddV(a0, a1), n, b0, b1, k)
    {
      BatchInside(k, |a0|, n);
      var c0, c1 := b0[k * n..k * n + n], b1[k * n..k * n + n];
      var u0, u1 := MulArithShareWithANDBoolShare(seq(n, _ => a0[k]), seq(n, _ => a1[k]), c0, c1);
      NextBatch(z0, z1, u0, u1, a0, a1, n, b0, b1, k);
      z0, z1 := z0 + u0, z1 + u1;
      k := k + 1;
    }
  }

  lemma NoBatches(w: Vec, n: nat, b0: seq<bool>, b1: seq<bool>)
    ensures BatchesOk([], w, n, b0, b1, 0)
  {
  }

  lemma BatchInside(k: nat, c: nat, n: nat)
    requires k < c
    ensures 0 <= k * n && k * n + n == (k + 1) * n <= c * n
  {
    MulNonNeg(k, n);
    MulLe(k + 1, c, n);
    assert (k + 1) * n == k * n + n;
  }

  lemma NextBatch(z0: Vec, z1: Vec, u0: Vec, u1: Vec, a0: Vec, a1: Vec, n: nat, b0: seq<bool>, b1: seq<bool>, c: nat)
    requires |z0| == |z1| && |a0| == |a1| && |u0| == |u1| == n && c < |a0| && |b0| == |b1| == |a0| * n
    requires BatchesOk(AddV(z0, z1), AddV(a0, a1), n, b0, b1, c)
    requires 0 <= c * n && c * n + n <= |b0|
    requires AddV(u0, u1) == Selected(AddV(seq(n, _ => a0[c]), seq(n, _ => a1[c])), b0[c * n..c * n + n], b1[c * n..c * n + n])
    ensures BatchesOk(AddV(z0 + u0, z1 + u1), AddV(a0, a1), n, b0, b1, c + 1)
  {
    hide Mod, BatchesOk;
    assert AddV(z0 + u0, z1 + u1) == AddV(z0, z1) + AddV(u0, u1);
    OneMoreBatch(AddV(z0, z1), AddV(u0, u1), AddV(a0, a1), n, b0, b1, c);
  }

  lemma OneMoreBatch(z: Vec, u: Vec, w: Vec, n: nat, b0: seq<bool>, b1: seq<bool>, c: nat)
    requires BatchesOk(z, w, n, b0, b1, c) && |u| == n && c < |w| && |b0| == |b1| == |w| * n
    requires forall i :: 0 <= i < n ==> 0 <= c * n + i < |b0| && u[i] == if b0[c * n + i] && b1[c * n + i] then w[c] else 0
    ensures BatchesOk(z + u, w, n, b0, b1, c + 1)
  {
    BatchInside(c, |w|, n);
    forall k: nat, i: nat | k < c + 1 && i < n
      ensures EntryOk(z + u, w, n, b0, b1, k, i)
    {
      if k < c {
        assert EntryOk(z, w, n, b0, b1, k, i);
      } else {
        assert (z + u)[c * n + i] == u[i];
      }
    }
  }

  // ---- the indicators of all leaves, one after the other ----

  /** The leaves in L are filled in: bit i of leaf start + k is whether its indicator keeps i. */
  ghost predicate FilledIn(bits: seq<bool>, m: map<nat, seq<bool>>, start: nat, n: nat, L: set<nat>) {
    forall nd, i: nat :: nd in L && nd >= start && i < n ==> BitOk(bits, m, start, n, nd, i)
  }

  ghost predicate BitOk(bits: seq<bool>, m: map<nat, seq<bool>>, start: nat, n: nat, nd: nat, i: nat)
    requires nd >= start
  {
    var j := (nd - start) * n + i;
    0 <= j < |bits| && nd in m && bits[j] == Keeps(m[nd], i)
  }

  /** Lays out the indicators, in whatever order the map yields its leaves. */
  method LayOut(m: map<nat, seq<bool>>, start: nat, count: nat, n: nat) returns (bits: seq<bool>)
    requires forall nd :: nd in m <==> start <= nd < start + count
    requires forall nd :: nd in m ==> m[nd] == [] || |m[nd]| == n
    ensures |bits| == count * n && FilledIn(bits, m, start, n, m.Keys)
  {
    hide FilledIn;
    MulNonNeg(count, n);
    bits := seq(count * n, _ => false);
    var todo, done := m.Keys, {};
    assert FilledIn(bits, m, start, n, {}) by { NothingFilled(bits, m, start, n); }
    while todo != {}
      invariant |bits| == count * n && todo !! done && todo + done == m.Keys
      invariant FilledIn(bits, m, start, n, done)
      decreases todo
    {
      var nd :| nd in todo;
      var lo := (nd - start) * n;
      BatchInside(nd - start, count, n);
      var piece := if m[nd] == [] then seq(n, _ => true) else m[nd];
      PieceFilled(bits, m, start, count, n, done, nd, piece);
      bits := bits[..lo] + piece + bits[lo + n..];
      todo, done := todo - {nd}, done + {nd};
    }
    assert done == m.Keys;
  }

  lemma NothingFilled(bits: seq<bool>, m: map<nat, seq<bool>>, start: nat, n: nat)
    ensures FilledIn(bits, m, start, n, {})
  {
  }

  lemma PieceFilled(bits: seq<bool>, m: map<nat, seq<bool>>, start: nat, count: nat, n: nat, done: set<nat>, nd: nat, piece: seq<bool>)
    requires |bits| == count * n && start <= nd < start + count && nd in m && nd !in done && |piece| == n
    requires forall i :: 0 <= i < n ==> piece[i] == Keeps(m[nd], i)
    requires FilledIn(bits, m, start, n, done) && forall k :: k in done ==> start <= k < start + count
    ensures var lo := (nd - start) * n;
      0 <= lo && lo + n <= |bits| && FilledIn(bits[..lo] + piece + bits[lo + n..], m, start, n, done + {nd})
  {
    BatchInside(nd - start, count, n);
    var lo := (nd - start) * n;
    var now := bits[..lo] + piece + bits[lo + n..];
    forall k, i: nat | k in done + {nd} && k >= start && i < n
      ensures BitOk(now, m, start, n, k, i)
    {
      var j := (k - start) * n + i;
      BatchInside(k - start, count, n);
      if k == nd {
        assert now[j] == piece[i];
      } else {
        assert BitOk(bits, m, start, n, k, i);
        if k < nd {
          MulLt(k - start, nd - start, n);
        } else {
          MulLt(nd - start, k - start, n);
        }
        assert now[j] == bits[j];
      }
    }
  }

  // ---- adding the batches up ----

  /** What the first c leaves add to sample i. */
  ghost function Added(w: Vec, m0: map<nat, seq<bool>>, m1: map<nat, seq<bool>>, start: nat, c: nat, i: nat): int {
    if c == 0 then 0
    else
      var nd := start + c - 1;
      var here := nd in m0 && nd in m1 && Keeps(m0[nd], i) && Keeps(m1[nd], i) && c <= |w|;
      Added(w, m0, m1, start, c - 1, i) + if here then w[c - 1] else 0
  }

  /** pred plus the first c leaves. */
  ghost predicate Summed(now: Vec, pred: Vec, w: Vec, m0: map<nat, seq<bool>>, m1: map<nat, seq<bool>>, start: nat, c: nat) {
    && |now| == |pred|
    && forall i :: 0 <= i < |pred| ==> now[i] == Mod(pred[i] + Added(w, m0, m1, start, c, i))
  }

  lemma OneMoreLeaf(now: Vec, z: Vec, pred: Vec, w: Vec, b0: seq<bool>, b1: seq<bool>, n: nat,
                    m0: map<nat, seq<bool>>, m1: map<nat, seq<bool>>, start: nat, c: nat)
    requires |now| == |z| == |pred| == n && c < |w| && start + c in m0 && start + c in m1
    requires Summed(now, pred, w, m0, m1, start, c)
    requires FilledIn(b0, m0, start, n, m0.Keys) && FilledIn(b1, m1, start, n, m1.Keys)
    requires forall i :: 0 <= i < n ==> (
      var j := c * n + i;
      0 <= j < |b0| && j < |b1| && z[i] == if b0[j] && b1[j] then w[c] else 0)
    ensures Summed(AddV(now, z), pred, w, m0, m1, start, c + 1)
  {
    forall i | 0 <= i < n
      ensures AddV(now, z)[i] == Mod(pred[i] + Added(w, m0, m1, start, c + 1, i))
    {
      assert start + c - start == c;
      assert BitOk(b0, m0, start, n, start + c, i) && BitOk(b1, m1, start, n, start + c, i);
      ModLeft(pred[i] + Added(w, m0, m1, start, c, i), z[i]);
    }
  }

  // ---- on a grown tree ----

  /** Both parties hold an indicator per leaf, and the two meet on the samples routed there. */
  ghost predicate LeavesOk(run: Run, cs: seq<Choice>, depth: nat, m0: map<nat, seq<bool>>, m1: map<nat, seq<bool>>) {
    && depth >= 1
    && (forall nd :: nd in m0 <==> Pow2(depth - 1) <= nd < Pow2(depth))
    && (forall nd :: nd in m1 <==> Pow2(depth - 1) <= nd < Pow2(depth))
    && (forall nd :: nd in m0 ==> m0[nd] == [] || |m0[nd]| == run.d0.n)
    && (forall nd :: nd in m1 ==> m1[nd] == [] || |m1[nd]| == run.d0.n)
    && forall nd, i: nat :: nd in m0 && nd in m1 && i < run.d0.n ==> LeafMeets(run, cs, depth, m0[nd], m1[nd], nd, i)
  }

  ghost predicate LeafMeets(run: Run, cs: seq<Choice>, depth: nat, a: seq<bool>, b: seq<bool>, nd: nat, i: nat)
    requires depth >= 1
  {
    Keeps(a, i) && Keeps(b, i) <==> i in run.Root(0) && i in run.Root(1) && nd == run.NodeOf(cs, depth, i)
  }

  lemma GrownLeaves(run: Run, cs: seq<Choice>, depth: nat, p0: Builder, p1: Builder)
    requires run.Valid() && Grown(run, cs, depth, p0, p1)
    ensures LeavesOk(run, cs, depth, p0.sampleIndicators, p1.sampleIndicators)
  {
    hide Pow2, Run.NodeOf, Run.Root, Keeps, Run.Valid, HistsOk, SplitsOk, Last, Run.Decided;
    GrownShape(run, cs, depth, p0, p1);
    forall nd, i: nat | nd in p0.sampleIndicators && nd in p1.sampleIndicators && i < run.d0.n
      ensures LeafMeets(run, cs, depth, p0.sampleIndicators[nd], p1.sampleIndicators[nd], nd, i)
    {
      SamplesPartition(run, cs, depth, p0, p1, nd, i);
    }
  }

  lemma GrownShape(run: Run, cs: seq<Choice>, depth: nat, p0: Builder, p1: Builder)
    requires Grown(run, cs, depth, p0, p1)
    ensures p0.sampleIndicators.Keys == p1.sampleIndicators.Keys == Range(Pow2(depth - 1), Pow2(depth))
    ensures forall nd :: nd in p0.sampleIndicators ==> p0.sampleIndicators[nd] == [] || |p0.sampleIndicators[nd]| == run.d0.n
    ensures forall nd :: nd in p1.sampleIndicators ==> p1.sampleIndicators[nd] == [] || |p1.sampleIndicators[nd]| == run.d0.n
  {
    hide Pow2, Run.NodeOf, Run.Root, Keeps, HistsOk, SplitsOk, Last, Run.Decided, SharesOk;
  }

  /** The weight of the leaf training put sample i in, if it is among the first c; zero for a dropped sample. */
  function TrainTerm(run: Run, cs: seq<Choice>, depth: nat, w: Vec, c: nat, i: nat): int {
    if depth >= 1 && i in run.Root(0) && i in run.Root(1) && run.NodeOf(cs, depth, i) - Pow2(depth - 1) < c <= |w|
    then w[run.NodeOf(cs, depth, i) - Pow2(depth - 1)] else 0
  }

  /** Only the leaf a sample was routed to adds anything, and only if both root masks keep it. */
  lemma {:induction false} AddedIsOneLeaf(run: Run, cs: seq<Choice>, depth: nat, m0: map<nat, seq<bool>>, m1: map<nat, seq<bool>>,
                                          w: Vec, c: nat, i: nat)
    requires LeavesOk(run, cs, depth, m0, m1) && Pow2(depth) == 2 * Pow2(depth - 1)
    requires |w| == Pow2(depth - 1) && c <= |w| && i < run.d0.n
    ensures Added(w, m0, m1, Pow2(depth - 1), c, i) == TrainTerm(run, cs, depth, w, c, i)
  {
    hide Pow2, Run.NodeOf, Run.Root, Keeps;
    if c > 0 {
      AddedIsOneLeaf(run, cs, depth, m0, m1, w, c - 1, i);
      var nd := Pow2(depth - 1) + c - 1;
      assert LeafMeets(run, cs, depth, m0[nd], m1[nd], nd, i);
    }
  }

  /**
    Adds the tree just built to the shared predictions: each sample's prediction grows by the
    weight of the leaf training put it in, if both root masks keep the sample.
   */
  method UpdatePrediction(p0: Builder, p1: Builder, pred0: Vec, pred1: Vec, tree: nat, n: nat, ghost run: Run, ghost cs: seq<Choice>)
    returns (z0: Vec, z1: Vec)
    requires run.Valid() && n == run.d0.n && p0.maxDepth == p1.maxDepth && Grown(run, cs, p0.maxDepth, p0, p1)
    requires tree < |p0.leafWeights| && tree < |p1.leafWeights|
    requires IsVec(p0.leafWeights[tree], Pow2(p0.maxDepth - 1)) && IsVec(p1.leafWeights[tree], Pow2(p0.maxDepth - 1))
    requires |pred0| == |pred1| == n
    ensures |z0| == |z1| == n
    ensures forall i: nat :: i < n ==> AddV(z0, z1)[i] == Mod(AddV(pred0, pred1)[i] +
      TrainTerm(run, cs, p0.maxDepth, AddV(p0.leafWeights[tree], p1.leafWeights[tree]), Pow2(p0.maxDepth - 1), i))
  {
    hide Mod, Pow2, Grown, BatchesOk, FilledIn, Summed, TrainTerm, Added;
    var depth, w0, w1 := p0.maxDepth, p0.leafWeights[tree], p1.leafWeights[tree];
    ghost var w, pred := AddV(w0, w1), AddV(pred0, pred1);
    var m0, m1 := p0.sampleIndicators, p1.sampleIndicators;
    assert LeavesOk(run, cs, depth, m0, m1) by { GrownLeaves(run, cs, depth, p0, p1); }
    LevelSizes(depth);
    var start := Pow2(depth - 1);
    var b0 := LayOut(m0, start, start, n);
    var b1 := LayOut(m1, start, start, n);
    var u0, u1 := BatchMulArithShareWithANDBoolShare(w0, w1, n, b0, b1);
    z0, z1 := pred0, pred1;
    var j := 0;
    assert Summed(AddV(z0, z1), pred, w, m0, m1, start, 0) by { NothingAdded(pred0, pred1, w, m0, m1, start); }
    while j < start
      invariant 0 <= j <= start && |z0| == |z1| == n
      invariant Summed(AddV(z0, z1), pred, w, m0, m1, start, j)
    {
      BatchInside(j, start, n);
      assert |u0| == start * n by { BatchesLength(AddV(u0, u1), w, n, b0, b1, start); }
      var v0, v1 := u0[j * n..j * n + n], u1[j * n..j * n + n];
      LeafAdded(z0, z1, u0, u1, pred, w, b0, b1, n, m0, m1, start, j);
      z0, z1 := AddV(z0, v0), AddV(z1, v1);
      j := j + 1;
    }
    forall i: nat | i < n
      ensures AddV(z0, z1)[i] == Mod(pred[i] + TrainTerm(run, cs, depth, w, start, i))
    {
      SummedAt(AddV(z0, z1), pred, w, m0, m1, start, start, i);
      AddedIsOneLeaf(run, cs, depth, m0, m1, w, start, i);
    }
  }

  lemma NothingAdded(pred0: Vec, pred1: Vec, w: Vec, m0: map<nat, seq<bool>>, m1: map<nat, seq<bool>>, start: nat)
    requires |pred0| == |pred1|
    ensures Summed(AddV(pred0, pred1), AddV(pred0, pred1), w, m0, m1, start, 0)
  {
    hide Mod;
    forall i | 0 <= i < |pred0|
      ensures AddV(pred0, pred1)[i] == Mod(AddV(pred0, pred1)[i])
    {
      ModSmall(AddV(pred0, pred1)[i]);
    }
  }

  lemma BatchesLength(z: Vec, w: Vec, n: nat, b0: seq<bool>, b1: seq<bool>, c: nat)
    requires BatchesOk(z, w, n, b0, b1, c)
    ensures |z| == c * n
  {
  }

  lemma SummedAt(now: Vec, pred: Vec, w: Vec, m0: map<nat, seq<bool>>, m1: map<nat, seq<bool>>, start: nat, c: nat, i: nat)
    requires Summed(now, pred, w, m0, m1, start, c) && i < |pred|
    ensures |now| == |pred| && now[i] == Mod(pred[i] + Added(w, m0, m1, start, c, i))
  {
  }

  /** One round of the loop in UpdatePrediction. */
  lemma LeafAdded(z0: Vec, z1: Vec, u0: Vec, u1: Vec, pred: Vec, w: Vec, b0: seq<bool>, b1: seq<bool>, n: nat,
                  m0: map<nat, seq<bool>>, m1: map<nat, seq<bool>>, start: nat, j: nat)
    requires |z0| == |z1| == |pred| == n && |u0| == |u1| && j < start == |w|
    requires 0 <= j * n && j * n + n <= |u0|
    requires BatchesOk(AddV(u0, u1), w, n, b0, b1, start) && Summed(AddV(z0, z1), pred, w, m0, m1, start, j)
    requires FilledIn(b0, m0, start, n, m0.Keys) && FilledIn(b1, m1, start, n, m1.Keys)
    requires start + j in m0 && start + j in m1
    ensures var v0, v1 := u0[j * n..j * n + n], u1[j * n..j * n + n];
      Summed(AddV(AddV(z0, v0), AddV(z1, v1)), pred, w, m0, m1, start, j + 1)
  {
    hide Mod, Summed, FilledIn, Added;
    var v0, v1 := u0[j * n..j * n + n], u1[j * n..j * n + n];
    assert AddV(AddV(z0, v0), AddV(z1, v1)) == AddV(AddV(z0, z1), AddV(v0, v1)) by { SumsRegroup(z0, z1, v0, v1); }
    forall i | 0 <= i < n
      ensures var k := j * n + i; 0 <= k < |b0| && k < |b1| && AddV(v0, v1)[i] == if b0[k] && b1[k] then w[j] else 0
    {
      assert EntryOk(AddV(u0, u1), w, n, b0, b1, j, i);
      assert AddV(v0, v1)[i] == AddV(u0, u1)[j * n + i];
    }
    OneMoreLeaf(AddV(z0, z1), AddV(v0, v1), pred, w, b0, b1, n, m0, m1, start, j);
  }

  lemma SumsRegroup(a: Vec, b: Vec, c: Vec, d: Vec)
    requires |a| == |b| == |c| == |d|
    ensures AddV(AddV(a, c), AddV(b, d)) == AddV(AddV(a, b), AddV(c, d))
  {
    hide Mod;
    forall i | 0 <= i < |a|
      ensures AddV(AddV(a, c), AddV(b, d))[i] == AddV(AddV(a, b), AddV(c, d))[i]
    {
      ModInside(a[i] + c[i], b[i] + d[i]);
      ModInside(a[i] + b[i], c[i] + d[i]);
      assert a[i] + c[i] + (b[i] + d[i]) == a[i] + b[i] + (c[i] + d[i]);
    }
  }

  /** What training adds for a kept row that is routed truly is what inference on that row yields for the tree. */
  lemma TrainingMatchesInference(run: Run, cs: seq<Choice>, depth: nat, s0: seq<Split>, s1: seq<Split>, w: Vec, i: nat)
    requires run.Valid() && run.Decided(cs) && SplitsOk(run, cs, s0, s1) && i < run.d0.n
    requires depth >= 1 && |cs| == Pow2(depth - 1) == |w|
    requires RoutedTruly(run, cs, depth, i)
    ensures TrainTerm(run, cs, depth, w, |w|, i) ==
      if i in run.Root(0) && i in run.Root(1) then TreeTerm(w, s0, s1, RowOf(run.d0, i), RowOf(run.d1, i), depth) else 0
  {
    hide Run.Valid, Run.Root, Run.NodeOf, LeafOf, SplitsOk, Run.Decided, Pow2, RowOf, RoutedTruly;
    RowReachesItsLeaf(run, cs, s0, s1, depth, i);
  }

  ghost predicate TermsMatch(run: Run, cs: seq<Choice>, depth: nat, s0: seq<Split>, s1: seq<Split>, w: Vec, i: nat) {
    TrainTerm(run, cs, depth, w, |w|, i) == TreeTerm(w, s0, s1, RowOf(run.d0, i), RowOf(run.d1, i), depth)
  }

  /** For a kept row the two agree whatever the weights if and only if it is. */
  lemma TrainingMatchesExactly(run: Run, cs: seq<Choice>, depth: nat, s0: seq<Split>, s1: seq<Split>, i: nat)
    requires run.Valid() && run.Decided(cs) && SplitsOk(run, cs, s0, s1) && i < run.d0.n
    requires depth >= 1 && |cs| == Pow2(depth - 1) && i in run.Root(0) && i in run.Root(1)
    ensures RoutedTruly(run, cs, depth, i) <==> forall w: Vec :: |w| == Pow2(depth - 1) ==> TermsMatch(run, cs, depth, s0, s1, w, i)
  {
    hide Run.Valid, Run.Root, Run.NodeOf, LeafOf, SplitsOk, Run.Decided, RowOf, RoutedTruly, Pow2;
    RowReachesItsLeaf(run, cs, s0, s1, depth, i);
    LevelSizes(depth);
    var n, k := Pow2(depth - 1), run.NodeOf(cs, depth, i) - Pow2(depth - 1);
    if RoutedTruly(run, cs, depth, i) {
      forall w: Vec | |w| == n
        ensures TermsMatch(run, cs, depth, s0, s1, w, i)
      {
        TrainingMatchesInference(run, cs, depth, s0, s1, w, i);
      }
    } else {
      var w := seq(n, j => if j == k then 1 else 0);
      assert TrainTerm(run, cs, depth, w, |w|, i) == 1;
      assert !TermsMatch(run, cs, depth, s0, s1, w, i);
    }
  }
}
