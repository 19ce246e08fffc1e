/**
  Training one tree, both parties in lockstep.  Each party is a Builder with its own shares and
  its own indicators; where the source runs a two-party functionality the method takes both
  builders.  Gains are not modelled: the bucket each node is split on is an arbitrary input.
 */
module TreeBuilder {
  import opened Arith
  import opened FiniteSets
  import opened Ring
  import opened Binning
  import opened BinMatVec
  import opened TreeBuildWorker
  import opened TreeSpec

  /** A gradient and a hessian vector, or their histograms. */
  datatype GH = GH(g: Vec, h: Vec)

  predicate SameShape(a: GH, b: GH) {
    |a.g| == |b.g| && |a.h| == |b.h|
  }

  /** Right is parent minus left. */
  function Minus(a: GH, b: GH): GH {
    if SameShape(a, b) then GH(SubV(a.g, b.g), SubV(a.h, b.h)) else a
  }

  datatype Split = Split(self: bool, feature: nat, threshold: Ext)

  /** unordered_map::insert leaves an existing entry alone. */
  function Inserted<V>(m: map<nat, V>, k: nat, v: V): (r: map<nat, V>)
    ensures k in m ==> r == m
    ensures r.Keys == m.Keys + {k} && (k !in m ==> r[k] == v) && forall j :: j in m ==> r[j] == m[j]
  {
    if k in m then m else m[k := v]
  }

  /** A child's indicator: the parent's, cut down by the side each sample takes. */
  function ChildIndicator(p: seq<bool>, b: seq<bool>, left: bool): (r: seq<bool>)
    ensures |r| == |b|
    ensures forall i :: 0 <= i < |b| ==> (r[i] <==> Keeps(p, i) && b[i] == left)
  {
    seq(|b|, i requires 0 <= i < |b| => Keeps(p, i) && b[i] == left)
  }

  /** What party r records about a decision. */
  function SplitFor(run: Run, r: nat, c: Choice): Split {
    var d := run.Data(c.owner);
    if c.owner == r && HasThreshold(d, c.bucket) then Split(true, c.bucket / d.bucketSize, d.thresholds[c.bucket / d.bucketSize][c.bucket % d.bucketSize])
    else Split(false, 0, Fin(0.0))
  }

  class Builder {
    const rank: nat
    const maxDepth: nat
    const nsamples: nat
    var splitIdentifiers: seq<seq<Split>>
    var leafWeights: seq<Vec>
    var cachedGh: map<nat, GH>
    var cachedGHs: map<nat, GH>
    var sampleIndicators: map<nat, seq<bool>>

    constructor (rank: nat, maxDepth: nat, nsamples: nat)
      requires maxDepth > 1 && nsamples >= 1
      ensures this.rank == rank && this.maxDepth == maxDepth && this.nsamples == nsamples
      ensures splitIdentifiers == [] && leafWeights == []
      ensures cachedGh == map[] && cachedGHs == map[] && sampleIndicators == map[]
    {
      this.rank, this.maxDepth, this.nsamples := rank, maxDepth, nsamples;
      splitIdentifiers, leafWeights := [], [];
      cachedGh, cachedGHs, sampleIndicators := map[], map[], map[];
    }

    /**
      Starts a new tree.  Without subsampling the mask is empty, which stands for all ones;
      with it, each party draws its own.
     */
    method InitGradients(gradient: Vec, hessian: Vec, mask: seq<bool>)
      modifies this`cachedGh, this`cachedGHs, this`sampleIndicators
      ensures cachedGh == map[1 := GH(gradient, hessian)]
      ensures cachedGHs == map[]
      ensures sampleIndicators == map[1 := mask]
    {
      cachedGh := map[1 := GH(gradient, hessian)];
      cachedGHs := map[];
      sampleIndicators := map[1 := mask];
    }

    /**
      This party's half of a split.  The owner of the bucket cuts its indicator in two along b and
      records feature and threshold; the other party hands its indicator to both children.
     */
    method ApplySplit(nidx: nat, mine: bool, b: seq<bool>, info: Split)
      requires nidx >= 1 && nidx in sampleIndicators && splitIdentifiers != []
      requires 2 * nidx !in sampleIndicators && 2 * nidx + 1 !in sampleIndicators
      requires mine ==> sampleIndicators[nidx] == [] || |sampleIndicators[nidx]| == |b|
      modifies this`sampleIndicators, this`splitIdentifiers
      ensures sampleIndicators == Replaced(old(sampleIndicators), nidx,
        Side(old(sampleIndicators)[nidx], mine, b, true), Side(old(sampleIndicators)[nidx], mine, b, false))
      ensures splitIdentifiers == Appended(old(splitIdentifiers), info)
    {
      var p := sampleIndicators[nidx];
      if mine {
        var lchild := seq(|b|, i requires 0 <= i < |b| => Keeps(p, i) && b[i]);
        var rchild := seq(|b|, i requires 0 <= i < |b| => Keeps(p, i) && !lchild[i]);
        assert lchild == ChildIndicator(p, b, true) && rchild == ChildIndicator(p, b, false);
        sampleIndicators := Inserted(Inserted(sampleIndicators - {nidx}, 2 * nidx, lchild), 2 * nidx + 1, rchild);
      } else {
        sampleIndicators := Inserted(Inserted(sampleIndicators - {nidx}, 2 * nidx, p), 2 * nidx + 1, p);
      }
      var last := |splitIdentifiers| - 1;
      splitIdentifiers := splitIdentifiers[last := splitIdentifiers[last] + [info]];
    }

    /** Right gradient is parent gradient minus left gradient; the parent's entry goes. */
    method InstallChildren(nidx: nat, left: GH)
      requires nidx >= 1 && nidx in cachedGh
      requires 2 * nidx !in cachedGh && 2 * nidx + 1 !in cachedGh
      requires SameShape(cachedGh[nidx], left)
      modifies this`cachedGh
      ensures cachedGh == Replaced(old(cachedGh), nidx, left, Minus(old(cachedGh)[nidx], left))
    {
      var parent := cachedGh[nidx];
      var right := Minus(parent, left);
      cachedGh := cachedGh - {nidx};
      cachedGh := Inserted(Inserted(cachedGh, 2 * nidx, left), 2 * nidx + 1, right);
    }

    /** Files a left node's histogram and, by subtraction from the parent's, its sibling's. */
    method InstallHistograms(idx: nat, left: GH)
      requires idx !in cachedGHs && idx + 1 !in cachedGHs
      requires idx / 2 in cachedGHs ==> idx % 2 == 0 && idx / 2 != idx
      requires idx / 2 in cachedGHs ==> SameShape(cachedGHs[idx / 2], left)
      modifies this`cachedGHs
      ensures idx / 2 !in old(cachedGHs) ==> cachedGHs == old(cachedGHs)[idx := left]
      ensures idx / 2 in old(cachedGHs) ==> (
        cachedGHs == Replaced(old(cachedGHs), idx / 2, left, Minus(old(cachedGHs)[idx / 2], left)))
    {
      cachedGHs := Inserted(cachedGHs, idx, left);
      var parentIdx := idx / 2;
      if parentIdx !in cachedGHs || parentIdx == idx {
        return;
      }
      var parent := cachedGHs[parentIdx];
      var right := Minus(parent, left);
      cachedGHs := cachedGHs - {parentIdx};
      cachedGHs := Inserted(cachedGHs, idx + 1, right);
    }
  }

  // ---- multiplying a shared vector by one party's private bits ----

  /** Correlated OT, ideal: the receiver's result exceeds the sender's by corr where it chose 1. */
  method Cot(corr: Vec, choice: seq<bool>) returns (sent: Vec, recv: Vec)
    requires |corr| == |choice|
    ensures IsVec(sent, |corr|) && IsVec(recv, |corr|)
    ensures forall i :: 0 <= i < |corr| ==> recv[i] == Mod(sent[i] + if choice[i] then corr[i] else 0)
  {
    var pad: int -> int := *;
    sent := seq(|corr|, i => Mod(pad(i)));
    assert forall i :: 0 <= i < |corr| ==> sent[i] == Mod(pad(i));
    recv := seq(|corr|, i requires 0 <= i < |corr| => Mod(sent[i] + if choice[i] then corr[i] else 0));
  }

  /** z0 + z1 is (x0 + x1) where the receiver's bit is 1 and zero elsewhere. */
  method MulArithShareWithPrivateBoolean(xs: Vec, xr: Vec, b: seq<bool>) returns (zs: Vec, zr: Vec)
    requires |xs| == |xr| == |b|
    ensures IsVec(zs, |b|) && IsVec(zr, |b|)
    ensures forall i :: 0 <= i < |b| ==> AddV(zs, zr)[i] == if b[i] then AddV(xs, xr)[i] else 0
  {
    var sent, recv := Cot(xs, b);
    zs := seq(|b|, i requires 0 <= i < |b| => Mod(0 - sent[i]));
    zr := seq(|b|, i requires 0 <= i < |b| => Mod((if b[i] then xr[i] else 0) + recv[i]));
    forall i | 0 <= i < |b|
      ensures AddV(zs, zr)[i] == if b[i] then AddV(xs, xr)[i] else 0
    {
      CotCancels(sent[i], xs[i], xr[i], b[i]);
    }
  }

  lemma CotCancels(r: int, xs: int, xr: int, b: bool)
    ensures Mod(Mod(0 - r) + Mod((if b then xr else 0) + Mod(r + if b then xs else 0)))
         == if b then Mod(xs + xr) else 0
  {
    var x, y := if b then xs else 0, if b then xr else 0;
    CancelMask(r, x, y);
    ModSmall(0);
  }

  lemma CancelMask(r: int, x: int, y: int)
    ensures Mod(Mod(0 - r) + Mod(y + Mod(r + x))) == Mod(x + y)
  {
    hide Mod;
    var t := Mod(r + x);
    ModIdem(r + x);
    AddCong(y, y, t, r + x);
    ModInside(0 - r, y + t);
    AddCong(0 - r, 0 - r, y + t, y + (r + x));
    assert 0 - r + (y + (r + x)) == x + y;
  }

  // ---- invariants ----

  /** Party r's indicator at a node: its root mask and its own decisions, nothing else. */
  ghost predicate IndicatorOk(run: Run, r: nat, cs: seq<Choice>, nd: nat, ind: seq<bool>) {
    && (ind == [] || |ind| == run.d0.n)
    && forall i :: 0 <= i < run.d0.n ==> (Keeps(ind, i) <==> i in run.Root(r) && run.Path(r, cs, nd, i))
  }

  /** The shares cached at a node open to the root gradients of the samples routed there. */
  ghost predicate SharesOk(run: Run, cs: seq<Choice>, nd: nat, a: GH, b: GH) {
    && |a.g| == |b.g| == |a.h| == |b.h| == run.d0.n
    && AddV(a.g, b.g) == run.NodeVec(run.rootG, cs, nd)
    && AddV(a.h, b.h) == run.NodeVec(run.rootH, cs, nd)
  }

  /** Likewise the histograms. */
  ghost predicate HistogramsOk(run: Run, cs: seq<Choice>, nd: nat, a: GH, b: GH) {
    && |a.g| == |b.g| == |a.h| == |b.h| == run.d0.NumBuckets() + run.d1.NumBuckets()
    && AddV(a.g, b.g) == run.NodeHistogram(run.rootG, cs, nd)
    && AddV(a.h, b.h) == run.NodeHistogram(run.rootH, cs, nd)
  }

  ghost predicate NodeOk(run: Run, cs: seq<Choice>, nd: nat, ind0: seq<bool>, ind1: seq<bool>, gh0: GH, gh1: GH) {
    && run.Exists(cs, nd)
    && IndicatorOk(run, 0, cs, nd, ind0)
    && IndicatorOk(run, 1, cs, nd, ind1)
    && SharesOk(run, cs, nd, gh0, gh1)
  }

  /** Exactly the open nodes are cached, by both parties, and each entry is right. */
  ghost predicate FrontOk(run: Run, cs: seq<Choice>, front: set<nat>,
                          ind0: map<nat, seq<bool>>, ind1: map<nat, seq<bool>>,
                          gh0: map<nat, GH>, gh1: map<nat, GH>) {
    && ind0.Keys == ind1.Keys == gh0.Keys == gh1.Keys == front
    && forall nd :: nd in front ==> NodeOk(run, cs, nd, ind0[nd], ind1[nd], gh0[nd], gh1[nd])
  }

  ghost predicate HistsOk(run: Run, cs: seq<Choice>, front: set<nat>, H0: map<nat, GH>, H1: map<nat, GH>) {
    && H0.Keys == H1.Keys == front
    && forall nd :: nd in front ==> HistogramAt(run, cs, nd, H0, H1)
  }

  ghost predicate HistogramAt(run: Run, cs: seq<Choice>, nd: nat, H0: map<nat, GH>, H1: map<nat, GH>) {
    nd in H0 && nd in H1 && run.Exists(cs, nd) && HistogramsOk(run, cs, nd, H0[nd], H1[nd])
  }

  /** Every decision has a threshold, and both parties recorded it. */
  ghost predicate SplitsOk(run: Run, cs: seq<Choice>, s0: seq<Split>, s1: seq<Split>) {
    && |s0| == |s1| == |cs|
    && forall k :: 1 <= k < |cs| ==>
         && HasThreshold(run.Data(cs[k].owner), cs[k].bucket)
         && s0[k] == SplitFor(run, 0, cs[k])
         && s1[k] == SplitFor(run, 1, cs[k])
  }

  ghost predicate Parties(run: Run, p0: Builder, p1: Builder, w0: Worker, w1: Worker)
    reads w0, w1
  {
    && run.Valid() && p0 != p1 && p0.rank == 0 && p1.rank == 1
    && p0.maxDepth == p1.maxDepth >= 1 && p0.nsamples == p1.nsamples == run.d0.n
    && w0.Valid() && w1.Valid() && w0.View() == run.d0 && w1.View() == run.d1
  }

  /** The joint state of the two builders when a level is about to be trained. */
  ghost predicate Open(run: Run, cs: seq<Choice>, front: set<nat>, p0: Builder, p1: Builder)
    reads p0`sampleIndicators, p0`cachedGh, p0`splitIdentifiers, p1`sampleIndicators, p1`cachedGh, p1`splitIdentifiers
  {
    && FrontOk(run, cs, front, p0.sampleIndicators, p1.sampleIndicators, p0.cachedGh, p1.cachedGh)
    && p0.splitIdentifiers != [] && p1.splitIdentifiers != []
    && SplitsOk(run, cs, Last(p0.splitIdentifiers), Last(p1.splitIdentifiers))
  }

  function Last<T>(s: seq<T>): T
    requires s != []
  {
    s[|s| - 1]
  }

  // ---- one split ----

  ghost predicate LeftBits(run: Run, c: Choice, b: seq<bool>) {
    |b| == run.d0.n && forall i :: 0 <= i < run.d0.n ==> (b[i] <==> run.Left(c, i))
  }

  lemma PathOfChild(run: Run, r: nat, cs: seq<Choice>, c: Choice, left: bool, child: nat, i: nat)
    requires |cs| >= 1 && r < 2 && child == if left then 2 * |cs| else 2 * |cs| + 1
    ensures run.Path(r, cs + [c], child, i)
      == (run.Path(r, cs, |cs|, i) && (c.owner == r ==> left == run.Left(c, i)))
  {
    assert child / 2 == |cs| && (child % 2 == 0) == left;
    run.DecisionsAppend(cs, cs + [c], |cs|, i);
  }

  /** The owner cuts its indicator down; the other party's stays as it is. */
  lemma ChildIndicatorOk(run: Run, r: nat, cs: seq<Choice>, c: Choice, left: bool, child: nat,
                         ind: seq<bool>, b: seq<bool>)
    requires |cs| >= 1 && r < 2 && child == if left then 2 * |cs| else 2 * |cs| + 1
    requires run.d0.n > 0 && IndicatorOk(run, r, cs, |cs|, ind)
    requires c.owner == r ==> LeftBits(run, c, b)
    ensures IndicatorOk(run, r, cs + [c], child, Side(ind, c.owner == r, b, left))
  {
    var mine := Side(ind, c.owner == r, b, left);
    forall i | 0 <= i < run.d0.n
      ensures Keeps(mine, i) <==> i in run.Root(r) && run.Path(r, cs + [c], child, i)
    {
      PathOfChild(run, r, cs, c, left, child, i);
      assert Keeps(ind, i) <==> i in run.Root(r) && run.Path(r, cs, |cs|, i);
    }
  }

  lemma ChildShares(run: Run, cs: seq<Choice>, c: Choice, v: Vec, x0: Vec, x1: Vec, l0: Vec, l1: Vec)
    requires |cs| >= 1 && IsVec(v, run.d0.n)
    requires |x0| == |x1| == |l0| == |l1| == run.d0.n
    requires AddV(x0, x1) == run.NodeVec(v, cs, |cs|)
    requires forall i :: 0 <= i < run.d0.n ==>
      AddV(l0, l1)[i] == if run.Left(c, i) then AddV(x0, x1)[i] else 0
    ensures AddV(l0, l1) == run.NodeVec(v, cs + [c], 2 * |cs|)
    ensures AddV(SubV(x0, l0), SubV(x1, l1)) == run.NodeVec(v, cs + [c], 2 * |cs| + 1)
  {
    var cs', nd := cs + [c], |cs|;
    run.NodeVecAppend(v, cs, cs', nd);
    forall i | 0 <= i < run.d0.n
      ensures AddV(l0, l1)[i] == run.NodeVec(v, cs', 2 * nd)[i]
    {
      run.LeftChildVec(v, cs', nd, i);
    }
    run.RightChildVec(v, cs', nd);
    SubOfShares(x0, x1, l0, l1);
  }

  lemma OthersKept(run: Run, cs: seq<Choice>, c: Choice, nd: nat, ind0: seq<bool>, ind1: seq<bool>, gh0: GH, gh1: GH)
    requires NodeOk(run, cs, nd, ind0, ind1, gh0, gh1)
    ensures NodeOk(run, cs + [c], nd, ind0, ind1, gh0, gh1)
  {
    forall i | 0 <= i < run.d0.n
      ensures run.Path(0, cs, nd, i) == run.Path(0, cs + [c], nd, i)
      ensures run.Path(1, cs, nd, i) == run.Path(1, cs + [c], nd, i)
    {
      run.DecisionsAppend(cs, cs + [c], nd, i);
    }
    run.NodeVecAppend(run.rootG, cs, cs + [c], nd);
    run.NodeVecAppend(run.rootH, cs, cs + [c], nd);
  }

  /** What erasing a node and inserting its two children does to a cache. */
  function Replaced<V>(m: map<nat, V>, nd: nat, l: V, r: V): map<nat, V> {
    (m - {nd})[2 * nd := l][2 * nd + 1 := r]
  }

  /** The open nodes after nd was split. */
  function Advanced(front: set<nat>, nd: nat): set<nat> {
    front - {nd} + {2 * nd, 2 * nd + 1}
  }

  lemma ReplacedEntries<V>(m: map<nat, V>, nd: nat, l: V, r: V)
    requires nd >= 1 && nd in m && 2 * nd !in m && 2 * nd + 1 !in m
    ensures Replaced(m, nd, l, r).Keys == Advanced(m.Keys, nd)
    ensures Replaced(m, nd, l, r)[2 * nd] == l && Replaced(m, nd, l, r)[2 * nd + 1] == r
    ensures forall k :: k in m && k != nd ==> k in Replaced(m, nd, l, r) && Replaced(m, nd, l, r)[k] == m[k]
  {
  }

  /** Replacing an open node by its two children keeps the front right. */
  lemma NodeSplit(run: Run, cs: seq<Choice>, c: Choice, front: set<nat>,
                  i0: map<nat, seq<bool>>, i1: map<nat, seq<bool>>, g0: map<nat, GH>, g1: map<nat, GH>,
                  b: seq<bool>, l0: GH, l1: GH)
    requires run.Valid() && c.owner < 2 && |cs| >= 1 && FrontOk(run, cs, front, i0, i1, g0, g1)
    requires |cs| in front && 2 * |cs| !in front && 2 * |cs| + 1 !in front
    requires |cs| in i0 && |cs| in i1 && |cs| in g0 && |cs| in g1
    requires LeftBits(run, c, b) && GradientsCut(run, c, g0[|cs|], g1[|cs|], l0, l1)
    requires SameShape(g0[|cs|], l0) && SameShape(g1[|cs|], l1)
    ensures FrontOk(run, cs + [c], Advanced(front, |cs|),
                    Replaced(i0, |cs|, Side(i0[|cs|], c.owner == 0, b, true), Side(i0[|cs|], c.owner == 0, b, false)),
                    Replaced(i1, |cs|, Side(i1[|cs|], c.owner == 1, b, true), Side(i1[|cs|], c.owner == 1, b, false)),
                    Replaced(g0, |cs|, l0, Minus(g0[|cs|], l0)), Replaced(g1, |cs|, l1, Minus(g1[|cs|], l1)))
  {
    hide Run.Valid, NodeOk, Replaced, Advanced, Side, LeftBits, GradientsCut;
    var nd := |cs|;
    assert NodeOk(run, cs, nd, i0[nd], i1[nd], g0[nd], g1[nd]);
    ChildrenOk(run, cs, c, i0[nd], i1[nd], g0[nd], g1[nd], b, l0, l1);
    FrontSplit(run, cs, c, front, i0, i1, g0, g1,
               Side(i0[nd], c.owner == 0, b, true), Side(i0[nd], c.owner == 0, b, false),
               Side(i1[nd], c.owner == 1, b, true), Side(i1[nd], c.owner == 1, b, false),
               l0, Minus(g0[nd], l0), l1, Minus(g1[nd], l1));
  }

  lemma FrontSplit(run: Run, cs: seq<Choice>, c: Choice, front: set<nat>,
                   i0: map<nat, seq<bool>>, i1: map<nat, seq<bool>>, g0: map<nat, GH>, g1: map<nat, GH>,
                   il0: seq<bool>, ir0: seq<bool>, il1: seq<bool>, ir1: seq<bool>, gl0: GH, gr0: GH, gl1: GH, gr1: GH)
    requires |cs| >= 1 && FrontOk(run, cs, front, i0, i1, g0, g1)
    requires |cs| in front && 2 * |cs| !in front && 2 * |cs| + 1 !in front
    requires NodeOk(run, cs + [c], 2 * |cs|, il0, il1, gl0, gl1)
    requires NodeOk(run, cs + [c], 2 * |cs| + 1, ir0, ir1, gr0, gr1)
    ensures FrontOk(run, cs + [c], Advanced(front, |cs|),
                    Replaced(i0, |cs|, il0, ir0), Replaced(i1, |cs|, il1, ir1),
                    Replaced(g0, |cs|, gl0, gr0), Replaced(g1, |cs|, gl1, gr1))
  {
    hide NodeOk, Replaced;
    var nd := |cs|;
    ReplacedEntries(i0, nd, il0, ir0);
    ReplacedEntries(i1, nd, il1, ir1);
    ReplacedEntries(g0, nd, gl0, gr0);
    ReplacedEntries(g1, nd, gl1, gr1);
    forall k | k in front && k != nd
      ensures NodeOk(run, cs + [c], k, Replaced(i0, nd, il0, ir0)[k], Replaced(i1, nd, il1, ir1)[k],
                     Replaced(g0, nd, gl0, gr0)[k], Replaced(g1, nd, gl1, gr1)[k])
    {
      OthersKept(run, cs, c, k, i0[k], i1[k], g0[k], g1[k]);
    }
  }

  lemma ChildrenOk(run: Run, cs: seq<Choice>, c: Choice, ind0: seq<bool>, ind1: seq<bool>, gh0: GH, gh1: GH,
                   b: seq<bool>, l0: GH, l1: GH)
    requires run.Valid() && c.owner < 2 && |cs| >= 1
    requires NodeOk(run, cs, |cs|, ind0, ind1, gh0, gh1)
    requires LeftBits(run, c, b) && GradientsCut(run, c, gh0, gh1, l0, l1)
    ensures NodeOk(run, cs + [c], 2 * |cs|, Side(ind0, c.owner == 0, b, true), Side(ind1, c.owner == 1, b, true), l0, l1)
    ensures NodeOk(run, cs + [c], 2 * |cs| + 1, Side(ind0, c.owner == 0, b, false), Side(ind1, c.owner == 1, b, false),
                   Minus(gh0, l0), Minus(gh1, l1))
  {
    ChildIndicatorOk(run, 0, cs, c, true, 2 * |cs|, ind0, b);
    ChildIndicatorOk(run, 1, cs, c, true, 2 * |cs|, ind1, b);
    ChildIndicatorOk(run, 0, cs, c, false, 2 * |cs| + 1, ind0, b);
    ChildIndicatorOk(run, 1, cs, c, false, 2 * |cs| + 1, ind1, b);
    ChildShares(run, cs, c, run.rootG, gh0.g, gh1.g, l0.g, l1.g);
    ChildShares(run, cs, c, run.rootH, gh0.h, gh1.h, l0.h, l1.h);
    hide IndicatorOk, Side;
  }

  /** l0 and l1 share the parent's vectors restricted to the samples that go left. */
  ghost predicate GradientsCut(run: Run, c: Choice, gh0: GH, gh1: GH, l0: GH, l1: GH) {
    && |gh0.g| == |gh1.g| == |l0.g| == |l1.g| == run.d0.n
    && |gh0.h| == |gh1.h| == |l0.h| == |l1.h| == run.d0.n
    && (forall i :: 0 <= i < run.d0.n ==> AddV(l0.g, l1.g)[i] == if run.Left(c, i) then AddV(gh0.g, gh1.g)[i] else 0)
    && (forall i :: 0 <= i < run.d0.n ==> AddV(l0.h, l1.h)[i] == if run.Left(c, i) then AddV(gh0.h, gh1.h)[i] else 0)
  }

  /** Both calls of UpdateGradient, for both parties: the holder of the bits receives. */
  method UpdateGradients(owner: nat, gh0: GH, gh1: GH, b: seq<bool>, ghost run: Run, ghost c: Choice)
    returns (l0: GH, l1: GH)
    requires c.owner == owner < 2
    requires |gh0.g| == |gh1.g| == |gh0.h| == |gh1.h| == run.d0.n && LeftBits(run, c, b)
    ensures GradientsCut(run, c, gh0, gh1, l0, l1)
  {
    if owner == 0 {
      var zg1, zg0 := MulArithShareWithPrivateBoolean(gh1.g, gh0.g, b);
      var zh1, zh0 := MulArithShareWithPrivateBoolean(gh1.h, gh0.h, b);
      l0, l1 := GH(zg0, zh0), GH(zg1, zh1);
      AddVCommutes(zg0, zg1);
      AddVCommutes(zh0, zh1);
      AddVCommutes(gh0.g, gh1.g);
      AddVCommutes(gh0.h, gh1.h);
    } else {
      var zg0, zg1 := MulArithShareWithPrivateBoolean(gh0.g, gh1.g, b);
      var zh0, zh1 := MulArithShareWithPrivateBoolean(gh0.h, gh1.h, b);
      l0, l1 := GH(zg0, zh0), GH(zg1, zh1);
    }
  }

  lemma SplitsAppend(run: Run, cs: seq<Choice>, c: Choice, s0: seq<Split>, s1: seq<Split>)
    requires SplitsOk(run, cs, s0, s1) && HasThreshold(run.Data(c.owner), c.bucket)
    ensures SplitsOk(run, cs + [c], s0 + [SplitFor(run, 0, c)], s1 + [SplitFor(run, 1, c)])
  {
  }

  /** What a child of the node gets as indicator from a party: cut down by the owner only. */
  function Side(ind: seq<bool>, mine: bool, b: seq<bool>, left: bool): seq<bool> {
    if mine then ChildIndicator(ind, b, left) else ind
  }

  /** The newest tree's record grown by one entry. */
  function Appended(s: seq<seq<Split>>, info: Split): seq<seq<Split>> {
    if s == [] then [] else s[|s| - 1 := s[|s| - 1] + [info]]
  }

  /** What the owner of a bucket looks up to split on it; fails when the bucket has no threshold. */
  method LookUp(w: Worker, target: nat, ghost run: Run, ghost c: Choice) returns (ok: bool, b: seq<bool>, info: Split)
    requires run.Valid() && run.InRange(c) && c.bucket == target
    requires w.Valid() && w.View() == run.Data(c.owner)
    ensures ok <==> HasThreshold(run.Data(c.owner), target)
    ensures ok ==> LeftBits(run, c, b) && info == SplitFor(run, c.owner, c)
  {
    b, info := [], Split(false, 0, Fin(0.0));
    var found, feature, threshold := w.SplitInfo(target);
    if !found {
      return false, b, info;
    }
    info := Split(true, feature, threshold);
    ok, b := w.PotentialLeftIndicator(target);
  }

  /** The two parties' work on one node, as updates of their caches. */
  method SplitHalves(p0: Builder, p1: Builder, w0: Worker, w1: Worker, nidx: nat, ghost run: Run, c: Choice)
    returns (ok: bool, ghost b: seq<bool>, ghost l0: GH, ghost l1: GH)
    requires run.Valid() && p0 != p1 && p0.splitIdentifiers != [] && p1.splitIdentifiers != []
    requires w0.Valid() && w1.Valid() && w0.View() == run.d0 && w1.View() == run.d1
    requires run.InRange(c)
    requires nidx >= 1 && Splittable(p0, nidx, run.d0.n) && Splittable(p1, nidx, run.d0.n)
    modifies p0`sampleIndicators, p0`splitIdentifiers, p0`cachedGh
    modifies p1`sampleIndicators, p1`splitIdentifiers, p1`cachedGh
    ensures ok <==> HasThreshold(run.Data(c.owner), c.bucket)
    ensures ok ==> LeftBits(run, c, b) && |b| == run.d0.n
    ensures ok ==> GradientsCut(run, c, old(p0.cachedGh)[nidx], old(p1.cachedGh)[nidx], l0, l1)
    ensures ok ==> SameShape(old(p0.cachedGh)[nidx], l0) && SameShape(old(p1.cachedGh)[nidx], l1)
    ensures ok ==> (
      p0.sampleIndicators == Replaced(old(p0.sampleIndicators), nidx,
        Side(old(p0.sampleIndicators)[nidx], c.owner == 0, b, true), Side(old(p0.sampleIndicators)[nidx], c.owner == 0, b, false)))
    ensures ok ==> (
      p1.sampleIndicators == Replaced(old(p1.sampleIndicators), nidx,
        Side(old(p1.sampleIndicators)[nidx], c.owner == 1, b, true), Side(old(p1.sampleIndicators)[nidx], c.owner == 1, b, false)))
    ensures ok ==> p0.cachedGh == Replaced(old(p0.cachedGh), nidx, l0, Minus(old(p0.cachedGh)[nidx], l0))
    ensures ok ==> p1.cachedGh == Replaced(old(p1.cachedGh), nidx, l1, Minus(old(p1.cachedGh)[nidx], l1))
    ensures ok ==> p0.splitIdentifiers == Appended(old(p0.splitIdentifiers), SplitFor(run, 0, c))
    ensures ok ==> p1.splitIdentifiers == Appended(old(p1.splitIdentifiers), SplitFor(run, 1, c))
  {
    var parent0, parent1 := p0.cachedGh[nidx], p1.cachedGh[nidx];
    var ok', b', info := LookUp(if c.owner == 0 then w0 else w1, c.bucket, run, c);
    ok, b, l0, l1 := ok', b', parent0, parent1;
    if !ok {
      return;
    }
    hide MapFor, ThresholdsFor, Replaced, Side, Appended;
    var left0, left1 := UpdateGradients(c.owner, parent0, parent1, b', run, c);
    l0, l1 := left0, left1;
    hide GradientsCut, LeftBits;
    var none := Split(false, 0, Fin(0.0));
    p0.ApplySplit(nidx, c.owner == 0, b', if c.owner == 0 then info else none);
    p1.ApplySplit(nidx, c.owner == 1, b', if c.owner == 1 then info else none);
    p0.InstallChildren(nidx, left0);
    p1.InstallChildren(nidx, left1);
  }

  ghost predicate Splittable(p: Builder, nidx: nat, n: nat)
    reads p
  {
    && nidx in p.sampleIndicators && 2 * nidx !in p.sampleIndicators && 2 * nidx + 1 !in p.sampleIndicators
    && nidx in p.cachedGh && 2 * nidx !in p.cachedGh && 2 * nidx + 1 !in p.cachedGh
    && (p.sampleIndicators[nidx] == [] || |p.sampleIndicators[nidx]| == n)
    && |p.cachedGh[nidx].g| == |p.cachedGh[nidx].h| == n
  }

  lemma OpenNodeSplittable(run: Run, cs: seq<Choice>, front: set<nat>, p0: Builder, p1: Builder, nd: nat)
    requires Open(run, cs, front, p0, p1)
    requires nd in front && 2 * nd !in front && 2 * nd + 1 !in front
    ensures Splittable(p0, nd, run.d0.n) && Splittable(p1, nd, run.d0.n) && nd >= 1
    ensures NodeOk(run, cs, nd, p0.sampleIndicators[nd], p1.sampleIndicators[nd], p0.cachedGh[nd], p1.cachedGh[nd])
  {
    assert NodeOk(run, cs, nd, p0.sampleIndicators[nd], p1.sampleIndicators[nd], p0.cachedGh[nd], p1.cachedGh[nd]);
  }

  function JointChoice(d0: PartyData, j: nat): Choice {
    Choice(Owner(d0, j), MapBucket(d0, j))
  }

  lemma JointChoiceInRange(run: Run, cs: seq<Choice>, j: nat)
    requires run.Decided(cs) && j < run.d0.NumBuckets() + run.d1.NumBuckets()
    ensures run.Decided(cs + [JointChoice(run.d0, j)]) && run.InRange(JointChoice(run.d0, j))
    ensures JointChoice(run.d0, j).owner < 2
    ensures ThresholdAt(run, j) <==> HasThreshold(run.Data(JointChoice(run.d0, j).owner), JointChoice(run.d0, j).bucket)
  {
  }

  lemma AppendedKeepsOlder(s: seq<seq<Split>>, info: Split)
    requires s != []
    ensures OlderTreesKept(s, Appended(s, info))
    ensures Last(Appended(s, info)) == Last(s) + [info]
  {
  }

  /** Splits the next open node on joint bucket j. */
  method SplitNode(p0: Builder, p1: Builder, w0: Worker, w1: Worker, nidx: nat, j: nat,
                   ghost run: Run, ghost cs: seq<Choice>, ghost front: set<nat>)
    returns (ok: bool, ghost cs': seq<Choice>)
    requires Parties(run, p0, p1, w0, w1) && run.Decided(cs) && Open(run, cs, front, p0, p1)
    requires nidx == |cs| && nidx in front && 2 * nidx !in front && 2 * nidx + 1 !in front
    requires j < run.d0.NumBuckets() + run.d1.NumBuckets()
    modifies p0`sampleIndicators, p0`splitIdentifiers, p0`cachedGh
    modifies p1`sampleIndicators, p1`splitIdentifiers, p1`cachedGh
    ensures cs' == cs + [JointChoice(run.d0, j)] && run.Decided(cs')
    ensures ok <==> ThresholdAt(run, j)
    ensures ok ==> Open(run, cs', Advanced(front, nidx), p0, p1)
    ensures ok ==> OlderTreesKept(old(p0.splitIdentifiers), p0.splitIdentifiers)
    ensures ok ==> OlderTreesKept(old(p1.splitIdentifiers), p1.splitIdentifiers)
  {
    var nbuckets0 := w0.nfeatures * w0.bucketSize;
    var belongsTo := if j > nbuckets0 - 1 then 1 else 0;
    var target := if j >= nbuckets0 then j - nbuckets0 else j;
    var c := Choice(belongsTo, target);
    cs' := cs + [c];
    ghost var i0, i1, g0, g1 := p0.sampleIndicators, p1.sampleIndicators, p0.cachedGh, p1.cachedGh;
    ghost var s0, s1 := p0.splitIdentifiers, p1.splitIdentifiers;
    OpenNodeSplittable(run, cs, front, p0, p1, nidx);
    JointChoiceInRange(run, cs, j);
    assert c == JointChoice(run.d0, j);
    hide JointChoice, HasThreshold, Run.Decided, Run.Data;
    hide NodeOk, FrontOk, SplitsOk, Replaced, Advanced, MapFor, ThresholdsFor, LeftBits, GradientsCut;
    hide ChildIndicator, SplitFor, Appended, OlderTreesKept, Side, ThresholdAt;
    ghost var b, l0, l1;
    ok, b, l0, l1 := SplitHalves(p0, p1, w0, w1, nidx, run, c);
    if ok {
      NodeSplit(run, cs, c, front, i0, i1, g0, g1, b, l0, l1);
      SplitsAppend(run, cs, c, Last(s0), Last(s1));
      AppendedKeepsOlder(s0, SplitFor(run, 0, c));
      AppendedKeepsOlder(s1, SplitFor(run, 1, c));
    }
  }

  /** Only the newest tree's record changed, and only by growing. */
  ghost predicate OlderTreesKept(was: seq<seq<Split>>, now: seq<seq<Split>>) {
    && |was| == |now| >= 1
    && was[..|was| - 1] == now[..|now| - 1]
    && Last(was) <= Last(now)
  }

  // ---- one level ----

  /** The open nodes of a level when i of its nodes, starting at bgn, are split already. */
  function MidLevel(bgn: nat, i: nat): set<nat> {
    Range(bgn + i, 2 * bgn) + Range(2 * bgn, 2 * (bgn + i))
  }

  lemma MidLevelEnds(bgn: nat)
    ensures MidLevel(bgn, 0) == Range(bgn, 2 * bgn) && MidLevel(bgn, bgn) == Range(2 * bgn, 4 * bgn)
  {
  }

  lemma MidLevelAdvances(bgn: nat, i: nat)
    requires i < bgn
    ensures bgn + i in MidLevel(bgn, i)
    ensures 2 * (bgn + i) !in MidLevel(bgn, i) && 2 * (bgn + i) + 1 !in MidLevel(bgn, i)
    ensures Advanced(MidLevel(bgn, i), bgn + i) == MidLevel(bgn, i + 1)
  {
    var a, b := Advanced(MidLevel(bgn, i), bgn + i), MidLevel(bgn, i + 1);
    forall k: nat
      ensures k in a <==> k in b
    {
      assert k in Range(bgn + i, 2 * bgn) <==> bgn + i <= k < 2 * bgn;
      assert k in Range(bgn + i + 1, 2 * bgn) <==> bgn + i + 1 <= k < 2 * bgn;
    }
  }

  lemma OlderTreesTransitive(a: seq<seq<Split>>, b: seq<seq<Split>>, c: seq<seq<Split>>)
    requires OlderTreesKept(a, b) && OlderTreesKept(b, c)
    ensures OlderTreesKept(a, c)
  {
  }

  function Decisions(d0: PartyData, pick: seq<nat>): (cs: seq<Choice>)
    ensures |cs| == |pick|
  {
    seq(|pick|, i requires 0 <= i < |pick| => JointChoice(d0, pick[i]))
  }

  /** Every chosen bucket has a threshold. */
  ghost predicate AllHaveThresholds(run: Run, pick: seq<nat>) {
    forall i :: 0 <= i < |pick| ==> ThresholdAt(run, pick[i])
  }

  ghost predicate ThresholdAt(run: Run, j: nat) {
    HasThreshold(run.Data(Owner(run.d0, j)), MapBucket(run.d0, j))
  }

  method SplitLevel(p0: Builder, p1: Builder, w0: Worker, w1: Worker, bgn: nat, pick: seq<nat>,
                    ghost run: Run, ghost cs: seq<Choice>)
    returns (ok: bool, ghost cs': seq<Choice>)
    requires run.Valid() && p0 != p1 && Parties(run, p0, p1, w0, w1) && run.Decided(cs) && |cs| == bgn == |pick|
    requires Open(run, cs, Range(bgn, 2 * bgn), p0, p1)
    requires forall i :: 0 <= i < |pick| ==> pick[i] < run.d0.NumBuckets() + run.d1.NumBuckets()
    modifies p0`sampleIndicators, p0`splitIdentifiers, p0`cachedGh
    modifies p1`sampleIndicators, p1`splitIdentifiers, p1`cachedGh
    ensures ok <==> AllHaveThresholds(run, pick)
    ensures ok ==> cs' == cs + Decisions(run.d0, pick) && run.Decided(cs')
    ensures ok ==> Open(run, cs', Range(2 * bgn, 4 * bgn), p0, p1)
    ensures ok ==> OlderTreesKept(old(p0.splitIdentifiers), p0.splitIdentifiers)
    ensures ok ==> OlderTreesKept(old(p1.splitIdentifiers), p1.splitIdentifiers)
  {
    hide *;
    ok, cs' := true, cs;
    MidLevelEnds(bgn);
    TreesKeptSoFar(run, cs, Range(bgn, 2 * bgn), p0, p1);
    DecisionsEmpty(run);
    assert pick[..0] == [];
    var i := 0;
    while i < |pick|
      invariant 0 <= i <= |pick| && |cs'| == bgn + i && run.Decided(cs')
      invariant cs' == cs + Decisions(run.d0, pick[..i])
      invariant Open(run, cs', MidLevel(bgn, i), p0, p1)
      invariant OlderTreesKept(old(p0.splitIdentifiers), p0.splitIdentifiers)
      invariant OlderTreesKept(old(p1.splitIdentifiers), p1.splitIdentifiers)
      invariant AllHaveThresholds(run, pick[..i])
    {
      ghost var s0, s1 := p0.splitIdentifiers, p1.splitIdentifiers;
      MidLevelAdvances(bgn, i);
      DecisionsStep(run, pick, i);
      ghost var next;
      ok, next := SplitNode(p0, p1, w0, w1, bgn + i, pick[i], run, cs', MidLevel(bgn, i));
      if !ok {
        return;
      }
      cs' := next;
      OlderTreesTransitive(old(p0.splitIdentifiers), s0, p0.splitIdentifiers);
      OlderTreesTransitive(old(p1.splitIdentifiers), s1, p1.splitIdentifiers);
      i := i + 1;
    }
    assert pick[..i] == pick;
  }

  lemma TreesKeptSoFar(run: Run, cs: seq<Choice>, front: set<nat>, p0: Builder, p1: Builder)
    requires Open(run, cs, front, p0, p1)
    ensures OlderTreesKept(p0.splitIdentifiers, p0.splitIdentifiers)
    ensures OlderTreesKept(p1.splitIdentifiers, p1.splitIdentifiers)
  {
  }

  lemma DecisionsEmpty(run: Run)
    ensures Decisions(run.d0, []) == [] && AllHaveThresholds(run, [])
  {
  }

  lemma DecisionsStep(run: Run, pick: seq<nat>, i: nat)
    requires i < |pick|
    ensures Decisions(run.d0, pick[..i + 1]) == Decisions(run.d0, pick[..i]) + [JointChoice(run.d0, pick[i])]
    ensures AllHaveThresholds(run, pick[..i + 1]) <==> AllHaveThresholds(run, pick[..i]) && ThresholdAt(run, pick[i])
    ensures AllHaveThresholds(run, pick) ==> ThresholdAt(run, pick[i])
  {
    assert pick[..i + 1] == pick[..i] + [pick[i]];
    assert pick[..i + 1][i] == pick[i];
  }

  /** A left node's sums, computed from its own indicator, are its histogram. */
  lemma SumsAreHistogram(run: Run, cs: seq<Choice>, nd: nat, v: Vec, ind0: seq<bool>, ind1: seq<bool>, x0: Vec, x1: Vec)
    requires run.Decided(cs) && run.Exists(cs, nd) && IsVec(v, run.d0.n)
    requires IndicatorOk(run, 0, cs, nd, ind0) && IndicatorOk(run, 1, cs, nd, ind1)
    requires |x0| == |x1| == run.d0.n && AddV(x0, x1) == run.NodeVec(v, cs, nd)
    ensures DirectHistogram(run.d0, run.d1, AddV(x0, x1), Kept(ind0, run.d0.n), Kept(ind1, run.d0.n))
      == run.NodeHistogram(v, cs, nd)
  {
    run.SkippingIsHarmless(v, cs, nd, Kept(ind0, run.d0.n), Kept(ind1, run.d0.n));
  }

  /** Parent minus left child, share by share, is the right child's histogram. */
  lemma SiblingHistogram(run: Run, cs: seq<Choice>, nd: nat, v: Vec, a0: Vec, a1: Vec, l0: Vec, l1: Vec)
    requires 1 <= nd < |cs| && IsVec(v, run.d0.n) && |a0| == |a1| == |l0| == |l1|
    requires AddV(a0, a1) == run.NodeHistogram(v, cs, nd) && AddV(l0, l1) == run.NodeHistogram(v, cs, 2 * nd)
    ensures AddV(SubV(a0, l0), SubV(a1, l1)) == run.NodeHistogram(v, cs, 2 * nd + 1)
  {
    SubOfShares(a0, a1, l0, l1);
    run.HistogramOfDifference(run.NodeVec(v, cs, nd), run.NodeVec(v, cs, 2 * nd));
    run.RightChildVec(v, cs, nd);
  }

  lemma SiblingHistogramsOk(run: Run, cs: seq<Choice>, nd: nat, a0: GH, a1: GH, l0: GH, l1: GH)
    requires run.Valid() && 1 <= nd < |cs|
    requires HistogramsOk(run, cs, nd, a0, a1) && HistogramsOk(run, cs, 2 * nd, l0, l1)
    ensures SameShape(a0, l0) && SameShape(a1, l1)
    ensures HistogramsOk(run, cs, 2 * nd + 1, Minus(a0, l0), Minus(a1, l1))
  {
    SiblingHistogram(run, cs, nd, run.rootG, a0.g, a1.g, l0.g, l1.g);
    SiblingHistogram(run, cs, nd, run.rootH, a0.h, a1.h, l0.h, l1.h);
  }

  /** The histogram of one left node, for both parties, from both calls of ComputeGradientSums. */
  method LeftHistogram(p0: Builder, p1: Builder, w0: Worker, w1: Worker, idx: nat,
                       ghost run: Run, ghost cs: seq<Choice>, ghost e: nat, N: nat)
    returns (ok: bool, l0: GH, l1: GH)
    requires Parties(run, p0, p1, w0, w1) && run.Decided(cs) && N == Pow2(e)
    requires idx in p0.sampleIndicators && idx in p1.sampleIndicators && idx in p0.cachedGh && idx in p1.cachedGh
    requires NodeOk(run, cs, idx, p0.sampleIndicators[idx], p1.sampleIndicators[idx], p0.cachedGh[idx], p1.cachedGh[idx])
    ensures ok <==> KeepsSome(p0.sampleIndicators[idx]) && KeepsSome(p1.sampleIndicators[idx])
    ensures ok ==> HistogramsOk(run, cs, idx, l0, l1)
  {
    var ind0, ind1 := p0.sampleIndicators[idx], p1.sampleIndicators[idx];
    var gh0, gh1 := p0.cachedGh[idx], p1.cachedGh[idx];
    SumsAreHistogram(run, cs, idx, run.rootG, ind0, ind1, gh0.g, gh1.g);
    SumsAreHistogram(run, cs, idx, run.rootH, ind0, ind1, gh0.h, gh1.h);
    hide IndicatorOk, MapFor, ThresholdsFor;
    l0, l1 := gh0, gh1;
    var okG, g0, g1 := ComputeGradientSums(w0, w1, gh0.g, gh1.g, ind0, ind1, e, N);
    var okH, h0, h1 := ComputeGradientSums(w0, w1, gh0.h, gh1.h, ind0, ind1, e, N);
    ok := okG && okH;
    if ok {
      l0, l1 := GH(g0, h0), GH(g1, h1);
    }
  }

  /** An indicator that keeps nothing stops the run. */
  predicate KeepsSome(ind: seq<bool>) {
    ind == [] || true in ind
  }

  /** The nodes with a histogram when the left nodes of a level, bgn on, are done up to idx. */
  function MidHists(bgn: nat, idx: nat): set<nat> {
    if bgn == 1 then Range(1, if idx > 1 then 2 else 1) else Range(bgn, idx) + Range(idx / 2, bgn)
  }

  lemma MidHistsAdvances(bgn: nat, idx: nat)
    requires bgn >= 2 && bgn % 2 == 0 && bgn <= idx < 2 * bgn && idx % 2 == 0
    ensures idx / 2 in MidHists(bgn, idx) && idx !in MidHists(bgn, idx) && idx + 1 !in MidHists(bgn, idx)
    ensures Advanced(MidHists(bgn, idx), idx / 2) == MidHists(bgn, idx + 2)
  {
    var a, b := Advanced(MidHists(bgn, idx), idx / 2), MidHists(bgn, idx + 2);
    forall k: nat
      ensures k in a <==> k in b
    {
      assert k in Range(bgn, idx) <==> bgn <= k < idx;
      assert k in Range(bgn, idx + 2) <==> bgn <= k < idx + 2;
      assert k in Range(idx / 2, bgn) <==> idx / 2 <= k < bgn;
      assert k in Range(idx / 2 + 1, bgn) <==> idx / 2 + 1 <= k < bgn;
    }
  }

  lemma HistsSplit(run: Run, cs: seq<Choice>, front: set<nat>, nd: nat, H0: map<nat, GH>, H1: map<nat, GH>, l0: GH, l1: GH)
    requires run.Valid() && 1 <= nd < |cs| && HistsOk(run, cs, front, H0, H1)
    requires nd in front && 2 * nd !in front && 2 * nd + 1 !in front
    requires HistogramsOk(run, cs, 2 * nd, l0, l1)
    ensures SameShape(H0[nd], l0) && SameShape(H1[nd], l1)
    ensures HistsOk(run, cs, Advanced(front, nd), Replaced(H0, nd, l0, Minus(H0[nd], l0)), Replaced(H1, nd, l1, Minus(H1[nd], l1)))
  {
    assert HistogramAt(run, cs, nd, H0, H1);
    SiblingHistogramsOk(run, cs, nd, H0[nd], H1[nd], l0, l1);
    HistsReplaced(run, cs, front, nd, H0, H1, l0, Minus(H0[nd], l0), l1, Minus(H1[nd], l1));
  }

  lemma HistsReplaced(run: Run, cs: seq<Choice>, front: set<nat>, nd: nat, H0: map<nat, GH>, H1: map<nat, GH>,
                      l0: GH, r0: GH, l1: GH, r1: GH)
    requires 1 <= nd < |cs| && HistsOk(run, cs, front, H0, H1)
    requires nd in front && 2 * nd !in front && 2 * nd + 1 !in front
    requires HistogramsOk(run, cs, 2 * nd, l0, l1) && HistogramsOk(run, cs, 2 * nd + 1, r0, r1)
    ensures HistsOk(run, cs, Advanced(front, nd), Replaced(H0, nd, l0, r0), Replaced(H1, nd, l1, r1))
  {
    hide HistogramsOk, Replaced;
    ReplacedEntries(H0, nd, l0, r0);
    ReplacedEntries(H1, nd, l1, r1);
    forall k | k in Advanced(front, nd)
      ensures HistogramAt(run, cs, k, Replaced(H0, nd, l0, r0), Replaced(H1, nd, l1, r1))
    {
      assert k != 2 * nd && k != 2 * nd + 1 ==> HistogramAt(run, cs, k, H0, H1);
    }
  }

  ghost predicate Productive(p0: Builder, p1: Builder, k: nat)
    reads p0`sampleIndicators, p1`sampleIndicators
  {
    && k in p0.sampleIndicators && k in p1.sampleIndicators
    && KeepsSome(p0.sampleIndicators[k]) && KeepsSome(p1.sampleIndicators[k])
  }

  lemma OpenNode(run: Run, cs: seq<Choice>, front: set<nat>, p0: Builder, p1: Builder, nd: nat)
    requires Open(run, cs, front, p0, p1) && nd in front
    ensures nd in p0.sampleIndicators && nd in p1.sampleIndicators && nd in p0.cachedGh && nd in p1.cachedGh
    ensures NodeOk(run, cs, nd, p0.sampleIndicators[nd], p1.sampleIndicators[nd], p0.cachedGh[nd], p1.cachedGh[nd])
  {
    assert NodeOk(run, cs, nd, p0.sampleIndicators[nd], p1.sampleIndicators[nd], p0.cachedGh[nd], p1.cachedGh[nd]);
  }

  /** One more pair of siblings. */
  lemma HistsStep(run: Run, cs: seq<Choice>, bgn: nat, idx: nat, H0: map<nat, GH>, H1: map<nat, GH>, l0: GH, l1: GH)
    requires run.Valid() && |cs| == bgn && bgn <= idx < 2 * bgn
    requires bgn == 1 || (bgn % 2 == 0 && idx % 2 == 0)
    requires HistsOk(run, cs, MidHists(bgn, idx), H0, H1) && HistogramsOk(run, cs, idx, l0, l1)
    ensures idx !in H0 && idx !in H1 && idx + 1 !in H0 && idx + 1 !in H1
    ensures bgn == 1 <==> idx / 2 !in H0
    ensures bgn == 1 <==> idx / 2 !in H1
    ensures bgn == 1 ==> HistsOk(run, cs, MidHists(bgn, idx + 2), H0[idx := l0], H1[idx := l1])
    ensures bgn > 1 ==> SameShape(H0[idx / 2], l0) && SameShape(H1[idx / 2], l1)
    ensures bgn > 1 ==>
      HistsOk(run, cs, MidHists(bgn, idx + 2), Replaced(H0, idx / 2, l0, Minus(H0[idx / 2], l0)),
              Replaced(H1, idx / 2, l1, Minus(H1[idx / 2], l1)))
  {
    hide HistogramsOk;
    if bgn == 1 {
      assert MidHists(1, 3) == {1} && MidHists(1, 1) == {};
    } else {
      MidHistsAdvances(bgn, idx);
      assert idx == 2 * (idx / 2);
      HistsSplit(run, cs, MidHists(bgn, idx), idx / 2, H0, H1, l0, l1);
    }
  }

  /** The nodes whose sums are computed directly: the even ones, and the root. */
  predicate IsLeft(bgn: nat, k: nat) {
    bgn == 1 || k % 2 == 0
  }

  predicate AfterPairs(bgn: nat, idx: nat) {
    if bgn == 1 then idx == 1 || idx == 3 else bgn % 2 == 0 && idx % 2 == 0 && bgn <= idx <= 2 * bgn
  }

  lemma PairBounds(bgn: nat, idx: nat)
    requires (bgn == 1 || bgn % 2 == 0) && (idx == bgn || AfterPairs(bgn, idx)) && idx < 2 * bgn
    ensures bgn <= idx && idx in Range(bgn, 2 * bgn) && IsLeft(bgn, idx)
    ensures bgn == 1 || idx % 2 == 0
    ensures AfterPairs(bgn, idx + 2)
    ensures forall k :: bgn <= k < idx + 2 && k < 2 * bgn && IsLeft(bgn, k) ==> k <= idx
  {
  }

  lemma MidHistsEnd(bgn: nat, idx: nat)
    requires (idx == bgn || AfterPairs(bgn, idx)) && idx >= 2 * bgn
    ensures MidHists(bgn, idx) == Range(bgn, 2 * bgn)
  {
  }

  lemma ProductiveIff(p0: Builder, p1: Builder, k: nat)
    requires k in p0.sampleIndicators && k in p1.sampleIndicators
    ensures Productive(p0, p1, k) <==> KeepsSome(p0.sampleIndicators[k]) && KeepsSome(p1.sampleIndicators[k])
  {
  }

  /** The left nodes' histograms directly, their siblings' by subtraction. */
  method SumLevel(p0: Builder, p1: Builder, w0: Worker, w1: Worker, bgn: nat,
                  ghost run: Run, ghost cs: seq<Choice>, ghost e: nat, N: nat)
    returns (ok: bool)
    requires run.Valid() && p0 != p1 && Parties(run, p0, p1, w0, w1) && run.Decided(cs) && N == Pow2(e)
    requires |cs| == bgn && (bgn == 1 || bgn % 2 == 0)
    requires Open(run, cs, Range(bgn, 2 * bgn), p0, p1)
    requires HistsOk(run, cs, MidHists(bgn, bgn), p0.cachedGHs, p1.cachedGHs)
    modifies p0`cachedGHs, p1`cachedGHs
    ensures ok <==> forall k :: bgn <= k < 2 * bgn && IsLeft(bgn, k) ==> Productive(p0, p1, k)
    ensures ok ==> HistsOk(run, cs, Range(bgn, 2 * bgn), p0.cachedGHs, p1.cachedGHs)
  {
    var idx := bgn;
    hide *;
    while idx < 2 * bgn
      invariant idx == bgn || AfterPairs(bgn, idx)
      invariant Open(run, cs, Range(bgn, 2 * bgn), p0, p1)
      invariant HistsOk(run, cs, MidHists(bgn, idx), p0.cachedGHs, p1.cachedGHs)
      invariant forall k :: bgn <= k < idx && k < 2 * bgn && IsLeft(bgn, k) ==> Productive(p0, p1, k)
      decreases 2 * bgn - idx
    {
      PairBounds(bgn, idx);
      OpenNode(run, cs, Range(bgn, 2 * bgn), p0, p1, idx);
      var l0, l1;
      ok, l0, l1 := LeftHistogram(p0, p1, w0, w1, idx, run, cs, e, N);
      assert ok <==> Productive(p0, p1, idx) by {
        ProductiveIff(p0, p1, idx);
      }
      if !ok {
        return;
      }
      HistsStep(run, cs, bgn, idx, p0.cachedGHs, p1.cachedGHs, l0, l1);
      p0.InstallHistograms(idx, l0);
      p1.InstallHistograms(idx, l1);
      idx := idx + 2;
    }
    ok := true;
    MidHistsEnd(bgn, idx);
  }
}
