/**
  The product of a private sparse 0/1 matrix with a shared vector.  The vector travels as the
  coefficients of packed polynomials; encryption, key switching and the packing of the results are
  ideal, so a ciphertext is the polynomial it encrypts and an extracted LWE is its coefficient.
 */
module BinMatVec {
  import opened Arith
  import opened Ring

  type Poly = seq<int>

  /** The least power of two that is at least n, searched upwards from p. */
  function BitCeilFrom(n: nat, p: nat): (r: nat)
    requires p >= 1
    ensures n <= r && p <= r
    decreases n - p
  {
    if n <= p then p else BitCeilFrom(n, 2 * p)
  }

  function BitCeil(n: nat): nat {
    BitCeilFrom(n, 1)
  }

  function Min(a: int, b: int): int {
    if a < b then a else b
  }

  /** Distance between two consecutive entries of a vector of length n in N slots. */
  function Gap(n: nat, N: nat): nat {
    N / BitCeil(n)
  }

  /** The gap divides the slots evenly, and all n entries fit. */
  lemma GapFits(n: nat, e: nat)
    requires 1 <= n <= Pow2(e)
    ensures Gap(n, Pow2(e)) >= 1 && n * Gap(n, Pow2(e)) <= Pow2(e) < 2 * n * Gap(n, Pow2(e))
    ensures exists j: nat :: Gap(n, Pow2(e)) == Pow2(j)
    ensures forall i :: 0 <= i < n ==> 0 <= i * Gap(n, Pow2(e)) < Pow2(e)
    ensures n == Pow2(e) ==> Gap(n, Pow2(e)) == 1
  {
    var c, j := GapPower(n, e);
    hide Pow2, Gap;
    GapRoom(n, c, Pow2(j), Pow2(e));
  }

  lemma GapPower(n: nat, e: nat) returns (c: nat, j: nat)
    requires 1 <= n <= Pow2(e)
    ensures Gap(n, Pow2(e)) == Pow2(j) >= 1 && n <= c < 2 * n && c * Pow2(j) == Pow2(e)
  {
    assert Pow2(0) == 1;
    hide Pow2;
    var k := BitCeilPower(n, 0, e);
    BitCeilLeast(n, 1);
    c, j := Pow2(k), e - k;
    Pow2Add(k, j);
    DivModUnique(Pow2(e), Pow2(j), 0, c);
  }

  lemma GapRoom(n: nat, c: nat, g: nat, N: nat)
    requires g >= 1 && n <= c < 2 * n && c * g == N
    ensures n * g <= N < 2 * n * g
    ensures forall i :: 0 <= i < n ==> 0 <= i * g < N
    ensures n == N ==> g == 1
  {
    MulLe(n, c, g);
    MulLt(c, 2 * n, g);
    forall i | 0 <= i < n
      ensures 0 <= i * g < N
    {
      MulLt(i, c, g);
      MulNonNeg(i, g);
    }
    if n == N && g > 1 {
      MulLt(1, g, c);
    }
  }

  /** The search ends at a power of two between its start and 2^e. */
  lemma {:induction false} BitCeilPower(n: nat, j: nat, e: nat) returns (k: nat)
    requires j <= e && n <= Pow2(e)
    ensures j <= k <= e && BitCeilFrom(n, Pow2(j)) == Pow2(k)
    decreases e - j
  {
    if n <= Pow2(j) {
      k := j;
    } else {
      k := BitCeilPower(n, j + 1, e);
    }
  }

  lemma {:induction false} BitCeilLeast(n: nat, p: nat)
    requires n >= 1 && p >= 1 && p < 2 * n
    ensures n <= BitCeilFrom(n, p) < 2 * n
    decreases n - p
  {
    if n > p {
      BitCeilLeast(n, 2 * p);
    }
  }

  /** Slot of entry i, and where each entry ends up: at i * gap, with zeros in between. */
  predicate EncodesAs(vec: Vec, N: nat, poly: Poly) {
    && |poly| == N
    && (forall i :: 0 <= i < |vec| ==> 0 <= Slot(i, |vec|, N) < N && poly[Slot(i, |vec|, N)] == vec[i])
    && (forall j :: 0 <= j < N && poly[j] != 0 ==> exists i :: 0 <= i < |vec| && j == Slot(i, |vec|, N))
  }

  function Slot(i: int, n: nat, N: nat): int {
    i * Gap(n, N)
  }

  lemma SlotSteps(i: int, n: nat, N: nat)
    ensures Slot(0, n, N) == 0 && Slot(i + 1, n, N) == Slot(i, n, N) + Gap(n, N)
  {
    hide Gap;
    Distribute(i, 1, Gap(n, N));
  }

  lemma SlotFits(i: int, n: nat, e: nat)
    requires 0 <= i < n <= Pow2(e)
    ensures 0 <= Slot(i, n, Pow2(e)) < Pow2(e)
    ensures n == Pow2(e) ==> Slot(i, n, Pow2(e)) == i
  {
    hide Gap, Pow2;
    GapFits(n, e);
  }

  lemma SlotInjective(i: int, j: int, n: nat, e: nat)
    requires 1 <= n <= Pow2(e) && Slot(i, n, Pow2(e)) == Slot(j, n, Pow2(e))
    ensures i == j
  {
    GapFits(n, e);
    var g := Gap(n, Pow2(e));
    MulCancel(i, j, g);
  }

  method EncodeVectorToPoly(vec: Vec, ghost e: nat, N: nat) returns (poly: Poly)
    requires N == Pow2(e) && 1 <= |vec| <= N
    ensures EncodesAs(vec, N, poly)
  {
    var n := |vec|;
    hide Gap, Slot, Pow2;
    forall i | 0 <= i < n
      ensures 0 <= Slot(i, n, N) < N && (n == N ==> Slot(i, n, N) == i)
    {
      SlotFits(i, n, e);
    }
    if n == N {
      poly := vec;
    } else {
      poly := seq(N, _ => 0);
      var gap := Gap(n, N);
      var i, j := 0, 0;
      SlotSteps(0, n, N);
      while i < n
        invariant 0 <= i <= n && j == Slot(i, n, N) && |poly| == N
        invariant forall k :: 0 <= k < i ==> poly[Slot(k, n, N)] == vec[k]
        invariant forall t :: 0 <= t < N && poly[t] != 0 ==> exists k :: 0 <= k < i && t == Slot(k, n, N)
      {
        ghost var before := poly;
        poly := poly[j := vec[i]];
        forall k | 0 <= k < i
          ensures poly[Slot(k, n, N)] == vec[k]
        {
          if Slot(k, n, N) == j {
            SlotInjective(k, i, n, e);
          }
        }
        forall t | 0 <= t < N && poly[t] != 0
          ensures exists k :: 0 <= k < i + 1 && t == Slot(k, n, N)
        {
          if t != j {
            assert before[t] != 0;
          }
        }
        SlotSteps(i, n, N);
        i, j := i + 1, j + gap;
      }
    }
  }

  method DecodePolyToVector(numel: nat, poly: Poly, ghost e: nat) returns (ret: Vec)
    requires |poly| == Pow2(e) && 1 <= numel <= |poly|
    ensures |ret| == numel
    ensures forall vec: Vec :: |vec| == numel && EncodesAs(vec, |poly|, poly) ==> ret == vec
    ensures forall i :: 0 <= i < numel ==> 0 <= Slot(i, numel, |poly|) < |poly| && ret[i] == poly[Slot(i, numel, |poly|)]
  {
    var N := |poly|;
    hide Gap, Slot, Pow2;
    forall i | 0 <= i < numel
      ensures 0 <= Slot(i, numel, N) < N && (numel == N ==> Slot(i, numel, N) == i)
    {
      SlotFits(i, numel, e);
    }
    if N == numel {
      ret := poly;
    } else {
      ret := [];
      var gap := Gap(numel, N);
      var i, j := 0, 0;
      SlotSteps(0, numel, N);
      while i < numel
        invariant 0 <= i <= numel && j == Slot(i, numel, N) && |ret| == i
        invariant forall k :: 0 <= k < i ==> ret[k] == poly[Slot(k, numel, N)]
      {
        ret := ret + [poly[j]];
        SlotSteps(i, numel, N);
        i, j := i + 1, j + gap;
      }
    }
    forall vec: Vec | |vec| == numel && EncodesAs(vec, N, poly)
      ensures ret == vec
    {
      assert forall i :: 0 <= i < numel ==> ret[i] == poly[Slot(i, numel, N)] == vec[i];
    }
  }

  // ---- batches ----

  function BatchLen(b: int, n: nat, N: nat): int {
    Min(b * N + N, n) - b * N
  }

  function Batch(vec: Vec, b: int, N: nat): (r: Vec)
    requires N >= 1 && 0 <= b < CeilDiv(|vec|, N)
    ensures |r| == BatchLen(b, |vec|, N) && 1 <= |r| <= N
    ensures forall i :: 0 <= i < |r| ==> r[i] == vec[b * N + i]
  {
    BatchBounds(|vec|, b, N);
    vec[b * N..Min(b * N + N, |vec|)]
  }

  lemma BatchBounds(n: nat, b: int, N: nat)
    requires N >= 1 && 0 <= b < CeilDiv(n, N)
    ensures 0 <= b * N < n
  {
    var c := CeilDiv(n, N);
    assert c * N <= n + N - 1;
    MulLt(b, c, N);
    MulNonNeg(b, N);
  }

  lemma SampleInBatch(s: nat, n: nat, N: nat)
    requires N >= 1 && s < n
    ensures 0 <= s / N < CeilDiv(n, N)
    ensures s % N < BatchLen(s / N, n, N)
  {
    var c := CeilDiv(n, N);
    assert n + N - 1 < c * N + N;
    DivBelow(s, c, N);
  }

  predicate GapsFor(gaps: seq<nat>, n: nat, N: nat) {
    forall b :: 0 <= b < |gaps| ==>
      BatchLen(b, n, N) >= 1 && gaps[b] == Gap(BatchLen(b, n, N), N)
  }

  /** Sample index to (ciphertext, coefficient), with the gap table built once. */
  class IndexMapper {
    const numSamples: nat
    const batchSize: nat
    const gaps: seq<nat>

    ghost predicate Valid() {
      && batchSize >= 1
      && |gaps| == CeilDiv(numSamples, batchSize)
      && GapsFor(gaps, numSamples, batchSize)
    }

    constructor (numSamples: nat, batchSize: nat)
      requires numSamples > 0 && batchSize >= 1
      ensures Valid() && this.numSamples == numSamples && this.batchSize == batchSize
    {
      this.numSamples := numSamples;
      this.batchSize := batchSize;
      hide Gap;
      var table: seq<nat> := [];
      var numBatch := CeilDiv(numSamples, batchSize);
      var i := 0;
      while i < numBatch
        invariant 0 <= i <= numBatch && |table| == i
        invariant GapsFor(table, numSamples, batchSize)
      {
        BatchBounds(numSamples, i, batchSize);
        var bgn := i * batchSize;
        var end := Min(bgn + batchSize, numSamples);
        table := table + [Gap(end - bgn, batchSize)];
        i := i + 1;
      }
      gaps := table;
    }

    /** Shifting and masking by a power of two are division and remainder. */
    function MapToLoc(s: nat): (loc: (nat, nat))
      requires Valid() && s < numSamples
      ensures loc.0 == s / batchSize < |gaps|
      ensures loc.1 == Slot(s % batchSize, BatchLen(s / batchSize, numSamples, batchSize), batchSize)
    {
      SampleInBatch(s, numSamples, batchSize);
      var rlwe := s / batchSize;
      (rlwe, (s % batchSize) * gaps[rlwe])
    }
  }

  predicate Encoded(vec: Vec, N: nat, polys: seq<Poly>)
    requires N >= 1
  {
    |polys| == CeilDiv(|vec|, N) && forall b :: 0 <= b < |polys| ==> EncodesAs(Batch(vec, b, N), N, polys[b])
  }

  lemma EncodedAt(vec: Vec, N: nat, poly: Poly, i: nat)
    requires EncodesAs(vec, N, poly) && i < |vec|
    ensures 0 <= Slot(i, |vec|, N) < |poly| && poly[Slot(i, |vec|, N)] == vec[i]
  {
  }

  /** MapToLoc finds every sample in the encoding of its vector, also in a partial last batch. */
  lemma MapToLocHits(m: IndexMapper, vec: Vec, polys: seq<Poly>, s: nat)
    requires m.Valid() && |vec| == m.numSamples && Encoded(vec, m.batchSize, polys) && s < |vec|
    ensures var loc := m.MapToLoc(s);
      loc.0 < |polys| && loc.1 < |polys[loc.0]| && polys[loc.0][loc.1] == vec[s]
  {
    hide Gap, BitCeil, Slot;
    var N := m.batchSize;
    SampleInBatch(s, |vec|, N);
    var b := s / N;
    var batch := Batch(vec, b, N);
    assert EncodesAs(batch, N, polys[b]);
    EncodedAt(batch, N, polys[b], s % N);
    DivBelow(s, s / N + 1, N) by {
      MulLt(s / N, s / N + 1, N);
    }
  }

  /** No two samples share a coefficient. */
  lemma MapToLocInjective(m: IndexMapper, e: nat, s: nat, t: nat)
    requires m.Valid() && m.batchSize == Pow2(e) && s < m.numSamples && t < m.numSamples
    ensures m.MapToLoc(s) == m.MapToLoc(t) ==> s == t
  {
    if m.MapToLoc(s) == m.MapToLoc(t) {
      var N := m.batchSize;
      SampleInBatch(s, m.numSamples, N);
      hide Gap, Slot, CeilDiv;
      SlotInjective(s % N, t % N, BatchLen(s / N, m.numSamples, N), e);
      SamePlace(s, t, N);
    }
  }

  lemma SamePlace(s: nat, t: nat, N: nat)
    requires N >= 1 && s / N == t / N && s % N == t % N
    ensures s == t
  {
    assert s == s / N * N + s % N && t == t / N * N + t % N;
  }

  const ASYNC_PARALLEL := 8

  /** Encodes batch by batch, then puts the ciphertexts on the link in groups of ASYNC_PARALLEL. */
  method A2hSend(ashare: Vec, ghost e: nat, N: nat) returns (link: seq<Poly>)
    requires N == Pow2(e)
    ensures Encoded(ashare, N, link)
  {
    var ciphers := EncodeAll(ashare, e, N);
    var numRlwes := |ciphers|;
    link := [];
    var i := 0;
    while i < numRlwes
      invariant 0 <= i && |link| == Min(i, numRlwes) && link <= ciphers
      decreases numRlwes - i
    {
      var thisBatch := Min(numRlwes - i, ASYNC_PARALLEL);
      var j := 1;
      while j < thisBatch
        invariant 1 <= j <= thisBatch && |link| == i + j - 1 && link <= ciphers
      {
        link := link + [ciphers[i + j - 1]];
        j := j + 1;
      }
      link := link + [ciphers[i + thisBatch - 1]];
      i := i + ASYNC_PARALLEL;
    }
  }

  method EncodeAll(ashare: Vec, ghost e: nat, N: nat) returns (polys: seq<Poly>)
    requires N == Pow2(e)
    ensures Encoded(ashare, N, polys)
  {
    polys := [];
    var numRlwes := CeilDiv(|ashare|, N);
    var i := 0;
    while i < numRlwes
      invariant 0 <= i <= numRlwes && |polys| == i
      invariant forall b :: 0 <= b < i ==> EncodesAs(Batch(ashare, b, N), N, polys[b])
    {
      var poly := EncodeVectorToPoly(Batch(ashare, i, N), e, N);
      polys := polys + [poly];
      i := i + 1;
    }
  }

  /** Receives the peer's ciphertexts and adds the own share to them, slot by slot. */
  method A2hRecv(ashare: Vec, link: seq<Poly>, ghost peer: Vec, ghost e: nat, N: nat) returns (hshare: seq<Poly>)
    requires N == Pow2(e) && |peer| == |ashare| && Encoded(peer, N, link)
    ensures Encoded(AddV(peer, ashare), N, hshare)
  {
    var polys := EncodeAll(ashare, e, N);
    hshare := [];
    ghost var total := AddV(peer, ashare);
    var i := 0;
    while i < |link|
      invariant 0 <= i <= |link| && |hshare| == i
      invariant forall b :: 0 <= b < i ==> EncodesAs(Batch(total, b, N), N, hshare[b])
    {
      hshare := hshare + [AddV(link[i], polys[i])];
      AddBatches(peer, ashare, i, N, link[i], polys[i]);
      i := i + 1;
    }
  }

  lemma AddEncodings(u: Vec, v: Vec, p: Poly, q: Poly, N: nat)
    requires |u| == |v| && EncodesAs(u, N, p) && EncodesAs(v, N, q)
    ensures EncodesAs(AddV(u, v), N, AddV(p, q))
  {
    var r := AddV(p, q);
    forall j | 0 <= j < N && r[j] != 0
      ensures exists i :: 0 <= i < |u| && j == Slot(i, |u|, N)
    {
      ModSmall(0);
      assert p[j] != 0 || q[j] != 0;
    }
  }

  lemma AddBatches(u: Vec, v: Vec, b: nat, N: nat, p: Poly, q: Poly)
    requires |u| == |v| && N >= 1 && b < CeilDiv(|u|, N)
    requires EncodesAs(Batch(u, b, N), N, p) && EncodesAs(Batch(v, b, N), N, q)
    ensures EncodesAs(Batch(AddV(u, v), b, N), N, AddV(p, q))
  {
    hide EncodesAs;
    BatchOfSum(u, v, b, N);
    AddEncodings(Batch(u, b, N), Batch(v, b, N), p, q, N);
  }

  lemma BatchOfSum(u: Vec, v: Vec, b: nat, N: nat)
    requires |u| == |v| && N >= 1 && b < CeilDiv(|u|, N)
    ensures AddV(Batch(u, b, N), Batch(v, b, N)) == Batch(AddV(u, v), b, N)
  {
    BatchBounds(|u|, b, N);
  }

  type Row = set<nat>

  predicate Keeps(indicator: seq<bool>, i: nat) {
    indicator == [] || (i < |indicator| && indicator[i])
  }

  /** The samples an indicator keeps; the empty indicator keeps all. */
  function Kept(indicator: seq<bool>, n: nat): (k: set<nat>)
    ensures forall i :: i in k <==> 0 <= i < n && Keeps(indicator, i)
    ensures indicator == [] ==> forall i :: i in k <==> 0 <= i < n
    ensures indicator != [] ==> forall i :: i in k <==> 0 <= i < n && i < |indicator| && indicator[i]
  {
    set i: nat | i < n && Keeps(indicator, i)
  }

  /** Adds up the coefficients of one row's kept columns, in whatever order the set yields them. */
  method PickThenSum(row: Row, mapper: IndexMapper, vec: seq<Poly>, indicator: seq<bool>, ghost total: Vec)
    returns (lwe: int)
    requires mapper.Valid() && mapper.numSamples == |total| && Encoded(total, mapper.batchSize, vec)
    requires indicator == [] || |indicator| == |total|
    requires forall c :: c in row ==> c < |total|
    ensures lwe == Mod(SumOver(total, row * Kept(indicator, |total|)))
  {
    var todo := row;
    ghost var keep := Kept(indicator, |total|);
    lwe := 0;
    SumOverEmpty(total);
    assert (row - todo) * keep == {};
    while todo != {}
      invariant todo <= row
      invariant lwe == SumOver(total, (row - todo) * keep)
      decreases |todo|
    {
      var c :| c in todo;
      ghost var before := (row - todo) * keep;
      todo := todo - {c};
      if indicator == [] || indicator[c] {
        var loc := mapper.MapToLoc(c);
        MapToLocHits(mapper, total, vec, c);
        lwe := lwe + vec[loc.0][loc.1];
        SumOverUnion(total, before, {c});
        SumOverSingle(total, c);
        assert (row - todo) * keep == before + {c};
      } else {
        assert (row - todo) * keep == before;
      }
    }
    assert row - todo == row;
    lwe := Mod(lwe);
  }

  /** The arithmetic shares of a value held as a ciphertext: a fresh mask and the rest. */
  method Reshare(h: Vec) returns (z0: Vec, z1: Vec)
    requires IsVec(h, |h|)
    ensures IsVec(z0, |h|) && IsVec(z1, |h|) && AddV(z0, z1) == h
  {
    var mask: int -> int := *;
    z0 := seq(|h|, i => Mod(mask(i)));
    assert forall i :: 0 <= i < |h| ==> z0[i] == Mod(mask(i));
    z1 := SubV(h, z0);
    forall i | 0 <= i < |h|
      ensures AddV(z0, z1)[i] == h[i]
    {
      MaskCancels(z0[i], h[i]);
    }
  }

  lemma MaskCancels(r: int, x: int)
    requires 0 <= r < M && 0 <= x < M
    ensures Mod(r + Mod(x - r)) == x
  {
    ModLeft(x - r, r);
    ModSmall(x);
  }

  /**
    Send (party with v0) and Recv (party with v1, the matrix and the indicator) together.  The run
    is refused when a given indicator keeps nothing.
   */
  method BinMatVecProtocol(v0: Vec, v1: Vec, rows: seq<Row>, indicator: seq<bool>, ghost e: nat, N: nat)
    returns (ok: bool, z0: Vec, z1: Vec)
    requires N == Pow2(e) && |v0| == |v1| > 0
    requires indicator == [] || |indicator| == |v1|
    requires forall r, c :: 0 <= r < |rows| && c in rows[r] ==> c < |v1|
    ensures ok <==> indicator == [] || true in indicator
    ensures ok ==> IsVec(z0, |rows|) && IsVec(z1, |rows|)
    ensures ok ==> forall r :: 0 <= r < |rows| ==>
      AddV(z0, z1)[r] == Mod(SumOver(AddV(v0, v1), rows[r] * Kept(indicator, |v1|)))
  {
    ok := indicator == [] || true in indicator;
    if !ok {
      return false, [], [];
    }
    ghost var total := AddV(v0, v1);
    var link := A2hSend(v0, e, N);
    var hshare := A2hRecv(v1, link, v0, e, N);
    var mapper := new IndexMapper(|v1|, N);
    var lwes: Vec := [];
    for r := 0 to |rows|
      invariant |lwes| == r
      invariant forall k :: 0 <= k < r ==> lwes[k] == Mod(SumOver(total, rows[k] * Kept(indicator, |v1|)))
    {
      var lwe := PickThenSum(rows[r], mapper, hshare, indicator, total);
      lwes := lwes + [lwe];
    }
    z0, z1 := Reshare(lwes);
  }
}
