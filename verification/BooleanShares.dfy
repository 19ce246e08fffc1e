/**
  Boolean shares as the circuits see them: a word of the ring's width together with the number of
  bits that matter.  The kernels act on opened values; each also tracks that number.
 */
module BooleanShares {
  import opened Arith
  import opened Bits
  import opened BitInterleave

  datatype BShare = BShare(w: Word, nbits: nat) {
    /** A ring of 32, 64 or 128 bits, and nothing set beyond the bits that matter. */
    predicate Valid(e: nat) {
      && 5 <= e <= 7 && |w| == Pow2(e) && 32 <= |w| <= 128 && nbits <= |w|
      && forall i :: nbits <= i < |w| ==> !w[i]
    }
  }

  function Min(a: nat, b: nat): nat {
    if a <= b then a else b
  }

  function Max(a: nat, b: nat): nat {
    if a >= b then a else b
  }

  /** The machine type the conjunction protocol runs on. */
  function BackWidth(n: nat): (r: nat)
    ensures n <= 128 ==> n <= r
  {
    if n <= 8 then 8 else if n <= 16 then 16 else if n <= 32 then 32 else if n <= 64 then 64 else 128
  }

  /** Conjunction of two shares: on the narrowest machine type that holds the narrower operand. */
  function AndBB(a: BShare, b: BShare): (r: BShare)
    ensures |r.w| == |a.w| && r.nbits == Min(a.nbits, b.nbits)
    ensures forall e :: a.Valid(e) && b.Valid(e) ==> r.Valid(e) && r.w == And(a.w, b.w)
  {
    var n := Min(a.nbits, b.nbits);
    var r := BShare(And(And(a.w, b.w), Ones(BackWidth(n))), n);
    assert forall e :: a.Valid(e) && b.Valid(e) ==> r.w == And(a.w, b.w) by {
      hide Pow2;
    }
    r
  }

  /**
    Two conjunctions in one call, the operands packed pairwise into one share each.  Shares packed
    together must be of one type, hence of one width.
   */
  method AndPairs(a0: BShare, a1: BShare, b0: BShare, b1: BShare) returns (ok: bool, r0: BShare, r1: BShare)
    ensures ok <==> a0.nbits == a1.nbits && b0.nbits == b1.nbits
    ensures ok ==> r0 == AndBB(a0, b0) && r1 == AndBB(a1, b1)
  {
    ok, r0, r1 := a0.nbits == a1.nbits && b0.nbits == b1.nbits, a0, a1;
    if ok {
      r0, r1 := AndBB(a0, b0), AndBB(a1, b1);
    }
  }

  function XorBB(a: BShare, b: BShare): (r: BShare)
    ensures |r.w| == |a.w| && r.nbits == Max(a.nbits, b.nbits) && r.w == Xor(a.w, b.w)
    ensures forall e :: a.Valid(e) && b.Valid(e) ==> r.Valid(e)
  {
    BShare(Xor(a.w, b.w), Max(a.nbits, b.nbits))
  }

  /** The width of a public operand is that of its value. */
  function TopWidth(w: Word): (n: nat)
    ensures n <= |w| && (forall i :: n <= i < |w| ==> !w[i]) && (n > 0 ==> w[n - 1])
  {
    if w == [] then 0 else if w[|w| - 1] then |w| else TopWidth(w[..|w| - 1])
  }

  function AndBP(a: BShare, m: Word): (r: BShare)
    ensures |r.w| == |a.w| && r.nbits == Min(a.nbits, TopWidth(m)) && r.w == And(a.w, m)
    ensures forall e :: a.Valid(e) ==> r.Valid(e)
  {
    BShare(And(a.w, m), Min(a.nbits, TopWidth(m)))
  }

  function LShiftB(a: BShare, s: nat): (r: BShare)
    ensures |r.w| == |a.w|
    ensures s < |a.w| ==> r.w == Shl(a.w, s) && r.nbits == Min(a.nbits + s, |a.w|)
    ensures forall e :: a.Valid(e) && s < |a.w| ==> r.Valid(e)
  {
    var s' := if s < |a.w| then s else if |a.w| == 0 then 0 else s % |a.w|;
    BShare(Shl(a.w, s'), Min(a.nbits + s', |a.w|))
  }

  function RShiftB(a: BShare, s: nat): (r: BShare)
    ensures |r.w| == |a.w|
    ensures s < |a.w| ==> r.w == Shr(a.w, s) && r.nbits == a.nbits - Min(a.nbits, s)
    ensures forall e :: a.Valid(e) && s < |a.w| ==> r.Valid(e)
  {
    var s' := if s < |a.w| then s else if |a.w| == 0 then 0 else s % |a.w|;
    BShare(Shr(a.w, s'), a.nbits - Min(a.nbits, s'))
  }

  // ---- interleaving shares ----

  /** The step of the word loops, share by share. */
  function StepB(x: BShare, level: nat): (r: BShare) {
    var K, M, S := MaskWord(KeepMask(level), |x.w|), MaskWord(SwapMask(level), |x.w|), Pow2(level);
    XorBB(XorBB(AndBP(x, K), AndBP(RShiftB(x, S), M)), LShiftB(AndBP(x, M), S))
  }

  lemma StepBIsStep(x: BShare, level: nat)
    requires Pow2(level) < |x.w|
    ensures StepB(x, level).w == LevelStep(x.w, level)
  {
  }

  lemma LevelInside(level: nat, L: nat, n: nat, W: nat)
    requires level + 1 < L && L == Log2Ceil(n) && n <= W <= 128
    ensures L <= 7 && Pow2(level) < W
  {
    AtMostSeven(n);
    Log2CeilBounds(n);
    Pow2Grows(level, L - 1);
  }

  /** Share de-interleaving: refused unless the width is a power of two, else like the word's. */
  method BitDeintlB(x: BShare, stride: nat) returns (ok: bool, r: BShare)
    requires x.nbits <= |x.w| <= 128
    ensures ok <==> HasSingleBit(x.nbits)
    ensures ok ==> r.nbits == x.nbits && |r.w| == |x.w|
    ensures ok ==> Moved(x.w, r.w, stride, Log2Ceil(x.nbits) - 1, Log2Ceil(x.nbits))
  {
    hide Moved, Pow2, StepB;
    if !HasSingleBit(x.nbits) {
      return false, x;
    }
    var L := Log2Ceil(x.nbits);
    r := x;
    NotMoved(x.w, stride, L);
    var idx := stride;
    while idx + 1 < L
      invariant idx >= stride && |r.w| == |x.w|
      invariant Moved(x.w, r.w, stride, if idx < L then idx else L - 1, L)
    {
      LevelInside(idx, L, x.nbits, |x.w|);
      StepBIsStep(r, idx);
      MoveStep(x.w, r.w, stride, idx, L);
      r := StepB(r, idx);
      idx := idx + 1;
    }
    ok, r := true, r.(nbits := x.nbits);
  }

  method BitIntlB(x: BShare, stride: nat) returns (ok: bool, r: BShare)
    requires x.nbits <= |x.w| <= 128
    ensures ok <==> HasSingleBit(x.nbits)
    ensures ok ==> r.nbits == x.nbits && |r.w| == |x.w|
    ensures ok ==> Moved(r.w, x.w, stride, Log2Ceil(x.nbits) - 1, Log2Ceil(x.nbits))
  {
    hide MovedBack, Moved, Pow2, StepB, HasSingleBit, Log2Ceil;
    if !HasSingleBit(x.nbits) {
      return false, x;
    }
    var L := Log2Ceil(x.nbits);
    r := x;
    StartBack(x.w, stride, L);
    var idx := L - 2;
    while idx >= stride
      invariant idx <= L - 2 && |r.w| == |x.w|
      invariant idx >= stride - 1 || (idx == L - 2 && L - 1 <= stride)
      invariant MovedBack(x.w, r.w, stride, idx + 1, L)
    {
      LevelInside(idx, L, x.nbits, |x.w|);
      StepBIsStep(r, idx);
      BackStep(x.w, r.w, stride, idx, L);
      r := StepB(r, idx);
      idx := idx - 1;
    }
    EndBack(x.w, r.w, stride, idx + 1, L);
    ok, r := true, r.(nbits := x.nbits);
  }

  // ---- scattering and gathering the halves ----

  /** The digits c with digit x put in at place s. */
  function Insert(c: Word, s: nat, x: bool): (b: Word)
    requires s <= |c|
    ensures |b| == |c| + 1
  {
    c[..s] + [x] + c[s..]
  }

  /** hi and lo hold the positions of w, below 2^L, whose digit s is 1 and 0. */
  ghost predicate Halves(w: Word, hi: Word, lo: Word, s: nat, L: nat) {
    forall c: Word :: |c| == L - 1 && s < L ==> HalfAt(w, hi, lo, s, c)
  }

  ghost predicate HalfAt(w: Word, hi: Word, lo: Word, s: nat, c: Word)
    requires s <= |c|
  {
    On(hi, Val(c)) == On(w, Val(Insert(c, s, true))) && On(lo, Val(c)) == On(w, Val(Insert(c, s, false)))
  }

  lemma {:induction false} TopDigit(c: Word, x: bool)
    ensures Val(c + [x]) == Val(c) + if x then Pow2(|c|) else 0
  {
    ValAppend(c, [x]);
    assert Val([x]) == Bit(x);
  }

  /** Nothing beyond a block moves into it. */
  lemma BlockKept(w: Word, r: Word, s: nat, L: nat, e: nat)
    requires |w| == Pow2(e) && L <= e && Moved(w, r, s, L - 1, L)
    requires forall i :: Pow2(L) <= i < |w| ==> !w[i]
    ensures forall i :: Pow2(L) <= i < |w| ==> !r[i]
  {
    forall i | Pow2(L) <= i < |w|
      ensures !r[i]
    {
      DigitsVal(i, e);
      OutsideStays(r, w, s, L, Digits(i, e));
    }
  }

  lemma OutsideStays(r: Word, w: Word, s: nat, L: nat, c: Word)
    requires |r| == |w| == Pow2(|c|) && L <= |c| && Moved(w, r, s, L - 1, L)
    requires Val(c) >= Pow2(L) && forall i :: Pow2(L) <= i < |w| ==> !w[i]
    ensures !On(r, Val(c))
  {
    hide Pow2, Val, MoveTo, MoveBack;
    var b := MoveBack(c, s, L - 1);
    MoveUpAgain(c, s, L - 1);
    assert MovedAt(w, r, s, L - 1, b);
    AboveBlock(c, s, L);
    SameHigh(c, b, L);
  }

  lemma AboveBlock(c: Word, s: nat, L: nat)
    requires L <= |c|
    ensures MoveBack(c, s, L - 1)[L..] == c[L..]
  {
  }

  lemma SameHigh(b: Word, c: Word, L: nat)
    requires L <= |b| == |c| && b[L..] == c[L..] && Val(b) >= Pow2(L)
    ensures Val(c) >= Pow2(L)
  {
    hide Pow2, Val;
    ValSplits(b, L);
    ValSplits(c, L);
    ValBounds(b[..L]);
    HighPart(Val(b), Val(b[..L]), Val(c), Val(c[..L]), Pow2(L), Val(b[L..]));
  }

  lemma ValSplits(b: Word, L: nat)
    requires L <= |b|
    ensures Val(b) == Val(b[..L]) + Pow2(L) * Val(b[L..])
  {
    hide Pow2, Val;
    assert b == b[..L] + b[L..];
    ValAppend(b[..L], b[L..]);
  }

  lemma HighPart(vc: nat, lc: nat, vb: nat, lb: nat, P: nat, h: nat)
    requires vc == lc + P * h && vb == lb + P * h && lc < P && vc >= P
    ensures vb >= P
  {
    if h > 0 {
      MulLe(1, h, P);
    }
  }

  function LowMask(h: nat, n: nat): (m: Word)
    ensures |m| == n && forall i :: 0 <= i < n ==> (m[i] <==> i < h)
  {
    seq(n, i => i < h)
  }

  /** Splits a share by digit stride of its bit positions.  A one-bit share goes to hi whole. */
  method BitScatter(x: BShare, stride: nat, ghost e: nat) returns (ok: bool, hi: BShare, lo: BShare)
    requires x.Valid(e)
    ensures ok <==> HasSingleBit(x.nbits)
    ensures ok ==> hi.Valid(e) && lo.Valid(e) && hi.nbits == x.nbits - x.nbits / 2 && lo.nbits == x.nbits / 2
    ensures ok ==> Halves(x.w, hi.w, lo.w, stride, Log2Ceil(x.nbits))
    ensures ok && x.nbits == 1 ==> hi.w == x.w
  {
    hide Moved, Pow2, Halves;
    var r;
    ok, r := BitDeintlB(x, stride);
    if !ok {
      return false, x, x;
    }
    var L := Log2Ceil(x.nbits);
    Log2CeilLeast(x.nbits, e);
    BlockKept(x.w, r.w, stride, L, e);
    assert r.Valid(e);
    hi := RShiftB(r, x.nbits / 2);
    var mask := LowMask(x.nbits / 2, |x.w|);
    TopOfLowMask(x.nbits / 2, |x.w|);
    lo := AndBP(r, mask);
    SplitInHalves(x.w, r.w, hi.w, lo.w, stride, L, x.nbits, e);
  }

  lemma TopOfLowMask(h: nat, n: nat)
    requires h <= n
    ensures TopWidth(LowMask(h, n)) == h
  {
    var m := LowMask(h, n);
    assert h > 0 ==> m[h - 1];
  }

  /** The block of a de-interleaved word, cut in two. */
  lemma SplitInHalves(w: Word, r: Word, hi: Word, lo: Word, s: nat, L: nat, n: nat, e: nat)
    requires |w| == |r| == Pow2(e) && n == Pow2(L) && L <= e && Moved(w, r, s, L - 1, L)
    requires forall i :: n <= i < |w| ==> !w[i] && !r[i]
    requires n / 2 < |w| ==> hi == Shr(r, n / 2)
    requires lo == And(r, LowMask(n / 2, |w|))
    ensures L == 0 && e > 0 ==> hi == w
    ensures Halves(w, hi, lo, s, L)
  {
    hide Moved, Val, HalfAt;
    if L == 0 {
      UnmovedWhenOne(w, r, s, e);
    } else {
      Pow2Grows(L, e);
      forall c: Word | |c| == L - 1 && s < L
        ensures HalfAt(w, hi, lo, s, c)
      {
        SplitAtPosition(w, r, hi, lo, s, L, n, e, c);
      }
    }
  }

  lemma UnmovedWhenOne(w: Word, r: Word, s: nat, e: nat)
    requires |w| == |r| == Pow2(e) && Moved(w, r, s, 0 - 1, 0)
    ensures r == w
  {
    forall i | 0 <= i < |w|
      ensures r[i] == w[i]
    {
      DigitsVal(i, e);
      assert MovedAt(w, r, s, 0 - 1, Digits(i, e));
    }
  }

  lemma SplitAtPosition(w: Word, r: Word, hi: Word, lo: Word, s: nat, L: nat, n: nat, e: nat, c: Word)
    requires |w| == |r| == Pow2(e) && n == Pow2(L) && s < L <= e && Moved(w, r, s, L - 1, L) && |c| == L - 1
    requires hi == Shr(r, n / 2) && lo == And(r, LowMask(n / 2, |w|))
    ensures HalfAt(w, hi, lo, s, c)
  {
    hide Val, Pow2, Insert, MoveTo, LowMask, Moved, Shr, And;
    Pow2Grows(L, e);
    HalfOfPow2(L);
    InsertedOnTop(w, r, s, c, true, L);
    InsertedOnTop(w, r, s, c, false, L);
    ValBounds(c);
    HighAndLow(r, n / 2, Val(c));
  }

  lemma InsertedOnTop(w: Word, r: Word, s: nat, c: Word, x: bool, L: nat)
    requires |r| == |w| >= Pow2(L) && s < L == |c| + 1 && Moved(w, r, s, L - 1, L)
    ensures On(w, Val(Insert(c, s, x))) == On(r, Val(c) + if x then Pow2(L - 1) else 0)
  {
    hide Val, Pow2, Insert, MoveTo;
    assert MovedAt(w, r, s, L - 1, Insert(c, s, x));
    InsertMoves(c, s, x);
    TopDigit(c, x);
  }

  lemma HighAndLow(r: Word, h: nat, v: nat)
    requires v < h
    ensures On(Shr(r, h), v) == On(r, v + h) && On(And(r, LowMask(h, |r|)), v) == On(r, v)
  {
  }

  lemma HalfOfPow2(L: nat)
    requires L >= 1
    ensures Pow2(L) / 2 == Pow2(L - 1) && Pow2(L) == 2 * Pow2(L - 1)
  {
  }

  lemma InsertMoves(c: Word, s: nat, x: bool)
    requires s <= |c|
    ensures MoveTo(Insert(c, s, x), s, |c|) == c + [x]
  {
    var b := Insert(c, s, x);
    assert b[..s] == c[..s] && b[s + 1..] == c[s..];
    if s < |c| {
      assert b[s + 1..|c| + 1] == c[s..];
      assert b[|c| + 1..] == [];
      assert c[..s] + c[s..] == c;
    }
  }

  /** Puts the halves back together. */
  method BitGather(hi: BShare, lo: BShare, stride: nat, ghost e: nat) returns (ok: bool, x: BShare)
    requires hi.Valid(e) && lo.Valid(e)
    ensures ok <==> HasSingleBit(hi.nbits) && hi.nbits == lo.nbits
    ensures ok && hi.nbits < |hi.w| ==>
      x.Valid(e) && x.nbits == 2 * hi.nbits && Halves(x.w, hi.w, lo.w, stride, Log2Ceil(x.nbits))
    ensures ok && hi.nbits == |hi.w| ==>
      x.nbits == |hi.w| == |x.w| && Moved(x.w, Xor(hi.w, lo.w), stride, Log2Ceil(|hi.w|) - 1, Log2Ceil(|hi.w|))
  {
    hide Moved, Pow2, Halves, HasSingleBit, Log2Ceil, LShiftB, XorBB, Xor, Shl;
    if !(HasSingleBit(hi.nbits) && hi.nbits == lo.nbits) {
      return false, hi;
    }
    var r := XorBB(LShiftB(hi, hi.nbits), lo);
    if hi.nbits == |hi.w| {
      UnshiftedWhenFull(hi);
    }
    ok, x := BitIntlB(r, stride);
    if hi.nbits == |hi.w| {
      return;
    }
    SingleBelow(hi.nbits, |hi.w|, e);
    var L := Log2Ceil(hi.nbits) + 1;
    DoubleWidth(hi.nbits);
    Log2CeilLeast(r.nbits, e);
    BlockKeptBack(r.w, x.w, stride, L, e);
    JoinHalves(x.w, r.w, hi.w, lo.w, stride, L, r.nbits, e);
  }

  /** Shift counts are taken modulo the word's width. */
  lemma UnshiftedWhenFull(a: BShare)
    requires a.nbits == |a.w| >= 1
    ensures LShiftB(a, a.nbits) == a
  {
    assert Shl(a.w, 0) == a.w;
  }

  /** A power of two below another is at most half of it. */
  lemma SingleBelow(n: nat, w: nat, e: nat)
    requires HasSingleBit(n) && w == Pow2(e) && n < w
    ensures 2 * n <= w
  {
    if Log2Ceil(n) < e {
      Pow2Grows(Log2Ceil(n), e);
    } else {
      Pow2Grows(e, Log2Ceil(n));
    }
  }

  lemma DoubleWidth(n: nat)
    requires HasSingleBit(n)
    ensures HasSingleBit(2 * n) && Log2Ceil(2 * n) == Log2Ceil(n) + 1
  {
    Log2CeilLeast(2 * n, Log2Ceil(n) + 1);
  }

  lemma BlockKeptBack(w: Word, r: Word, s: nat, L: nat, e: nat)
    requires |w| == |r| == Pow2(e) && L <= e && Moved(r, w, s, L - 1, L)
    requires forall i :: Pow2(L) <= i < |w| ==> !w[i]
    ensures forall i :: Pow2(L) <= i < |w| ==> !r[i]
  {
    hide Moved;
    forall i | Pow2(L) <= i < |w|
      ensures !r[i]
    {
      DigitsVal(i, e);
      OutsideStaysBack(w, r, s, L, Digits(i, e));
    }
  }

  lemma OutsideStaysBack(w: Word, r: Word, s: nat, L: nat, b: Word)
    requires |r| == |w| == Pow2(|b|) && L <= |b| && Moved(r, w, s, L - 1, L)
    requires Val(b) >= Pow2(L) && forall i :: Pow2(L) <= i < |w| ==> !w[i]
    ensures !On(r, Val(b))
  {
    hide Pow2, Val, MoveTo;
    assert MovedAt(r, w, s, L - 1, b);
    AboveMoved(b, s, L);
    SameHigh(b, MoveTo(b, s, L - 1), L);
  }

  lemma AboveMoved(b: Word, s: nat, L: nat)
    requires L <= |b|
    ensures MoveTo(b, s, L - 1)[L..] == b[L..]
  {
  }

  lemma JoinHalves(w: Word, r: Word, hi: Word, lo: Word, s: nat, L: nat, n: nat, e: nat)
    requires |w| == |r| == |hi| == |lo| == Pow2(e) && n == Pow2(L) && 1 <= L <= e && Moved(w, r, s, L - 1, L)
    requires forall i :: n / 2 <= i < |w| ==> !hi[i] && !lo[i]
    requires r == Xor(Shl(hi, n / 2), lo)
    ensures Halves(w, hi, lo, s, L)
  {
    hide Moved;
    forall c: Word | |c| == L - 1 && s < L
      ensures HalfAt(w, hi, lo, s, c)
    {
      JoinAtPosition(w, r, hi, lo, s, L, n, e, c);
    }
  }

  lemma MovedApplies(w: Word, r: Word, s: nat, L: nat, b: Word)
    requires Moved(w, r, s, L - 1, L) && |b| == L && Pow2(L) <= |w|
    ensures MovedAt(w, r, s, L - 1, b)
  {
    assert MovedAt(w, r, s, L - 1, b);
  }

  lemma JoinBits(r: Word, hi: Word, lo: Word, h: nat)
    requires |r| == |hi| == |lo| >= 2 * h && r == Xor(Shl(hi, h), lo)
    requires forall i :: h <= i < |r| ==> !hi[i] && !lo[i]
    ensures forall v :: 0 <= v < h ==> On(r, v) == On(lo, v) && On(r, v + h) == On(hi, v)
  {
  }

  lemma JoinAtPosition(w: Word, r: Word, hi: Word, lo: Word, s: nat, L: nat, n: nat, e: nat, c: Word)
    requires |w| == |r| == |hi| == |lo| == Pow2(e) && n == Pow2(L) && s < L <= e && Moved(w, r, s, L - 1, L) && |c| == L - 1
    requires forall i :: n / 2 <= i < |w| ==> !hi[i] && !lo[i]
    requires r == Xor(Shl(hi, n / 2), lo)
    ensures HalfAt(w, hi, lo, s, c)
  {
    hide Val, Pow2, Insert, MoveTo, Moved, Xor, Shl;
    var h, l := Insert(c, s, true), Insert(c, s, false);
    Pow2Grows(L, e);
    HalfOfPow2(L);
    JoinBits(r, hi, lo, n / 2);
    InsertMoves(c, s, true);
    InsertMoves(c, s, false);
    MovedApplies(w, r, s, L, h);
    MovedApplies(w, r, s, L, l);
    TopDigit(c, true);
    TopDigit(c, false);
    ValBounds(c);
  }
}
