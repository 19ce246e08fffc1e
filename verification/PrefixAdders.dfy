/** Log-depth adders over boolean shares. */
module PrefixAdders {
  import opened Arith
  import opened Bits
  import opened BitInterleave
  import opened BooleanShares

  /** The sum modulo the ring size. */
  ghost predicate IsSum(x: Word, y: Word, z: Word) {
    |z| == |x| && Val(z) == (Val(x) + Val(y)) % Pow2(|x|)
  }

  lemma SumLowIsSum(x: Word, y: Word)
    requires |x| == |y|
    ensures IsSum(x, y, SumLow(x, y, |x|))
  {
    hide SumLow, Low;
    CarryIsGroupG(x, y, |x|);
    assert Low(x, |x|) == x && Low(y, |y|) == y by { LowWhole(x); LowWhole(y); }
    ValBounds(SumLow(x, y, |x|));
    DivModUnique(Val(x) + Val(y), if Carry(x, y, |x|) then 1 else 0, Val(SumLow(x, y, |x|)), Pow2(|x|));
  }

  lemma LowWhole(x: Word)
    ensures Low(x, |x|) == x
  {
  }

  // ---- Kogge-Stone ----

  /** Entry i speaks for the D positions up to and including i, those below zero generating nothing. */
  ghost predicate Spans(g: Word, p: Word, G: Word, P: Word, D: nat) {
    && |G| == |P| == |g|
    && forall i :: 0 <= i < |g| ==> SpansAt(g, p, G, P, D, i)
  }

  ghost predicate SpansAt(g: Word, p: Word, G: Word, P: Word, D: nat, i: int) {
    On(P, i) == GroupP(p, i + 1 - D, i + 1) && On(G, i) == GroupG(g, p, i + 1 - D, i + 1)
  }

  lemma SingleSpans(g: Word, p: Word)
    requires |g| == |p|
    ensures Spans(g, p, g, p, 1)
  {
    forall i | 0 <= i < |g|
      ensures SpansAt(g, p, g, p, 1, i)
    {
      assert !GroupG(g, p, i, i) && GroupP(p, i, i);
    }
  }

  lemma {:induction false} BelowZero(g: Word, p: Word, lo: int, hi: int)
    requires lo < hi <= 0
    ensures !GroupP(p, lo, hi) && !GroupG(g, p, lo, hi)
    decreases hi - lo
  {
    if lo < hi - 1 {
      BelowZero(g, p, lo, hi - 1);
    }
  }

  /** One level doubles the span. */
  lemma SpansDouble(g: Word, p: Word, G: Word, P: Word, D: nat)
    requires Spans(g, p, G, P, D) && D >= 1
    ensures Spans(g, p, Xor(G, And(P, Shl(G, D))), And(P, Shl(P, D)), 2 * D)
  {
    hide GroupG, GroupP;
    forall i | 0 <= i < |g|
      ensures SpansAt(g, p, Xor(G, And(P, Shl(G, D))), And(P, Shl(P, D)), 2 * D, i)
    {
      assert SpansAt(g, p, G, P, D, i);
      GroupsCombine(g, p, i + 1 - 2 * D, i + 1 - D, i + 1);
      if i >= D {
        assert SpansAt(g, p, G, P, D, i - D);
      } else {
        BelowZero(g, p, i + 1 - 2 * D, i + 1 - D);
      }
    }
  }

  /** Once the span covers every position that matters, entry i is the carry out of position i. */
  lemma SpansAll(x: Word, y: Word, G: Word, P: Word, D: nat, n: nat)
    requires |x| == |y| && Spans(And(x, y), Xor(x, y), G, P, D) && n <= D
    requires forall i :: n <= i < |x| ==> !x[i] && !y[i]
    ensures Xor(Xor(x, y), Shl(G, 1)) == SumLow(x, y, |x|)
  {
    var g, p := And(x, y), Xor(x, y);
    forall i | 0 <= i < |x|
      ensures On(Shl(G, 1), i) == GroupG(g, p, 0, i)
    {
      if i > 0 {
        assert SpansAt(g, p, G, P, D, i - 1);
        WholeSpan(g, p, i, D, n);
      }
    }
  }

  lemma WholeSpan(g: Word, p: Word, i: int, D: nat, n: nat)
    requires 0 < i && n <= D && forall j :: n <= j ==> !On(g, j) && !On(p, j)
    ensures GroupG(g, p, i - D, i) == GroupG(g, p, 0, i)
  {
    if i - D < 0 {
      GroupsCombine(g, p, i - D, 0, i);
      BelowZero(g, p, i - D, 0);
    }
  }

  /** The Kogge-Stone adder, for operands below 2^nbits. */
  method PpaKoggeStone(lhs: BShare, rhs: BShare, nbits: nat, ghost e: nat) returns (out: BShare)
    requires lhs.Valid(e) && rhs.Valid(e) && lhs.nbits == rhs.nbits <= nbits <= |lhs.w|
    ensures IsSum(lhs.w, rhs.w, out.w) && out.Valid(e)
  {
    hide Spans, IsSum, SumLow, Pow2, And, Xor, Shl;
    var P, G := XorBB(lhs, rhs), AndBB(lhs, rhs);
    ghost var g, p := And(lhs.w, rhs.w), Xor(lhs.w, rhs.w);
    SingleSpans(g, p);
    assert Pow2(0) == 1 by { Powers(); }
    var idx := 0;
    while idx < Log2Ceil(nbits)
      invariant 0 <= idx <= Log2Ceil(nbits) && P.Valid(e) && G.Valid(e)
      invariant Spans(g, p, G.w, P.w, Pow2(idx)) && P.nbits == G.nbits == lhs.nbits
    {
      var offset := Pow2(idx);
      Offset(idx, nbits);
      SpansDouble(g, p, G.w, P.w, offset);
      var G1, P1 := LShiftB(G, offset), LShiftB(P, offset);
      var packed, res0, res1 := AndPairs(P, P, P1, G1);
      assert packed;
      P := res0;
      G := XorBB(G, res1);
      idx := idx + 1;
    }
    Log2CeilBounds(nbits);
    var C := LShiftB(G, 1);
    SpansAll(lhs.w, rhs.w, G.w, P.w, Pow2(idx), nbits);
    out := XorBB(XorBB(lhs, rhs), C);
    SumLowIsSum(lhs.w, rhs.w);
  }

  lemma Offset(idx: nat, n: nat)
    requires idx < Log2Ceil(n)
    ensures Pow2(idx) < n && Pow2(idx + 1) == 2 * Pow2(idx)
  {
    Log2CeilBounds(n);
    Pow2Grows(idx, Log2Ceil(n) - 1);
  }

  // ---- Sklansky ----

  const SEL0 := "FFFFFFFFFFFFFFFFFFFFFFFFFFFFFFFF"
  const SEL1 := "AAAAAAAAAAAAAAAAAAAAAAAAAAAAAAAA"
  const SEL2 := "88888888888888888888888888888888"
  const SEL3 := "80808080808080808080808080808080"
  const SEL4 := "80008000800080008000800080008000"
  const SEL5 := "80000000800000008000000080000000"
  const SEL6 := "80000000000000008000000000000000"

  function SelMask(idx: nat): string {
    match idx
    case 0 => SEL0
    case 1 => SEL1
    case 2 => SEL2
    case 3 => SEL3
    case 4 => SEL4
    case 5 => SEL5
    case _ => SEL6
  }

  lemma SelDigitsLow(p: nat)
    requires p < 32
    ensures |SEL0| == |SEL1| == |SEL2| == 32 && SEL0[p] == 'F' && SEL1[p] == 'A' && SEL2[p] == '8'
  {
  }

  lemma SelDigits3(p: nat)
    requires p < 32
    ensures |SEL3| == 32 && SEL3[p] == if p % 2 == 0 then '8' else '0'
  {
  }

  lemma SelDigits4(p: nat)
    requires p < 32
    ensures |SEL4| == 32 && SEL4[p] == if p % 4 == 0 then '8' else '0'
  {
  }

  lemma SelDigits5(p: nat)
    requires p < 32
    ensures |SEL5| == 32 && SEL5[p] == if p % 8 == 0 then '8' else '0'
  {
  }

  lemma SelDigits6(p: nat)
    requires p < 32
    ensures |SEL6| == 32 && SEL6[p] == if p % 16 == 0 then '8' else '0'
  {
  }

  lemma SelDigitBits()
    ensures HexDigit('F') == 15 && HexDigit('A') == 10 && HexDigit('8') == 8 && HexDigit('0') == 0
    ensures forall k :: 0 <= k < 4 ==> DigitBit(15, k) && !DigitBit(0, k)
    ensures forall k :: 0 <= k < 4 ==> (DigitBit(10, k) <==> k % 2 == 1) && (DigitBit(8, k) <==> k == 3)
  {
  }

  lemma SelBitsLow(i: nat)
    requires i < 128
    ensures HexBit(SEL0, i)
    ensures HexBit(SEL1, i) <==> i % 2 == 1
    ensures HexBit(SEL2, i) <==> i % 4 == 3
    ensures HexBit(SEL3, i) <==> i % 8 == 7
  {
    hide SEL0, SEL1, SEL2, SEL3, HexDigit, DigitBit;
    SelDigitsLow(31 - i / 4);
    SelDigits3(31 - i / 4);
    SelDigitBits();
  }

  lemma SelBitsHigh(i: nat)
    requires i < 128
    ensures HexBit(SEL4, i) <==> i % 16 == 15
    ensures HexBit(SEL5, i) <==> i % 32 == 31
    ensures HexBit(SEL6, i) <==> i % 64 == 63
  {
    hide SEL4, SEL5, SEL6, HexBit;
    var p := 31 - i / 4;
    SelDigits4(p);
    SelDigits5(p);
    SelDigits6(p);
    EightOrZero(SEL4, i, 4);
    EightOrZero(SEL5, i, 8);
    EightOrZero(SEL6, i, 16);
    TopPlaces(i);
  }

  /** A mask whose digits are 8 at every step-th place and 0 between. */
  lemma EightOrZero(s: string, i: nat, step: nat)
    requires i < 128 && |s| == 32 && step >= 1
    requires s[31 - i / 4] == if (31 - i / 4) % step == 0 then '8' else '0'
    ensures HexBit(s, i) <==> (31 - i / 4) % step == 0 && i % 4 == 3
  {
    hide HexDigit, DigitBit;
    SelDigitBits();
  }

  lemma TopPlaces(i: nat)
    requires i < 128
    ensures (31 - i / 4) % 4 == 0 && i % 4 == 3 <==> i % 16 == 15
    ensures (31 - i / 4) % 8 == 0 && i % 4 == 3 <==> i % 32 == 31
    ensures (31 - i / 4) % 16 == 0 && i % 4 == 3 <==> i % 64 == 63
  {
    var q, r := i / 4, i % 4;
    TopPlacesOf(q, r);
  }

  lemma TopPlacesOf(q: nat, r: nat)
    requires q < 32 && r < 4
    ensures (31 - q) % 4 == 0 && r == 3 <==> (4 * q + r) % 16 == 15
    ensures (31 - q) % 8 == 0 && r == 3 <==> (4 * q + r) % 32 == 31
    ensures (31 - q) % 16 == 0 && r == 3 <==> (4 * q + r) % 64 == 63
  {
    TopPlaceOf(q / 4, q % 4, r, 4, 8);
    TopPlaceOf(q / 8, q % 8, r, 8, 4);
    TopPlaceOf(q / 16, q % 16, r, 16, 2);
  }

  lemma TopPlaceOf(a: nat, b: nat, r: nat, c: nat, d: nat)
    requires b < c && r < 4 && a < d && c * d == 32
    ensures (31 - (a * c + b)) % c == 0 && r == 3 <==> (4 * (a * c + b) + r) % (4 * c) == 4 * c - 1
  {
    assert (d - 1 - a) * c + (c - 1 - b) == 31 - (a * c + b);
    DivModUnique(31 - (a * c + b), d - 1 - a, c - 1 - b, c);
    assert a * (4 * c) + (4 * b + r) == 4 * (a * c + b) + r;
    DivModUnique(4 * (a * c + b) + r, a, 4 * b + r, 4 * c);
  }

  /** Level idx selects the last position of every run of 2^idx. */
  lemma SelMaskBits(idx: nat, i: nat)
    requires idx < 7 && i < 128
    ensures HexBit(SelMask(idx), i) <==> i % Pow2(idx) == Pow2(idx) - 1
  {
    hide Pow2, HexBit, SEL0, SEL1, SEL2, SEL3, SEL4, SEL5, SEL6;
    Powers();
    assert Pow2(6) == 64 by { Power6(); }
    SelBitsLow(i);
    SelBitsHigh(i);
  }

  lemma Power6()
    ensures Pow2(6) == 64
  {
  }

  /** How far position i is from the last position of its run. */
  function ToEnd(i: nat, D: nat): nat
    requires D >= 1
  {
    D - 1 - i % D
  }

  /** The selected bits have reached positions fewer than t below them. */
  ghost predicate SpreadTo(x: Word, a: Word, D: nat, t: nat)
    requires D >= 1
  {
    && |a| == |x|
    && forall i :: 0 <= i < |x| ==> SpreadAt(x, a, D, t, i)
  }

  ghost predicate SpreadAt(x: Word, a: Word, D: nat, t: nat, i: nat)
    requires D >= 1
  {
    On(a, i) == (ToEnd(i, D) < t && On(x, i + ToEnd(i, D)))
  }

  lemma Selected(x: Word, idx: nat)
    requires idx < 7 && |x| <= 128
    ensures SpreadTo(x, And(x, MaskWord(SelMask(idx), |x|)), Pow2(idx), 1)
  {
    hide Pow2, HexBit, SelMask;
    forall i | 0 <= i < |x|
      ensures SpreadAt(x, And(x, MaskWord(SelMask(idx), |x|)), Pow2(idx), 1, i)
    {
      SelMaskBits(idx, i);
    }
  }

  lemma ToEndShifted(i: nat, D: nat, t: nat)
    requires 1 <= t && 2 * t <= D
    ensures ToEnd(i + t, D) == if ToEnd(i, D) >= t then ToEnd(i, D) - t else ToEnd(i, D) - t + D
  {
    var q, r := i / D, i % D;
    if r + t < D {
      DivModUnique(i + t, q, r + t, D);
    } else {
      DivModUnique(i + t, q + 1, r + t - D, D) by { assert (q + 1) * D == q * D + D; }
    }
  }

  lemma SpreadDoubles(x: Word, a: Word, D: nat, t: nat)
    requires 1 <= t && 2 * t <= D && SpreadTo(x, a, D, t)
    ensures SpreadTo(x, Xor(a, Shr(a, t)), D, 2 * t)
  {
    hide SpreadAt;
    forall i | 0 <= i < |x|
      ensures SpreadAt(x, Xor(a, Shr(a, t)), D, 2 * t, i)
    {
      SpreadDoublesAt(x, a, D, t, i);
    }
  }

  lemma SpreadDoublesAt(x: Word, a: Word, D: nat, t: nat, i: nat)
    requires 1 <= t && 2 * t <= D && |a| == |x| && i < |x| && SpreadAt(x, a, D, t, i)
    requires i + t < |x| ==> SpreadAt(x, a, D, t, i + t)
    ensures SpreadAt(x, Xor(a, Shr(a, t)), D, 2 * t, i)
  {
    hide ToEnd, Xor, Shr;
    XorShrAt(a, t, i);
    ToEndShifted(i, D, t);
  }

  lemma XorShrAt(a: Word, t: nat, i: nat)
    requires i < |a|
    ensures On(Xor(a, Shr(a, t)), i) == (On(a, i) != On(a, i + t))
  {
  }

  /** Copies the last bit of every run of 2^idx positions over the whole run. */
  method Spread(x: BShare, idx: nat, ghost e: nat) returns (a: BShare)
    requires x.Valid(e) && idx < 7 && 2 * Pow2(idx) <= |x.w|
    ensures a.Valid(e) && a.nbits == x.nbits && SpreadTo(x.w, a.w, Pow2(idx), Pow2(idx))
  {
    hide SpreadTo, Pow2;
    var mask := MaskWord(SelMask(idx), |x.w|);
    Selected(x.w, idx);
    assert TopWidth(mask) == |x.w| by { SelMaskTop(idx, e); }
    assert Pow2(0) == 1 by { Powers(); }
    a := AndBP(x, mask);
    var j := 0;
    while j < idx
      invariant 0 <= j <= idx && a.Valid(e) && a.nbits == x.nbits
      invariant SpreadTo(x.w, a.w, Pow2(idx), Pow2(j))
    {
      Pow2Grows(j, idx);
      assert Pow2(j + 1) == 2 * Pow2(j) by { NextPower(j); }
      SpreadDoubles(x.w, a.w, Pow2(idx), Pow2(j));
      a := XorBB(a, RShiftB(a, Pow2(j)));
      j := j + 1;
    }
  }

  lemma NextPower(j: nat)
    ensures Pow2(j + 1) == 2 * Pow2(j)
  {
  }

  lemma LastPlace(idx: nat, e: nat)
    requires 2 * Pow2(idx) <= Pow2(e)
    ensures (Pow2(e) - 1) % Pow2(idx) == Pow2(idx) - 1
  {
    hide Pow2;
    if idx > e {
      Pow2Grows(e, idx);
    }
    Pow2Add(e - idx, idx);
    LastOfRun(Pow2(e - idx), Pow2(idx));
  }

  lemma TopSet(w: Word)
    requires w != [] && w[|w| - 1]
    ensures TopWidth(w) == |w|
  {
  }

  lemma SelMaskTop(idx: nat, e: nat)
    requires idx < 7 && 2 * Pow2(idx) <= Pow2(e) <= 128
    ensures TopWidth(MaskWord(SelMask(idx), Pow2(e))) == Pow2(e)
  {
    hide Pow2, SelMask, HexBit, TopWidth;
    var W := Pow2(e);
    LastPlace(idx, e);
    SelMaskBits(idx, W - 1);
    TopSet(MaskWord(SelMask(idx), W));
  }

  lemma LastOfRun(q: nat, D: nat)
    requires q >= 1 && D >= 1
    ensures (q * D - 1) % D == D - 1
  {
    DivModUnique(q * D - 1, q - 1, D - 1, D) by {
      assert (q - 1) * D == q * D - D;
    }
  }

  /** Entry i speaks for the positions from the start of its run of D up to i. */
  ghost predicate Runs(g: Word, p: Word, G: Word, P: Word, D: nat, n: nat)
    requires D >= 1
  {
    forall i :: 0 <= i < n ==> RunsAt(g, p, G, P, D, i)
  }

  ghost predicate RunsAt(g: Word, p: Word, G: Word, P: Word, D: nat, i: nat)
    requires D >= 1
  {
    On(P, i) == GroupP(p, i - i % D, i + 1) && On(G, i) == GroupG(g, p, i - i % D, i + 1)
  }

  lemma SingleRuns(g: Word, p: Word, n: nat)
    ensures Runs(g, p, g, p, 1, n)
  {
    forall i | 0 <= i < n
      ensures RunsAt(g, p, g, p, 1, i)
    {
      assert !GroupG(g, p, i, i) && GroupP(p, i, i);
    }
  }

  /** Position i in digits: lo below digit s, digit s itself, h above. */
  lemma DigitsAround(b: Word, s: nat)
    requires s < |b|
    ensures var lo, h, D := Val(b[..s]), Val(b[s + 1..]), Pow2(s);
      lo < D && Val(b) == lo + D * (Bit(b[s]) + 2 * h)
      && Val(Insert(Ones(s) + b[s + 1..], s, false)) == D - 1 + D * (2 * h)
  {
    hide Pow2, Val;
    var lo, hi := b[..s], b[s + 1..];
    assert b == lo + ([b[s]] + hi);
    ValAppend(lo, [b[s]] + hi);
    HeadDigit(b[s], hi);
    ValBounds(lo);
    var m := Insert(Ones(s) + hi, s, false);
    assert (Ones(s) + hi)[..s] == Ones(s) && (Ones(s) + hi)[s..] == hi;
    assert m == Ones(s) + ([false] + hi);
    ValAppend(Ones(s), [false] + hi);
    HeadDigit(false, hi);
    ValOnes(s);
  }

  lemma HeadDigit(x: bool, hi: Word)
    ensures Val([x] + hi) == Bit(x) + 2 * Val(hi)
  {
    assert ([x] + hi)[1..] == hi;
  }

  /** In runs of D and of 2 D, where position i and the last position of the run before stand. */
  lemma RunStarts(lo: nat, x: bool, h: nat, D: nat)
    requires lo < D
    ensures var i := lo + D * (Bit(x) + 2 * h);
      i % D == lo && i % (2 * D) == lo + (if x then D else 0)
      && (x ==> D - 1 + D * (2 * h) == i - lo - 1 && (i - lo - 1) % D == D - 1)
  {
    var low, high := Bit(x) + 2 * h, lo + (if x then D else 0);
    Distribute(Bit(x), 2 * h, D);
    MulAssoc(h, 2, D);
    DivModUnique(lo + D * low, low, lo, D);
    DivModUnique(lo + D * low, h, high, 2 * D);
    if x {
      DivModUnique(D - 1 + D * (2 * h), 2 * h, D - 1, D);
    }
  }

  /** The last position of the run that c lies in: its lower digits all ones. */
  lemma RunEnd(c: Word, s: nat)
    requires s <= |c|
    ensures Val(c) + ToEnd(Val(c), Pow2(s)) == Val(Ones(s) + c[s..])
  {
    hide Pow2, Val;
    assert c == c[..s] + c[s..];
    ValAppend(c[..s], c[s..]);
    ValBounds(c[..s]);
    ValAppend(Ones(s), c[s..]);
    ValOnes(s);
    DivModUnique(Val(c), Val(c[s..]), Val(c[..s]), Pow2(s));
  }

  /**
    One level of the Sklansky adder at the position with digits b: where digit s is 1, the lower
    half of the run is combined in.
   */
  lemma SklanskyAt(g: Word, p: Word, G: Word, P: Word, Gh: Word, Ph: Word, Gl: Word, Pl: Word, Gs: Word, Ps: Word,
                   G': Word, P': Word, s: nat, b: Word)
    requires s < |b| && |Gh| == |Ph| && Val(b) < Pow2(|b|) == 2 * Pow2(|b| - 1) <= |Gh|
    requires |Gl| == |Pl| == |Gh|
    requires Runs(g, p, G, P, Pow2(s), Pow2(|b|))
    requires Halves(G, Gh, Gl, s, |b|) && Halves(P, Ph, Pl, s, |b|)
    requires SpreadTo(Gl, Gs, Pow2(s), Pow2(s)) && SpreadTo(Pl, Ps, Pow2(s), Pow2(s))
    requires Halves(G', Xor(Gh, And(Ph, Gs)), Gl, s, |b|) && Halves(P', And(Ph, Ps), Pl, s, |b|)
    ensures RunsAt(g, p, G', P', 2 * Pow2(s), Val(b))
  {
    hide Pow2, Val, GroupG, GroupP, Insert, Halves, Runs, SpreadTo;
    var c := b[..s] + b[s + 1..];
    var D, i := Pow2(s), Val(b);
    WithoutDigit(b, s);
    HalvesApply(G, Gh, Gl, s, c);
    HalvesApply(P, Ph, Pl, s, c);
    HalvesApply(G', Xor(Gh, And(Ph, Gs)), Gl, s, c);
    HalvesApply(P', And(Ph, Ps), Pl, s, c);
    DigitsAround(b, s);
    RunStarts(Val(b[..s]), b[s], Val(b[s + 1..]), D);
    RunsApply(g, p, G, P, D, Pow2(|b|), i);
    if b[s] {
      var below := Ones(s) + c[s..];
      HalvesApply(G, Gh, Gl, s, below);
      HalvesApply(P, Ph, Pl, s, below);
      ValBounds(c);
      RunEnd(c, s);
      SpreadApplies(Gl, Gs, D, Val(c));
      SpreadApplies(Pl, Ps, D, Val(c));
      var m := i - Val(b[..s]);
      RunsApply(g, p, G, P, D, Pow2(|b|), m - 1);
      GroupsCombine(g, p, m - D, m, i + 1);
    }
  }

  lemma WithoutDigit(b: Word, s: nat)
    requires s < |b|
    ensures var c := b[..s] + b[s + 1..];
      |c| == |b| - 1 && Insert(c, s, b[s]) == b && c[s..] == b[s + 1..]
  {
    var c := b[..s] + b[s + 1..];
    assert c[..s] == b[..s] && c[s..] == b[s + 1..];
  }

  lemma HalvesApply(w: Word, hi: Word, lo: Word, s: nat, c: Word)
    requires s <= |c| && Halves(w, hi, lo, s, |c| + 1)
    ensures On(hi, Val(c)) == On(w, Val(Insert(c, s, true))) && On(lo, Val(c)) == On(w, Val(Insert(c, s, false)))
  {
    assert HalfAt(w, hi, lo, s, c);
  }

  lemma RunsApply(g: Word, p: Word, G: Word, P: Word, D: nat, n: nat, i: nat)
    requires D >= 1 && Runs(g, p, G, P, D, n) && i < n
    ensures On(P, i) == GroupP(p, i - i % D, i + 1) && On(G, i) == GroupG(g, p, i - i % D, i + 1)
  {
    assert RunsAt(g, p, G, P, D, i);
  }

  lemma SpreadApplies(x: Word, a: Word, D: nat, i: nat)
    requires D >= 1 && SpreadTo(x, a, D, D) && i < |x|
    ensures On(a, i) == On(x, i + ToEnd(i, D))
  {
    assert SpreadAt(x, a, D, D, i);
  }

  /** One level at every position below n. */
  lemma SklanskyLevel(g: Word, p: Word, G: Word, P: Word, Gh: Word, Ph: Word, Gl: Word, Pl: Word, Gs: Word, Ps: Word,
                      G': Word, P': Word, s: nat, L: nat)
    requires s < L && |Gh| == |Ph| == |Gl| == |Pl| && Pow2(L) <= |Gh|
    requires Runs(g, p, G, P, Pow2(s), Pow2(L))
    requires Halves(G, Gh, Gl, s, L) && Halves(P, Ph, Pl, s, L)
    requires SpreadTo(Gl, Gs, Pow2(s), Pow2(s)) && SpreadTo(Pl, Ps, Pow2(s), Pow2(s))
    requires Halves(G', Xor(Gh, And(Ph, Gs)), Gl, s, L) && Halves(P', And(Ph, Ps), Pl, s, L)
    ensures Runs(g, p, G', P', Pow2(s + 1), Pow2(L))
  {
    hide Pow2, Halves, SpreadTo, RunsAt;
    NextPower(s);
    NextPower(L - 1);
    var D := Pow2(s + 1);
    forall i | 0 <= i < Pow2(L)
      ensures RunsAt(g, p, G', P', D, i)
    {
      DigitsVal(i, L);
      SklanskyAt(g, p, G, P, Gh, Ph, Gl, Pl, Gs, Ps, G', P', s, Digits(i, L));
    }
  }

  /** When the run is the whole word. */
  lemma RunsAll(x: Word, y: Word, G: Word, P: Word, n: nat)
    requires |x| == |y| == |G| && n <= |x| && (n >= 1 ==> Runs(And(x, y), Xor(x, y), G, P, n, n))
    requires forall i :: n <= i < |x| ==> !x[i] && !y[i] && !G[i]
    ensures Xor(Xor(x, y), Shl(G, 1)) == SumLow(x, y, |x|)
  {
    var g, p := And(x, y), Xor(x, y);
    forall i | 0 <= i < |x|
      ensures On(Shl(G, 1), i) == GroupG(g, p, 0, i)
    {
      RunsAllAt(g, p, G, P, n, i);
    }
  }

  lemma RunsAllAt(g: Word, p: Word, G: Word, P: Word, n: nat, i: nat)
    requires |g| == |p| == |G| && i < |G| && (n >= 1 ==> Runs(g, p, G, P, n, n))
    requires forall i :: n <= i < |G| ==> !g[i] && !p[i] && !G[i]
    ensures On(Shl(G, 1), i) == GroupG(g, p, 0, i)
  {
    if 0 < i <= n {
      RunsApply(g, p, G, P, n, n, i - 1);
      DivModUnique(i - 1, 0, i - 1, n);
    }
  }

  lemma HalfWidth(n: nat)
    requires HasSingleBit(n) && n >= 2
    ensures n - n / 2 == n / 2 && 2 * (n / 2) == n && HasSingleBit(n / 2) && Pow2(Log2Ceil(n)) == n && Log2Ceil(n) >= 1
  {
    Log2CeilBounds(n);
    Log2CeilLeast(n / 2, Log2Ceil(n) - 1);
  }

  lemma RoomForRuns(idx: nat, n: nat, W: nat)
    requires idx < Log2Ceil(n) && n <= W <= 128 && HasSingleBit(n)
    ensures idx < 7 && 2 * Pow2(idx) <= W && n >= 2
  {
    AtMostSeven(n);
    Pow2Grows(idx, Log2Ceil(n));
  }

  /** One round of the Sklansky adder's loop. */
  method SklanskyRound(G: BShare, P: BShare, idx: nat, n: nat, ghost g: Word, ghost p: Word, ghost e: nat)
    returns (ok: bool, G': BShare, P': BShare)
    requires G.Valid(e) && P.Valid(e) && G.nbits == P.nbits == n && idx < Log2Ceil(n)
    requires HasSingleBit(n) ==> Runs(g, p, G.w, P.w, Pow2(idx), n)
    ensures ok <==> HasSingleBit(n)
    ensures ok ==> G'.Valid(e) && P'.Valid(e) && G'.nbits == P'.nbits == n && Runs(g, p, G'.w, P'.w, Pow2(idx + 1), n)
  {
    hide Runs, SpreadTo, Halves, Pow2, HasSingleBit, And, Xor;
    G', P' := G, P;
    var Ph, Pl, Gh, Gl, Ps, Gs;
    ok, Ph, Pl := BitScatter(P, idx, e);
    if !ok {
      return;
    }
    ok, Gh, Gl := BitScatter(G, idx, e);
    RoomForRuns(idx, n, |G.w|);
    HalfWidth(n);
    Gs := Spread(Gl, idx, e);
    Ps := Spread(Pl, idx, e);
    var packed, PG0, PG1 := AndPairs(Ph, Ph, Ps, Gs);
    assert packed;
    var Gh' := XorBB(Gh, PG1);
    ok, P' := BitGather(PG0, Pl, idx, e);
    ok, G' := BitGather(Gh', Gl, idx, e);
    SklanskyLevel(g, p, G.w, P.w, Gh.w, Ph.w, Gl.w, Pl.w, Gs.w, Ps.w, G'.w, P'.w, idx, Log2Ceil(n));
  }

  /** The Sklansky adder on operands of nbits bits: refused unless that is a power of two or zero. */
  method PpaSklansky(lhs: BShare, rhs: BShare, nbits: nat, ghost e: nat) returns (ok: bool, out: BShare)
    requires lhs.Valid(e) && rhs.Valid(e) && nbits == lhs.nbits
    ensures ok <==> lhs.nbits == rhs.nbits && (nbits == 0 || HasSingleBit(nbits))
    ensures ok ==> IsSum(lhs.w, rhs.w, out.w) && out.Valid(e)
  {
    hide Runs, IsSum, SumLow, Pow2, HasSingleBit, And, Xor, Shl;
    var P, G := XorBB(lhs, rhs), AndBB(lhs, rhs);
    ghost var g, p := And(lhs.w, rhs.w), Xor(lhs.w, rhs.w);
    out := P;
    if lhs.nbits != rhs.nbits {
      return false, out;
    }
    SingleRuns(g, p, nbits);
    Powers();
    SmallWidths();
    var idx := 0;
    while idx < Log2Ceil(nbits)
      invariant 0 <= idx <= Log2Ceil(nbits) && P.Valid(e) && G.Valid(e) && G.nbits == P.nbits == nbits
      invariant Runs(g, p, G.w, P.w, Pow2(idx), nbits)
      invariant idx > 0 ==> HasSingleBit(nbits)
    {
      ok, G, P := SklanskyRound(G, P, idx, nbits, g, p, e);
      if !ok {
        return false, out;
      }
      idx := idx + 1;
    }
    FullRun(nbits);
    var C := LShiftB(G, 1);
    RunsAll(lhs.w, rhs.w, G.w, P.w, nbits);
    out := XorBB(XorBB(lhs, rhs), C);
    SumLowIsSum(lhs.w, rhs.w);
    ok := true;
  }

  lemma SmallWidths()
    ensures Log2Ceil(0) == Log2Ceil(1) == 0 && HasSingleBit(1) && !HasSingleBit(0)
  {
  }

  lemma FullRun(n: nat)
    ensures Log2Ceil(n) == 0 ==> n <= 1
    ensures HasSingleBit(n) ==> Pow2(Log2Ceil(n)) == n
  {
    Log2CeilBounds(n);
  }

  datatype CircuitType = KoggeStone | Sklansky

  /** Addition of shares of equal width.  For power-of-two widths the circuit does not matter. */
  method AddBB(x: BShare, y: BShare, circuit: CircuitType, ghost e: nat) returns (ok: bool, z: BShare)
    requires x.Valid(e) && y.Valid(e)
    ensures ok <==> x.nbits == y.nbits && (circuit.KoggeStone? || x.nbits == 0 || HasSingleBit(x.nbits))
    ensures ok ==> z.Valid(e) && IsSum(x.w, y.w, z.w)
  {
    hide IsSum, HasSingleBit;
    if x.nbits != y.nbits {
      return false, x;
    }
    match circuit
    case KoggeStone =>
      ok := true;
      z := PpaKoggeStone(x, y, x.nbits, e);
    case Sklansky =>
      ok, z := PpaSklansky(x, y, x.nbits, e);
  }

  /** A word is determined by being the sum. */
  lemma SumDetermined(x: Word, y: Word, z: Word, z': Word)
    requires IsSum(x, y, z) && IsSum(x, y, z')
    ensures z == z'
  {
    ValInjective(z, z');
  }
}
