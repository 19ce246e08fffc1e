/**
  The 64-bit forms of bit interleaving that gather and scatter through a mask, and their agreement
  with the log-step loops.
 */
module PdepPext {
  import opened Arith
  import opened Bits
  import opened BitInterleave

  // ---- gathering and scattering through a mask ----

  /** How many mask bits are set below position n. */
  function Rank(m: Word, n: nat): (k: nat)
    ensures k <= n
  {
    if n == 0 then 0 else Rank(m, n - 1) + Bit(On(m, n - 1))
  }

  /** The bits of w at the mask's positions below n, in order. */
  function Gathered(w: Word, m: Word, n: nat): (r: Word)
    ensures |r| == Rank(m, n)
  {
    if n == 0 then [] else if On(m, n - 1) then Gathered(w, m, n - 1) + [On(w, n - 1)] else Gathered(w, m, n - 1)
  }

  function Pext(w: Word, m: Word): (r: Word)
    ensures |r| == |w|
  {
    Low(Gathered(w, m, |w|), |w|)
  }

  function Pdep(w: Word, m: Word): (r: Word)
    ensures |r| == |w|
    ensures forall i :: 0 <= i < |w| ==> (r[i] <==> On(m, i) && On(w, Rank(m, i)))
  {
    seq(|w|, i requires 0 <= i < |w| => On(m, i) && On(w, Rank(m, i)))
  }

  function Not(m: Word): (r: Word)
    ensures |r| == |m| && forall i :: 0 <= i < |m| ==> r[i] == !m[i]
  {
    seq(|m|, i requires 0 <= i < |m| => !m[i])
  }

  lemma {:induction false} GatheredAt(w: Word, m: Word, n: nat, i: nat)
    requires i < n && On(m, i)
    ensures Rank(m, i) < Rank(m, n) && Gathered(w, m, n)[Rank(m, i)] == On(w, i)
  {
    if i < n - 1 {
      GatheredAt(w, m, n - 1, i);
    }
  }

  lemma {:induction false} RankNot(m: Word, n: nat)
    requires n <= |m|
    ensures Rank(Not(m), n) == n - Rank(m, n)
  {
    if n > 0 {
      RankNot(m, n - 1);
    }
  }

  // ---- the masks ----

  const HALF0 := "5555555555555555"
  const HALF1 := "3333333333333333"
  const HALF2 := "0F0F0F0F0F0F0F0F"
  const HALF3 := "00FF00FF00FF00FF"
  const HALF4 := "0000FFFF0000FFFF"
  const HALF5 := "00000000FFFFFFFF"

  function HalfMask(stride: nat): string {
    match stride
    case 0 => HALF0
    case 1 => HALF1
    case 2 => HALF2
    case 3 => HALF3
    case 4 => HALF4
    case _ => HALF5
  }

  lemma HalfDigits(p: nat)
    requires p < 16
    ensures |HALF0| == |HALF1| == |HALF2| == 16
    ensures HALF0[p] == '5' && HALF1[p] == '3' && HALF2[p] == if p % 2 == 1 then 'F' else '0'
  {
  }

  lemma HalfDigitsHigh(p: nat)
    requires p < 16
    ensures |HALF3| == |HALF4| == |HALF5| == 16
    ensures HALF3[p] == if p / 2 % 2 == 1 then 'F' else '0'
    ensures HALF4[p] == if p / 4 % 2 == 1 then 'F' else '0'
    ensures HALF5[p] == if p / 8 % 2 == 1 then 'F' else '0'
  {
  }

  lemma HalfBits(i: nat)
    requires i < 64
    ensures HexBit(HALF0, i) <==> i % 2 == 0
    ensures HexBit(HALF1, i) <==> i / 2 % 2 == 0
    ensures HexBit(HALF2, i) <==> i / 4 % 2 == 0
  {
    hide HALF0, HALF1, HALF2, HexDigit, DigitBit;
    HalfDigits(15 - i / 4);
    HexDigits();
  }

  lemma HalfBitsHigh(i: nat)
    requires i < 64
    ensures HexBit(HALF3, i) <==> i / 8 % 2 == 0
    ensures HexBit(HALF4, i) <==> i / 16 % 2 == 0
    ensures HexBit(HALF5, i) <==> i / 32 % 2 == 0
  {
    hide HALF3, HALF4, HALF5, HexDigit, DigitBit;
    HalfDigitsHigh(15 - i / 4);
    HexDigits();
  }

  /** A stride's mask marks the positions whose digit stride is 0. */
  lemma HalfMaskBits(stride: nat, i: nat)
    requires stride < 6 && i < 64
    ensures HexBit(HalfMask(stride), i) <==> i / Pow2(stride) % 2 == 0
  {
    hide Pow2, HexBit, HALF0, HALF1, HALF2, HALF3, HALF4, HALF5;
    Powers();
    HalfBits(i);
    HalfBitsHigh(i);
  }

  // ---- ranks in closed form ----

  function Closed(n: nat, P: nat): nat
    requires P >= 1
  {
    n / (2 * P) * P + if n % (2 * P) < P then n % (2 * P) else P
  }

  lemma HalfQuotient(n: nat, q: nat, r: nat, P: nat)
    requires r < 2 * P && n == q * (2 * P) + r
    ensures n / P % 2 == if r < P then 0 else 1
  {
    assert 2 * q * P == q * (2 * P);
    DivModUnique(n, 2 * q + (if r < P then 0 else 1), if r < P then r else r - P, P);
  }

  lemma Split(n: nat, d: nat) returns (q: nat, r: nat)
    requires d >= 1
    ensures r < d && n == q * d + r
  {
    q, r := n / d, n % d;
  }

  lemma ClosedParts(n: nat, q: nat, r: nat, P: nat)
    requires r < 2 * P && n == q * (2 * P) + r
    ensures Closed(n, P) == q * P + if r < P then r else P
  {
    DivModUnique(n, q, r, 2 * P);
  }

  lemma NextMultiple(q: nat, P: nat)
    ensures (q + 1) * P == q * P + P && (q + 1) * (2 * P) == q * (2 * P) + 2 * P
  {
  }

  lemma ClosedNext(n: nat, P: nat)
    requires P >= 1
    ensures Closed(n + 1, P) == Closed(n, P) + if n / P % 2 == 0 then 1 else 0
  {
    hide Closed;
    var q, r := Split(n, 2 * P);
    HalfQuotient(n, q, r, P);
    ClosedParts(n, q, r, P);
    if r + 1 < 2 * P {
      ClosedParts(n + 1, q, r + 1, P);
    } else {
      NextMultiple(q, P);
      ClosedParts(n + 1, q + 1, 0, P);
    }
  }

  lemma {:induction false} RankClosed(m: Word, P: nat, n: nat)
    requires P >= 1 && n <= |m| && forall i :: 0 <= i < |m| ==> (m[i] <==> i / P % 2 == 0)
    ensures Rank(m, n) == Closed(n, P)
  {
    if n > 0 {
      RankClosed(m, P, n - 1);
      ClosedNext(n - 1, P);
    } else {
      DivModUnique(0, 0, 0, 2 * P);
    }
  }

  /** The rank of a position is its digits without digit stride. */
  lemma RankOf(m: Word, b: Word, s: nat)
    requires |m| == 64 && |b| == 6 && s < 6
    requires forall i :: 0 <= i < 64 ==> (m[i] <==> i / Pow2(s) % 2 == 0)
    ensures Val(b) < 64 && On(m, Val(b)) == !b[s]
    ensures Rank(if b[s] then Not(m) else m, Val(b)) == Val(b[..s] + b[s + 1..]) < 32
  {
    hide Pow2, Val;
    var lo, hi, P := b[..s], b[s + 1..], Pow2(s);
    assert Pow2(6) == 64 && Pow2(5) == 32 by { SixDigits(); }
    ValBounds(b);
    ValBounds(lo);
    ValBounds(lo + hi);
    ValAppend(lo, hi);
    ValAppend(lo, [b[s]] + hi);
    assert b == lo + ([b[s]] + hi);
    assert Val([b[s]] + hi) == Bit(b[s]) + 2 * Val(hi) by { OneMoreDigit(b[s], hi); }
    RankClosed(m, P, Val(b));
    RankNot(m, Val(b));
    ClosedAt(Val(lo), b[s], Val(hi), P);
  }

  lemma SixDigits()
    ensures Pow2(6) == 64 && Pow2(5) == 32
  {
  }

  lemma OneMoreDigit(x: bool, hi: Word)
    ensures Val([x] + hi) == Bit(x) + 2 * Val(hi)
  {
    assert ([x] + hi)[1..] == hi;
  }

  lemma ClosedAt(lo: nat, x: bool, hi: nat, P: nat)
    requires lo < P
    ensures var v := lo + P * (Bit(x) + 2 * hi);
      Closed(v, P) == lo + P * hi + (if x then P - lo else 0)
      && v == 2 * (P * hi) + lo + (if x then P else 0)
      && (v / P % 2 == 0 <==> !x)
  {
    var v, b := lo + P * (Bit(x) + 2 * hi), Bit(x);
    TwoPlaces(lo, b, hi, P);
    assert v == 2 * (P * hi) + lo + (if x then P else 0);
    DivModUnique(v, hi, lo + (if x then P else 0), 2 * P);
    DivModUnique(v, 2 * hi + b, lo, P);
    assert (2 * hi + b) % 2 == b;
  }

  lemma TwoPlaces(lo: nat, b: nat, hi: nat, P: nat)
    requires b <= 1
    ensures var v := lo + P * (b + 2 * hi);
      v == 2 * (P * hi) + lo + (if b == 1 then P else 0)
      && v == hi * (2 * P) + (lo + (if b == 1 then P else 0))
      && v == (2 * hi + b) * P + lo
  {
    Distribute(b, 2 * hi, P);
    MulAssoc(2, hi, P);
    MulAssoc(hi, 2, P);
  }

  // ---- the two forms ----

  function BitDeintlWithPdepext(w: Word, stride: nat): (r: Word)
    ensures |r| == |w|
  {
    if stride >= 6 then w
    else
      var m := MaskWord(HalfMask(stride), |w|);
      Xor(Pext(w, m), Shl(Pext(w, Not(m)), 32))
  }

  function BitIntlWithPdepext(w: Word, stride: nat): (r: Word)
    ensures |r| == |w|
  {
    if stride >= 6 then w
    else
      var m := MaskWord(HalfMask(stride), |w|);
      Xor(Pdep(w, m), Pdep(Shr(w, 32), Not(m)))
  }

  /** Moving digit s of six to the top. */
  lemma MoveToTop(b: Word, s: nat)
    requires |b| == 6 && s < 6
    ensures Val(MoveTo(b, s, 5)) == Val(b[..s] + b[s + 1..]) + if b[s] then 32 else 0
  {
    SixDigits();
    assert MoveTo(b, s, 5) == b[..s] + b[s + 1..] + [b[s]];
    ValAppend(b[..s] + b[s + 1..], [b[s]]);
    OneMoreDigit(b[s], []);
  }

  lemma MaskFor(s: nat, m: Word)
    requires s < 6 && m == MaskWord(HalfMask(s), 64)
    ensures forall i :: 0 <= i < 64 ==> (m[i] <==> i / Pow2(s) % 2 == 0)
  {
    forall i | 0 <= i < 64
      ensures m[i] <==> i / Pow2(s) % 2 == 0
    {
      HalfMaskBits(s, i);
    }
  }

  lemma SixDigitsOnly(b: Word)
    requires 6 <= |b| && Pow2(|b|) <= 64
    ensures |b| == 6
  {
    SixDigits();
    Pow2Grows(6, |b|);
  }

  /** For every 64-bit word and stride, gathering computes what the loops compute. */
  lemma PextAgrees(w: Word, stride: nat)
    requires |w| == 64
    ensures Moved(w, BitDeintlWithPdepext(w, stride), stride, 5, 6)
  {
    hide Pow2, MovedAt, BitDeintlWithPdepext;
    forall b: Word | 6 <= |b| && Pow2(|b|) <= 64
      ensures MovedAt(w, BitDeintlWithPdepext(w, stride), stride, 5, b)
    {
      SixDigitsOnly(b);
      PextAgreesAt(w, stride, b);
    }
  }

  lemma PextAgreesAt(w: Word, stride: nat, b: Word)
    requires |w| == 64 && |b| == 6
    ensures MovedAt(w, BitDeintlWithPdepext(w, stride), stride, 5, b)
  {
    hide Val, Pow2, MoveTo, Pext, HalfMask, Rank, MaskWord, BitDeintlWithPdepext;
    if stride >= 6 {
      Unmoved(b, stride);
      assert BitDeintlWithPdepext(w, stride) == w by { BeyondMasks(w, stride); }
    } else {
      var m := MaskWord(HalfMask(stride), 64);
      MaskFor(stride, m);
      RankOf(m, b, stride);
      MoveToTop(b, stride);
      PextAt(w, m, Val(b), stride);
      DeintlBit(w, stride, Val(MoveTo(b, stride, 5)));
    }
  }

  lemma BeyondMasks(w: Word, stride: nat)
    requires stride >= 6
    ensures BitDeintlWithPdepext(w, stride) == w
  {
  }

  lemma DeintlBit(w: Word, stride: nat, j: nat)
    requires |w| == 64 && stride < 6 && j < 64
    ensures var m := MaskWord(HalfMask(stride), 64);
      On(BitDeintlWithPdepext(w, stride), j) == (On(Pext(w, m), j) != On(Pext(w, Not(m)), j - 32))
  {
    hide MaskWord, HalfMask, Pext, Not;
    var m := MaskWord(HalfMask(stride), 64);
    XorShlBit(Pext(w, m), Pext(w, Not(m)), j);
  }

  lemma XorShlBit(a: Word, c: Word, j: nat)
    requires |a| == |c| == 64 && j < 64
    ensures On(Xor(a, Shl(c, 32)), j) == (On(a, j) != On(c, j - 32))
  {
  }

  lemma Unmoved(b: Word, s: nat)
    requires |b| == 6 && s >= 6
    ensures MoveTo(b, s, 5) == b
  {
  }

  /** Both gathered halves, and nothing of the lower one above place 31. */
  lemma PextAt(w: Word, m: Word, i: nat, s: nat)
    requires |w| == |m| == 64 && i < 64 && s < 6
    requires forall i :: 0 <= i < 64 ==> (m[i] <==> i / Pow2(s) % 2 == 0)
    ensures m[i] ==> On(Pext(w, m), Rank(m, i)) == w[i]
    ensures !m[i] ==> On(Pext(w, Not(m)), Rank(Not(m), i)) == w[i]
    ensures forall j :: j >= 32 ==> !On(Pext(w, m), j)
  {
    if m[i] {
      GatheredAt(w, m, 64, i);
    } else {
      GatheredAt(w, Not(m), 64, i);
    }
    RankClosed(m, Pow2(s), 64);
    ClosedHalf(s);
  }

  lemma ClosedHalf(s: nat)
    requires s < 6
    ensures Closed(64, Pow2(s)) == 32
  {
    hide Pow2;
    Powers();
  }

  /** And scattering is the interleaving. */
  lemma PdepAgrees(w: Word, stride: nat)
    requires |w| == 64
    ensures Moved(BitIntlWithPdepext(w, stride), w, stride, 5, 6)
  {
    hide Pow2, MovedAt, BitIntlWithPdepext;
    forall b: Word | 6 <= |b| && Pow2(|b|) <= 64
      ensures MovedAt(BitIntlWithPdepext(w, stride), w, stride, 5, b)
    {
      SixDigitsOnly(b);
      PdepAgreesAt(w, stride, b);
    }
  }

  lemma PdepAgreesAt(w: Word, stride: nat, b: Word)
    requires |w| == 64 && |b| == 6
    ensures MovedAt(BitIntlWithPdepext(w, stride), w, stride, 5, b)
  {
    hide Val, Pow2, MoveTo, HalfMask, Rank;
    if stride >= 6 {
      Unmoved(b, stride);
    } else {
      var m := MaskWord(HalfMask(stride), 64);
      MaskFor(stride, m);
      RankOf(m, b, stride);
      MoveToTop(b, stride);
    }
  }

  /** Both forms return the same words as the loops. */
  method FormsAgree(w: Word, stride: nat) returns (d: Word, i: Word)
    requires |w| == 64
    ensures d == BitDeintlWithPdepext(w, stride) && i == BitIntlWithPdepext(w, stride)
  {
    d := BitDeintl(w, stride, -1);
    i := BitIntl(w, stride, -1);
    SixDigits();
    Log2CeilLeast(64, 6);
    PextAgrees(w, stride);
    PdepAgrees(w, stride);
    SameDeintl(w, d, BitDeintlWithPdepext(w, stride), stride);
    IntlUndoesDeintl(i, w, BitIntlWithPdepext(w, stride), stride, 5, 6, 6);
  }

  lemma SameDeintl(w: Word, d: Word, d': Word, s: nat)
    requires |w| == 64 && Moved(w, d, s, 5, 6) && Moved(w, d', s, 5, 6)
    ensures d == d'
  {
    SixDigits();
    DeintlUndoesIntl(d, w, d', s, 5, 6, 6);
  }
}
