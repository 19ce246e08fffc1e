/** Conversions to half precision, from integers and from double precision. */
module HalfConversions {
  import opened Arith
  import opened HalfRounding
  import opened HalfArithmetic
  import opened HalfSums

  // ---- integers ----

  /** The nearest half to an integer. */
  method Int2Half(value: int) returns (bits: nat)
    ensures value >= 0 ==> RoundsTo(Half(bits), false, value * Pow2(24), 1)
    ensures value < 0 ==> RoundsTo(Half(bits), true, (0 - value) * Pow2(24), 1)
  {
    hide Pow2, IsNearest, RoundsTo;
    var v: nat := if value < 0 then 0 - value else value;
    var sign := if value < 0 then 0x8000 else 0;
    bits := Nat2Half(v, sign);
    SignedRounds(sign, bits, v * Pow2(24), 1);
  }

  method Nat2Half(v: nat, sign: nat) returns (bits: nat)
    requires sign % 2 == 0
    ensures bits >= sign && IsNearest(bits - sign, v * Pow2(24), 1)
  {
    hide Pow2, U, IsNearest, Rounded, Shr, Low;
    if v == 0 {
      TinyIsZero(0, 1);
      return sign;
    }
    if v > 0xFFFF {
      LargeInteger(v);
      return sign + INF;
    }
    var m, exp := v, 24;
    Pow2Zero();
    while m < 0x400
      invariant 0 < m && exp <= 24 && (v >= 0x400 ==> exp == 24)
      invariant m == v * Pow2(24 - exp) && (exp < 24 ==> m < 0x800)
      decreases 0x400 - m
    {
      Pow2Next(24 - exp);
      MulAssoc(v, Pow2(24 - exp), 2);
      m, exp := m * 2, exp - 1;
    }
    ShrNext(v, 0);
    while m > 0x7FF
      invariant m >= 0x400 && exp <= 29 && (exp < 24 ==> m < 0x800)
      invariant exp <= 24 ==> m == v * Pow2(24 - exp)
      invariant exp >= 24 ==> m == Shr(v, exp - 24)
      invariant exp >= 24 ==> m * Pow2(exp - 24) <= v < 0x10000
    {
      ShrNext(v, exp - 24);
      KeepsSmall(m, exp - 24, v);
      m, exp := m / 2, exp + 1;
    }
    if exp > 24 {
      LongInteger(v, m, exp);
      SignApart(sign, exp * 0x400 + m, Shr(v, exp - 25), Low(v, exp - 25) != 0);
      bits := Rounded(sign + (exp * 0x400 + m), Shr(v, exp - 25), Low(v, exp - 25) != 0);
    } else {
      ShortInteger(v, m, exp);
      bits := sign + (exp * 0x400 + m);
    }
  }

  lemma LargeInteger(v: nat)
    requires v > 0xFFFF
    ensures IsNearest(INF, v * Pow2(24), 1)
  {
    assert Pow2(16) == 0x10000 by { Sixteen(); }
    hide Pow2;
    Pow2Add(16, 24);
    MulLe(0x10000, v, Pow2(24));
    HugeIsInfinite(v * Pow2(24), 1);
  }

  lemma Sixteen()
    ensures Pow2(16) == 0x10000
  {
    assert Pow2(8) == 0x100;
    Pow2Add(8, 8);
  }

  lemma ShrNext(v: nat, k: nat)
    ensures Shr(v, k + 1) == Shr(v, k) / 2 && Shr(v, 0) == v
  {
    Pow2Next(k);
    Pow2Zero();
    hide Pow2;
    var P := Pow2(k);
    var q, r := v / P, v % P;
    QuotRem(v, P);
    assert q == q / 2 * 2 + q % 2;
    assert q / 2 * (2 * P) + q % 2 * P == q * P;
    MulLe(q % 2, 1, P);
    DivModUnique(v, q / 2, q % 2 * P + r, 2 * P);
  }

  /** While eleven bits do not hold it, fewer than five have been shifted out. */
  lemma KeepsSmall(m: nat, k: nat, v: nat)
    requires m > 0x7FF && m * Pow2(k) <= v < 0x10000
    ensures k < 5 && m / 2 * Pow2(k + 1) <= v
  {
    Pow2Next(k);
    assert Pow2(5) == 32 by { assert Pow2(2) == 4; Pow2Next(2); Pow2Next(3); Pow2Next(4); }
    hide Pow2;
    if k >= 5 {
      Pow2Grows(5, k);
      MulLe(0x800, m, Pow2(k));
      MulLeLeft(0x800, 32, Pow2(k));
    }
    assert m / 2 * (2 * Pow2(k)) == m / 2 * 2 * Pow2(k);
    MulLe(m / 2 * 2, m, Pow2(k));
  }

  lemma LongInteger(v: nat, m: nat, exp: nat)
    requires 24 < exp <= 29 && 0x400 <= m < 0x800 && m == Shr(v, exp - 24)
    ensures IsNearest(Rounded(exp * 0x400 + m, Shr(v, exp - 25), Low(v, exp - 25) != 0), v * Pow2(24), 1)
  {
    hide Pow2, U, IsNearest, Rounded;
    var H := Pow2(exp - 25);
    Pow2Next(exp - 25);
    UOf(exp, m);
    RoundAt(exp * 0x400 + m, m, Pow2(exp), H, v, v, 1);
    Pow2Add(24, exp - 24);
    MulAssoc(v, Pow2(24), Pow2(exp - 24));
    NearestEqual(Rounded(exp * 0x400 + m, Shr(v, exp - 25), Low(v, exp - 25) != 0), v * Pow2(exp), 1 * (2 * H), v * Pow2(24), 1);
  }

  lemma ShortInteger(v: nat, m: nat, exp: int)
    requires 0 < v && exp <= 24 && 0x400 <= m < 0x800 && m == v * Pow2(24 - exp)
    ensures exp >= 0 && IsNearest(exp * 0x400 + m, v * Pow2(24), 1)
  {
    hide Pow2, U, IsNearest;
    MulLe(1, v, Pow2(24 - exp));
    ShiftsBound(24 - exp, m);
    UOf(exp, m);
    Pow2Add(24 - exp, exp);
    MulAssoc(v, Pow2(24 - exp), Pow2(exp));
    ExactNearest(exp * 0x400 + m, 1);
  }

  // ---- double precision ----

  function SignOfDouble(bits: nat): (s: nat)
    ensures s == 0 || s == 0x8000
  {
    if bits >= 0x8000_0000_0000_0000 then 0x8000 else 0
  }

  /** The biased exponent of a double. */
  function ExponentField(bits: nat): nat {
    bits / 0x10_0000_0000_0000 % 0x800
  }

  function MantissaField(bits: nat): nat {
    bits % 0x10_0000_0000_0000
  }

  /** The magnitude of a finite double in units of 2^-1074, the smallest double. */
  function DoubleUnits(bits: nat): nat {
    if ExponentField(bits) == 0 then MantissaField(bits)
    else (0x10_0000_0000_0000 + MantissaField(bits)) * Pow2(ExponentField(bits) - 1)
  }

  /** The two halves of a double's bits, without the sign. */
  lemma Words(bits: nat, hi: nat, lo: nat)
    requires bits < 0x1_0000_0000_0000_0000 && hi == bits / 0x1_0000_0000 % 0x8000_0000 && lo == bits % 0x1_0000_0000
    ensures hi / 0x10_0000 == ExponentField(bits) && hi % 0x10_0000 * 0x1_0000_0000 + lo == MantissaField(bits)
  {
    var h := bits / 0x1_0000_0000;
    assert hi == h || hi == h - 0x8000_0000;
    FieldsOf(h / 0x10_0000, h % 0x10_0000, lo, bits);
  }

  lemma FieldsOf(e: nat, m: nat, lo: nat, bits: nat)
    requires m < 0x10_0000 && lo < 0x1_0000_0000 && bits == (e * 0x10_0000 + m) * 0x1_0000_0000 + lo
    ensures bits / 0x10_0000_0000_0000 == e && bits % 0x10_0000_0000_0000 == m * 0x1_0000_0000 + lo
  {
  }

  /** The nearest half to a double; infinities stay infinite. */
  method Double2Half(bits: nat) returns (res: Result)
    requires bits < 0x1_0000_0000_0000_0000
    ensures ExponentField(bits) == 0x7FF && MantissaField(bits) != 0 ==> res == NaN
    ensures ExponentField(bits) == 0x7FF && MantissaField(bits) == 0 ==>
      res == Half(if bits >= 0x8000_0000_0000_0000 then 0x8000 + INF else INF)
    ensures ExponentField(bits) < 0x7FF ==> RoundsTo(res, bits >= 0x8000_0000_0000_0000, DoubleUnits(bits), Pow2(1050))
  {
    hide Pow2, IsNearest, Rounded, Shr, Low, DoubleUnits, ExponentField, MantissaField;
    var hi, lo := bits / 0x1_0000_0000 % 0x8000_0000, bits % 0x1_0000_0000;
    var sign := SignOfDouble(bits);
    Words(bits, hi, lo);
    if hi >= 0x7FF0_0000 {
      return if hi % 0x10_0000 != 0 || lo != 0 then NaN else Half(sign + INF);
    }
    if hi >= 0x40F0_0000 {
      DoubleHuge(bits);
      SignedRounds(sign, sign + INF, DoubleUnits(bits), Pow2(1050));
      return Half(sign + INF);
    }
    if hi >= 0x3F10_0000 {
      var a0 := (hi / 0x10_0000 - 1008) * 0x400 + hi / 0x400 % 0x400;
      NormalDouble(bits, hi, lo, a0);
      SignApart(sign, a0, hi / 0x200, hi % 0x200 != 0 || lo != 0);
      var r := Rounded(sign + a0, hi / 0x200, hi % 0x200 != 0 || lo != 0);
      SignedRounds(sign, r, DoubleUnits(bits), Pow2(1050));
      return Half(r);
    }
    if hi >= 0x3E60_0000 {
      var i := 1018 - hi / 0x10_0000;
      var h := hi % 0x10_0000 + 0x10_0000;
      SubnormalDouble(bits, hi, lo, i, h);
      SignApart(sign, Shr(h, i + 1), Shr(h, i), Low(h, i) != 0 || lo != 0);
      var r := Rounded(sign + Shr(h, i + 1), Shr(h, i), Low(h, i) != 0 || lo != 0);
      SignedRounds(sign, r, DoubleUnits(bits), Pow2(1050));
      return Half(r);
    }
    DoubleTiny(bits);
    SignedRounds(sign, sign, DoubleUnits(bits), Pow2(1050));
    res := Half(sign);
  }

  /** A normal double's significand. */
  function SignificandOf(bits: nat): nat {
    0x10_0000_0000_0000 + MantissaField(bits)
  }

  lemma NormalUnits(bits: nat)
    requires ExponentField(bits) >= 1
    ensures DoubleUnits(bits) == SignificandOf(bits) * Pow2(ExponentField(bits) - 1)
    ensures Pow2(52) <= SignificandOf(bits) < Pow2(53)
  {
    FiftyTwo();
  }

  lemma FiftyTwo()
    ensures Pow2(52) == 0x10_0000_0000_0000 && Pow2(53) == 0x20_0000_0000_0000 && Pow2(32) == 0x1_0000_0000 && Pow2(42) == 0x400_0000_0000
  {
    Sixteen();
    Ten();
    Pow2Add(16, 16);
    Pow2Add(32, 10);
    Pow2Add(42, 10);
    Pow2Next(52);
  }

  lemma DoubleHuge(bits: nat)
    requires ExponentField(bits) >= 1039
    ensures IsNearest(INF, DoubleUnits(bits), Pow2(1050))
  {
    hide Pow2, DoubleUnits, SignificandOf, ExponentField;
    NormalUnits(bits);
    var E := ExponentField(bits);
    Pow2Grows(1038, E - 1);
    MulLe(Pow2(52), SignificandOf(bits), Pow2(1038));
    MulLeLeft(SignificandOf(bits), Pow2(1038), Pow2(E - 1));
    Pow2Add(52, 1038);
    Pow2Add(40, 1050);
    HugeIsInfinite(DoubleUnits(bits), Pow2(1050));
  }

  lemma DoubleTiny(bits: nat)
    requires ExponentField(bits) < 998
    ensures IsNearest(0, DoubleUnits(bits), Pow2(1050))
  {
    hide Pow2, SignificandOf;
    FiftyTwo();
    var E := ExponentField(bits);
    if E == 0 {
      Pow2Grows(53, 1050);
    } else {
      NormalUnits(bits);
      Pow2Grows(E - 1, 996);
      MulLeLeft(SignificandOf(bits), Pow2(E - 1), Pow2(996));
      MulLt(SignificandOf(bits), Pow2(53), Pow2(996));
      Pow2Add(53, 996);
      Pow2Next(1049);
    }
    TinyIsZero(DoubleUnits(bits), Pow2(1050));
  }

  /** Bits 41 and up of the significand, read off the high word. */
  lemma HighWordBits(bits: nat, hi: nat, lo: nat)
    requires hi / 0x10_0000 == ExponentField(bits) && hi % 0x10_0000 * 0x1_0000_0000 + lo == MantissaField(bits) && lo < 0x1_0000_0000
    ensures var m := SignificandOf(bits);
      m / 0x400_0000_0000 == 0x400 + hi / 0x400 % 0x400 && m / 0x200_0000_0000 % 2 == hi / 0x200 % 2
      && (m % 0x200_0000_0000 != 0 <==> hi % 0x200 != 0 || lo != 0)
  {
    hide ExponentField, MantissaField;
    var h := hi % 0x10_0000;
    HighParts(h);
    var t, u := h / 0x200, h % 0x200;
    var m := SignificandOf(bits);
    assert m == (0x800 + t) * 0x200_0000_0000 + (u * 0x1_0000_0000 + lo);
    DivModUnique(m, 0x800 + t, u * 0x1_0000_0000 + lo, 0x200_0000_0000);
    DivModUnique(m, 0x400 + t / 2, t % 2 * 0x200_0000_0000 + (u * 0x1_0000_0000 + lo), 0x400_0000_0000);
    assert hi / 0x200 % 2 == t % 2 && hi % 0x200 == u && hi / 0x400 % 0x400 == t / 2 by { HighFields(hi); }
  }

  lemma HighParts(h: nat)
    requires h < 0x10_0000
    ensures h == h / 0x200 * 0x200 + h % 0x200 && h / 0x200 < 0x800
  {
  }

  lemma HighFields(hi: nat)
    ensures var h := hi % 0x10_0000;
      hi / 0x200 % 2 == h / 0x200 % 2 && hi % 0x200 == h % 0x200 && hi / 0x400 % 0x400 == h / 0x200 / 2
  {
    var E, h := hi / 0x10_0000, hi % 0x10_0000;
    HighParts(h);
    var t, u := h / 0x200, h % 0x200;
    DivModUnique(hi, E * 0x800 + t, u, 0x200);
    DivModUnique(hi, E * 0x400 + t / 2, t % 2 * 0x200 + u, 0x400);
    DivModUnique(E * 0x400 + t / 2, E, t / 2, 0x400);
  }

  /** Of the guard argument only the last bit counts. */
  lemma GuardParity(a: nat, g: nat, h: nat, s: bool)
    requires g % 2 == h % 2
    ensures Rounded(a, g, s) == Rounded(a, h, s)
  {
  }

  lemma NormalDouble(bits: nat, hi: nat, lo: nat, a0: nat)
    requires hi / 0x10_0000 == ExponentField(bits) && hi % 0x10_0000 * 0x1_0000_0000 + lo == MantissaField(bits) && lo < 0x1_0000_0000
    requires 1009 <= hi / 0x10_0000 <= 1038 && a0 == (hi / 0x10_0000 - 1008) * 0x400 + hi / 0x400 % 0x400
    ensures IsNearest(Rounded(a0, hi / 0x200, hi % 0x200 != 0 || lo != 0), DoubleUnits(bits), Pow2(1050))
  {
    hide Pow2, U, IsNearest, SignificandOf, DoubleUnits, ExponentField, MantissaField, Rounded;
    HighWordBits(bits, hi, lo);
    FiftyTwo();
    Pow2Next(41);
    NormalUnits(bits);
    GuardParity(a0, SignificandOf(bits) / Pow2(41), hi / 0x200, hi % 0x200 != 0 || lo != 0);
    var e, m := hi / 0x10_0000 - 1009, SignificandOf(bits);
    UOf(e, 0x400 + hi / 0x400 % 0x400);
    RoundSignificand(a0, 0x400 + hi / 0x400 % 0x400, e, 41, m, DoubleUnits(bits), hi / 0x10_0000 - 1);
    assert m % Pow2(41) != 0 <==> hi % 0x200 != 0 || lo != 0;
  }

  /** A significand of which the lowest k + 1 bits are rounded off. */
  lemma RoundSignificand(a0: nat, q: nat, e: nat, k: nat, m: nat, n: nat, x: nat)
    requires a0 < INF && U(a0) == q * Pow2(e) && U(a0 + 1) == (q + 1) * Pow2(e) && q == m / Pow2(k + 1)
    requires n == m * Pow2(x) && e + 1050 == x + k + 1
    ensures IsNearest(Rounded(a0, m / Pow2(k), m % Pow2(k) != 0), n, Pow2(1050))
  {
    hide Pow2, U, IsNearest, Rounded;
    var H := Pow2(k);
    Pow2Next(k);
    RoundAt(a0, q, Pow2(e), H, m, m, 1);
    SameScale(m, e, 1050, x, k + 1);
    NearestEqual(Rounded(a0, m / H, m % H != 0), m * Pow2(e), 1 * (2 * H), n, Pow2(1050));
  }

  lemma SameScale(m: nat, a: nat, b: nat, c: nat, d: nat)
    requires a + b == c + d
    ensures m * Pow2(a) * Pow2(b) == m * Pow2(c) * Pow2(d)
  {
    hide Pow2;
    Pow2Add(a, b);
    Pow2Add(c, d);
    MulAssoc(m, Pow2(a), Pow2(b));
    MulAssoc(m, Pow2(c), Pow2(d));
  }

  /** Appending a low word and shifting it out again. */
  lemma WordShift(h: nat, lo: nat, i: nat)
    requires lo < 0x1_0000_0000
    ensures var m := h * 0x1_0000_0000 + lo;
      m / Pow2(32 + i) == Shr(h, i) && (m % Pow2(32 + i) != 0 <==> Low(h, i) != 0 || lo != 0)
  {
    FiftyTwo();
    hide Pow2;
    var B, P := Pow2(32), Pow2(i);
    Pow2Add(32, i);
    QuotRem(h, P);
    var q, r := h / P, h % P;
    var m := h * B + lo;
    assert m == q * (B * P) + (r * B + lo) by { MulAssoc(q, P, B); assert (q * P + r) * B == q * P * B + r * B; }
    MulLe(r + 1, P, B);
    MulNonNeg(r, B);
    OneMoreOf(r, B);
    DivModUnique(m, q, r * B + lo, B * P);
    if r > 0 {
      MulLt(0, r, B);
    }
  }

  lemma SubnormalDouble(bits: nat, hi: nat, lo: nat, i: nat, h: nat)
    requires hi / 0x10_0000 == ExponentField(bits) && hi % 0x10_0000 * 0x1_0000_0000 + lo == MantissaField(bits) && lo < 0x1_0000_0000
    requires 998 <= hi / 0x10_0000 <= 1008 && i == 1018 - hi / 0x10_0000 && h == hi % 0x10_0000 + 0x10_0000
    ensures IsNearest(Rounded(Shr(h, i + 1), Shr(h, i), Low(h, i) != 0 || lo != 0), DoubleUnits(bits), Pow2(1050))
  {
    hide Pow2, U, IsNearest, DoubleUnits, ExponentField, MantissaField, Shr, Low, Rounded;
    assert SignificandOf(bits) == h * 0x1_0000_0000 + lo;
    NormalUnits(bits);
    Pow2Zero();
    var E, m := hi / 0x10_0000, SignificandOf(bits);
    WordShift(h, lo, i);
    WordShift(h, lo, i + 1);
    SmallQuotientOf(m, Shr(h, i + 1), i);
    UOf(0, Shr(h, i + 1));
    RoundSignificand(Shr(h, i + 1), Shr(h, i + 1), 0, 32 + i, m, DoubleUnits(bits), E - 1);
  }

  lemma SmallQuotientOf(m: nat, q: nat, i: nat)
    requires m < Pow2(53) && q == m / Pow2(33 + i) && i >= 10
    ensures q < 0x400
  {
    Ten();
    hide Pow2;
    Pow2Grows(43, 33 + i);
    Pow2Add(10, 43);
    MulLeLeft(0x400, Pow2(43), Pow2(33 + i));
    DivBelow(m, 0x400, Pow2(33 + i));
  }
}
