/**
  Half-precision arithmetic: each result is the exact one, rounded once (section 5.4.1 of
  IEEE 754-2008).  Which NaN comes out and exception flags are not modelled.
 */
module HalfArithmetic {
  import opened Arith
  import opened HalfRounding

  datatype Result = NaN | Half(bits: nat)

  /** A code without its sign bit. */
  function Abs(x: nat): (a: nat)
    ensures a < 0x8000
  {
    x % 0x8000
  }

  /** The sign bit in place. */
  function Sign(x: nat): (s: nat)
    requires x < 0x1_0000
    ensures s == 0 || s == 0x8000
    ensures x == s + Abs(x)
  {
    if x >= 0x8000 then 0x8000 else 0
  }

  /** The sign bit of a product. */
  function XorSign(s: nat, t: nat): nat
  {
    if s == t then 0 else 0x8000
  }

  /** A half of the given sign whose magnitude is the nearest to n / d units of 2^-24. */
  ghost predicate RoundsTo(res: Result, negative: bool, n: nat, d: nat) {
    res.Half? && res.bits < 0x1_0000 && (res.bits >= 0x8000 <==> negative) && IsNearest(res.bits % 0x8000, n, d)
  }

  /** Sign and magnitude put together can be told apart again. */
  lemma SignedRounds(sign: nat, bits: nat, n: nat, d: nat)
    requires (sign == 0 || sign == 0x8000) && bits >= sign && IsNearest(bits - sign, n, d)
    ensures RoundsTo(Half(bits), sign != 0, n, d)
  {
    assert bits - sign <= INF;
    hide IsNearest;
  }

  // ---- normalising ----

  /** Shifts a subnormal magnitude up to the hidden bit, counting the exponent down. */
  method Normalize(abs: nat, exp: int) returns (abs': nat, exp': int)
    requires 0 < abs < INF
    ensures 0x400 <= abs' < INF && exp - 10 <= exp' <= exp
    ensures abs >= 0x400 ==> abs' == abs && exp' == exp
    ensures abs < 0x400 ==> abs' < 0x800 && abs' == abs * Pow2(exp - exp')
  {
    abs', exp' := abs, exp;
    Pow2Zero();
    while abs' < 0x400
      invariant 0 < abs' && exp' <= exp
      invariant abs >= 0x400 ==> abs' == abs && exp' == exp
      invariant abs < 0x400 ==> abs' < 0x800 && abs' == abs * Pow2(exp - exp') && Pow2(exp - exp') <= 0x800
      invariant exp' < exp ==> abs' >= Pow2(exp - exp')
      decreases 0x400 - abs'
    {
      Pow2Next(exp - exp');
      MulLe(1, abs, Pow2(exp - exp'));
      abs', exp' := abs' * 2, exp' - 1;
    }
    ShiftsBound(exp - exp', abs');
  }

  lemma ShiftsBound(t: nat, a: nat)
    requires t > 0 ==> Pow2(t) <= a < 0x800
    ensures t <= 10
  {
    hide Pow2;
    Ten();
    if t > 10 {
      Pow2Grows(11, t);
    }
  }

  function Mantissa(abs: nat): nat {
    abs % 0x400 + 0x400
  }

  function Exponent(abs: nat): nat {
    abs / 0x400
  }

  /** Mantissa and exponent of a normalised magnitude, t being the shifts it took. */
  lemma Decompose(abs: nat, abs': nat, t: nat)
    requires 0 < abs < INF && 0x400 <= abs' < INF && t <= 10
    requires abs >= 0x400 ==> abs' == abs && t == 0
    requires abs < 0x400 ==> abs' < 0x800 && abs' == abs * Pow2(t)
    ensures Exponent(abs') + 9 - t >= 0
    ensures U(abs) * Pow2(10) == Mantissa(abs') * Pow2(Exponent(abs') + 9 - t)
    ensures 0x400 <= Mantissa(abs') < 0x800 && 1 <= Exponent(abs') <= 30
  {
    hide Pow2;
    if abs >= 0x400 {
      UNormal(abs);
      Pow2Add(Exponent(abs) - 1, 10);
      MulAssoc(Mantissa(abs), Pow2(Exponent(abs) - 1), Pow2(10));
    } else {
      USubnormal(abs);
      assert Mantissa(abs') == abs' && Exponent(abs') == 1;
      Pow2Add(t, 10 - t);
      MulAssoc(abs, Pow2(t), Pow2(10 - t));
    }
  }

  // ---- multiplication ----

  /** Products of decomposed magnitudes. */
  lemma ProductUnits(ux: nat, uy: nat, mx: nat, my: nat, A: nat, B: nat)
    requires ux * Pow2(10) == mx * Pow2(A) && uy * Pow2(10) == my * Pow2(B)
    ensures ux * uy * Pow2(20) == mx * my * Pow2(A + B)
  {
    hide Pow2;
    Pow2Add(10, 10);
    Pow2Add(A, B);
    Regroup(ux, Pow2(10), uy, Pow2(10));
    Regroup(mx, Pow2(A), my, Pow2(B));
  }

  lemma Regroup(a: int, b: int, c: int, d: int)
    ensures a * b * (c * d) == a * c * (b * d)
  {
    MulAssoc(a, b, c * d);
    MulAssoc(b, c, d);
    MulAssoc(c, b, d);
    MulAssoc(a, c, b * d);
    assert b * (c * d) == c * (b * d);
  }

  lemma MulRound(ux: nat, uy: nat, m: nat, S: nat, i: nat, sign: nat, res: nat)
    requires ux * uy * Pow2(20) == m * Pow2(S) && i <= 1 && Pow2(20 + i) <= m < Pow2(21 + i) && sign % 2 == 0
    requires var exp := S + i - 34;
      res == if exp > 29 then sign + INF else if exp < -11 then sign else Fixed2Half(20, Shr(m, i), exp, sign, Low(m, i) != 0)
    ensures res >= sign && IsNearest(res - sign, ux * uy, Pow2(24))
  {
    hide Pow2, IsNearest, Fixed2Half, Shr, Low;
    var exp := S + i - 34;
    var n := ux * uy;
    if exp > 29 {
      MulHuge(n, m, S, i);
      HugeIsInfinite(n, Pow2(24));
    } else if exp < -11 {
      MulTiny(n, m, S, i);
      TinyIsZero(n, Pow2(24));
    } else {
      ShrRange(m, i);
      var r := Fixed2HalfNearest(20, Shr(m, i), exp, sign, Low(m, i) != 0, m, Pow2(i));
      MulEqual(n, m, S, i);
      NearestEqual(r, m * Pow2(exp + 11), Pow2(i) * Pow2(21), n, Pow2(24));
    }
  }

  lemma MulHuge(n: nat, m: nat, S: nat, i: nat)
    requires n * Pow2(20) == m * Pow2(S) && i <= 1 && Pow2(20 + i) <= m && S + i >= 64
    ensures Pow2(40) * Pow2(24) <= n
  {
    hide Pow2;
    Pow2Grows(64 - i, S);
    Pow2Add(20 + i, 64 - i);
    MulLe(Pow2(20 + i), m, Pow2(64 - i));
    MulLe(Pow2(64 - i), Pow2(S), m);
    Pow2Add(64, 20);
    CancelLe(Pow2(64), n, Pow2(20));
    Pow2Add(40, 24);
  }

  lemma MulTiny(n: nat, m: nat, S: nat, i: nat)
    requires n * Pow2(20) == m * Pow2(S) && i <= 1 && m < Pow2(21 + i) && S + i <= 22
    ensures 2 * n < Pow2(24)
  {
    hide Pow2;
    Pow2Grows(S, 22 - i);
    Pow2Add(21 + i, 22 - i);
    MulLe(Pow2(S), Pow2(22 - i), m);
    MulLt(m, Pow2(21 + i), Pow2(22 - i));
    Pow2Add(23, 20);
    CancelLt(n, Pow2(23), Pow2(20));
    Pow2Next(23);
  }

  lemma CancelLe(x: int, y: int, g: int)
    requires x * g <= y * g && g >= 1
    ensures x <= y
  {
    if y < x {
      MulLt(y, x, g);
    }
  }

  lemma CancelLt(x: int, y: int, g: int)
    requires x * g < y * g && g >= 1
    ensures x < y
  {
    if y <= x {
      MulLe(y, x, g);
    }
  }

  /** The product, shifted right by i. */
  lemma ShrRange(m: nat, i: nat)
    requires i <= 1 && Pow2(20 + i) <= m < Pow2(21 + i)
    ensures Pow2(20) <= Shr(m, i) < Pow2(21)
    ensures Shr(m, i) * Pow2(i) <= m < (Shr(m, i) + 1) * Pow2(i) && (Low(m, i) != 0 <==> m != Shr(m, i) * Pow2(i))
  {
    hide Pow2;
    var P, q := Pow2(i), Shr(m, i);
    QuotRem(m, P);
    OneMoreOf(q, P);
    Pow2Add(20, i);
    Pow2Add(21, i);
    if q < Pow2(20) {
      MulLe(q + 1, Pow2(20), P);
    }
    if q >= Pow2(21) {
      MulLe(Pow2(21), q, P);
    }
  }

  lemma QuotRem(m: nat, P: nat)
    requires P >= 1
    ensures m == Quotient(m, P) * P + m % P && 0 <= m % P < P && Quotient(m, P) == m / P
  {
  }

  lemma MulEqual(n: nat, m: nat, S: nat, i: nat)
    requires n * Pow2(20) == m * Pow2(S) && S + i >= 23 && i <= 1
    ensures m * Pow2(S + i - 23) * Pow2(24) == n * (Pow2(i) * Pow2(21))
  {
    hide Pow2;
    Pow2Add(S + i - 23, 24);
    Pow2Add(i, 21);
    Pow2Add(20, 1 + i);
    Pow2Add(S, 1 + i);
    MulAssoc(m, Pow2(S + i - 23), Pow2(24));
    MulAssoc(n, Pow2(20), Pow2(1 + i));
    MulAssoc(m, Pow2(S), Pow2(1 + i));
  }

  /** The product of two halves, rounded once. */
  method Multiply(x: nat, y: nat) returns (res: Result)
    requires x < 0x1_0000 && y < 0x1_0000
    ensures Abs(x) > INF || Abs(y) > INF ==> res == NaN
    ensures (Abs(x) == INF && Abs(y) == 0) || (Abs(x) == 0 && Abs(y) == INF) ==> res == NaN
    ensures (Abs(x) == INF && 0 < Abs(y) <= INF) || (0 < Abs(x) <= INF && Abs(y) == INF) ==>
      res == Half(if (x >= 0x8000) == (y >= 0x8000) then INF else 0x8000 + INF)
    ensures Abs(x) < INF && Abs(y) < INF ==>
      RoundsTo(res, (x >= 0x8000) != (y >= 0x8000), Times(U(Abs(x)), U(Abs(y))), Pow2(24))
  {
    hide Pow2, U, IsNearest, Fixed2Half, Shr, Low;
    var absx, absy, exp := Abs(x), Abs(y), -16;
    var sign := XorSign(Sign(x), Sign(y));
    if absx >= INF || absy >= INF {
      return if absx > INF || absy > INF then NaN
        else if (absx == INF && absy == 0) || (absy == INF && absx == 0) then NaN else Half(sign + INF);
    }
    if absx == 0 || absy == 0 {
      ZeroProduct(absx, absy);
      SignedRounds(sign, sign, Times(U(absx), U(absy)), Pow2(24));
      return Half(sign);
    }
    var bits := MultiplyFinite(absx, absy, sign);
    SignedRounds(sign, bits, Times(U(absx), U(absy)), Pow2(24));
    res := Half(bits);
  }

  method MultiplyFinite(x: nat, y: nat, sign: nat) returns (bits: nat)
    requires 0 < x < INF && 0 < y < INF && sign % 2 == 0
    ensures bits >= sign && IsNearest(bits - sign, Times(U(x), U(y)), Pow2(24))
  {
    hide Pow2, U, IsNearest, Fixed2Half, Shr, Low, Mantissa, Exponent;
    var absx, ex := Normalize(x, -16);
    var absy, exp := Normalize(y, ex);
    ghost var A, B := Exponent(absx) + 9 - (-16 - ex), Exponent(absy) + 9 - (ex - exp);
    Decompose(x, absx, -16 - ex);
    Decompose(y, absy, ex - exp);
    var m := Mantissa(absx) * Mantissa(absy);
    ProductUnits(U(x), U(y), Mantissa(absx), Mantissa(absy), A, B);
    ProductRange(Mantissa(absx), Mantissa(absy));
    var i := Shr(m, 21);
    var s := if i == 1 then m % 2 else 0;
    LowBit(m, i);
    exp := exp + Exponent(absx) + Exponent(absy) + i;
    bits := if exp > 29 then sign + INF else if exp < -11 then sign else Fixed2Half(20, Shr(m, i), exp, sign, s != 0);
    MulRound(U(x), U(y), m, A + B, i, sign, bits);
  }

  lemma LowBit(m: nat, i: nat)
    requires i <= 1
    ensures Low(m, i) == if i == 1 then m % 2 else 0
  {
    Pow2Zero();
    Pow2Next(0);
  }

  lemma ZeroProduct(absx: nat, absy: nat)
    requires absx == 0 || absy == 0
    ensures IsNearest(0, Times(U(absx), U(absy)), Pow2(24))
  {
    hide Pow2;
    TinyIsZero(0, Pow2(24));
  }

  lemma ProductRange(mx: nat, my: nat)
    requires 0x400 <= mx < 0x800 && 0x400 <= my < 0x800
    ensures var m := mx * my; Shr(m, 21) <= 1 && Pow2(20 + Shr(m, 21)) <= m < Pow2(21 + Shr(m, 21))
  {
    var m := mx * my;
    Ten();
    Pow2Add(10, 10);
    Pow2Add(11, 11);
    Pow2Next(20);
    Pow2Next(21);
    MulLe(0x400, mx, my);
    MulLe(0x400, my, 0x400);
    MulLt(mx, 0x800, my);
    MulLt(my, 0x800, 0x800);
    hide Pow2;
    var P := Pow2(21);
    assert m < 2 * P && 2 * m >= P;
    DivModUnique(m, if m >= P then 1 else 0, if m >= P then m - P else m, P);
  }

  // ---- division ----

  lemma DivRound(ux: nat, uy: nat, mx: nat, my: nat, A: nat, B: nat, i: nat, sign: nat, res: nat)
    requires ux * Pow2(10) == mx * Pow2(A) && uy * Pow2(10) == my * Pow2(B) && uy >= 1
    requires 0x400 <= mx < 0x800 && 0x400 <= my < 0x800 && i == (if mx < my then 1 else 0) && sign % 2 == 0
    requires var exp := 14 + A - B - i;
      var N, D := mx * Pow2(12 + i), 2 * my;
      res == if exp > 29 then sign + INF else if exp < -11 then sign else Fixed2Half(11, Quotient(N, D), exp, sign, N % D != 0)
    ensures res >= sign && IsNearest(res - sign, ux * Pow2(24), uy)
  {
    hide Pow2, IsNearest, Fixed2Half, Quotient, Shr, Low;
    var exp := 14 + A - B - i;
    Pow2Add(12, i);
    Pow2Zero();
    Pow2Next(0);
    if exp > 29 {
      Pow2Grows(B + 40 + i, A + 24);
      DivHuge(ux, uy, mx, my, A, B, i);
      HugeIsInfinite(ux * Pow2(24), uy);
    } else if exp < -11 {
      DivTiny(ux, uy, mx, my, A, B, i);
      TinyIsZero(ux * Pow2(24), uy);
    } else {
      var N, D := mx * Pow2(12 + i), 2 * my;
      QuotRem(N, D);
      OneMoreOf(Quotient(N, D), D);
      QuotientRange(mx, my, i);
      var r := Fixed2HalfNearest(11, Quotient(N, D), exp, sign, N % D != 0, N, D);
      DivEqual(ux, uy, mx, my, A, B, i);
      NearestEqual(r, N * Pow2(exp + 11), D * Pow2(12), ux * Pow2(24), uy);
    }
  }

  /** The quotient of the mantissas, shifted so that it has twelve bits. */
  lemma QuotientRange(mx: nat, my: nat, i: nat)
    requires 0x400 <= mx < 0x800 && 0x400 <= my < 0x800 && i == (if mx < my then 1 else 0)
    ensures Pow2(11) <= Quotient(mx * Pow2(12 + i), 2 * my) < Pow2(12)
  {
    var N, D := mx * Pow2(12 + i), 2 * my;
    Ten();
    Pow2Next(11);
    Pow2Next(12);
    var q := N / D;
    QuotRem(N, D);
    if q < 0x800 {
      MulLe(q + 1, 0x800, D);
      OneMoreOf(q, D);
    }
    if q >= 0x1000 {
      MulLe(0x1000, q, D);
    }
  }

  lemma DivHuge(ux: nat, uy: nat, mx: nat, my: nat, A: nat, B: nat, i: nat)
    requires ux * Pow2(10) == mx * Pow2(A) && uy * Pow2(10) == my * Pow2(B)
    requires mx * Pow2(i) >= my && Pow2(B + 40 + i) <= Pow2(A + 24)
    ensures Pow2(40) * uy <= ux * Pow2(24)
  {
    hide Pow2;
    Pow2Add(A, 24);
    Pow2Add(B, 40);
    Pow2Add(i, B + 40);
    MulLe(my, mx * Pow2(i), Pow2(B + 40));
    MulAssoc(mx, Pow2(i), Pow2(B + 40));
    MulLe(Pow2(B + 40 + i), Pow2(A + 24), mx);
    MulAssoc(mx, Pow2(A), Pow2(24));
    MulAssoc(my, Pow2(B), Pow2(40));
    Swap3(ux, Pow2(10), Pow2(24));
    Swap3(uy, Pow2(10), Pow2(40));
    assert uy * Pow2(40) * Pow2(10) <= ux * Pow2(24) * Pow2(10);
    CancelLe(uy * Pow2(40), ux * Pow2(24), Pow2(10));
  }

  lemma Swap3(a: int, b: int, c: int)
    ensures a * b * c == a * c * b
  {
    MulAssoc(a, b, c);
    MulAssoc(a, c, b);
  }

  lemma DivTiny(ux: nat, uy: nat, mx: nat, my: nat, A: nat, B: nat, i: nat)
    requires ux * Pow2(10) == mx * Pow2(A) && uy * Pow2(10) == my * Pow2(B)
    requires mx * Pow2(i) < 2 * my && A + 26 <= B + i && i <= 1
    ensures 2 * (ux * Pow2(24)) < uy
  {
    hide Pow2;
    TinyMantissas(mx, my, A, B, i);
    Swap3(ux, Pow2(10), Pow2(25));
    CancelLt(ux * Pow2(25), uy, Pow2(10));
    Pow2Next(24);
    TwoOut(ux, Pow2(24));
  }

  lemma TinyMantissas(mx: nat, my: nat, A: nat, B: nat, i: nat)
    requires mx * Pow2(i) < 2 * my && A + 26 <= B + i && i <= 1
    ensures mx * Pow2(A) * Pow2(25) < my * Pow2(B)
  {
    hide Pow2;
    TinyLeft(mx, A, B - 1 + i);
    ShiftedLess(mx, my, i, B - 1);
    TinyRight(my, B);
  }

  lemma TinyLeft(mx: nat, A: nat, e: nat)
    requires A + 25 <= e
    ensures mx * Pow2(A) * Pow2(25) <= mx * Pow2(e)
  {
    hide Pow2;
    Pow2Add(A, 25);
    MulAssoc(mx, Pow2(A), Pow2(25));
    Pow2Grows(A + 25, e);
    MulLeLeft(mx, Pow2(A + 25), Pow2(e));
  }

  lemma TinyRight(my: nat, B: nat)
    requires B >= 1
    ensures 2 * my * Pow2(B - 1) == my * Pow2(B)
  {
    hide Pow2;
    Pow2Next(B - 1);
    TwoOut(my, Pow2(B - 1));
  }

  lemma ShiftedLess(mx: nat, my: nat, i: nat, b: nat)
    requires mx * Pow2(i) < 2 * my
    ensures mx * Pow2(b + i) < 2 * my * Pow2(b)
  {
    hide Pow2;
    Pow2Add(i, b);
    MulAssoc(mx, Pow2(i), Pow2(b));
    MulLt(mx * Pow2(i), 2 * my, Pow2(b));
  }

  lemma TwoOut(a: int, P: int)
    ensures 2 * a * P == a * (2 * P) && 2 * (a * P) == a * (2 * P)
  {
  }

  lemma DivEqual(ux: nat, uy: nat, mx: nat, my: nat, A: nat, B: nat, i: nat)
    requires ux * Pow2(10) == mx * Pow2(A) && uy * Pow2(10) == my * Pow2(B) && A + 25 >= B + i
    ensures mx * Pow2(12 + i) * Pow2(A - B - i + 25) * uy == ux * Pow2(24) * (2 * my * Pow2(12))
  {
    hide Pow2;
    var E, k := A - B - i + 25, 12 + i;
    var L, R := mx * Pow2(k) * Pow2(E) * uy, ux * Pow2(24) * (2 * my * Pow2(12));
    // both sides times 2^10, in terms of the mantissas
    Pow2Add(k, E);
    MulAssoc(mx, Pow2(k), Pow2(E));
    Pow2Add(k + E, B);
    MulAssoc(mx * Pow2(k + E), uy, Pow2(10));
    Regroup(mx, Pow2(k + E), my, Pow2(B));
    assert L * Pow2(10) == mx * my * Pow2(k + E + B);
    Pow2Next(12);
    assert 2 * my * Pow2(12) == my * Pow2(13);
    Pow2Add(24, 13);
    Regroup(ux, Pow2(24), my, Pow2(13));
    assert R == ux * my * Pow2(37);
    Swap3(ux * my, Pow2(37), Pow2(10));
    Swap3(ux, my, Pow2(10));
    Swap3(mx, Pow2(A), my);
    Pow2Add(A, 37);
    MulAssoc(mx * my, Pow2(A), Pow2(37));
    assert R * Pow2(10) == mx * my * Pow2(A + 37);
    MulCancel(L, R, Pow2(10));
  }

  /** The quotient of two halves, rounded once. */
  method Divide(x: nat, y: nat) returns (res: Result)
    requires x < 0x1_0000 && y < 0x1_0000
    ensures Abs(x) > INF || Abs(y) > INF ==> res == NaN
    ensures Abs(x) == Abs(y) && (Abs(x) == INF || Abs(x) == 0) ==> res == NaN
    ensures (Abs(x) == INF && Abs(y) < INF) || (0 < Abs(x) < INF && Abs(y) == 0) ==>
      res == Half(if (x >= 0x8000) == (y >= 0x8000) then INF else 0x8000 + INF)
    ensures Abs(x) < INF && Abs(y) == INF ==> res == Half(if (x >= 0x8000) == (y >= 0x8000) then 0 else 0x8000)
    ensures Abs(x) < INF && 0 < Abs(y) < INF ==>
      RoundsTo(res, (x >= 0x8000) != (y >= 0x8000), Times(U(Abs(x)), Pow2(24)), U(Abs(y)))
  {
    hide Pow2, U, IsNearest, Fixed2Half;
    var absx, absy := Abs(x), Abs(y);
    var sign := XorSign(Sign(x), Sign(y));
    if absx >= INF || absy >= INF {
      return if absx > INF || absy > INF then NaN else if absx == absy then NaN
        else Half(sign + if absx == INF then INF else 0);
    }
    if absx == 0 {
      if absy > 0 {
        ZeroQuotient(absy);
        SignedRounds(sign, sign, Times(U(absx), Pow2(24)), U(absy));
      }
      return if absy != 0 then Half(sign) else NaN;
    }
    if absy == 0 {
      return Half(sign + INF);
    }
    var bits := DivideFinite(absx, absy, sign);
    SignedRounds(sign, bits, Times(U(absx), Pow2(24)), U(absy));
    res := Half(bits);
  }

  lemma ZeroQuotient(absy: nat)
    requires absy > 0
    ensures IsNearest(0, Times(U(0), Pow2(24)), U(absy))
  {
    UGrows(0, absy);
    USubnormal(0);
    TinyIsZero(0, U(absy));
  }

  method DivideFinite(x: nat, y: nat, sign: nat) returns (bits: nat)
    requires 0 < x < INF && 0 < y < INF && sign % 2 == 0
    ensures bits >= sign && IsNearest(bits - sign, Times(U(x), Pow2(24)), U(y))
  {
    hide Pow2, U, IsNearest, Fixed2Half, Mantissa, Exponent;
    var absx, ex := Normalize(x, 14);
    var absy, ty := Normalize(y, 0);
    var exp := ex - ty;
    ghost var A, B := Exponent(absx) + 9 - (14 - ex), Exponent(absy) + 9 - (0 - ty);
    Decompose(x, absx, 14 - ex);
    Decompose(y, absy, 0 - ty);
    UGrows(0, y);
    assert U(0) == 0 by { USubnormal(0); }
    var mx, my := Mantissa(absx), Mantissa(absy);
    var i := if mx < my then 1 else 0;
    exp := exp + Exponent(absx) - Exponent(absy) - i;
    if exp > 29 {
      bits := sign + INF;
    } else if exp < -11 {
      bits := sign;
    } else {
      var N, D := mx * Pow2(12 + i), 2 * my;
      QuotRem(N, D);
      QuotientRange(mx, my, i);
      bits := Fixed2Half(11, Quotient(N, D), exp, sign, N % D != 0);
    }
    DivRound(U(x), U(y), mx, my, A, B, i, sign, bits);
  }
}
