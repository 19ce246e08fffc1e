/**
  Sums of halves and of a half and a product.  The smaller operand is shifted right with everything
  lost collected in one sticky bit; that keeps enough of the exact sum to round it correctly.
 */
module HalfSums {
  import opened Arith
  import opened HalfRounding
  import opened HalfArithmetic

  // ---- shifting with a sticky bit ----

  /** n / D with the lowest bit set if anything was lost. */
  function ToOdd(n: nat, D: nat): (r: nat)
    requires D >= 1
  {
    if n % D == 0 || Quotient(n, D) % 2 == 1 then Quotient(n, D) else Quotient(n, D) + 1
  }

  /** W is Z / D exactly, or an odd number less than one away from it. */
  predicate Near(W: nat, Z: nat, D: nat) {
    Z == W * D || (W % 2 == 1 && (W - 1) * D < Z < (W + 1) * D)
  }

  /** W and Z / D lie in the same cell of width C, at its left end both or neither. */
  predicate InCell(W: nat, Z: nat, D: nat, C: nat)
    requires C >= 1
  {
    W / C * (C * D) <= Z < (W / C + 1) * (C * D) && (Z == W / C * (C * D) <==> W % C == 0)
  }

  lemma ToOddNear(n: nat, D: nat)
    requires D >= 1
    ensures Near(ToOdd(n, D), n, D) && (n % D == 0 ==> n == ToOdd(n, D) * D)
    ensures ToOdd(n, D) <= Quotient(n, D) + 1
  {
    QuotRem(n, D);
    var q := Quotient(n, D);
    OneMoreOf(q, D);
    OneMoreOf(q + 1, D);
    if q > 0 {
      OneMoreOf(q - 1, D);
    }
  }

  /** Adding an even number of units keeps that. */
  lemma NearPlus(X: nat, w: nat, n: nat, D: nat)
    requires X % 2 == 0 && Near(w, n, D)
    ensures Near(X + w, X * D + n, D) && (n == w * D ==> X * D + n == (X + w) * D)
  {
    Distribute(X, w, D);
    if w > 0 {
      Distribute(X, w - 1, D);
    }
    Distribute(X, w + 1, D);
  }

  /** And so does subtracting from one. */
  lemma NearMinus(X: nat, w: nat, n: nat, D: nat)
    requires X % 2 == 0 && Near(w, n, D) && w <= X && D >= 1
    ensures n <= X * D && Near(X - w, X * D - n, D) && (n == w * D ==> X * D - n == (X - w) * D)
  {
    MulLe(w, X, D);
    Distribute(X, w, D);
    if n != w * D {
      EvenMinusOdd(X, w);
      StrictlyMinus(X, w, n, D);
    }
  }

  lemma EvenMinusOdd(X: nat, w: nat)
    requires X % 2 == 0 && w % 2 == 1 && w <= X
    ensures w < X && (X - w) % 2 == 1
  {
  }

  lemma StrictlyMinus(X: nat, w: nat, n: nat, D: nat)
    requires w < X && D >= 1 && (w - 1) * D < n < (w + 1) * D
    ensures n <= X * D && (X - w - 1) * D < X * D - n < (X - w + 1) * D
  {
    MulLe(w + 1, X, D);
    Distribute(X, w + 1, D);
    Distribute(X, w - 1, D);
  }

  /** Near numbers share every cell of even width. */
  lemma NearInCell(W: nat, Z: nat, D: nat, C: nat)
    requires D >= 1 && C >= 2 && C % 2 == 0 && Near(W, Z, D)
    ensures InCell(W, Z, D, C)
  {
    if Z == W * D {
      ExactInCell(W, D, C);
    } else {
      QuotRem(W, C);
      OddRest(W, W / C, W % C, C);
      StrictlyInCell(W / C, W % C, Z, D, C);
    }
  }

  lemma OddRest(W: nat, q: nat, r: nat, C: nat)
    requires W == q * C + r && W % 2 == 1 && C % 2 == 0
    ensures r >= 1
  {
    EvenTimes(q, C);
  }

  lemma StrictlyInCell(q: nat, r: nat, Z: nat, D: nat, C: nat)
    requires D >= 1 && 1 <= r < C && (q * C + r - 1) * D < Z < (q * C + r + 1) * D
    ensures q * (C * D) < Z < (q + 1) * (C * D)
  {
    var lo := q * C;
    assert (q + 1) * C == lo + C;
    MulAssoc(q, C, D);
    MulAssoc(q + 1, C, D);
    MulLe(lo, lo + r - 1, D);
    MulLe(lo + r + 1, lo + C, D);
  }

  lemma EvenTimes(q: nat, C: nat)
    requires C % 2 == 0
    ensures q * C % 2 == 0
  {
    assert q * C == q * (C / 2) * 2;
  }

  /** An exact number shares every cell. */
  lemma ExactInCell(W: nat, D: nat, C: nat)
    requires D >= 1 && C >= 1
    ensures InCell(W, W * D, D, C)
  {
    var q, r := W / C, W % C;
    QuotRem(W, C);
    MulAssoc(q, C, D);
    MulAssoc(q + 1, C, D);
    OneMoreOf(q, C);
    MulLe(q * C, W, D);
    MulLt(W, (q + 1) * C, D);
    if r > 0 {
      MulLt(q * C, W, D);
    }
  }

  /** Shifting left once keeps near numbers in one cell of width 4; exact ones may be shifted at will. */
  lemma ShiftedInCell(W: nat, Z: nat, D: nat, t: nat)
    requires D >= 1 && Near(W, Z, D) && (t <= 1 || Z == W * D)
    ensures W * Pow2(t) >= 0 && Z * Pow2(t) >= 0
    ensures InCell(W * Pow2(t), Z * Pow2(t), D, 4)
  {
    hide Near, InCell;
    Pow2Zero();
    Pow2Next(0);
    if t == 0 {
      NearInCell(W, Z, D, 4);
    } else if t == 1 {
      NearInCell(W, Z, D, 2);
      DoubleCell(W, Z, D);
    } else {
      MulNonNeg(W, Pow2(t));
      Swap3(W, D, Pow2(t));
      ExactInCell(W * Pow2(t), D, 4);
    }
  }

  lemma DoubleCell(W: nat, Z: nat, D: nat)
    requires InCell(W, Z, D, 2)
    ensures InCell(W * 2, Z * 2, D, 4)
  {
    var q := W / 2;
    assert W * 2 / 4 == q && (W * 2 % 4 == 0 <==> W % 2 == 0);
    assert q * (4 * D) == q * (2 * D) * 2 && (q + 1) * (4 * D) == (q + 1) * (2 * D) * 2;
  }

  /** Half of W, odd if anything was lost. */
  function HalvedToOdd(W: nat): nat {
    if W % 2 == 0 || W / 2 % 2 == 1 then W / 2 else W / 2 + 1
  }

  /** Shifting right by one with a sticky bit. */
  lemma HalfCell(W: nat, Z: nat, D: nat)
    requires InCell(W, Z, D, 8)
    ensures InCell(HalvedToOdd(W), Z, 2 * D, 4)
  {
    HalvedQuotient(W);
    assert 4 * (2 * D) == 8 * D;
  }

  lemma HalvedQuotient(W: nat)
    ensures HalvedToOdd(W) / 4 == W / 8 && (HalvedToOdd(W) % 4 == 0 <==> W % 8 == 0)
  {
    var q, r := W / 8, W % 8;
    HalvedAt(q, r);
    hide HalvedToOdd;
    assert W == 8 * q + r;
  }

  lemma HalvedAt(q: nat, r: nat)
    requires r < 8
    ensures HalvedToOdd(8 * q + r) == 4 * q + if r % 4 == 0 then r / 2 else if r < 4 then 1 else 3
  {
    var h := r / 2;
    HalfDigits(4 * q, r);
    HalfDigits(2 * q, h);
  }

  lemma HalfDigits(a: nat, r: nat)
    ensures (2 * a + r) / 2 == a + r / 2 && (2 * a + r) % 2 == r % 2
  {
    DivModUnique(2 * a + r, a + r / 2, r % 2, 2);
  }

  // ---- addition ----

  /** The mantissa with its hidden bit, if it has one. */
  function Significand(a: nat): nat {
    a % 0x400 + if a > 0x3FF then 0x400 else 0
  }

  /** The biased exponent, subnormal numbers sharing the least. */
  function BiasedExp(a: nat): nat {
    a / 0x400 + if a <= 0x3FF then 1 else 0
  }

  lemma UnitsOf(a: nat)
    ensures BiasedExp(a) >= 1 && U(a) == Significand(a) * Pow2(BiasedExp(a) - 1)
    ensures Significand(a) < 0x800 && (BiasedExp(a) > 1 ==> Significand(a) >= 0x400) && (a > 0 ==> Significand(a) > 0)
  {
    if a < 0x400 {
      USubnormal(a);
    } else {
      UNormal(a);
    }
  }

  lemma OrderedFields(x: nat, y: nat)
    requires y <= x < INF
    ensures BiasedExp(y) <= BiasedExp(x) <= 30
    ensures BiasedExp(y) == BiasedExp(x) ==> Significand(y) <= Significand(x) && (Significand(y) == Significand(x) ==> x == y)
  {
  }

  /** W counts eighths of a unit in the last place, with e the exponent: the last three bits are guard and sticky. */
  lemma CellRounds(W: nat, Z: nat, D: nat, e: nat)
    requires D >= 1 && InCell(W, Z, D, 4) && W / 8 < 0x800 && (e == 0 || W / 8 >= 0x400) && e <= 29
    ensures IsNearest(Rounded(e * 0x400 + W / 8, W / 4, W % 4 != 0), Z * Pow2(e), 8 * D)
  {
    hide Pow2, U, IsNearest;
    UOf(e, W / 8);
    assert W / 4 / 2 == W / 8;
    assert W / 4 / 1 == W / 4 && W / 4 % 1 == 0;
    RoundAt(e * 0x400 + W / 8, W / 8, Pow2(e), 1, W / 4, Z, 4 * D);
    assert 4 * D * (2 * 1) == 8 * D;
  }

  /** Sum or difference of the magnitudes, in eighths of the larger one's last place, times D. */
  lemma SumUnits(x: nat, y: nat, mx: nat, my: nat, e: nat, d: nat)
    requires d <= e && U(x) == mx * Pow2(e) && U(y) == my * Pow2(e - d)
    ensures U(x) * (8 * Pow2(d)) == 8 * mx * Pow2(d) * Pow2(e)
    ensures U(y) * (8 * Pow2(d)) == 8 * my * Pow2(e)
  {
    hide Pow2, U;
    Pow2Add(e - d, d);
    Swap3(mx, Pow2(e), Pow2(d));
    MulAssoc(my, Pow2(e - d), Pow2(d));
    assert U(x) * (8 * Pow2(d)) == 8 * (mx * Pow2(e) * Pow2(d));
    assert U(y) * (8 * Pow2(d)) == 8 * (my * Pow2(e - d) * Pow2(d));
  }

  /** A shift of thirteen or more leaves only the sticky bit. */
  lemma FarShift(n: nat, d: nat)
    requires 0 < n < 0x4000 && d >= 13 && n % 8 == 0
    ensures ToOdd(n, Pow2(d)) == 1
  {
    hide Pow2;
    assert Pow2(13) == 0x2000 by { Thirteen(); }
    Pow2Grows(13, d);
    var D := Pow2(d);
    QuotRem(n, D);
    if n < D {
      DivModUnique(n, 0, n, D);
    } else {
      DivModUnique(n, 1, n - D, D);
    }
  }

  lemma Thirteen()
    ensures Pow2(13) == 0x2000
  {
    assert Pow2(6) == 64;
    Pow2Add(6, 7);
  }

  /** Anything lost in the shift means that the operands are far apart. */
  lemma LostMeansFar(my: nat, d: nat)
    requires my < 0x800 && 8 * my % Pow2(d) != 0
    ensures d >= 4 && ToOdd(8 * my, Pow2(d)) <= 0x401
  {
    hide Pow2;
    Eights();
    if d <= 3 {
      Pow2Add(d, 3 - d);
      EvenlyDivided(my, Pow2(d), Pow2(3 - d));
      assert false;
    }
    Pow2Grows(4, d);
    ToOddNear(8 * my, Pow2(d));
    QuotientBound(8 * my, Pow2(d));
  }

  lemma Eights()
    ensures Pow2(3) == 8 && Pow2(4) == 16
  {
  }

  lemma EvenlyDivided(my: nat, D: nat, E: nat)
    requires D * E == 8 && D >= 1
    ensures 8 * my % D == 0
  {
    assert 8 * my == E * my * D;
    DivModUnique(8 * my, E * my, 0, D);
  }

  lemma QuotientBound(n: nat, D: nat)
    requires n < 0x4000 && D >= 16
    ensures Quotient(n, D) <= 0x400
  {
    QuotRem(n, D);
    if Quotient(n, D) > 0x400 {
      MulLe(0x401, Quotient(n, D), D);
    }
  }

  /** Adds aligned significands, renormalises by one place if need be, and rounds. */
  method SumAligned(mx: nat, my: nat, exp: nat, sign: nat, ghost n: nat, ghost d: nat) returns (bits: nat)
    requires 1 <= exp <= 30 && mx % 8 == 0 && mx < 0x4000 && (exp > 1 ==> mx >= 0x2000) && sign % 2 == 0
    requires my == ToOdd(n, Pow2(d)) && n < 0x4000
    ensures bits >= sign && IsNearest(bits - sign, Lifted(mx * Pow2(d) + n, exp - 1), 8 * Pow2(d))
  {
    hide Pow2, U, IsNearest, Near, InCell, ToOdd, Rounded, HalvedToOdd, Lifted;
    ghost var D, Z := Pow2(d), mx * Pow2(d) + n;
    AlignedNear(mx, my, n, D);
    var W := mx + my;
    var i := W / 0x4000;
    var e := exp + i;
    if e > 30 {
      SumOverflows(W, Z, D);
      return sign + INF;
    }
    var m := if i == 0 then W else HalvedToOdd(W);
    var value := (e - 1) * 0x400 + m / 8;
    SumRounds(W, Z, D, i, m, exp, sign, value);
    bits := Rounded(sign + value, m / 4, m % 4 != 0);
  }

  lemma AlignedNear(mx: nat, my: nat, n: nat, D: nat)
    requires D >= 1 && mx % 2 == 0 && my == ToOdd(n, D) && n < 0x4000
    ensures mx * D >= 0 && my < 0x4000 && Near(mx + my, mx * D + n, D)
  {
    MulNonNeg(mx, D);
    ToOddNear(n, D);
    SmallQuotient(n, D);
    hide ToOdd;
    NearPlus(mx, my, n, D);
  }

  lemma SumRounds(W: nat, Z: nat, D: nat, i: nat, m: nat, exp: nat, sign: nat, value: nat)
    requires D >= 1 && Near(W, Z, D) && W < 0x8000 && i == W / 0x4000 && 1 <= exp && exp + i <= 30 && (exp > 1 ==> W >= 0x2000)
    requires m == if i == 0 then W else HalvedToOdd(W)
    requires sign % 2 == 0 && value == (exp + i - 1) * 0x400 + m / 8
    ensures var bits := Rounded(sign + value, m / 4, m % 4 != 0);
      bits >= sign && IsNearest(bits - sign, Lifted(Z, exp - 1), 8 * D)
  {
    hide Pow2, U, IsNearest, Near, InCell, Rounded, HalvedToOdd;
    SignApart(sign, value, m / 4, m % 4 != 0);
    if i == 0 {
      NearInCell(W, Z, D, 4);
      CellRounds(m, Z, D, exp - 1);
    } else {
      HalvedRounds(W, Z, D, exp);
    }
  }

  lemma HalvedRounds(W: nat, Z: nat, D: nat, e: nat)
    requires D >= 1 && Near(W, Z, D) && 0x4000 <= W < 0x8000 && 1 <= e <= 29
    ensures var m := HalvedToOdd(W);
      IsNearest(Rounded(e * 0x400 + m / 8, m / 4, m % 4 != 0), Z * Pow2(e - 1), 8 * D)
  {
    hide Pow2, U, IsNearest, Near, InCell, Rounded, HalvedToOdd;
    var m := HalvedToOdd(W);
    NearInCell(W, Z, D, 8);
    HalfCell(W, Z, D);
    HalvedSize(W);
    CellRounds(m, Z, 2 * D, e);
    Pow2Next(e - 1);
    HalfScale(Z, Pow2(e - 1), D);
    var r := Rounded(e * 0x400 + m / 8, m / 4, m % 4 != 0);
    NearestEqual(r, Z * Pow2(e), 8 * (2 * D), Z * Pow2(e - 1), 8 * D);
  }

  lemma HalvedSize(W: nat)
    requires 0x4000 <= W < 0x8000
    ensures 0x400 <= HalvedToOdd(W) / 8 < 0x800
  {
    assert 0x2000 <= W / 2 < 0x4000;
    assert HalvedToOdd(W) < 0x4000;
  }

  lemma HalfScale(Z: nat, P: nat, D: nat)
    ensures Z * (2 * P) * (8 * D) == Z * P * (8 * (2 * D))
  {
    MulAssoc(Z, 2 * P, 8 * D);
    MulAssoc(Z, P, 8 * (2 * D));
    assert 2 * P * (8 * D) == P * (8 * (2 * D));
  }

  lemma SmallQuotient(n: nat, D: nat)
    requires n < 0x4000 && D >= 1
    ensures Quotient(n, D) < 0x4000 && ToOdd(n, D) < 0x4000
  {
    QuotRem(n, D);
    MulLe(1, D, Quotient(n, D));
  }

  lemma SumOverflows(W: nat, Z: nat, D: nat)
    requires W >= 0x4000 && D >= 1 && Near(W, Z, D)
    ensures IsNearest(INF, Lifted(Z, 29), 8 * D)
  {
    hide Pow2, IsNearest, Near;
    SumHuge(W, Z, D);
    HugeIsInfinite(Z * Pow2(29), 8 * D);
  }

  lemma SumHuge(W: nat, Z: nat, D: nat)
    requires W >= 0x4000 && D >= 1 && Near(W, Z, D)
    ensures Pow2(40) * (8 * D) <= Z * Pow2(29)
  {
    hide Pow2;
    assert Pow2(14) == 0x4000 && Pow2(3) == 8 by { Thirteen(); Pow2Next(13); Eights(); }
    assert Z >= 0x4000 * D by {
      if Z == W * D {
        MulLe(0x4000, W, D);
      } else {
        MulLe(0x4000, W - 1, D);
      }
    }
    Pow2Add(40, 3);
    Pow2Add(14, 29);
    MulLe(0x4000 * D, Z, Pow2(29));
    Swap3(Pow2(14), D, Pow2(29));
    MulAssoc(Pow2(40), 8, D);
  }

  /** Doubles the difference until it has its leading bit or the least exponent; at most once if something was lost. */
  method ShiftUp(W: nat, exp: nat, ghost lost: bool) returns (m: nat, e: nat)
    requires 1 <= exp && 0 < W < 0x4000 && (lost ==> W >= 0x1000)
    ensures 1 <= e <= exp && m == W * Pow2(exp - e) && m < 0x4000 && (e > 1 ==> m >= 0x2000)
    ensures lost ==> exp - e <= 1
  {
    hide Pow2;
    m, e := W, exp;
    Pow2Zero();
    while m < 0x2000 && e > 1
      invariant 1 <= e <= exp && 0 < m < 0x4000 && m == W * Pow2(exp - e)
      invariant lost ==> exp - e <= 1 && (exp == e || m >= 0x2000) && m >= 0x1000
    {
      Pow2Next(exp - e);
      MulAssoc(W, Pow2(exp - e), 2);
      m, e := m * 2, e - 1;
    }
  }

  lemma SignificandsDiffer(mx: nat, my: nat, exp: nat, y8: nat, d: nat) returns (Z: nat)
    requires mx % 8 == 0 && (exp > 1 ==> mx >= 0x2000) && y8 < 0x800 && my == ToOdd(8 * y8, Pow2(d)) && my <= mx && d < exp
    ensures 8 * y8 <= mx * Pow2(d) && Z == mx * Pow2(d) - 8 * y8 && Near(mx - my, Z, Pow2(d))
    ensures if 8 * y8 % Pow2(d) == 0 then Z == (mx - my) * Pow2(d) else mx - my >= 0x1000
  {
    hide Pow2, Near, ToOdd;
    var n, D := 8 * y8, Pow2(d);
    ToOddNear(n, D);
    NearMinus(mx, my, n, D);
    Z := mx * D - n;
    if n % D != 0 {
      LostMeansFar(y8, d);
    }
  }

  lemma DifferenceRounds(W: nat, Z: nat, D: nat, m: nat, e: nat, exp: nat, sign: nat, value: nat)
    requires D >= 1 && Near(W, Z, D) && 1 <= e <= exp <= 30 && m == W * Pow2(exp - e) && (exp - e <= 1 || Z == W * D)
    requires m < 0x4000 && (e > 1 ==> m >= 0x2000) && sign % 2 == 0 && value == (e - 1) * 0x400 + m / 8
    ensures var bits := Rounded(sign + value, m / 4, m % 4 != 0);
      bits >= sign && IsNearest(bits - sign, Lifted(Z, exp - 1), 8 * D)
  {
    hide Pow2, U, IsNearest, Near, InCell, Rounded;
    var t := exp - e;
    ShiftedInCell(W, Z, D, t);
    CellRounds(m, Z * Pow2(t), D, e - 1);
    Pow2Add(t, e - 1);
    MulAssoc(Z, Pow2(t), Pow2(e - 1));
    SignApart(sign, value, m / 4, m % 4 != 0);
  }

  /** Subtracts aligned significands, shifts the difference up as far as the exponent allows, and rounds. */
  method SubtractAligned(mx: nat, my: nat, exp: nat, sign: nat, ghost y8: nat, ghost d: nat) returns (zero: bool, bits: nat)
    requires 1 <= exp <= 30 && mx % 8 == 0 && mx < 0x4000 && (exp > 1 ==> mx >= 0x2000) && sign % 2 == 0
    requires y8 < 0x800 && my == ToOdd(8 * y8, Pow2(d)) && my <= mx && d < exp
    ensures zero <==> mx == my
    ensures 8 * y8 <= mx * Pow2(d)
    ensures !zero ==> bits >= sign && IsNearest(bits - sign, Lifted(mx * Pow2(d) - 8 * y8, exp - 1), 8 * Pow2(d))
  {
    hide Pow2, U, IsNearest, Near, InCell, ToOdd, Rounded, Lifted;
    ghost var D := Pow2(d);
    ghost var Z := SignificandsDiffer(mx, my, exp, y8, d);
    if mx == my {
      return true, 0;
    }
    var m, e := ShiftUp(mx - my, exp, 8 * y8 % D != 0);
    var value := (e - 1) * 0x400 + m / 8;
    DifferenceRounds(mx - my, Z, D, m, e, exp, sign, value);
    zero, bits := false, Rounded(sign + value, m / 4, m % 4 != 0);
  }

  /** Sum or difference of two non-zero magnitudes, the larger one first. */
  method AddMagnitudes(x: nat, y: nat, sub: bool, sign: nat) returns (zero: bool, bits: nat)
    requires 0 < y <= x < INF && sign % 2 == 0
    ensures zero <==> sub && x == y
    ensures !zero ==> U(x) >= U(y) && bits >= sign && IsNearest(bits - sign, if sub then U(x) - U(y) else U(x) + U(y), 1)
  {
    hide Pow2, U, IsNearest, Near, InCell, ToOdd, Rounded, Significand, BiasedExp;
    OrderedFields(x, y);
    UnitsOf(x);
    UnitsOf(y);
    UGrows(y, x);
    var exp, sx, sy := BiasedExp(x), Significand(x), Significand(y);
    var d := exp - BiasedExp(y);
    var mx, my := sx * 8, 1;
    if d < 13 {
      my := ToOdd(sy * 8, Pow2(d));
    } else {
      FarShift(sy * 8, d);
    }
    SumUnits(x, y, sx, sy, exp - 1, d);
    if sub {
      AlignedSmaller(sx, sy, exp, d);
      zero, bits := SubtractAligned(mx, my, exp, sign, sy, d);
      if !zero {
        NearestDifference(U(x), U(y), mx, 8 * sy, Pow2(d), Pow2(exp - 1), bits - sign);
      }
    } else {
      bits := SumAligned(mx, my, exp, sign, 8 * sy, d);
      NearestSum(U(x), U(y), mx, 8 * sy, Pow2(d), Pow2(exp - 1), bits - sign);
      zero := false;
    }
  }

  lemma NearestSum(u: nat, v: nat, mx: nat, my: nat, D: nat, E: nat, r: nat)
    requires D >= 1 && u * (8 * D) == mx * D * E && v * (8 * D) == my * E
    requires IsNearest(r, (mx * D + my) * E, 8 * D)
    ensures IsNearest(r, u + v, 1)
  {
    hide IsNearest;
    Combine(u, v, mx * D, my, E, 8 * D);
    NearestEqual(r, (mx * D + my) * E, 8 * D, u + v, 1);
  }

  lemma NearestDifference(u: nat, v: nat, mx: nat, my: nat, D: nat, E: nat, r: nat)
    requires D >= 1 && u * (8 * D) == mx * D * E && v * (8 * D) == my * E && my <= mx * D && v <= u
    requires IsNearest(r, (mx * D - my) * E, 8 * D)
    ensures IsNearest(r, u - v, 1)
  {
    hide IsNearest;
    Combine(u, v, mx * D, my, E, 8 * D);
    NearestEqual(r, (mx * D - my) * E, 8 * D, u - v, 1);
  }

  lemma Combine(a: nat, b: nat, x: int, y: int, P: nat, E: nat)
    requires a * E == x * P && b * E == y * P
    ensures (x + y) * P * 1 == (a + b) * E && (x - y) * P * 1 == (a - b) * E
  {
    Distribute(x, y, P);
    Distribute(a, b, E);
  }

  /** The aligned smaller operand does not exceed the larger, and equals it only without a shift. */
  lemma AlignedSmaller(sx: nat, sy: nat, exp: nat, d: nat)
    requires 0 < sy < 0x800 && sx < 0x800 && d < exp && (exp > 1 ==> sx >= 0x400) && (d == 0 ==> sy <= sx)
    ensures ToOdd(8 * sy, Pow2(d)) <= 8 * sx
    ensures ToOdd(8 * sy, Pow2(d)) == 8 * sx <==> d == 0 && sx == sy
  {
    hide Pow2;
    Pow2Zero();
    if d == 0 {
      DivModUnique(8 * sy, 8 * sy, 0, 1);
    } else {
      Pow2Next(0);
      Pow2Grows(1, d);
      HalfAtMost(8 * sy, Pow2(d));
    }
  }

  lemma HalfAtMost(n: nat, D: nat)
    requires D >= 2 && n % 8 == 0 && n < 0x4000
    ensures ToOdd(n, D) < 0x2000
  {
    QuotRem(n, D);
    if Quotient(n, D) >= 0x2000 {
      MulLe(0x2000, Quotient(n, D), D);
      MulLeLeft(0x2000, 2, D);
    }
  }

  // ---- signed sums ----

  /** The value of a finite code, in units of 2^-24. */
  function Units(x: nat): (u: int)
    requires x < 0x1_0000
    ensures x < 0x8000 ==> u == U(x)
    ensures x >= 0x8000 ==> u == 0 - U(x - 0x8000)
  {
    if Sign(x) == 0 then U(Abs(x)) else 0 - U(Abs(x))
  }

  /** A code is the rounding of its own magnitude. */
  lemma ExactNearest(a: nat, d: nat)
    requires a < INF && d >= 1
    ensures IsNearest(a, U(a) * d, d)
  {
    hide U;
    UGrows(a, a + 1);
    MulLe(U(a), U(a + 1), d);
    MulLt(U(a), U(a + 1), d);
    NearestOf(a, U(a) * d, d, false);
  }

  /** The sum of two halves, rounded once; exact cancellation gives plus zero. */
  method Add(x: nat, y: nat) returns (res: Result)
    requires x < 0x1_0000 && y < 0x1_0000
    ensures Abs(x) > INF || Abs(y) > INF ==> res == NaN
    ensures Abs(x) == INF && Abs(y) < INF ==> res == Half(x)
    ensures Abs(x) < INF && Abs(y) == INF ==> res == Half(y)
    ensures Abs(x) == INF && Abs(y) == INF ==> res == if (x >= 0x8000) == (y >= 0x8000) then Half(x) else NaN
    ensures Abs(x) < INF && Abs(y) < INF && Units(x) + Units(y) > 0 ==> RoundsTo(res, false, Units(x) + Units(y), 1)
    ensures Abs(x) < INF && Abs(y) < INF && Units(x) + Units(y) < 0 ==> RoundsTo(res, true, 0 - (Units(x) + Units(y)), 1)
    ensures Abs(x) < INF && Abs(y) < INF && Units(x) + Units(y) == 0 ==>
      res == Half(if x == y == 0x8000 then 0x8000 else 0)
  {
    hide U, IsNearest;
    var absx, absy := Abs(x), Abs(y);
    var sub := Sign(x) != Sign(y);
    if absx >= INF || absy >= INF {
      return if absx > INF || absy > INF then NaN else if absy != INF then Half(x)
        else if sub && absx == INF then NaN else Half(y);
    }
    UGrows(0, absx);
    UGrows(0, absy);
    assert U(0) == 0 by { USubnormal(0); }
    if absx == 0 {
      ExactNearest(absy, 1);
      SignedRounds(Sign(y), y, U(absy), 1);
      return if absy != 0 then Half(y) else Half(if Sign(x) == Sign(y) then x else 0);
    }
    if absy == 0 {
      ExactNearest(absx, 1);
      SignedRounds(Sign(x), x, U(absx), 1);
      return Half(x);
    }
    var sign := if sub && absy > absx then Sign(y) else Sign(x);
    UGrows(if absx <= absy then absx else absy, if absx <= absy then absy else absx);
    if absy > absx {
      absx, absy := absy, absx;
    }
    var zero, bits := AddMagnitudes(absx, absy, sub, sign);
    if !zero {
      SignedRounds(sign, bits, if sub then U(absx) - U(absy) else U(absx) + U(absy), 1);
    }
    res := Half(if zero then 0 else bits);
  }
}
