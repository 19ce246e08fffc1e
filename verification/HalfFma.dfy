/** Fused multiply-add: the exact product is kept in full, and the sum is rounded once. */
module HalfFma {
  import opened Arith
  import opened HalfRounding
  import opened HalfArithmetic
  import opened HalfSums

  /** Magnitude n (in units of 2^-48) as a mantissa in Q1.23 with its exponent. */
  ghost predicate Holds(n: nat, m: nat, exp: int) {
    exp >= -64 && Pow2(23) <= m < Pow2(24) && m % 4 == 0 && Times(n, Pow2(54)) == Times(m, Pow2(exp + 64))
  }

  /** The last two of 23 fraction bits may count as sticky. */
  lemma FixedShift(m: nat, exp: int, sign: nat)
    requires -11 <= exp <= 29
    ensures Fixed2Half(23, m, exp, sign, false) == Fixed2Half(21, m / 4, exp, sign, m % 4 != 0)
  {
    hide Rounded, Pow2;
    var k := if exp < 0 then 12 - exp else 12;
    ShiftTwice(m, k);
    ShiftTwice(m, k + 1);
  }

  lemma ShiftTwice(m: nat, k: nat)
    requires k >= 2
    ensures Shr(m, k) == Shr(m / 4, k - 2) && (Low(m, k) != 0 <==> m % 4 != 0 || Low(m / 4, k - 2) != 0)
  {
    hide Pow2;
    var P, h := Pow2(k - 2), m / 4;
    Pow2Next(k - 2);
    Pow2Next(k - 1);
    QuotRem(h, P);
    assert Pow2(k) == 4 * P;
    var q, r := h / P, h % P;
    assert m == 4 * h + m % 4;
    assert 4 * (q * P) == q * (4 * P);
    DivModUnique(m, q, 4 * r + m % 4, 4 * P);
  }

  /** Rounds a sum T known up to one cell of four units of its mantissa's last place. */
  lemma FmaRound(T: nat, m: nat, Z: nat, D: nat, exp: int, sign: nat, res: nat)
    requires D >= 1 && exp >= -64 && Pow2(23) <= m < Pow2(24) && InCell(m, Z, D, 4) && sign % 2 == 0
    requires Times(Times(T, Pow2(54)), D) == Times(Z, Pow2(exp + 64))
    requires res == if exp > 30 then sign + INF else if exp < -10 then sign else Fixed2Half(23, m, exp - 1, sign, false)
    ensures res >= sign && IsNearest(res - sign, T, Pow2(24))
  {
    hide Pow2, IsNearest, Fixed2Half, Times, InCell;
    CellRange(m, Z, D);
    if exp > 30 {
      FmaHuge(T, Z, D, exp);
      HugeIsInfinite(T, Pow2(24));
    } else if exp < -10 {
      FmaTiny(T, Z, D, exp);
      TinyIsZero(T, Pow2(24));
    } else {
      FixedShift(m, exp - 1, sign);
      var r := Fixed2HalfNearest(21, m / 4, exp - 1, sign, m % 4 != 0, Z, 4 * D);
      FmaEqual(T, Z, D, exp);
      NearestEqual(r, Z * Pow2(exp + 10), 4 * D * Pow2(22), T, Pow2(24));
    }
  }

  lemma CellRange(m: nat, Z: nat, D: nat)
    requires D >= 1 && Pow2(23) <= m < Pow2(24) && InCell(m, Z, D, 4)
    ensures Pow2(23) * D <= Z < Pow2(24) * D
    ensures Pow2(21) <= m / 4 < Pow2(22) && m / 4 * (4 * D) <= Z < (m / 4 + 1) * (4 * D) && (m % 4 != 0 <==> Z != m / 4 * (4 * D))
  {
    hide Pow2;
    Pow2Next(21);
    Pow2Next(22);
    Pow2Next(23);
    var q, P := m / 4, Pow2(21);
    assert P <= q && q + 1 <= 2 * P;
    MulLe(P, q, 4 * D);
    MulLe(q + 1, 2 * P, 4 * D);
    assert P * (4 * D) == 4 * P * D && 2 * P * (4 * D) == 8 * P * D;
  }

  lemma FmaHuge(T: nat, Z: nat, D: nat, exp: int)
    requires D >= 1 && exp > 30 && Pow2(23) * D <= Z && Times(Times(T, Pow2(54)), D) == Times(Z, Pow2(exp + 64))
    ensures Pow2(40) * Pow2(24) <= T
  {
    hide Pow2;
    Pow2Grows(95, exp + 64);
    MulLeLeft(Z, Pow2(95), Pow2(exp + 64));
    MulLe(Pow2(23) * D, Z, Pow2(95));
    Swap3(Pow2(23), D, Pow2(95));
    Pow2Add(23, 95);
    Pow2Add(64, 54);
    Swap3(T, Pow2(54), D);
    CancelLe(Pow2(64) * Pow2(54), T * Pow2(54), D);
    CancelLe(Pow2(64), T, Pow2(54));
    Pow2Add(40, 24);
  }

  lemma FmaTiny(T: nat, Z: nat, D: nat, exp: int)
    requires D >= 1 && -64 <= exp < -10 && Z < Pow2(24) * D && Times(Times(T, Pow2(54)), D) == Times(Z, Pow2(exp + 64))
    ensures 2 * T < Pow2(24)
  {
    hide Pow2;
    Pow2Grows(exp + 64, 53);
    MulLeLeft(Z, Pow2(exp + 64), Pow2(53));
    MulLt(Z, Pow2(24) * D, Pow2(53));
    Swap3(Pow2(24), D, Pow2(53));
    Pow2Add(24, 53);
    Pow2Add(23, 54);
    CancelLt(T * Pow2(54), Pow2(23) * Pow2(54), D);
    CancelLt(T, Pow2(23), Pow2(54));
    Pow2Next(23);
  }

  lemma FmaEqual(T: nat, Z: nat, D: nat, exp: int)
    requires D >= 1 && exp >= -10 && Times(Times(T, Pow2(54)), D) == Times(Z, Pow2(exp + 64))
    ensures Z * Pow2(exp + 10) * Pow2(24) == T * (4 * D * Pow2(22))
  {
    hide Pow2;
    Pow2Add(exp + 10, 24);
    Pow2Add(exp + 34, 30);
    Pow2Add(24, 30);
    MulAssoc(Z, Pow2(exp + 10), Pow2(24));
    MulAssoc(Z, Pow2(exp + 34), Pow2(30));
    Pow2Next(22);
    Pow2Next(23);
    assert 4 * D * Pow2(22) == D * Pow2(24);
    Swap3(T, Pow2(54), D);
    MulAssoc(T * D, Pow2(24), Pow2(30));
    MulAssoc(T, D, Pow2(24));
    MulCancel(Z * Pow2(exp + 34), T * D * Pow2(24), Pow2(30));
  }

  /** An exact mantissa rounds like that. */
  lemma FmaExact(T: nat, m: nat, exp: int, sign: nat, res: nat)
    requires Holds(T, m, exp) && sign % 2 == 0
    requires res == if exp > 30 then sign + INF else if exp < -10 then sign else Fixed2Half(23, m, exp - 1, sign, false)
    ensures res >= sign && IsNearest(res - sign, T, Pow2(24))
  {
    hide Pow2, IsNearest, Fixed2Half;
    ExactInCell(m, 1, 4);
    FmaRound(T, m, m, 1, exp, sign, res);
  }

  // ---- aligned sums ----

  /** The two magnitudes over a common denominator. */
  lemma Aligned(n1: nat, n2: nat, m1: nat, m2: nat, e1: int, e2: int)
    requires Holds(n1, m1, e1) && Holds(n2, m2, e2) && e2 <= e1
    ensures Times(Times(n1 + n2, Pow2(54)), Pow2(e1 - e2)) == Times(Times(m1, Pow2(e1 - e2)) + m2, Pow2(e1 + 64))
    ensures m2 <= Times(m1, Pow2(e1 - e2)) <==> n2 <= n1
    ensures m2 == Times(m1, Pow2(e1 - e2)) <==> n2 == n1
    ensures n2 <= n1 ==>
      Times(Times(n1 - n2, Pow2(54)), Pow2(e1 - e2)) == Times(Times(m1, Pow2(e1 - e2)) - m2, Pow2(e1 + 64))
  {
    hide Pow2;
    var D, P, Q := Pow2(e1 - e2), Pow2(54), Pow2(e1 + 64);
    Pow2Add(e2 + 64, e1 - e2);
    assert n1 * P * D == m1 * D * Q by { Swap3(m1, Q, D); }
    assert n2 * P * D == m2 * Q by { MulAssoc(m2, Pow2(e2 + 64), D); }
    SumsScale(n1, n2, P, D, m1 * D, m2, Q);
  }

  lemma TimesOf(x: nat, y: nat)
    ensures Times(x, y) == x * y
  {
  }

  lemma SumsScale(a: nat, b: nat, P: nat, D: nat, x: nat, y: nat, Q: nat)
    requires a * P * D == x * Q && b * P * D == y * Q && P >= 1 && D >= 1 && Q >= 1
    ensures (a + b) * P * D == (x + y) * Q && (a - b) * P * D == (x - y) * Q
    ensures (y <= x <==> b <= a) && (y == x <==> b == a)
  {
    Distribute(a, b, P);
    Distribute(a * P, b * P, D);
    Distribute(x, y, Q);
    if b <= a {
      MulLe(b, a, P);
      MulLe(b * P, a * P, D);
      CancelLe(y, x, Q);
    } else {
      MulLt(a, b, P);
      MulLt(a * P, b * P, D);
      CancelLt(x, y, Q);
    }
    if a == b {
      MulCancel(x, y, Q);
    }
    if x == y {
      MulCancel(a * P, b * P, D);
      MulCancel(a, b, P);
    }
  }

  /** Shifting right by 23 or more leaves only the sticky bit. */
  lemma FarShift23(m: nat, d: nat)
    requires Pow2(23) <= m < Pow2(24) && d >= 23
    ensures ToOdd(m, Pow2(d)) == 1
  {
    hide Pow2;
    Pow2Next(23);
    Pow2Grows(23, d);
    var D := Pow2(d);
    if m < D {
      DivModUnique(m, 0, m, D);
    } else {
      DivModUnique(m, 1, m - D, D);
    }
    QuotRem(m, D);
  }

  /** Anything lost in the shift means that the operands are at least three places apart. */
  lemma LostMeansFar23(m: nat, d: nat)
    requires m % 4 == 0 && m < Pow2(24) && m % Pow2(d) != 0
    ensures d >= 3 && ToOdd(m, Pow2(d)) <= Pow2(21) + 1
  {
    SmallPowers();
    NearLosesNothing(m, d);
    Pow2Next(21);
    Pow2Next(22);
    Pow2Next(23);
    hide Pow2, ToOdd;
    Pow2Grows(3, d);
    ToOddShrinks(m, Pow2(d), Pow2(21));
  }

  lemma NearLosesNothing(m: nat, d: nat)
    requires m % 4 == 0 && m % Pow2(d) != 0
    ensures d >= 3
  {
    SmallPowers();
    hide Pow2;
    if d < 3 {
      FourthsDivide(m / 4, m, Pow2(d));
    }
  }

  lemma FourthsDivide(k: nat, m: nat, D: nat)
    requires m == 4 * k && (D == 1 || D == 2 || D == 4)
    ensures m % D == 0
  {
    var q := if D == 1 then m else if D == 2 then 2 * k else k;
    assert q * D == m;
    DivModUnique(m, q, 0, D);
  }

  lemma SmallPowers()
    ensures Pow2(0) == 1 && Pow2(1) == 2 && Pow2(2) == 4 && Pow2(3) == 8
  {
    Pow2Zero();
    Pow2Next(0);
    Pow2Next(1);
    Pow2Next(2);
  }

  lemma ToOddShrinks(m: nat, D: nat, bound: nat)
    requires D >= 8 && m < 8 * bound
    ensures ToOdd(m, D) <= bound + 1
  {
    ToOddNear(m, D);
    hide ToOdd;
    QuotRem(m, D);
    if Quotient(m, D) > bound {
      MulLe(bound, Quotient(m, D), D);
      MulLeLeft(bound, 8, D);
    }
  }

  /** The smaller mantissa shifted right by d; beyond 22 places only the sticky bit remains. */
  method Align(mz: nat, d: nat) returns (w: nat)
    requires Pow2(23) <= mz < Pow2(24)
    ensures w == ToOdd(mz, Pow2(d))
  {
    hide Pow2, ToOdd;
    if d < 23 {
      w := ToOdd(mz, Pow2(d));
    } else {
      FarShift23(mz, d);
      w := 1;
    }
  }

  /** Adds the aligned mantissas, renormalising by one place if need be. */
  method FmaAdd(m: nat, mz: nat, exp: int, expz: int, ghost n: nat, ghost nz: nat) returns (m': nat, exp': int, ghost D: nat, ghost Z: nat)
    requires Holds(n, m, exp) && Holds(nz, mz, expz) && expz <= exp
    ensures D >= 1 && exp' >= -64 && Pow2(23) <= m' < Pow2(24) && InCell(m', Z, D, 4)
    ensures Times(Times(n + nz, Pow2(54)), D) == Times(Z, Pow2(exp' + 64))
  {
    hide Pow2, InCell, ToOdd, Times;
    var w := Align(mz, exp - expz);
    var W := m + w;
    var i := if W >= Pow2(24) then 1 else 0;
    exp' := exp + i;
    m' := if i == 0 then W else HalvedToOdd(W);
    D, Z := FmaAddCell(m, mz, w, exp, expz, n, nz, i, m');
  }

  lemma FmaAddCell(m: nat, mz: nat, w: nat, exp: int, expz: int, n: nat, nz: nat, i: nat, m': nat) returns (D: nat, Z: nat)
    requires Holds(n, m, exp) && Holds(nz, mz, expz) && expz <= exp && w == ToOdd(mz, Pow2(exp - expz))
    requires i == (if m + w >= Pow2(24) then 1 else 0)
    requires m' == if i == 0 then m + w else HalvedToOdd(m + w)
    ensures D >= 1 && Pow2(23) <= m' < Pow2(24) && InCell(m', Z, D, 4)
    ensures Times(Times(n + nz, Pow2(54)), D) == Times(Z, Pow2(exp + i + 64))
  {
    hide Pow2, Near, InCell, ToOdd, Times;
    var W := m + w;
    D, Z := Pow2(exp - expz), m * Pow2(exp - expz) + mz;
    Aligned(n, nz, m, mz, exp, expz);
    TimesOf(m, Pow2(exp - expz));
    SumNear(m, mz, D);
    if i == 0 {
      NearInCell(W, Z, D, 4);
    } else {
      WrappedCell(W, Z, D);
      DoubleDenominator(n + nz, Z, D, exp);
      D := 2 * D;
    }
  }

  lemma WrappedCell(W: nat, Z: nat, D: nat)
    requires D >= 1 && Near(W, Z, D) && Pow2(24) <= W < Pow2(25)
    ensures var v := HalvedToOdd(W);
      Pow2(23) <= v < Pow2(24) && InCell(v, Z, 2 * D, 4)
  {
    hide Pow2, Near, InCell;
    Pow2Next(22);
    Pow2Next(23);
    Pow2Next(24);
    HalvedRange(W, Pow2(23));
    NearInCell(W, Z, D, 8);
    HalfCell(W, Z, D);
  }

  lemma HoldsRange(n: nat, m: nat, exp: int)
    requires Holds(n, m, exp)
    ensures exp >= -64 && Pow2(23) <= m < Pow2(24) && m % 4 == 0
  {
  }

  lemma SumNear(m: nat, mz: nat, D: nat)
    requires m < Pow2(24) && mz < Pow2(24) && m % 4 == 0 && D >= 1
    ensures m * D >= 0
    ensures Near(m + ToOdd(mz, D), m * D + mz, D) && m + ToOdd(mz, D) < Pow2(25)
  {
    hide Pow2, Near, ToOdd;
    MulNonNeg(m, D);
    ToOddNear(mz, D);
    NearPlus(m, ToOdd(mz, D), mz, D);
    OddBound(mz, D);
    Pow2Next(24);
  }

  lemma OddBound(m: nat, D: nat)
    requires m < Pow2(24) && D >= 1
    ensures ToOdd(m, D) < Pow2(24)
  {
    hide Pow2;
    QuotRem(m, D);
    MulLe(1, D, Quotient(m, D));
    Pow2Next(23);
  }

  lemma HalvedRange(W: nat, P: nat)
    requires 2 * P <= W < 4 * P && P % 2 == 0
    ensures P <= HalvedToOdd(W) < 2 * P
  {
    var q, h := W / 2, P / 2;
    assert W == 2 * q + W % 2 && P == 2 * h;
    if W % 2 != 0 && q % 2 == 0 {
      assert q == 2 * (q / 2) && q / 2 < 2 * h;
    }
  }

  lemma DoubleDenominator(T: nat, Z: nat, D: nat, exp: int)
    requires exp >= -64 && Times(Times(T, Pow2(54)), D) == Times(Z, Pow2(exp + 64))
    ensures Times(Times(T, Pow2(54)), 2 * D) == Times(Z, Pow2(exp + 1 + 64))
  {
    hide Pow2;
    Pow2Next(exp + 64);
    assert T * Pow2(54) * (2 * D) == 2 * (T * Pow2(54) * D);
    assert Z * (2 * Pow2(exp + 64)) == 2 * (Z * Pow2(exp + 64));
  }

  /** Subtracts the aligned mantissas and shifts the difference up to its leading bit. */
  method FmaSubtract(m: nat, mz: nat, exp: int, expz: int, ghost n: nat, ghost nz: nat)
    returns (zero: bool, m': nat, exp': int, ghost D: nat, ghost Z: nat)
    requires Holds(n, m, exp) && Holds(nz, mz, expz) && (expz < exp || (expz == exp && mz <= m)) && exp >= -40
    ensures nz <= n && (zero <==> nz == n)
    ensures !zero ==> D >= 1 && exp' >= -64 && Pow2(23) <= m' < Pow2(24) && InCell(m', Z, D, 4)
    ensures !zero ==> Times(Times(n - nz, Pow2(54)), D) == Times(Z, Pow2(exp' + 64))
  {
    hide Pow2, Near, InCell, ToOdd, Times, Holds;
    HoldsRange(nz, mz, expz);
    var w := Align(mz, exp - expz);
    D := Pow2(exp - expz);
    ghost var Z0 := DifferenceNear(m, mz, exp, expz, n, nz);
    ghost var W, exact := m - w, mz % D == 0;
    if m == w {
      zero, m', exp', Z := true, 0, 0, 0;
      return;
    }
    m', exp' := m - w, exp;
    Pow2Zero();
    Pow2Next(22);
    while m' < Pow2(23)
      invariant exp' <= exp && 0 < m' < Pow2(24)
      invariant m' == W * Pow2(exp - exp') && (exp - exp' <= 1 || exact)
      invariant m' < Pow2(23) && !exact ==> exp == exp'
      invariant exp == exp' && !exact ==> m' >= Pow2(22)
      decreases Pow2(24) - m'
    {
      Pow2Next(exp - exp');
      MulAssoc(W, Pow2(exp - exp'), 2);
      Pow2Next(23);
      m', exp' := m' * 2, exp' - 1;
    }
    ghost var t := exp - exp';
    ShiftBound(W, t, m');
    ShiftedInCell(W, Z0, D, t);
    Z := Z0 * Pow2(t);
    ShiftedScale(n - nz, Z0, D, exp, t);
    zero := false;
  }

  lemma DifferenceNear(m: nat, mz: nat, exp: int, expz: int, n: nat, nz: nat) returns (Z: nat)
    requires Holds(n, m, exp) && Holds(nz, mz, expz) && (expz < exp || (expz == exp && mz <= m))
    ensures var D := Pow2(exp - expz);
      var w := ToOdd(mz, D);
      w <= m < Pow2(24) && Near(m - w, Z, D) && nz <= n && (m == w <==> nz == n)
      && (mz % D == 0 ==> Z == (m - w) * D) && (mz % D != 0 ==> m - w >= Pow2(22))
      && Times(Times(n - nz, Pow2(54)), D) == Times(Z, Pow2(exp + 64))
  {
    hide Pow2, Near, ToOdd, Times, Holds;
    HoldsRange(n, m, exp);
    HoldsRange(nz, mz, expz);
    MinusNear(m, mz, exp - expz);
    Aligned(n, nz, m, mz, exp, expz);
    TimesOf(m, Pow2(exp - expz));
    Z := m * Pow2(exp - expz) - mz;
  }

  lemma MinusNear(m: nat, mz: nat, d: nat)
    requires Pow2(23) <= m < Pow2(24) && mz < Pow2(24) && m % 4 == 0 && mz % 4 == 0 && (d == 0 ==> mz <= m)
    ensures var D := Pow2(d);
      var w := ToOdd(mz, D);
      w <= m && mz <= m * D && Near(m - w, m * D - mz, D) && (m == w <==> mz == m * D)
      && (mz % D == 0 ==> m * D - mz == (m - w) * D) && (mz % D != 0 ==> m - w >= Pow2(22))
  {
    hide Pow2, Near, ToOdd;
    var D := Pow2(d);
    ToOddNear(mz, D);
    SmallerMantissa(m, mz, d);
    NearMinus(m, ToOdd(mz, D), mz, D);
    if mz % D != 0 {
      LostMeansFar23(mz, d);
      Pow2Next(21);
      Pow2Next(22);
    }
  }

  lemma ShiftBound(W: nat, t: nat, m: nat)
    requires W >= 1 && m == W * Pow2(t) && m < Pow2(24)
    ensures t < 24
  {
    hide Pow2;
    MulLe(1, W, Pow2(t));
    if t >= 24 {
      Pow2Grows(24, t);
    }
  }

  lemma ShiftedScale(T: nat, Z: nat, D: nat, exp: int, t: nat)
    requires exp - t >= -64 && Times(Times(T, Pow2(54)), D) == Times(Z, Pow2(exp + 64))
    ensures Z * Pow2(t) >= 0 && Times(Times(T, Pow2(54)), D) == Times(Z * Pow2(t), Pow2(exp - t + 64))
  {
    hide Pow2;
    MulNonNeg(Z, Pow2(t));
    Pow2Add(t, exp - t + 64);
    MulAssoc(Z, Pow2(t), Pow2(exp - t + 64));
  }

  /** The smaller operand, shifted, does not exceed the larger. */
  lemma SmallerMantissa(m: nat, mz: nat, d: nat)
    requires Pow2(23) <= m && mz < Pow2(24) && (d == 0 ==> mz <= m) && m % 4 == 0
    ensures ToOdd(mz, Pow2(d)) <= m && (ToOdd(mz, Pow2(d)) == m <==> mz == m * Pow2(d))
  {
    hide Pow2, ToOdd;
    var D := Pow2(d);
    if d == 0 {
      Pow2Zero();
      OddOfOne(mz);
    } else {
      Pow2Zero();
      Pow2Next(0);
      Pow2Grows(1, d);
      Pow2Next(22);
      Pow2Next(23);
      OddBelow(mz, D, Pow2(22));
      MulLe(Pow2(23), m, D);
      MulLeLeft(Pow2(23), 2, D);
    }
  }

  lemma OddOfOne(m: nat)
    ensures ToOdd(m, 1) == m && m * 1 == m
  {
    DivModUnique(m, m, 0, 1);
  }

  lemma OddBelow(m: nat, D: nat, P: nat)
    requires m < 4 * P && D >= 2
    ensures ToOdd(m, D) < 2 * P
  {
    QuotRem(m, D);
    var q := Quotient(m, D);
    if q >= 2 * P {
      MulLe(2 * P, q, D);
      MulLeLeft(2 * P, 2, D);
    }
  }

  // ---- the operation ----

  /** The exact product of two magnitudes as a mantissa in Q1.23. */
  method ProductMantissa(x: nat, y: nat) returns (m: nat, exp: int)
    requires 0 < x < INF && 0 < y < INF
    ensures Holds(Times(U(x), U(y)), m, exp) && exp >= -40
  {
    hide Pow2, U, Shr, Mantissa, Exponent;
    var absx, ex := Normalize(x, -15);
    var absy, e := Normalize(y, ex);
    ghost var A, B := Exponent(absx) + 9 - (-15 - ex), Exponent(absy) + 9 - (ex - e);
    Decompose(x, absx, -15 - ex);
    Decompose(y, absy, ex - e);
    var m0 := Mantissa(absx) * Mantissa(absy);
    ProductUnits(U(x), U(y), Mantissa(absx), Mantissa(absy), A, B);
    ProductRange(Mantissa(absx), Mantissa(absy));
    var i := Shr(m0, 21);
    exp := e + Exponent(absx) + Exponent(absy) + i;
    m := m0 * Pow2(3 - i);
    ProductHolds(Times(U(x), U(y)), m0, A + B, i, exp);
  }

  lemma ProductHolds(n: nat, m0: nat, S: nat, i: nat, exp: int)
    requires n * Pow2(20) == m0 * Pow2(S) && i <= 1 && Pow2(20 + i) <= m0 < Pow2(21 + i) && exp == S - 33 + i
    ensures m0 * Pow2(3 - i) >= 0 && Holds(n, m0 * Pow2(3 - i), exp)
  {
    hide Pow2;
    var m := m0 * Pow2(3 - i);
    Pow2Add(20 + i, 3 - i);
    Pow2Add(21 + i, 3 - i);
    MulLe(Pow2(20 + i), m0, Pow2(3 - i));
    MulLt(m0, Pow2(21 + i), Pow2(3 - i));
    assert m % 4 == 0 by { FourDivides(m0, 3 - i); }
    Pow2Add(20, 34);
    Pow2Add(S, 34);
    Pow2Add(3 - i, exp + 64);
    MulAssoc(n, Pow2(20), Pow2(34));
    MulAssoc(m0, Pow2(S), Pow2(34));
    MulAssoc(m0, Pow2(3 - i), Pow2(exp + 64));
  }

  lemma FourDivides(m: nat, k: nat)
    requires k >= 2
    ensures m * Pow2(k) % 4 == 0
  {
    Pow2Next(k - 1);
    Pow2Next(k - 2);
    assert m * Pow2(k) == 4 * (m * Pow2(k - 2));
  }

  /** A half as a mantissa in Q1.23. */
  method HalfMantissa(z: nat) returns (m: nat, exp: int)
    requires 0 < z < INF
    ensures Holds(Times(U(z), Pow2(24)), m, exp) && exp >= -40
  {
    hide Pow2, U, Mantissa, Exponent;
    var absz, e := Normalize(z, 0);
    Decompose(z, absz, 0 - e);
    exp := e + Exponent(absz);
    m := Mantissa(absz) * Pow2(13);
    HalfHolds(U(z), Mantissa(absz), Exponent(absz) + 9 - (0 - e));
  }

  lemma HalfHolds(u: nat, mz: nat, C: nat)
    requires u * Pow2(10) == mz * Pow2(C) && 0x400 <= mz < 0x800
    ensures mz * Pow2(13) >= 0 && Holds(Times(u, Pow2(24)), mz * Pow2(13), C - 9)
  {
    hide Pow2;
    Ten();
    Pow2Add(10, 13);
    Pow2Add(11, 13);
    MulLe(Pow2(10), mz, Pow2(13));
    MulLt(mz, Pow2(11), Pow2(13));
    assert mz * Pow2(13) % 4 == 0 by { FourDivides(mz, 13); }
    Pow2Add(24, 54);
    Pow2Add(10, 68);
    Pow2Add(C, 68);
    Pow2Add(13, C + 55);
    MulAssoc(u, Pow2(24), Pow2(54));
    MulAssoc(u, Pow2(10), Pow2(68));
    MulAssoc(mz, Pow2(C), Pow2(68));
    MulAssoc(mz, Pow2(13), Pow2(C + 55));
  }

  /** The exact value of x * y + z, in units of 2^-48. */
  function FmaUnits(x: nat, y: nat, z: nat): int
    requires x < 0x1_0000 && y < 0x1_0000 && z < 0x1_0000
  {
    Units(x) * Units(y) + Units(z) * Pow2(24)
  }

  /** The last rounding, overflow and underflow included. */
  function Finish(m: nat, exp: int, sign: nat): nat {
    if exp > 30 then sign + INF else if exp < -10 then sign else Fixed2Half(23, m, exp - 1, sign, false)
  }

  /** A non-zero product plus a half. */
  method FmaFinite(x: nat, y: nat, z: nat, sub: bool, psign: nat, zsign: nat) returns (bits: nat)
    requires 0 < x < INF && 0 < y < INF && z < INF && psign % 2 == 0 && zsign % 2 == 0
    requires sub <==> psign != zsign
    ensures var p, a := Times(U(x), U(y)), Times(U(z), Pow2(24));
      var T, sign := if !sub then p + a else if p >= a then p - a else a - p, if sub && a > p then zsign else psign;
      (T == 0 ==> bits == 0) && (T != 0 ==> bits >= sign && IsNearest(bits - sign, T, Pow2(24)))
  {
    hide Pow2, U, IsNearest, Holds, Times, InCell, Fixed2Half;
    ghost var p, a := Times(U(x), U(y)), Times(U(z), Pow2(24));
    var m, exp := ProductMantissa(x, y);
    HoldsPositive(p, m, exp);
    if z == 0 {
      NoAddend();
      bits := Finish(m, exp, psign);
      FmaExact(p, m, exp, psign, bits);
      return;
    }
    var mz, expz := HalfMantissa(z);
    HoldsPositive(a, mz, expz);
    var sign := psign;
    ghost var big, small := p, a;
    if expz > exp || (expz == exp && mz > m) {
      m, mz, exp, expz := mz, m, expz, exp;
      big, small := a, p;
      if sub {
        sign := zsign;
      }
    }
    Ordered(big, small, m, mz, exp, expz);
    ghost var D, Z;
    if sub {
      var zero;
      zero, m, exp, D, Z := FmaSubtract(m, mz, exp, expz, big, small);
      if zero {
        return 0;
      }
      bits := Finish(m, exp, sign);
      FmaRound(big - small, m, Z, D, exp, sign, bits);
    } else {
      m, exp, D, Z := FmaAdd(m, mz, exp, expz, big, small);
      bits := Finish(m, exp, sign);
      FmaRound(big + small, m, Z, D, exp, sign, bits);
    }
  }

  lemma NoAddend()
    ensures Times(U(0), Pow2(24)) == 0
  {
  }

  lemma HoldsPositive(n: nat, m: nat, exp: int)
    requires Holds(n, m, exp)
    ensures n > 0
  {
    hide Pow2;
    MulLt(0, m, Pow2(exp + 64));
  }

  /** The larger exponent, then the larger mantissa, has the larger magnitude. */
  lemma Ordered(n: nat, nz: nat, m: nat, mz: nat, exp: int, expz: int)
    requires Holds(n, m, exp) && Holds(nz, mz, expz) && (expz < exp || (expz == exp && mz <= m))
    ensures nz <= n && (nz == n ==> expz == exp && mz == m)
  {
    hide Pow2, Times;
    Aligned(n, nz, m, mz, exp, expz);
    TimesOf(m, Pow2(exp - expz));
    HoldsRange(n, m, exp);
    HoldsRange(nz, mz, expz);
    Pow2Zero();
    if expz < exp {
      Pow2Next(23);
      Pow2Next(0);
      Pow2Grows(1, exp - expz);
      MulLeLeft(m, 2, Pow2(exp - expz));
    }
  }

  /** x * y + z with one rounding; exact cancellation gives plus zero. */
  method Fma(x: nat, y: nat, z: nat) returns (res: Result)
    requires x < 0x1_0000 && y < 0x1_0000 && z < 0x1_0000
    ensures Abs(x) > INF || Abs(y) > INF || Abs(z) > INF ==> res == NaN
    ensures Abs(x) <= INF && Abs(y) <= INF && Abs(z) <= INF && (Abs(x) == INF || Abs(y) == INF) ==>
      var negative := (x >= 0x8000) != (y >= 0x8000);
      res == if Abs(x) == 0 || Abs(y) == 0 || (Abs(z) == INF && (z >= 0x8000) != negative) then NaN
        else Half(if negative then 0x8000 + INF else INF)
    ensures Abs(x) < INF && Abs(y) < INF && Abs(z) == INF ==> res == Half(z)
    ensures Abs(x) < INF && Abs(y) < INF && Abs(z) < INF && FmaUnits(x, y, z) > 0 ==>
      RoundsTo(res, false, FmaUnits(x, y, z), Pow2(24))
    ensures Abs(x) < INF && Abs(y) < INF && Abs(z) < INF && FmaUnits(x, y, z) < 0 ==>
      RoundsTo(res, true, 0 - FmaUnits(x, y, z), Pow2(24))
    ensures Abs(x) < INF && Abs(y) < INF && Abs(z) < INF && FmaUnits(x, y, z) == 0 ==>
      res == Half(if Abs(z) == 0 && (z >= 0x8000) == ((x >= 0x8000) != (y >= 0x8000)) then z else 0)
  {
    hide Pow2, U, IsNearest;
    var absx, absy, absz := Abs(x), Abs(y), Abs(z);
    var sign := XorSign(Sign(x), Sign(y));
    var sub := sign != Sign(z);
    if absx >= INF || absy >= INF || absz >= INF {
      return if absx > INF || absy > INF || absz > INF then NaN
        else if absx == INF then (if absy == 0 || (sub && absz == INF) then NaN else Half(sign + INF))
        else if absy == INF then (if absx == 0 || (sub && absz == INF) then NaN else Half(sign + INF))
        else Half(z);
    }
    SignedFma(x, y, z);
    UGrows(0, absz);
    assert U(0) == 0 by { USubnormal(0); }
    if absx == 0 || absy == 0 {
      ExactNearest(absz, Pow2(24));
      ScaledPositive(U(absz), Pow2(24));
      SignedRounds(Sign(z), z, Times(U(absz), Pow2(24)), Pow2(24));
      return if absz != 0 then Half(z) else Half(if Sign(z) == sign then sign else 0);
    }
    var bits := FmaFinite(absx, absy, absz, sub, sign, Sign(z));
    ProductPositive(absx, absy);
    ghost var p, a := Times(U(absx), U(absy)), Times(U(absz), Pow2(24));
    ghost var T := if !sub then p + a else if p >= a then p - a else a - p;
    if T != 0 {
      SignedRounds(if sub && a > p then Sign(z) else sign, bits, T, Pow2(24));
    }
    res := Half(bits);
  }

  lemma ScaledPositive(u: nat, P: nat)
    requires P >= 1
    ensures Times(u, P) == 0 <==> u == 0
  {
    if u > 0 {
      MulLt(0, u, P);
    }
  }

  lemma ProductPositive(x: nat, y: nat)
    requires x > 0 && y > 0
    ensures Times(U(x), U(y)) > 0
  {
    hide Pow2, U;
    UGrows(0, x);
    UGrows(0, y);
    MulLt(0, U(x), U(y));
  }

  /** The signed sum in terms of magnitudes. */
  lemma SignedFma(x: nat, y: nat, z: nat)
    requires x < 0x1_0000 && y < 0x1_0000 && z < 0x1_0000
    ensures var p, a := Times(U(Abs(x)), U(Abs(y))), Times(U(Abs(z)), Pow2(24));
      FmaUnits(x, y, z) == (if Sign(x) == Sign(y) then p else 0 - p) + (if Sign(z) == 0 then a else 0 - a)
    ensures Abs(x) == 0 || Abs(y) == 0 ==> Times(U(Abs(x)), U(Abs(y))) == 0
  {
    hide Pow2, U;
    var ux, uy, uz, P := U(Abs(x)), U(Abs(y)), U(Abs(z)), Pow2(24);
    SignedProduct(x, y);
    var u := Units(x) * Units(y);
    assert Units(z) * P == if Sign(z) == 0 then Times(uz, P) else 0 - Times(uz, P) by {
      NegTimes(uz, P);
    }
    assert FmaUnits(x, y, z) == u + Units(z) * P;
    USubnormal(0);
    assert Abs(x) == 0 || Abs(y) == 0 ==> Times(ux, uy) == 0;
    hide Units, Times, FmaUnits;
  }

  lemma SignedProduct(x: nat, y: nat)
    requires x < 0x1_0000 && y < 0x1_0000
    ensures Units(x) * Units(y) == if Sign(x) == Sign(y) then Times(U(Abs(x)), U(Abs(y))) else 0 - Times(U(Abs(x)), U(Abs(y)))
  {
    hide Pow2, U;
    NegTimes(U(Abs(x)), U(Abs(y)));
  }

  lemma NegTimes(a: int, b: int)
    ensures (0 - a) * b == 0 - a * b && a * (0 - b) == 0 - a * b && (0 - a) * (0 - b) == a * b
  {
  }
}
