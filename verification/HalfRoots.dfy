/** Square root and remainder of halves. */
module HalfRoots {
  import opened Arith
  import opened HalfRounding
  import opened HalfArithmetic

  // ---- square root ----

  function Square(x: int): int {
    x * x
  }

  /**
    Code r is the rounding of the square root of n: for every other code a the root lies on r's side
    of the midpoint, or on it if r is even.
   */
  ghost predicate IsNearestRoot(r: nat, n: nat) {
    && r <= INF
    && (forall a: nat :: r < a <= INF ==> 4 * n <= Square(U(r) + U(a)) && (4 * n == Square(U(r) + U(a)) ==> r % 2 == 0))
    && forall a: nat :: a < r ==> 4 * n >= Square(U(a) + U(r)) && (4 * n == Square(U(a) + U(r)) ==> r % 2 == 0)
  }

  lemma SquareLe(x: int, y: int)
    requires 0 <= x <= y
    ensures Square(x) <= Square(y) && (x < y ==> Square(x) < Square(y))
  {
    MulLe(x, y, x);
    MulLeLeft(y, x, y);
    if x < y {
      MulLt(x, y, y);
    }
  }

  /** Between two neighbouring codes, never on their midpoint. */
  lemma NearestRootOf(a0: nat, n: nat, up: bool)
    requires a0 < INF && Square(U(a0)) <= n < Square(U(a0 + 1))
    requires up ==> 4 * n > Square(U(a0) + U(a0 + 1))
    requires !up ==> 4 * n < Square(U(a0) + U(a0 + 1))
    ensures IsNearestRoot(if up then a0 + 1 else a0, n)
  {
    hide U, Square;
    var r := if up then a0 + 1 else a0;
    FourTimes(U(a0));
    FourTimes(U(a0 + 1));
    forall a: nat | r < a <= INF
      ensures 4 * n < Square(U(r) + U(a))
    {
      UGrows(a0 + 1, a);
      SquareLe(U(r) + U(a0 + 1), U(r) + U(a));
    }
    forall a: nat | a < r
      ensures 4 * n >= Square(U(a) + U(r)) && (4 * n == Square(U(a) + U(r)) ==> r % 2 == 0)
    {
      UGrows(a, a0);
      UGrows(a, r);
      SquareLe(U(a) + U(r), U(a0) + U(r));
      if a < a0 {
        SquareLe(U(a) + U(r), U(a0) + U(r));
      }
    }
  }

  lemma FourTimes(x: int)
    ensures Square(x + x) == 4 * Square(x)
  {
  }

  /** Digit by digit: the integer square root of r, leaving the remainder in r. */
  method IntegerRoot(R: nat) returns (m: nat, r: nat)
    requires R < 0x40_0000
    ensures Square(m) <= R < Square(m + 1) && r == R - Square(m)
  {
    hide Square;
    m, r := 0, R;
    var bit := 0x10_0000;
    ghost var root, C := 0, 0x800;
    assert Square(0) == 0 && Square(0x800) == 0x40_0000 by { Known(); }
    while bit != 0
      invariant C >= 1 && (C == 1 || C % 2 == 0) && (C > 1 ==> 4 * bit == Square(C)) && (C == 1 <==> bit == 0)
      invariant IsPower(C)
      invariant m == root * C && r == R - Square(root) && Square(root) <= R < Square(root + C)
      decreases bit
    {
      ghost var B := C / 2;
      HalfStep(root, B, bit);
      if r < m + bit {
        m := m / 2;
      } else {
        r := r - (m + bit);
        m := m / 2 + bit;
        root := root + B;
      }
      bit := bit / 4;
      C := B;
    }
    assert root * 1 == root;
  }

  predicate IsPower(c: int) {
    c == 1 || (c > 1 && c % 2 == 0 && IsPower(c / 2))
  }

  lemma Known()
    ensures Square(0) == 0 && Square(0x800) == 0x40_0000
  {
  }

  /** One digit: B is its weight. */
  lemma HalfStep(root: int, B: int, bit: int)
    requires root >= 0 && B >= 1 && 4 * bit == Square(2 * B)
    ensures bit == Square(B) && Square(root + B) == Square(root) + (root * (2 * B) + bit)
    ensures root * (2 * B) / 2 == root * B && root * B + bit == (root + B) * B
    ensures B % 2 == 0 ==> 4 * (bit / 4) == Square(B) && bit / 4 > 0
    ensures B == 1 ==> bit / 4 == 0
  {
    var h := B / 2;
    assert Square(2 * B) == 4 * (B * B);
    assert root * (2 * B) == 2 * (root * B);
    if B % 2 == 0 {
      assert B == 2 * h && B * B == 4 * (h * h);
      MulLt(0, h, h);
    }
  }

  /** The square root of a half, rounded once. */
  method Sqrt(x: nat) returns (res: Result)
    requires x < 0x1_0000
    ensures Abs(x) > INF || x > 0x8000 ==> res == NaN
    ensures x == INF || Abs(x) == 0 ==> res == Half(x)
    ensures 0 < x < INF ==> res.Half? && IsNearestRoot(res.bits, U(x) * Pow2(24))
  {
    hide Pow2, U, IsNearestRoot, Mantissa, Exponent, Rounded;
    var abs := Abs(x);
    if abs == 0 || x >= INF {
      return if abs > INF then NaN else if x > 0x8000 then NaN else Half(x);
    }
    var absx, exp := Normalize(abs, 15);
    Decompose(abs, absx, 15 - exp);
    var r := Mantissa(absx) * 0x400;
    exp := exp + Exponent(absx);
    ghost var e0 := exp;
    var i := exp % 2;
    if i == 1 {
      r := r * 2;
    }
    exp := (exp - i) / 2;
    ghost var R := r;
    var m;
    m, r := IntegerRoot(r);
    RootRange(m, R);
    RootRounds(U(x), Mantissa(absx), e0, i, exp, R, m, r);
    res := Half(Rounded(exp * 0x400 + (m - 0x400), if r > m then 1 else 0, r != 0));
  }

  lemma RootRange(m: nat, R: nat)
    requires 0x10_0000 <= R < 0x40_0000 && Square(m) <= R < Square(m + 1)
    ensures 0x400 <= m < 0x800
  {
    if m < 0x400 {
      SquareLe(m + 1, 0x400);
    }
    if m >= 0x800 {
      SquareLe(0x800, m);
    }
  }

  lemma RootRounds(u: nat, mx: nat, e0: int, i: int, exp: int, R: nat, m: nat, rem: nat)
    requires e0 >= 6 && e0 <= 45 && u * Pow2(10) == mx * Pow2(e0 - 6) && 0 <= i <= 1 && e0 == 2 * exp + i
    requires R == (if i == 1 then mx * 0x400 * 2 else mx * 0x400)
    requires Square(m) <= R < Square(m + 1) && rem == R - Square(m) && 0x400 <= m < 0x800
    ensures IsNearestRoot(Rounded(exp * 0x400 + (m - 0x400), if rem > m then 1 else 0, rem != 0), u * Pow2(24))
  {
    hide Pow2, U, IsNearestRoot, Rounded, Square;
    var P, a0 := Pow2(exp - 1), (exp - 1) * 0x400 + m;
    UOf(exp - 1, m);
    RootScale(u, mx, e0, i, exp, R);
    ScaledSquares(m, R, P);
    NearestRootOf(a0, u * Pow2(24), rem > m);
    RoundedFlag(a0, rem, m);
  }

  lemma RoundedFlag(a: nat, rem: nat, m: nat)
    ensures Rounded(a, if rem > m then 1 else 0, rem != 0) == if rem > m then a + 1 else a
  {
  }

  /** In units of the last place, the root of u * 2^24 is the root of R. */
  lemma RootScale(u: nat, mx: nat, e0: int, i: int, exp: int, R: nat)
    requires e0 >= 6 && u * Pow2(10) == mx * Pow2(e0 - 6) && 0 <= i <= 1 && e0 == 2 * exp + i
    requires R == (if i == 1 then mx * 0x400 * 2 else mx * 0x400)
    ensures exp >= 1 && u * Pow2(24) == R * (Pow2(exp - 1) * Pow2(exp - 1))
  {
    hide Pow2;
    Ten();
    Pow2Zero();
    Pow2Next(0);
    Pow2Add(10, 14);
    Pow2Add(e0 - 6, 14);
    Pow2Add(exp - 1, exp - 1);
    Pow2Add(10, i);
    Pow2Add(10 + i, 2 * exp - 2);
    assert R == mx * Pow2(10 + i) by { ShiftByOne(mx, i); }
    MulAssoc(u, Pow2(10), Pow2(14));
    MulAssoc(mx, Pow2(e0 - 6), Pow2(14));
    MulAssoc(mx, Pow2(10 + i), Pow2(2 * exp - 2));
  }

  lemma ShiftByOne(mx: nat, i: int)
    requires 0 <= i <= 1
    ensures mx * Pow2(10 + i) == if i == 1 then mx * 0x400 * 2 else mx * 0x400
  {
    Ten();
  }

  lemma ScaledSquares(m: nat, R: nat, P: nat)
    requires P >= 1 && Square(m) <= R < Square(m + 1)
    ensures var n := R * (P * P);
      Square(m * P) <= n < Square((m + 1) * P)
      && (R - Square(m) > m ==> 4 * n > Square(m * P + (m + 1) * P))
      && (R - Square(m) <= m ==> 4 * n < Square(m * P + (m + 1) * P))
  {
    hide Square;
    var Q := P * P;
    MulLt(0, P, P);
    ProductSquare(m, P);
    ProductSquare(m + 1, P);
    MulLe(Square(m), R, Q);
    MulLt(R, Square(m + 1), Q);
    MidpointSquare(m, R, P);
  }

  /** The midpoint's square is odd, so R never meets it. */
  lemma MidpointSquare(m: nat, R: nat, P: nat)
    requires P >= 1 && Square(m) <= R
    ensures R - Square(m) > m ==> 4 * (R * (P * P)) > Square(m * P + (m + 1) * P)
    ensures R - Square(m) <= m ==> 4 * (R * (P * P)) < Square(m * P + (m + 1) * P)
  {
    MidpointScaled(m, P);
    OddSquare(m);
    hide Square;
    MulLt(0, P, P);
    ScaledOrder(R, Square(m), m, Square(2 * m + 1), P * P);
  }

  lemma MidpointScaled(m: nat, P: nat)
    ensures Square(m * P + (m + 1) * P) == Square(2 * m + 1) * (P * P)
  {
    hide Square;
    Distribute(m, m + 1, P);
    ProductSquare(2 * m + 1, P);
  }

  lemma OddSquare(m: nat)
    ensures Square(2 * m + 1) == 4 * Square(m) + 4 * m + 1
  {
  }

  lemma ScaledOrder(R: nat, s: int, m: nat, odd: int, Q: nat)
    requires Q >= 1 && s <= R && odd == 4 * s + 4 * m + 1
    ensures R - s > m ==> 4 * (R * Q) > odd * Q
    ensures R - s <= m ==> 4 * (R * Q) < odd * Q
  {
    MulAssoc(4, R, Q);
    if R - s > m {
      MulLt(odd, 4 * R, Q);
    } else {
      MulLt(4 * R, odd, Q);
    }
  }

  lemma ProductSquare(x: int, P: int)
    ensures Square(x * P) == Square(x) * (P * P)
  {
    MulAssoc(x, P, x * P);
    assert x * P * (x * P) == x * x * (P * P);
  }

  // ---- remainder ----

  /**
    Long division in binary: the dividend's significand stays congruent to what is left of it.  Equal
    operands are left to the callers.
   */
  method Modulus(x: nat, y: nat) returns (r: nat)
    requires 0 < x < INF && 0 < y < INF
    ensures x == y ==> r == x
    ensures x != y ==> r < INF && U(y) > 0 && U(r) == U(x) % U(y)
  {
    hide Pow2, U, Mantissa, Exponent, Shr;
    UGrows(0, y);
    assert U(0) == 0 by { USubnormal(0); }
    if x <= y {
      UGrows(x, y);
      if x < y {
        DivModUnique(U(x), 0, U(x), U(y));
      }
      return x;
    }
    UGrows(y, x);
    var absx, ex := Normalize(x, 0);
    var absy, ey := Normalize(y, 0);
    Decompose(x, absx, 0 - ex);
    Decompose(y, absy, 0 - ey);
    var expx, expy := ex + Exponent(absx), ey + Exponent(absy);
    var mx, my := Mantissa(absx), Mantissa(absy);
    LargerExponent(U(x), U(y), mx, my, expx + 9, expy + 9);
    ghost var q, D := 0, expx - expy;
    ghost var sx := mx;
    var d := expx - expy;
    while d > 0
      invariant 0 <= d <= D && 0 < mx < 2 * my && q >= 0
      invariant sx * Pow2(D) == q * my + mx * Pow2(d)
    {
      Pow2Next(d - 1);
      if mx == my {
        ExactlyDivided(U(x), U(y), sx, my, D, q, d, expy + 9);
        return 0;
      }
      DivisionStep(sx * Pow2(D), q, my, mx, Pow2(d - 1));
      if mx >= my {
        q := q + Pow2(d);
        mx := mx - my;
      }
      mx, d := mx * 2, d - 1;
    }
    Pow2Zero();
    if mx == my {
      ExactlyDivided(U(x), U(y), sx, my, D, q, 0, expy + 9);
      return 0;
    }
    LastStep(sx * Pow2(D), q, my, mx);
    if mx >= my {
      q := q + 1;
      mx := mx - my;
    }
    ghost var rest := Remainder(U(x), U(y), sx, my, D, q, mx, expy + 9);
    ghost var m0, e0 := mx, expy;
    while mx < 0x400
      invariant 0 < mx < 0x800 && expy <= e0 && mx == m0 * Pow2(e0 - expy)
      decreases 0x800 - mx
    {
      Pow2Next(e0 - expy);
      MulAssoc(m0, Pow2(e0 - expy), 2);
      mx, expy := mx * 2, expy - 1;
    }
    RemainderCode(rest, m0, e0, mx, expy);
    r := if expy > 0 then expy * 0x400 + (mx - 0x400) else Shr(mx, 1 - expy);
  }

  /** The remainder of a division truncated towards zero, exact, with the sign of the dividend. */
  method Fmod(x: nat, y: nat) returns (res: Result)
    requires x < 0x1_0000 && y < 0x1_0000
    ensures Abs(x) > INF || Abs(y) > INF ==> res == NaN
    ensures Abs(x) == INF && Abs(y) <= INF ==> res == NaN
    ensures Abs(x) < INF && Abs(y) == INF ==> res == Half(x)
    ensures Abs(x) < INF && Abs(y) == 0 ==> res == NaN
    ensures Abs(x) < INF && 0 < Abs(y) < INF ==> (
      res.Half? && Sign(x) <= res.bits < Sign(x) + INF && U(Abs(y)) > 0 && U(res.bits - Sign(x)) == U(Abs(x)) % U(Abs(y)))
  {
    hide U;
    var absx, absy, sign := Abs(x), Abs(y), Sign(x);
    USubnormal(0);
    UGrows(0, absy);
    if absx >= INF || absy >= INF {
      return if absx > INF || absy > INF || absx == INF then NaN else Half(x);
    }
    if absy == 0 {
      return NaN;
    }
    if absx == 0 {
      DivModUnique(0, 0, 0, U(absy));
      return Half(x);
    }
    if absx == absy {
      DivModUnique(U(absx), 1, 0, U(absx));
      return Half(sign);
    }
    var r := Modulus(absx, absy);
    res := Half(sign + r);
  }

  /** The larger of two magnitudes has the larger exponent. */
  lemma LargerExponent(u: nat, v: nat, mx: nat, my: nat, A: nat, B: nat)
    requires u * Pow2(10) == mx * Pow2(A) && v * Pow2(10) == my * Pow2(B) && v < u
    requires 0x400 <= mx < 0x800 && 0x400 <= my < 0x800
    ensures A >= B && (A == B ==> my < mx)
  {
    hide Pow2;
    MulLt(v, u, Pow2(10));
    if A < B {
      assert my * (2 * Pow2(A)) == 2 * my * Pow2(A);
      Pow2Grows(A, B);
      MulLeLeft(my, 2 * Pow2(A), Pow2(B));
      MulLt(mx, 2 * my, Pow2(A));
    } else if A == B && mx <= my {
      MulLe(mx, my, Pow2(A));
    }
  }

  lemma DivisionStep(X: nat, q: nat, my: nat, mx: nat, P: nat)
    requires X == q * my + mx * (2 * P)
    ensures X == q * my + 2 * mx * P && X == (q + 2 * P) * my + 2 * (mx - my) * P
  {
    assert mx * (2 * P) == 2 * mx * P;
    Distribute(q, 2 * P, my);
    Distribute(2 * mx, 2 * my, P);
    assert 2 * P * my == 2 * my * P;
  }

  lemma LastStep(X: nat, q: nat, my: nat, mx: nat)
    requires X == q * my + mx * 1
    ensures X == q * my + mx && X == (q + 1) * my + (mx - my)
  {
    Distribute(q, 1, my);
  }

  lemma ExactlyDivided(u: nat, v: nat, sx: nat, my: nat, D: nat, q: nat, d: nat, B: nat)
    requires u * Pow2(10) == sx * Pow2(D + B) && v * Pow2(10) == my * Pow2(B) && v > 0
    requires sx * Pow2(D) == q * my + my * Pow2(d)
    ensures u % v == 0 && U(0) == 0
  {
    hide Pow2, U;
    USubnormal(0);
    assert q * my + my * Pow2(d) == (q + Pow2(d)) * my by { Distribute(q, Pow2(d), my); }
    MultipleOf(u, v, sx * Pow2(D), my, q + Pow2(d), 0, D, B, sx);
  }

  /** Quotient and remainder of the significands are those of the magnitudes, at the divisor's scale. */
  lemma MultipleOf(u: nat, v: nat, X: nat, my: nat, q: nat, rest: nat, D: nat, B: nat, sx: nat)
    requires u * Pow2(10) == sx * Pow2(D + B) && v * Pow2(10) == my * Pow2(B) && v > 0
    requires X == sx * Pow2(D) && X == q * my + rest && rest < my
    ensures u % v * Pow2(10) == rest * Pow2(B)
  {
    hide Pow2;
    Pow2Add(D, B);
    MulAssoc(sx, Pow2(D), Pow2(B));
    Distribute(q * my, rest, Pow2(B));
    MulAssoc(q, my, Pow2(B));
    MulAssoc(q, v, Pow2(10));
    var K, P := Pow2(10), Pow2(B);
    assert u * K == q * v * K + rest * P;
    MulLt(rest, my, P);
    QuotRem(u, v);
    var s := u % v;
    var p := Quotient(u, v);
    SameRemainder(u, v, K, p, s, q, rest * P);
  }

  lemma SameRemainder(u: nat, v: nat, K: nat, p: nat, s: nat, q: nat, t: nat)
    requires v > 0 && K >= 1 && u == p * v + s && s < v && u * K == q * v * K + t && t < v * K
    ensures s * K == t
  {
    Distribute(p * v, s, K);
    MulAssoc(p, v, K);
    MulAssoc(q, v, K);
    MulLt(s, v, K);
    MulNonNeg(s, K);
    DivModUnique(u * K, p, s * K, v * K);
    DivModUnique(u * K, q, t, v * K);
  }

  lemma Remainder(u: nat, v: nat, sx: nat, my: nat, D: nat, q: nat, rest: nat, B: nat) returns (r: nat)
    requires u * Pow2(10) == sx * Pow2(D + B) && v * Pow2(10) == my * Pow2(B) && v > 0
    requires sx * Pow2(D) == q * my + rest && rest < my
    ensures r == u % v && r * Pow2(10) == rest * Pow2(B)
  {
    hide Pow2;
    MultipleOf(u, v, sx * Pow2(D), my, q, rest, D, B, sx);
    r := u % v;
  }

  /** The remainder, normalised, as a code: exact even when it is subnormal. */
  lemma RemainderCode(rest: nat, m0: nat, e0: int, mx: nat, e: int)
    requires e0 >= -9 && e <= e0 <= 30 && rest * Pow2(10) == m0 * Pow2(e0 + 9) && mx == m0 * Pow2(e0 - e) && 0x400 <= mx < 0x800
    ensures e > 0 ==> U(e * 0x400 + (mx - 0x400)) == rest && e * 0x400 + (mx - 0x400) < INF
    ensures e <= 0 ==> U(Shr(mx, 1 - e)) == rest && Shr(mx, 1 - e) < 0x400
  {
    hide Pow2, U;
    if e > 0 {
      Pow2Add(e0 - e, e + 9);
      MulAssoc(m0, Pow2(e0 - e), Pow2(e + 9));
      Pow2Add(e - 1, 10);
      MulAssoc(mx, Pow2(e - 1), Pow2(10));
      MulCancel(rest, mx * Pow2(e - 1), Pow2(10));
      UOf(e - 1, mx);
      assert (e - 1) * 0x400 + mx == e * 0x400 + (mx - 0x400);
    } else {
      SubnormalRemainder(rest, m0, e0, mx, e);
    }
  }

  lemma SubnormalRemainder(rest: nat, m0: nat, e0: int, mx: nat, e: int)
    requires e0 >= -9 && e <= 0 && e <= e0 && rest * Pow2(10) == m0 * Pow2(e0 + 9) && mx == m0 * Pow2(e0 - e) && 0x400 <= mx < 0x800
    ensures U(Shr(mx, 1 - e)) == rest && Shr(mx, 1 - e) < 0x400
  {
    hide Pow2, U;
    var k := 1 - e;
    Pow2Add(10, k);
    Pow2Add(e0 - e, 10);
    Pow2Add(e0 + 9, k);
    MulAssoc(rest, Pow2(10), Pow2(k));
    MulAssoc(m0, Pow2(e0 + 9), Pow2(k));
    MulAssoc(m0, Pow2(e0 - e), Pow2(10));
    Swap3(rest, Pow2(k), Pow2(10));
    assert rest * Pow2(k) * Pow2(10) == mx * Pow2(10) by { MulAssoc(rest, Pow2(k), Pow2(10)); }
    MulCancel(rest * Pow2(k), mx, Pow2(10));
    DivModUnique(mx, rest, 0, Pow2(k));
    Pow2Zero();
    Pow2Next(0);
    Pow2Grows(1, k);
    MulLeLeft(rest, 2, Pow2(k));
    USubnormal(rest);
  }
}
