/**
  Half precision: what the finite codes stand for, rounding to the nearest one with ties to even
  (section 4.3.1 of IEEE 754-2008), and the two routines that round.  Magnitudes are integers in
  units of 2^-24, the smallest half.
 */
module HalfRounding {
  import opened Arith

  /** Everything from here on is infinite or not a number. */
  const INF := 0x7C00

  /**
    The magnitude of a finite code in units of 2^-24: subnormal codes count units, the others carry
    a hidden bit.  The code of infinity stands for 2^40, the magnitude that would come next.
   */
  function U(a: nat): nat {
    if a < 0x400 then a else (0x400 + a % 0x400) * Pow2(a / 0x400 - 1)
  }

  function Distance(a: nat, n: nat, d: nat): nat {
    if n >= U(a) * d then n - U(a) * d else U(a) * d - n
  }

  /**
    Code r is the rounding of n / d units: nothing is nearer, and of two equally near codes r is the
    even one.  Magnitudes from half a unit below 2^40 on round to infinity.
   */
  ghost predicate IsNearest(r: nat, n: nat, d: nat) {
    && r <= INF
    && forall a: nat :: a <= INF ==> Distance(r, n, d) <= Distance(a, n, d) && (a != r && Distance(a, n, d) == Distance(r, n, d) ==> r % 2 == 0)
  }

  // ---- magnitudes ----

  /** Neighbouring codes are one unit in the last place apart. */
  lemma UStep(a: nat)
    ensures U(a + 1) == U(a) + Pow2(if a < 0x400 then 0 else a / 0x400 - 1)
  {
    var e, m := a / 0x400, a % 0x400;
    if a < 0x400 {
      assert Pow2(0) == 1;
      if a == 0x3FF {
        assert U(0x400) == 0x400 * Pow2(0);
      }
    } else if m < 0x3FF {
      assert (a + 1) / 0x400 == e && (a + 1) % 0x400 == m + 1;
      assert (0x400 + (m + 1)) * Pow2(e - 1) == (0x400 + m) * Pow2(e - 1) + Pow2(e - 1);
    } else {
      assert (a + 1) / 0x400 == e + 1 && (a + 1) % 0x400 == 0;
      assert 0x400 * Pow2(e) == 0x800 * Pow2(e - 1);
    }
  }

  lemma {:induction false} UGrows(a: nat, b: nat)
    requires a <= b
    ensures U(a) <= U(b) && (a < b ==> U(a) < U(b))
    decreases b
  {
    if a < b {
      hide U;
      UGrows(a, b - 1);
      UStep(b - 1);
    }
  }

  /** The magnitude of a code given by its exponent and mantissa: q times 2^e, hidden bit included. */
  lemma UOf(e: nat, q: nat)
    requires q < 0x800 && (e == 0 || q >= 0x400)
    ensures U(e * 0x400 + q) == q * Pow2(e) && U(e * 0x400 + q + 1) == (q + 1) * Pow2(e)
  {
    hide Pow2, U;
    var a := e * 0x400 + q;
    UStep(a);
    OneMoreOf(q, Pow2(e));
    if q >= 0x400 {
      DivModUnique(a, e + 1, q - 0x400, 0x400);
      UNormal(a);
    } else {
      USubnormal(a);
    }
  }

  lemma OneMoreOf(q: nat, P: nat)
    ensures (q + 1) * P == q * P + P
  {
  }

  lemma UNormal(a: nat)
    requires a >= 0x400
    ensures U(a) == (0x400 + a % 0x400) * Pow2(a / 0x400 - 1)
  {
  }

  lemma USubnormal(a: nat)
    requires a < 0x400
    ensures U(a) == a && Pow2(0) == 1
  {
  }

  // ---- the nearest code ----

  /** No other code is as near as both neighbours. */
  lemma NeighboursNearer(a0: nat, n: nat, d: nat, a: nat)
    requires d >= 1 && U(a0) * d <= n <= U(a0 + 1) * d
    ensures a < a0 ==> Distance(a, n, d) > n - U(a0) * d
    ensures a > a0 + 1 ==> Distance(a, n, d) > U(a0 + 1) * d - n
  {
    hide U;
    if a < a0 {
      UGrows(a, a0);
      MulLt(U(a), U(a0), d);
    } else if a > a0 + 1 {
      UGrows(a0 + 1, a);
      MulLt(U(a0 + 1), U(a), d);
    }
  }

  /** Between two neighbouring codes the one on the nearer side, at the midpoint the even one. */
  lemma NearestOf(a0: nat, n: nat, d: nat, up: bool)
    requires a0 < INF && d >= 1 && U(a0) * d <= n <= U(a0 + 1) * d
    requires up ==> 2 * n >= U(a0) * d + U(a0 + 1) * d && (2 * n == U(a0) * d + U(a0 + 1) * d ==> a0 % 2 == 1)
    requires !up ==> 2 * n <= U(a0) * d + U(a0 + 1) * d && (2 * n == U(a0) * d + U(a0 + 1) * d ==> a0 % 2 == 0)
    ensures IsNearest(if up then a0 + 1 else a0, n, d)
  {
    hide U;
    var r := if up then a0 + 1 else a0;
    UGrows(a0, a0 + 1);
    MulLt(U(a0), U(a0 + 1), d);
    forall a: nat | a <= INF
      ensures Distance(r, n, d) <= Distance(a, n, d) && (a != r && Distance(a, n, d) == Distance(r, n, d) ==> r % 2 == 0)
    {
      NeighboursNearer(a0, n, d, a);
    }
  }

  /** Rounding to nearest: up when the guard bit is set and the sticky bit or the last bit is. */
  function Rounded(value: nat, g: nat, s: bool): (r: nat)
    ensures r == value || r == value + 1
  {
    if g % 2 == 1 && (s || value % 2 == 1) then value + 1 else value
  }

  /**
    m counts units of P / (2 H), the exact magnitude lying in [m, m + 1) of them; code a0 stands for
    q = m / (2 H) units of P.  Then guard and sticky bits read off m round correctly.
   */
  lemma RoundAt(a0: nat, q: nat, P: nat, H: nat, m: nat, n: nat, d: nat)
    requires a0 < INF && P >= 1 && H >= 1 && d >= 1
    requires U(a0) == q * P && U(a0 + 1) == (q + 1) * P && q == m / (2 * H)
    requires m * d <= n < (m + 1) * d
    ensures IsNearest(Rounded(a0, m / H, n != m * d || m % H != 0), n * P, d * (2 * H))
  {
    hide U, IsNearest;
    var g, rest := m / H % 2, m % H;
    HalvesOf(m, H);
    var up := g == 1 && (n != m * d || rest != 0 || a0 % 2 == 1);
    CellBounds(q, H, m, n, d, g, rest);
    Scale(q, P, H, n, d);
    NearestOf(a0, n * P, d * (2 * H), up);
  }

  lemma HalvesOf(m: nat, H: nat)
    requires H >= 1
    ensures m == m / (2 * H) * (2 * H) + m / H % 2 * H + m % H && m % H < H
  {
    var h := m / H;
    assert m == h * H + m % H;
    assert h == h / 2 * 2 + h % 2;
    assert h * H == h / 2 * (2 * H) + h % 2 * H;
    MulLe(h % 2, 1, H);
    DivModUnique(m, h / 2, h % 2 * H + m % H, 2 * H);
  }

  /** Where n lies, relative to q, q + 1/2 and q + 1 times 2 H d. */
  lemma CellBounds(q: nat, H: nat, m: nat, n: nat, d: nat, g: nat, rest: nat)
    requires H >= 1 && d >= 1 && g <= 1 && rest < H && m == q * (2 * H) + g * H + rest && m * d <= n < (m + 1) * d
    ensures q * (d * (2 * H)) <= n < (q + 1) * (d * (2 * H))
    ensures g == 0 ==> 2 * n < q * (d * (2 * H)) + (q + 1) * (d * (2 * H))
    ensures g == 1 ==> 2 * n >= q * (d * (2 * H)) + (q + 1) * (d * (2 * H))
    ensures g == 1 && (n != m * d || rest != 0) ==> 2 * n > q * (d * (2 * H)) + (q + 1) * (d * (2 * H))
  {
    var lo := q * (2 * H);
    CellEnds(q, H, d);
    BetweenEnds(lo, H, m, n, d, g, rest);
  }

  lemma CellEnds(q: nat, H: nat, d: nat)
    ensures q * (2 * H) * d == q * (d * (2 * H))
    ensures (q * (2 * H) + 2 * H) * d == (q + 1) * (d * (2 * H))
  {
    MulAssoc(q, 2 * H, d);
    assert (q + 1) * (2 * H) == q * (2 * H) + 2 * H;
    MulAssoc(q + 1, 2 * H, d);
  }

  lemma BetweenEnds(lo: nat, H: nat, m: nat, n: nat, d: nat, g: nat, rest: nat)
    requires d >= 1 && g <= 1 && rest < H && m == lo + g * H + rest && m * d <= n < (m + 1) * d
    ensures lo * d <= n < (lo + 2 * H) * d
    ensures g == 0 ==> 2 * n < lo * d + (lo + 2 * H) * d
    ensures g == 1 ==> 2 * n >= lo * d + (lo + 2 * H) * d
    ensures g == 1 && (n != m * d || rest != 0) ==> 2 * n > lo * d + (lo + 2 * H) * d
  {
    MiddleOf(lo, H, d);
    MulLe(lo, m, d);
    MulLe(m + 1, lo + 2 * H, d);
    if g == 0 {
      MulLe(m + 1, lo + H, d);
    } else {
      MulLe(lo + H, m, d);
      if rest != 0 {
        MulLt(lo + H, m, d);
      }
    }
  }

  lemma MiddleOf(lo: nat, H: nat, d: nat)
    ensures (lo + H) * d + (lo + H) * d == lo * d + (lo + 2 * H) * d
  {
  }

  /** The same in units of 2^-24. */
  lemma Swapped(q: nat, P: nat, D: nat)
    ensures q * P * D == q * D * P
  {
    MulAssoc(q, P, D);
    MulAssoc(q, D, P);
  }

  lemma ScaledBetween(a: nat, b: nat, n: nat, P: nat)
    requires P >= 1
    ensures a <= n < b ==> a * P <= n * P < b * P
    ensures 2 * n < a + b ==> 2 * (n * P) < a * P + b * P
    ensures 2 * n == a + b ==> 2 * (n * P) == a * P + b * P
    ensures 2 * n > a + b ==> 2 * (n * P) > a * P + b * P
  {
    if a <= n < b {
      MulLe(a, n, P);
      MulLt(n, b, P);
    }
    Distribute(a, b, P);
    MulAssoc(2, n, P);
    if 2 * n < a + b {
      MulLt(2 * n, a + b, P);
    } else if 2 * n > a + b {
      MulLt(a + b, 2 * n, P);
    }
  }

  lemma Scale(q: nat, P: nat, H: nat, n: nat, d: nat)
    requires P >= 1
    ensures var D := d * (2 * H);
      var lo, hi, x := q * P * D, (q + 1) * P * D, n * P;
      (q * D <= n < (q + 1) * D ==> lo <= x < hi)
      && (2 * n < q * D + (q + 1) * D ==> 2 * x < lo + hi)
      && (2 * n == q * D + (q + 1) * D ==> 2 * x == lo + hi)
      && (2 * n > q * D + (q + 1) * D ==> 2 * x > lo + hi)
  {
    var D := d * (2 * H);
    Swapped(q, P, D);
    Swapped(q + 1, P, D);
    ScaledBetween(q * D, (q + 1) * D, n, P);
  }

  /** Below half a unit everything rounds to zero. */
  lemma TinyIsZero(n: nat, d: nat)
    requires d >= 1 && 2 * n < d
    ensures IsNearest(0, n, d)
  {
    NearestOf(0, n, d, false);
  }

  /** From 2^40 on everything rounds to infinity. */
  lemma HugeIsInfinite(n: nat, d: nat)
    requires d >= 1 && Pow2(40) * d <= n
    ensures IsNearest(INF, n, d)
  {
    hide Pow2;
    assert U(INF) == Pow2(40) by { TopMagnitude(); }
    forall a: nat | a <= INF
      ensures Distance(INF, n, d) <= Distance(a, n, d)
    {
      UGrows(a, INF);
      MulLe(U(a), U(INF), d);
    }
  }

  lemma TopMagnitude()
    ensures U(INF) == Pow2(40)
  {
    assert Pow2(10) == 0x400;
    Pow2Add(10, 30);
  }

  /** Scaling numerator and denominator alike changes nothing. */
  lemma NearestScaled(r: nat, n: nat, d: nat, c: nat)
    requires c >= 1
    ensures IsNearest(r, n * c, d * c) <==> IsNearest(r, n, d)
  {
    forall a: nat
      ensures Distance(a, n * c, d * c) == Distance(a, n, d) * c
    {
      MulAssoc(U(a), d, c);
      if n >= U(a) * d {
        MulLe(U(a) * d, n, c);
        assert (n - U(a) * d) * c == n * c - U(a) * d * c;
      } else {
        MulLt(n, U(a) * d, c);
        assert (U(a) * d - n) * c == U(a) * d * c - n * c;
      }
    }
    if IsNearest(r, n * c, d * c) {
      forall a: nat | a <= INF
        ensures Distance(r, n, d) <= Distance(a, n, d) && (a != r && Distance(a, n, d) == Distance(r, n, d) ==> r % 2 == 0)
      {
        if Distance(a, n, d) < Distance(r, n, d) {
          MulLt(Distance(a, n, d), Distance(r, n, d), c);
        }
        assert Distance(r, n * c, d * c) <= Distance(a, n * c, d * c);
      }
    }
    if IsNearest(r, n, d) {
      forall a: nat | a <= INF
        ensures Distance(r, n * c, d * c) <= Distance(a, n * c, d * c)
        ensures a != r && Distance(a, n * c, d * c) == Distance(r, n * c, d * c) ==> r % 2 == 0
      {
        assert Distance(r, n, d) <= Distance(a, n, d);
        MulLe(Distance(r, n, d), Distance(a, n, d), c);
        if Distance(r, n, d) < Distance(a, n, d) {
          MulLt(Distance(r, n, d), Distance(a, n, d), c);
        }
      }
    }
  }

  /** Equal fractions round alike. */
  lemma NearestEqual(r: nat, n: nat, d: nat, n': nat, d': nat)
    requires IsNearest(r, n, d) && d >= 1 && d' >= 1 && n * d' == n' * d
    ensures IsNearest(r, n', d')
  {
    hide IsNearest;
    NearestScaled(r, n, d, d');
    NearestScaled(r, n', d', d);
    assert d * d' == d' * d;
  }

  /** Rounding has one result. */
  lemma NearestUnique(r: nat, r': nat, n: nat, d: nat)
    requires IsNearest(r, n, d) && IsNearest(r', n, d) && d >= 1
    ensures r == r'
  {
    hide U;
    if r < r' {
      NotBoth(r, r', n, d);
    } else if r' < r {
      NotBoth(r', r, n, d);
    }
  }

  lemma NotBoth(r: nat, r': nat, n: nat, d: nat)
    requires r < r' && d >= 1 && IsNearest(r, n, d)
    ensures !IsNearest(r', n, d)
  {
    hide U;
    var between := Distance(r + 1, n, d);
    if IsNearest(r', n, d) {
      UGrows(r, r + 1);
      UGrows(r + 1, r');
      MulLt(U(r), U(r + 1), d);
      MulLe(U(r + 1), U(r'), d);
      if r + 1 < r' {
        MulLt(U(r + 1), U(r'), d);
      }
    }
  }

  // ---- fixed point to half ----

  function Quotient(m: nat, d: nat): nat
    requires d >= 1
  {
    m / d
  }

  /** m shifted right by k. */
  function Shr(m: nat, k: nat): nat {
    Quotient(m, Pow2(k))
  }

  /** The bits shifted out. */
  function Low(m: nat, k: nat): nat {
    m % Pow2(k)
  }

  /**
    Converts a mantissa in Q1.F with biased exponent exp + 1; s tells whether anything below it was
    already discarded.  (The variant for a mantissa that is already normalised.)
   */
  function Fixed2Half(F: nat, m: nat, exp: int, sign: nat, s: bool): nat
    requires F >= 11
  {
    if exp < 0 then Rounded(sign + Shr(m, F - 10 - exp), Shr(m, F - 11 - exp), s || Low(m, F - 11 - exp) != 0)
    else Rounded(sign + exp * 0x400 + Shr(m, F - 10), Shr(m, F - 11), s || Low(m, F - 11) != 0)
  }

  /** n shifted left by e. */
  function Lifted(n: nat, e: nat): nat {
    n * Pow2(e)
  }

  lemma NearestLifted(r: nat, n: nat, e: nat, d: nat, k: nat, x: nat)
    requires d >= 1 && IsNearest(r, Lifted(n, e), Lifted(d, k))
    ensures IsNearest(r, Lifted(n, e + x), Lifted(d, k + x))
  {
    hide Pow2, IsNearest;
    NearestScaled(r, Lifted(n, e), Lifted(d, k), Pow2(x));
    Pow2Add(e, x);
    Pow2Add(k, x);
    MulAssoc(n, Pow2(e), Pow2(x));
    MulAssoc(d, Pow2(k), Pow2(x));
  }

  lemma SignApart(sign: nat, a: nat, g: nat, s: bool)
    requires sign % 2 == 0
    ensures Rounded(sign + a, g, s) == sign + Rounded(a, g, s)
  {
  }

  /** A mantissa shifted right by k under the exponent e, rounded by guard and sticky bit. */
  function RoundedCode(m: nat, k: nat, e: nat, s: bool): nat
    requires k >= 1
  {
    Rounded(e * 0x400 + Shr(m, k), Shr(m, k - 1), s || Low(m, k - 1) != 0)
  }

  lemma FixedCode(F: nat, m: nat, exp: int, sign: nat, s: bool, k: nat, e: nat)
    requires F >= 11 && sign % 2 == 0 && k == (if exp < 0 then F - 10 - exp else F - 10) && e == if exp < 0 then 0 else exp
    ensures Fixed2Half(F, m, exp, sign, s) == sign + RoundedCode(m, k, e, s)
  {
    hide Shr, Low, Rounded;
    SignApart(sign, e * 0x400 + Shr(m, k), Shr(m, k - 1), s || Low(m, k - 1) != 0);
  }

  lemma FixedRounds(F: nat, m: nat, s: bool, n: nat, d: nat, k: nat, e: nat)
    requires F >= 11 && Pow2(F) <= m < Pow2(F + 1) && F - 10 <= k <= F + 1 && d >= 1 && e <= 29 && (e > 0 ==> k == F - 10)
    requires m * d <= n < (m + 1) * d && (s <==> n != m * d)
    ensures IsNearest(RoundedCode(m, k, e, s), Lifted(n, e), Lifted(d, k))
  {
    hide Pow2, U, IsNearest, Rounded;
    Pow2Next(k - 1);
    var q := MantissaRange(F, m, k);
    UOf(e, q);
    Pow2Zero();
    RoundAt(e * 0x400 + q, q, Pow2(e), Pow2(k - 1), m, n, d);
  }

  /**
    The exact magnitude is n / d mantissa units of 2^(exp + 10 - F), the mantissa being its integer
    part: the result is its rounding, subnormal and overflowing cases included.
   */
  lemma Fixed2HalfNearest(F: nat, m: nat, exp: int, sign: nat, s: bool, n: nat, d: nat) returns (r: nat)
    requires F >= 11 && Pow2(F) <= m < Pow2(F + 1) && -11 <= exp <= 29 && sign % 2 == 0 && d >= 1
    requires m * d <= n < (m + 1) * d && (s <==> n != m * d)
    ensures Fixed2Half(F, m, exp, sign, s) == sign + r
    ensures IsNearest(r, Lifted(n, exp + 11), Lifted(d, F + 1))
  {
    hide Pow2, IsNearest, Fixed2Half, RoundedCode, Lifted;
    var k := if exp < 0 then F - 10 - exp else F - 10;
    var e := if exp < 0 then 0 else exp;
    FixedCode(F, m, exp, sign, s, k, e);
    FixedRounds(F, m, s, n, d, k, e);
    r := RoundedCode(m, k, e, s);
    NearestLifted(r, n, e, d, k, exp + 11 - e);
  }

  lemma Pow2Next(e: nat)
    ensures Pow2(e + 1) == 2 * Pow2(e)
  {
  }

  lemma Pow2Zero()
    ensures Pow2(0) == 1
  {
  }

  /** The mantissa's leading bits. */
  lemma MantissaRange(F: nat, m: nat, k: nat) returns (q: nat)
    requires F >= 11 && Pow2(F) <= m < Pow2(F + 1) && F - 10 <= k <= F + 1
    ensures q == m / Pow2(k) && q < 0x800 && (k == F - 10 ==> q >= 0x400) && (k > F - 10 ==> q < 0x400)
  {
    hide Pow2;
    q := m / Pow2(k);
    assert Pow2(10) == 0x400 && Pow2(11) == 0x800 by { Ten(); }
    Pow2Add(F + 1 - k, k);
    Pow2Grows(F + 1 - k, 11);
    DivBelow(m, Pow2(F + 1 - k), Pow2(k));
    if k == F - 10 {
      Pow2Add(10, k);
      if q < 0x400 {
        MulLe(q + 1, 0x400, Pow2(k));
      }
    } else {
      Pow2Grows(F + 1 - k, 10);
    }
  }

  lemma Ten()
    ensures Pow2(10) == 0x400 && Pow2(11) == 0x800
  {
  }
}
