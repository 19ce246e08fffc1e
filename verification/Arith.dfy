/** Multiplication, quotients and remainders: the few non-linear facts the other modules lean on. */
module Arith {
  lemma MulLe(x: int, y: int, g: int)
    requires x <= y && g >= 0
    ensures x * g <= y * g
  {
  }

  lemma MulLeLeft(g: int, x: int, y: int)
    requires x <= y && g >= 0
    ensures g * x <= g * y
  {
    MulLe(x, y, g);
  }

  function Times(x: nat, y: nat): nat {
    x * y
  }

  lemma MulLt(x: int, y: int, g: int)
    requires x < y && g >= 1
    ensures x * g < y * g
    ensures x * g + g <= y * g
  {
    MulLe(x + 1, y, g);
    assert (x + 1) * g == x * g + g;
  }

  lemma MulNonNeg(x: int, y: int)
    requires x >= 0 && y >= 0
    ensures x * y >= 0
  {
  }

  lemma MulAssoc(x: int, y: int, z: int)
    ensures x * y * z == x * (y * z)
  {
  }

  lemma Distribute(x: int, y: int, g: int)
    ensures (x + y) * g == x * g + y * g && (x - y) * g == x * g - y * g
  {
  }

  lemma MulCancel(x: int, y: int, g: int)
    requires x * g == y * g && g >= 1
    ensures x == y
  {
    if x < y {
      MulLt(x, y, g);
    } else if y < x {
      MulLt(y, x, g);
    }
  }

  lemma DivModUnique(x: int, q: int, r: int, b: int)
    requires 0 <= r < b && x == q * b + r
    ensures x / b == q && x % b == r
  {
    var q', r' := x / b, x % b;
    assert x == q' * b + r';
    if q < q' {
      MulLt(q, q', b);
    } else if q' < q {
      MulLt(q', q, b);
    }
  }

  /** Adding the divisor adds one to the quotient. */
  lemma QuotientShifts(i: nat, S: nat)
    requires S >= 1
    ensures (i + S) / S == i / S + 1
    ensures i >= S ==> i / S >= 1 && (i - S) / S == i / S - 1
    ensures i < S ==> i / S == 0
  {
    var q, r := i / S, i % S;
    DivModUnique(i + S, q + 1, r, S) by { assert (q + 1) * S + r == q * S + r + S; }
    if i >= S {
      DivModUnique(i - S, q - 1, r, S) by { assert (q - 1) * S + r == q * S + r - S; }
    }
  }

  /** The quotient of a number below c * b is below c. */
  lemma DivBelow(x: int, c: int, b: int)
    requires 0 <= x < c * b && b >= 1
    ensures 0 <= x / b < c
    ensures x == x / b * b + x % b && 0 <= x % b < b
  {
    var q := x / b;
    assert x == q * b + x % b;
    if q >= c {
      MulLe(c, q, b);
    }
    if q < 0 {
      MulLe(q, -1, b);
    }
  }

  /** A two-digit number in mixed radix stays below the product of the radices. */
  lemma TwoDigits(q: int, r: int, c: int, b: int)
    requires 0 <= q < c && 0 <= r < b
    ensures 0 <= q * b + r < c * b
    ensures (q * b + r) / b == q && (q * b + r) % b == r
  {
    MulLt(q, c, b);
    MulNonNeg(q, b);
    DivModUnique(q * b + r, q, r, b);
  }

  /** The quotient rounded up: the least r with a <= r * b. */
  function CeilDiv(a: nat, b: nat): (r: nat)
    requires b > 0
    ensures a > 0 ==> 0 < r <= a
    ensures a <= r * b < a + b
  {
    CeilDivBounds(a, b);
    (a + b - 1) / b
  }

  lemma CeilDivBounds(a: nat, b: nat)
    requires b > 0
    ensures a > 0 ==> 0 < (a + b - 1) / b <= a
    ensures a <= (a + b - 1) / b * b < a + b
  {
    var q := (a + b - 1) / b;
    DivBelow(a + b - 1, q + 1, b) by { assert a + b - 1 < (q + 1) * b; }
    if q >= a + 1 && a > 0 {
      MulLe(a + 1, q, b);
      MulLe(1, b, a);
    }
    if q <= 0 {
      MulLe(q, 0, b);
    }
  }

  function Pow2(e: nat): (p: nat)
    ensures p >= 1
  {
    if e == 0 then 1 else 2 * Pow2(e - 1)
  }

  lemma {:induction false} Pow2Add(a: nat, b: nat)
    ensures Pow2(a + b) == Pow2(a) * Pow2(b)
  {
    if a > 0 {
      Pow2Add(a - 1, b);
      MulAssoc(2, Pow2(a - 1), Pow2(b));
    }
  }

  lemma {:induction false} Pow2Grows(a: nat, b: nat)
    requires a <= b
    ensures Pow2(a) <= Pow2(b)
    ensures a < b ==> 2 * Pow2(a) <= Pow2(b)
  {
    if a < b {
      Pow2Grows(a, b - 1);
    }
  }
}
