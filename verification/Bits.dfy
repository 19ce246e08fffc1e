/**
  Machine words as bit sequences, least significant bit first, their values, and the groups of
  positions over which a parallel prefix adder combines generate and propagate bits.
 */
module Bits {
  import opened Arith

  type Word = seq<bool>

  function Bit(b: bool): nat {
    if b then 1 else 0
  }

  function Val(w: Word): nat {
    if w == [] then 0 else Bit(w[0]) + 2 * Val(w[1..])
  }

  /** The bit at a position; false beyond the word. */
  predicate On(w: Word, i: int) {
    0 <= i < |w| && w[i]
  }

  function And(a: Word, b: Word): (r: Word)
    ensures |r| == |a|
    ensures forall i :: 0 <= i < |a| ==> (r[i] <==> a[i] && On(b, i))
  {
    seq(|a|, i requires 0 <= i < |a| => a[i] && On(b, i))
  }

  function Xor(a: Word, b: Word): (r: Word)
    ensures |r| == |a|
    ensures forall i :: 0 <= i < |a| ==> (r[i] <==> a[i] != On(b, i))
  {
    seq(|a|, i requires 0 <= i < |a| => a[i] != On(b, i))
  }

  /** Towards the high bits; what leaves the word is lost. */
  function Shl(a: Word, s: nat): (r: Word)
    ensures |r| == |a|
    ensures forall i :: 0 <= i < |a| ==> (r[i] <==> On(a, i - s))
  {
    seq(|a|, i requires 0 <= i < |a| => On(a, i - s))
  }

  function Shr(a: Word, s: nat): (r: Word)
    ensures |r| == |a|
    ensures forall i :: 0 <= i < |a| ==> (r[i] <==> On(a, i + s))
  {
    seq(|a|, i requires 0 <= i < |a| => On(a, i + s))
  }

  function Zeros(n: nat): (r: Word)
    ensures |r| == n && forall i :: 0 <= i < n ==> !r[i]
  {
    seq(n, _ => false)
  }

  function Ones(n: nat): (r: Word)
    ensures |r| == n && forall i :: 0 <= i < n ==> r[i]
  {
    seq(n, _ => true)
  }

  /** The number of significant bits. */
  function BitWidth(n: nat): nat {
    if n == 0 then 0 else 1 + BitWidth(n / 2)
  }

  function Log2Ceil(n: nat): nat {
    if n <= 1 then 0 else BitWidth(n - 1)
  }

  predicate HasSingleBit(n: nat) {
    n >= 1 && Pow2(Log2Ceil(n)) == n
  }

  // ---- values ----

  lemma {:induction false} BitWidthBounds(n: nat)
    ensures n < Pow2(BitWidth(n))
    ensures n >= 1 ==> BitWidth(n) >= 1 && Pow2(BitWidth(n) - 1) <= n
  {
    if n > 0 {
      BitWidthBounds(n / 2);
    }
  }

  /** The least exponent whose power of two reaches n. */
  lemma Log2CeilBounds(n: nat)
    ensures n <= Pow2(Log2Ceil(n))
    ensures n >= 2 ==> Log2Ceil(n) >= 1 && Pow2(Log2Ceil(n) - 1) < n
  {
    if n > 1 {
      BitWidthBounds(n - 1);
    }
  }

  lemma Log2CeilLeast(n: nat, e: nat)
    requires n <= Pow2(e)
    ensures Log2Ceil(n) <= e
    ensures n == Pow2(e) ==> Log2Ceil(n) == e && HasSingleBit(n)
  {
    Log2CeilBounds(n);
    if Log2Ceil(n) > e {
      Pow2Grows(e, Log2Ceil(n) - 1);
    } else if Log2Ceil(n) < e {
      Pow2Grows(Log2Ceil(n), e);
    }
  }

  lemma {:induction false} ValBounds(w: Word)
    ensures Val(w) < Pow2(|w|)
  {
    if w != [] {
      ValBounds(w[1..]);
    }
  }

  lemma {:induction false} ValAppend(a: Word, b: Word)
    ensures Val(a + b) == Val(a) + Pow2(|a|) * Val(b)
  {
    if a == [] {
      assert a + b == b;
    } else {
      ValAppend(a[1..], b);
      assert (a + b)[1..] == a[1..] + b;
      MulAssoc(2, Pow2(|a| - 1), Val(b));
    }
  }

  lemma {:induction false} ValZeros(n: nat)
    ensures Val(Zeros(n)) == 0
  {
    if n > 0 {
      ValZeros(n - 1);
      assert Zeros(n)[1..] == Zeros(n - 1);
    }
  }

  lemma {:induction false} ValOnes(n: nat)
    ensures Val(Ones(n)) == Pow2(n) - 1
  {
    if n > 0 {
      ValOnes(n - 1);
      assert Ones(n)[1..] == Ones(n - 1);
    }
  }

  lemma {:induction false} ValInjective(a: Word, b: Word)
    requires |a| == |b| && Val(a) == Val(b)
    ensures a == b
  {
    if a != [] {
      LowestDigit(a[0], Val(a[1..]), b[0], Val(b[1..]));
      ValInjective(a[1..], b[1..]);
      assert a == [a[0]] + a[1..] && b == [b[0]] + b[1..];
    }
  }

  lemma LowestDigit(x: bool, X: nat, y: bool, Y: nat)
    requires Bit(x) + 2 * X == Bit(y) + 2 * Y
    ensures x == y && X == Y
  {
  }

  /** The binary digits of n. */
  function Digits(n: nat, len: nat): (b: Word)
    ensures |b| == len
  {
    if len == 0 then [] else [n % 2 == 1] + Digits(n / 2, len - 1)
  }

  lemma {:induction false} DigitsVal(n: nat, len: nat)
    requires n < Pow2(len)
    ensures Val(Digits(n, len)) == n
  {
    if len > 0 {
      DigitsVal(n / 2, len - 1);
      assert Digits(n, len)[1..] == Digits(n / 2, len - 1);
    }
  }

  // ---- carries ----

  /** Whether positions lo, ..., hi - 1 together generate a carry. */
  predicate GroupG(g: Word, p: Word, lo: int, hi: int)
    decreases hi - lo
  {
    lo < hi && (On(g, hi - 1) != (On(p, hi - 1) && GroupG(g, p, lo, hi - 1)))
  }

  /** Whether they all propagate one. */
  predicate GroupP(p: Word, lo: int, hi: int)
    decreases hi - lo
  {
    lo >= hi || (On(p, hi - 1) && GroupP(p, lo, hi - 1))
  }

  /** Two neighbouring groups combine to one. */
  lemma {:induction false} GroupsCombine(g: Word, p: Word, lo: int, mid: int, hi: int)
    requires lo <= mid <= hi
    ensures GroupG(g, p, lo, hi) == (GroupG(g, p, mid, hi) != (GroupP(p, mid, hi) && GroupG(g, p, lo, mid)))
    ensures GroupP(p, lo, hi) == (GroupP(p, lo, mid) && GroupP(p, mid, hi))
    decreases hi - mid
  {
    if mid < hi {
      GroupsCombine(g, p, lo, mid, hi - 1);
    }
  }

  /** The carry out of adding the low n bits, by school arithmetic. */
  predicate Carry(x: Word, y: Word, n: nat) {
    Val(Low(x, n)) + Val(Low(y, n)) >= Pow2(n)
  }

  /** The low n bits of a word, zero-extended where it is shorter. */
  function Low(w: Word, n: nat): (r: Word)
    ensures |r| == n && forall i :: 0 <= i < n ==> (r[i] <==> On(w, i))
  {
    seq(n, i requires 0 <= i < n => On(w, i))
  }

  lemma LowNext(w: Word, n: nat)
    ensures Low(w, n + 1) == Low(w, n) + [On(w, n)]
    ensures Val(Low(w, n + 1)) == Val(Low(w, n)) + Pow2(n) * Bit(On(w, n))
  {
    ValAppend(Low(w, n), [On(w, n)]);
    assert Val([On(w, n)]) == Bit(On(w, n));
  }

  /** The generate bit of the group [0, n) is that carry. */
  lemma {:induction false} CarryIsGroupG(x: Word, y: Word, n: nat)
    requires |x| == |y|
    ensures Carry(x, y, n) == GroupG(And(x, y), Xor(x, y), 0, n)
    ensures Val(SumLow(x, y, n)) + (if Carry(x, y, n) then Pow2(n) else 0) == Val(Low(x, n)) + Val(Low(y, n))
  {
    hide Low, SumLow, Val, And, Xor;
    if n > 0 {
      var k := n - 1;
      CarryIsGroupG(x, y, k);
      LowNext(x, k);
      LowNext(y, k);
      SumLowNext(x, y, k);
      FullAdder(Val(Low(x, k)), Val(Low(y, k)), Val(SumLow(x, y, k)), Pow2(k), On(x, k), On(y, k), Carry(x, y, k));
      BothOn(x, y, k);
    } else {
      NoBits(x, y);
    }
  }

  lemma NoBits(x: Word, y: Word)
    ensures Val(Low(x, 0)) == Val(Low(y, 0)) == Val(SumLow(x, y, 0)) == 0
  {
  }

  lemma BothOn(x: Word, y: Word, i: nat)
    requires |x| == |y|
    ensures On(And(x, y), i) == (On(x, i) && On(y, i)) && On(Xor(x, y), i) == (On(x, i) != On(y, i))
  {
  }

  /** One position of school addition: partial sums below P, bits and carry at weight P. */
  lemma FullAdder(X: nat, Y: nat, S: nat, P: nat, x0: bool, y0: bool, c: bool)
    requires S < P && S + (if c then P else 0) == X + Y
    ensures var s := (x0 != y0) != c;
      var c' := (x0 && y0) != ((x0 != y0) && c);
      S + P * Bit(s) + (if c' then 2 * P else 0) == X + P * Bit(x0) + (Y + P * Bit(y0))
      && S + P * Bit(s) < 2 * P
  {
  }

  lemma SumLowNext(x: Word, y: Word, k: nat)
    requires |x| == |y|
    ensures Val(SumLow(x, y, k + 1)) ==
      Val(SumLow(x, y, k)) + Pow2(k) * Bit((On(x, k) != On(y, k)) != GroupG(And(x, y), Xor(x, y), 0, k))
    ensures Val(SumLow(x, y, k)) < Pow2(k)
  {
    var s := On(Xor(x, y), k) != GroupG(And(x, y), Xor(x, y), 0, k);
    assert SumLow(x, y, k + 1) == SumLow(x, y, k) + [s];
    ValAppend(SumLow(x, y, k), [s]);
    assert Val([s]) == Bit(s);
    ValBounds(SumLow(x, y, k));
  }

  /** The low n bits of the sum, each from its own bits and the carry into it. */
  function SumLow(x: Word, y: Word, n: nat): (r: Word)
    ensures |r| == n && forall i :: 0 <= i < n ==> (r[i] <==> On(Xor(x, y), i) != GroupG(And(x, y), Xor(x, y), 0, i))
  {
    seq(n, i requires 0 <= i < n => On(Xor(x, y), i) != GroupG(And(x, y), Xor(x, y), 0, i))
  }
}
