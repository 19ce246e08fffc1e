/** The carry out of adding two shares, by halving the number of positions. */
module CarryTree {
  import opened Arith
  import opened Bits
  import opened BitInterleave
  import opened BooleanShares
  import opened PrefixAdders

  /** Neighbouring positions of w are at the same place of hi and lo. */
  lemma EvenOdd(w: Word, hi: Word, lo: Word, L: nat)
    requires L >= 1 && Halves(w, hi, lo, 0, L)
    ensures forall i: nat :: i < Pow2(L - 1) ==> On(hi, i) == On(w, 2 * i + 1) && On(lo, i) == On(w, 2 * i)
  {
    hide Pow2, Halves;
    forall i: nat | i < Pow2(L - 1)
      ensures On(hi, i) == On(w, 2 * i + 1) && On(lo, i) == On(w, 2 * i)
    {
      var c := Digits(i, L - 1);
      DigitsVal(i, L - 1);
      HalvesApply(w, hi, lo, 0, c);
      assert Insert(c, 0, true) == [true] + c && Insert(c, 0, false) == [false] + c;
      HeadDigit(true, c);
      HeadDigit(false, c);
    }
  }

  /** Combining neighbours keeps what the low positions generate. */
  lemma {:induction false} HalvingKeeps(G: Word, P: Word, G1: Word, G0: Word, P1: Word, P0: Word, j: nat, h: nat)
    requires |G1| == |P1| == |P0| == |G0| && j <= h <= |G1|
    requires forall i: nat :: i < h ==> On(G1, i) == On(G, 2 * i + 1) && On(G0, i) == On(G, 2 * i)
    requires forall i: nat :: i < h ==> On(P1, i) == On(P, 2 * i + 1) && On(P0, i) == On(P, 2 * i)
    ensures GroupG(Xor(G1, And(G0, P1)), And(P0, P1), 0, j) == GroupG(G, P, 0, 2 * j)
  {
    if j > 0 {
      HalvingKeeps(G, P, G1, G0, P1, P0, j - 1, h);
      var i := j - 1;
      assert On(G1, i) == On(G, 2 * i + 1) && On(G0, i) == On(G, 2 * i);
      assert On(P1, i) == On(P, 2 * i + 1) && On(P0, i) == On(P, 2 * i);
      TwoMore(G, P, 2 * i);
    }
  }

  lemma TwoMore(G: Word, P: Word, k: nat)
    ensures GroupG(G, P, 0, k + 2) ==
      (On(G, k + 1) != (On(P, k + 1) && (On(G, k) != (On(P, k) && GroupG(G, P, 0, k)))))
  {
    assert GroupG(G, P, 0, k + 1) == (On(G, k) != (On(P, k) && GroupG(G, P, 0, k)));
  }

  /** A position put in below, generating and propagating nothing, changes nothing. */
  lemma {:induction false} ShiftKeeps(G: Word, P: Word, k: nat)
    requires |G| == |P| && k < |G|
    ensures GroupG(Shl(G, 1), Shl(P, 1), 0, k + 1) == GroupG(G, P, 0, k)
  {
    if k > 0 {
      ShiftKeeps(G, P, k - 1);
    } else {
      assert !GroupG(Shl(G, 1), Shl(P, 1), 0, 0);
    }
  }

  /**
    Whether every width check on the way passes, that of shares packed together included: for P of p
    bits, G of g bits and k positions in words of W bits.
   */
  predicate Passes(W: nat, p: nat, g: nat, k: nat)
    decreases k
  {
    k <= 1 || (
      var p1 := if k % 2 != 0 then Min(p + 1, W) else p;
      var g1 := if k % 2 != 0 then Min(g + 1, W) else g;
      HasSingleBit(p1) && p1 == g1
      && Passes(W, Min(p1 / 2, p1 - p1 / 2), Max(g1 - g1 / 2, Min(g1 / 2, p1 - p1 / 2)), (k + k % 2) / 2))
  }

  /** The right case: the k positions are all there, and generate what they did at the start. */
  ghost predicate Keeps(G: BShare, P: BShare, k: nat, carry: bool) {
    1 <= k <= P.nbits && P.nbits == G.nbits && GroupG(G.w, P.w, 0, k) == carry
  }

  /** The wrong case: G's top bit stays set, and the width shrinks until that is bit 0. */
  ghost predicate Stuck(G: BShare, P: BShare, k: nat) {
    Topped(G, P, k) && (G.nbits == |G.w| ==> On(G.w, G.nbits - 2))
  }

  ghost predicate Topped(G: BShare, P: BShare, k: nat) {
    && (forall i :: 0 <= i < |P.w| ==> !P.w[i])
    && G.nbits >= 1 && On(G.w, G.nbits - 1) && (k >= G.nbits || (k == 0 && On(G.w, 0)))
  }

  /** hi and lo are what BitScatter makes of x at stride 0. */
  ghost predicate Scattered(x: BShare, hi: BShare, lo: BShare, e: nat) {
    && x.Valid(e) && hi.Valid(e) && lo.Valid(e) && HasSingleBit(x.nbits)
    && hi.nbits == x.nbits - x.nbits / 2 && lo.nbits == x.nbits / 2
    && Halves(x.w, hi.w, lo.w, 0, Log2Ceil(x.nbits)) && (x.nbits == 1 ==> hi.w == x.w)
  }

  lemma ScatteredBits(x: BShare, hi: BShare, lo: BShare, e: nat)
    requires Scattered(x, hi, lo, e) && x.nbits >= 2
    ensures forall i: nat :: i < x.nbits / 2 ==> On(hi.w, i) == On(x.w, 2 * i + 1) && On(lo.w, i) == On(x.w, 2 * i)
  {
    hide Pow2, Halves;
    HalfWidth(x.nbits);
    HalfOfPow2(Log2Ceil(x.nbits));
    EvenOdd(x.w, hi.w, lo.w, Log2Ceil(x.nbits));
  }

  /** One pass of the loop: an odd number of positions is padded, then neighbours combine. */
  method CarryRound(G: BShare, P: BShare, k: nat, ghost carry: bool, ghost e: nat)
    returns (ok: bool, G': BShare, P': BShare, k': nat)
    requires G.Valid(e) && P.Valid(e) && k > 1
    ensures Passes(|P.w|, P.nbits, G.nbits, k) <==> ok && Passes(|P.w|, P'.nbits, G'.nbits, k')
    ensures ok ==> 1 <= k' < k && G'.Valid(e) && P'.Valid(e)
    ensures ok && Keeps(G, P, k, carry) ==> Keeps(G', P', k', carry)
    ensures ok && Stuck(G, P, k) ==> Stuck(G', P', k')
  {
    hide Pow2, Keeps, Stuck, Topped, HasSingleBit, Passes;
    PassesNext(|P.w|, P.nbits, G.nbits, k);
    G', P', k' := G, P, k;
    if k % 2 != 0 {
      k' := k' + 1;
      P' := LShiftB(P, 1);
      G' := LShiftB(G, 1);
      PadRound(G, P, k, carry, e);
    } else {
      StuckIsTopped(G, P, k);
    }
    ok, G', P' := Halve(G', P', k', carry, e);
    k' := k' / 2;
  }

  lemma PassesNext(W: nat, p: nat, g: nat, k: nat)
    requires k > 1
    ensures var p1 := if k % 2 != 0 then Min(p + 1, W) else p;
      var g1 := if k % 2 != 0 then Min(g + 1, W) else g;
      var next := Passes(W, Min(p1 / 2, p1 - p1 / 2), Max(g1 - g1 / 2, Min(g1 / 2, p1 - p1 / 2)), (k + k % 2) / 2);
      Passes(W, p, g, k) <==> HasSingleBit(p1) && p1 == g1 && next
  {
  }

  lemma StuckIsTopped(G: BShare, P: BShare, k: nat)
    ensures Stuck(G, P, k) ==> Topped(G, P, k)
  {
  }

  /** Combines neighbouring positions. */
  method Halve(G: BShare, P: BShare, k: nat, ghost carry: bool, ghost e: nat) returns (ok: bool, G': BShare, P': BShare)
    requires G.Valid(e) && P.Valid(e) && k >= 2 && k % 2 == 0
    ensures ok <==> HasSingleBit(P.nbits) && P.nbits == G.nbits
    ensures ok ==> P'.nbits == Min(P.nbits / 2, P.nbits - P.nbits / 2)
    ensures ok ==> G'.nbits == Max(G.nbits - G.nbits / 2, Min(G.nbits / 2, P.nbits - P.nbits / 2))
    ensures ok ==> |P'.w| == |P.w| && G'.Valid(e) && P'.Valid(e)
    ensures ok && Keeps(G, P, k, carry) ==> Keeps(G', P', k / 2, carry)
    ensures ok && Topped(G, P, k) ==> Stuck(G', P', k / 2)
  {
    hide Pow2, Halves, Keeps, Stuck, Topped, HasSingleBit;
    G', P' := G, P;
    var P1, P0, G1, G0;
    ok, P1, P0 := BitScatter(P, 0, e);
    if !ok {
      return;
    }
    ok, G1, G0 := BitScatter(G, 0, e);
    if !ok {
      return;
    }
    SameHalves(P.nbits, G.nbits);
    var v0, v1;
    ok, v0, v1 := AndPairs(P0, G0, P1, P1);
    if !ok {
      return;
    }
    P' := v0;
    G' := XorBB(G1, v1);
    HalveKeeps(G, P, G1, G0, P1, P0, k, carry, e);
    HalveStuck(G, P, G1, G0, P1, P0, k, e);
  }

  lemma SameHalves(p: nat, g: nat)
    requires HasSingleBit(p) && HasSingleBit(g)
    ensures p / 2 == g / 2 <==> p == g
  {
  }

  lemma PadRound(G: BShare, P: BShare, k: nat, carry: bool, e: nat)
    requires G.Valid(e) && P.Valid(e) && k > 1 && k % 2 == 1
    ensures Keeps(G, P, k, carry) ==> Keeps(LShiftB(G, 1), LShiftB(P, 1), k + 1, carry)
    ensures Stuck(G, P, k) ==> Topped(LShiftB(G, 1), LShiftB(P, 1), k + 1)
  {
    hide GroupG;
    NextPower(e - 1);
    if k < |G.w| {
      ShiftKeeps(G.w, P.w, k);
    }
  }

  lemma HalveKeeps(G: BShare, P: BShare, G1: BShare, G0: BShare, P1: BShare, P0: BShare, k: nat, carry: bool, e: nat)
    requires Scattered(G, G1, G0, e) && Scattered(P, P1, P0, e) && k >= 2 && k % 2 == 0
    ensures Keeps(G, P, k, carry) ==> Keeps(XorBB(G1, AndBB(G0, P1)), AndBB(P0, P1), k / 2, carry)
  {
    hide Pow2, Halves, GroupG;
    if Keeps(G, P, k, carry) {
      var h := G.nbits / 2;
      HalfWidth(G.nbits);
      ScatteredBits(G, G1, G0, e);
      ScatteredBits(P, P1, P0, e);
      HalvingKeeps(G.w, P.w, G1.w, G0.w, P1.w, P0.w, k / 2, h);
    }
  }

  lemma HalveStuck(G: BShare, P: BShare, G1: BShare, G0: BShare, P1: BShare, P0: BShare, k: nat, e: nat)
    requires Scattered(G, G1, G0, e) && Scattered(P, P1, P0, e) && k >= 2 && k % 2 == 0
    ensures Topped(G, P, k) ==> Stuck(XorBB(G1, AndBB(G0, P1)), AndBB(P0, P1), k / 2)
  {
    hide Pow2, Halves, AndBB, XorBB, Xor, And, HasSingleBit, Log2Ceil;
    if Topped(G, P, k) {
      AllZero(P, P1, P0, e);
      if G.nbits >= 2 {
        HalfWidth(G.nbits);
        ScatteredBits(G, G1, G0, e);
        var h := G.nbits / 2;
        assert On(G1.w, h - 1) == On(G.w, 2 * (h - 1) + 1);
      }
    }
  }

  lemma AllZero(x: BShare, hi: BShare, lo: BShare, e: nat)
    requires Scattered(x, hi, lo, e) && forall i :: 0 <= i < |x.w| ==> !x.w[i]
    ensures forall i :: 0 <= i < |hi.w| ==> !hi.w[i]
    ensures forall i :: 0 <= i < |lo.w| ==> !lo.w[i]
  {
    hide Pow2, Halves;
    if x.nbits >= 2 {
      HalfWidth(x.nbits);
      ScatteredBits(x, hi, lo, e);
      forall i | 0 <= i < |hi.w|
        ensures !hi.w[i] && !lo.w[i]
      {
        if i < x.nbits / 2 {
          assert On(hi.w, i) == On(x.w, 2 * i + 1) && On(lo.w, i) == On(x.w, 2 * i);
        }
      }
    }
  }

  /**
    The carry out of the low k positions, for operands of n bits.  It is refused exactly when a
    width check fails, and otherwise right for all operands if and only if 1 <= k <= n: beyond
    that, two operands of n ones yield a carry of 1 where there is none.
   */
  method CarryA2B(x: BShare, y: BShare, k: nat, ghost e: nat) returns (ok: bool, out: BShare)
    requires x.Valid(e) && y.Valid(e) && x.nbits == y.nbits
    ensures ok <==> WidthsFit(|x.w|, x.nbits, k)
    ensures ok && (1 <= k <= x.nbits || x.nbits == 0) ==> On(out.w, 0) == Carry(x.w, y.w, k)
    ensures ok && !(1 <= k <= x.nbits) && x.nbits >= 1 && x.w == y.w == LowMask(x.nbits, |x.w|) ==>
      On(out.w, 0) != Carry(x.w, y.w, k)
  {
    hide Pow2, Passes, Keeps, Stuck, Carry, GroupG, And, Xor, AndBB, WidthsFit;
    var P, G := XorBB(x, y), AndBB(x, y);
    ghost var carry, k0, W := Carry(x.w, y.w, k), k, |x.w|;
    ghost var bad := !(1 <= k0 <= x.nbits) && x.nbits >= 1 && x.w == y.w == LowMask(x.nbits, W);
    StartKeeps(x, y, k, e);
    StartStuck(x, y, k, e);
    PassesExactly(W, x.nbits, k, e);
    NoWidth(x, y, k, e);
    var k := k;
    while k > 1
      invariant G.Valid(e) && P.Valid(e)
      invariant Passes(W, P.nbits, G.nbits, k) == Passes(W, x.nbits, x.nbits, k0)
      invariant 1 <= k0 <= x.nbits ==> Keeps(G, P, k, carry)
      invariant bad ==> Stuck(G, P, k)
      invariant k0 <= 1 ==> k == k0 && G == AndBB(x, y)
    {
      ok, G, P, k := CarryRound(G, P, k, carry, e);
      if !ok {
        return false, G;
      }
    }
    EndPasses(W, P.nbits, G.nbits, k);
    EndKeeps(G, P, k, carry);
    NoCarry(x.w, y.w, k0, x.nbits);
    EndStuck(G, P, k);
    ok, out := true, G;
  }

  /** Shares of no bits: nothing is carried, and more than one position is refused. */
  lemma NoWidth(x: BShare, y: BShare, k: nat, e: nat)
    requires x.Valid(e) && y.Valid(e) && x.nbits == y.nbits
    ensures x.nbits == 0 ==> !On(AndBB(x, y).w, 0) && (WidthsFit(|x.w|, x.nbits, k) ==> k <= 1 && !Carry(x.w, y.w, k))
  {
    hide HasSingleBit;
    if x.nbits == 0 {
      Singles();
      if k % 2 == 1 {
        OddSingle(k);
        OneFits(k + 1);
      }
      CarryIsGroupG(x.w, y.w, k);
      assert Low(x.w, k) == Zeros(k) == Low(y.w, k);
      ValZeros(k);
    }
  }

  lemma StartKeeps(x: BShare, y: BShare, k: nat, e: nat)
    requires x.Valid(e) && y.Valid(e) && x.nbits == y.nbits
    ensures 1 <= k <= x.nbits ==> Keeps(AndBB(x, y), XorBB(x, y), k, Carry(x.w, y.w, k))
  {
    hide Carry;
    CarryIsGroupG(x.w, y.w, k);
  }

  lemma StartStuck(x: BShare, y: BShare, k: nat, e: nat)
    requires x.Valid(e) && y.Valid(e) && x.nbits == y.nbits
    ensures !(1 <= k <= x.nbits) && x.nbits >= 1 && x.w == y.w == LowMask(x.nbits, |x.w|) ==>
      Stuck(AndBB(x, y), XorBB(x, y), k)
  {
  }

  lemma EndPasses(W: nat, p: nat, g: nat, k: nat)
    requires k <= 1
    ensures Passes(W, p, g, k)
  {
  }

  lemma EndKeeps(G: BShare, P: BShare, k: nat, carry: bool)
    requires k <= 1
    ensures Keeps(G, P, k, carry) ==> On(G.w, 0) == carry
  {
    assert !GroupG(G.w, P.w, 0, 0);
  }

  lemma EndStuck(G: BShare, P: BShare, k: nat)
    requires k <= 1
    ensures Stuck(G, P, k) ==> On(G.w, 0)
  {
  }

  /** Two times n ones do not reach beyond n + 1 bits. */
  lemma NoCarry(x: Word, y: Word, k: nat, n: nat)
    requires n <= |x|
    ensures !(1 <= k <= n) && x == y == LowMask(n, |x|) ==> !Carry(x, y, k)
  {
    if k > n && x == y == LowMask(n, |x|) {
      assert Low(x, k) == Ones(n) + Zeros(k - n);
      ValAppend(Ones(n), Zeros(k - n));
      ValOnes(n);
      ValZeros(k - n);
      Pow2Grows(n, k);
    }
  }

  // ---- when the checks pass ----

  /** For n bits, a power of two, and an even number of positions k. */
  predicate EvenFits(n: nat, k: nat) {
    (HasSingleBit(k) && k <= n) || (k > n >= 1 && k % n == 0 && HasSingleBit(k / n - 1))
  }

  /**
    The checks in closed form: an odd k > 1 is padded together with the width; then the width must
    be a power of two, and k one that is not larger, or the width times one more than a power of two.
   */
  predicate WidthsFit(W: nat, n: nat, k: nat) {
    k <= 1 || (
      var n2 := if k % 2 == 0 then n else Min(n + 1, W);
      HasSingleBit(n2) && EvenFits(n2, k + k % 2))
  }

  lemma PassesExactly(W: nat, n: nat, k: nat, e: nat)
    requires W == Pow2(e) >= 2 && n <= W
    ensures Passes(W, n, n, k) <==> WidthsFit(W, n, k)
  {
    hide Passes, EvenFits, HasSingleBit, Pow2;
    if k <= 1 {
      EndPasses(W, n, n, k);
    } else if k % 2 == 0 {
      EvenPasses(W, n, k, e);
    } else {
      PassesNext(W, n, n, k);
      PassesNext(W, Min(n + 1, W), Min(n + 1, W), k + 1);
      EvenPasses(W, Min(n + 1, W), k + 1, e);
    }
  }

  lemma EvenPasses(W: nat, n: nat, k: nat, e: nat)
    requires W == Pow2(e) >= 2 && n <= W && k >= 2 && k % 2 == 0
    ensures Passes(W, n, n, k) <==> HasSingleBit(n) && EvenFits(n, k)
  {
    hide Passes, EvenFits, Pow2;
    PassesNext(W, n, n, k);
    if HasSingleBit(n) {
      Log2CeilLeast(n, e);
      PowerPasses(W, Log2Ceil(n), k, e);
    }
  }

  lemma {:induction false} PowerPasses(W: nat, f: nat, k: nat, e: nat)
    requires W == Pow2(e) >= 2 && f <= e && k >= 2 && k % 2 == 0
    ensures Passes(W, Pow2(f), Pow2(f), k) <==> EvenFits(Pow2(f), k)
    decreases f
  {
    hide Passes, EvenFits, HasSingleBit, Pow2;
    Powers();
    Log2CeilLeast(Pow2(f), f);
    PassesNext(W, Pow2(f), Pow2(f), k);
    if f == 0 {
      OnePasses(W, k);
      OneFits(k);
    } else {
      NextPower(f - 1);
      Pow2Grows(f - 1, e);
      assert Pow2(f) / 2 == Pow2(f) - Pow2(f) / 2 == Pow2(f - 1);
      if k == 2 {
        EndPasses(W, Pow2(f - 1), Pow2(f - 1), 1);
        TwoFits(Pow2(f));
      } else if k % 4 == 0 {
        PowerPasses(W, f - 1, k / 2, e);
        FitsHalved(Pow2(f - 1), k / 2);
      } else if f == 1 {
        OnePasses(W, k / 2);
        OddHalfFits(1, k / 2);
      } else {
        NextPower(f - 2);
        PassesNext(W, Pow2(f - 1), Pow2(f - 1), k / 2);
        OddSingle(Pow2(f - 1) + 1);
        OddHalfFits(Pow2(f - 1), k / 2);
      }
    }
  }

  /** With one bit left, k positions are too many unless padding brings them down to two. */
  lemma {:induction false} OnePasses(W: nat, k: nat)
    requires W >= 2
    ensures Passes(W, 1, 1, k) <==> k <= 1 || HasSingleBit(k - 1)
    decreases k
  {
    hide Passes, HasSingleBit;
    SmallWidths();
    Singles();
    if k <= 1 {
      EndPasses(W, 1, 1, k);
    } else {
      PassesNext(W, 1, 1, k);
      if k % 2 == 0 {
        OddSingle(k - 1);
        if k == 2 {
          EndPasses(W, 0, 1, 1);
        } else {
          PassesNext(W, 0, 1, k / 2);
        }
      } else {
        OnePasses(W, (k + 1) / 2);
        SingleDoubled((k - 1) / 2);
      }
    }
  }

  lemma Singles()
    ensures HasSingleBit(1) && HasSingleBit(2) && !HasSingleBit(0)
  {
    Powers();
    Log2CeilLeast(1, 0);
    Log2CeilLeast(2, 1);
  }

  /** An odd power of two is 1. */
  lemma OddSingle(n: nat)
    requires n % 2 == 1
    ensures HasSingleBit(n) <==> n == 1
  {
    Powers();
    Log2CeilLeast(1, 0);
    if Log2Ceil(n) > 0 {
      NextPower(Log2Ceil(n) - 1);
    }
  }

  lemma SingleDoubled(n: nat)
    ensures HasSingleBit(2 * n) <==> HasSingleBit(n)
  {
    if HasSingleBit(n) {
      DoubleWidth(n);
    } else if HasSingleBit(2 * n) {
      Powers();
      NextPower(Log2Ceil(2 * n) - 1);
      Log2CeilLeast(n, Log2Ceil(2 * n) - 1);
    }
  }

  lemma OneFits(k: nat)
    requires k >= 2 && k % 2 == 0
    ensures EvenFits(1, k) <==> HasSingleBit(k - 1)
  {
    hide HasSingleBit;
  }

  lemma TwoFits(n: nat)
    requires n >= 2
    ensures EvenFits(n, 2)
  {
    Singles();
  }

  lemma FitsHalved(n: nat, k: nat)
    requires n >= 1
    ensures EvenFits(2 * n, 2 * k) <==> EvenFits(n, k)
  {
    hide HasSingleBit;
    SingleDoubled(k);
    QuotientDoubled(k, n);
  }

  lemma QuotientDoubled(k: nat, n: nat)
    requires n >= 1
    ensures 2 * k / (2 * n) == k / n && 2 * k % (2 * n) == 2 * (k % n)
  {
    assert 2 * k == k / n * (2 * n) + 2 * (k % n);
    DivModUnique(2 * k, k / n, 2 * (k % n), 2 * n);
  }

  /** Twice an odd number of positions, at least three. */
  lemma OddHalfFits(n: nat, k: nat)
    requires k >= 3 && k % 2 == 1 && (n == 1 || (n >= 2 && n % 2 == 0))
    ensures EvenFits(2 * n, 2 * k) <==> n == 1 && HasSingleBit(k - 1)
  {
    hide HasSingleBit;
    SingleDoubled(k);
    OddSingle(k);
    if n == 1 {
      assert 2 * k % 2 == 0 && 2 * k / 2 == k;
    } else {
      OddNoMultiple(k, n);
    }
  }

  lemma OddNoMultiple(k: nat, n: nat)
    requires k % 2 == 1 && n >= 2 && n % 2 == 0
    ensures 2 * k % (2 * n) != 0
  {
    QuotientDoubled(k, n);
    EvenMultiple(k / n, n);
    hide *;
    assert k == k / n * n + k % n;
  }

  lemma EvenMultiple(q: nat, n: nat)
    requires n % 2 == 0
    ensures q * n % 2 == 0
  {
    MulAssoc(q, n / 2, 2);
  }

  /** They pass when both are powers of two. */
  lemma PowersPass(e: nat, f: nat, j: nat)
    requires j <= f <= e && e >= 1
    ensures Passes(Pow2(e), Pow2(f), Pow2(f), Pow2(j))
  {
    hide Passes, Pow2, HasSingleBit, WidthsFit;
    Powers();
    Pow2Grows(1, e);
    Pow2Grows(f, e);
    Pow2Grows(j, f);
    Log2CeilLeast(Pow2(f), f);
    Log2CeilLeast(Pow2(j), j);
    PassesExactly(Pow2(e), Pow2(f), Pow2(j), e);
    SinglesFit(Pow2(e), Pow2(f), Pow2(j));
  }

  lemma SinglesFit(W: nat, n: nat, k: nat)
    requires HasSingleBit(n) && HasSingleBit(k) && k <= n
    ensures WidthsFit(W, n, k)
  {
    hide HasSingleBit;
    if k % 2 == 1 {
      OddSingle(k);
    }
  }

  /** And in the top-bit extraction, which asks for one position fewer than the ring has bits. */
  lemma TopBitPasses(e: nat)
    requires 5 <= e
    ensures Passes(Pow2(e), Pow2(e), Pow2(e), Pow2(e) - 1)
  {
    hide Passes, Pow2, HasSingleBit;
    Powers();
    Pow2Grows(1, e);
    NextPower(e - 1);
    Log2CeilLeast(Pow2(e), e);
    PassesExactly(Pow2(e), Pow2(e), Pow2(e) - 1, e);
  }
}
