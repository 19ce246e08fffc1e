/**
  Bit interleaving: the log-step swaps over a word, seen as a permutation of the binary digits of
  bit positions.
 */
module BitInterleave {
  import opened Arith
  import opened Bits

  // ---- masks ----

  const SWAP0 := "22222222222222222222222222222222"
  const SWAP1 := "0C0C0C0C0C0C0C0C0C0C0C0C0C0C0C0C"
  const SWAP2 := "00F000F000F000F000F000F000F000F0"
  const SWAP3 := "0000FF000000FF000000FF000000FF00"
  const SWAP4 := "00000000FFFF000000000000FFFF0000"
  const SWAP5 := "0000000000000000FFFFFFFF00000000"
  const KEEP0 := "99999999999999999999999999999999"
  const KEEP1 := "C3C3C3C3C3C3C3C3C3C3C3C3C3C3C3C3"
  const KEEP2 := "F00FF00FF00FF00FF00FF00FF00FF00F"
  const KEEP3 := "FF0000FFFF0000FFFF0000FFFF0000FF"
  const KEEP4 := "FFFF00000000FFFFFFFF00000000FFFF"
  const KEEP5 := "FFFFFFFF0000000000000000FFFFFFFF"

  function SwapMask(level: nat): string {
    match level
    case 0 => SWAP0
    case 1 => SWAP1
    case 2 => SWAP2
    case 3 => SWAP3
    case 4 => SWAP4
    case _ => SWAP5
  }

  function KeepMask(level: nat): string {
    match level
    case 0 => KEEP0
    case 1 => KEEP1
    case 2 => KEEP2
    case 3 => KEEP3
    case 4 => KEEP4
    case _ => KEEP5
  }

  function HexDigit(c: char): nat {
    if '0' <= c <= '9' then c as int - '0' as int
    else if 'A' <= c <= 'F' then c as int - 'A' as int + 10
    else 0
  }

  /** Bit k of a hexadecimal digit. */
  predicate DigitBit(d: nat, k: nat) {
    (if k == 0 then d else if k == 1 then d / 2 else if k == 2 then d / 4 else d / 8) % 2 == 1
  }

  /** Bit i of the 128-bit constant written as s. */
  predicate HexBit(s: string, i: nat) {
    i / 4 < |s| && DigitBit(HexDigit(s[|s| - 1 - i / 4]), i % 4)
  }

  /** The constant, truncated to a word of n bits. */
  function MaskWord(s: string, n: nat): (r: Word)
    ensures |r| == n && forall i :: 0 <= i < n ==> (r[i] <==> HexBit(s, i))
  {
    seq(n, i requires 0 <= i < n => HexBit(s, i))
  }

  /** Two neighbouring binary digits of position i, as a number below 4. */
  function Field(i: nat, level: nat): (f: nat)
    ensures f < 4
  {
    i / Pow2(level) % 4
  }

  lemma Powers()
    ensures Pow2(0) == 1 && Pow2(1) == 2 && Pow2(2) == 4 && Pow2(3) == 8 && Pow2(4) == 16 && Pow2(5) == 32
  {
  }

  lemma HexDigits()
    ensures HexDigit('0') == 0 && HexDigit('2') == 2 && HexDigit('3') == 3 && HexDigit('9') == 9
    ensures HexDigit('5') == 5 && (forall k :: 0 <= k < 4 ==> (DigitBit(5, k) <==> k % 2 == 0))
    ensures HexDigit('C') == 12 && HexDigit('F') == 15
    ensures forall k :: 0 <= k < 4 ==> !DigitBit(0, k) && DigitBit(15, k)
    ensures forall k :: 0 <= k < 4 ==> (DigitBit(2, k) <==> k == 1) && (DigitBit(9, k) <==> k == 0 || k == 3)
    ensures forall k :: 0 <= k < 4 ==> (DigitBit(12, k) <==> k >= 2) && (DigitBit(3, k) <==> k < 2)
  {
  }

  // Each level's masks: their digits, counted from the left as written, and their bits.

  lemma Digits0(p: nat)
    requires p < 32
    ensures |SWAP0| == 32 && SWAP0[p] == '2'
    ensures |KEEP0| == 32 && KEEP0[p] == '9'
  {
  }

  lemma Level0(i: nat)
    requires i < 128
    ensures HexBit(SWAP0, i) <==> i % 4 == 1
    ensures HexBit(KEEP0, i) <==> i % 4 == 0 || i % 4 == 3
  {
    hide SWAP0, KEEP0, HexDigit, DigitBit;
    Digits0(31 - i / 4);
    HexDigits();
  }

  lemma Digits1(p: nat)
    requires p < 32
    ensures |SWAP1| == 32 && SWAP1[p] == if p % 2 == 1 then 'C' else '0'
    ensures |KEEP1| == 32 && KEEP1[p] == if p % 2 == 1 then '3' else 'C'
  {
  }

  lemma Level1(i: nat)
    requires i < 128
    ensures HexBit(SWAP1, i) <==> i / 2 % 4 == 1
    ensures HexBit(KEEP1, i) <==> i / 2 % 4 == 0 || i / 2 % 4 == 3
  {
    hide SWAP1, KEEP1, HexDigit, DigitBit;
    Digits1(31 - i / 4);
    HexDigits();
  }

  lemma Digits2(p: nat)
    requires p < 32
    ensures |SWAP2| == 32 && SWAP2[p] == if p % 4 == 2 then 'F' else '0'
    ensures |KEEP2| == 32 && KEEP2[p] == if p % 4 == 0 || p % 4 == 3 then 'F' else '0'
  {
  }

  lemma Level2(i: nat)
    requires i < 128
    ensures HexBit(SWAP2, i) <==> i / 4 % 4 == 1
    ensures HexBit(KEEP2, i) <==> i / 4 % 4 == 0 || i / 4 % 4 == 3
  {
    hide SWAP2, KEEP2, HexDigit, DigitBit;
    Digits2(31 - i / 4);
    HexDigits();
  }

  lemma Digits3(p: nat)
    requires p < 32
    ensures |SWAP3| == 32 && SWAP3[p] == if p / 2 % 4 == 2 then 'F' else '0'
    ensures |KEEP3| == 32 && KEEP3[p] == if p / 2 % 4 == 0 || p / 2 % 4 == 3 then 'F' else '0'
  {
  }

  lemma Level3(i: nat)
    requires i < 128
    ensures HexBit(SWAP3, i) <==> i / 8 % 4 == 1
    ensures HexBit(KEEP3, i) <==> i / 8 % 4 == 0 || i / 8 % 4 == 3
  {
    hide SWAP3, KEEP3, HexBit;
    Digits3(31 - i / 4);
    AllOrNothing(SWAP3, i);
    AllOrNothing(KEEP3, i);
    assert (31 - i / 4) / 2 == 15 - i / 8;
  }

  /** A mask of digits F and 0 has all four bits of a digit set, or none. */
  lemma AllOrNothing(s: string, i: nat)
    requires i < 128 && |s| == 32 && (s[31 - i / 4] == 'F' || s[31 - i / 4] == '0')
    ensures HexBit(s, i) <==> s[31 - i / 4] == 'F'
  {
    hide HexDigit, DigitBit;
    HexDigits();
  }

  lemma Digits4(p: nat)
    requires p < 32
    ensures |SWAP4| == 32 && SWAP4[p] == if p / 4 % 4 == 2 then 'F' else '0'
    ensures |KEEP4| == 32 && KEEP4[p] == if p / 4 % 4 == 0 || p / 4 % 4 == 3 then 'F' else '0'
  {
  }

  lemma Level4(i: nat)
    requires i < 128
    ensures HexBit(SWAP4, i) <==> i / 16 % 4 == 1
    ensures HexBit(KEEP4, i) <==> i / 16 % 4 == 0 || i / 16 % 4 == 3
  {
    hide SWAP4, KEEP4, HexDigit, DigitBit;
    Digits4(31 - i / 4);
    HexDigits();
  }

  lemma Digits5(p: nat)
    requires p < 32
    ensures |SWAP5| == 32 && SWAP5[p] == if p / 8 % 4 == 2 then 'F' else '0'
    ensures |KEEP5| == 32 && KEEP5[p] == if p / 8 % 4 == 0 || p / 8 % 4 == 3 then 'F' else '0'
  {
  }

  lemma Level5(i: nat)
    requires i < 128
    ensures HexBit(SWAP5, i) <==> i / 32 % 4 == 1
    ensures HexBit(KEEP5, i) <==> i / 32 % 4 == 0 || i / 32 % 4 == 3
  {
    hide SWAP5, KEEP5, HexDigit, DigitBit;
    Digits5(31 - i / 4);
    HexDigits();
  }

  /** A level's swap mask marks the positions whose two digits read 01, its keep mask those reading 00 or 11. */
  lemma MaskBits(level: nat, i: nat)
    requires level < 6 && i < 128
    ensures HexBit(SwapMask(level), i) <==> Field(i, level) == 1
    ensures HexBit(KeepMask(level), i) <==> Field(i, level) == 0 || Field(i, level) == 3
  {
    hide HexBit, Pow2, SWAP0, SWAP1, SWAP2, SWAP3, SWAP4, SWAP5, KEEP0, KEEP1, KEEP2, KEEP3, KEEP4, KEEP5;
    Powers();
    match level
    case 0 => Level0(i);
    case 1 => Level1(i);
    case 2 => Level2(i);
    case 3 => Level3(i);
    case 4 => Level4(i);
    case _ => Level5(i);
  }

  // ---- one swap ----

  /** The word the loops compute from r at a level: kept bits, bits moved down, bits moved up. */
  function Step(r: Word, K: Word, M: Word, S: nat): (q: Word)
    ensures |q| == |r|
  {
    Xor(Xor(And(r, K), And(Shr(r, S), M)), Shl(And(r, M), S))
  }

  function LevelStep(r: Word, level: nat): (q: Word)
    ensures |q| == |r|
  {
    Step(r, MaskWord(KeepMask(level), |r|), MaskWord(SwapMask(level), |r|), Pow2(level))
  }

  /** A bit position's digits with digits level and level + 1 exchanged. */
  function Swap(b: Word, level: nat): (c: Word)
    ensures |c| == |b|
  {
    if level + 1 < |b| then b[level := b[level + 1]][level + 1 := b[level]] else b
  }

  /** Where a level's step takes position i. */
  function SwapPos(i: nat, level: nat): int {
    if Field(i, level) == 1 then i + Pow2(level) else if Field(i, level) == 2 then i - Pow2(level) else i
  }

  lemma FieldShifts(i: nat, level: nat)
    ensures Field(i + Pow2(level), level) == (Field(i, level) + 1) % 4
    ensures i >= Pow2(level) ==> Field(i - Pow2(level), level) == (Field(i, level) + 3) % 4
    ensures Field(i, level) == 2 ==> i >= Pow2(level)
  {
    hide Pow2;
    var S := Pow2(level);
    QuotientShifts(i, S);
    FieldAround(i / S);
    if i >= S {
      FieldAround(i / S - 1);
    }
  }

  lemma FieldAround(q: nat)
    ensures (q + 1) % 4 == (q % 4 + 1) % 4 && q % 4 == ((q + 1) % 4 + 3) % 4
  {
  }

  /** Bit j of a step, in terms of the masks' meaning. */
  lemma StepBit(r: Word, level: nat, j: nat)
    requires level < 6 && |r| <= 128 && j < |r|
    ensures var S := Pow2(level);
      On(LevelStep(r, level), j) == (
        ((r[j] && (Field(j, level) == 0 || Field(j, level) == 3)) != (On(r, j + S) && Field(j, level) == 1))
        != (On(r, j - S) && j >= S && Field(j - S, level) == 1))
  {
    hide HexBit, SwapMask, KeepMask, Pow2, Field;
    MaskBits(level, j);
    if j >= Pow2(level) {
      MaskBits(level, j - Pow2(level));
    }
  }

  lemma StepAt(r: Word, level: nat, i: nat)
    requires level < 6 && |r| <= 128 && i < |r| && 0 <= SwapPos(i, level) < |r|
    ensures On(LevelStep(r, level), SwapPos(i, level)) == On(r, i)
  {
    hide LevelStep, Pow2, Field;
    var j := SwapPos(i, level);
    FieldShifts(i, level);
    FieldShifts(j, level);
    StepBit(r, level, j);
  }

  /** Those digits are the field, so exchanging them is moving by plus or minus 2^level or not at all. */
  lemma SwapMoves(b: Word, level: nat)
    requires level + 1 < |b|
    ensures Val(Swap(b, level)) == SwapPos(Val(b), level)
  {
    hide Val, Pow2, Upper;
    var c := Swap(b, level);
    SplitAt(b, level);
    SplitAt(c, level);
    assert c[..level] == b[..level] && c[level + 2..] == b[level + 2..];
    UpperSwapped(b, c, level);
    DivModUnique(Val(b), Upper(b, level), Val(b[..level]), Pow2(level));
    MovedValue(Val(b), Val(c), Upper(b, level), Upper(c, level), Val(b[..level]), Pow2(level));
  }

  lemma MovedValue(v: nat, v': nat, k: nat, k': nat, lo: nat, P: nat)
    requires v == k * P + lo && v' == k' * P + lo
    requires k' == k + if k % 4 == 1 then 1 else if k % 4 == 2 then 0 - 1 else 0
    ensures v' == if k % 4 == 1 then v + P else if k % 4 == 2 then v - P else v
  {
    assert (k + 1) * P == k * P + P;
    assert (k - 1) * P == k * P - P;
  }

  /** The value of the digits from level on. */
  function Upper(b: Word, level: nat): nat
    requires level + 1 < |b|
  {
    Bit(b[level]) + 2 * Bit(b[level + 1]) + 4 * Val(b[level + 2..])
  }

  lemma UpperSwapped(b: Word, c: Word, level: nat)
    requires level + 1 < |b| == |c| && c[level] == b[level + 1] && c[level + 1] == b[level] && c[level + 2..] == b[level + 2..]
    ensures Upper(c, level) == Upper(b, level) +
      if Upper(b, level) % 4 == 1 then 1 else if Upper(b, level) % 4 == 2 then 0 - 1 else 0
  {
    hide Val;
  }

  /** Digits level and level + 1 of a value. */
  lemma SplitAt(b: Word, level: nat)
    requires level + 1 < |b|
    ensures Val(b) == Upper(b, level) * Pow2(level) + Val(b[..level])
    ensures Val(b[..level]) < Pow2(level)
  {
    hide Pow2, Val, Bit;
    var lo, x, y, hi := b[..level], b[level], b[level + 1], b[level + 2..];
    assert b == lo + ([x] + ([y] + hi));
    TwoBits(x, y, hi);
    assert Val([x] + ([y] + hi)) == Upper(b, level);
    ValAppend(lo, [x] + ([y] + hi));
    ValBounds(lo);
  }

  lemma TwoBits(x: bool, y: bool, hi: Word)
    ensures Val([x] + ([y] + hi)) == Bit(x) + 2 * Bit(y) + 4 * Val(hi)
  {
    assert ([x] + ([y] + hi))[1..] == [y] + hi && ([y] + hi)[1..] == hi;
  }

  lemma StepSwaps(r: Word, level: nat, b: Word)
    requires level < 6 && |r| <= 128 && level + 1 < |b| && Pow2(|b|) <= |r|
    ensures On(LevelStep(r, level), Val(Swap(b, level))) == On(r, Val(b))
  {
    hide LevelStep, Swap;
    ValBounds(b);
    ValBounds(Swap(b, level));
    SwapMoves(b, level);
    StepAt(r, level, Val(b));
  }

  // ---- moving one digit ----

  /** The digits b with digit s moved up to place t, those between moving down by one. */
  function MoveTo(b: Word, s: nat, t: int): (c: Word)
    ensures |c| == |b|
  {
    if s < t < |b| then b[..s] + b[s + 1..t + 1] + [b[s]] + b[t + 1..] else b
  }

  lemma MoveOn(b: Word, s: nat, t: nat)
    requires s <= t && t + 1 < |b|
    ensures Swap(MoveTo(b, s, t), t) == MoveTo(b, s, t + 1)
    ensures Swap(MoveTo(b, s, t + 1), t) == MoveTo(b, s, t)
  {
    var c, d := MoveTo(b, s, t), MoveTo(b, s, t + 1);
    forall i | 0 <= i < |b|
      ensures Swap(c, t)[i] == d[i] && Swap(d, t)[i] == c[i]
    {
      MovedDigit(b, s, t, i);
      MovedDigit(b, s, t + 1, i);
      MovedDigit(b, s, t, t);
      MovedDigit(b, s, t, t + 1);
      MovedDigit(b, s, t + 1, t);
      MovedDigit(b, s, t + 1, t + 1);
    }
  }

  lemma MovedDigit(b: Word, s: nat, t: nat, i: nat)
    requires s <= t < |b| && i < |b|
    ensures MoveTo(b, s, t)[i] == if i == t then b[s] else if s <= i < t then b[i + 1] else b[i]
  {
  }

  /**
    Bit position by bit position: what was at digits b is now where digit s has moved to place t.
    The digits are those of any position, as long as a block of 2^L positions is not cut short.
   */
  ghost predicate Moved(w: Word, r: Word, s: nat, t: int, L: nat) {
    && |r| == |w|
    && forall b: Word :: L <= |b| && Pow2(|b|) <= |w| ==> MovedAt(w, r, s, t, b)
  }

  ghost predicate MovedAt(w: Word, r: Word, s: nat, t: int, b: Word) {
    On(r, Val(MoveTo(b, s, t))) == On(w, Val(b))
  }

  /** How wide the two functions take the word to be. */
  function Width(w: Word, nbits: int): (n: nat)
    ensures nbits == -1 ==> n == |w|
    ensures nbits >= 0 ==> n == nbits
  {
    if nbits < 0 then |w| else nbits
  }

  /** Digit stride of every bit position moves to the top of its block. */
  method BitDeintl(w: Word, stride: nat, nbits: int) returns (r: Word)
    requires nbits == -1 || 0 <= nbits <= |w|
    requires |w| <= 128
    ensures |r| == |w|
    ensures Moved(w, r, stride, Log2Ceil(Width(w, nbits)) - 1, Log2Ceil(Width(w, nbits)))
  {
    hide Moved, Pow2, And, Xor, Shl, Shr, MaskWord;
    var L := Log2Ceil(Width(w, nbits));
    AtMostSeven(Width(w, nbits));
    r := w;
    NotMoved(w, stride, L);
    var level := stride;
    while level + 1 < L
      invariant level >= stride && |r| == |w|
      invariant Moved(w, r, stride, if level < L then level else L - 1, L)
    {
      MoveStep(w, r, stride, level, L);
      var K, M := MaskWord(KeepMask(level), |r|), MaskWord(SwapMask(level), |r|);
      r := Xor(Xor(And(r, K), And(Shr(r, Pow2(level)), M)), Shl(And(r, M), Pow2(level)));
      level := level + 1;
    }
  }

  lemma AtMostSeven(n: nat)
    requires n <= 128
    ensures Log2Ceil(n) <= 7
  {
    assert Pow2(7) == 128;
    Log2CeilLeast(n, 7);
  }

  lemma NotMoved(w: Word, s: nat, L: nat)
    ensures forall t: int :: t <= s ==> Moved(w, w, s, t, L)
  {
  }

  lemma MoveStep(w: Word, r: Word, s: nat, level: nat, L: nat)
    requires s <= level && level + 1 < L <= 7 && |w| <= 128 && Moved(w, r, s, level, L)
    ensures Moved(w, LevelStep(r, level), s, level + 1, L)
  {
    hide LevelStep, Pow2, MoveTo, Swap;
    forall b: Word | L <= |b| && Pow2(|b|) <= |w|
      ensures MovedAt(w, LevelStep(r, level), s, level + 1, b)
    {
      assert MovedAt(w, r, s, level, b);
      MoveOn(b, s, level);
      StepSwaps(r, level, MoveTo(b, s, level));
    }
  }

  /** The digit at the top of each block moves down to place stride. */
  method BitIntl(w: Word, stride: nat, nbits: int) returns (r: Word)
    requires nbits == -1 || 0 <= nbits <= |w|
    requires |w| <= 128
    ensures |r| == |w|
    ensures Moved(r, w, stride, Log2Ceil(Width(w, nbits)) - 1, Log2Ceil(Width(w, nbits)))
  {
    hide MovedBack, Pow2, And, Xor, Shl, Shr, MaskWord;
    var L := Log2Ceil(Width(w, nbits));
    AtMostSeven(Width(w, nbits));
    r := w;
    StartBack(w, stride, L);
    var level := L - 2;
    while level >= stride
      invariant level <= L - 2 && |r| == |w|
      invariant level >= stride - 1 || (level == L - 2 && L - 1 <= stride)
      invariant MovedBack(w, r, stride, level + 1, L)
    {
      BackStep(w, r, stride, level, L);
      var K, M := MaskWord(KeepMask(level), |r|), MaskWord(SwapMask(level), |r|);
      r := Xor(Xor(And(r, K), And(Shr(r, Pow2(level)), M)), Shl(And(r, M), Pow2(level)));
      level := level - 1;
    }
    EndBack(w, r, stride, level + 1, L);
  }

  /** On the way back: the digit is still at place t. */
  ghost predicate MovedBack(w: Word, r: Word, s: nat, t: int, L: nat) {
    && |r| == |w|
    && forall b: Word :: L <= |b| && Pow2(|b|) <= |w| ==> BackAt(w, r, s, t, L, b)
  }

  ghost predicate BackAt(w: Word, r: Word, s: nat, t: int, L: nat, b: Word) {
    On(r, Val(MoveTo(b, s, t))) == On(w, Val(MoveTo(b, s, L - 1)))
  }

  lemma StartBack(w: Word, s: nat, L: nat)
    ensures MovedBack(w, w, s, L - 1, L)
  {
  }

  lemma EndBack(w: Word, r: Word, s: nat, t: int, L: nat)
    requires MovedBack(w, r, s, t, L) && t <= s
    ensures Moved(r, w, s, L - 1, L)
  {
    forall b: Word | L <= |b| && Pow2(|b|) <= |w|
      ensures MovedAt(r, w, s, L - 1, b)
    {
      assert BackAt(w, r, s, t, L, b);
    }
  }

  lemma BackStep(w: Word, r: Word, s: nat, level: nat, L: nat)
    requires s <= level && level + 1 < L <= 7 && |w| <= 128 && MovedBack(w, r, s, level + 1, L)
    ensures MovedBack(w, LevelStep(r, level), s, level, L)
  {
    hide LevelStep, Pow2, BackAt;
    forall b: Word | L <= |b| && Pow2(|b|) <= |w|
      ensures BackAt(w, LevelStep(r, level), s, level, L, b)
    {
      assert BackAt(w, r, s, level + 1, L, b);
      BackAtStep(w, r, s, level, L, b);
    }
  }

  lemma BackAtStep(w: Word, r: Word, s: nat, level: nat, L: nat, b: Word)
    requires s <= level && level + 1 < L <= 7 && |w| == |r| <= 128 && L <= |b| && Pow2(|b|) <= |w|
    requires BackAt(w, r, s, level + 1, L, b)
    ensures BackAt(w, LevelStep(r, level), s, level, L, b)
  {
    hide LevelStep, Pow2, MoveTo, Swap;
    MoveOn(b, s, level);
    StepSwaps(r, level, MoveTo(b, s, level + 1));
  }

  // ---- each undoes the other ----

  lemma IntlUndoesDeintl(w: Word, d: Word, r: Word, s: nat, t: int, L: nat, e: nat)
    requires |w| == Pow2(e) && L <= e && Moved(w, d, s, t, L) && Moved(r, d, s, t, L)
    ensures r == w
  {
    hide MoveTo;
    forall i | 0 <= i < |w|
      ensures r[i] == w[i]
    {
      var b := Digits(i, e);
      DigitsVal(i, e);
      assert MovedAt(w, d, s, t, b) && MovedAt(r, d, s, t, b);
    }
  }

  /** The digits b with digit t moved down to place s. */
  function MoveBack(b: Word, s: nat, t: int): (c: Word)
    ensures |c| == |b|
  {
    if s < t < |b| then b[..s] + [b[t]] + b[s..t] + b[t + 1..] else b
  }

  lemma MoveUpAgain(c: Word, s: nat, t: int)
    ensures MoveTo(MoveBack(c, s, t), s, t) == c
  {
    if s < t < |c| {
      Rotated(c[..s], c[t], c[s..t], c[t + 1..]);
      assert c[..s] + c[s..t] + [c[t]] + c[t + 1..] == c;
    }
  }

  lemma Rotated(a: Word, x: bool, m: Word, z: Word)
    ensures var b, t := a + [x] + m + z, |a| + |m|;
      |b| > t && b[..|a|] == a && b[|a|] == x && b[|a| + 1..t + 1] == m && b[t + 1..] == z
  {
  }

  lemma DeintlUndoesIntl(w: Word, d: Word, r: Word, s: nat, t: int, L: nat, e: nat)
    requires |w| == Pow2(e) && L <= e && Moved(d, w, s, t, L) && Moved(d, r, s, t, L)
    ensures r == w
  {
    hide MoveTo, MoveBack, Val;
    forall i | 0 <= i < |w|
      ensures r[i] == w[i]
    {
      DigitsVal(i, e);
      var b := MoveBack(Digits(i, e), s, t);
      MoveUpAgain(Digits(i, e), s, t);
      assert MovedAt(d, w, s, t, b) && MovedAt(d, r, s, t, b);
    }
  }

  /** So interleaving after de-interleaving is the identity, for every word, stride and width. */
  method RoundTrip(w: Word, stride: nat, nbits: int, ghost e: nat) returns (r: Word, q: Word)
    requires |w| == Pow2(e) <= 128 && (nbits == -1 || 0 <= nbits <= |w|)
    ensures r == w && q == w
  {
    hide Moved, Pow2, Log2Ceil;
    var d := BitDeintl(w, stride, nbits);
    r := BitIntl(d, stride, nbits);
    var i := BitIntl(w, stride, nbits);
    q := BitDeintl(i, stride, nbits);
    ghost var L := Log2Ceil(Width(w, nbits));
    ghost var t: int := L as int - 1;
    Log2CeilLeast(Width(w, nbits), e);
    IntlUndoesDeintl(w, d, r, stride, t, L, e);
    DeintlUndoesIntl(w, i, q, stride, t, L, e);
  }
}
