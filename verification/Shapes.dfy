/**
  Shapes, strides and row-major positions: the n-dimensional index that stands at a position, the
  buffer offset of an index, and the loops that compute both.
 */
module Shapes {
  import opened Arith

  type Shape = seq<nat>
  type Strides = seq<int>
  type Index = seq<int>

  function Numel(s: Shape): nat {
    if s == [] then 1 else Numel(s[..|s| - 1]) * s[|s| - 1]
  }

  predicate InBounds(idx: Index, s: Shape) {
    |idx| == |s| && forall k :: 0 <= k < |s| ==> 0 <= idx[k] < s[k]
  }

  /** The row-major position of an index. */
  function Flatten(idx: Index, s: Shape): int
    requires |idx| == |s|
  {
    if s == [] then 0 else Flatten(idx[..|s| - 1], s[..|s| - 1]) * s[|s| - 1] + idx[|s| - 1]
  }

  /** The index that stands at a row-major position. */
  function Unflatten(p: nat, s: Shape): (idx: Index)
    ensures |idx| == |s|
    decreases |s|
  {
    if s == [] then []
    else
      var d := s[|s| - 1];
      if d == 0 then seq(|s|, _ => 0) else Unflatten(p / d, s[..|s| - 1]) + [p % d]
  }

  /** The offset of an index. */
  function Off(idx: Index, st: Strides): int
    requires |idx| == |st|
  {
    if idx == [] then 0 else Off(idx[..|idx| - 1], st[..|idx| - 1]) + idx[|idx| - 1] * st[|idx| - 1]
  }

  /** The offset of a row-major position. */
  function OffAt(s: Shape, st: Strides, p: nat): int
    requires |s| == |st|
  {
    Off(Unflatten(p, s), st)
  }

  // ---- positions and indices ----

  lemma {:induction false} UnflattenRange(p: nat, s: Shape)
    requires p < Numel(s)
    ensures InBounds(Unflatten(p, s), s) && Flatten(Unflatten(p, s), s) == p
    decreases |s|
  {
    hide Numel, Unflatten;
    if s != [] {
      var s', d := s[..|s| - 1], s[|s| - 1];
      LastAxis(s, p);
      UnflattenStep(p, s);
      UnflattenRange(p / d, s');
      DivBelow(p, Numel(s'), d);
    } else {
      EmptyShape(p);
    }
  }

  lemma EmptyShape(p: nat)
    requires p < Numel([])
    ensures p == 0 && Unflatten(p, []) == []
  {
  }

  lemma UnflattenStep(p: nat, s: Shape)
    requires s != [] && s[|s| - 1] > 0
    ensures var n, d := |s| - 1, s[|s| - 1];
      Unflatten(p, s)[..n] == Unflatten(p / d, s[..n]) && Unflatten(p, s)[n] == p % d
  {
  }

  lemma {:induction false} FlattenRange(idx: Index, s: Shape)
    requires InBounds(idx, s)
    ensures 0 <= Flatten(idx, s) < Numel(s) && Unflatten(Flatten(idx, s), s) == idx
  {
    if s != [] {
      var s', d, i := s[..|s| - 1], s[|s| - 1], idx[|s| - 1];
      FlattenRange(idx[..|s| - 1], s');
      TwoDigits(Flatten(idx[..|s| - 1], s'), i, Numel(s'), d);
      assert idx == idx[..|s| - 1] + [i];
    }
  }

  lemma {:induction false} NumelAppend(a: Shape, b: Shape)
    ensures Numel(a + b) == Numel(a) * Numel(b)
  {
    if b == [] {
      assert a + b == a;
    } else {
      NumelAppend(a, b[..|b| - 1]);
      assert (a + b)[..|a + b| - 1] == a + b[..|b| - 1];
      MulAssoc(Numel(a), Numel(b[..|b| - 1]), b[|b| - 1]);
    }
  }

  lemma {:induction false} NumelPositive(s: Shape)
    ensures Numel(s) > 0 <==> forall k :: 0 <= k < |s| ==> s[k] > 0
  {
    if s != [] {
      var s', d := s[..|s| - 1], s[|s| - 1];
      NumelPositive(s');
      assert s == s' + [d];
      if d > 0 {
        MulLe(0, Numel(s'), d);
        if Numel(s') > 0 {
          MulLt(0, Numel(s'), d);
        }
      }
    }
  }

  /** Axes split in two: a position is two coordinates. */
  lemma {:induction false} UnflattenAppend(a: Shape, b: Shape, q: nat, r: nat, p: nat)
    requires r < Numel(b) && p == q * Numel(b) + r
    ensures Unflatten(p, a + b) == Unflatten(q, a) + Unflatten(r, b)
    decreases |b|
  {
    hide Unflatten, Numel;
    if b == [] {
      assert a + b == a;
      EmptyShape(r);
      NoAxes(q);
    } else {
      var b', d, n := b[..|b| - 1], b[|b| - 1], |a + b| - 1;
      LastAxis(b, r);
      SplitPosition(q, Numel(b'), d, r);
      UnflattenAppend(a, b', q, r / d, p / d);
      assert (a + b)[..n] == a + b';
      UnflattenStep(p, a + b);
      UnflattenStep(r, b);
      LastDigitApart(Unflatten(p, a + b), Unflatten(q, a), Unflatten(r, b));
    }
  }

  lemma NoAxes(q: nat)
    ensures q * Numel([]) == q
  {
  }

  lemma LastDigitApart(x: Index, y: Index, z: Index)
    requires |z| > 0 && |x| == |y| + |z| && x[..|x| - 1] == y + z[..|z| - 1] && x[|x| - 1] == z[|z| - 1]
    ensures x == y + z
  {
    assert x == x[..|x| - 1] + [x[|x| - 1]] && z == z[..|z| - 1] + [z[|z| - 1]];
  }

  lemma {:induction false} OffAppend(i: Index, j: Index, si: Strides, sj: Strides)
    requires |i| == |si| && |j| == |sj|
    ensures Off(i + j, si + sj) == Off(i, si) + Off(j, sj)
    decreases |j|
  {
    if j == [] {
      assert i + j == i && si + sj == si;
    } else {
      var n := |i + j| - 1;
      OffAppend(i, j[..|j| - 1], si, sj[..|j| - 1]);
      assert (i + j)[..n] == i + j[..|j| - 1] && (si + sj)[..n] == si + sj[..|j| - 1];
    }
  }

  /** So offsets add. */
  lemma OffAtAppend(a: Shape, b: Shape, sa: Strides, sb: Strides, q: nat, r: nat, p: nat)
    requires |a| == |sa| && |b| == |sb| && r < Numel(b) && p == q * Numel(b) + r
    ensures OffAt(a + b, sa + sb, p) == OffAt(a, sa, q) + OffAt(b, sb, r)
  {
    UnflattenAppend(a, b, q, r, p);
    OffAppend(Unflatten(q, a), Unflatten(r, b), sa, sb);
  }

  /** The last axis steps fastest. */
  lemma OffAtStep(s: Shape, st: Strides, p: nat)
    requires |s| == |st| > 0 && s[|s| - 1] > 0
    ensures OffAt(s, st, p) == OffAt(s[..|s| - 1], st[..|s| - 1], p / s[|s| - 1]) + p % s[|s| - 1] * st[|s| - 1]
  {
    UnflattenStep(p, s);
  }

  lemma LastAxis(s: Shape, p: nat)
    requires s != [] && p < Numel(s)
    ensures s[|s| - 1] > 0 && p / s[|s| - 1] < Numel(s[..|s| - 1])
    ensures Numel(s) == Numel(s[..|s| - 1]) * s[|s| - 1]
  {
    assert s[|s| - 1] > 0;
    DivBelow(p, Numel(s[..|s| - 1]), s[|s| - 1]);
  }

  lemma SplitPosition(q: nat, n: nat, d: nat, r: nat)
    requires d > 0
    ensures q * (n * d) + r >= 0
    ensures (q * (n * d) + r) / d == q * n + r / d && (q * (n * d) + r) % d == r % d
  {
    MulAssoc(q, n, d);
    MulNonNeg(q, n);
    MulNonNeg(q * n, d);
    assert (q * n + r / d) * d == q * n * d + r / d * d;
    DivModUnique(q * (n * d) + r, q * n + r / d, r % d, d);
  }

  /** Axis d one further, the axes behind it back at zero. */
  function Stepped(idx: Index, d: nat): (next: Index)
    ensures |next| == |idx|
  {
    seq(|idx|, k requires 0 <= k < |idx| => if k < d then idx[k] else if k == d then idx[k] + 1 else 0)
  }

  /** That is the index after idx in row-major order, if axis d is the last one not at its end. */
  lemma NextIndex(idx: Index, s: Shape, d: nat)
    requires InBounds(idx, s) && d < |s| && idx[d] + 1 < s[d]
    requires forall k :: d < k < |s| ==> idx[k] == s[k] - 1
    ensures 0 <= Flatten(idx, s) && Flatten(idx, s) + 1 < Numel(s)
    ensures Unflatten(Flatten(idx, s) + 1, s) == Stepped(idx, d)
  {
    hide Flatten, Unflatten, Numel;
    FlattenRange(idx, s);
    FlattenRange(Stepped(idx, d), s);
    SteppedPosition(idx, s, d);
  }

  lemma {:induction false} SteppedPosition(idx: Index, s: Shape, d: nat)
    requires InBounds(idx, s) && d < |s| && forall k :: d < k < |s| ==> idx[k] == s[k] - 1
    ensures Flatten(Stepped(idx, d), s) == Flatten(idx, s) + 1
  {
    var n := |s| - 1;
    if d == n {
      assert Stepped(idx, d)[..n] == idx[..n];
    } else {
      SteppedPosition(idx[..n], s[..n], d);
      assert Stepped(idx, d)[..n] == Stepped(idx[..n], d);
      WrapAround(Flatten(idx[..n], s[..n]), s[n]);
    }
  }

  lemma WrapAround(f: int, d: int)
    ensures (f + 1) * d + 0 == f * d + (d - 1) + 1
  {
  }

  lemma {:induction false} LastIndex(idx: Index, s: Shape)
    requires InBounds(idx, s) && forall k :: 0 <= k < |s| ==> idx[k] == s[k] - 1
    ensures Flatten(idx, s) == Numel(s) - 1
  {
    if s != [] {
      var n := |s| - 1;
      LastIndex(idx[..n], s[..n]);
      assert (Numel(s[..n]) - 1) * s[n] == Numel(s) - s[n];
    }
  }

  lemma {:induction false} FirstIndex(s: Shape)
    ensures Unflatten(0, s) == seq(|s|, _ => 0)
  {
    if s != [] && s[|s| - 1] > 0 {
      FirstIndex(s[..|s| - 1]);
    }
  }

  // ---- the loops ----

  method CheckInBounds(idx: Index, bounds: Shape) returns (ok: bool)
    ensures ok == InBounds(idx, bounds)
  {
    if |idx| != |bounds| {
      return false;
    }
    for k := 0 to |bounds|
      invariant forall j :: 0 <= j < k ==> 0 <= idx[j] < bounds[j]
    {
      if idx[k] < 0 || idx[k] >= bounds[k] {
        return false;
      }
    }
    return true;
  }

  /** The stride of axis k in a compact array. */
  function CompactStride(s: Shape, k: nat): nat
    requires k < |s|
  {
    if s[k] == 1 then 0 else Numel(s[k + 1..])
  }

  lemma {:induction false} NumelFront(s: Shape)
    requires s != []
    ensures Numel(s) == s[0] * Numel(s[1..])
  {
    NumelAppend([s[0]], s[1..]);
    assert s == [s[0]] + s[1..];
    assert [s[0]][..0] == [];
  }

  lemma NumelBehind(s: Shape, k: nat)
    requires k < |s|
    ensures Numel(s[k + 1..]) == if k + 1 == |s| then 1 else Numel(s[k + 2..]) * s[k + 1]
  {
    if k + 1 < |s| {
      NumelFront(s[k + 1..]);
      assert s[k + 1..][1..] == s[k + 2..];
    }
  }

  method MakeCompactStrides(s: Shape) returns (st: Strides)
    ensures |st| == |s| && forall k :: 0 <= k < |s| ==> st[k] == CompactStride(s, k)
  {
    hide Numel;
    var strides := new int[|s|];
    for dim := |s| downto 0
      invariant forall k :: dim <= k < |s| ==> strides[k] == Numel(s[k + 1..])
    {
      NumelBehind(s, dim);
      strides[dim] := if dim + 1 == |s| then 1 else strides[dim + 1] * s[dim + 1];
    }
    for dim := 0 to |s|
      invariant forall k :: 0 <= k < dim ==> strides[k] == CompactStride(s, k)
      invariant forall k :: dim <= k < |s| ==> strides[k] == Numel(s[k + 1..])
    {
      if s[dim] == 1 {
        strides[dim] := 0;
      }
    }
    st := strides[..];
  }

  method FlattenIndex(idx: Index, s: Shape) returns (p: int)
    requires |idx| == |s|
    ensures p == Flatten(idx, s)
  {
    p := 0;
    var stride := 1;
    assert idx[..|idx|] == idx && s[..|s|] == s;
    for k := |idx| downto 0
      invariant p + stride * Flatten(idx[..k], s[..k]) == Flatten(idx, s)
    {
      assert idx[..k + 1][..k] == idx[..k] && s[..k + 1][..k] == s[..k];
      Distribute(stride, Flatten(idx[..k], s[..k]), s[k], idx[k]);
      p := p + idx[k] * stride;
      stride := stride * s[k];
    }
  }

  lemma Distribute(a: int, f: int, d: int, i: int)
    ensures a * (f * d + i) == i * a + a * d * f
  {
    assert a * (f * d) == a * d * f;
  }

  method UnflattenIndex(p: nat, s: Shape) returns (idx: Index)
    requires forall k :: 0 <= k < |s| ==> s[k] > 0
    ensures idx == Unflatten(p, s)
  {
    var a := new int[|s|];
    var rest := p;
    assert s[..|s|] == s && a[|s|..] == [];
    for k := |s| downto 0
      invariant rest >= 0 && Unflatten(rest, s[..k]) + a[k..] == Unflatten(p, s)
    {
      assert s[..k + 1][..k] == s[..k];
      a[k] := rest % s[k];
      rest := rest / s[k];
    }
    idx := a[..];
  }

  /** With strides left empty, those of a compact array. */
  method CalcFlattenOffset(idx: Index, s: Shape, st: Strides) returns (off: int)
    requires |idx| == |s| && (|st| == |s| || st == [])
    ensures |st| == |s| ==> off == Off(idx, st)
    ensures st == [] != s ==> off == Off(idx, seq(|s|, k requires 0 <= k < |s| => CompactStride(s, k)))
    decreases st == []
  {
    if s != [] && st == [] {
      var compact := MakeCompactStrides(s);
      assert compact == seq(|s|, k requires 0 <= k < |s| => CompactStride(s, k));
      off := CalcFlattenOffset(idx, s, compact);
      return;
    }
    off := 0;
    assert idx[..|idx|] == idx && st[..|st|] == st;
    for k := |idx| downto 0
      invariant off + Off(idx[..k], st[..k]) == Off(idx, st)
    {
      assert idx[..k + 1][..k] == idx[..k] && st[..k + 1][..k] == st[..k];
      off := off + idx[k] * st[k];
    }
  }

  /** Steps to the next index in row-major order, unless it is the last. */
  method BumpIndices(s: Shape, idx: array<int>) returns (ok: bool)
    requires InBounds(idx[..], s)
    modifies idx
    ensures ok <==> Flatten(old(idx[..]), s) + 1 < Numel(s)
    ensures ok ==> 0 <= Flatten(old(idx[..]), s) && idx[..] == Unflatten(Flatten(old(idx[..]), s) + 1, s)
    ensures !ok ==> idx[..] == old(idx[..])
  {
    ghost var was := idx[..];
    FlattenRange(was, s);
    var d := idx.Length - 1;
    while d >= 0
      invariant -1 <= d < idx.Length && idx[..] == was
      invariant forall k :: d < k < |s| ==> was[k] == s[k] - 1
    {
      if idx[d] + 1 < s[d] {
        NextIndex(was, s, d);
        idx[d] := idx[d] + 1;
        for k := d + 1 to idx.Length
          invariant idx[..d] == was[..d] && idx[d] == was[d] + 1
          invariant forall j :: d < j < k ==> idx[j] == 0
        {
          idx[k] := 0;
        }
        assert idx[..] == Stepped(was, d);
        return true;
      }
      d := d - 1;
    }
    LastIndex(was, s);
    return false;
  }

  lemma CompactIsRowMajor(s: Shape, st: Strides, p: nat)
    requires |st| == |s| && (forall k :: 0 <= k < |s| ==> st[k] == CompactStride(s, k)) && p < Numel(s)
    ensures OffAt(s, st, p) == p
  {
    UnflattenRange(p, s);
    CompactOffset(s, st, Unflatten(p, s));
  }

  /** In a compact array the offset of an index is its position. */
  lemma {:induction false} CompactOffset(s: Shape, st: Strides, idx: Index)
    requires |st| == |s| && (forall k :: 0 <= k < |s| ==> st[k] == CompactStride(s, k)) && InBounds(idx, s)
    ensures Off(idx, st) == Flatten(idx, s)
  {
    CompactPrefix(s, st, idx, |s|);
    assert s[|s|..] == [] && idx[..|s|] == idx && st[..|s|] == st && s[..|s|] == s;
  }

  lemma {:induction false} CompactPrefix(s: Shape, st: Strides, idx: Index, n: nat)
    requires |st| == |s| && (forall k :: 0 <= k < |s| ==> st[k] == CompactStride(s, k)) && InBounds(idx, s) && n <= |s|
    ensures Off(idx[..n], st[..n]) == Flatten(idx[..n], s[..n]) * Numel(s[n..])
  {
    hide CompactStride;
    if n > 0 {
      var k := n - 1;
      CompactPrefix(s, st, idx, k);
      assert idx[..n][..k] == idx[..k] && st[..n][..k] == st[..k] && s[..n][..k] == s[..k];
      NumelFront(s[k..]);
      assert s[k..][1..] == s[n..];
      assert idx[k] * st[k] == idx[k] * Numel(s[n..]) by { StrideOrZero(s, idx, st, k); }
      OneAxis(Flatten(idx[..k], s[..k]), s[k], Numel(s[n..]), idx[k]);
    }
  }

  lemma StrideOrZero(s: Shape, idx: Index, st: Strides, k: nat)
    requires InBounds(idx, s) && k < |s| == |st| && st[k] == CompactStride(s, k)
    ensures idx[k] * st[k] == idx[k] * Numel(s[k + 1..])
  {
  }

  lemma OneAxis(f: int, d: int, n: int, i: int)
    ensures f * (d * n) + i * n == (f * d + i) * n
  {
    MulAssoc(f, d, n);
  }
}
