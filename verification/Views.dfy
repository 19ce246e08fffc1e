/**
  Views of a buffer: shape, strides and the offset of the first element.  What each operation on
  views addresses, and what every view reachable from a compact array keeps: its elements lie in
  the buffer, and two indices share an address only if they differ along axes of stride 0.
 */
module Views {
  import opened Arith
  import opened FiniteSets
  import opened Shapes

  datatype Layout = Layout(shape: Shape, strides: Strides, offset: int) {
    function Addr(idx: Index): int
      requires |idx| == |strides|
    {
      offset + Off(idx, strides)
    }

    /** Every element lies in a buffer of n. */
    ghost predicate InBuffer(n: nat) {
      |shape| == |strides| && forall idx: Index :: InBounds(idx, shape) ==> 0 <= Addr(idx) < n
    }

    /** Indices that differ along some axis of stride other than 0 have different addresses. */
    ghost predicate NoOverlap() {
      |shape| == |strides| && forall i: Index, j: Index ::
        InBounds(i, shape) && InBounds(j, shape) && Addr(i) == Addr(j) ==> AgreeIndex(i, j, strides)
    }

    /** Axes of extent 1 have stride 0. */
    predicate OnesFlat() {
      |shape| == |strides| && forall k :: 0 <= k < |shape| && shape[k] == 1 ==> strides[k] == 0
    }
  }

  predicate AgreeIndex(i: Index, j: Index, st: Strides)
    requires |i| == |j| == |st|
  {
    forall k :: 0 <= k < |st| ==> st[k] == 0 || i[k] == j[k]
  }

  // ---- sums of offsets ----

  /** Changing one coordinate. */
  lemma {:induction false} OffIndexUpdate(idx: Index, st: Strides, k: nat, v: int)
    requires |idx| == |st| && k < |st|
    ensures Off(idx[k := v], st) == Off(idx, st) + (v - idx[k]) * st[k]
    decreases |st|
  {
    var n := |st| - 1;
    if k == n {
      assert idx[k := v][..n] == idx[..n];
      MinusTimes(v, idx[k], st[k]);
    } else {
      assert idx[k := v][..n] == idx[..n][k := v];
      OffIndexUpdate(idx[..n], st[..n], k, v);
    }
  }

  /** Changing one stride. */
  lemma {:induction false} OffStrideUpdate(idx: Index, st: Strides, k: nat, v: int)
    requires |idx| == |st| && k < |st|
    ensures Off(idx, st[k := v]) == Off(idx, st) + idx[k] * (v - st[k])
    decreases |st|
  {
    var n := |st| - 1;
    if k == n {
      assert st[k := v][..n] == st[..n];
      MinusTimes(v, st[k], idx[k]);
    } else {
      assert st[k := v][..n] == st[..n][k := v];
      OffStrideUpdate(idx[..n], st[..n], k, v);
    }
  }

  lemma MinusTimes(x: int, y: int, t: int)
    ensures (x - y) * t == x * t - y * t == t * (x - y)
  {
  }

  /** Offsets that agree axis by axis. */
  lemma {:induction false} OffAxiswise(i: Index, si: Strides, j: Index, sj: Strides, l: Index, sl: Strides)
    requires |i| == |si| == |j| == |sj| == |l| == |sl|
    requires forall k :: 0 <= k < |i| ==> i[k] * si[k] + j[k] * sj[k] == l[k] * sl[k]
    ensures Off(i, si) + Off(j, sj) == Off(l, sl)
    decreases |i|
  {
    if i != [] {
      var n := |i| - 1;
      OffAxiswise(i[..n], si[..n], j[..n], sj[..n], l[..n], sl[..n]);
    }
  }

  // ---- operations ----

  function Fresh(s: Shape): Layout {
    Layout(s, seq(|s|, k requires 0 <= k < |s| => CompactStride(s, k)), 0)
  }

  /** The last index. */
  function LastOf(s: Shape): (idx: Index)
    ensures |idx| == |s| && forall k :: 0 <= k < |s| ==> idx[k] == s[k] as int - 1
  {
    seq(|s|, k requires 0 <= k < |s| => s[k] as int - 1)
  }

  function Positive(x: int): nat {
    if x > 0 then x else 0
  }

  function StepOf(step: Strides, k: nat): int {
    if k < |step| then step[k] else 1
  }

  /** Extent of a sliced axis: end - start values, every step-th of them. */
  function SlicedExtent(start: int, end: int, step: int): nat
    requires step > 0
  {
    var len := Positive(end - start);
    if len == 1 then 1 else len / step + if len % step != 0 then 1 else 0
  }

  ghost predicate SliceChecks(l: Layout, start: Index, end: Index, step: Strides) {
    && |start| == |end| == |l.shape| == |l.strides| && (step == [] || |step| == |l.shape|)
    && forall k :: 0 <= k < |l.shape| ==> end[k] <= l.shape[k]
  }

  function Slice(l: Layout, start: Index, end: Index, step: Strides): Layout
    requires |start| == |end| == |l.shape| == |l.strides| && forall k :: 0 <= k < |step| ==> step[k] > 0
  {
    var n := |l.shape|;
    Layout(
      seq(n, k requires 0 <= k < n => SlicedExtent(start[k], end[k], StepOf(step, k))),
      seq(n, k requires 0 <= k < n => if Positive(end[k] - start[k]) == 1 then 0 else l.strides[k] * StepOf(step, k)),
      l.Addr(start))
  }

  function Transpose(l: Layout, perm: seq<nat>): Layout
    requires |perm| == |l.shape| == |l.strides| && forall k :: 0 <= k < |perm| ==> perm[k] < |perm|
  {
    Layout(seq(|perm|, k requires 0 <= k < |perm| => l.shape[perm[k]]),
           seq(|perm|, k requires 0 <= k < |perm| => l.strides[perm[k]]), l.offset)
  }

  /** Flips the axes one after the other. */
  function Reverse(l: Layout, axes: seq<nat>): (r: Layout)
    requires |l.shape| == |l.strides| && forall k :: 0 <= k < |axes| ==> axes[k] < |l.shape|
    ensures r.shape == l.shape && |r.strides| == |l.strides|
  {
    if axes == [] then l
    else
      Flip(l, Reverse(l, axes[..|axes| - 1]), axes[|axes| - 1])
  }

  /** Negates the stride of axis a and starts at the axis's other end. */
  function Flip(l: Layout, r: Layout, a: nat): (f: Layout)
    requires a < |l.shape| == |l.strides| == |r.strides|
    ensures f.shape == l.shape && |f.strides| == |l.strides|
  {
    Layout(l.shape, r.strides[a := 0 - r.strides[a]], r.offset + l.strides[a] * (l.shape[a] as int - 1))
  }

  /** Puts the strides at the given axes of the new shape, stride 0 elsewhere. */
  function Placed(st: Strides, dims: seq<nat>, n: nat): (r: Strides)
    requires |dims| <= |st| && forall k :: 0 <= k < |dims| ==> dims[k] < n
    ensures |r| == n
  {
    if dims == [] then seq(n, _ => 0)
    else Placed(st, dims[..|dims| - 1], n)[dims[|dims| - 1] := st[|dims| - 1]]
  }

  /** Without axes, the last axes are meant. */
  function DimsOf(l: Layout, to: Shape, dims: seq<nat>): (d: seq<nat>)
    requires dims == [] ==> |l.strides| <= |to|
  {
    if dims != [] then dims else seq(|l.strides|, k requires 0 <= k < |l.strides| => |to| - |l.strides| + k)
  }

  function Broadcast(l: Layout, to: Shape, dims: seq<nat>): Layout
    requires (dims == [] ==> |l.strides| <= |to|) && |dims| <= |l.strides|
    requires forall k :: 0 <= k < |dims| ==> dims[k] < |to|
  {
    Layout(to, Placed(l.strides, DimsOf(l, to, dims), |to|), l.offset)
  }

  // ---- what they address ----

  function SliceSource(idx: Index, start: Index, step: Strides): (src: Index)
    requires |idx| == |start|
    ensures |src| == |idx| && forall k :: 0 <= k < |idx| ==> src[k] == start[k] + idx[k] * StepOf(step, k)
  {
    seq(|idx|, k requires 0 <= k < |idx| => start[k] + idx[k] * StepOf(step, k))
  }

  lemma ExtentInside(start: int, end: int, step: int, i: int)
    requires step > 0 && 0 <= i < SlicedExtent(start, end, step)
    ensures start <= start + i * step < end
  {
    var len := Positive(end - start);
    MulNonNeg(i, step);
    if len != 1 {
      var n, q := len / step, len % step;
      assert len == n * step + q;
      if i < n {
        MulLt(i, n, step);
      }
    } else {
      assert i == 0 && i * step == 0;
    }
  }

  /** Everything from start, stepwise, that lies before end is there, and nothing else. */
  lemma ExtentExact(start: int, end: int, step: int, j: nat)
    requires step > 0
    ensures start + j * step < end <==> j < SlicedExtent(start, end, step)
  {
    var len := Positive(end - start);
    MulNonNeg(j, step);
    if j < SlicedExtent(start, end, step) {
      ExtentInside(start, end, step, j);
    } else if len == 1 {
      MulLe(1, j, step);
    } else {
      CeilingReached(len, step, j);
    }
  }

  lemma CeilingReached(len: nat, step: int, j: nat)
    requires step > 0 && j >= len / step + if len % step != 0 then 1 else 0
    ensures j * step >= len
  {
    var n, q := len / step, len % step;
    assert len == n * step + q;
    MulLe(if q != 0 then n + 1 else n, j, step);
    assert (n + 1) * step == n * step + step;
  }

  /** A slice has all of its elements; along an axis of a single one it does not step. */
  lemma SliceHasAll(l: Layout, start: Index, end: Index, step: Strides, k: nat, j: nat)
    requires SliceChecks(l, start, end, step) && (forall i :: 0 <= i < |step| ==> step[i] > 0) && k < |start|
    ensures var r := Slice(l, start, end, step);
      |r.shape| == |r.strides| == |start|
      && (start[k] + j * (if step == [] then 1 else step[k]) < end[k] <==> j < r.shape[k])
      && (end[k] == start[k] + 1 ==> r.shape[k] == 1 && r.strides[k] == 0)
  {
    ExtentExact(start[k], end[k], StepOf(step, k), j);
  }

  /** Element idx of a slice is element start + idx * step of the array. */
  lemma SliceAddr(l: Layout, start: Index, end: Index, step: Strides, idx: Index)
    requires SliceChecks(l, start, end, step) && (forall k :: 0 <= k < |step| ==> step[k] > 0)
    requires InBounds(idx, Slice(l, start, end, step).shape)
    ensures Slice(l, start, end, step).Addr(idx) == l.Addr(SliceSource(idx, start, step))
    ensures forall k :: 0 <= k < |idx| ==> start[k] <= SliceSource(idx, start, step)[k] < end[k]
    ensures (forall k :: 0 <= k < |start| ==> start[k] >= 0) ==> InBounds(SliceSource(idx, start, step), l.shape)
  {
    var r, src := Slice(l, start, end, step), SliceSource(idx, start, step);
    forall k | 0 <= k < |idx|
      ensures start[k] * l.strides[k] + idx[k] * r.strides[k] == src[k] * l.strides[k] && start[k] <= src[k] < end[k]
    {
      ExtentInside(start[k], end[k], StepOf(step, k), idx[k]);
      AxisTerms(start[k], idx[k], StepOf(step, k), l.strides[k], r.strides[k]);
    }
    OffAxiswise(start, l.strides, idx, r.strides, src, l.strides);
  }

  /** A slice that has elements takes all of them from the array if and only if no axis starts below 0. */
  lemma SliceExact(l: Layout, start: Index, end: Index, step: Strides)
    requires SliceChecks(l, start, end, step) && (forall k :: 0 <= k < |step| ==> step[k] > 0)
    requires Numel(Slice(l, start, end, step).shape) > 0
    ensures (forall k :: 0 <= k < |start| ==> start[k] >= 0) <==>
      forall idx: Index :: InBounds(idx, Slice(l, start, end, step).shape) ==> InBounds(SliceSource(idx, start, step), l.shape)
  {
    hide Off, Layout.Addr, Numel, SlicedExtent;
    var s := Slice(l, start, end, step).shape;
    NumelPositive(s);
    forall idx: Index | InBounds(idx, s)
      ensures (forall k :: 0 <= k < |start| ==> start[k] >= 0) ==> InBounds(SliceSource(idx, start, step), l.shape)
    {
      SliceAddr(l, start, end, step, idx);
    }
    var z: Index := seq(|start|, _ => 0);
    assert InBounds(z, s) && SliceSource(z, start, step) == start;
  }

  lemma AxisTerms(a: int, i: int, step: int, st: int, r: int)
    requires r == st * step || (r == 0 && i == 0)
    ensures a * st + i * r == (a + i * step) * st
  {
    if r == st * step {
      MulAssoc(i, step, st);
      assert i * (st * step) == i * step * st;
    }
  }

  /** The coordinate of the array that lands on axis k is coordinate perm[k]. */
  ghost predicate TransposeSource(src: Index, idx: Index, perm: seq<nat>) {
    |src| == |idx| == |perm| && forall k :: 0 <= k < |perm| ==> perm[k] < |src| && src[perm[k]] == idx[k]
  }

  lemma OffNext(idx: Index, st: Strides, n: nat)
    requires n < |idx| == |st|
    ensures Off(idx[..n + 1], st[..n + 1]) == Off(idx[..n], st[..n]) + idx[n] * st[n]
  {
    assert idx[..n + 1][..n] == idx[..n] && st[..n + 1][..n] == st[..n];
  }

  /** Element idx of a transposed array is the element whose coordinates idx permutes. */
  lemma TransposeAddr(l: Layout, perm: seq<nat>, idx: Index) returns (src: Index)
    requires |perm| == |l.shape| == |l.strides| && Distinct(perm) && forall k :: 0 <= k < |perm| ==> perm[k] < |perm|
    requires InBounds(idx, Transpose(l, perm).shape)
    ensures TransposeSource(src, idx, perm) && InBounds(src, l.shape)
    ensures Transpose(l, perm).Addr(idx) == l.Addr(src)
  {
    hide Off;
    var r := Transpose(l, perm);
    src := seq(|perm|, _ => 0);
    OffZeros(src, l.strides);
    OffZeros(idx[..0], r.strides[..0]);
    var n := 0;
    while n < |perm|
      invariant 0 <= n <= |perm| == |src|
      invariant forall k :: 0 <= k < n ==> src[perm[k]] == idx[k]
      invariant forall j :: 0 <= j < |perm| && j !in perm[..n] ==> src[j] == 0
      invariant Off(src, l.strides) == Off(idx[..n], r.strides[..n])
    {
      assert perm[n] !in perm[..n];
      OffIndexUpdate(src, l.strides, perm[n], idx[n]);
      src := src[perm[n] := idx[n]];
      OffNext(idx, r.strides, n);
      assert perm[..n + 1] == perm[..n] + [perm[n]];
      n := n + 1;
    }
    assert idx[..n] == idx && r.strides[..n] == r.strides && perm[..n] == perm;
    DistinctIsOnto(perm, |perm|);
    forall j | 0 <= j < |perm|
      ensures 0 <= src[j] < l.shape[j]
    {
      assert j in perm;
      var k :| 0 <= k < |perm| && perm[k] == j;
      assert r.shape[k] == l.shape[j];
    }
  }

  lemma {:induction false} OffZeros(idx: Index, st: Strides)
    requires |idx| == |st| && forall k :: 0 <= k < |idx| ==> idx[k] == 0
    ensures Off(idx, st) == 0
    decreases |idx|
  {
    if idx != [] {
      OffZeros(idx[..|idx| - 1], st[..|idx| - 1]);
    }
  }

  /** Coordinates counted from the other end along the given axes. */
  function Mirrored(idx: Index, s: Shape, axes: seq<nat>): (src: Index)
    requires |idx| == |s|
    ensures |src| == |idx|
    ensures forall k :: 0 <= k < |idx| ==> src[k] == if k in axes then s[k] - 1 - idx[k] else idx[k]
  {
    seq(|idx|, k requires 0 <= k < |idx| => if k in axes then s[k] - 1 - idx[k] else idx[k])
  }

  /** How often an axis is named. */
  function Named(axes: seq<nat>, k: nat): (m: nat)
    ensures m > 0 <==> k in axes
  {
    if axes == [] then 0
    else
      var n := |axes| - 1;
      assert axes == axes[..n] + [axes[n]];
      Named(axes[..n], k) + if axes[n] == k then 1 else 0
  }

  /** Where m flips in one call take coordinate i of an axis of extent s. */
  function Flipped(i: int, s: int, m: nat): int {
    m * (s - 1) + if m % 2 == 0 then i else 0 - i
  }

  function FlippedIndex(idx: Index, s: Shape, axes: seq<nat>): (src: Index)
    requires |idx| == |s|
    ensures |src| == |idx|
    ensures forall k :: 0 <= k < |idx| ==> src[k] == Flipped(idx[k], s[k], Named(axes, k))
  {
    seq(|idx|, k requires 0 <= k < |idx| => Flipped(idx[k], s[k], Named(axes, k)))
  }

  /** What reverse computes for any list of axes: every flip counts, inside the array or not. */
  lemma {:induction false} ReverseLands(l: Layout, axes: seq<nat>, idx: Index)
    requires |l.shape| == |l.strides| == |idx| && forall k :: 0 <= k < |axes| ==> axes[k] < |l.shape|
    ensures Reverse(l, axes).Addr(idx) == l.Addr(FlippedIndex(idx, l.shape, axes))
    ensures forall k :: 0 <= k < |l.shape| ==> Reverse(l, axes).strides[k] == Directed(l.strides[k], Named(axes, k))
  {
    hide Off;
    if axes == [] {
      assert FlippedIndex(idx, l.shape, axes) == idx;
    } else {
      ReverseLands(l, axes[..|axes| - 1], idx);
      FlipLands(l, axes, idx, Reverse(l, axes[..|axes| - 1]), FlippedIndex(idx, l.shape, axes[..|axes| - 1]));
    }
  }

  lemma FlipLands(l: Layout, axes: seq<nat>, idx: Index, r: Layout, src: Index)
    requires |l.shape| == |l.strides| == |idx| && axes != [] && forall k :: 0 <= k < |axes| ==> axes[k] < |l.shape|
    requires r == Reverse(l, axes[..|axes| - 1]) && src == FlippedIndex(idx, l.shape, axes[..|axes| - 1])
    requires r.Addr(idx) == l.Addr(src)
    requires forall k :: 0 <= k < |l.shape| ==> r.strides[k] == Directed(l.strides[k], Named(axes[..|axes| - 1], k))
    ensures Reverse(l, axes).Addr(idx) == l.Addr(FlippedIndex(idx, l.shape, axes))
    ensures forall k :: 0 <= k < |l.shape| ==> Reverse(l, axes).strides[k] == Directed(l.strides[k], Named(axes, k))
  {
    hide Off, Reverse, Flipped, FlippedIndex, Directed;
    var n := |axes| - 1;
    var a, m := axes[n], Named(axes[..n], axes[n]);
    var shift := Shift(idx[a], l.shape[a], m);
    assert Reverse(l, axes) == Flip(l, r, a) by { ReverseUnfold(l, axes); }
    DirectedNext(l.strides[a], m);
    OffStrideUpdate(idx, r.strides, a, 0 - r.strides[a]);
    OffIndexUpdate(src, l.strides, a, src[a] + shift);
    assert FlippedIndex(idx, l.shape, axes) == src[a := src[a] + shift] by { FlippedNext(idx, l.shape, axes); }
    FlipTerms(idx[a], l.strides[a], l.shape[a], m);
  }

  /** A stride after m flips. */
  function Directed(t: int, m: nat): int {
    if m % 2 == 0 then t else 0 - t
  }

  lemma DirectedNext(t: int, m: nat)
    ensures Directed(t, m + 1) == 0 - Directed(t, m)
  {
  }

  /** How far one more flip moves a coordinate. */
  function Shift(i: int, s: int, m: nat): int {
    s - 1 + if m % 2 == 0 then 0 - 2 * i else 2 * i
  }

  lemma FlippedNext(idx: Index, s: Shape, axes: seq<nat>)
    requires |idx| == |s| && axes != [] && axes[|axes| - 1] < |s|
    ensures var a, src := axes[|axes| - 1], FlippedIndex(idx, s, axes[..|axes| - 1]);
      FlippedIndex(idx, s, axes) == src[a := src[a] + Shift(idx[a], s[a], Named(axes[..|axes| - 1], a))]
  {
    hide Flipped, Shift;
    var a := axes[|axes| - 1];
    FlippedOnceMore(idx[a], s[a], Named(axes[..|axes| - 1], a));
  }

  lemma FlippedOnceMore(i: int, s: int, m: nat)
    ensures Flipped(i, s, m + 1) == Flipped(i, s, m) + Shift(i, s, m)
  {
    assert (m + 1) * (s - 1) == m * (s - 1) + (s - 1);
  }

  lemma FlipTerms(i: int, t: int, s: int, m: nat)
    ensures i * (0 - Directed(t, m) - Directed(t, m)) + t * (s - 1) == Shift(i, s, m) * t
  {
    if m % 2 == 0 {
      assert i * (0 - t - t) + t * (s - 1) == (s - 1 - 2 * i) * t;
    } else {
      assert i * (t + t) + t * (s - 1) == (s - 1 + 2 * i) * t;
    }
  }

  lemma ReverseUnfold(l: Layout, axes: seq<nat>)
    requires |l.shape| == |l.strides| && axes != [] && forall k :: 0 <= k < |axes| ==> axes[k] < |l.shape|
    ensures Reverse(l, axes) == Flip(l, Reverse(l, axes[..|axes| - 1]), axes[|axes| - 1])
  {
    hide Flip;
  }

  /** How far the flips beyond an axis's first one move the view, in coordinates. */
  function Surplus(s: Shape, axes: seq<nat>): (d: Index)
    ensures |d| == |s|
    ensures forall k :: 0 <= k < |s| ==> d[k] == if Named(axes, k) == 0 then 0 else (Named(axes, k) - 1) * (s[k] as int - 1)
  {
    seq(|s|, k requires 0 <= k < |s| => if Named(axes, k) == 0 then 0 else (Named(axes, k) - 1) * (s[k] as int - 1))
  }

  /** Named an even number of times, an axis keeps its direction. */
  predicate KeepsDirection(axes: seq<nat>, k: nat) {
    Named(axes, k) > 0 && Named(axes, k) % 2 == 0
  }

  /** Axes that keep their direction do not matter, and the flips too many cancel out. */
  predicate MirrorsOnly(l: Layout, axes: seq<nat>) {
    && |l.shape| == |l.strides|
    && (forall k :: 0 <= k < |l.shape| && KeepsDirection(axes, k) ==> l.shape[k] == 1 || l.strides[k] == 0)
    && Off(Surplus(l.shape, axes), l.strides) == 0
  }

  /** The difference between where a coordinate is taken and its mirror image. */
  function Extra(idx: Index, s: Shape, axes: seq<nat>): (d: Index)
    requires |idx| == |s|
    ensures |d| == |s|
    ensures forall k :: 0 <= k < |s| ==> d[k] == Surplus(s, axes)[k] + if KeepsDirection(axes, k) then 2 * idx[k] else 0
  {
    seq(|s|, k requires 0 <= k < |s| => Surplus(s, axes)[k] + if KeepsDirection(axes, k) then 2 * idx[k] else 0)
  }

  lemma ReverseGap(l: Layout, axes: seq<nat>, idx: Index)
    requires |l.shape| == |l.strides| == |idx| && forall k :: 0 <= k < |axes| ==> axes[k] < |l.shape|
    ensures Reverse(l, axes).Addr(idx) == l.Addr(Mirrored(idx, l.shape, axes)) + Off(Extra(idx, l.shape, axes), l.strides)
  {
    hide Off, Reverse;
    var src, m, d := FlippedIndex(idx, l.shape, axes), Mirrored(idx, l.shape, axes), Extra(idx, l.shape, axes);
    ReverseLands(l, axes, idx);
    forall k | 0 <= k < |idx|
      ensures m[k] * l.strides[k] + d[k] * l.strides[k] == src[k] * l.strides[k]
    {
      ExtraOf(idx[k], l.shape[k], Named(axes, k));
      MulAdd(m[k], d[k], l.strides[k]);
    }
    OffAxiswise(m, l.strides, d, l.strides, src, l.strides);
  }

  lemma ExtraOf(i: int, s: int, m: nat)
    ensures Flipped(i, s, m) == (if m > 0 then s - 1 - i else i) + (if m > 0 then (m - 1) * (s - 1) else 0)
      + if m > 0 && m % 2 == 0 then 2 * i else 0
  {
    assert m > 0 ==> m * (s - 1) == (m - 1) * (s - 1) + (s - 1);
  }

  lemma MulAdd(x: int, y: int, t: int)
    ensures (x + y) * t == x * t + y * t
  {
  }

  /** Reversing mirrors the index along the named axes, and inside the array, if it only mirrors. */
  lemma ReverseAddr(l: Layout, axes: seq<nat>, idx: Index)
    requires MirrorsOnly(l, axes) && InBounds(idx, l.shape) && forall k :: 0 <= k < |axes| ==> axes[k] < |l.shape|
    ensures Reverse(l, axes).Addr(idx) == l.Addr(Mirrored(idx, l.shape, axes))
    ensures InBounds(Mirrored(idx, l.shape, axes), l.shape)
  {
    hide Off, Reverse, Named;
    var d, u, z := Extra(idx, l.shape, axes), Surplus(l.shape, axes), seq(|idx|, _ => 0);
    ReverseGap(l, axes, idx);
    forall k | 0 <= k < |idx|
      ensures d[k] * l.strides[k] + z[k] * l.strides[k] == u[k] * l.strides[k]
    {
      assert l.strides[k] == 0 || d[k] == u[k];
    }
    OffAxiswise(d, l.strides, z, l.strides, u, l.strides);
    OffZeros(z, l.strides);
  }

  ghost predicate ReverseRight(l: Layout, axes: seq<nat>, idx: Index)
    requires |l.shape| == |l.strides| == |idx| && forall k :: 0 <= k < |axes| ==> axes[k] < |l.shape|
  {
    Reverse(l, axes).Addr(idx) == l.Addr(Mirrored(idx, l.shape, axes))
  }

  /** Exactly then: otherwise some element is looked up at an address that is not its mirror image's. */
  lemma ReverseExact(l: Layout, axes: seq<nat>)
    requires |l.shape| == |l.strides| && Numel(l.shape) > 0 && forall k :: 0 <= k < |axes| ==> axes[k] < |l.shape|
    ensures MirrorsOnly(l, axes) <==> forall idx: Index :: InBounds(idx, l.shape) ==> ReverseRight(l, axes, idx)
  {
    hide Off, Reverse, Named, Mirrored, Surplus, Extra, Numel;
    if MirrorsOnly(l, axes) {
      forall idx: Index | InBounds(idx, l.shape)
        ensures ReverseRight(l, axes, idx)
      {
        ReverseAddr(l, axes, idx);
      }
    }
    if forall idx: Index :: InBounds(idx, l.shape) ==> ReverseRight(l, axes, idx) {
      var z: Index, u := seq(|l.shape|, _ => 0), Surplus(l.shape, axes);
      NumelPositive(l.shape);
      assert InBounds(z, l.shape) && ReverseRight(l, axes, z);
      ReverseGap(l, axes, z);
      assert Extra(z, l.shape, axes) == u;
      forall k | 0 <= k < |l.shape| && KeepsDirection(axes, k) && l.shape[k] != 1
        ensures l.strides[k] == 0
      {
        var one := z[k := 1];
        assert InBounds(one, l.shape) && ReverseRight(l, axes, one);
        ReverseGap(l, axes, one);
        assert Extra(one, l.shape, axes) == u[k := u[k] + 2];
        OffIndexUpdate(u, l.strides, k, u[k] + 2);
      }
    }
  }

  /** Distinct axes only mirror. */
  lemma DistinctMirrors(l: Layout, axes: seq<nat>)
    requires |l.shape| == |l.strides| && Distinct(axes)
    ensures MirrorsOnly(l, axes)
  {
    hide Off, Named, Distinct;
    var u := Surplus(l.shape, axes);
    forall k | 0 <= k < |l.shape|
      ensures Named(axes, k) <= 1 && u[k] == 0
    {
      NamedOnce(axes, k);
    }
    OffZeros(u, l.strides);
  }

  lemma {:induction false} NamedOnce(axes: seq<nat>, k: nat)
    requires Distinct(axes)
    ensures Named(axes, k) <= 1
  {
    if axes != [] {
      NamedOnce(axes[..|axes| - 1], k);
    }
  }

  /** Offsets of coordinates that are at least as large along axes that step forward. */
  lemma {:induction false} OffGrows(i: Index, j: Index, st: Strides)
    requires |i| == |j| == |st| && forall k :: 0 <= k < |st| ==> st[k] >= 0 && i[k] <= j[k]
    ensures Off(i, st) <= Off(j, st)
    ensures (exists k :: 0 <= k < |st| && st[k] > 0 && i[k] < j[k]) ==> Off(i, st) < Off(j, st)
    decreases |st|
  {
    if st != [] {
      var n := |st| - 1;
      OffGrows(i[..n], j[..n], st[..n]);
      MulLeLeft(st[n], i[n], j[n]);
      if k :| 0 <= k < |st| && st[k] > 0 && i[k] < j[k] {
        if k == n {
          MulLt(i[n], j[n], st[n]);
        } else {
          assert st[..n][k] > 0 && i[..n][k] < j[..n][k];
        }
      }
    }
  }

  /** Every axis named more than once has extent 1. */
  predicate RepeatsAreThin(s: Shape, axes: seq<nat>) {
    forall k :: 0 <= k < |s| && Named(axes, k) >= 2 ==> s[k] == 1
  }

  /** On a compact array reversing only mirrors if and only if axes that are repeated have extent 1. */
  lemma ReverseCompact(s: Shape, axes: seq<nat>)
    requires Numel(s) > 0
    ensures MirrorsOnly(Fresh(s), axes) <==> RepeatsAreThin(s, axes)
  {
    hide Off, Named, Numel, MirrorsOnly, RepeatsAreThin, CompactStride;
    CompactSteps(s);
    ForwardMirrors(Fresh(s), axes);
  }

  /** Along each axis that has more than one element the view steps forward. */
  predicate StepsForward(l: Layout) {
    && |l.shape| == |l.strides|
    && forall k :: 0 <= k < |l.shape| ==> l.shape[k] >= 1 && l.strides[k] >= 0 && (l.shape[k] != 1 ==> l.strides[k] > 0)
  }

  lemma ForwardMirrors(l: Layout, axes: seq<nat>)
    requires StepsForward(l)
    ensures MirrorsOnly(l, axes) <==> RepeatsAreThin(l.shape, axes)
  {
    hide Off, Named, Surplus;
    var u, z: Index := Surplus(l.shape, axes), seq(|l.shape|, _ => 0);
    OffZeros(z, l.strides);
    SurplusSigns(l.shape, axes);
    if RepeatsAreThin(l.shape, axes) {
      OffZeros(u, l.strides);
    } else {
      OffGrows(z, u, l.strides);
    }
  }

  lemma SurplusSigns(s: Shape, axes: seq<nat>)
    requires forall k :: 0 <= k < |s| ==> s[k] >= 1
    ensures var u := Surplus(s, axes);
      |u| == |s| && forall k :: 0 <= k < |s| ==> u[k] >= 0 && (u[k] > 0 <==> Named(axes, k) >= 2 && s[k] != 1)
  {
    hide Named;
    forall k | 0 <= k < |s|
      ensures Surplus(s, axes)[k] >= 0 && (Surplus(s, axes)[k] > 0 <==> Named(axes, k) >= 2 && s[k] != 1)
    {
      SurplusSign(s[k], Named(axes, k));
    }
  }

  lemma SurplusSign(s: nat, m: nat)
    requires s >= 1
    ensures m >= 1 ==> (m - 1) * (s - 1) >= 0 && ((m - 1) * (s - 1) > 0 <==> m >= 2 && s != 1)
  {
    if m >= 2 && s != 1 {
      MulLe(1, m - 1, s - 1);
    }
  }

  /** In a compact array that has elements every axis of extent other than 1 steps forward. */
  lemma CompactSteps(s: Shape)
    requires Numel(s) > 0
    ensures StepsForward(Fresh(s))
  {
    hide Numel;
    NumelPositive(s);
    forall k | 0 <= k < |s|
      ensures s[k] == 1 || CompactStride(s, k) > 0
    {
      NumelPositive(s[k + 1..]);
    }
  }

  /** The source of a broadcast element: along an axis of extent 1, coordinate 0. */
  function BroadcastSource(idx: Index, s: Shape, d: seq<nat>): (src: Index)
    requires |d| == |s| && forall k :: 0 <= k < |d| ==> d[k] < |idx|
    ensures |src| == |s|
    ensures forall k :: 0 <= k < |s| ==> src[k] == if s[k] == 1 then 0 else idx[d[k]]
  {
    seq(|s|, k requires 0 <= k < |s| => if s[k] == 1 then 0 else idx[d[k]])
  }

  /** Each axis keeps its extent or grows from 1. */
  predicate Broadcasts(l: Layout, to: Shape, dims: seq<nat>) {
    && |l.shape| == |l.strides| && (dims == [] ==> |l.shape| <= |to|) && (dims != [] ==> |dims| == |l.shape|)
    && Distinct(dims) && (forall k :: 0 <= k < |dims| ==> dims[k] < |to|)
    && forall k :: 0 <= k < |l.shape| ==> l.shape[k] == to[DimsOf(l, to, dims)[k]] || l.shape[k] == 1
  }

  /** No axis that grows has a stride of its own. */
  predicate GrowsFlat(l: Layout, to: Shape, dims: seq<nat>)
    requires Broadcasts(l, to, dims)
  {
    forall k :: 0 <= k < |l.shape| && l.shape[k] != to[DimsOf(l, to, dims)[k]] ==> l.strides[k] == 0
  }

  /** The target coordinates picked by the axes. */
  function Picked(idx: Index, d: seq<nat>): (r: Index)
    requires forall k :: 0 <= k < |d| ==> d[k] < |idx|
    ensures |r| == |d| && forall k :: 0 <= k < |d| ==> r[k] == idx[d[k]]
  {
    seq(|d|, k requires 0 <= k < |d| => idx[d[k]])
  }

  lemma {:induction false} PlacedOff(st: Strides, d: seq<nat>, n: nat, idx: Index)
    requires |d| == |st| && |idx| == n && Distinct(d) && forall k :: 0 <= k < |d| ==> d[k] < n
    ensures Off(idx, Placed(st, d, n)) == Off(Picked(idx, d), st)
    ensures forall k :: 0 <= k < n && k !in d ==> Placed(st, d, n)[k] == 0
    ensures forall k :: 0 <= k < |d| ==> Placed(st, d, n)[d[k]] == st[k]
    decreases |d|
  {
    hide Off, Distinct;
    if d == [] {
      OffStridesZero(idx, Placed(st, d, n));
      OffZeros(Picked(idx, d), st);
    } else {
      var m := |d| - 1;
      DistinctInit(d);
      PlacedOff(st[..m], d[..m], n, idx);
      PlacedPrefix(st, d[..m], n);
      var before := Placed(st, d[..m], n);
      forall k | 0 <= k < m
        ensures before[d[k]] == st[k]
      {
        assert d[..m][k] == d[k] && st[..m][k] == st[k];
      }
      PlacedLast(st, d, n, idx, before);
    }
  }

  lemma DistinctInit(d: seq<nat>)
    requires d != [] && Distinct(d)
    ensures Distinct(d[..|d| - 1]) && d[|d| - 1] !in d[..|d| - 1]
  {
  }

  lemma PlacedLast(st: Strides, d: seq<nat>, n: nat, idx: Index, before: Strides)
    requires |d| == |st| > 0 && |idx| == n == |before| && (forall k :: 0 <= k < |d| ==> d[k] < n)
    requires d[|d| - 1] !in d[..|d| - 1] && Placed(st, d, n) == before[d[|d| - 1] := st[|d| - 1]]
    requires Off(idx, before) == Off(Picked(idx, d[..|d| - 1]), st[..|d| - 1])
    requires forall k :: 0 <= k < n && k !in d[..|d| - 1] ==> before[k] == 0
    requires forall k :: 0 <= k < |d| - 1 ==> before[d[k]] == st[k]
    ensures Off(idx, Placed(st, d, n)) == Off(Picked(idx, d), st)
    ensures forall k :: 0 <= k < n && k !in d ==> Placed(st, d, n)[k] == 0
    ensures forall k :: 0 <= k < |d| ==> Placed(st, d, n)[d[k]] == st[k]
  {
    hide Off, Placed;
    var m := |d| - 1;
    assert d == d[..m] + [d[m]];
    OffStrideUpdate(idx, before, d[m], st[m]);
    var pick := Picked(idx, d);
    assert pick[..m] == Picked(idx, d[..m]);
    OffNext(pick, st, m);
    assert pick[..m + 1] == pick && st[..m + 1] == st;
    forall k | 0 <= k < |d|
      ensures before[d[m] := st[m]][d[k]] == st[k]
    {
      if k < m {
        assert d[..m][k] == d[k] && d[k] in d[..m];
      }
    }
  }

  lemma {:induction false} PlacedPrefix(st: Strides, d: seq<nat>, n: nat)
    requires |d| <= |st| && forall k :: 0 <= k < |d| ==> d[k] < n
    ensures Placed(st, d, n) == Placed(st[..|d|], d, n)
    decreases |d|
  {
    if d != [] {
      var m := |d| - 1;
      PlacedPrefix(st, d[..m], n);
      PlacedPrefix(st[..|d|], d[..m], n);
      assert st[..|d|][..m] == st[..m];
    }
  }

  lemma {:induction false} OffStridesZero(idx: Index, st: Strides)
    requires |idx| == |st| && forall k :: 0 <= k < |st| ==> st[k] == 0
    ensures Off(idx, st) == 0
    decreases |idx|
  {
    if idx != [] {
      OffStridesZero(idx[..|idx| - 1], st[..|idx| - 1]);
    }
  }

  lemma DimsDistinct(l: Layout, to: Shape, dims: seq<nat>)
    requires Broadcasts(l, to, dims)
    ensures var d := DimsOf(l, to, dims);
      |d| == |l.shape| && Distinct(d) && forall k :: 0 <= k < |d| ==> d[k] < |to|
  {
  }

  lemma BroadcastAddr(l: Layout, to: Shape, dims: seq<nat>, idx: Index)
    requires Broadcasts(l, to, dims) && InBounds(idx, to)
    ensures var d := DimsOf(l, to, dims);
      (forall k :: 0 <= k < |d| ==> d[k] < |idx|)
      && Broadcast(l, to, dims).Addr(idx) == l.offset + Off(Picked(idx, d), l.strides)
      && InBounds(BroadcastSource(idx, l.shape, d), l.shape)
      && (GrowsFlat(l, to, dims) ==> Broadcast(l, to, dims).Addr(idx) == l.Addr(BroadcastSource(idx, l.shape, d)))
  {
    hide Off, Placed;
    var d := DimsOf(l, to, dims);
    DimsDistinct(l, to, dims);
    PlacedOff(l.strides, d, |to|, idx);
    var src := BroadcastSource(idx, l.shape, d);
    if GrowsFlat(l, to, dims) {
      forall k | 0 <= k < |d|
        ensures src[k] * l.strides[k] == Picked(idx, d)[k] * l.strides[k]
      {
        if l.shape[k] == to[d[k]] {
          assert src[k] == Picked(idx, d)[k];
        }
      }
      var z: Index := seq(|d|, _ => 0);
      OffZeros(z, l.strides);
      OffAxiswise(Picked(idx, d), l.strides, z, l.strides, src, l.strides);
    }
  }

  /** A broadcast addresses its source's elements if and only if no axis that grows has a stride of its own. */
  lemma BroadcastExact(l: Layout, to: Shape, dims: seq<nat>)
    requires Broadcasts(l, to, dims) && Numel(to) > 0
    ensures GrowsFlat(l, to, dims) <==> forall idx: Index :: InBounds(idx, to) ==> BroadcastRight(l, to, dims, idx)
  {
    hide Off, Placed, DimsOf;
    if GrowsFlat(l, to, dims) {
      forall idx: Index | InBounds(idx, to)
        ensures BroadcastRight(l, to, dims, idx)
      {
        BroadcastAddr(l, to, dims, idx);
      }
    } else {
      var d := DimsOf(l, to, dims);
      DimsDistinct(l, to, dims);
      var k :| 0 <= k < |l.shape| && l.shape[k] != to[d[k]] && l.strides[k] != 0;
      NumelPositive(to);
      var idx: Index := seq(|to|, j => if j == d[k] then 1 else 0);
      assert InBounds(idx, to) by { assert to[d[k]] >= 2; }
      BroadcastAddr(l, to, dims, idx);
      var src, pick := BroadcastSource(idx, l.shape, d), Picked(idx, d);
      assert forall j :: 0 <= j < |d| ==> src[j] == 0;
      OffZeros(src, l.strides);
      assert pick == src[k := 1];
      OffIndexUpdate(src, l.strides, k, 1);
      assert !BroadcastRight(l, to, dims, idx);
    }
  }

  ghost predicate BroadcastRight(l: Layout, to: Shape, dims: seq<nat>, idx: Index)
    requires Broadcasts(l, to, dims) && |idx| == |to|
  {
    Broadcast(l, to, dims).Addr(idx) == l.Addr(BroadcastSource(idx, l.shape, DimsOf(l, to, dims)))
  }
}
