/** Runs of view operations, and what they keep. */
module ViewSafety {
  import opened Arith
  import opened FiniteSets
  import opened Shapes
  import opened NoCopyReshape
  import opened Views

  datatype Op =
    | DoSlice(start: Index, end: Index, step: Strides)
    | DoTranspose(perm: seq<nat>)
    | DoReverse(axes: seq<nat>)
    | DoBroadcast(to: Shape, dims: seq<nat>)
    | DoReshape(to: Shape)

  /** A view, and the number of elements its buffer has. */
  datatype State = State(l: Layout, n: nat)

  /**
    What a caller must see to, beyond the checks the operations make themselves: slices start inside
    and step forward; reversing only mirrors, as it does for distinct axes; broadcasts follow the
    broadcasting rules, and axes that grow do not step.
   */
  ghost predicate Allowed(op: Op, l: Layout) {
    match op
    case DoSlice(start, end, step) =>
      && SliceChecks(l, start, end, step) && (forall k :: 0 <= k < |step| ==> step[k] > 0)
      && forall k :: 0 <= k < |start| ==> start[k] >= 0
    case DoTranspose(perm) =>
      |perm| == |l.shape| == |l.strides| && Distinct(perm) && forall k :: 0 <= k < |perm| ==> perm[k] < |perm|
    case DoReverse(axes) =>
      MirrorsOnly(l, axes) && forall k :: 0 <= k < |axes| ==> axes[k] < |l.shape|
    case DoBroadcast(to, dims) => Broadcasts(l, to, dims) && GrowsFlat(l, to, dims)
    case DoReshape(to) => |l.shape| == |l.strides| && Numel(to) == Numel(l.shape)
  }

  /** Reshaping keeps the buffer when some strides allow it, and copies otherwise. */
  ghost predicate Reshaped(s: State, to: Shape, s': State) {
    || (to == s.l.shape && s' == s)
    || (Numel(to) == 0 && s' == State(Fresh(to).(offset := s.l.offset), s.n))
    || (Numel(to) > 0 && s'.n == s.n && s'.l.shape == to && s'.l.offset == s.l.offset && s'.l.OnesFlat()
        && SameOffsets(s.l.shape, s.l.strides, to, s'.l.strides) && AgreeKept(s.l.shape, s.l.strides, to, s'.l.strides))
    || (Numel(to) > 0 && (forall t: Strides :: !SameOffsets(s.l.shape, s.l.strides, to, t)) && s' == State(Fresh(to), Numel(to)))
  }

  ghost predicate Step(op: Op, s: State, s': State)
    requires Allowed(op, s.l)
  {
    match op
    case DoSlice(start, end, step) => s' == State(Slice(s.l, start, end, step), s.n)
    case DoTranspose(perm) => s' == State(Transpose(s.l, perm), s.n)
    case DoReverse(axes) => s' == State(Reverse(s.l, axes), s.n)
    case DoBroadcast(to, dims) => s' == State(Broadcast(s.l, to, dims), s.n)
    case DoReshape(to) => Reshaped(s, to, s')
  }

  ghost predicate Good(s: State) {
    s.l.InBuffer(s.n) && s.l.NoOverlap()
  }

  // ---- each operation keeps it ----

  lemma FreshGood(shape: Shape, n: nat)
    requires Numel(shape) <= n
    ensures Good(State(Fresh(shape), n))
  {
    hide Off, Numel, CompactStride, Flatten;
    var l := Fresh(shape);
    forall i: Index | InBounds(i, shape)
      ensures l.Addr(i) == Flatten(i, shape) && 0 <= l.Addr(i) < n
    {
      CompactOffset(shape, l.strides, i);
      FlattenRange(i, shape);
    }
    forall i: Index, j: Index | InBounds(i, shape) && InBounds(j, shape) && l.Addr(i) == l.Addr(j)
      ensures AgreeIndex(i, j, l.strides)
    {
      FlattenRange(i, shape);
      FlattenRange(j, shape);
    }
  }

  lemma SliceGood(s: State, start: Index, end: Index, step: Strides)
    requires Good(s) && Allowed(DoSlice(start, end, step), s.l)
    ensures Good(State(Slice(s.l, start, end, step), s.n))
  {
    hide Off, Slice, Layout.Addr, Layout.NoOverlap, Layout.InBuffer, SlicedExtent;
    var l, r := s.l, Slice(s.l, start, end, step);
    SliceParts(l, start, end, step);
    forall i: Index | InBounds(i, r.shape)
      ensures 0 <= r.Addr(i) < s.n
    {
      SliceAddr(l, start, end, step, i);
      Inside(l, s.n, SliceSource(i, start, step));
    }
    forall i: Index, j: Index | InBounds(i, r.shape) && InBounds(j, r.shape) && r.Addr(i) == r.Addr(j)
      ensures AgreeIndex(i, j, r.strides)
    {
      SliceAddr(l, start, end, step, i);
      SliceAddr(l, start, end, step, j);
      SliceAgree(l, start, end, step, i, j);
    }
    IsGood(r, s.n);
  }

  lemma Inside(l: Layout, n: nat, idx: Index)
    requires l.InBuffer(n) && InBounds(idx, l.shape)
    ensures |idx| == |l.strides| && 0 <= l.Addr(idx) < n
  {
  }

  lemma IsGood(r: Layout, n: nat)
    requires |r.shape| == |r.strides|
    requires forall i: Index :: InBounds(i, r.shape) ==> 0 <= r.Addr(i) < n
    requires forall i: Index, j: Index :: InBounds(i, r.shape) && InBounds(j, r.shape) && r.Addr(i) == r.Addr(j) ==> AgreeIndex(i, j, r.strides)
    ensures Good(State(r, n))
  {
  }

  lemma SliceAgree(l: Layout, start: Index, end: Index, step: Strides, i: Index, j: Index)
    requires Allowed(DoSlice(start, end, step), l) && l.NoOverlap()
    requires var r := Slice(l, start, end, step); InBounds(i, r.shape) && InBounds(j, r.shape)
    requires var si, sj := SliceSource(i, start, step), SliceSource(j, start, step);
      InBounds(si, l.shape) && InBounds(sj, l.shape) && l.Addr(si) == l.Addr(sj)
    ensures AgreeIndex(i, j, Slice(l, start, end, step).strides)
  {
    hide Off, Layout.Addr;
    var r := Slice(l, start, end, step);
    var si, sj := SliceSource(i, start, step), SliceSource(j, start, step);
    assert AgreeIndex(si, sj, l.strides);
    forall k | 0 <= k < |r.strides|
      ensures r.strides[k] == 0 || i[k] == j[k]
    {
      if r.strides[k] != 0 {
        assert l.strides[k] != 0;
        MulCancel(i[k], j[k], StepOf(step, k));
      }
    }
  }

  lemma TransposeGood(s: State, perm: seq<nat>)
    requires Good(s) && Allowed(DoTranspose(perm), s.l)
    ensures Good(State(Transpose(s.l, perm), s.n))
  {
    hide Off, Layout.Addr, Layout.NoOverlap, Layout.InBuffer;
    var l, r := s.l, Transpose(s.l, perm);
    forall i: Index | InBounds(i, r.shape)
      ensures 0 <= r.Addr(i) < s.n
    {
      var src := TransposeAddr(l, perm, i);
      Inside(l, s.n, src);
    }
    forall i: Index, j: Index | InBounds(i, r.shape) && InBounds(j, r.shape) && r.Addr(i) == r.Addr(j)
      ensures AgreeIndex(i, j, r.strides)
    {
      var si := TransposeAddr(l, perm, i);
      var sj := TransposeAddr(l, perm, j);
      MustAgree(l, si, sj);
    }
    IsGood(r, s.n);
  }

  lemma MustAgree(l: Layout, i: Index, j: Index)
    requires l.NoOverlap() && InBounds(i, l.shape) && InBounds(j, l.shape) && l.Addr(i) == l.Addr(j)
    ensures AgreeIndex(i, j, l.strides)
  {
  }

  lemma ReverseGood(s: State, axes: seq<nat>)
    requires Good(s) && Allowed(DoReverse(axes), s.l)
    ensures Good(State(Reverse(s.l, axes), s.n))
  {
    hide Off, Layout.Addr, Layout.NoOverlap, Layout.InBuffer, Reverse, Named;
    var l, r := s.l, Reverse(s.l, axes);
    ReverseLands(l, axes, seq(|l.shape|, _ => 0));
    forall i: Index | InBounds(i, r.shape)
      ensures 0 <= r.Addr(i) < s.n
    {
      ReverseAddr(l, axes, i);
      Inside(l, s.n, Mirrored(i, l.shape, axes));
    }
    forall i: Index, j: Index | InBounds(i, r.shape) && InBounds(j, r.shape) && r.Addr(i) == r.Addr(j)
      ensures AgreeIndex(i, j, r.strides)
    {
      ReverseAddr(l, axes, i);
      ReverseAddr(l, axes, j);
      MustAgree(l, Mirrored(i, l.shape, axes), Mirrored(j, l.shape, axes));
    }
    IsGood(r, s.n);
  }

  lemma BroadcastGood(s: State, to: Shape, dims: seq<nat>)
    requires Good(s) && Allowed(DoBroadcast(to, dims), s.l)
    ensures Good(State(Broadcast(s.l, to, dims), s.n))
  {
    hide Off, Layout.Addr, Layout.NoOverlap, Layout.InBuffer, Placed, DimsOf;
    var l, r, d := s.l, Broadcast(s.l, to, dims), DimsOf(s.l, to, dims);
    DimsDistinct(l, to, dims);
    PlacedOff(l.strides, d, |to|, seq(|to|, _ => 0));
    assert GrowsFlat(l, to, dims);
    forall i: Index | InBounds(i, r.shape)
      ensures 0 <= r.Addr(i) < s.n
    {
      BroadcastAddr(l, to, dims, i);
      Inside(l, s.n, BroadcastSource(i, l.shape, d));
    }
    forall i: Index, j: Index | InBounds(i, r.shape) && InBounds(j, r.shape) && r.Addr(i) == r.Addr(j)
      ensures AgreeIndex(i, j, r.strides)
    {
      BroadcastAddr(l, to, dims, i);
      BroadcastAddr(l, to, dims, j);
      MustAgree(l, BroadcastSource(i, l.shape, d), BroadcastSource(j, l.shape, d));
      BroadcastAgree(l, to, d, i, j, r.strides);
    }
    IsGood(r, s.n);
  }

  lemma BroadcastAgree(l: Layout, to: Shape, d: seq<nat>, i: Index, j: Index, st: Strides)
    requires |d| == |l.shape| == |l.strides| && InBounds(i, to) && InBounds(j, to) && |to| == |st|
    requires forall k :: 0 <= k < |d| ==> d[k] < |to| && st[d[k]] == l.strides[k] && (l.shape[k] == to[d[k]] || st[d[k]] == 0)
    requires forall k :: 0 <= k < |to| && k !in d ==> st[k] == 0
    requires AgreeIndex(BroadcastSource(i, l.shape, d), BroadcastSource(j, l.shape, d), l.strides)
    ensures AgreeIndex(i, j, st)
  {
    forall k | 0 <= k < |to|
      ensures st[k] == 0 || i[k] == j[k]
    {
      if k in d {
        var m :| 0 <= m < |d| && d[m] == k;
      }
    }
  }

  lemma ReshapeGood(s: State, to: Shape, s': State)
    requires Good(s) && Allowed(DoReshape(to), s.l) && Reshaped(s, to, s')
    ensures Good(s')
  {
    hide Off, Numel, Layout.Addr, Layout.NoOverlap, Layout.InBuffer, SameOffsets, AgreeKept, CompactStride;
    if to == s.l.shape && s' == s {
    } else if Numel(to) == 0 {
      EmptyGood(to, s.l.offset, s.n);
    } else if s' == State(Fresh(to), Numel(to)) {
      FreshGood(to, Numel(to));
    } else {
      SharedGood(s, to, s');
    }
  }

  lemma EmptyGood(to: Shape, offset: int, n: nat)
    requires Numel(to) == 0
    ensures Good(State(Fresh(to).(offset := offset), n))
  {
    hide Off, CompactStride, Layout.Addr, Layout.NoOverlap, Layout.InBuffer, Flatten;
    var r := Fresh(to).(offset := offset);
    forall i: Index | InBounds(i, to)
      ensures false
    {
      FlattenRange(i, to);
    }
    IsGood(r, n);
  }

  lemma SharedGood(s: State, to: Shape, s': State)
    requires Good(s) && |s.l.shape| == |s.l.strides| && Numel(to) == Numel(s.l.shape)
    requires s'.n == s.n && s'.l.shape == to && s'.l.offset == s.l.offset && |s'.l.strides| == |to|
    requires SameOffsets(s.l.shape, s.l.strides, to, s'.l.strides) && AgreeKept(s.l.shape, s.l.strides, to, s'.l.strides)
    ensures Good(s')
  {
    hide Off, Numel, Layout.Addr, Layout.NoOverlap, Layout.InBuffer, SameOffsets, AgreeKept;
    var l, r := s.l, s'.l;
    forall i: Index | InBounds(i, to)
      ensures 0 <= r.Addr(i) < s.n
    {
      SharedAddr(l, to, r, i);
      Inside(l, s.n, Unflatten(Flatten(i, to), l.shape));
    }
    forall i: Index, j: Index | InBounds(i, to) && InBounds(j, to) && r.Addr(i) == r.Addr(j)
      ensures AgreeIndex(i, j, r.strides)
    {
      SharedAddr(l, to, r, i);
      SharedAddr(l, to, r, j);
      MustAgree(l, Unflatten(Flatten(i, to), l.shape), Unflatten(Flatten(j, to), l.shape));
      SharedAgree(l, to, r, i, j);
    }
    IsGood(r, s.n);
  }

  lemma SharedAddr(l: Layout, to: Shape, r: Layout, i: Index)
    requires |l.shape| == |l.strides| && Numel(to) == Numel(l.shape) && r.shape == to && r.offset == l.offset && |r.strides| == |to|
    requires SameOffsets(l.shape, l.strides, to, r.strides) && InBounds(i, to)
    ensures 0 <= Flatten(i, to) && InBounds(Unflatten(Flatten(i, to), l.shape), l.shape)
    ensures r.Addr(i) == l.Addr(Unflatten(Flatten(i, to), l.shape))
  {
    hide Off, Numel, Flatten, Unflatten;
    FlattenRange(i, to);
    var p := Flatten(i, to);
    UnflattenRange(p, l.shape);
    assert SameAt(l.shape, l.strides, to, r.strides, p);
  }

  lemma SharedAgree(l: Layout, to: Shape, r: Layout, i: Index, j: Index)
    requires |l.shape| == |l.strides| && Numel(to) == Numel(l.shape) && |r.strides| == |to|
    requires AgreeKept(l.shape, l.strides, to, r.strides) && InBounds(i, to) && InBounds(j, to)
    requires 0 <= Flatten(i, to) && 0 <= Flatten(j, to)
    requires AgreeIndex(Unflatten(Flatten(i, to), l.shape), Unflatten(Flatten(j, to), l.shape), l.strides)
    ensures AgreeIndex(i, j, r.strides)
  {
    hide Numel, Flatten, Unflatten;
    FlattenRange(i, to);
    FlattenRange(j, to);
    assert Agree(l.shape, l.strides, Flatten(i, to), Flatten(j, to));
    assert Agree(to, r.strides, Flatten(i, to), Flatten(j, to));
  }

  lemma StepKeeps(op: Op, s: State, s': State)
    requires Good(s) && Allowed(op, s.l) && Step(op, s, s')
    ensures Good(s')
  {
    hide Good;
    match op
    case DoSlice(start, end, step) => SliceGood(s, start, end, step);
    case DoTranspose(perm) => TransposeGood(s, perm);
    case DoReverse(axes) => ReverseGood(s, axes);
    case DoBroadcast(to, dims) => BroadcastGood(s, to, dims);
    case DoReshape(to) => ReshapeGood(s, to, s');
  }

  // ---- every run ----

  /** Starting from a compact array, each operation's result is the next one's operand. */
  ghost predicate Run(ops: seq<Op>, states: seq<State>) {
    && |states| == |ops| + 1
    && (exists shape: Shape, n: nat :: Numel(shape) <= n && states[0] == State(Fresh(shape), n))
    && forall k :: 0 <= k < |ops| ==> Allowed(ops[k], states[k].l) && Step(ops[k], states[k], states[k + 1])
  }

  lemma {:induction false} RunsStayGood(ops: seq<Op>, states: seq<State>, k: nat)
    requires Run(ops, states) && k < |states|
    ensures Good(states[k])
  {
    hide Good, Step, Allowed;
    if k == 0 {
      var shape: Shape, n: nat :| Numel(shape) <= n && states[0] == State(Fresh(shape), n);
      FreshGood(shape, n);
    } else {
      RunsStayGood(ops, states, k - 1);
      StepKeeps(ops[k - 1], states[k - 1], states[k]);
    }
  }

  // ---- without the conditions ----

  /** A step over all but one of several elements leaves a stride that a broadcast then follows out of the buffer. */
  lemma ThinSliceEscapes()
    ensures var l := Slice(Fresh([2]), [0], [2], [2]);
      l == Layout([1], [2], 0) && Broadcasts(l, [3], []) && !Broadcast(l, [3], []).InBuffer(2)
  {
    OneDimension(2);
    var l := Slice(Fresh([2]), [0], [2], [2]);
    assert l.shape == [1] && l.strides == [2];
    var b := Broadcast(l, [3], []);
    assert DimsOf(l, [3], []) == [0];
    assert Placed([2], [0][..0], 1) == [0];
    assert b.strides == [2];
    var idx: Index := [2];
    OffOne(2, 2);
    assert InBounds(idx, [3]) && b.Addr(idx) == 4;
  }

  lemma OffOne(i: int, s: int)
    ensures Off([i], [s]) == i * s
  {
    assert [i][..0] == [] && [s][..0] == [];
  }

  lemma OneDimension(d: nat)
    requires d != 1
    ensures Fresh([d]) == Layout([d], [1], 0)
  {
    assert [d][1..] == [];
    assert CompactStride([d], 0) == 1;
  }

  /** A slice may start before the array. */
  lemma NegativeStartEscapes()
    ensures SliceChecks(Fresh([2]), [-1], [1], []) && !Slice(Fresh([2]), [-1], [1], []).InBuffer(2)
  {
    OneDimension(2);
    var l := Slice(Fresh([2]), [-1], [1], []);
    OffOne(-1, 1);
    OffOne(0, 1);
    var idx: Index := [0];
    assert l.shape == [2] && l.strides == [1] && l.offset == -1;
    assert InBounds(idx, l.shape) && l.Addr(idx) == -1;
  }

  /** The last index of a compact array has the last address. */
  lemma LastAddress(s: Shape)
    requires Numel(s) > 0
    ensures Fresh(s).Addr(LastOf(s)) == Numel(s) - 1
  {
    hide Off, Numel, CompactStride, Flatten;
    NumelPositive(s);
    CompactOffset(s, Fresh(s).strides, LastOf(s));
    LastIndex(LastOf(s), s);
  }

  /** The element at the least address: along each axis the first or the last, as the stride goes. */
  function LowCorner(l: Layout): (c: Index)
    requires |l.shape| == |l.strides|
    ensures |c| == |l.shape|
  {
    seq(|l.shape|, k requires 0 <= k < |l.shape| => if l.strides[k] >= 0 then 0 else l.shape[k] as int - 1)
  }

  function HighCorner(l: Layout): (c: Index)
    requires |l.shape| == |l.strides|
    ensures |c| == |l.shape|
  {
    seq(|l.shape|, k requires 0 <= k < |l.shape| => if l.strides[k] >= 0 then l.shape[k] as int - 1 else 0)
  }

  lemma {:induction false} OffTermwise(i: Index, j: Index, st: Strides)
    requires |i| == |j| == |st| && forall k :: 0 <= k < |st| ==> i[k] * st[k] <= j[k] * st[k]
    ensures Off(i, st) <= Off(j, st)
    decreases |st|
  {
    if st != [] {
      var n := |st| - 1;
      OffTermwise(i[..n], j[..n], st[..n]);
    }
  }

  lemma AxisCorners(i: int, extent: nat, st: int)
    requires 0 <= i < extent
    ensures (if st >= 0 then 0 else extent - 1) * st <= i * st <= (if st >= 0 then extent - 1 else 0) * st
  {
    if st >= 0 {
      MulLe(0, i, st);
      MulLe(i, extent - 1, st);
    } else {
      MulLe(0, i, 0 - st);
      MulLe(i, extent - 1, 0 - st);
    }
  }

  lemma BetweenCorners(l: Layout, idx: Index)
    requires |l.shape| == |l.strides| && InBounds(idx, l.shape)
    ensures l.Addr(LowCorner(l)) <= l.Addr(idx) <= l.Addr(HighCorner(l))
  {
    hide Off;
    forall k | 0 <= k < |idx|
      ensures LowCorner(l)[k] * l.strides[k] <= idx[k] * l.strides[k] <= HighCorner(l)[k] * l.strides[k]
    {
      AxisCorners(idx[k], l.shape[k], l.strides[k]);
    }
    OffTermwise(LowCorner(l), idx, l.strides);
    OffTermwise(idx, HighCorner(l), l.strides);
  }

  /** A view stays in its buffer if and only if its two extreme elements do. */
  lemma InBufferExact(l: Layout, n: nat)
    requires |l.shape| == |l.strides| && Numel(l.shape) > 0
    ensures l.InBuffer(n) <==> 0 <= l.Addr(LowCorner(l)) && l.Addr(HighCorner(l)) < n
  {
    hide Layout.Addr, Numel;
    NumelPositive(l.shape);
    assert InBounds(LowCorner(l), l.shape) && InBounds(HighCorner(l), l.shape);
    forall idx: Index | InBounds(idx, l.shape)
      ensures l.Addr(LowCorner(l)) <= l.Addr(idx) <= l.Addr(HighCorner(l))
    {
      BetweenCorners(l, idx);
    }
  }

  /** So a forward slice of any view stays in the buffer if and only if the elements its extreme corners show lie there. */
  lemma SliceInsideExact(s: State, start: Index, end: Index, step: Strides)
    requires SliceChecks(s.l, start, end, step) && forall k :: 0 <= k < |step| ==> step[k] > 0
    requires Numel(Slice(s.l, start, end, step).shape) > 0
    ensures var r := Slice(s.l, start, end, step);
      |r.shape| == |r.strides| == |start| && (r.InBuffer(s.n) <==>
        0 <= s.l.Addr(SliceSource(LowCorner(r), start, step)) && s.l.Addr(SliceSource(HighCorner(r), start, step)) < s.n)
  {
    hide Layout.Addr, Numel, SlicedExtent, Slice, Layout.InBuffer;
    var r := Slice(s.l, start, end, step);
    SliceParts(s.l, start, end, step);
    NumelPositive(r.shape);
    InBufferExact(r, s.n);
    SliceAddr(s.l, start, end, step, LowCorner(r));
    SliceAddr(s.l, start, end, step, HighCorner(r));
  }

  /** A slice of a compact array stays in the buffer if and only if its first element does, wherever the axes start. */
  lemma SliceStaysInside(s: Shape, start: Index, end: Index, step: Strides)
    requires Numel(s) > 0 && SliceChecks(Fresh(s), start, end, step) && forall k :: 0 <= k < |step| ==> step[k] > 0
    requires Numel(Slice(Fresh(s), start, end, step).shape) > 0
    ensures Slice(Fresh(s), start, end, step).InBuffer(Numel(s)) <==> Fresh(s).Addr(start) >= 0
  {
    hide Off, Numel, CompactStride, SlicedExtent, Slice;
    var l, r := Fresh(s), Slice(Fresh(s), start, end, step);
    SliceParts(l, start, end, step);
    NumelPositive(r.shape);
    var z: Index := seq(|s|, _ => 0);
    OffZeros(z, r.strides);
    assert InBounds(z, r.shape) && r.Addr(z) == l.Addr(start);
    CompactSteps(s);
    LastAddress(s);
    forall idx: Index | InBounds(idx, r.shape)
      ensures l.Addr(start) <= r.Addr(idx) < Numel(s)
    {
      SliceAddr(l, start, end, step, idx);
      OffGrows(start, SliceSource(idx, start, step), l.strides);
      OffGrows(SliceSource(idx, start, step), LastOf(s), l.strides);
    }
  }

  lemma SliceParts(l: Layout, start: Index, end: Index, step: Strides)
    requires |start| == |end| == |l.shape| == |l.strides| && forall k :: 0 <= k < |step| ==> step[k] > 0
    ensures var r := Slice(l, start, end, step);
      |r.shape| == |r.strides| == |l.shape| && r.offset == l.Addr(start)
  {
    hide Layout.Addr, SlicedExtent;
  }

  /** A compact array, reversed, stays in its buffer if and only if axes named more than once have extent 1. */
  lemma ReverseStaysInside(s: Shape, axes: seq<nat>)
    requires Numel(s) > 0 && forall k :: 0 <= k < |axes| ==> axes[k] < |s|
    ensures Reverse(Fresh(s), axes).InBuffer(Numel(s)) <==> RepeatsAreThin(s, axes)
  {
    hide Off, Numel, CompactStride, Reverse, MirrorsOnly, Named, Layout.NoOverlap;
    var l, r := Fresh(s), Reverse(Fresh(s), axes);
    ReverseCompact(s, axes);
    if RepeatsAreThin(s, axes) {
      FreshGood(s, Numel(s));
      ReverseGood(State(l, Numel(s)), axes);
    } else {
      var far := FarIndex(s, axes);
      CompactSteps(s);
      LastAddress(s);
      ReverseLands(l, axes, far);
      FarBeyond(s, axes);
      OffGrows(LastOf(s), FlippedIndex(far, s, axes), l.strides);
      assert InBounds(far, r.shape) && r.Addr(far) >= Numel(s);
    }
  }

  /** The index that reversing takes farthest. */
  function FarIndex(s: Shape, axes: seq<nat>): (idx: Index)
    ensures |idx| == |s| && forall k :: 0 <= k < |s| ==> idx[k] == if Named(axes, k) % 2 == 0 then s[k] as int - 1 else 0
  {
    seq(|s|, k requires 0 <= k < |s| => if Named(axes, k) % 2 == 0 then s[k] as int - 1 else 0)
  }

  lemma FarBeyond(s: Shape, axes: seq<nat>)
    requires forall k :: 0 <= k < |s| ==> s[k] >= 1
    ensures var src := FlippedIndex(FarIndex(s, axes), s, axes);
      forall k :: 0 <= k < |s| ==> src[k] >= s[k] - 1 && (Named(axes, k) >= 2 && s[k] != 1 ==> src[k] > s[k] - 1)
  {
    hide Named;
    forall k | 0 <= k < |s|
      ensures var x := Flipped(FarIndex(s, axes)[k], s[k], Named(axes, k));
        x >= s[k] - 1 && (Named(axes, k) >= 2 && s[k] != 1 ==> x > s[k] - 1)
    {
      FlippedFar(s[k], Named(axes, k));
    }
  }

  lemma FlippedFar(s: nat, m: nat)
    requires s >= 1
    ensures var x := Flipped(if m % 2 == 0 then s - 1 else 0, s, m);
      x >= s - 1 && (m >= 2 && s != 1 ==> x > s - 1)
  {
    if m >= 2 {
      MulLe(2, m, s - 1);
    }
  }

  /** Reversing an axis twice in one call shifts it instead. */
  lemma ReverseTwiceEscapes()
    ensures Reverse(Fresh([2]), [0, 0]) == Layout([2], [1], 2) && !Reverse(Fresh([2]), [0, 0]).InBuffer(2)
  {
    OneDimension(2);
    var l := Fresh([2]);
    assert [0, 0][..1] == [0] && [0][..0] == [];
    assert Reverse(l, [0]) == Layout([2], [-1], 1);
    OffOne(0, 1);
    var idx: Index := [0];
    assert InBounds(idx, [2]) && Reverse(l, [0, 0]).Addr(idx) == 2;
  }
}
