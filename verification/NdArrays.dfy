/**
  Arrays as views of a shared buffer: iteration, copying, reshaping, slices written in place.
  Buffers hold elements; element sizes and types are not modelled.
 */
module NdArrays {
  import opened Arith
  import opened FiniteSets
  import opened Wrappers
  import opened Shapes
  import opened NoCopyReshape
  import opened Views
  import opened ViewSafety

  /** The address of a row-major position. */
  function AddrAt(l: Layout, p: nat): int
    requires |l.shape| == |l.strides|
  {
    l.offset + OffAt(l.shape, l.strides, p)
  }

  /** The elements of a view in row-major order. */
  ghost function Elements(b: seq<int>, l: Layout): (e: seq<int>)
    requires |l.shape| == |l.strides|
    ensures |e| == Numel(l.shape)
    ensures forall p :: 0 <= p < |e| ==> e[p] == ElementAt(b, AddrAt(l, p))
  {
    seq(Numel(l.shape), p requires 0 <= p < Numel(l.shape) => ElementAt(b, AddrAt(l, p)))
  }

  function ElementAt(b: seq<int>, a: int): int {
    if 0 <= a < |b| then b[a] else 0
  }

  lemma PositionInBuffer(l: Layout, n: nat, p: nat)
    requires l.InBuffer(n) && p < Numel(l.shape)
    ensures 0 <= AddrAt(l, p) < n
  {
    hide Off, Numel, Unflatten;
    UnflattenRange(p, l.shape);
    assert InBounds(Unflatten(p, l.shape), l.shape);
  }

  /** The part of reshape that copies nothing: the same elements under another shape, if strides allow. */
  method ReshapeView(l: Layout, to: Shape) returns (shared: bool, r: Layout)
    requires |l.shape| == |l.strides| && Numel(to) == Numel(l.shape)
    ensures shared ==> r.shape == to && |r.strides| == |to| && Reshaped(State(l, 0), to, State(r, 0))
    ensures shared ==> r.offset == l.offset && forall p: nat :: p < Numel(to) ==> AddrAt(r, p) == AddrAt(l, p)
    ensures !shared ==> Numel(to) > 0 && forall t: Strides :: !SameOffsets(l.shape, l.strides, to, t)
  {
    hide Numel, OffAt, AgreeKept, CompactStride;
    if l.shape == to {
      return true, l;
    }
    if Numel(to) == 0 {
      var compact := MakeCompactStrides(to);
      assert compact == Fresh(to).strides;
      return true, Layout(to, compact, l.offset);
    }
    var ns;
    shared, ns := AttemptNocopyReshape(l.shape, l.strides, to);
    r := Layout(to, ns, l.offset);
    if shared {
      forall p: nat | p < Numel(to)
        ensures AddrAt(r, p) == AddrAt(l, p)
      {
        SameApplies(l.shape, l.strides, to, ns, p);
      }
    }
  }

  /** Walks the elements of a view in row-major order. */
  class Iterator {
    var shape: Shape
    var strides: Strides
    var index: Option<Index>
    var ptr: int

    /** Stands at position p of l, at the address indexing would give; past the end at the last position. */
    ghost predicate At(l: Layout, p: nat)
      reads this
    {
      && |l.shape| == |l.strides| && |shape| == |strides| && Numel(shape) == Numel(l.shape) && p <= Numel(shape)
      && (forall q: nat :: q < Numel(shape) ==> OffAt(shape, strides, q) == OffAt(l.shape, l.strides, q))
      && (p < Numel(shape) ==> index == Some(Unflatten(p, shape)) && ptr == AddrAt(l, p))
      && (p == Numel(shape) ==> index == None)
    }

    /** Begins at an index; past the end if that is out of bounds. */
    constructor (l: Layout, fast: bool, stride: int, start: Index)
      requires |l.shape| == |l.strides| && (fast ==> Linear(l.shape, l.strides, stride))
      requires |start| == |l.shape|
      ensures InBounds(start, l.shape) ==> 0 <= Flatten(start, l.shape) && At(l, Flatten(start, l.shape))
      ensures !InBounds(start, l.shape) ==> At(l, Numel(l.shape))
    {
      hide Numel, OffAt, Unflatten, Linear, Flatten, SameOffsets, Reshaped;
      var flat := l;
      if fast {
        LinearFlattens(l.shape, l.strides, stride);
        FlatNumel(Numel(l.shape));
        var shared;
        shared, flat := ReshapeView(l, [Numel(l.shape)]);
        assert shared;
      }
      shape, strides := flat.shape, flat.strides;
      var ok := CheckInBounds(start, l.shape);
      var off := CalcFlattenOffset(start, l.shape, l.strides);
      var p := FlattenIndex(start, l.shape);
      index := if !ok then None else if fast then Some([p]) else Some(start);
      ptr := if ok then l.offset + off else 0;
      new;
      if ok {
        FlattenRange(start, l.shape);
        if fast {
          FlatIndex(p, Numel(l.shape));
        }
        assert off == OffAt(l.shape, l.strides, p) by { OffAtFlatten(l.shape, l.strides, start); }
      }
      assert Numel(shape) == Numel(l.shape);
      forall q: nat | q < Numel(shape)
        ensures OffAt(shape, strides, q) == OffAt(l.shape, l.strides, q)
      {
        assert AddrAt(flat, q) == AddrAt(l, q);
      }
      assert ok ==> index == Some(Unflatten(p, shape)) && ptr == AddrAt(l, p);
    }

    /** Steps to the next position. */
    method Next(ghost l: Layout, ghost p: nat)
      requires At(l, p) && p < Numel(l.shape)
      modifies this
      ensures At(l, p + 1) && shape == old(shape) && strides == old(strides)
    {
      hide Numel, OffAt, Unflatten, Flatten, Off, InBounds;
      UnflattenRange(p, shape);
      ghost var was := index.value;
      var idx := index.value;
      var idim := |shape| - 1;
      IsOffAt(shape, strides, p);
      while idim >= 0
        invariant -1 <= idim < |shape| && |idx| == |shape|
        invariant shape == old(shape) && strides == old(strides)
        invariant ptr == AddrAt(l, p) - Off(was, strides) + Off(idx, strides)
        invariant forall k :: 0 <= k <= idim ==> idx[k] == was[k]
        invariant forall k :: idim < k < |shape| ==> idx[k] == 0 && was[k] + 1 == shape[k]
      {
        OffIndexUpdate(idx, strides, idim, 0);
        OffIndexUpdate(idx, strides, idim, was[idim] + 1);
        AxisInside(was, shape, idim);
        if idx[idim] + 1 == shape[idim] {
          idx := idx[idim := 0];
          ptr := ptr - (shape[idim] - 1) * strides[idim];
        } else {
          idx := idx[idim := idx[idim] + 1];
          ptr := ptr + strides[idim];
          NextIndex(was, shape, idim);
          assert idx == Stepped(was, idim);
          index := Some(idx);
          IsOffAt(shape, strides, p + 1);
          return;
        }
        idim := idim - 1;
      }
      LastIndex(was, shape);
      index := None;
    }
  }

  lemma AxisInside(idx: Index, s: Shape, k: nat)
    requires InBounds(idx, s) && k < |s|
    ensures 0 <= idx[k] < s[k]
  {
  }

  lemma IsOffAt(s: Shape, st: Strides, p: nat)
    requires |s| == |st|
    ensures OffAt(s, st, p) == Off(Unflatten(p, s), st)
  {
  }

  lemma OffAtFlatten(s: Shape, st: Strides, idx: Index)
    requires |s| == |st| && InBounds(idx, s)
    ensures 0 <= Flatten(idx, s) && OffAt(s, st, Flatten(idx, s)) == Off(idx, st)
  {
    hide Off, Flatten, Unflatten, Numel;
    FlattenRange(idx, s);
  }

  lemma FlatNumel(n: nat)
    ensures Numel([n]) == n
  {
    assert [n][..0] == [];
  }

  lemma FlatIndex(p: nat, n: nat)
    requires p < n
    ensures Unflatten(p, [n]) == [p]
  {
    assert [n][..0] == [];
    DivModUnique(p, 0, p, n);
  }

  // ---- arrays ----

  /** Different positions have different addresses. */
  ghost predicate Injective(l: Layout)
    requires |l.shape| == |l.strides|
  {
    forall p: nat, q: nat :: p < Numel(l.shape) && q < Numel(l.shape) && AddrAt(l, p) == AddrAt(l, q) ==> p == q
  }

  /** What comes of a call with a list of axes; one that is no axis can get past the checks. */
  datatype ViewCall = View(l: Layout) | Refused | OutOfAxes

  predicate AxesExist(axes: seq<int>, rank: nat) {
    forall k :: 0 <= k < |axes| ==> 0 <= axes[k] < rank
  }

  class NdArrayRef {
    var buf: array<int>
    var layout: Layout
    var useFastIndexing: bool
    var fastIndexingStride: int

    ghost predicate Valid()
      reads this
    {
      && |layout.shape| == |layout.strides| && layout.InBuffer(buf.Length)
      && (useFastIndexing ==> Linear(layout.shape, layout.strides, fastIndexingStride))
    }

    /** The elements in row-major order. */
    ghost function Contents(): (e: seq<int>)
      requires Valid()
      reads this, buf
      ensures |e| == Numel(layout.shape)
    {
      Elements(buf[..], layout)
    }

    /** A view of an existing buffer. */
    constructor (b: array<int>, l: Layout)
      requires |l.shape| == |l.strides| && l.InBuffer(b.Length)
      ensures Valid() && buf == b && layout == l
    {
      var fast, stride := CanUseFastIndexing(l.shape, l.strides);
      buf, layout, useFastIndexing, fastIndexingStride := b, l, fast, stride;
    }

    /** A new compact array. */
    constructor Alloc(shape: Shape)
      ensures Valid() && fresh(buf) && layout == Fresh(shape) && buf.Length == Numel(shape)
    {
      var st := MakeCompactStrides(shape);
      assert st == Fresh(shape).strides;
      var fast, stride := CanUseFastIndexing(shape, st);
      buf := new int[Numel(shape)];
      layout, useFastIndexing, fastIndexingStride := Layout(shape, st, 0), fast, stride;
      FreshGood(shape, Numel(shape));
    }

    /** The element at a row-major position; where the array is evenly spaced, without its index. */
    method At(pos: nat) returns (value: int)
      requires Valid() && pos < Numel(layout.shape)
      ensures value == Contents()[pos]
    {
      hide Numel, Linear, Layout.InBuffer, CompactStride;
      PositionInBuffer(layout, buf.Length, pos);
      if useFastIndexing {
        LinearAt(layout.shape, layout.strides, fastIndexingStride, pos);
        value := buf[layout.offset + pos * fastIndexingStride];
      } else {
        NumelPositive(layout.shape);
        var index := UnflattenIndex(pos, layout.shape);
        var offset := CalcFlattenOffset(index, layout.shape, layout.strides);
        value := buf[layout.offset + offset];
      }
    }

    /** A compact copy. */
    method Clone() returns (r: NdArrayRef)
      requires Valid()
      ensures r.Valid() && fresh(r) && fresh(r.buf) && r.layout == Fresh(layout.shape) && r.buf.Length == Numel(layout.shape)
      ensures r.Contents() == Contents()
    {
      hide Numel, OffAt, Linear, Layout.InBuffer, CompactStride;
      r := new NdArrayRef.Alloc(layout.shape);
      var it := new Iterator(layout, useFastIndexing, fastIndexingStride, seq(|layout.shape|, _ => 0));
      AtFirst(layout);
      var idx := 0;
      while idx < Numel(layout.shape)
        invariant 0 <= idx <= Numel(layout.shape) && it.At(layout, idx)
        invariant fresh(it) && fresh(r) && fresh(r.buf) && r.layout == Fresh(layout.shape) && r.buf.Length == Numel(layout.shape)
        invariant forall p :: 0 <= p < idx ==> r.buf[p] == ElementAt(buf[..], AddrAt(layout, p))
        invariant r.Valid() && r.buf != buf && r != this
      {
        PositionInBuffer(layout, buf.Length, idx);
        r.buf[idx] := buf[it.ptr];
        it.Next(layout, idx);
        idx := idx + 1;
      }
      forall p | 0 <= p < Numel(layout.shape)
        ensures r.Contents()[p] == Contents()[p]
      {
        CompactIsRowMajor(layout.shape, r.layout.strides, p);
      }
    }

    /** The same elements in the same order under another shape; a copy only where no strides would do. */
    method Reshape(to: Shape) returns (ok: bool, r: NdArrayRef)
      requires Valid()
      ensures ok <==> layout.shape == to || Numel(layout.shape) == Numel(to)
      ensures ok ==> r.Valid() && r.layout.shape == to && r.Contents() == Contents()
      ensures ok ==> Reshaped(State(layout, buf.Length), to, State(r.layout, r.buf.Length))
      ensures ok ==> r.buf == buf || fresh(r.buf)
    {
      hide Numel, OffAt, Linear, CompactStride, Layout.InBuffer, SameOffsets;
      if layout.shape == to {
        return true, this;
      }
      if Numel(layout.shape) != Numel(to) {
        return false, this;
      }
      var shared, l := ReshapeView(layout, to);
      ok := true;
      if shared {
        ReshapedInside(layout, to, l, buf.Length);
        r := new NdArrayRef(buf, l);
        assert r.Contents() == Contents();
      } else {
        var clone := Clone();
        FreshGood(to, Numel(to));
        r := new NdArrayRef(clone.buf, Fresh(to));
        forall p | 0 <= p < Numel(to)
          ensures r.Contents()[p] == Contents()[p]
        {
          CompactIsRowMajor(to, r.layout.strides, p);
          CompactIsRowMajor(layout.shape, clone.layout.strides, p);
          assert clone.Contents()[p] == Contents()[p];
        }
      }
    }

    method Slice(start: Index, end: Index, step: Strides) returns (ok: bool, r: Layout)
      requires Valid() && forall k :: 0 <= k < |step| ==> step[k] > 0
      ensures ok <==> SliceChecks(layout, start, end, step)
      ensures ok ==> r == Views.Slice(layout, start, end, step)
    {
      var n := |layout.shape|;
      ok := |start| == n && |end| == n && (step == [] || |step| == n);
      r := layout;
      if !ok {
        return;
      }
      var shape, strides := seq(n, _ => 0), layout.strides;
      for idx := 0 to n
        invariant |shape| == |strides| == n
        invariant forall k :: 0 <= k < idx ==> end[k] <= layout.shape[k] && shape[k] == SlicedExtent(start[k], end[k], StepOf(step, k))
        invariant forall k :: 0 <= k < idx ==>
          strides[k] == if Positive(end[k] - start[k]) == 1 then 0 else layout.strides[k] * StepOf(step, k)
        invariant forall k :: idx <= k < n ==> strides[k] == layout.strides[k]
      {
        if end[idx] > layout.shape[idx] {
          return false, r;
        }
        var len := Positive(end[idx] - start[idx]);
        shape := shape[idx := len];
        if len == 1 {
          strides := strides[idx := 0];
        } else if step != [] {
          StepExtent(len, step[idx]);
          shape := shape[idx := len / step[idx] + if len % step[idx] != 0 then 1 else 0];
          strides := strides[idx := strides[idx] * step[idx]];
        }
      }
      var off := CalcFlattenOffset(start, layout.shape, layout.strides);
      r := Layout(shape, strides, layout.offset + off);
      assert r == Views.Slice(layout, start, end, step);
    }

    /** Checks only that there are as many axes as extents, and none twice. */
    method Transpose(perm: seq<int>) returns (out: ViewCall)
      requires Valid()
      ensures out.Refused? <==> |perm| != |layout.shape| || !Distinct(perm)
      ensures out.OutOfAxes? <==>
        |perm| == |layout.shape| && Distinct(perm) && exists k :: 0 <= k < |perm| && !(0 <= perm[k] < |layout.shape|)
      ensures out.View? ==> out.l == Views.Transpose(layout, perm)
    {
      if |perm| != |layout.shape| {
        return Refused;
      }
      var uniq := {};
      for i := 0 to |perm|
        invariant forall x :: x in uniq <==> x in perm[..i]
        invariant Distinct(perm[..i])
      {
        assert perm[..i + 1] == perm[..i] + [perm[i]];
        if perm[i] in uniq {
          var j :| 0 <= j < i && perm[j] == perm[i];
          return Refused;
        }
        uniq := uniq + {perm[i]};
      }
      assert perm[..|perm|] == perm;
      var shape, strides := [], [];
      for i := 0 to |perm|
        invariant AxesExist(perm[..i], |layout.shape|) && |shape| == |strides| == i
        invariant forall k :: 0 <= k < i ==> shape[k] == layout.shape[perm[k]] && strides[k] == layout.strides[perm[k]]
      {
        if !(0 <= perm[i] < |layout.shape|) {
          return OutOfAxes;
        }
        shape, strides := shape + [layout.shape[perm[i]]], strides + [layout.strides[perm[i]]];
      }
      out := View(Layout(shape, strides, layout.offset));
    }

    /** Checks axis by axis that it is below the rank, but not that it is not negative. */
    method Reverse(axes: seq<int>) returns (out: ViewCall)
      requires Valid()
      ensures out.View? <==> forall k :: 0 <= k < |axes| ==> 0 <= axes[k] < |layout.shape|
      ensures out.View? ==> out.l == Views.Reverse(layout, axes)
      ensures out.Refused? <==> exists k :: 0 <= k < |axes| && AxesExist(axes[..k], |layout.shape|) && axes[k] >= |layout.shape|
      ensures out.OutOfAxes? <==> exists k :: 0 <= k < |axes| && AxesExist(axes[..k], |layout.shape|) && axes[k] < 0
    {
      var strides, off := layout.strides, 0;
      for i := 0 to |axes|
        invariant AxesExist(axes[..i], |layout.shape|)
        invariant Views.Reverse(layout, axes[..i]) == Layout(layout.shape, strides, layout.offset + off)
      {
        var axis := axes[i];
        if axis >= |layout.shape| {
          return Refused;
        }
        if axis < 0 {
          return OutOfAxes;
        }
        assert axes[..i + 1][..i] == axes[..i];
        strides := strides[axis := strides[axis] * -1];
        off := off + layout.strides[axis] * (layout.shape[axis] as int - 1);
      }
      assert axes[..|axes|] == axes;
      out := View(Layout(layout.shape, strides, layout.offset + off));
    }

    method BroadcastTo(to: Shape, dims: seq<nat>) returns (ok: bool, r: Layout)
      requires Valid() && (dims == [] ==> |layout.shape| <= |to|) && |dims| <= |layout.shape|
      ensures ok <==> forall k :: 0 <= k < |dims| ==> dims[k] < |to|
      ensures ok ==> r == Broadcast(layout, to, dims)
    {
      r := layout;
      for i := 0 to |dims|
        invariant forall k :: 0 <= k < i ==> dims[k] < |to|
      {
        if dims[i] >= |to| {
          return false, r;
        }
      }
      var strides: Strides := seq(|to|, _ => 0);
      if dims != [] {
        for idx := 0 to |dims|
          invariant strides == Placed(layout.strides, dims[..idx], |to|)
        {
          assert dims[..idx + 1][..idx] == dims[..idx];
          strides := strides[dims[idx] := layout.strides[idx]];
        }
        assert dims[..|dims|] == dims;
      } else {
        var n := |layout.strides|;
        for idx := 0 to n
          invariant |strides| == |to|
          invariant forall k :: 0 <= k < |to| ==>
            strides[k] == if k >= |to| - idx then layout.strides[n - |to| + k] else 0
        {
          strides := strides[|to| - 1 - idx := layout.strides[n - 1 - idx]];
        }
        TrailingPlaced(layout, to, strides);
      }
      ok, r := true, Layout(to, strides, layout.offset);
    }

    /** Moves to a buffer of its own if some axis repeats its elements. */
    method EliminateZeroStride()
      requires Valid() && Good(State(layout, buf.Length))
      modifies this
      ensures Valid() && Good(State(layout, buf.Length)) && (Numel(layout.shape) > 0 ==> NoRepeats(layout))
      ensures layout.shape == old(layout.shape) && Contents() == old(Contents())
      ensures NoRepeats(old(layout)) ==> buf == old(buf) && layout == old(layout)
      ensures !NoRepeats(old(layout)) ==> fresh(buf)
    {
      hide Numel, Good, OffAt, Linear, Layout.InBuffer, CompactStride;
      var found := false;
      var idim := 0;
      while idim < |layout.shape| && !found
        invariant 0 <= idim <= |layout.shape|
        invariant found <==> exists k :: 0 <= k < idim && layout.shape[k] != 1 && layout.strides[k] == 0
      {
        found := layout.shape[idim] != 1 && layout.strides[idim] == 0;
        idim := idim + 1;
      }
      if !found {
        return;
      }
      var clone := Clone();
      FreshGood(layout.shape, Numel(layout.shape));
      FreshNoRepeats(layout.shape);
      buf, layout, useFastIndexing, fastIndexingStride := clone.buf, clone.layout, clone.useFastIndexing, clone.fastIndexingStride;
    }

    /**
      Writes the elements of another array over a region of this one.  Elements outside the region
      keep their values; in the buffer nothing else changes, and where the array repeated elements
      it gets a buffer of its own first.
     */
    method UpdateSlice(v: NdArrayRef, start: Index)
      requires Valid() && Good(State(layout, buf.Length)) && v.Valid() && v != this
      requires InRegion(start, v.layout.shape, layout.shape)
      modifies this, buf
      ensures Valid() && layout.shape == old(layout.shape) && Good(State(layout, buf.Length))
      ensures old(Undisturbed(v, start)) ==> forall p: nat :: p < Numel(layout.shape) ==>
        (Contents()[p] == Updated(old(Contents()), old(layout.shape), old(v.Contents()), v.layout.shape, start, p))
      ensures NoRepeats(old(layout)) && v.buf == old(buf) ==>
        buf[..] == InOrder(old(buf[..]), v.layout, Region(layout, start, v.layout.shape), Numel(v.layout.shape))
      ensures NoRepeats(old(layout)) || Numel(v.layout.shape) == 0 ==> buf == old(buf) && layout == old(layout)
      ensures old(Undisturbed(v, start)) && NoRepeats(old(layout)) && Numel(v.layout.shape) > 0 ==>
        RegionWritten(old(buf[..]), buf[..], Region(layout, start, v.layout.shape), old(v.Contents()))
      ensures Numel(v.layout.shape) == 0 ==> buf[..] == old(buf[..])
      ensures !NoRepeats(old(layout)) ==> old(buf)[..] == old(buf[..])
    {
      hide Numel, OffAt, Linear, Layout.InBuffer, Good, InRegion, Updated, NoRepeats, Views.Slice, Flatten;
      hide Region, RegionWritten, ReadFirst;
      ghost var vs := v.layout.shape;
      if Numel(v.layout.shape) == 0 {
        NothingUpdated(Contents(), layout.shape, v.Contents(), vs, start);
        return;
      }
      RegionNonEmpty(start, vs, layout.shape);
      EliminateZeroStride();
      ghost var was, was_v := buf[..], v.Contents();
      WriteRegion(v, start);
      Overwritten(layout, start, v.layout, v.buf == buf, was, buf[..], was_v);
    }

    /** The new value is not written over while it is read: it lies elsewhere, or is read first. */
    ghost predicate Undisturbed(v: NdArrayRef, start: Index)
      requires Valid() && v.Valid() && InRegion(start, v.layout.shape, layout.shape)
      reads this, v
    {
      v.buf != buf || !NoRepeats(layout) || (
        var sl := Region(layout, start, v.layout.shape);
        |sl.shape| == |sl.strides| && ReadFirst(v.layout, sl, Numel(v.layout.shape)))
    }

    /** Writes a single element directly, several through a slice. */
    method WriteRegion(v: NdArrayRef, start: Index)
      requires Valid() && Good(State(layout, buf.Length)) && NoRepeats(layout) && v.Valid()
      requires InRegion(start, v.layout.shape, layout.shape) && Numel(v.layout.shape) > 0
      modifies buf
      ensures v.buf != buf ==> RegionWritten(old(buf[..]), buf[..], Region(layout, start, v.layout.shape), v.Contents())
      ensures v.buf == buf ==>
        buf[..] == InOrder(old(buf[..]), v.layout, Region(layout, start, v.layout.shape), Numel(v.layout.shape))
    {
      hide Numel, OffAt, Linear, Layout.InBuffer, Good, NoRepeats, Views.Slice, Flatten;
      ghost var sl := Region(layout, start, v.layout.shape);
      RegionGood(layout, start, v.layout.shape, buf.Length);
      if Numel(v.layout.shape) == 1 {
        var it := new Iterator(layout, useFastIndexing, fastIndexingStride, start);
        SingleAddr(layout, start, v.layout.shape, v.layout);
        PositionInBuffer(v.layout, v.buf.Length, 0);
        PositionInBuffer(sl, buf.Length, 0);
        buf[it.ptr] := v.buf[v.layout.offset];
        return;
      }
      var extents := v.layout.shape;
      var end := seq(|start|, k requires 0 <= k < |start| => start[k] + extents[k]);
      var checked, l := Slice(start, end, seq(|start|, _ => 1));
      var slice := new NdArrayRef(buf, l);
      var src := new Iterator(v.layout, v.useFastIndexing, v.fastIndexingStride, seq(|v.layout.shape|, _ => 0));
      var dst := new Iterator(l, slice.useFastIndexing, slice.fastIndexingStride, seq(|l.shape|, _ => 0));
      AtFirst(v.layout);
      AtFirst(l);
      CopyRun(v.buf, v.layout, src, buf, l, dst, Numel(v.layout.shape));
    }
  }

  /** The region of l that begins at start. */
  ghost function Region(l: Layout, start: Index, vs: Shape): Layout
    requires |l.shape| == |l.strides| == |start| == |vs|
  {
    Views.Slice(l, start, seq(|start|, k requires 0 <= k < |start| => start[k] + vs[k]), seq(|start|, _ => 1))
  }

  /** Exactly the region's addresses were written, in order. */
  ghost predicate RegionWritten(was: seq<int>, now: seq<int>, sl: Layout, v: seq<int>) {
    && |sl.shape| == |sl.strides| && |was| == |now| && |v| == Numel(sl.shape)
    && (forall q: nat :: q < |v| ==> ElementAt(now, AddrAt(sl, q)) == v[q])
    && forall a: int :: (forall q: nat :: q < |v| ==> AddrAt(sl, q) != a) ==> ElementAt(now, a) == ElementAt(was, a)
  }

  /** The elements after writing the region, from another buffer or within this one. */
  lemma Overwritten(l: Layout, start: Index, vl: Layout, same: bool, was: seq<int>, now: seq<int>, v: seq<int>)
    requires |l.shape| == |l.strides| && Good(State(l, |was|)) && NoRepeats(l) && InRegion(start, vl.shape, l.shape)
    requires |vl.shape| == |vl.strides| && |v| == Numel(vl.shape)
    requires !same ==> RegionWritten(was, now, Region(l, start, vl.shape), v)
    requires same ==> vl.InBuffer(|was|) && v == Elements(was, vl)
    requires same ==> now == InOrder(was, vl, Region(l, start, vl.shape), Numel(vl.shape))
    ensures var sl := Region(l, start, vl.shape);
      |sl.shape| == |sl.strides| && (
      !same || ReadFirst(vl, sl, Numel(vl.shape)) ==>
        RegionWritten(was, now, sl, v) && (forall p: nat :: p < Numel(l.shape) ==>
          ElementAt(now, AddrAt(l, p)) == Updated(Elements(was, l), l.shape, v, vl.shape, start, p)))
  {
    hide Numel, OffAt, Layout.InBuffer, Good, Updated, NoRepeats, Region, RegionWritten, InOrder, ReadFirst;
    var sl := Region(l, start, vl.shape);
    RegionGood(l, start, vl.shape, |was|);
    if !same || ReadFirst(vl, sl, Numel(vl.shape)) {
      if same {
        OverlapExact(vl, sl, |was|);
        assert OrderHarmless(was, vl, sl);
      }
      forall p: nat | p < Numel(l.shape)
        ensures ElementAt(now, AddrAt(l, p)) == Updated(Elements(was, l), l.shape, v, vl.shape, start, p)
      {
        WrittenAt(l, start, vl.shape, was, now, v, p);
      }
    }
  }

  /** The first k elements of v stand in their places, and nothing else has changed. */
  ghost predicate WrittenUpTo(was: seq<int>, now: seq<int>, dl: Layout, v: seq<int>, k: nat) {
    && |dl.shape| == |dl.strides| && |was| == |now| && k <= |v|
    && (forall q: nat :: q < k ==> ElementAt(now, AddrAt(dl, q)) == v[q])
    && forall a: int :: (forall q: nat :: q < k ==> AddrAt(dl, q) != a) ==> ElementAt(now, a) == ElementAt(was, a)
  }

  lemma NothingWritten(b: seq<int>, dl: Layout, v: seq<int>)
    requires |dl.shape| == |dl.strides|
    ensures WrittenUpTo(b, b, dl, v, 0)
  {
    hide Numel, OffAt;
  }

  lemma WriteOneMore(was: seq<int>, now: seq<int>, dl: Layout, v: seq<int>, k: nat, a: nat)
    requires WrittenUpTo(was, now, dl, v, k) && Injective(dl) && k < |v| == Numel(dl.shape)
    requires a == AddrAt(dl, k) < |now|
    ensures WrittenUpTo(was, now[a := v[k]], dl, v, k + 1)
  {
    hide Numel, OffAt;
  }

  lemma AllWritten(was: seq<int>, now: seq<int>, dl: Layout, v: seq<int>)
    requires WrittenUpTo(was, now, dl, v, |v|) && |v| == Numel(dl.shape)
    ensures RegionWritten(was, now, dl, v)
  {
    hide Numel, OffAt;
  }

  lemma NothingUpdated(was: seq<int>, s: Shape, v: seq<int>, vs: Shape, start: Index)
    requires InRegion(start, vs, s) && |was| == Numel(s) && |v| == Numel(vs) == 0
    ensures forall p: nat :: p < Numel(s) ==> Updated(was, s, v, vs, start, p) == was[p]
  {
    hide Numel, Flatten, Unflatten;
  }

  lemma RegionNonEmpty(start: Index, vs: Shape, s: Shape)
    requires InRegion(start, vs, s) && Numel(vs) > 0
    ensures Numel(s) > 0 && |start| == |vs| == |s|
  {
    NumelPositive(vs);
    NumelPositive(s);
  }

  /** The region is a slice of step 1. */
  lemma RegionShape(l: Layout, start: Index, vs: Shape)
    requires |l.shape| == |l.strides| && InRegion(start, vs, l.shape)
    ensures var end, ones := seq(|start|, k requires 0 <= k < |start| => start[k] + vs[k]), seq(|start|, _ => 1);
      SliceChecks(l, start, end, ones) && Allowed(DoSlice(start, end, ones), l)
    ensures Region(l, start, vs).shape == vs && |Region(l, start, vs).strides| == |vs|
    ensures forall k :: 0 <= k < |vs| ==> Region(l, start, vs).strides[k] == if vs[k] == 1 then 0 else l.strides[k]
  {
    hide Off;
    var end: Index := seq(|start|, k requires 0 <= k < |start| => start[k] + vs[k]);
    forall k | 0 <= k < |vs|
      ensures SlicedExtent(start[k], end[k], 1) == vs[k]
    {
      DivModUnique(vs[k], vs[k], 0, 1);
    }
  }

  /** A region element is the array element at start plus its index. */
  lemma RegionAddr(l: Layout, start: Index, vs: Shape, q: nat) returns (p: nat)
    requires |l.shape| == |l.strides| && InRegion(start, vs, l.shape) && q < Numel(vs)
    ensures |Region(l, start, vs).shape| == |Region(l, start, vs).strides| && p < Numel(l.shape)
    ensures Minus(Unflatten(p, l.shape), start) == Unflatten(q, vs)
    ensures AddrAt(Region(l, start, vs), q) == AddrAt(l, p)
  {
    hide Off, Numel, Unflatten, Flatten, Views.Slice;
    RegionShape(l, start, vs);
    UnflattenRange(q, vs);
    var d := Unflatten(q, vs);
    var end, ones := seq(|start|, k requires 0 <= k < |start| => start[k] + vs[k]), seq(|start|, _ => 1);
    SliceAddr(l, start, end, ones, d);
    var src := SliceSource(d, start, ones);
    FlattenRange(src, l.shape);
    p := Flatten(src, l.shape);
    OffAtFlatten(l.shape, l.strides, src);
    assert Minus(src, start) == d;
  }

  lemma RegionGood(l: Layout, start: Index, vs: Shape, n: nat)
    requires |l.shape| == |l.strides| && Good(State(l, n)) && NoRepeats(l) && InRegion(start, vs, l.shape)
    ensures var sl := Region(l, start, vs);
      sl.shape == vs && |sl.strides| == |vs| && sl.InBuffer(n) && Injective(sl) && Injective(l)
    ensures var end, ones := seq(|start|, k requires 0 <= k < |start| => start[k] + vs[k]), seq(|start|, _ => 1);
      SliceChecks(l, start, end, ones)
  {
    hide Off, Numel, Layout.InBuffer, Layout.NoOverlap, Views.Slice;
    RegionShape(l, start, vs);
    var end, ones := seq(|start|, k requires 0 <= k < |start| => start[k] + vs[k]), seq(|start|, _ => 1);
    SliceGood(State(l, n), start, end, ones);
    OneAddressEach(l, n);
    OneAddressEach(Region(l, start, vs), n);
  }

  /** Without repeats, positions and addresses match one to one. */
  lemma OneAddressEach(l: Layout, n: nat)
    requires |l.shape| == |l.strides| && Good(State(l, n))
    requires NoRepeats(l) || forall k :: 0 <= k < |l.shape| && l.shape[k] > 1 ==> l.strides[k] != 0
    ensures Injective(l)
  {
    hide Off, Numel, Unflatten, Layout.InBuffer;
    forall p: nat, q: nat | p < Numel(l.shape) && q < Numel(l.shape) && AddrAt(l, p) == AddrAt(l, q)
      ensures p == q
    {
      UnflattenRange(p, l.shape);
      UnflattenRange(q, l.shape);
      var i, j := Unflatten(p, l.shape), Unflatten(q, l.shape);
      assert AgreeIndex(i, j, l.strides);
      assert i == j;
    }
  }

  /** A region of one element is the element at start. */
  lemma SingleAddr(l: Layout, start: Index, vs: Shape, vl: Layout)
    requires |l.shape| == |l.strides| && InRegion(start, vs, l.shape) && Numel(vs) == 1 && |vl.shape| == |vl.strides|
    ensures InBounds(start, l.shape) && 0 <= Flatten(start, l.shape) < Numel(l.shape)
    ensures |Region(l, start, vs).shape| == |Region(l, start, vs).strides|
    ensures AddrAt(l, Flatten(start, l.shape)) == AddrAt(Region(l, start, vs), 0) && AddrAt(vl, 0) == vl.offset
  {
    hide Off, Numel, Flatten, Views.Slice, OffAt, Unflatten;
    AllOnes(vs);
    var p := RegionAddr(l, start, vs, 0);
    FirstIndex(vs);
    OffAtZero(vl.shape, vl.strides);
    assert InBounds(start, l.shape);
    FlattenRange(start, l.shape);
    UnflattenRange(p, l.shape);
    var u := Unflatten(p, l.shape);
    forall k | 0 <= k < |start|
      ensures u[k] == start[k]
    {
      assert Minus(u, start)[k] == 0;
    }
    assert u == start;
  }

  /** What the array shows at a position after exactly the region was written. */
  lemma WrittenAt(l: Layout, start: Index, vs: Shape, was: seq<int>, now: seq<int>, v: seq<int>, p: nat)
    requires |l.shape| == |l.strides| && InRegion(start, vs, l.shape) && Injective(l) && |v| == Numel(vs) && p < Numel(l.shape)
    requires RegionWritten(was, now, Region(l, start, vs), v)
    ensures ElementAt(now, AddrAt(l, p)) == Updated(Elements(was, l), l.shape, v, vs, start, p)
  {
    hide Numel, Flatten, Unflatten, OffAt, Region;
    var sl := Region(l, start, vs);
    var d := Minus(Unflatten(p, l.shape), start);
    if InBounds(d, vs) {
      FlattenRange(d, vs);
      var q := Flatten(d, vs);
      var p' := RegionAddr(l, start, vs, q);
      SameIndex(l.shape, p, p', start);
    } else {
      forall q: nat | q < |v|
        ensures AddrAt(sl, q) != AddrAt(l, p)
      {
        var p' := RegionAddr(l, start, vs, q);
        UnflattenRange(q, vs);
      }
    }
  }

  lemma SameIndex(s: Shape, p: nat, q: nat, start: Index)
    requires p < Numel(s) && q < Numel(s) && |start| == |s| && Minus(Unflatten(p, s), start) == Minus(Unflatten(q, s), start)
    ensures p == q
  {
    hide Numel, Flatten, Unflatten;
    UnflattenRange(p, s);
    UnflattenRange(q, s);
    var i, j := Unflatten(p, s), Unflatten(q, s);
    forall k | 0 <= k < |s|
      ensures i[k] == j[k]
    {
      assert Minus(i, start)[k] == Minus(j, start)[k];
    }
    assert i == j;
  }

  /** A buffer after the first k elements of one view were copied to another view of it, one by one. */
  function InOrder(b: seq<int>, sl: Layout, dl: Layout, k: nat): (r: seq<int>)
    ensures |r| == |b|
  {
    if k == 0 || |sl.shape| != |sl.strides| || |dl.shape| != |dl.strides| then b
    else
      var c, x := InOrder(b, sl, dl, k - 1), AddrAt(dl, k - 1);
      if 0 <= x < |c| then c[x := ElementAt(c, AddrAt(sl, k - 1))] else c
  }

  /** No element is read after another one has been written over it. */
  ghost predicate ReadFirst(sl: Layout, dl: Layout, k: nat)
    requires |sl.shape| == |sl.strides| && |dl.shape| == |dl.strides|
  {
    forall q: nat, p: nat :: q < p < k && AddrAt(dl, q) == AddrAt(sl, p) ==> AddrAt(sl, q) == AddrAt(dl, q)
  }

  /** What holds of a buffer when the first k elements have been copied as if all at once. */
  ghost predicate CopiedUpTo(b: seq<int>, c: seq<int>, sl: Layout, dl: Layout, k: nat)
    requires |sl.shape| == |sl.strides| && |dl.shape| == |dl.strides|
  {
    && |b| == |c|
    && (forall q: nat :: q < k ==> ElementAt(c, AddrAt(dl, q)) == ElementAt(b, AddrAt(sl, q)))
    && forall a: int :: (forall q: nat :: q < k ==> AddrAt(dl, q) != a) ==> ElementAt(c, a) == ElementAt(b, a)
  }

  lemma {:induction false} InOrderCopies(b: seq<int>, sl: Layout, dl: Layout, k: nat)
    requires |sl.shape| == |sl.strides| && |dl.shape| == |dl.strides| && Numel(sl.shape) == Numel(dl.shape) && k <= Numel(dl.shape)
    requires sl.InBuffer(|b|) && dl.InBuffer(|b|) && Injective(dl) && ReadFirst(sl, dl, k)
    ensures CopiedUpTo(b, InOrder(b, sl, dl, k), sl, dl, k)
  {
    hide Numel, OffAt, Layout.InBuffer, AddrAt, Injective, ReadFirst, CopiedUpTo, ElementAt;
    if k == 0 {
      NothingCopied(b, sl, dl);
    } else {
      ReadFirstSoFar(sl, dl, k - 1);
      InOrderCopies(b, sl, dl, k - 1);
      PositionInBuffer(sl, |b|, k - 1);
      PositionInBuffer(dl, |b|, k - 1);
      CopyOneMore(b, InOrder(b, sl, dl, k - 1), sl, dl, k - 1);
    }
  }

  lemma NothingCopied(b: seq<int>, sl: Layout, dl: Layout)
    requires |sl.shape| == |sl.strides| && |dl.shape| == |dl.strides|
    ensures CopiedUpTo(b, b, sl, dl, 0)
  {
    hide AddrAt;
  }

  lemma ReadFirstSoFar(sl: Layout, dl: Layout, k: nat)
    requires |sl.shape| == |sl.strides| && |dl.shape| == |dl.strides| && ReadFirst(sl, dl, k + 1)
    ensures ReadFirst(sl, dl, k)
  {
    hide AddrAt;
  }

  lemma CopyOneMore(b: seq<int>, c: seq<int>, sl: Layout, dl: Layout, k: nat)
    requires |sl.shape| == |sl.strides| && |dl.shape| == |dl.strides| && k < Numel(dl.shape)
    requires Injective(dl) && ReadFirst(sl, dl, k + 1) && CopiedUpTo(b, c, sl, dl, k)
    requires 0 <= AddrAt(dl, k) < |b| && 0 <= AddrAt(sl, k) < |b|
    ensures CopiedUpTo(b, c[AddrAt(dl, k) := ElementAt(c, AddrAt(sl, k))], sl, dl, k + 1)
  {
    hide Numel, OffAt, AddrAt;
    var d := c[AddrAt(dl, k) := ElementAt(c, AddrAt(sl, k))];
    assert ElementAt(c, AddrAt(sl, k)) == ElementAt(b, AddrAt(sl, k)) by {
      if q: nat :| q < k && AddrAt(dl, q) == AddrAt(sl, k) {
        assert AddrAt(sl, q) == AddrAt(dl, q);
      }
    }
    forall a: int | forall q: nat :: q < k + 1 ==> AddrAt(dl, q) != a
      ensures ElementAt(d, a) == ElementAt(b, a)
    {
      assert AddrAt(dl, k) != a;
    }
  }

  /** Copied one by one, the region holds what all at once would have put there. */
  ghost predicate OrderHarmless(b: seq<int>, sl: Layout, dl: Layout)
    requires |sl.shape| == |sl.strides| && |dl.shape| == |dl.strides|
  {
    RegionWritten(b, InOrder(b, sl, dl, Numel(dl.shape)), dl, Elements(b, sl))
  }

  /** That is so for every content of the buffer if and only if no element is read after another was written over it. */
  lemma OverlapExact(sl: Layout, dl: Layout, n: nat)
    requires |sl.shape| == |sl.strides| && |dl.shape| == |dl.strides| && Numel(sl.shape) == Numel(dl.shape)
    requires sl.InBuffer(n) && dl.InBuffer(n) && Injective(dl)
    ensures ReadFirst(sl, dl, Numel(dl.shape)) <==> forall b: seq<int> :: |b| == n ==> OrderHarmless(b, sl, dl)
  {
    hide Numel, OffAt, Layout.InBuffer, AddrAt, InOrder, ReadFirst, Injective;
    var m := Numel(dl.shape);
    if ReadFirst(sl, dl, m) {
      forall b: seq<int> | |b| == n
        ensures OrderHarmless(b, sl, dl)
      {
        InOrderCopies(b, sl, dl, m);
      }
    } else {
      var q, p := FirstMisread(sl, dl, m);
      var b := Misread(sl, dl, n, q, p);
      assert !OrderHarmless(b, sl, dl);
    }
  }

  lemma {:induction false} FirstMisread(sl: Layout, dl: Layout, k: nat) returns (q: nat, p: nat)
    requires |sl.shape| == |sl.strides| && |dl.shape| == |dl.strides| && !ReadFirst(sl, dl, k)
    ensures q < p < k && AddrAt(dl, q) == AddrAt(sl, p) && AddrAt(sl, q) != AddrAt(dl, q) && ReadFirst(sl, dl, p)
  {
    hide AddrAt;
    if !ReadFirst(sl, dl, k - 1) {
      q, p := FirstMisread(sl, dl, k - 1);
    } else {
      q, p :| q < p < k && AddrAt(dl, q) == AddrAt(sl, p) && AddrAt(sl, q) != AddrAt(dl, q);
    }
  }

  /** The buffer that holds its own addresses shows the first element read too late. */
  lemma Misread(sl: Layout, dl: Layout, n: nat, q: nat, p: nat) returns (b: seq<int>)
    requires |sl.shape| == |sl.strides| && |dl.shape| == |dl.strides| && Numel(sl.shape) == Numel(dl.shape) && q < p < Numel(dl.shape)
    requires sl.InBuffer(n) && dl.InBuffer(n) && Injective(dl) && ReadFirst(sl, dl, p)
    requires AddrAt(dl, q) == AddrAt(sl, p) && AddrAt(sl, q) != AddrAt(dl, q)
    ensures |b| == n
    ensures ElementAt(InOrder(b, sl, dl, Numel(dl.shape)), AddrAt(dl, p)) != ElementAt(b, AddrAt(sl, p))
  {
    hide Numel, OffAt, Layout.InBuffer, AddrAt, ReadFirst, Injective;
    b := seq(n, a => a);
    InOrderCopies(b, sl, dl, p);
    PositionInBuffer(sl, n, p);
    PositionInBuffer(sl, n, q);
    PositionInBuffer(dl, n, p);
    assert ElementAt(InOrder(b, sl, dl, p + 1), AddrAt(dl, p)) == AddrAt(sl, q);
    InOrderStays(b, sl, dl, p, Numel(dl.shape));
  }

  lemma {:induction false} InOrderStays(b: seq<int>, sl: Layout, dl: Layout, p: nat, k: nat)
    requires |sl.shape| == |sl.strides| && |dl.shape| == |dl.strides| && p < k <= Numel(dl.shape) && Injective(dl)
    ensures ElementAt(InOrder(b, sl, dl, k), AddrAt(dl, p)) == ElementAt(InOrder(b, sl, dl, p + 1), AddrAt(dl, p))
    decreases k
  {
    hide Numel, OffAt, AddrAt;
    if p + 1 < k {
      InOrderStays(b, sl, dl, p, k - 1);
    }
  }

  /** Copies n elements from one iterator to the other. */
  method CopyRun(sb: array<int>, sl: Layout, src: Iterator, db: array<int>, dl: Layout, dst: Iterator, n: nat)
    requires src.At(sl, 0) && dst.At(dl, 0) && src != dst && n == Numel(sl.shape) == Numel(dl.shape)
    requires sl.InBuffer(sb.Length) && dl.InBuffer(db.Length) && Injective(dl)
    modifies src, dst, db
    ensures sb != db ==> RegionWritten(old(db[..]), db[..], dl, Elements(sb[..], sl))
    ensures sb == db ==> db[..] == InOrder(old(db[..]), sl, dl, n)
  {
    hide Numel, OffAt, Layout.InBuffer, WrittenUpTo, Injective, RegionWritten;
    ghost var was, v := db[..], Elements(sb[..], sl);
    NothingWritten(was, dl, v);
    for k := 0 to n
      invariant src.At(sl, k) && dst.At(dl, k)
      invariant sb != db ==> WrittenUpTo(was, db[..], dl, v, k)
      invariant sb == db ==> db[..] == InOrder(was, sl, dl, k)
    {
      PositionInBuffer(sl, sb.Length, k);
      PositionInBuffer(dl, db.Length, k);
      ghost var now := db[..];
      db[dst.ptr] := sb[src.ptr];
      if sb != db {
        WriteOneMore(was, now, dl, v, k, dst.ptr);
        assert db[..] == now[dst.ptr := v[k]];
      }
      src.Next(sl, k);
      dst.Next(dl, k);
    }
    if sb != db {
      AllWritten(was, db[..], dl, v);
    }
  }

  /** No axis of extent other than 1 stands still. */
  predicate NoRepeats(l: Layout)
    requires |l.shape| == |l.strides|
  {
    forall k :: 0 <= k < |l.shape| && l.shape[k] != 1 ==> l.strides[k] != 0
  }

  lemma FreshNoRepeats(s: Shape)
    ensures |Fresh(s).strides| == |s| && (Numel(s) > 0 ==> NoRepeats(Fresh(s)))
  {
    hide Numel;
    if Numel(s) > 0 {
      forall k | 0 <= k < |s| && s[k] != 1
        ensures Fresh(s).strides[k] != 0
      {
        assert s[0..] == s;
        RangePositive(s, 0, k + 1);
      }
    }
  }

  /** A region of extents v that begins at start lies inside s. */
  predicate InRegion(start: Index, v: Shape, s: Shape) {
    |start| == |v| == |s| && forall k :: 0 <= k < |s| ==> 0 <= start[k] && start[k] + v[k] <= s[k]
  }

  /** The element at position p after a region was overwritten. */
  ghost function Updated(was: seq<int>, s: Shape, v: seq<int>, vs: Shape, start: Index, p: nat): int
    requires InRegion(start, vs, s) && |was| == Numel(s) && |v| == Numel(vs) && p < Numel(s)
  {
    var idx := Minus(Unflatten(p, s), start);
    if InBounds(idx, vs) && 0 <= Flatten(idx, vs) < |v| then v[Flatten(idx, vs)] else was[p]
  }

  function Minus(i: Index, j: Index): (d: Index)
    requires |i| == |j|
    ensures |d| == |i| && forall k :: 0 <= k < |i| ==> d[k] == i[k] - j[k]
  {
    seq(|i|, k requires 0 <= k < |i| => i[k] - j[k])
  }

  lemma StepExtent(len: nat, step: int)
    requires step > 0
    ensures len / step >= 0
  {
  }

  lemma TrailingPlaced(l: Layout, to: Shape, strides: Strides)
    requires |l.shape| == |l.strides| <= |to| == |strides|
    requires forall k :: 0 <= k < |to| ==>
      strides[k] == if k >= |to| - |l.strides| then l.strides[|l.strides| - |to| + k] else 0
    ensures strides == Placed(l.strides, DimsOf(l, to, []), |to|)
  {
    hide Placed, Off;
    var d, m := DimsOf(l, to, []), |to| - |l.strides|;
    var p := Placed(l.strides, d, |to|);
    PlacedOff(l.strides, d, |to|, seq(|to|, _ => 0));
    forall k | 0 <= k < |to|
      ensures strides[k] == p[k]
    {
      if k >= m {
        var i := k - m;
        assert d[i] == k && p[d[i]] == l.strides[i];
      } else {
        assert k !in d;
      }
    }
  }

  lemma ReshapedInside(l: Layout, to: Shape, r: Layout, n: nat)
    requires l.InBuffer(n) && |r.shape| == |r.strides| && r.shape == to && Numel(to) == Numel(l.shape)
    requires forall p: nat :: p < Numel(to) ==> AddrAt(r, p) == AddrAt(l, p)
    ensures r.InBuffer(n)
  {
    hide Numel, OffAt, Off, Flatten;
    forall idx: Index | InBounds(idx, r.shape)
      ensures 0 <= r.Addr(idx) < n
    {
      FlattenRange(idx, to);
      OffAtFlatten(to, r.strides, idx);
      PositionInBuffer(l, n, Flatten(idx, to));
    }
  }

  /** An iterator begun at the zero index is at position 0, or past the end of an empty array. */
  lemma AtFirst(l: Layout)
    requires |l.shape| == |l.strides|
    ensures var z: Index := seq(|l.shape|, _ => 0);
      (InBounds(z, l.shape) <==> Numel(l.shape) > 0) && (Numel(l.shape) > 0 ==> Flatten(z, l.shape) == 0)
  {
    hide Numel, Flatten, Unflatten;
    NumelPositive(l.shape);
    FirstIndex(l.shape);
    if Numel(l.shape) > 0 {
      UnflattenRange(0, l.shape);
    }
  }
}
