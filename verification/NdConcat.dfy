/** Concatenation along an axis: every part is copied into its own slice of the result. */
module NdConcat {
  import opened Shapes
  import opened NoCopyReshape
  import opened Views
  import opened ViewSafety
  import opened NdArrays
  import opened NdPadding

  /** The extents up to part n along the axis. */
  function StartOf(shapes: seq<Shape>, axis: nat, n: nat): nat
    requires n <= |shapes| && forall j :: 0 <= j < |shapes| ==> axis < |shapes[j]|
  {
    if n == 0 then 0 else StartOf(shapes, axis, n - 1) + shapes[n - 1][axis]
  }

  /** All parts agree except along the axis. */
  predicate Aligned(shapes: seq<Shape>, axis: nat) {
    && shapes != [] && axis < |shapes[0]|
    && (forall j :: 0 <= j < |shapes| ==> |shapes[j]| == |shapes[0]|)
    && forall j, k :: 0 <= j < |shapes| && 0 <= k < |shapes[0]| && k != axis ==> shapes[j][k] == shapes[0][k]
  }

  function ShapesOf(parts: seq<NdArrayRef>): (s: seq<Shape>)
    reads parts
    ensures |s| == |parts| && forall j :: 0 <= j < |parts| ==> s[j] == parts[j].layout.shape
  {
    if parts == [] then [] else ShapesOf(parts[..|parts| - 1]) + [parts[|parts| - 1].layout.shape]
  }

  /** The zero index moved along the axis. */
  function At(rank: nat, axis: nat, x: int): (idx: Index)
    ensures |idx| == rank && forall k :: 0 <= k < rank ==> idx[k] == if k == axis then x else 0
  {
    seq(rank, k => if k == axis then x else 0)
  }

  function Moved(idx: Index, axis: nat, x: int): (r: Index)
    ensures |r| == |idx| && forall k :: 0 <= k < |idx| ==> r[k] == if k == axis then idx[k] + x else idx[k]
  {
    seq(|idx|, k requires 0 <= k < |idx| => if k == axis then idx[k] + x else idx[k])
  }

  /** The elements e show v moved by x along the axis. */
  ghost predicate Shows(e: seq<int>, rs: Shape, v: seq<int>, vs: Shape, axis: nat, x: int) {
    forall idx: Index :: InBounds(idx, vs) ==> AtIndex(e, rs, Moved(idx, axis, x)) == AtIndex(v, vs, idx)
  }

  lemma {:induction false} StartsGrow(shapes: seq<Shape>, axis: nat, i: nat, n: nat)
    requires i <= n <= |shapes| && forall j :: 0 <= j < |shapes| ==> axis < |shapes[j]|
    ensures StartOf(shapes, axis, i) <= StartOf(shapes, axis, n)
    ensures i < n ==> StartOf(shapes, axis, i) + shapes[i][axis] <= StartOf(shapes, axis, n)
    decreases n
  {
    if i < n {
      StartsGrow(shapes, axis, i, n - 1);
    }
  }

  /** Every index of the result is a moved index of some part. */
  lemma {:induction false} PartOf(shapes: seq<Shape>, axis: nat, n: nat, t: Index) returns (j: nat, idx: Index)
    requires Aligned(shapes, axis) && n <= |shapes| && |t| == |shapes[0]| && 0 <= t[axis] < StartOf(shapes, axis, n)
    requires forall k :: 0 <= k < |t| && k != axis ==> 0 <= t[k] < shapes[0][k]
    ensures j < n && InBounds(idx, shapes[j]) && t == Moved(idx, axis, StartOf(shapes, axis, j))
  {
    if t[axis] < StartOf(shapes, axis, n - 1) {
      j, idx := PartOf(shapes, axis, n - 1, t);
    } else {
      j := n - 1;
      idx := t[axis := t[axis] - StartOf(shapes, axis, j)];
    }
  }

  /** And of only one. */
  lemma PartOnce(shapes: seq<Shape>, axis: nat, i: nat, idx: Index, j: nat, idx': Index)
    requires Aligned(shapes, axis) && i < |shapes| && j < |shapes| && InBounds(idx, shapes[i]) && InBounds(idx', shapes[j])
    requires Moved(idx, axis, StartOf(shapes, axis, i)) == Moved(idx', axis, StartOf(shapes, axis, j))
    ensures i == j && idx == idx'
  {
    var t, t' := Moved(idx, axis, StartOf(shapes, axis, i)), Moved(idx', axis, StartOf(shapes, axis, j));
    assert t[axis] == t'[axis];
    if i < j {
      StartsGrow(shapes, axis, i, j);
    } else if j < i {
      StartsGrow(shapes, axis, j, i);
    }
    forall k | 0 <= k < |idx|
      ensures idx[k] == idx'[k]
    {
      assert t[k] == t'[k];
    }
  }

  /** Part n's region lies inside the result. */
  lemma PartInside(shapes: seq<Shape>, axis: nat, n: nat, rs: Shape)
    requires Aligned(shapes, axis) && n < |shapes| && |rs| == |shapes[0]|
    requires forall k :: 0 <= k < |rs| ==> rs[k] == if k == axis then StartOf(shapes, axis, |shapes|) else shapes[0][k]
    ensures InRegion(At(|rs|, axis, StartOf(shapes, axis, n)), shapes[n], rs)
  {
    StartsGrow(shapes, axis, n, |shapes|);
  }

  /** After writing a region, it shows what was written, and other regions what they did. */
  lemma WrittenShows(l: Layout, axis: nat, x: nat, vs: Shape, was: seq<int>, now: seq<int>, v: seq<int>)
    requires |l.shape| == |l.strides| && axis < |l.shape| && InRegion(At(|l.shape|, axis, x), vs, l.shape) && Injective(l) && |v| == Numel(vs)
    requires RegionWritten(was, now, Region(l, At(|l.shape|, axis, x), vs), v)
    ensures Shows(Elements(now, l), l.shape, v, vs, axis, x)
  {
    hide Numel, Flatten, Unflatten, OffAt, Region;
    forall idx: Index | InBounds(idx, vs)
      ensures AtIndex(Elements(now, l), l.shape, Moved(idx, axis, x)) == AtIndex(v, vs, idx)
    {
      var to := Moved(idx, axis, x);
      FlattenRange(to, l.shape);
      FlattenRange(idx, vs);
      WrittenAt(l, At(|l.shape|, axis, x), vs, was, now, v, Flatten(to, l.shape));
      assert Minus(to, At(|l.shape|, axis, x)) == idx;
    }
  }

  lemma OthersStay(l: Layout, axis: nat, x: nat, vs: Shape, was: seq<int>, now: seq<int>, v: seq<int>, u: seq<int>, us: Shape, y: nat)
    requires |l.shape| == |l.strides| && axis < |l.shape| && InRegion(At(|l.shape|, axis, x), vs, l.shape) && Injective(l) && |v| == Numel(vs)
    requires RegionWritten(was, now, Region(l, At(|l.shape|, axis, x), vs), v)
    requires InRegion(At(|l.shape|, axis, y), us, l.shape) && y + us[axis] <= x && Shows(Elements(was, l), l.shape, u, us, axis, y)
    ensures Shows(Elements(now, l), l.shape, u, us, axis, y)
  {
    hide Numel, Flatten, Unflatten, OffAt, Region;
    forall idx: Index | InBounds(idx, us)
      ensures AtIndex(Elements(now, l), l.shape, Moved(idx, axis, y)) == AtIndex(u, us, idx)
    {
      var to := Moved(idx, axis, y);
      FlattenRange(to, l.shape);
      WrittenAt(l, At(|l.shape|, axis, x), vs, was, now, v, Flatten(to, l.shape));
      assert Minus(to, At(|l.shape|, axis, x))[axis] < 0;
      assert AtIndex(Elements(was, l), l.shape, to) == AtIndex(u, us, idx);
    }
  }

  /** Copies one part into the result. */
  method CopyPart(result: NdArrayRef, part: NdArrayRef, axis: nat, start: nat)
    requires result.Valid() && part.Valid() && result.buf != part.buf && result.layout == Fresh(result.layout.shape)
    requires result.buf.Length == Numel(result.layout.shape) && axis < |result.layout.shape|
    requires InRegion(At(|result.layout.shape|, axis, start), part.layout.shape, result.layout.shape)
    modifies result.buf
    ensures Numel(part.layout.shape) > 0 ==> Injective(result.layout) && RegionWritten(old(result.buf[..]), result.buf[..],
      Region(result.layout, At(|result.layout.shape|, axis, start), part.layout.shape), part.Contents())
    ensures Numel(part.layout.shape) == 0 ==> result.buf[..] == old(result.buf[..])
  {
    hide Numel, OffAt, Linear, Layout.InBuffer, Good, Views.Slice, Flatten, NoRepeats, CompactStride;
    if Numel(part.layout.shape) == 0 {
      return;
    }
    var rs := result.layout.shape;
    var base := At(|rs|, axis, start);
    var extents := part.layout.shape;
    RegionNonEmpty(base, extents, rs);
    FreshGood(rs, Numel(rs));
    FreshNoRepeats(rs);
    RegionGood(result.layout, base, extents, result.buf.Length);
    var end := seq(|base|, k requires 0 <= k < |base| => base[k] + extents[k]);
    var ok, l := result.Slice(base, end, seq(|base|, _ => 1));
    var slice := new NdArrayRef(result.buf, l);
    var src := new Iterator(part.layout, part.useFastIndexing, part.fastIndexingStride, seq(|extents|, _ => 0));
    var dst := new Iterator(l, slice.useFastIndexing, slice.fastIndexingStride, seq(|l.shape|, _ => 0));
    AtFirst(part.layout);
    AtFirst(l);
    CopyRun(part.buf, part.layout, src, result.buf, l, dst, Numel(extents));
  }

  /** An array without elements is shown by anything. */
  lemma EmptyShows(e: seq<int>, rs: Shape, v: seq<int>, vs: Shape, axis: nat, x: int)
    requires Numel(vs) == 0
    ensures Shows(e, rs, v, vs, axis, x)
  {
    hide Numel, Flatten;
    forall idx: Index | InBounds(idx, vs)
      ensures false
    {
      FlattenRange(idx, vs);
    }
  }

  /** Part n of several. */
  ghost predicate PartShown(result: NdArrayRef, parts: seq<NdArrayRef>, shapes: seq<Shape>, axis: nat, n: nat)
    requires n < |parts| == |shapes| && result.Valid() && parts[n].Valid() && forall j :: 0 <= j < |shapes| ==> axis < |shapes[j]|
    reads result, result.buf, parts[n], parts[n].buf
  {
    Shows(result.Contents(), result.layout.shape, parts[n].Contents(), parts[n].layout.shape, axis, StartOf(shapes, axis, n))
  }

  /** Copies part n behind the parts before it. */
  method AddPart(result: NdArrayRef, parts: seq<NdArrayRef>, ghost shapes: seq<Shape>, axis: nat, n: nat, start: nat)
    requires result.Valid() && result.layout == Fresh(result.layout.shape) && result.buf.Length == Numel(result.layout.shape)
    requires n < |parts| == |shapes| && Aligned(shapes, axis) && |result.layout.shape| == |shapes[0]|
    requires forall j :: 0 <= j < |parts| ==> parts[j].Valid() && parts[j].layout.shape == shapes[j] && parts[j].buf != result.buf
    requires forall k :: 0 <= k < |shapes[0]| ==> result.layout.shape[k] == if k == axis then StartOf(shapes, axis, |shapes|) else shapes[0][k]
    requires start == StartOf(shapes, axis, n)
    requires forall j :: 0 <= j < n ==> PartShown(result, parts, shapes, axis, j)
    modifies result.buf
    ensures forall j :: 0 <= j <= n ==> PartShown(result, parts, shapes, axis, j)
  {
    hide Numel, OffAt, Layout.InBuffer, Linear, CompactStride, Injective, RegionWritten, Shows, Elements;
    var l := result.layout;
    ghost var was := result.buf[..];
    PartInside(shapes, axis, n, l.shape);
    CopyPart(result, parts[n], axis, start);
    ghost var v, vs := parts[n].Contents(), shapes[n];
    if Numel(vs) > 0 {
      WrittenShows(l, axis, start, vs, was, result.buf[..], v);
    } else {
      EmptyShows(result.Contents(), l.shape, v, vs, axis, start);
    }
    forall j | 0 <= j < n
      ensures PartShown(result, parts, shapes, axis, j)
    {
      assert old(PartShown(result, parts, shapes, axis, j));
      assert parts[j].Contents() == old(parts[j].Contents());
      assert old(result.Contents()) == Elements(was, l);
      if Numel(vs) > 0 {
        StartsGrow(shapes, axis, j, n);
        PartInside(shapes, axis, j, l.shape);
        OthersStay(l, axis, start, vs, was, result.buf[..], v, parts[j].Contents(), shapes[j], StartOf(shapes, axis, j));
      }
    }
  }

  /** The extents add up along the axis. */
  method ResultShape(a: NdArrayRef, others: seq<NdArrayRef>, axis: nat, ghost shapes: seq<Shape>) returns (rs: Shape)
    requires shapes == ShapesOf([a] + others) && Aligned(shapes, axis)
    ensures |rs| == |shapes[0]| && axis < |rs|
    ensures forall k :: 0 <= k < |rs| ==> rs[k] == if k == axis then StartOf(shapes, axis, |shapes|) else shapes[0][k]
  {
    hide ShapesOf;
    ghost var parts := [a] + others;
    rs := a.layout.shape;
    for j := 0 to |others|
      invariant |rs| == |shapes[0]|
      invariant forall k :: 0 <= k < |rs| ==> rs[k] == if k == axis then StartOf(shapes, axis, j + 1) else shapes[0][k]
    {
      assert parts[j + 1] == others[j];
      rs := rs[axis := rs[axis] + others[j].layout.shape[axis]];
    }
  }

  /** All parts one behind the other along the axis, in a new array. */
  method Concatenate(a: NdArrayRef, others: seq<NdArrayRef>, axis: nat) returns (result: NdArrayRef, ghost shapes: seq<Shape>)
    requires forall j :: 0 <= j < |[a] + others| ==> ([a] + others)[j].Valid()
    requires Aligned(ShapesOf([a] + others), axis)
    ensures shapes == ShapesOf([a] + others) && |shapes| == |[a] + others| && axis < |shapes[0]|
    ensures result.Valid() && fresh(result.buf) && result.layout == Fresh(result.layout.shape) && |result.layout.shape| == |shapes[0]|
    ensures forall j :: 0 <= j < |shapes| ==> axis < |shapes[j]|
    ensures forall k :: 0 <= k < |shapes[0]| ==> result.layout.shape[k] == if k == axis then StartOf(shapes, axis, |shapes|) else shapes[0][k]
    ensures forall j :: 0 <= j < |shapes| ==> PartShown(result, [a] + others, shapes, axis, j)
  {
    hide Numel, OffAt, Layout.InBuffer, Linear, CompactStride, Injective, Shows, Elements, ShapesOf;
    var parts := [a] + others;
    shapes := ShapesOf(parts);
    var rs := ResultShape(a, others, axis, shapes);
    result := new NdArrayRef.Alloc(rs);
    var start := 0;
    AddPart(result, parts, shapes, axis, 0, start);
    start := start + a.layout.shape[axis];
    for j := 0 to |others|
      invariant result.Valid() && fresh(result) && fresh(result.buf) && result.layout == Fresh(rs) && result.buf.Length == Numel(rs)
      invariant start == StartOf(shapes, axis, j + 1)
      invariant forall n :: 0 <= n <= j ==> PartShown(result, parts, shapes, axis, n)
    {
      assert parts[j + 1] == others[j];
      AddPart(result, parts, shapes, axis, j + 1, start);
      start := start + others[j].layout.shape[axis];
    }
  }
}
