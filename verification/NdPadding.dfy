/** Operations that fill a new array: expanding a scalar, and padding. */
module NdPadding {
  import opened Arith
  import opened FiniteSets
  import opened Shapes
  import opened NoCopyReshape
  import opened Views
  import opened NdArrays

  /** Copies one element everywhere, doubling the filled part each round.  The target must have elements. */
  method Expand(a: NdArrayRef, to: Shape) returns (ok: bool, r: NdArrayRef)
    requires a.Valid() && Numel(to) > 0
    ensures ok <==> Numel(a.layout.shape) == 1
    ensures ok ==> r.Valid() && fresh(r) && fresh(r.buf) && r.layout == Fresh(to) && r.buf.Length == Numel(to)
    ensures ok ==> forall p :: 0 <= p < Numel(to) ==> r.buf[p] == a.Contents()[0]
  {
    hide Numel, OffAt, Layout.InBuffer, CompactStride;
    if Numel(a.layout.shape) != 1 {
      return false, a;
    }
    r := new NdArrayRef.Alloc(to);
    var numel := Numel(to);
    PositionInBuffer(a.layout, a.buf.Length, 0);
    OffAtZero(a.layout.shape, a.layout.strides);
    r.buf[0] := a.buf[a.layout.offset];
    var copied := 1;
    while copied != numel
      invariant 1 <= copied <= numel && fresh(r) && fresh(r.buf)
      invariant r.Valid() && r.layout == Fresh(to) && r.buf.Length == numel && r.buf != a.buf
      invariant forall p :: 0 <= p < copied ==> r.buf[p] == a.Contents()[0]
    {
      var size := if copied <= numel - copied then copied else numel - copied;
      for k := 0 to size
        invariant fresh(r) && fresh(r.buf) && r.Valid() && r.layout == Fresh(to) && r.buf.Length == numel && r.buf != a.buf
        invariant forall p :: 0 <= p < copied + k ==> r.buf[p] == a.Contents()[0]
      {
        r.buf[copied + k] := r.buf[k];
      }
      copied := copied + size;
    }
    ok := true;
  }

  // ---- padding ----

  /** How an axis is padded. */
  datatype Padding = Padding(low: seq<int>, high: seq<int>, interior: seq<nat>)

  /** The padded extents. */
  function PaddedDim(s: Shape, pad: Padding, k: nat): int
    requires k < |s| == |pad.low| == |pad.high| == |pad.interior|
  {
    pad.low[k] + pad.high[k] + pad.interior[k] * (s[k] as int - 1) + s[k]
  }

  predicate PadSizes(s: Shape, pad: Padding) {
    |pad.low| == |pad.high| == |pad.interior| == |s|
  }

  /** Where element i goes, if that is inside. */
  function Target(i: Index, pad: Padding): (t: Index)
    requires |i| == |pad.low| == |pad.interior|
    ensures |t| == |i| && forall k :: 0 <= k < |i| ==> t[k] == pad.low[k] + i[k] * (pad.interior[k] + 1)
  {
    seq(|i|, k requires 0 <= k < |i| => pad.low[k] + i[k] * (pad.interior[k] + 1))
  }

  /** The last element along an axis is followed by as many slots as padding is asked for there, or is that far outside. */
  lemma DimReaches(s: Shape, pad: Padding, k: nat)
    requires PadSizes(s, pad) && k < |s|
    ensures s[k] > 0 ==> PaddedDim(s, pad, k) == Target(LastOf(s), pad)[k] + 1 + pad.high[k]
    ensures s[k] == 0 ==> PaddedDim(s, pad, k) == pad.low[k] + pad.high[k] - pad.interior[k]
  {
    var n := s[k] as int - 1;
    assert n * (pad.interior[k] + 1) == pad.interior[k] * n + n;
  }

  method DeducePadShape(s: Shape, pad: Padding) returns (ok: bool, dims: seq<int>)
    ensures ok <==> PadSizes(s, pad)
    ensures ok ==> |dims| == |s| && forall k :: 0 <= k < |s| ==> dims[k] == PaddedDim(s, pad, k)
    ensures ok ==> forall k :: 0 <= k < |s| && s[k] > 0 ==> dims[k] == Target(LastOf(s), pad)[k] + 1 + pad.high[k]
    ensures ok ==> forall k :: 0 <= k < |s| && s[k] == 0 ==> dims[k] == pad.low[k] + pad.high[k] - pad.interior[k]
  {
    dims := [];
    if !PadSizes(s, pad) {
      return false, dims;
    }
    for k := 0 to |s|
      invariant |dims| == k && forall j :: 0 <= j < k ==> dims[j] == PaddedDim(s, pad, j)
    {
      dims := dims + [pad.low[k] + pad.high[k] + pad.interior[k] * (s[k] as int - 1) + s[k]];
    }
    forall k | 0 <= k < |s|
      ensures s[k] > 0 ==> dims[k] == Target(LastOf(s), pad)[k] + 1 + pad.high[k]
      ensures s[k] == 0 ==> dims[k] == pad.low[k] + pad.high[k] - pad.interior[k]
    {
      DimReaches(s, pad, k);
    }
    ok := true;
  }

  lemma TargetsDiffer(i: Index, j: Index, pad: Padding)
    requires |i| == |j| == |pad.low| == |pad.interior| && Target(i, pad) == Target(j, pad)
    ensures i == j
  {
    forall k | 0 <= k < |i|
      ensures i[k] == j[k]
    {
      assert Target(i, pad)[k] == Target(j, pad)[k];
      MulCancel(i[k], j[k], pad.interior[k] + 1);
    }
  }

  /** The slot of the compact result that element p goes to, or -1 if it falls outside. */
  ghost function SlotOf(s: Shape, pad: Padding, rs: Shape, p: nat): int
    requires PadSizes(s, pad) && |rs| == |s|
  {
    var t := Target(Unflatten(p, s), pad);
    if InBounds(t, rs) then Flatten(t, rs) else -1
  }

  lemma SlotRange(s: Shape, pad: Padding, rs: Shape, p: nat)
    requires PadSizes(s, pad) && |rs| == |s|
    ensures SlotOf(s, pad, rs, p) < Numel(rs)
    ensures SlotOf(s, pad, rs, p) >= 0 <==> InBounds(Target(Unflatten(p, s), pad), rs)
  {
    hide Numel, Flatten, Unflatten;
    var t := Target(Unflatten(p, s), pad);
    if InBounds(t, rs) {
      FlattenRange(t, rs);
    }
  }

  lemma SlotsDiffer(s: Shape, pad: Padding, rs: Shape, p: nat, q: nat)
    requires PadSizes(s, pad) && |rs| == |s| && p < Numel(s) && q < Numel(s)
    requires SlotOf(s, pad, rs, p) == SlotOf(s, pad, rs, q) >= 0
    ensures p == q
  {
    hide Numel, Flatten, Unflatten;
    var t, u := Target(Unflatten(p, s), pad), Target(Unflatten(q, s), pad);
    SlotRange(s, pad, rs, p);
    SlotRange(s, pad, rs, q);
    FlattenRange(t, rs);
    FlattenRange(u, rs);
    TargetsDiffer(Unflatten(p, s), Unflatten(q, s), pad);
    UnflattenRange(p, s);
    UnflattenRange(q, s);
  }

  /** Elements done are in place; slots that no element goes to hold the padding value. */
  ghost predicate Padded(b: seq<int>, e: seq<int>, v: int, s: Shape, pad: Padding, rs: Shape, done: set<nat>) {
    && PadSizes(s, pad) && |rs| == |s| && |b| == Numel(rs) && |e| == Numel(s)
    && (forall p: nat :: p in done && p < |e| && SlotOf(s, pad, rs, p) >= 0 ==> ElementAt(b, SlotOf(s, pad, rs, p)) == e[p])
    && forall x :: 0 <= x < |b| && (forall p: nat :: p < |e| ==> SlotOf(s, pad, rs, p) != x) ==> b[x] == v
  }

  lemma PaddedOneMore(b: seq<int>, e: seq<int>, v: int, s: Shape, pad: Padding, rs: Shape, done: set<nat>, p: nat)
    requires Padded(b, e, v, s, pad, rs, done) && p < |e|
    ensures var x := SlotOf(s, pad, rs, p);
      x < |b| && Padded(if x >= 0 then b[x := e[p]] else b, e, v, s, pad, rs, done + {p})
  {
    hide Numel, SlotOf;
    SlotRange(s, pad, rs, p);
    var x := SlotOf(s, pad, rs, p);
    var b' := if x >= 0 then b[x := e[p]] else b;
    forall q: nat | q in done + {p} && q < |e| && SlotOf(s, pad, rs, q) >= 0
      ensures ElementAt(b', SlotOf(s, pad, rs, q)) == e[q]
    {
      SlotRange(s, pad, rs, q);
      if SlotOf(s, pad, rs, q) == x {
        SlotsDiffer(s, pad, rs, p, q);
      }
    }
  }

  /** The target of an index; not valid as soon as one coordinate is out of range. */
  method TargetIndex(i: Index, pad: Padding, rs: Shape) returns (valid: bool, target: Index)
    requires |i| == |rs| == |pad.low| == |pad.interior|
    ensures valid <==> InBounds(Target(i, pad), rs)
    ensures valid ==> target == Target(i, pad)
  {
    target := [];
    for k := 0 to |i|
      invariant target == Target(i, pad)[..k]
      invariant forall j :: 0 <= j < k ==> 0 <= target[j] < rs[j]
    {
      var t := pad.low[k] + i[k] * (pad.interior[k] + 1);
      if t < 0 || t >= rs[k] {
        return false, target;
      }
      target := target + [t];
    }
    assert Target(i, pad)[..|i|] == Target(i, pad);
    valid := true;
  }

  /** Puts one element in place. */
  method PadElement(a: NdArrayRef, result: NdArrayRef, pad: Padding, i: Index, ghost p: nat, ghost v: int, ghost done: set<nat>)
    requires a.Valid() && result.Valid() && result.buf != a.buf && PadSizes(a.layout.shape, pad)
    requires result.layout == Fresh(result.layout.shape) && |result.layout.shape| == |a.layout.shape|
    requires p < Numel(a.layout.shape) && i == Unflatten(p, a.layout.shape)
    requires Padded(result.buf[..], a.Contents(), v, a.layout.shape, pad, result.layout.shape, done)
    modifies result.buf
    ensures Padded(result.buf[..], a.Contents(), v, a.layout.shape, pad, result.layout.shape, done + {p})
  {
    hide Numel, OffAt, Layout.InBuffer, Padded, Flatten, Unflatten, Linear, CompactStride, Elements;
    var s, rs := a.layout.shape, result.layout.shape;
    var valid, target := TargetIndex(i, pad, rs);
    PaddedOneMore(result.buf[..], a.Contents(), v, s, pad, rs, done, p);
    if valid {
      ElementThere(a.layout, a.buf.Length, a.buf[..], p);
      SlotThere(s, pad, rs, result.layout.strides, p);
      var from := CalcFlattenOffset(i, s, a.layout.strides);
      var into := CalcFlattenOffset(target, rs, result.layout.strides);
      result.buf[result.layout.offset + into] := a.buf[a.layout.offset + from];
    } else {
      SlotRange(s, pad, rs, p);
    }
  }

  /** One call of the parallel loop's body: the elements begin, ..., end - 1. */
  method PadRange(a: NdArrayRef, result: NdArrayRef, pad: Padding, begin: nat, end: nat, ghost v: int, ghost done: set<nat>)
    requires a.Valid() && result.Valid() && result.buf != a.buf && PadSizes(a.layout.shape, pad)
    requires result.layout == Fresh(result.layout.shape) && |result.layout.shape| == |a.layout.shape|
    requires begin < end <= Numel(a.layout.shape)
    requires Padded(result.buf[..], a.Contents(), v, a.layout.shape, pad, result.layout.shape, done)
    modifies result.buf
    ensures Padded(result.buf[..], a.Contents(), v, a.layout.shape, pad, result.layout.shape, done + Range(begin, end))
  {
    hide Numel, OffAt, Layout.InBuffer, Padded, Flatten, Unflatten, Linear, CompactStride, InBounds, PadSizes, Elements;
    var s := a.layout.shape;
    var unflatten := StartIndex(begin, s);
    assert done + Range(begin, begin) == done;
    for idx := begin to end
      invariant fresh(unflatten) && unflatten.Length == |s|
      invariant idx < Numel(s) ==> unflatten[..] == Unflatten(idx, s)
      invariant Padded(result.buf[..], a.Contents(), v, s, pad, result.layout.shape, done + Range(begin, idx))
    {
      PadElement(a, result, pad, unflatten[..], idx, v, done + Range(begin, idx));
      assert done + Range(begin, idx) + {idx} == done + Range(begin, idx + 1);
      UnflattenRange(idx, s);
      var bumped := BumpIndices(s, unflatten);
    }
  }

  method StartIndex(begin: nat, s: Shape) returns (unflatten: array<int>)
    requires begin < Numel(s)
    ensures fresh(unflatten) && unflatten[..] == Unflatten(begin, s)
  {
    NumelPositive(s);
    var u := UnflattenIndex(begin, s);
    unflatten := new int[|u|](k requires 0 <= k < |u| => u[k]);
    assert unflatten[..] == u;
  }

  lemma ElementThere(l: Layout, n: nat, b: seq<int>, p: nat)
    requires l.InBuffer(n) && n == |b| && p < Numel(l.shape)
    ensures 0 <= l.offset + Off(Unflatten(p, l.shape), l.strides) < n
    ensures b[l.offset + Off(Unflatten(p, l.shape), l.strides)] == Elements(b, l)[p]
  {
    PositionInBuffer(l, n, p);
  }

  lemma SlotThere(s: Shape, pad: Padding, rs: Shape, st: Strides, p: nat)
    requires PadSizes(s, pad) && |rs| == |s| && st == Fresh(rs).strides
    ensures var t := Target(Unflatten(p, s), pad);
      (SlotOf(s, pad, rs, p) >= 0 <==> InBounds(t, rs)) && (InBounds(t, rs) ==> Off(t, st) == SlotOf(s, pad, rs, p) < Numel(rs))
  {
    hide Numel, Flatten, Unflatten, Off, CompactStride;
    SlotRange(s, pad, rs, p);
    var t := Target(Unflatten(p, s), pad);
    if InBounds(t, rs) {
      CompactOffset(rs, st, t);
    }
  }

  /** Ranges that together cover all of the n elements. */
  ghost predicate Covers(chunks: seq<(nat, nat)>, n: nat) {
    && (forall c :: 0 <= c < |chunks| ==> chunks[c].0 < chunks[c].1 <= n)
    && forall p: nat :: p < n ==> Covered(chunks, p)
  }

  ghost predicate Covered(chunks: seq<(nat, nat)>, p: nat) {
    exists c :: 0 <= c < |chunks| && chunks[c].0 <= p < chunks[c].1
  }

  /**
    Padding: element i goes to low + i * (interior + 1) where that is inside, every other slot
    holds the padding value.  The parallel loop may cut the elements into ranges in any way and
    take them in any order.
   */
  method Pad(a: NdArrayRef, padding: NdArrayRef, pad: Padding, chunks: seq<(nat, nat)>) returns (ok: bool, r: NdArrayRef)
    requires a.Valid() && padding.Valid() && Covers(chunks, Numel(a.layout.shape))
    requires PadSizes(a.layout.shape, pad) ==> forall k :: 0 <= k < |a.layout.shape| ==> PaddedDim(a.layout.shape, pad, k) > 0
    ensures ok <==> PadSizes(a.layout.shape, pad) && Numel(padding.layout.shape) == 1
    ensures ok ==> r.Valid() && fresh(r.buf) && r.layout == Fresh(r.layout.shape) && |r.layout.shape| == |a.layout.shape|
    ensures ok ==> forall k :: 0 <= k < |a.layout.shape| ==> r.layout.shape[k] == PaddedDim(a.layout.shape, pad, k)
    ensures ok ==> forall k :: 0 <= k < |a.layout.shape| && a.layout.shape[k] > 0 ==>
      r.layout.shape[k] == Target(LastOf(a.layout.shape), pad)[k] + 1 + pad.high[k]
    ensures ok ==> forall k :: 0 <= k < |a.layout.shape| && a.layout.shape[k] == 0 ==>
      r.layout.shape[k] == pad.low[k] + pad.high[k] - pad.interior[k]
    ensures ok ==> forall i: Index :: InBounds(i, a.layout.shape) && InBounds(Target(i, pad), r.layout.shape) ==>
      AtIndex(r.Contents(), r.layout.shape, Target(i, pad)) == AtIndex(a.Contents(), a.layout.shape, i)
    ensures ok ==> forall t: Index :: InBounds(t, r.layout.shape) && NoTarget(t, a.layout.shape, pad) ==>
      AtIndex(r.Contents(), r.layout.shape, t) == padding.Contents()[0]
  {
    hide Numel, OffAt, Layout.InBuffer, Padded, Flatten, Unflatten, Linear, Covers, CompactStride;
    var checked, deduced := DeducePadShape(a.layout.shape, pad);
    r := a;
    if !checked {
      return false, a;
    }
    var dims: Shape := deduced;
    NumelPositive(dims);
    ok, r := Expand(padding, dims);
    if !ok {
      return;
    }
    ghost var v, done: set<nat> := padding.Contents()[0], {};
    NothingPadded(r.buf[..], a.Contents(), v, a.layout.shape, pad, dims);
    for c := 0 to |chunks|
      invariant r.Valid() && r.layout == Fresh(dims) && r.buf.Length == Numel(dims) && fresh(r.buf)
      invariant Padded(r.buf[..], a.Contents(), v, a.layout.shape, pad, dims, done)
      invariant forall j, p: nat :: 0 <= j < c && chunks[j].0 <= p < chunks[j].1 ==> p in done
    {
      ChunkInside(chunks, Numel(a.layout.shape), c);
      PadRange(a, r, pad, chunks[c].0, chunks[c].1, v, done);
      done := done + Range(chunks[c].0, chunks[c].1);
    }
    AllDone(chunks, Numel(a.layout.shape), done);
    PaddedMeans(r.buf[..], a.Contents(), v, a.layout.shape, pad, dims, done, r.layout);
  }

  ghost function AtIndex(e: seq<int>, s: Shape, idx: Index): int {
    if InBounds(idx, s) then ElementAt(e, Flatten(idx, s)) else 0
  }

  ghost predicate NoTarget(t: Index, s: Shape, pad: Padding)
    requires |pad.low| == |pad.interior| == |s|
  {
    forall i: Index :: InBounds(i, s) ==> Target(i, pad) != t
  }

  lemma NothingPadded(b: seq<int>, e: seq<int>, v: int, s: Shape, pad: Padding, rs: Shape)
    requires PadSizes(s, pad) && |rs| == |s| && |b| == Numel(rs) && |e| == Numel(s) && forall x :: 0 <= x < |b| ==> b[x] == v
    ensures Padded(b, e, v, s, pad, rs, {})
  {
    hide Numel;
  }

  lemma ChunkInside(chunks: seq<(nat, nat)>, n: nat, c: nat)
    requires Covers(chunks, n) && c < |chunks|
    ensures chunks[c].0 < chunks[c].1 <= n
  {
  }

  lemma AllDone(chunks: seq<(nat, nat)>, n: nat, done: set<nat>)
    requires Covers(chunks, n) && forall j, p: nat :: 0 <= j < |chunks| && chunks[j].0 <= p < chunks[j].1 ==> p in done
    ensures forall p: nat :: p < n ==> p in done
  {
    forall p: nat | p < n
      ensures p in done
    {
      assert Covered(chunks, p);
    }
  }

  lemma PaddedMeans(b: seq<int>, e: seq<int>, v: int, s: Shape, pad: Padding, rs: Shape, done: set<nat>, rl: Layout)
    requires Padded(b, e, v, s, pad, rs, done) && (forall p: nat :: p < Numel(s) ==> p in done) && rl == Fresh(rs)
    ensures forall i: Index :: InBounds(i, s) && InBounds(Target(i, pad), rs) ==>
      AtIndex(Elements(b, rl), rs, Target(i, pad)) == AtIndex(e, s, i)
    ensures forall t: Index :: InBounds(t, rs) && NoTarget(t, s, pad) ==> AtIndex(Elements(b, rl), rs, t) == v
  {
    hide Numel, OffAt, Flatten, Unflatten, CompactStride;
    forall t: Index | InBounds(t, rs)
      ensures AtIndex(Elements(b, rl), rs, t) == ElementAt(b, Flatten(t, rs)) && 0 <= Flatten(t, rs) < |b|
    {
      FlattenRange(t, rs);
      CompactIsRowMajor(rs, rl.strides, Flatten(t, rs));
    }
    forall i: Index | InBounds(i, s) && InBounds(Target(i, pad), rs)
      ensures ElementAt(b, Flatten(Target(i, pad), rs)) == AtIndex(e, s, i)
    {
      FlattenRange(i, s);
      SlotRange(s, pad, rs, Flatten(i, s));
    }
    forall t: Index | InBounds(t, rs) && NoTarget(t, s, pad)
      ensures ElementAt(b, Flatten(t, rs)) == v
    {
      FlattenRange(t, rs);
      forall p: nat | p < |e|
        ensures SlotOf(s, pad, rs, p) != Flatten(t, rs)
      {
        UnflattenRange(p, s);
        SlotRange(s, pad, rs, p);
        var u := Target(Unflatten(p, s), pad);
        if InBounds(u, rs) {
          FlattenRange(u, rs);
        }
      }
    }
  }
}
