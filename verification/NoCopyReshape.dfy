/**
  Reshaping without copying: new strides under which every row-major position keeps its offset,
  found whenever they exist; and the one-stride shortcut of a regularly spaced array.
 */
module NoCopyReshape {
  import opened Arith
  import opened Shapes

  /** Every row-major position has the same offset in both. */
  ghost predicate SameOffsets(s: Shape, st: Strides, s': Shape, st': Strides) {
    && |s| == |st| && |s'| == |st'| && Numel(s) == Numel(s')
    && forall p: nat :: p < Numel(s) ==> SameAt(s, st, s', st', p)
  }

  ghost predicate SameAt(s: Shape, st: Strides, s': Shape, st': Strides, p: nat)
    requires |s| == |st| && |s'| == |st'|
  {
    OffAt(s, st, p) == OffAt(s', st', p)
  }

  /** Two positions differ at most along axes of stride 0. */
  predicate Agree(s: Shape, st: Strides, p: nat, q: nat)
    requires |s| == |st|
  {
    forall k :: 0 <= k < |s| ==> st[k] == 0 || Unflatten(p, s)[k] == Unflatten(q, s)[k]
  }

  /** Positions that agree still do. */
  ghost predicate AgreeKept(s: Shape, st: Strides, s': Shape, st': Strides) {
    && |s| == |st| && |s'| == |st'|
    && forall p: nat, q: nat :: p < Numel(s) && q < Numel(s) && Agree(s, st, p, q) ==> Agree(s', st', p, q)
  }

  /** Offsets are one stride times the position. */
  ghost predicate Linear(s: Shape, st: Strides, stride: int) {
    |s| == |st| && forall p: nat :: p < Numel(s) ==> OffAt(s, st, p) == stride * p
  }

  // ---- axes of extent 1 ----

  function Stripped(s: Shape): (r: Shape)
    ensures forall k :: 0 <= k < |r| ==> r[k] != 1
  {
    if s == [] then []
    else if s[|s| - 1] == 1 then Stripped(s[..|s| - 1]) else Stripped(s[..|s| - 1]) + [s[|s| - 1]]
  }

  function StrippedStrides(s: Shape, st: Strides): (r: Strides)
    requires |s| == |st|
    ensures |r| == |Stripped(s)|
  {
    if s == [] then []
    else
      var r := StrippedStrides(s[..|s| - 1], st[..|s| - 1]);
      if s[|s| - 1] == 1 then r else r + [st[|s| - 1]]
  }

  lemma {:induction false} StrippedSame(s: Shape, st: Strides, p: nat)
    requires |s| == |st|
    ensures Numel(Stripped(s)) == Numel(s)
    ensures p < Numel(s) ==> OffAt(Stripped(s), StrippedStrides(s, st), p) == OffAt(s, st, p)
    decreases |s|
  {
    hide OffAt, Numel;
    if s != [] {
      var n, d := |s| - 1, s[|s| - 1];
      NumelLast(s);
      NumelLast(Stripped(s[..n]) + [d]);
      assert (Stripped(s[..n]) + [d])[..|Stripped(s[..n])|] == Stripped(s[..n]);
      if p < Numel(s) {
        LastAxis(s, p);
        StrippedSame(s[..n], st[..n], p / d);
        OffAtStep(s, st, p);
        if d != 1 {
          var r, rt := Stripped(s), StrippedStrides(s, st);
          assert r[..|r| - 1] == Stripped(s[..n]) && rt[..|r| - 1] == StrippedStrides(s[..n], st[..n]);
          OffAtStep(r, rt, p);
        }
      } else {
        StrippedSame(s[..n], st[..n], 0);
      }
    }
  }

  lemma {:induction false} StrippedAgree(s: Shape, st: Strides, p: nat, q: nat)
    requires |s| == |st| && p < Numel(s) && q < Numel(s) && Agree(s, st, p, q)
    ensures Agree(Stripped(s), StrippedStrides(s, st), p, q)
    decreases |s|
  {
    hide Agree, Numel;
    if s == [] {
      NothingToAgree(p, q);
    } else {
      var n, d := |s| - 1, s[|s| - 1];
      LastAxis(s, p);
      LastAxis(s, q);
      AgreePrefix(s, st, p, q);
      StrippedAgree(s[..n], st[..n], p / d, q / d);
      if d != 1 {
        AgreeLast(Stripped(s[..n]), StrippedStrides(s[..n], st[..n]), d, st[n], p, q);
      } else {
        DivModUnique(p, p, 0, 1);
        DivModUnique(q, q, 0, 1);
      }
    }
  }

  lemma NothingToAgree(p: nat, q: nat)
    ensures Agree([], [], p, q)
  {
  }

  lemma AgreePrefix(s: Shape, st: Strides, p: nat, q: nat)
    requires |s| == |st| > 0 && s[|s| - 1] > 0 && Agree(s, st, p, q)
    ensures var n, d := |s| - 1, s[|s| - 1];
      Agree(s[..n], st[..n], p / d, q / d) && (st[n] == 0 || p % d == q % d)
  {
    var n, d := |s| - 1, s[|s| - 1];
    UnflattenStep(p, s);
    UnflattenStep(q, s);
    forall k | 0 <= k < n
      ensures st[k] == 0 || Unflatten(p / d, s[..n])[k] == Unflatten(q / d, s[..n])[k]
    {
      assert Unflatten(p, s)[k] == Unflatten(p, s)[..n][k] && Unflatten(q, s)[k] == Unflatten(q, s)[..n][k];
    }
  }

  lemma AgreeLast(s: Shape, st: Strides, d: nat, t: int, p: nat, q: nat)
    requires |s| == |st| && d > 0 && Agree(s, st, p / d, q / d) && (t == 0 || p % d == q % d)
    ensures Agree(s + [d], st + [t], p, q)
  {
    assert (s + [d])[..|s|] == s;
    UnflattenStep(p, s + [d]);
    UnflattenStep(q, s + [d]);
    forall k | 0 <= k < |s|
      ensures st[k] == 0 || Unflatten(p, s + [d])[k] == Unflatten(q, s + [d])[k]
    {
      assert Unflatten(p, s + [d])[k] == Unflatten(p, s + [d])[..|s|][k];
      assert Unflatten(q, s + [d])[k] == Unflatten(q, s + [d])[..|s|][k];
    }
  }

  lemma NumelLast(s: Shape)
    requires s != []
    ensures Numel(s) == Numel(s[..|s| - 1]) * s[|s| - 1]
    ensures s[|s| - 1] == 1 ==> Numel(s) == Numel(s[..|s| - 1])
  {
  }

  method StripOnes(s: Shape, st: Strides) returns (r: Shape, rt: Strides)
    requires |s| == |st|
    ensures r == Stripped(s) && rt == StrippedStrides(s, st)
  {
    r, rt := [], [];
    for k := 0 to |s|
      invariant r == Stripped(s[..k]) && rt == StrippedStrides(s[..k], st[..k])
    {
      assert s[..k + 1][..k] == s[..k] && st[..k + 1][..k] == st[..k];
      if s[k] != 1 {
        r, rt := r + [s[k]], rt + [st[k]];
      }
    }
    assert s[..|s|] == s && st[..|s|] == st;
  }

  // ---- runs of axes that step evenly ----

  /** Each axis steps as far as the whole next one. */
  predicate Even(s: Shape, st: Strides) {
    |s| == |st| && forall k :: 0 <= k && k + 1 < |s| ==> st[k] == s[k + 1] * st[k + 1]
  }

  lemma {:induction false} EvenIsLinear(s: Shape, st: Strides, p: nat)
    requires Even(s, st) && s != [] && p < Numel(s)
    ensures OffAt(s, st, p) == st[|s| - 1] * p
    decreases |s|
  {
    hide OffAt;
    var n, d := |s| - 1, s[|s| - 1];
    LastAxis(s, p);
    OffAtStep(s, st, p);
    DivBelow(p, Numel(s[..n]), d);
    if n == 0 {
      EmptyShape(p / d);
      OffOfNothing();
    } else {
      EvenIsLinear(s[..n], st[..n], p / d);
      StrideTimes(st[n], d, p / d, p % d, p);
    }
  }

  lemma OffOfNothing()
    ensures OffAt([], [], 0) == 0
  {
  }

  lemma StrideTimes(t: int, d: int, q: int, r: int, p: int)
    requires p == q * d + r
    ensures d * t * q + r * t == t * p
  {
    MulAssoc(t, q, d);
    MulAssoc(t, d, q);
    assert d * t * q == t * (q * d);
  }

  lemma {:induction false} EvenFirst(s: Shape, st: Strides)
    requires Even(s, st) && s != []
    ensures s[0] * st[0] == st[|s| - 1] * Numel(s)
    decreases |s|
  {
    NumelFront(s);
    if |s| > 1 {
      EvenFirst(s[1..], st[1..]);
      assert s[1..][0] == s[1] && st[1..][0] == st[1];
      MulAssoc(s[0], st[|s| - 1], Numel(s[1..]));
      assert s[0] * (st[|s| - 1] * Numel(s[1..])) == st[|s| - 1] * (s[0] * Numel(s[1..]));
    } else {
      assert s[1..] == [];
    }
  }

  /** With a last stride that is not 0, none is; with 0, all are. */
  lemma {:induction false} EvenZero(s: Shape, st: Strides, k: nat)
    requires Even(s, st) && k < |s| && forall j :: 0 <= j < |s| ==> s[j] > 0
    ensures st[k] == 0 <==> st[|s| - 1] == 0
    decreases |s| - k
  {
    if k + 1 < |s| {
      EvenZero(s, st, k + 1);
    }
  }

  lemma EvenSame(s: Shape, st: Strides, s': Shape, st': Strides)
    requires |s| == |st| && |s'| == |st'| && Even(s, st) && Even(s', st') && s != [] && s' != [] && Numel(s) == Numel(s') > 0
    requires st[|s| - 1] == st'[|s'| - 1]
    ensures SameOffsets(s, st, s', st') && AgreeKept(s, st, s', st')
  {
    hide Even;
    forall p: nat | p < Numel(s)
      ensures SameAt(s, st, s', st', p)
    {
      EvenIsLinear(s, st, p);
      EvenIsLinear(s', st', p);
    }
    forall p: nat, q: nat | p < Numel(s) && q < Numel(s) && Agree(s, st, p, q)
      ensures Agree(s', st', p, q)
    {
      EvenAgree(s, st, s', st', p, q);
    }
  }

  lemma EvenAgree(s: Shape, st: Strides, s': Shape, st': Strides, p: nat, q: nat)
    requires |s| == |st| && |s'| == |st'| && Even(s, st) && Even(s', st') && s != [] && s' != [] && Numel(s) == Numel(s') > 0
    requires st[|s| - 1] == st'[|s'| - 1] && p < Numel(s) && q < Numel(s) && Agree(s, st, p, q)
    ensures Agree(s', st', p, q)
  {
    hide Numel, Even;
    NumelPositive(s);
    NumelPositive(s');
    if st[|s| - 1] == 0 {
      forall k | 0 <= k < |s'|
        ensures st'[k] == 0
      {
        EvenZero(s', st', k);
      }
    } else {
      forall k | 0 <= k < |s|
        ensures Unflatten(p, s)[k] == Unflatten(q, s)[k]
      {
        EvenZero(s, st, k);
      }
      assert Unflatten(p, s) == Unflatten(q, s);
      UnflattenRange(p, s);
      UnflattenRange(q, s);
    }
  }

  // ---- putting runs together ----

  lemma SameAppend(a: Shape, sa: Strides, a': Shape, sa': Strides, b: Shape, sb: Strides, b': Shape, sb': Strides)
    requires SameOffsets(a, sa, a', sa') && SameOffsets(b, sb, b', sb') && Numel(b) > 0
    ensures SameOffsets(a + b, sa + sb, a' + b', sa' + sb')
  {
    hide OffAt, Numel;
    NumelAppend(a, b);
    NumelAppend(a', b');
    forall p: nat | p < Numel(a + b)
      ensures SameAt(a + b, sa + sb, a' + b', sa' + sb', p)
    {
      DivBelow(p, Numel(a), Numel(b));
      var q, r := p / Numel(b), p % Numel(b);
      assert SameAt(a, sa, a', sa', q) && SameAt(b, sb, b', sb', r);
      OffAtAppend(a, b, sa, sb, q, r, p);
      OffAtAppend(a', b', sa', sb', q, r, p);
    }
  }

  lemma AgreeAppend(a: Shape, sa: Strides, b: Shape, sb: Strides, p: nat, p': nat)
    requires |a| == |sa| && |b| == |sb| && Numel(b) > 0
    ensures var N := Numel(b);
      Agree(a + b, sa + sb, p, p') <==> Agree(a, sa, p / N, p' / N) && Agree(b, sb, p % N, p' % N)
  {
    hide Unflatten, Numel;
    var N := Numel(b);
    UnflattenAppend(a, b, p / N, p % N, p);
    UnflattenAppend(a, b, p' / N, p' % N, p');
    if Agree(a + b, sa + sb, p, p') {
      forall k | 0 <= k < |a|
        ensures sa[k] == 0 || Unflatten(p / N, a)[k] == Unflatten(p' / N, a)[k]
      {
        assert Unflatten(p, a + b)[k] == Unflatten(p / N, a)[k] && (sa + sb)[k] == sa[k];
      }
      forall k | 0 <= k < |b|
        ensures sb[k] == 0 || Unflatten(p % N, b)[k] == Unflatten(p' % N, b)[k]
      {
        assert Unflatten(p, a + b)[|a| + k] == Unflatten(p % N, b)[k] && (sa + sb)[|a| + k] == sb[k];
      }
    }
  }

  lemma AgreeKeptAppend(a: Shape, sa: Strides, a': Shape, sa': Strides, b: Shape, sb: Strides, b': Shape, sb': Strides)
    requires AgreeKept(a, sa, a', sa') && AgreeKept(b, sb, b', sb') && Numel(a) == Numel(a') && Numel(b) == Numel(b') > 0
    ensures AgreeKept(a + b, sa + sb, a' + b', sa' + sb')
  {
    hide Agree, Numel;
    NumelAppend(a, b);
    var N := Numel(b);
    forall p: nat, q: nat | p < Numel(a + b) && q < Numel(a + b) && Agree(a + b, sa + sb, p, q)
      ensures Agree(a' + b', sa' + sb', p, q)
    {
      DivBelow(p, Numel(a), N);
      DivBelow(q, Numel(a), N);
      AgreeAppend(a, sa, b, sb, p, q);
      AgreeAppend(a', sa', b', sb', p, q);
    }
  }

  /** Axes of extent 1 at the end change nothing, whatever their strides. */
  lemma {:induction false} OnesOffset(s: Shape, st: Strides, st': Strides, p: nat)
    requires |s| == |st| == |st'| && p < Numel(s)
    requires forall k :: 0 <= k < |s| && s[k] != 1 ==> st[k] == st'[k]
    ensures OffAt(s, st, p) == OffAt(s, st', p)
    decreases |s|
  {
    hide OffAt, Numel;
    if s != [] {
      var n, d := |s| - 1, s[|s| - 1];
      LastAxis(s, p);
      OffAtStep(s, st, p);
      OffAtStep(s, st', p);
      OnesOffset(s[..n], st[..n], st'[..n], p / d);
    }
  }

  lemma {:induction false} AllOnes(s: Shape)
    requires Numel(s) == 1
    ensures forall k :: 0 <= k < |s| ==> s[k] == 1
  {
    if s != [] {
      var n := |s| - 1;
      NumelPositive(s);
      FactorsOfOne(Numel(s[..n]), s[n]);
      AllOnes(s[..n]);
      assert s == s[..n] + [s[n]];
    }
  }

  lemma FactorsOfOne(x: nat, y: nat)
    requires x * y == 1
    ensures x == 1 && y == 1
  {
    if x > 1 {
      MulLt(1, x, y);
    }
  }

  // ---- when no strides exist ----

  lemma {:induction false} OffAtZero(s: Shape, st: Strides)
    requires |s| == |st|
    ensures OffAt(s, st, 0) == 0
  {
    FirstIndex(s);
    OffOfZeros(Unflatten(0, s), st);
  }

  lemma {:induction false} OffOfZeros(idx: Index, st: Strides)
    requires |idx| == |st| && forall k :: 0 <= k < |idx| ==> idx[k] == 0
    ensures Off(idx, st) == 0
    decreases |idx|
  {
    if idx != [] {
      OffOfZeros(idx[..|idx| - 1], st[..|idx| - 1]);
    }
  }

  /** A position all of whose movement is in the axes i, ..., j - 1. */
  lemma MiddleOffset(s: Shape, st: Strides, i: nat, j: nat, x: nat)
    requires |s| == |st| && i <= j <= |s| && Numel(s[j..]) > 0 && x < Numel(s[i..j])
    ensures x * Numel(s[j..]) >= 0
    ensures OffAt(s, st, x * Numel(s[j..])) == OffAt(s[i..j], st[i..j], x)
  {
    hide OffAt, Numel;
    MulNonNeg(x, Numel(s[j..]));
    OffAtZero(s[..i], st[..i]);
    OffAtZero(s[j..], st[j..]);
    OffAtAppend(s[..i], s[i..j], st[..i], st[i..j], 0, x, x);
    assert s[..i] + s[i..j] == s[..j] && st[..i] + st[i..j] == st[..j];
    OffAtAppend(s[..j], s[j..], st[..j], st[j..], x, 0, x * Numel(s[j..]));
    assert s[..j] + s[j..] == s && st[..j] + st[j..] == st;
  }

  /** A position that is no suffix product is the sum of two smaller ones whose offsets add. */
  lemma {:induction false} OffsetSplits(s: Shape, st: Strides, Q: nat) returns (R: nat)
    requires |s| == |st| && 1 < Q < Numel(s)
    requires forall b :: 0 <= b <= |s| ==> Numel(s[b..]) != Q
    ensures 1 <= R < Q && OffAt(s, st, Q) == OffAt(s, st, Q - R) + OffAt(s, st, R)
    decreases |s|
  {
    hide OffAt, Numel;
    assert s != [] by { if s == [] { EmptyShape(Q); } }
    var n, d := |s| - 1, s[|s| - 1];
    LastAxis(s, Q);
    var q, m := Q / d, Q % d;
    DivBelow(Q, Numel(s[..n]), d);
    assert s[n..] == [d] && Numel([d]) == d by { NumelLast([d]); NumelOne(); }
    assert Q != d;
    if Q < d {
      R := 1;
      SmallOffset(s, st, Q);
      SmallOffset(s, st, Q - 1);
      SmallOffset(s, st, 1);
      DistributeOne(Q, st[n]);
    } else if m > 0 {
      R := m;
      SmallOffset(s, st, m);
      DivModUnique(Q - m, q, 0, d);
      OffAtStep(s, st, Q);
      OffAtStep(s, st, Q - m);
    } else {
      SuffixProducts(s, q, d, Q);
      assert q > 1;
      var R' := OffsetSplits(s[..n], st[..n], q);
      R := R' * d;
      MulLt(R', q, d);
      MulLe(1, R', d);
      DivModUnique(R, R', 0, d);
      DistributeMinus(q, R', d);
      DivModUnique(Q - R, q - R', 0, d);
      OffAtStep(s, st, Q);
      OffAtStep(s, st, R);
      OffAtStep(s, st, Q - R);
    }
  }

  lemma DistributeOne(x: int, t: int)
    ensures (x - 1) * t + 1 * t == x * t
  {
  }

  lemma DistributeMinus(x: int, y: int, t: int)
    ensures (x - y) * t == x * t - y * t
  {
  }

  lemma NumelOne()
    ensures Numel([]) == 1
  {
  }

  /** Below the last extent, the last axis alone moves. */
  lemma SmallOffset(s: Shape, st: Strides, x: nat)
    requires |s| == |st| > 0 && x < s[|s| - 1]
    ensures OffAt(s, st, x) == x * st[|s| - 1]
  {
    hide OffAt;
    OffAtStep(s, st, x);
    DivModUnique(x, 0, x, s[|s| - 1]);
    OffAtZero(s[..|s| - 1], st[..|s| - 1]);
  }

  lemma SuffixProducts(s: Shape, q: nat, d: nat, Q: nat)
    requires s != [] && d == s[|s| - 1] && Q == q * d && forall b :: 0 <= b <= |s| ==> Numel(s[b..]) != Q
    ensures var s' := s[..|s| - 1];
      forall b :: 0 <= b <= |s'| ==> Numel(s'[b..]) != q
  {
    var s' := s[..|s| - 1];
    forall b | 0 <= b <= |s'|
      ensures Numel(s'[b..]) != q
    {
      NumelLast(s[b..]);
      assert s[b..][..|s[b..]| - 1] == s'[b..];
    }
  }

  /** Boundaries inside two groups of axes with the same product never coincide. */
  ghost predicate Apart(d: Shape, n: Shape) {
    forall a, b :: 0 < a < |d| && 0 < b < |n| ==> Numel(d[..a]) != Numel(n[..b])
  }

  /** If an old group is uneven, no strides give the new group its offsets. */
  lemma UnevenGroup(d: Shape, st: Strides, n: Shape, t: Strides)
    requires |d| == |st| && |n| == |t| && Numel(d) == Numel(n) && Apart(d, n)
    requires (forall k :: 0 <= k < |d| ==> d[k] >= 2) && !Even(d, st) && d != []
    ensures !SameOffsets(d, st, n, t)
  {
    hide Even, SameOffsets, Numel, Apart, OffAt;
    var a := LastUneven(d, st);
    if SameOffsets(d, st, n, t) {
      var e, et := d[a..], st[a..];
      var Q, s := Numel(e), st[|d| - 1];
      assert d[..a] + e == d && st[..a] + et == st;
      NumelAppend(d[..a], e);
      GroupSizes(d, a);
      EvenFirst(e, et);
      MulLt(1, Numel(d[..a]), Q);
      NoSuffix(d, n, a);
      var R := OffsetSplits(n, t, Q);
      EvenOffset(d, st, a, R);
      EvenOffset(d, st, a, Q - R);
      SameApplies(d, st, n, t, R);
      SameApplies(d, st, n, t, Q - R);
      SameApplies(d, st, n, t, Q);
      BoundaryOffset(d, st, a);
      StrideSplits(s, Q, R);
      assert false;
    }
  }

  lemma StrideSplits(s: int, Q: int, R: int)
    ensures s * (Q - R) + s * R == s * Q
  {
  }

  lemma SameApplies(s: Shape, st: Strides, s': Shape, st': Strides, p: nat)
    requires |s| == |st| && |s'| == |st'| && SameOffsets(s, st, s', st') && p < Numel(s)
    ensures OffAt(s, st, p) == OffAt(s', st', p)
  {
    assert SameAt(s, st, s', st', p);
  }

  /** The last place where evenness fails. */
  lemma LastUneven(d: Shape, st: Strides) returns (a: nat)
    requires |d| == |st| && !Even(d, st)
    ensures 0 < a < |d| && st[a - 1] != d[a] * st[a] && Even(d[a..], st[a..])
  {
    a := |d| - 1;
    while a > 0 && st[a - 1] == d[a] * st[a]
      invariant 0 <= a < |d| && forall k :: a <= k && k + 1 < |d| ==> st[k] == d[k + 1] * st[k + 1]
    {
      a := a - 1;
    }
  }

  lemma GroupSizes(d: Shape, a: nat)
    requires (forall k :: 0 <= k < |d| ==> d[k] >= 2) && 0 < a < |d|
    ensures Numel(d[a..]) >= 2 && Numel(d[..a]) >= 2
  {
    AtLeastTwo(d[a..]);
    AtLeastTwo(d[..a]);
  }

  lemma {:induction false} AtLeastTwo(d: Shape)
    requires (forall k :: 0 <= k < |d| ==> d[k] >= 2) && d != []
    ensures Numel(d) >= 2
    decreases |d|
  {
    if |d| > 1 {
      AtLeastTwo(d[..|d| - 1]);
      MulLe(2, Numel(d[..|d| - 1]), d[|d| - 1]);
    } else {
      assert d[..0] == [];
    }
  }

  lemma NoSuffix(d: Shape, n: Shape, a: nat)
    requires (forall k :: 0 <= k < |d| ==> d[k] >= 2) && 0 < a < |d| && Apart(d, n) && Numel(d) == Numel(n)
    ensures forall b :: 0 <= b <= |n| ==> Numel(n[b..]) != Numel(d[a..])
  {
    hide Numel;
    GroupSizes(d, a);
    NumelAppend(d[..a], d[a..]);
    assert d[..a] + d[a..] == d;
    forall b | 0 <= b <= |n|
      ensures Numel(n[b..]) != Numel(d[a..])
    {
      NumelAppend(n[..b], n[b..]);
      assert n[..b] + n[b..] == n;
      if Numel(n[b..]) == Numel(d[a..]) {
        MulCancel(Numel(n[..b]), Numel(d[..a]), Numel(d[a..]));
        NumelOne();
        assert false;
      }
    }
  }

  lemma EvenOffset(d: Shape, st: Strides, a: nat, x: nat)
    requires |d| == |st| && 0 < a < |d| && Even(d[a..], st[a..]) && x < Numel(d[a..])
    ensures OffAt(d, st, x) == st[|d| - 1] * x
  {
    hide OffAt, Numel;
    assert d[..a] + d[a..] == d && st[..a] + st[a..] == st;
    OffAtAppend(d[..a], d[a..], st[..a], st[a..], 0, x, x);
    OffAtZero(d[..a], st[..a]);
    EvenIsLinear(d[a..], st[a..], x);
  }

  lemma BoundaryOffset(d: Shape, st: Strides, a: nat)
    requires |d| == |st| && 0 < a < |d| && d[a - 1] >= 2 && Numel(d[a..]) > 0
    ensures OffAt(d, st, Numel(d[a..])) == st[a - 1]
  {
    hide OffAt, Numel;
    assert d[..a] + d[a..] == d && st[..a] + st[a..] == st;
    OffAtAppend(d[..a], d[a..], st[..a], st[a..], 1, 0, Numel(d[a..]));
    SmallOffset(d[..a], st[..a], 1);
    OffAtZero(d[a..], st[a..]);
  }

  // ---- the search ----

  /** Extends the axis ranges oi.. of the old and ni.. of the new shape until their products meet. */
  method FindGroup(od: Shape, to: Shape, oi: nat, ni: nat) returns (oj: nat, nj: nat)
    requires oi < |od| && ni < |to| && Numel(od[oi..]) == Numel(to[ni..]) > 0
    requires forall k :: 0 <= k < |od| ==> od[k] >= 2
    ensures oi < oj <= |od| && ni < nj <= |to| && Numel(od[oi..oj]) == Numel(to[ni..nj]) > 0
    ensures Apart(od[oi..oj], to[ni..nj])
  {
    hide Numel;
    oj, nj := oi + 1, ni + 1;
    var np, op := to[ni], od[oi];
    OneAxisNumel(to, ni);
    OneAxisNumel(od, oi);
    while np != op
      invariant oi < oj <= |od| && ni < nj <= |to|
      invariant op == Numel(od[oi..oj]) && np == Numel(to[ni..nj])
      invariant forall a :: oi < a < oj ==> Numel(od[oi..a]) < np
      invariant forall b :: ni < b < nj ==> Numel(to[ni..b]) < op
      invariant forall a, b :: oi < a < oj && ni < b < nj ==> Numel(od[oi..a]) != Numel(to[ni..b])
      decreases |od| - oj + |to| - nj
    {
      if np < op {
        MoreAxes(od, to, oi, oj, ni, nj);
        NumelNextAxis(to, ni, nj);
        np := np * to[nj];
        nj := nj + 1;
      } else {
        MoreAxes(to, od, ni, nj, oi, oj);
        NumelNextAxis(od, oi, oj);
        op := op * od[oj];
        oj := oj + 1;
      }
    }
    assert Apart(od[oi..oj], to[ni..nj]) by { GroupsApart(od, to, oi, oj, ni, nj); }
    RangePositive(od, oi, oj);
  }

  lemma OneAxisNumel(s: Shape, i: nat)
    requires i < |s|
    ensures Numel(s[i..i + 1]) == s[i]
  {
    assert s[i..i + 1] == [s[i]] && [s[i]][..0] == [];
  }

  lemma NumelNextAxis(s: Shape, i: nat, j: nat)
    requires i <= j < |s|
    ensures Numel(s[i..j + 1]) == Numel(s[i..j]) * s[j]
  {
    assert s[i..j + 1][..j - i] == s[i..j];
  }

  lemma RangePositive(s: Shape, i: nat, j: nat)
    requires i <= j <= |s| && Numel(s[i..]) > 0
    ensures Numel(s[i..j]) > 0 && Numel(s[j..]) > 0 && Numel(s[i..]) == Numel(s[i..j]) * Numel(s[j..])
  {
    NumelAppend(s[i..j], s[j..]);
    assert s[i..j] + s[j..] == s[i..];
    NumelPositive(s[i..j] + s[j..]);
    NumelPositive(s[i..j]);
    NumelPositive(s[j..]);
    forall k | 0 <= k < j - i
      ensures s[i..j][k] > 0
    {
      assert (s[i..j] + s[j..])[k] > 0;
    }
    forall k | 0 <= k < |s| - j
      ensures s[j..][k] > 0
    {
      assert (s[i..j] + s[j..])[j - i + k] > 0;
    }
  }

  /** The shape whose range has the smaller product has axes left. */
  lemma MoreAxes(a: Shape, b: Shape, ai: nat, aj: nat, bi: nat, bj: nat)
    requires ai <= aj <= |a| && bi <= bj <= |b| && Numel(a[ai..]) == Numel(b[bi..]) > 0
    requires Numel(b[bi..bj]) < Numel(a[ai..aj])
    ensures bj < |b| && Numel(b[bi..bj]) <= Numel(b[bi..bj]) * b[bj]
  {
    hide Numel;
    RangePositive(a, ai, aj);
    RangePositive(b, bi, bj);
    MulLe(1, Numel(a[aj..]), Numel(a[ai..aj]));
    NumelOne();
    assert b[|b|..] == [];
    NumelPositive(b[bi..]);
    assert b[bi..][bj - bi] == b[bj];
    MulLe(1, b[bj], Numel(b[bi..bj]));
  }

  lemma GroupsApart(od: Shape, to: Shape, oi: nat, oj: nat, ni: nat, nj: nat)
    requires oi < oj <= |od| && ni < nj <= |to|
    requires forall a, b :: oi < a < oj && ni < b < nj ==> Numel(od[oi..a]) != Numel(to[ni..b])
    ensures Apart(od[oi..oj], to[ni..nj])
  {
    forall a, b | 0 < a < oj - oi && 0 < b < nj - ni
      ensures Numel(od[oi..oj][..a]) != Numel(to[ni..nj][..b])
    {
      assert od[oi..oj][..a] == od[oi..oi + a] && to[ni..nj][..b] == to[ni..ni + b];
    }
  }

  /** Gives the axes ni..nj the strides of one dense block whose last axis has stride last. */
  method FillGroup(to: Shape, ns: Strides, ni: nat, nj: nat, last: int) returns (r: Strides)
    requires ni < nj <= |to| == |ns|
    ensures |r| == |to| && r[nj - 1] == last
    ensures forall k :: ni <= k && k + 1 < nj ==> r[k] == to[k + 1] * r[k + 1]
    ensures forall k :: 0 <= k < ni || nj <= k < |to| ==> r[k] == ns[k]
  {
    r := ns[nj - 1 := last];
    var nk := nj - 1;
    while nk > ni
      invariant ni <= nk < nj && |r| == |to| && r[nj - 1] == last
      invariant forall k :: nk <= k && k + 1 < nj ==> r[k] == to[k + 1] * r[k + 1]
      invariant forall k :: 0 <= k < ni || nj <= k < |to| ==> r[k] == ns[k]
    {
      r := r[nk - 1 := r[nk] * to[nk]];
      nk := nk - 1;
    }
  }

  /** What holds between two groups: strides have been found for all axes before. */
  ghost predicate Found(od: Shape, ost: Strides, to: Shape, ns: Strides, oi: nat, ni: nat) {
    && |od| == |ost| && |to| == |ns| && oi <= |od| && ni <= |to|
    && SameOffsets(od[..oi], ost[..oi], to[..ni], ns[..ni]) && AgreeKept(od[..oi], ost[..oi], to[..ni], ns[..ni])
    && Numel(od[oi..]) == Numel(to[ni..]) > 0
    && forall k :: ni <= k < |to| ==> ns[k] == 0
  }

  method AttemptNocopyReshape(shape: Shape, strides: Strides, to: Shape) returns (ok: bool, ns: Strides)
    requires |shape| == |strides| && Numel(shape) == Numel(to) > 0
    ensures ok ==> SameOffsets(shape, strides, to, ns) && AgreeKept(shape, strides, to, ns)
    ensures ok ==> forall k :: 0 <= k < |to| && to[k] == 1 ==> ns[k] == 0
    ensures !ok ==> forall t: Strides :: !SameOffsets(shape, strides, to, t)
  {
    hide Numel, Found, SameOffsets, AgreeKept, Even;
    var od, ost := StripOnes(shape, strides);
    ns := seq(|to|, _ => 0);
    var oi, ni := 0, 0;
    AtStart(shape, strides, to, ns);
    while ni < |to| && oi < |od|
      invariant 0 <= oi <= |od| && 0 <= ni <= |to| == |ns|
      invariant Found(od, ost, to, ns, oi, ni)
      decreases |to| - ni
    {
      RestOfFound(od, ost, to, ns, oi, ni);
      var oj, nj := FindGroup(od, to, oi, ni);
      var ok1 := oi;
      while ok1 < oj - 1
        invariant oi <= ok1 <= oj - 1
        invariant forall k :: oi <= k < ok1 ==> ost[k] == od[k + 1] * ost[k + 1]
      {
        if ost[ok1] != od[ok1 + 1] * ost[ok1 + 1] {
          NotPossible(shape, strides, od, ost, to, ns, oi, oj, ni, nj, ok1);
          return false, ns;
        }
        ok1 := ok1 + 1;
      }
      ghost var before := ns;
      ns := FillGroup(to, ns, ni, nj, ost[oj - 1]);
      GroupFound(od, ost, to, before, ns, oi, oj, ni, nj);
      oi, ni := oj, nj;
    }
    ghost var raw := ns;
    AllFound(shape, strides, od, ost, to, ns, oi, ni);
    for idx := 0 to |to|
      invariant |ns| == |to|
      invariant forall k :: 0 <= k < |to| ==> ns[k] == if k < idx && to[k] == 1 then 0 else raw[k]
    {
      if to[idx] == 1 {
        ns := ns[idx := 0];
      }
    }
    OnesCleared(shape, strides, to, raw, ns);
    ok := true;
  }

  lemma AtStart(shape: Shape, strides: Strides, to: Shape, ns: Strides)
    requires |shape| == |strides| && Numel(shape) == Numel(to) > 0 && |ns| == |to| && forall k :: 0 <= k < |to| ==> ns[k] == 0
    ensures Found(Stripped(shape), StrippedStrides(shape, strides), to, ns, 0, 0)
    ensures forall k :: 0 <= k < |Stripped(shape)| ==> Stripped(shape)[k] >= 2
  {
    var od := Stripped(shape);
    StrippedSame(shape, strides, 0);
    assert od[0..] == od && to[0..] == to;
    NumelPositive(od);
    Trivial();
  }

  lemma Trivial()
    ensures SameOffsets([], [], [], []) && AgreeKept([], [], [], [])
  {
  }

  lemma RestOfFound(od: Shape, ost: Strides, to: Shape, ns: Strides, oi: nat, ni: nat)
    requires Found(od, ost, to, ns, oi, ni)
    ensures oi <= |od| && ni <= |to| && Numel(od[oi..]) == Numel(to[ni..]) > 0
  {
  }

  lemma GroupFound(od: Shape, ost: Strides, to: Shape, before: Strides, ns: Strides, oi: nat, oj: nat, ni: nat, nj: nat)
    requires Found(od, ost, to, before, oi, ni) && oi < oj <= |od| && ni < nj <= |to| == |ns|
    requires Numel(od[oi..oj]) == Numel(to[ni..nj]) > 0
    requires forall k :: oi <= k < oj - 1 ==> ost[k] == od[k + 1] * ost[k + 1]
    requires forall k :: ni <= k && k + 1 < nj ==> ns[k] == to[k + 1] * ns[k + 1]
    requires ns[nj - 1] == ost[oj - 1]
    requires forall k :: 0 <= k < ni || nj <= k < |to| ==> ns[k] == before[k]
    ensures Found(od, ost, to, ns, oj, nj)
  {
    hide Numel, SameOffsets, AgreeKept, Even;
    var d, dt, n, nt := od[oi..oj], ost[oi..oj], to[ni..nj], ns[ni..nj];
    EvenRange(od, ost, oi, oj);
    EvenRange(to, ns, ni, nj);
    EvenSame(d, dt, n, nt);
    assert ns[..ni] == before[..ni];
    SameNumel(od[..oi], ost[..oi], to[..ni], ns[..ni]);
    SameAppend(od[..oi], ost[..oi], to[..ni], ns[..ni], d, dt, n, nt);
    AgreeKeptAppend(od[..oi], ost[..oi], to[..ni], ns[..ni], d, dt, n, nt);
    assert od[..oi] + d == od[..oj] && ost[..oi] + dt == ost[..oj] && to[..ni] + n == to[..nj] && ns[..ni] + nt == ns[..nj];
    RangePositive(od, oi, oj);
    RangePositive(to, ni, nj);
    MulCancelLeft(Numel(od[oi..oj]), Numel(od[oj..]), Numel(to[nj..]));
  }

  lemma MulCancelLeft(g: int, x: int, y: int)
    requires g >= 1 && g * x == g * y
    ensures x == y
  {
    MulCancel(x, y, g);
  }

  lemma SameNumel(s: Shape, st: Strides, s': Shape, st': Strides)
    requires SameOffsets(s, st, s', st')
    ensures Numel(s) == Numel(s')
  {
  }

  lemma EvenRange(s: Shape, st: Strides, i: nat, j: nat)
    requires i < j <= |s| == |st| && forall k :: i <= k < j - 1 ==> st[k] == s[k + 1] * st[k + 1]
    ensures Even(s[i..j], st[i..j])
  {
    forall k | 0 <= k && k + 1 < j - i
      ensures st[i..j][k] == s[i..j][k + 1] * st[i..j][k + 1]
    {
      assert st[i + k] == s[i + k + 1] * st[i + k + 1];
    }
  }

  /** Whatever strides would do for the whole do for the group between. */
  lemma GroupOffsets(od: Shape, ost: Strides, to: Shape, t: Strides, oi: nat, oj: nat, ni: nat, nj: nat)
    requires SameOffsets(od, ost, to, t) && oi <= oj <= |od| && ni <= nj <= |to|
    requires Numel(od[oi..oj]) == Numel(to[ni..nj]) > 0 && Numel(od[oj..]) == Numel(to[nj..]) > 0
    requires Numel(od[..oi]) == Numel(to[..ni]) > 0
    ensures SameOffsets(od[oi..oj], ost[oi..oj], to[ni..nj], t[ni..nj])
  {
    hide Numel, OffAt;
    var T := Numel(od[oj..]);
    forall x: nat | x < Numel(od[oi..oj])
      ensures SameAt(od[oi..oj], ost[oi..oj], to[ni..nj], t[ni..nj], x)
    {
      MiddleOffset(od, ost, oi, oj, x);
      MiddleOffset(to, t, ni, nj, x);
      MiddleInside(od, oi, oj, x);
      assert SameAt(od, ost, to, t, x * T);
    }
  }

  lemma MiddleInside(s: Shape, i: nat, j: nat, x: nat)
    requires i <= j <= |s| && x < Numel(s[i..j]) && Numel(s[j..]) > 0 && Numel(s[..i]) > 0
    ensures 0 <= x * Numel(s[j..]) < Numel(s)
  {
    hide Numel;
    NumelAppend(s[..i], s[i..]);
    assert s[..i] + s[i..] == s;
    NumelAppend(s[i..j], s[j..]);
    assert s[i..j] + s[j..] == s[i..];
    MulLt(x, Numel(s[i..j]), Numel(s[j..]));
    MulNonNeg(x, Numel(s[j..]));
    MulLe(1, Numel(s[..i]), Numel(s[i..]));
  }

  lemma NotPossible(shape: Shape, strides: Strides, od: Shape, ost: Strides, to: Shape, ns: Strides,
                    oi: nat, oj: nat, ni: nat, nj: nat, k: nat)
    requires |shape| == |strides| && od == Stripped(shape) && ost == StrippedStrides(shape, strides)
    requires Found(od, ost, to, ns, oi, ni) && oi < oj <= |od| && ni < nj <= |to|
    requires Numel(od[oi..oj]) == Numel(to[ni..nj]) > 0 && Apart(od[oi..oj], to[ni..nj]) && Numel(shape) == Numel(to) > 0
    requires oi <= k < oj - 1 && ost[k] != od[k + 1] * ost[k + 1] && forall j :: 0 <= j < |od| ==> od[j] >= 2
    ensures forall t: Strides :: !SameOffsets(shape, strides, to, t)
  {
    hide Numel, SameOffsets, AgreeKept, Even;
    RangePositive(od, oi, oj);
    RangePositive(to, ni, nj);
    MulCancelLeft(Numel(od[oi..oj]), Numel(od[oj..]), Numel(to[nj..]));
    SameNumel(od[..oi], ost[..oi], to[..ni], ns[..ni]);
    FrontPositive(to, ni);
    UnevenRange(od, ost, oi, oj, k);
    forall t: Strides
      ensures !SameOffsets(shape, strides, to, t)
    {
      if SameOffsets(shape, strides, to, t) {
        SameLengths(shape, strides, to, t);
        StrippedOffsets(shape, strides, to, t);
        NotThese(od, ost, to, t, oi, oj, ni, nj);
        assert false;
      }
    }
  }

  lemma NotThese(od: Shape, ost: Strides, to: Shape, t: Strides, oi: nat, oj: nat, ni: nat, nj: nat)
    requires |od| == |ost| && |to| == |t| && oi < oj <= |od| && ni < nj <= |to|
    requires Numel(od[oi..oj]) == Numel(to[ni..nj]) > 0 && Numel(od[oj..]) == Numel(to[nj..]) > 0
    requires Numel(od[..oi]) == Numel(to[..ni]) > 0 && Apart(od[oi..oj], to[ni..nj])
    requires !Even(od[oi..oj], ost[oi..oj]) && forall j :: 0 <= j < |od| ==> od[j] >= 2
    ensures !SameOffsets(od, ost, to, t)
  {
    hide Numel, SameOffsets, Even, Apart;
    if SameOffsets(od, ost, to, t) {
      GroupOffsets(od, ost, to, t, oi, oj, ni, nj);
      UnevenGroup(od[oi..oj], ost[oi..oj], to[ni..nj], t[ni..nj]);
    }
  }

  lemma FrontPositive(s: Shape, i: nat)
    requires i <= |s| && Numel(s) > 0
    ensures Numel(s[..i]) > 0
  {
    assert s[0..] == s && s[0..i] == s[..i];
    RangePositive(s, 0, i);
  }

  lemma UnevenRange(s: Shape, st: Strides, i: nat, j: nat, k: nat)
    requires |s| == |st| && i <= k < j - 1 < |s| && st[k] != s[k + 1] * st[k + 1]
    ensures !Even(s[i..j], st[i..j])
  {
    assert st[i..j][k - i] == st[k] && s[i..j][k - i + 1] == s[k + 1] && st[i..j][k - i + 1] == st[k + 1];
  }

  lemma SameLengths(s: Shape, st: Strides, s': Shape, st': Strides)
    requires SameOffsets(s, st, s', st')
    ensures |s| == |st| && |s'| == |st'|
  {
  }

  lemma StrippedOffsets(shape: Shape, strides: Strides, to: Shape, t: Strides)
    requires |shape| == |strides|
    ensures SameOffsets(shape, strides, to, t) <==> SameOffsets(Stripped(shape), StrippedStrides(shape, strides), to, t)
  {
    hide OffAt, Numel, Stripped, StrippedStrides;
    var od, ost := Stripped(shape), StrippedStrides(shape, strides);
    StrippedSame(shape, strides, 0);
    if SameOffsets(shape, strides, to, t) {
      forall p: nat | p < Numel(od)
        ensures SameAt(od, ost, to, t, p)
      {
        StrippedSame(shape, strides, p);
        assert SameAt(shape, strides, to, t, p);
      }
    }
    if SameOffsets(od, ost, to, t) {
      forall p: nat | p < Numel(shape)
        ensures SameAt(shape, strides, to, t, p)
      {
        StrippedSame(shape, strides, p);
        assert SameAt(od, ost, to, t, p);
      }
    }
  }

  /** At the end the old axes are used up, and new ones that are left have extent 1. */
  lemma AllFound(shape: Shape, strides: Strides, od: Shape, ost: Strides, to: Shape, ns: Strides, oi: nat, ni: nat)
    requires |shape| == |strides| && od == Stripped(shape) && ost == StrippedStrides(shape, strides)
    requires Found(od, ost, to, ns, oi, ni) && (ni == |to| || oi == |od|) && forall j :: 0 <= j < |od| ==> od[j] >= 2
    ensures SameOffsets(shape, strides, to, ns) && AgreeKept(shape, strides, to, ns)
  {
    hide Numel, SameOffsets, AgreeKept, Stripped, StrippedStrides;
    NumelOne();
    if oi < |od| {
      assert to[ni..] == [];
      AtLeastTwo(od[oi..]);
      assert false;
    }
    var rest := to[ni..];
    assert od[oi..] == [];
    AllOnes(rest);
    OnesSame(rest, ns[ni..]);
    SameNumel(od[..oi], ost[..oi], to[..ni], ns[..ni]);
    SameAppend(od[..oi], ost[..oi], to[..ni], ns[..ni], [], [], rest, ns[ni..]);
    AgreeKeptAppend(od[..oi], ost[..oi], to[..ni], ns[..ni], [], [], rest, ns[ni..]);
    assert od[..oi] + [] == od && ost[..oi] + [] == ost && to[..ni] + rest == to && ns[..ni] + ns[ni..] == ns;
    StrippedOffsets(shape, strides, to, ns);
    AgreeUnstripped(shape, strides, to, ns);
  }

  lemma OnesSame(s: Shape, st: Strides)
    requires |s| == |st| && Numel(s) == 1 && forall k :: 0 <= k < |s| ==> st[k] == 0
    ensures SameOffsets([], [], s, st) && AgreeKept([], [], s, st)
  {
    NumelOne();
    OffAtZero(s, st);
    OffOfNothing();
    hide Numel, OffAt;
    assert SameAt([], [], s, st, 0);
  }

  lemma AgreeUnstripped(shape: Shape, strides: Strides, to: Shape, ns: Strides)
    requires |shape| == |strides| && AgreeKept(Stripped(shape), StrippedStrides(shape, strides), to, ns)
    ensures AgreeKept(shape, strides, to, ns)
  {
    StrippedSame(shape, strides, 0);
    forall p: nat, q: nat | p < Numel(shape) && q < Numel(shape) && Agree(shape, strides, p, q)
      ensures Agree(to, ns, p, q)
    {
      StrippedAgree(shape, strides, p, q);
    }
  }

  lemma OnesCleared(shape: Shape, strides: Strides, to: Shape, raw: Strides, ns: Strides)
    requires SameOffsets(shape, strides, to, raw) && AgreeKept(shape, strides, to, raw) && |ns| == |to|
    requires forall k :: 0 <= k < |to| ==> ns[k] == if to[k] == 1 then 0 else raw[k]
    ensures SameOffsets(shape, strides, to, ns) && AgreeKept(shape, strides, to, ns)
  {
    hide OffAt, Numel;
    forall p: nat | p < Numel(shape)
      ensures SameAt(shape, strides, to, ns, p)
    {
      assert SameAt(shape, strides, to, raw, p);
      OnesOffset(to, raw, ns, p);
    }
  }

  // ---- one stride for all ----

  /**
    Whether, and with which stride, offsets are proportional to positions.  For a shape without
    elements the answer means nothing.
   */
  method CanUseFastIndexing(shape: Shape, strides: Strides) returns (ok: bool, stride: int)
    requires |shape| == |strides|
    ensures ok ==> Linear(shape, strides, stride)
    ensures Numel(shape) > 0 && !ok ==> forall t :: !Linear(shape, strides, t)
  {
    hide Numel, Linear, Stripped, StrippedStrides, CompactStride, Even;
    var ss, sst := StripOnes(shape, strides);
    if ss == [] {
      SingleElement(shape, strides);
      return true, 0;
    }
    var linear := sst[|sst| - 1];
    var compact := MakeCompactStrides(ss);
    for idx := 0 to |ss|
      invariant forall k :: 0 <= k < idx ==> sst[k] == linear * compact[k]
    {
      if linear * compact[idx] != sst[idx] {
        NotLinear(shape, strides, ss, sst, compact, idx);
        return false, 0;
      }
    }
    SpacedIsLinear(shape, strides, ss, sst, compact, linear);
    return true, linear;
  }

  lemma SingleElement(shape: Shape, strides: Strides)
    requires |shape| == |strides| && Stripped(shape) == []
    ensures Linear(shape, strides, 0)
  {
    forall p: nat | p < Numel(shape)
      ensures OffAt(shape, strides, p) == 0
    {
      StrippedSame(shape, strides, p);
      EmptyShape(p);
      OffOfNothing();
    }
  }

  lemma SpacedIsLinear(shape: Shape, strides: Strides, ss: Shape, sst: Strides, compact: Strides, linear: int)
    requires |shape| == |strides| && ss == Stripped(shape) && sst == StrippedStrides(shape, strides) && ss != []
    requires |compact| == |ss| && forall k :: 0 <= k < |ss| ==> compact[k] == CompactStride(ss, k) && sst[k] == linear * compact[k]
    ensures Linear(shape, strides, linear)
  {
    hide Numel, OffAt, Stripped, StrippedStrides;
    forall k | 0 <= k && k + 1 < |ss|
      ensures sst[k] == ss[k + 1] * sst[k + 1]
    {
      NumelBehind(ss, k);
      assert ss[k + 1 + 1..] == ss[k + 2..];
      ProductsCommute(linear, Numel(ss[k + 2..]), ss[k + 1]);
    }
    LastCompact(ss, compact);
    forall p: nat | p < Numel(shape)
      ensures OffAt(shape, strides, p) == linear * p
    {
      StrippedSame(shape, strides, p);
      EvenIsLinear(ss, sst, p);
    }
  }

  lemma ProductsCommute(a: int, b: int, c: int)
    ensures a * (b * c) == c * (a * b)
  {
    MulAssoc(a, b, c);
  }

  lemma LastCompact(ss: Shape, compact: Strides)
    requires ss != [] && |compact| == |ss| && (forall k :: 0 <= k < |ss| ==> compact[k] == CompactStride(ss, k)) && ss[|ss| - 1] != 1
    ensures compact[|ss| - 1] == 1
  {
    assert ss[|ss|..] == [];
  }

  /** Position compact[k] is one step along axis k. */
  lemma NotLinear(shape: Shape, strides: Strides, ss: Shape, sst: Strides, compact: Strides, k: nat)
    requires |shape| == |strides| && ss == Stripped(shape) && sst == StrippedStrides(shape, strides)
    requires k < |ss| == |compact| && (forall j :: 0 <= j < |ss| ==> compact[j] == CompactStride(ss, j))
    requires sst[|ss| - 1] * compact[k] != sst[k]
    ensures Numel(shape) > 0 ==> forall t :: !Linear(shape, strides, t)
  {
    hide Numel, OffAt, Stripped, StrippedStrides, Linear;
    if Numel(shape) > 0 {
      StrippedSame(shape, strides, 0);
      AxisStep(ss, sst, k);
      AxisStep(ss, sst, |ss| - 1);
      LastCompact(ss, compact);
      StrippedSame(shape, strides, compact[k]);
      StrippedSame(shape, strides, 1);
      forall t
        ensures !Linear(shape, strides, t)
      {
        if Linear(shape, strides, t) {
          LinearAt(shape, strides, t, 1);
          LinearAt(shape, strides, t, compact[k]);
          assert false;
        }
      }
    }
  }

  lemma LinearAt(s: Shape, st: Strides, t: int, p: nat)
    requires |s| == |st| && Linear(s, st, t) && p < Numel(s)
    ensures OffAt(s, st, p) == t * p
  {
  }

  lemma AxisStep(s: Shape, st: Strides, k: nat)
    requires |s| == |st| && k < |s| && Numel(s) > 0 && s[k] != 1
    ensures CompactStride(s, k) < Numel(s) && OffAt(s, st, CompactStride(s, k)) == st[k]
    ensures k == |s| - 1 ==> CompactStride(s, k) == 1
  {
    hide OffAt, Numel;
    NumelPositive(s);
    assert s[0..] == s;
    RangePositive(s, 0, k + 1);
    RangePositive(s, 0, k);
    NumelNextAxis(s, 0, k);
    TwiceAsMany(Numel(s[0..k]), s[k], Numel(s[k + 1..]));
    BoundaryAt(s, st, k);
    NumelOne();
    assert k == |s| - 1 ==> s[k + 1..] == [];
  }

  lemma TwiceAsMany(front: nat, extent: nat, rest: nat)
    requires front >= 1 && extent >= 2 && rest >= 1
    ensures rest < front * extent * rest
  {
    MulLe(1, front, extent);
    MulLt(1, front * extent, rest);
  }

  lemma BoundaryAt(s: Shape, st: Strides, k: nat)
    requires |s| == |st| && k < |s| && s[k] >= 2 && Numel(s[k + 1..]) > 0
    ensures OffAt(s, st, Numel(s[k + 1..])) == st[k]
  {
    hide OffAt, Numel;
    if k + 1 < |s| {
      BoundaryOffset(s, st, k + 1);
    } else {
      assert s[k + 1..] == [];
      NumelOne();
      SmallOffset(s, st, 1);
    }
  }

  lemma FlatAt(shape: Shape, strides: Strides, stride: int, n: nat, p: nat)
    requires |shape| == |strides| && Linear(shape, strides, stride) && p < n == Numel(shape)
    ensures SameAt(shape, strides, [n], [stride], p)
  {
    hide Numel, OffAt, Linear;
    LinearAt(shape, strides, stride, p);
    SmallOffset([n], [stride], p);
  }

  /** Such an array is flattened without a copy. */
  lemma LinearFlattens(shape: Shape, strides: Strides, stride: int)
    requires |shape| == |strides| && Linear(shape, strides, stride)
    ensures SameOffsets(shape, strides, [Numel(shape)], [stride])
  {
    hide Numel, OffAt, Linear, SameAt;
    var N := Numel(shape);
    OneAxisNumel([N], 0);
    assert [N][0..1] == [N];
    forall p: nat | p < N
      ensures SameAt(shape, strides, [N], [stride], p)
    {
      FlatAt(shape, strides, stride, N, p);
    }
  }
}
