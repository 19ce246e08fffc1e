/**
  Applying an operation to many containers at once by joining them, and reducing a list of
  containers with logarithmically many such joint operations.
 */
module Vectorize {
  import opened Bits

  /** All elements of a list of containers, in order. */
  function Joined<E>(items: seq<seq<E>>): seq<E> {
    if items == [] then [] else Joined(items[..|items| - 1]) + items[|items| - 1]
  }

  function Sizes<E>(items: seq<seq<E>>): (s: seq<nat>)
    ensures |s| == |items|
  {
    seq(|items|, k requires 0 <= k < |items| => |items[k]|)
  }

  function Total(sizes: seq<nat>): nat {
    if sizes == [] then 0 else Total(sizes[..|sizes| - 1]) + sizes[|sizes| - 1]
  }

  lemma {:induction false} JoinedLength<E>(items: seq<seq<E>>)
    ensures |Joined(items)| == Total(Sizes(items))
    decreases |items|
  {
    if items != [] {
      var n := |items| - 1;
      JoinedLength(items[..n]);
      assert Sizes(items)[..n] == Sizes(items[..n]);
    }
  }

  method Pack<E>(items: seq<seq<E>>) returns (joined: seq<E>, sizes: seq<nat>)
    ensures joined == Joined(items) && sizes == Sizes(items)
  {
    joined, sizes := [], [];
    for k := 0 to |items|
      invariant joined == Joined(items[..k]) && sizes == Sizes(items[..k])
    {
      assert items[..k + 1][..k] == items[..k];
      joined, sizes := joined + items[k], sizes + [|items[k]|];
    }
    assert items[..|items|] == items;
  }

  /** Cuts a container into pieces of the given sizes, if they add up to its length. */
  method Unpack<E>(v: seq<E>, sizes: seq<nat>) returns (ok: bool, items: seq<seq<E>>)
    ensures ok <==> |v| == Total(sizes)
    ensures ok ==> Joined(items) == v && Sizes(items) == sizes
  {
    var total := 0;
    for k := 0 to |sizes|
      invariant total == Total(sizes[..k])
    {
      assert sizes[..k + 1][..k] == sizes[..k];
      total := total + sizes[k];
    }
    assert sizes[..|sizes|] == sizes;
    items := [];
    if |v| != total {
      return false, items;
    }
    var offset := 0;
    for k := 0 to |sizes|
      invariant offset == Total(sizes[..k]) <= |v|
      invariant Joined(items) == v[..offset] && Sizes(items) == sizes[..k]
    {
      TotalGrows(sizes, k + 1);
      assert sizes[..k + 1][..k] == sizes[..k];
      var sub := v[offset..offset + sizes[k]];
      assert (items + [sub])[..k] == items;
      items := items + [sub];
      offset := offset + sizes[k];
    }
    assert v[..offset] == v;
    ok := true;
  }

  lemma {:induction false} TotalGrows(sizes: seq<nat>, k: nat)
    requires k <= |sizes|
    ensures Total(sizes[..k]) <= Total(sizes)
    decreases |sizes|
  {
    if k < |sizes| {
      TotalGrows(sizes[..|sizes| - 1], k);
      assert sizes[..|sizes| - 1][..k] == sizes[..k];
    } else {
      assert sizes[..k] == sizes;
    }
  }

  /** The pieces are determined by the whole and their sizes: unpacking undoes packing. */
  lemma {:induction false} PiecesDetermined<E>(a: seq<seq<E>>, b: seq<seq<E>>)
    requires Joined(a) == Joined(b) && Sizes(a) == Sizes(b)
    ensures a == b
    decreases |a|
  {
    assert |a| == |b|;
    if a != [] {
      var n := |a| - 1;
      assert Sizes(a)[n] == Sizes(b)[n];
      JoinedLength(a[..n]);
      JoinedLength(b[..n]);
      assert Sizes(a)[..n] == Sizes(a[..n]) && Sizes(b)[..n] == Sizes(b[..n]);
      assert Joined(a)[..|Joined(a[..n])|] == Joined(a[..n]) && Joined(b)[..|Joined(b[..n])|] == Joined(b[..n]);
      PiecesDetermined(a[..n], b[..n]);
      assert a[n] == Joined(a)[|Joined(a[..n])|..] && b[n] == Joined(b)[|Joined(b[..n])|..];
      assert a == a[..n] + [a[n]] && b == b[..n] + [b[n]];
    }
  }

  // ---- elementwise operations ----

  /** An elementwise operation on two containers of equal size. */
  function Zip<E>(g: (E, E) -> E, x: seq<E>, y: seq<E>): (r: seq<E>)
    requires |x| == |y|
    ensures |r| == |x| && forall k :: 0 <= k < |x| ==> r[k] == g(x[k], y[k])
  {
    seq(|x|, k requires 0 <= k < |x| => g(x[k], y[k]))
  }

  predicate Matching<E>(a: seq<seq<E>>, b: seq<seq<E>>) {
    |a| == |b| && forall k :: 0 <= k < |a| ==> |a[k]| == |b[k]|
  }

  /** The operation on two lists of containers, pair by pair. */
  function Pairwise<E>(g: (E, E) -> E, a: seq<seq<E>>, b: seq<seq<E>>): (r: seq<seq<E>>)
    requires Matching(a, b)
    ensures |r| == |a| && forall k :: 0 <= k < |a| ==> r[k] == Zip(g, a[k], b[k])
  {
    seq(|a|, k requires 0 <= k < |a| => Zip(g, a[k], b[k]))
  }

  /** One operation on the joined containers does all the pairs. */
  lemma {:induction false} JoinedPairwise<E>(g: (E, E) -> E, a: seq<seq<E>>, b: seq<seq<E>>)
    requires Matching(a, b)
    ensures |Joined(a)| == |Joined(b)| && Zip(g, Joined(a), Joined(b)) == Joined(Pairwise(g, a, b))
    decreases |a|
  {
    hide Zip;
    if a != [] {
      var n := |a| - 1;
      JoinedPairwise(g, a[..n], b[..n]);
      assert Pairwise(g, a, b)[..n] == Pairwise(g, a[..n], b[..n]);
      ZipAppend(g, Joined(a[..n]), a[n], Joined(b[..n]), b[n]);
    } else {
      ZipNothing(g);
    }
  }

  lemma ZipAppend<E>(g: (E, E) -> E, x: seq<E>, x': seq<E>, y: seq<E>, y': seq<E>)
    requires |x| == |y| && |x'| == |y'|
    ensures Zip(g, x + x', y + y') == Zip(g, x, y) + Zip(g, x', y')
  {
  }

  lemma ZipNothing<E>(g: (E, E) -> E)
    ensures Zip(g, [], []) == []
  {
  }

  /** Packs both lists, applies the operation once, unpacks. */
  method VMap<E>(a: seq<seq<E>>, b: seq<seq<E>>, g: (E, E) -> E) returns (r: seq<seq<E>>)
    requires Matching(a, b)
    ensures r == Pairwise(g, a, b)
  {
    var aJoined, aSizes := Pack(a);
    var bJoined, bSizes := Pack(b);
    JoinedPairwise(g, a, b);
    JoinedLength(a);
    var result := Zip(g, aJoined, bJoined);
    var ok;
    ok, r := Unpack(result, aSizes);
    assert Sizes(Pairwise(g, a, b)) == Sizes(a);
    PiecesDetermined(r, Pairwise(g, a, b));
  }

  // ---- reduction ----

  ghost predicate Associative<E(!new)>(g: (E, E) -> E) {
    forall x, y, z :: g(g(x, y), z) == g(x, g(y, z))
  }

  ghost predicate Commutative<E(!new)>(g: (E, E) -> E) {
    forall x, y :: g(x, y) == g(y, x)
  }

  predicate SameSize<E>(items: seq<seq<E>>, size: nat) {
    forall k :: 0 <= k < |items| ==> |items[k]| == size
  }

  /** One after the other. */
  function Fold<E>(g: (E, E) -> E, items: seq<seq<E>>, size: nat): (r: seq<E>)
    requires items != [] && SameSize(items, size)
    ensures |r| == size
  {
    if |items| == 1 then items[0] else Zip(g, Fold(g, items[..|items| - 1], size), items[|items| - 1])
  }

  lemma ZipAssociates<E(!new)>(g: (E, E) -> E, x: seq<E>, y: seq<E>, z: seq<E>)
    requires Associative(g) && |x| == |y| == |z|
    ensures Zip(g, Zip(g, x, y), z) == Zip(g, x, Zip(g, y, z))
  {
  }

  lemma {:induction false} FoldAppend<E(!new)>(g: (E, E) -> E, a: seq<seq<E>>, b: seq<seq<E>>, size: nat)
    requires Associative(g) && a != [] && b != [] && SameSize(a, size) && SameSize(b, size)
    ensures Fold(g, a + b, size) == Zip(g, Fold(g, a, size), Fold(g, b, size))
    decreases |b|
  {
    hide Associative;
    var n := |b| - 1;
    assert (a + b)[..|a| + n] == a + b[..n];
    if n == 0 {
      assert a + b[..n] == a;
    } else {
      FoldAppend(g, a, b[..n], size);
      ZipAssociates(g, Fold(g, a, size), Fold(g, b[..n], size), b[n]);
    }
  }

  /** Pairing two halves up and folding the pairs is folding both halves. */
  lemma {:induction false} FoldPairs<E(!new)>(g: (E, E) -> E, a: seq<seq<E>>, b: seq<seq<E>>, size: nat)
    requires Associative(g) && Commutative(g) && a != [] && |a| == |b| && SameSize(a, size) && SameSize(b, size)
    ensures Matching(a, b) && SameSize(Pairwise(g, a, b), size)
    ensures Fold(g, Pairwise(g, a, b), size) == Zip(g, Fold(g, a, size), Fold(g, b, size))
    decreases |a|
  {
    hide Associative, Commutative;
    var n := |a| - 1;
    if n > 0 {
      FoldPairs(g, a[..n], b[..n], size);
      assert Pairwise(g, a, b)[..n] == Pairwise(g, a[..n], b[..n]);
      Interchange(g, Fold(g, a[..n], size), Fold(g, b[..n], size), a[n], b[n]);
    }
  }

  lemma Interchange<E(!new)>(g: (E, E) -> E, x: seq<E>, y: seq<E>, u: seq<E>, v: seq<E>)
    requires Associative(g) && Commutative(g) && |x| == |y| == |u| == |v|
    ensures Zip(g, Zip(g, x, y), Zip(g, u, v)) == Zip(g, Zip(g, x, u), Zip(g, y, v))
  {
    forall k | 0 <= k < |x|
      ensures g(g(x[k], y[k]), g(u[k], v[k])) == g(g(x[k], u[k]), g(y[k], v[k]))
    {
      assert g(g(x[k], y[k]), g(u[k], v[k])) == g(x[k], g(y[k], g(u[k], v[k])));
      assert g(y[k], g(u[k], v[k])) == g(g(y[k], u[k]), v[k]);
      assert g(y[k], u[k]) == g(u[k], y[k]);
      assert g(g(u[k], y[k]), v[k]) == g(u[k], g(y[k], v[k]));
      assert g(x[k], g(u[k], g(y[k], v[k]))) == g(g(x[k], u[k]), g(y[k], v[k]));
    }
  }

  /**
    Reduces a non-empty list: each round pairs element i with element i + half in one joint
    operation, a leftover last element joining the next round.
   */
  method VReduce<E(!new)>(items: seq<seq<E>>, g: (E, E) -> E, ghost size: nat) returns (r: seq<E>, ghost calls: nat)
    requires items != [] && SameSize(items, size) && Associative(g) && Commutative(g)
    ensures r == Fold(g, items, size)
    ensures calls == Log2Ceil(|items|)
  {
    hide Associative, Commutative, Pairwise;
    var level := items;
    calls := 0;
    while |level| > 1
      invariant level != [] && SameSize(level, size) && Fold(g, level, size) == Fold(g, items, size)
      invariant calls + Log2Ceil(|level|) == Log2Ceil(|items|)
    {
      var half := |level| / 2;
      RoundKeeps(g, level, half, size);
      var next := VMap(level[..half], level[half..2 * half], g);
      calls := calls + 1;
      if |level| % 2 == 1 {
        next := next + [level[|level| - 1]];
      }
      HalvingRounds(|level|);
      level := next;
    }
    r := level[0];
  }

  /** A round does not change what folding gives. */
  lemma RoundKeeps<E(!new)>(g: (E, E) -> E, level: seq<seq<E>>, half: nat, size: nat)
    requires |level| >= 2 && half == |level| / 2 && SameSize(level, size) && Associative(g) && Commutative(g)
    ensures Matching(level[..half], level[half..2 * half])
    ensures var pairs := Pairwise(g, level[..half], level[half..2 * half]);
      var next := if |level| % 2 == 1 then pairs + [level[|level| - 1]] else pairs;
      SameSize(next, size) && Fold(g, next, size) == Fold(g, level, size)
  {
    hide Fold, Associative, Commutative;
    var lhs, rhs := level[..half], level[half..2 * half];
    FoldPairs(g, lhs, rhs, size);
    FoldAppend(g, lhs, rhs, size);
    assert lhs + rhs == level[..2 * half];
    if |level| % 2 == 1 {
      var last := level[|level| - 1..];
      assert last == [level[|level| - 1]];
      FoldAppend(g, Pairwise(g, lhs, rhs), last, size);
      FoldAppend(g, lhs + rhs, last, size);
      assert level == lhs + rhs + last;
    } else {
      assert level == lhs + rhs;
    }
  }

  lemma HalvingRounds(n: nat)
    requires n >= 2
    ensures Log2Ceil(n) == 1 + Log2Ceil(n / 2 + n % 2)
  {
    assert n / 2 + n % 2 - 1 == (n - 1) / 2;
  }

  function Union(x: multiset<nat>, y: multiset<nat>): multiset<nat> {
    x + y
  }

  lemma UnionLaws()
    ensures Associative(Union) && Commutative(Union)
  {
    var g: (multiset<nat>, multiset<nat>) -> multiset<nat> := Union;
    forall x: multiset<nat>, y: multiset<nat>
      ensures g(x, y) == g(y, x)
    {
      assert x + y == y + x;
    }
    forall x: multiset<nat>, y: multiset<nat>, z: multiset<nat>
      ensures g(g(x, y), z) == g(x, g(y, z))
    {
      assert x + y + z == x + (y + z);
    }
  }

  function Upto(n: nat): multiset<nat> {
    if n == 0 then multiset{} else Upto(n - 1) + multiset{n - 1}
  }

  function Singletons(n: nat): (s: seq<seq<multiset<nat>>>)
    ensures |s| == n && forall k :: 0 <= k < n ==> s[k] == [multiset{k}]
  {
    seq(n, k requires 0 <= k < n => [multiset{k}])
  }

  lemma {:induction false} FoldSingletons(n: nat)
    requires n >= 1
    ensures Fold(Union, Singletons(n), 1) == [Upto(n)]
  {
    hide Zip, Singletons, Upto, Union;
    UptoNext(n - 1);
    if n > 1 {
      FoldSingletons(n - 1);
      assert Singletons(n)[..n - 1] == Singletons(n - 1);
      OneUnion(Upto(n - 1), multiset{n - 1});
    }
  }

  lemma UptoNext(n: nat)
    ensures Upto(n + 1) == Upto(n) + multiset{n} && (n == 0 ==> Upto(n + 1) == multiset{n})
  {
  }

  lemma OneUnion(x: multiset<nat>, y: multiset<nat>)
    ensures Zip(Union, [x], [y]) == [x + y]
  {
    assert Zip(Union, [x], [y])[0] == Union(x, y);
  }

  /** Every input goes into the result exactly once. */
  method EachOnce(n: nat) returns (r: seq<multiset<nat>>)
    requires n >= 1
    ensures r == [Upto(n)]
  {
    ghost var calls;
    UnionLaws();
    r, calls := VReduce(Singletons(n), Union, 1);
    FoldSingletons(n);
  }
}
