/** Finite sets of numbers: ranges, the members of a sequence, and how many there are. */
module FiniteSets {
  /** The numbers lo, ..., hi - 1. */
  function Range(lo: nat, hi: nat): (s: set<nat>)
    ensures forall k: nat :: k in s <==> lo <= k < hi
  {
    if lo >= hi then {} else Range(lo, hi - 1) + {hi - 1}
  }

  function Members(a: seq<nat>): (s: set<nat>)
    ensures forall k :: k in s <==> k in a
  {
    if a == [] then {} else Members(a[..|a| - 1]) + {a[|a| - 1]}
  }

  predicate Distinct(a: seq<int>) {
    forall i, j :: 0 <= i < j < |a| ==> a[i] != a[j]
  }

  lemma {:induction false} RangeCount(n: nat)
    ensures |Range(0, n)| == n
  {
    if n > 0 {
      RangeCount(n - 1);
    }
  }

  lemma {:induction false} MembersCount(a: seq<nat>)
    requires Distinct(a)
    ensures |Members(a)| == |a|
  {
    if a != [] {
      MembersCount(a[..|a| - 1]);
      assert a[|a| - 1] !in a[..|a| - 1];
    }
  }

  lemma SubsetCount(s: set<nat>, t: set<nat>)
    requires s <= t
    ensures |s| <= |t|
  {
    assert t == s + (t - s);
  }

  /** n distinct numbers below n are all of them. */
  lemma DistinctIsOnto(a: seq<nat>, n: nat)
    requires Distinct(a) && |a| == n && forall k :: 0 <= k < n ==> a[k] < n
    ensures forall k :: 0 <= k < n ==> k in a
  {
    hide Distinct, Range, Members;
    MembersCount(a);
    RangeCount(n);
    assert Members(a) <= Range(0, n);
    forall k: nat | k < n
      ensures k in a
    {
      if k !in Members(a) {
        SubsetCount(Members(a), Range(0, n) - {k});
      }
    }
  }

  /** Distinct numbers that are all of those below n are n many. */
  lemma OntoCount(a: seq<nat>, n: nat)
    requires Distinct(a) && (forall k :: k in a ==> k < n) && forall k :: 0 <= k < n ==> k in a
    ensures |a| == n
  {
    MembersCount(a);
    RangeCount(n);
    assert Members(a) == Range(0, n);
  }
}
