/**
  Quantile binning of one feature column: Fit chooses thresholds from a sample, Transform maps
  values to bins.  Doubles are reals; the one infinity that occurs is PosInf.
 */
module Binning {
  import opened Arith

  datatype Ext = Fin(x: real) | PosInf

  predicate Less(a: Ext, b: Ext) {
    a.Fin? && (b.PosInf? || a.x < b.x)
  }

  const EPS: real := 0.0000000001

  /** The largest finite double. */
  const DBL_MAX: real := (Pow2(1024) - Pow2(971)) as real

  /** x and y are not less than EPS apart. */
  predicate MathNeq(x: real, y: real)
    ensures MathNeq(x, y) <==> !(y - EPS < x < y + EPS)
  {
    x - y >= EPS || y - x >= EPS
  }

  predicate Sorted(s: seq<real>) {
    forall i, j :: 0 <= i < j < |s| ==> s[i] <= s[j]
  }

  predicate Increasing(s: seq<real>) {
    forall i, j :: 0 <= i < j < |s| ==> s[i] < s[j]
  }

  /** A sample none of whose values can be told apart from DBL_MAX, the initial "last value". */
  predicate AllNearMax(x: seq<real>) {
    forall i :: 0 <= i < |x| ==> !MathNeq(x[i], DBL_MAX)
  }

  /** What Fit must deliver: strictly increasing sample values, then infinity. */
  predicate ThresholdsFor(thr: seq<Ext>, x: seq<real>, nbuckets: nat) {
    && 1 <= |thr| <= nbuckets
    && thr[|thr| - 1] == PosInf
    && (forall i :: 0 <= i < |thr| - 1 ==> thr[i].Fin? && thr[i].x in x)
    && StrictlySorted(thr)
  }

  predicate StrictlySorted(thr: seq<Ext>) {
    forall i, j :: 0 <= i < j < |thr| ==> Less(thr[i], thr[j])
  }

  /**
    The categories among the first n values of a sorted sample: greedily, each value at least EPS
    away from the one kept last.
   */
  function Categories(s: seq<real>, n: nat): (c: seq<real>)
    requires n <= |s|
    ensures n == 0 <==> c == []
  {
    if n == 0 then []
    else
      var c := Categories(s, n - 1);
      if c == [] || MathNeq(s[n - 1], c[|c| - 1]) then c + [s[n - 1]] else c
  }

  lemma {:induction false} CategoriesPrefix(s: seq<real>, m: nat, n: nat)
    requires m <= n <= |s|
    ensures Categories(s, m) <= Categories(s, n)
    decreases n - m
  {
    if m < n {
      CategoriesPrefix(s, m + 1, n);
    }
  }

  function Wrapped(s: seq<real>): (r: seq<Ext>)
    ensures |r| == |s| && forall i :: 0 <= i < |s| ==> r[i] == Fin(s[i])
  {
    seq(|s|, i requires 0 <= i < |s| => Fin(s[i]))
  }

  function Insert(s: seq<real>, v: real): (r: seq<real>)
    ensures |r| == |s| + 1
  {
    if s == [] || v <= s[0] then [v] + s else [s[0]] + Insert(s[1..], v)
  }

  lemma {:induction false} InsertKeepsSorted(s: seq<real>, v: real)
    requires Sorted(s)
    ensures multiset(Insert(s, v)) == multiset(s) + multiset{v}
    ensures Sorted(Insert(s, v))
  {
    InsertAdds(s, v);
    if s != [] && s[0] < v {
      InsertKeepsSorted(s[1..], v);
      InsertBounded(s[1..], v, s[0]);
      SortedPrepend(s[0], Insert(s[1..], v));
    }
  }

  lemma {:induction false} InsertAdds(s: seq<real>, v: real)
    ensures multiset(Insert(s, v)) == multiset(s) + multiset{v}
  {
    if s != [] && v > s[0] {
      InsertAdds(s[1..], v);
      assert s == [s[0]] + s[1..];
    }
  }

  lemma {:induction false} InsertBounded(s: seq<real>, v: real, lo: real)
    requires lo <= v && forall i :: 0 <= i < |s| ==> lo <= s[i]
    ensures forall i :: 0 <= i < |Insert(s, v)| ==> lo <= Insert(s, v)[i]
  {
    if s != [] && s[0] < v {
      InsertBounded(s[1..], v, lo);
    }
  }

  lemma SortedPrepend(x: real, t: seq<real>)
    requires Sorted(t) && forall i :: 0 <= i < |t| ==> x <= t[i]
    ensures Sorted([x] + t)
  {
  }

  /** std::sort. */
  function Sort(s: seq<real>): (r: seq<real>)
    ensures |r| == |s|
  {
    if s == [] then [] else Insert(Sort(s[1..]), s[0])
  }

  lemma {:induction false} SortSorts(s: seq<real>)
    ensures Sorted(Sort(s)) && multiset(Sort(s)) == multiset(s)
  {
    if s != [] {
      SortSorts(s[1..]);
      InsertKeepsSorted(Sort(s[1..]), s[0]);
      assert s == [s[0]] + s[1..];
    }
  }

  lemma SortSameValues(s: seq<real>, v: real)
    ensures v in Sort(s) <==> v in s
  {
    SortSorts(s);
    assert v in Sort(s) <==> v in multiset(Sort(s));
  }

  // ---- steps of the loop in Fit ----

  lemma ScanStart(s: seq<real>, maxBins: nat)
    requires maxBins >= 3 && s != []
    ensures Scanned(s, maxBins, 0, CeilDiv(|s|, maxBins), [], [], [], false, DBL_MAX)
  {
    hide DBL_MAX;
    QuantilesStart(s, maxBins);
  }

  lemma CategoriesStep(s: seq<real>, n: nat)
    requires n < |s|
    ensures var c, v, d := Categories(s, n), s[n], Categories(s, n + 1);
      d == if c == [] || MathNeq(v, c[|c| - 1]) then c + [v] else c
    ensures |Categories(s, n + 1)| <= |Categories(s, |s|)|
    ensures |Categories(s, |s|)| <= |Categories(s, n + 1)| ==> Categories(s, n + 1) == Categories(s, |s|)
  {
    CategoriesComplete(s, n + 1);
  }

  lemma SortedFrom(s: seq<real>, i: nat)
    requires Sorted(s) && i < |s|
    ensures forall j :: i <= j < |s| ==> s[i] <= s[j]
  {
  }

  lemma Unpack(c: seq<real>, last: real, s: seq<real>)
    requires IncreasingUpTo(c, last, s)
    ensures Increasing(c) && Drawn(c, s)
  {
  }

  /** A prefix of the categories that is as long as all of them is all of them. */
  lemma CategoriesComplete(s: seq<real>, m: nat)
    requires m <= |s|
    ensures |Categories(s, m)| <= |Categories(s, |s|)|
    ensures |Categories(s, |s|)| <= |Categories(s, m)| ==> Categories(s, m) == Categories(s, |s|)
  {
    CategoriesPrefix(s, m, |s|);
  }

  lemma NearMaxBySmallest(x: seq<real>)
    requires x != [] && forall i :: 0 <= i < |x| ==> x[i] <= DBL_MAX
    ensures !MathNeq(Sort(x)[0], DBL_MAX) <==> AllNearMax(x)
  {
    var s := Sort(x);
    SortSorts(x);
    SortSameValues(x, s[0]);
    SortedFrom(s, 0);
    hide Sort, Sorted;
    forall i | 0 <= i < |x|
      ensures s[0] <= x[i]
    {
      SortSameValues(x, x[i]);
      var j :| 0 <= j < |s| && s[j] == x[i];
    }
  }

  // ---- which values are thresholds when the categories do not fit ----

  /**
    The value a later one must differ from at position i, after the thresholds thr: the last of the
    first maxBins + 2 categories seen, or the last threshold if that is larger.
   */
  function KeptLast(s: seq<real>, maxBins: nat, thr: seq<real>, i: nat): real
    requires i <= |s|
  {
    var c := Categories(s, i);
    var kept := if c == [] then DBL_MAX else c[(if |c| <= maxBins + 2 then |c| else maxBins + 2) - 1];
    if c != [] && thr != [] && thr[|thr| - 1] > kept then thr[|thr| - 1] else kept
  }

  /** From where on threshold k may stand: the samples from the last threshold on are shared evenly among the bins left. */
  function Due(n: nat, maxBins: nat, pos: seq<nat>, k: nat): (d: nat)
    requires k <= |pos| && k < maxBins
    ensures k == 0 ==> n <= d * maxBins < n + maxBins
    ensures k > 0 && pos[k - 1] <= n ==> n - pos[k - 1] <= (d - pos[k - 1]) * (maxBins - k) < n - pos[k - 1] + maxBins - k
  {
    if k == 0 then CeilDiv(n, maxBins)
    else if pos[k - 1] <= n then pos[k - 1] + CeilDiv(n - pos[k - 1], maxBins - k)
    else n
  }

  /** None of the positions lo, ..., hi - 1 differs from the value kept last. */
  ghost predicate NoneDiffers(s: seq<real>, maxBins: nat, thr: seq<real>, lo: nat, hi: nat) {
    hi <= |s| && forall i :: lo <= i < hi ==> !MathNeq(s[i], KeptLast(s, maxBins, thr, i))
  }

  /** Threshold k stands at the first position from the due one on that differs from the value kept last. */
  ghost predicate QuantileAt(s: seq<real>, maxBins: nat, thr: seq<real>, pos: seq<nat>, k: nat) {
    && k < |thr| && k < |pos| && k < maxBins && pos[k] < |s|
    && Due(|s|, maxBins, pos, k) <= pos[k] && thr[k] == s[pos[k]] && MathNeq(thr[k], KeptLast(s, maxBins, thr[..k], pos[k]))
    && NoneDiffers(s, maxBins, thr[..k], Due(|s|, maxBins, pos, k), pos[k])
  }

  ghost predicate QuantilesSoFar(s: seq<real>, maxBins: nat, thr: seq<real>, pos: seq<nat>) {
    |pos| == |thr| < maxBins && forall k :: 0 <= k < |thr| ==> QuantileAt(s, maxBins, thr, pos, k)
  }

  /** And there are as many as fit, or no position is left for another. */
  ghost predicate Quantiles(s: seq<real>, maxBins: nat, thr: seq<real>, pos: seq<nat>) {
    && QuantilesSoFar(s, maxBins, thr, pos)
    && (|thr| + 1 == maxBins || NoneDiffers(s, maxBins, thr, Due(|s|, maxBins, pos, |thr|), |s|))
  }

  ghost predicate AreQuantiles(s: seq<real>, maxBins: nat, thr: seq<real>) {
    exists pos :: Quantiles(s, maxBins, thr, pos)
  }

  /**
    A bin between two thresholds gets at least its share of the samples left to it and to the bins
    behind it, and neighbouring thresholds differ by EPS or more.
   */
  lemma QuantilesSpread(s: seq<real>, maxBins: nat, thr: seq<real>, pos: seq<nat>)
    requires Sorted(s) && Quantiles(s, maxBins, thr, pos)
    ensures |pos| == |thr| && forall k :: 0 <= k < |thr| ==> pos[k] < |s| && thr[k] == s[pos[k]]
    ensures thr != [] ==> pos[0] * maxBins >= |s|
    ensures forall k :: 0 <= k < |thr| - 1 ==> pos[k] < pos[k + 1] && (pos[k + 1] - pos[k]) * (maxBins - k - 1) >= |s| - pos[k]
    ensures forall k :: 0 <= k < |thr| - 1 ==> MathNeq(thr[k + 1], thr[k])
  {
    hide Sorted, Due, NoneDiffers, KeptLast, MathNeq;
    if thr != [] {
      assert QuantileAt(s, maxBins, thr, pos, 0);
      MulLe(Due(|s|, maxBins, pos, 0), pos[0], maxBins);
    }
    forall k | 0 <= k < |thr|
      ensures pos[k] < |s| && thr[k] == s[pos[k]]
    {
      assert QuantileAt(s, maxBins, thr, pos, k);
    }
    hide QuantileAt;
    forall k | 0 <= k < |thr| - 1
      ensures pos[k] < pos[k + 1] && (pos[k + 1] - pos[k]) * (maxBins - k - 1) >= |s| - pos[k]
      ensures MathNeq(thr[k + 1], thr[k])
    {
      assert QuantileAt(s, maxBins, thr, pos, k) && QuantileAt(s, maxBins, thr, pos, k + 1);
      QuantileGap(s, maxBins, thr, pos, k);
      QuantileStep(s, maxBins, thr, pos, k);
    }
  }

  lemma QuantileGap(s: seq<real>, maxBins: nat, thr: seq<real>, pos: seq<nat>, k: nat)
    requires QuantileAt(s, maxBins, thr, pos, k) && QuantileAt(s, maxBins, thr, pos, k + 1)
    ensures pos[k] < pos[k + 1] && (pos[k + 1] - pos[k]) * (maxBins - k - 1) >= |s| - pos[k]
  {
    hide NoneDiffers, KeptLast, MathNeq, Due;
    DueGap(|s|, pos[k], maxBins - k - 1, Due(|s|, maxBins, pos, k + 1), pos[k + 1]);
  }

  lemma QuantileStep(s: seq<real>, maxBins: nat, thr: seq<real>, pos: seq<nat>, k: nat)
    requires Sorted(s) && QuantileAt(s, maxBins, thr, pos, k) && QuantileAt(s, maxBins, thr, pos, k + 1)
    ensures MathNeq(thr[k + 1], thr[k])
  {
    QuantileGap(s, maxBins, thr, pos, k);
    var below, i := thr[..k + 1], pos[k + 1];
    assert i < |s| && thr[k + 1] == s[i] && MathNeq(thr[k + 1], KeptLast(s, maxBins, below, i));
    hide QuantileAt, Sorted;
    assert below[k] == thr[k];
    KeptBelow(s, maxBins, below, i);
    hide KeptLast;
  }

  lemma DueGap(n: nat, from: nat, bins: nat, due: nat, i: nat)
    requires from < n && n - from <= (due - from) * bins && due <= i
    ensures from < i && (i - from) * bins >= n - from
  {
    MulLe(due - from, i - from, bins);
  }

  /** In a sorted sample a value is never below the one kept before it, unless a threshold is. */
  lemma KeptBelow(s: seq<real>, maxBins: nat, thr: seq<real>, i: nat)
    requires Sorted(s) && 0 < i < |s| && thr != []
    ensures var kept := KeptLast(s, maxBins, thr, i);
      kept >= thr[|thr| - 1] && (kept <= s[i] || kept == thr[|thr| - 1])
  {
    CategoriesBelow(s, i);
    hide Sorted, Categories, DBL_MAX;
  }

  lemma {:induction false} CategoriesBelow(s: seq<real>, i: nat)
    requires Sorted(s) && i < |s|
    ensures forall j :: 0 <= j < |Categories(s, i)| ==> Categories(s, i)[j] <= s[i]
  {
    if i > 0 {
      CategoriesBelow(s, i - 1);
    }
  }

  /** That leaves no choice. */
  lemma {:induction false} QuantilesAgree(s: seq<real>, maxBins: nat, thr: seq<real>, pos: seq<nat>, thr': seq<real>, pos': seq<nat>, k: nat)
    requires Quantiles(s, maxBins, thr, pos) && Quantiles(s, maxBins, thr', pos') && k <= |thr| && k <= |thr'|
    ensures thr[..k] == thr'[..k] && pos[..k] == pos'[..k]
  {
    if k > 0 {
      QuantilesAgree(s, maxBins, thr, pos, thr', pos', k - 1);
      hide KeptLast, Due, MathNeq;
      assert QuantileAt(s, maxBins, thr, pos, k - 1) && QuantileAt(s, maxBins, thr', pos', k - 1);
      SameDue(|s|, maxBins, pos, pos', k - 1);
      assert pos[k - 1] == pos'[k - 1];
      assert thr[..k] == thr[..k - 1] + [thr[k - 1]] && thr'[..k] == thr'[..k - 1] + [thr'[k - 1]];
      assert pos[..k] == pos[..k - 1] + [pos[k - 1]] && pos'[..k] == pos'[..k - 1] + [pos'[k - 1]];
    }
  }

  lemma SameDue(n: nat, maxBins: nat, pos: seq<nat>, pos': seq<nat>, k: nat)
    requires k <= |pos| && k <= |pos'| && k < maxBins && pos[..k] == pos'[..k]
    ensures Due(n, maxBins, pos, k) == Due(n, maxBins, pos', k)
  {
    if k > 0 {
      assert pos[..k][k - 1] == pos'[..k][k - 1];
    }
  }

  lemma QuantilesUnique(s: seq<real>, maxBins: nat, thr: seq<real>, thr': seq<real>)
    requires AreQuantiles(s, maxBins, thr) && AreQuantiles(s, maxBins, thr')
    ensures thr == thr'
  {
    hide Quantiles, QuantilesSoFar;
    var pos :| Quantiles(s, maxBins, thr, pos);
    var pos' :| Quantiles(s, maxBins, thr', pos');
    if |thr| <= |thr'| {
      NoLonger(s, maxBins, thr, pos, thr', pos');
    } else {
      NoLonger(s, maxBins, thr', pos', thr, pos);
    }
  }

  lemma NoLonger(s: seq<real>, maxBins: nat, thr: seq<real>, pos: seq<nat>, thr': seq<real>, pos': seq<nat>)
    requires Quantiles(s, maxBins, thr, pos) && Quantiles(s, maxBins, thr', pos') && |thr| <= |thr'|
    ensures thr == thr'
  {
    var k := |thr|;
    QuantilesAgree(s, maxBins, thr, pos, thr', pos', k);
    assert thr[..k] == thr;
    hide KeptLast, Due, MathNeq;
    if k < |thr'| {
      assert QuantileAt(s, maxBins, thr', pos', k);
      SameDue(|s|, maxBins, pos, pos', k);
      assert false;
    }
    assert thr'[..k] == thr';
  }

  lemma QuantilesStart(s: seq<real>, maxBins: nat)
    requires maxBins > 0
    ensures QuantilesSoFar(s, maxBins, [], []) && Due(|s|, maxBins, [], 0) == CeilDiv(|s|, maxBins)
  {
  }

  /** Looking at position i moves the value kept last on to a new category, until there have been too many. */
  lemma KeptMoves(s: seq<real>, maxBins: nat, thr: seq<real>, i: nat, last: real)
    requires i < |s| && (thr != [] ==> thr[|thr| - 1] <= last <= s[i])
    requires var c := Categories(s, i);
      if c == [] then thr == [] else last == KeptLast(s, maxBins, thr, i) && (|c| <= maxBins + 1 ==> last == c[|c| - 1])
    ensures Categories(s, i + 1) != []
    ensures var c := Categories(s, i);
      KeptLast(s, maxBins, thr, i + 1) == if c == [] || (|c| <= maxBins + 1 && MathNeq(s[i], last)) then s[i] else last
  {
    hide MathNeq, DBL_MAX;
  }

  lemma KeptAdded(s: seq<real>, maxBins: nat, thr: seq<real>, i: nat, v: real)
    requires i <= |s| && Categories(s, i) != [] && KeptLast(s, maxBins, thr, i) <= v
    ensures KeptLast(s, maxBins, thr + [v], i) == v
  {
    hide Categories, DBL_MAX;
  }

  /** After that it stays until the next threshold. */
  lemma {:induction false} KeptStays(s: seq<real>, maxBins: nat, thr: seq<real>, i: nat, j: nat)
    requires i <= j <= |s| && |Categories(s, i)| > maxBins + 1
    ensures KeptLast(s, maxBins, thr, j) == KeptLast(s, maxBins, thr, i) && |Categories(s, j)| > maxBins + 1
  {
    CategoriesPrefix(s, i, j);
    hide Categories, DBL_MAX;
  }

  lemma NoneMore(s: seq<real>, maxBins: nat, thr: seq<real>, lo: nat, i: nat)
    requires i < |s| && NoneDiffers(s, maxBins, thr, lo, i) && (lo <= i ==> !MathNeq(s[i], KeptLast(s, maxBins, thr, i)))
    ensures NoneDiffers(s, maxBins, thr, lo, i + 1)
  {
    hide KeptLast, MathNeq;
  }

  lemma NoneYet(s: seq<real>, maxBins: nat, thr: seq<real>, lo: nat, hi: nat)
    requires hi <= lo && hi <= |s|
    ensures NoneDiffers(s, maxBins, thr, lo, hi)
  {
  }

  /** The next threshold. */
  lemma QuantileFound(s: seq<real>, maxBins: nat, thr: seq<real>, pos: seq<nat>, i: nat)
    requires QuantilesSoFar(s, maxBins, thr, pos) && |thr| + 1 < maxBins && i < |s|
    requires Due(|s|, maxBins, pos, |pos|) <= i && MathNeq(s[i], KeptLast(s, maxBins, thr, i))
    requires NoneDiffers(s, maxBins, thr, Due(|s|, maxBins, pos, |pos|), i)
    ensures QuantilesSoFar(s, maxBins, thr + [s[i]], pos + [i])
    ensures Due(|s|, maxBins, pos + [i], |pos| + 1) == i + CeilDiv(|s| - i, maxBins - |thr| - 1)
  {
    hide KeptLast, MathNeq, NoneDiffers;
    var t, p := thr + [s[i]], pos + [i];
    forall k | 0 <= k < |t|
      ensures QuantileAt(s, maxBins, t, p, k)
    {
      SameDue(|s|, maxBins, pos, p, k);
      assert t[..k] == thr[..k];
      if k < |thr| {
        assert QuantileAt(s, maxBins, thr, pos, k);
      } else {
        assert thr[..k] == thr;
      }
    }
  }

  /** What the loop promises on its way out. */
  ghost predicate Delivered(s: seq<real>, maxBins: nat, thr: seq<real>, cat: seq<real>) {
    && s != [] && Increasing(thr) && Drawn(thr, s) && |thr| + 1 <= maxBins && Increasing(cat) && Drawn(cat, s)
    && (cat == [] <==> !MathNeq(s[0], DBL_MAX))
    && (cat != [] ==> AreQuantiles(s, maxBins, thr))
    && (cat != [] && |cat| <= maxBins ==>
          cat == Categories(s, |s|) || (|Categories(s, |s|)| > maxBins && cat[1..] == thr))
    && (|cat| > maxBins ==> |Categories(s, |s|)| > maxBins)
  }

  predicate Drawn(c: seq<real>, s: seq<real>) {
    forall i :: 0 <= i < |c| ==> c[i] in s
  }

  /** c is strictly increasing, drawn from s, and nothing in it exceeds last. */
  predicate IncreasingUpTo(c: seq<real>, last: real, s: seq<real>) {
    Increasing(c) && Drawn(c, s) && (c != [] ==> c[|c| - 1] <= last)
  }

  lemma Extend(c: seq<real>, last: real, s: seq<real>, v: real)
    requires IncreasingUpTo(c, last, s) && v in s
    ensures c == [] || last <= v ==> IncreasingUpTo(c, v, s)
    ensures c == [] || last < v ==> IncreasingUpTo(c + [v], v, s)
  {
  }

  lemma ThresholdsFrom(c: seq<real>, s: seq<real>, x: seq<real>, nbuckets: nat)
    requires Increasing(c) && Drawn(c, s) && |c| + 1 <= nbuckets && s == Sort(x)
    ensures ThresholdsFor(Wrapped(c) + [PosInf], x, nbuckets)
  {
    forall i | 0 <= i < |c|
      ensures c[i] in x
    {
      SortSameValues(x, c[i]);
    }
  }

  // ---- one pass of the loop ----

  /** What holds when the first i positions have been looked at. */
  ghost predicate Scanned(s: seq<real>, maxBins: nat, i: nat, due: nat, thr: seq<real>, cat: seq<real>, pos: seq<nat>, fast: bool, last: real) {
    && i <= |s| && 0 < due <= |s| && |thr| + 2 <= maxBins
    && SeenAt(s, maxBins, i, thr, cat, fast, last)
    && |pos| == |thr| && due == Due(|s|, maxBins, pos, |pos|) && QuantilesSoFar(s, maxBins, thr, pos)
    && (cat != [] ==> last == KeptLast(s, maxBins, thr, i) && NoneDiffers(s, maxBins, thr, due, i))
  }

  ghost predicate SeenAt(s: seq<real>, maxBins: nat, i: nat, thr: seq<real>, cat: seq<real>, fast: bool, last: real) {
    && i <= |s| && s != []
    && (i == 0 ==> cat == []) && (i > 0 ==> (cat == [] <==> !MathNeq(s[0], DBL_MAX)))
    && (cat == [] ==> last == DBL_MAX && thr == [] && !fast)
    && (cat != [] ==> forall j :: i <= j < |s| ==> last <= s[j])
    && IncreasingUpTo(thr, last, s) && IncreasingUpTo(cat, last, s)
    && (cat != [] ==> |thr| < |cat| <= maxBins + 1)
    && (cat != [] && !fast && |thr| + 1 == |cat| ==> thr == cat[1..])
    && (fast ==> |cat| == maxBins + 1 && |Categories(s, i)| > maxBins + 1)
    && (|cat| > maxBins ==> |Categories(s, |s|)| > maxBins)
    && (!fast && cat != [] ==> last == cat[|cat| - 1] && cat == Categories(s, i))
  }

  /** The categories after looking at position i: the first if of the loop. */
  predicate Looked(maxBins: nat, v: real, cat: seq<real>, fast: bool, last: real, cat': seq<real>, fast': bool, last': real) {
    && cat' == (if !fast && MathNeq(v, last) && |cat| <= maxBins then cat + [v] else cat)
    && fast' == (fast || (MathNeq(v, last) && |cat| > maxBins))
    && last' == if !fast && MathNeq(v, last) then v else last
  }

  lemma LookedAt(s: seq<real>, maxBins: nat, i: nat, thr: seq<real>, cat: seq<real>, fast: bool, last: real,
                 cat': seq<real>, fast': bool, last': real)
    requires Sorted(s) && SeenAt(s, maxBins, i, thr, cat, fast, last) && i < |s| && s[i] <= DBL_MAX && s[0] <= DBL_MAX
    requires Looked(maxBins, s[i], cat, fast, last, cat', fast', last')
    ensures SeenAt(s, maxBins, i + 1, thr, cat', fast', last')
    ensures MathNeq(s[i], last) ==> cat' != []
    ensures cat' != [] ==> last' <= s[i]
  {
    hide IncreasingUpTo, Sorted, Categories, DBL_MAX;
    CategoriesStep(s, i);
    SortedFrom(s, 0);
    SortedFrom(s, i);
    Extend(thr, last, s, s[i]);
    Extend(cat, last, s, s[i]);
  }

  /** What the scan has kept so far, in terms of the categories before position i. */
  lemma KeptReady(s: seq<real>, maxBins: nat, i: nat, due: nat, thr: seq<real>, cat: seq<real>, pos: seq<nat>, fast: bool, last: real)
    requires Scanned(s, maxBins, i, due, thr, cat, pos, fast, last) && i < |s| && (cat == [] ==> i == 0)
    ensures var c := Categories(s, i);
      if c == [] then cat == [] && thr == [] && !fast && last == DBL_MAX
      else cat != [] && last == KeptLast(s, maxBins, thr, i) && (if |c| <= maxBins + 1 then !fast && last == c[|c| - 1] else fast)
    ensures thr != [] ==> thr[|thr| - 1] <= last <= s[i]
  {
    hide DBL_MAX, KeptLast, QuantilesSoFar, NoneDiffers, Due, Increasing, Drawn;
  }

  lemma KeptAt(s: seq<real>, maxBins: nat, i: nat, due: nat, thr: seq<real>, cat: seq<real>, pos: seq<nat>, fast: bool, last: real,
               cat': seq<real>, fast': bool, last': real)
    requires Sorted(s) && Scanned(s, maxBins, i, due, thr, cat, pos, fast, last) && i < |s| && s[i] <= DBL_MAX && s[0] <= DBL_MAX
    requires Looked(maxBins, s[i], cat, fast, last, cat', fast', last') && cat' != []
    ensures Categories(s, i + 1) != [] && KeptLast(s, maxBins, thr, i + 1) == last'
    ensures i > 0 ==> cat != []
  {
    hide DBL_MAX, Sorted, KeptLast, QuantilesSoFar, NoneDiffers, Due;
    SortedFrom(s, 0);
    assert cat == [] ==> i == 0;
    KeptReady(s, maxBins, i, due, thr, cat, pos, fast, last);
    hide SeenAt;
    KeptMoves(s, maxBins, thr, i, last);
  }

  /** A position that brings no threshold. */
  lemma PassedBy(s: seq<real>, maxBins: nat, i: nat, due: nat, thr: seq<real>, cat: seq<real>, pos: seq<nat>, fast: bool, last: real,
                 cat': seq<real>, fast': bool, last': real)
    requires Sorted(s) && Scanned(s, maxBins, i, due, thr, cat, pos, fast, last) && i < |s| && s[i] <= DBL_MAX && s[0] <= DBL_MAX
    requires Looked(maxBins, s[i], cat, fast, last, cat', fast', last') && (i < due || !MathNeq(s[i], last))
    ensures Scanned(s, maxBins, i + 1, due, thr, cat', pos, fast', last')
  {
    LookedAt(s, maxBins, i, thr, cat, fast, last, cat', fast', last');
    if cat' != [] {
      KeptAt(s, maxBins, i, due, thr, cat, pos, fast, last, cat', fast', last');
      hide SeenAt, Looked, KeptLast, QuantilesSoFar, Due, Categories;
      if i < due {
        NoneYet(s, maxBins, thr, due, i + 1);
      } else {
        NoneMore(s, maxBins, thr, due, i);
      }
    }
  }

  /** A position that does, unless it is the last that fits. */
  lemma Taken(s: seq<real>, maxBins: nat, i: nat, due: nat, thr: seq<real>, cat: seq<real>, pos: seq<nat>, fast: bool, last: real,
              cat': seq<real>, fast': bool, last': real)
    requires Sorted(s) && Scanned(s, maxBins, i, due, thr, cat, pos, fast, last) && i < |s| && s[i] <= DBL_MAX && s[0] <= DBL_MAX
    requires Looked(maxBins, s[i], cat, fast, last, cat', fast', last') && due <= i && MathNeq(s[i], last)
    ensures QuantilesSoFar(s, maxBins, thr + [s[i]], pos + [i]) && SeenAt(s, maxBins, i + 1, thr + [s[i]], cat', fast', s[i])
    ensures cat' != [] && KeptLast(s, maxBins, thr + [s[i]], i + 1) == s[i]
    ensures Due(|s|, maxBins, pos + [i], |pos| + 1) == i + CeilDiv(|s| - i, maxBins - |thr| - 1)
  {
    hide SeenAt, DBL_MAX, KeptLast, QuantilesSoFar, NoneDiffers, Due, Categories, Sorted, CeilDiv, MathNeq, Looked;
    LookedAt(s, maxBins, i, thr, cat, fast, last, cat', fast', last');
    KeptAt(s, maxBins, i, due, thr, cat, pos, fast, last, cat', fast', last');
    assert cat != [];
    TakenSeen(s, maxBins, i, thr, cat, fast, last, cat', fast', last');
    QuantileFound(s, maxBins, thr, pos, i);
    KeptAdded(s, maxBins, thr, i + 1, s[i]);
  }

  lemma TakenSeen(s: seq<real>, maxBins: nat, i: nat, thr: seq<real>, cat: seq<real>, fast: bool, last: real,
                  cat': seq<real>, fast': bool, last': real)
    requires Sorted(s) && SeenAt(s, maxBins, i, thr, cat, fast, last) && i < |s| && |thr| + 2 <= maxBins && cat != []
    requires SeenAt(s, maxBins, i + 1, thr, cat', fast', last') && cat' != [] && last' <= s[i]
    requires Looked(maxBins, s[i], cat, fast, last, cat', fast', last') && MathNeq(s[i], last)
    ensures SeenAt(s, maxBins, i + 1, thr + [s[i]], cat', fast', s[i])
  {
    SortedFrom(s, i);
    hide Categories, DBL_MAX, IncreasingUpTo, Sorted;
    if !fast' {
      assert cat'[1..|cat'| - 1] == cat[1..];
    }
    ThresholdSeen(s, maxBins, i, thr, cat, cat', fast', last, last');
  }

  lemma ThresholdSeen(s: seq<real>, maxBins: nat, i: nat, thr: seq<real>, cat: seq<real>, cat': seq<real>, fast': bool, last: real, last': real)
    requires i < |s| && (forall j :: i <= j < |s| ==> s[i] <= s[j]) && SeenAt(s, maxBins, i + 1, thr, cat', fast', last')
    requires cat' != [] && (fast' || last' == s[i]) && last' <= s[i] && IncreasingUpTo(thr, last, s) && (thr == [] || last < s[i])
    requires |thr| + 1 < |cat'| && (!fast' && |thr| + 2 == |cat'| ==> thr == cat'[1..|cat'| - 1])
    ensures SeenAt(s, maxBins, i + 1, thr + [s[i]], cat', fast', s[i])
  {
    hide Categories, DBL_MAX, MathNeq, IncreasingUpTo;
    assert s[i] in s;
    Extend(thr, last, s, s[i]);
    Extend(cat', last', s, s[i]);
    if !fast' {
      assert cat'[1..] == cat'[1..|cat'| - 1] + [cat'[|cat'| - 1]];
    }
  }

  /** If more can follow. */
  lemma TakenOn(s: seq<real>, maxBins: nat, i: nat, due: nat, thr: seq<real>, cat: seq<real>, pos: seq<nat>, fast: bool)
    requires QuantilesSoFar(s, maxBins, thr, pos) && i < |s| && SeenAt(s, maxBins, i + 1, thr, cat, fast, s[i])
    requires cat != [] && KeptLast(s, maxBins, thr, i + 1) == s[i] && |thr| + 2 <= maxBins
    requires Due(|s|, maxBins, pos, |pos|) == due && i < due <= |s|
    ensures Scanned(s, maxBins, i + 1, due, thr, cat, pos, fast, s[i])
  {
    hide DBL_MAX, KeptLast, NoneDiffers, Due, Categories, SeenAt;
    NoneYet(s, maxBins, thr, due, i + 1);
  }

  /** Once there are too many categories, the positions before the due one need no look. */
  lemma JumpedTo(s: seq<real>, maxBins: nat, i: nat, due: nat, thr: seq<real>, cat: seq<real>, pos: seq<nat>, last: real)
    requires Sorted(s) && Scanned(s, maxBins, i, due, thr, cat, pos, true, last) && i <= due
    ensures Scanned(s, maxBins, due, due, thr, cat, pos, true, last)
  {
    KeptStays(s, maxBins, thr, i, due);
    NoneYet(s, maxBins, thr, due, due);
    hide KeptLast, QuantilesSoFar, NoneDiffers, Due, Categories, Sorted, DBL_MAX;
  }

  lemma FirstIf(maxBins: nat, v: real, cat: seq<real>, fast: bool, last: real, cat': seq<real>, fast': bool, last': real)
    requires if !fast && MathNeq(v, last)
      then last' == v && (if |cat| <= maxBins then cat' == cat + [v] && fast' == fast else cat' == cat && fast')
      else cat' == cat && fast' == fast && last' == last
    ensures Looked(maxBins, v, cat, fast, last, cat', fast', last')
  {
  }

  /** The thresholds are complete; with the categories they came from, these are not all categories. */
  lemma EnoughFound(s: seq<real>, maxBins: nat, i: nat, thr: seq<real>, cat: seq<real>, pos: seq<nat>, fast: bool)
    requires i < |s| && cat != [] && |thr| + 1 == maxBins && QuantilesSoFar(s, maxBins, thr, pos)
    requires SeenAt(s, maxBins, i + 1, thr, cat, fast, s[i])
    ensures Delivered(s, maxBins, thr, cat)
  {
    assert Quantiles(s, maxBins, thr, pos);
    hide Quantiles, QuantilesSoFar, DBL_MAX, MathNeq;
    Unpack(thr, s[i], s);
    Unpack(cat, s[i], s);
    CategoriesComplete(s, i + 1);
  }

  lemma AllLooked(s: seq<real>, maxBins: nat, due: nat, thr: seq<real>, cat: seq<real>, pos: seq<nat>, fast: bool, last: real)
    requires s != [] && Scanned(s, maxBins, |s|, due, thr, cat, pos, fast, last)
    ensures Delivered(s, maxBins, thr, cat)
  {
    hide QuantilesSoFar, DBL_MAX, MathNeq, NoneDiffers, KeptLast, Due;
    if cat != [] {
      assert Quantiles(s, maxBins, thr, pos);
    }
    Unpack(thr, last, s);
    Unpack(cat, last, s);
  }

  /**
    The loop of Fit over the sorted sample: quantile thresholds, and the categories seen until
    there are too many of them for the loop to care.
   */
  method Scan(s: seq<real>, maxBins: nat) returns (thresholds: seq<real>, category: seq<real>)
    requires maxBins >= 3 && s != []
    requires Sorted(s) && forall i :: 0 <= i < |s| ==> s[i] <= DBL_MAX
    ensures Increasing(thresholds) && Drawn(thresholds, s) && |thresholds| + 1 <= maxBins
    ensures Increasing(category) && Drawn(category, s)
    ensures category == [] <==> !MathNeq(s[0], DBL_MAX)
    ensures category != [] ==> AreQuantiles(s, maxBins, thresholds)
    ensures category != [] && |category| <= maxBins ==>
      category == Categories(s, |s|) || (|Categories(s, |s|)| > maxBins && category[1..] == thresholds)
    ensures |category| > maxBins ==> |Categories(s, |s|)| > maxBins
  {
    hide Scanned, Looked, AreQuantiles, Quantiles, QuantilesSoFar, KeptLast, Due, Increasing, Drawn, Categories, Sorted, DBL_MAX;
    SortedFrom(s, 0);
    var n := |s|;
    thresholds, category := [], [];
    ghost var pos: seq<nat> := [];
    var expectedIdx := CeilDiv(n, maxBins);
    var fastSkip := false;
    var lastValue := DBL_MAX;
    var idx := 0;
    ScanStart(s, maxBins);
    while idx < n
      invariant 0 <= idx <= n && 0 < expectedIdx <= n && |pos| == |thresholds| <= maxBins - 2
      invariant Scanned(s, maxBins, idx, expectedIdx, thresholds, category, pos, fastSkip, lastValue)
      decreases n - idx
    {
      var v := s[idx];
      var isDiff := MathNeq(v, lastValue);
      ghost var cat, fast, last := category, fastSkip, lastValue;
      if !fastSkip && isDiff {
        if |category| <= maxBins {
          category := category + [v];
        } else {
          fastSkip := true;
        }
        lastValue := v;
      }
      assert Looked(maxBins, v, cat, fast, last, category, fastSkip, lastValue) by {
        FirstIf(maxBins, v, cat, fast, last, category, fastSkip, lastValue);
      }
      if idx >= expectedIdx && isDiff {
        Taken(s, maxBins, idx, expectedIdx, thresholds, cat, pos, fast, last, category, fastSkip, lastValue);
        thresholds := thresholds + [v];
        pos := pos + [idx];
        var nn := |thresholds|;
        if nn + 1 == maxBins {
          EnoughFound(s, maxBins, idx, thresholds, category, pos, fastSkip);
          return;
        }
        var remain := n - idx;
        expectedIdx := idx + CeilDiv(remain, maxBins - nn);
        lastValue := v;
        TakenOn(s, maxBins, idx, expectedIdx, thresholds, category, pos, fastSkip);
      } else {
        PassedBy(s, maxBins, idx, expectedIdx, thresholds, cat, pos, fast, last, category, fastSkip, lastValue);
      }
      if !fastSkip || idx >= expectedIdx {
        idx := idx + 1;
      } else {
        JumpedTo(s, maxBins, idx + 1, expectedIdx, thresholds, category, pos, lastValue);
        idx := expectedIdx;
      }
    }
    AllLooked(s, maxBins, expectedIdx, thresholds, category, pos, fastSkip, lastValue);
  }

  class BinningModel {
    const nbuckets: nat
    var binThresholds: seq<Ext>

    constructor (nbuckets: nat)
      requires nbuckets >= 3
      ensures this.nbuckets == nbuckets && binThresholds == []
    {
      this.nbuckets := nbuckets;
      binThresholds := [];
    }

    /**
      Chooses the thresholds.  It fails on an empty sample, and it also has no first category to
      drop when every sample is within EPS of DBL_MAX; on every other sample it succeeds.
     */
    method Fit(x: seq<real>) returns (ok: bool)
      requires nbuckets >= 3
      requires forall i :: 0 <= i < |x| ==> x[i] <= DBL_MAX
      modifies this
      ensures ok <==> x != [] && !AllNearMax(x)
      ensures !ok ==> binThresholds == old(binThresholds)
      ensures ok ==> ThresholdsFor(binThresholds, x, nbuckets)
      ensures ok && |Categories(Sort(x), |x|)| <= nbuckets ==>
        binThresholds == Wrapped(Categories(Sort(x), |x|)[1..]) + [PosInf]
      ensures ok && |Categories(Sort(x), |x|)| > nbuckets ==>
        exists thr :: AreQuantiles(Sort(x), nbuckets, thr) && binThresholds == Wrapped(thr) + [PosInf]
    {
      hide AreQuantiles, MathNeq, DBL_MAX;
      if x == [] {
        return false;
      }
      var s := Sort(x);
      SortSorts(x);
      NearMaxBySmallest(x);
      forall i | 0 <= i < |s|
        ensures s[i] <= DBL_MAX
      {
        SortSameValues(x, s[i]);
      }
      var thresholds, category := Scan(s, nbuckets);
      if |category| <= nbuckets {
        if category == [] {
          return false;
        }
        thresholds := category[1..];
      }
      ThresholdsFrom(thresholds, s, x, nbuckets);
      binThresholds := Wrapped(thresholds) + [PosInf];
      ok := true;
    }

    /**
      The bin index is stored in 16 bits.
     */
    method Transform(x: seq<Ext>) returns (ret: seq<nat>)
      requires StrictlySorted(binThresholds)
      ensures |ret| == |x|
      ensures forall i :: 0 <= i < |x| ==> ret[i] == BinOf(binThresholds, x[i]) % 0x1_0000
    {
      ret := [];
      for i := 0 to |x|
        invariant |ret| == i
        invariant forall j :: 0 <= j < i ==> ret[j] == BinOf(binThresholds, x[j]) % 0x1_0000
      {
        var b := LowerBound(binThresholds, x[i]);
        BinOfUnique(binThresholds, x[i], b);
        ret := ret + [b % 0x1_0000];
      }
    }
  }

  /** v lies in bin b: above threshold b - 1 and not above threshold b. */
  predicate InBin(thr: seq<Ext>, v: Ext, b: nat) {
    && b <= |thr|
    && (b > 0 ==> Less(thr[b - 1], v))
    && (b < |thr| ==> !Less(thr[b], v))
  }

  /** std::lower_bound: the number of thresholds below v. */
  function BinOf(thr: seq<Ext>, v: Ext): (b: nat)
    ensures b <= |thr|
  {
    if thr == [] || !Less(thr[0], v) then 0 else 1 + BinOf(thr[1..], v)
  }

  lemma {:induction false} BinOfUnique(thr: seq<Ext>, v: Ext, b: nat)
    requires StrictlySorted(thr)
    ensures InBin(thr, v, b) <==> b == BinOf(thr, v)
  {
    if thr == [] {
    } else if !Less(thr[0], v) {
      assert 1 < b <= |thr| ==> Less(thr[0], thr[b - 1]);
    } else if b > 0 {
      BinOfUnique(thr[1..], v, b - 1);
    }
  }

  method LowerBound(thr: seq<Ext>, v: Ext) returns (b: nat)
    requires StrictlySorted(thr)
    ensures InBin(thr, v, b)
  {
    var lo, hi := 0, |thr|;
    while lo < hi
      invariant 0 <= lo <= hi <= |thr|
      invariant lo > 0 ==> Less(thr[lo - 1], v)
      invariant hi < |thr| ==> !Less(thr[hi], v)
    {
      var mid := (lo + hi) / 2;
      if Less(thr[mid], v) {
        lo := mid + 1;
      } else {
        hi := mid;
      }
    }
    b := lo;
  }

  /** With a final infinity no value falls off the end, so there is always a bin for it. */
  lemma {:induction false} FittedBinExists(thr: seq<Ext>, x: seq<real>, nbuckets: nat, v: Ext)
    requires ThresholdsFor(thr, x, nbuckets)
    ensures BinOf(thr, v) < |thr| <= nbuckets
  {
    BinOfUnique(thr, v, BinOf(thr, v));
  }

  /** Bin b or below means: not above threshold b. */
  lemma BinAtMost(thr: seq<Ext>, v: Ext, b: nat)
    requires StrictlySorted(thr) && b < |thr|
    ensures BinOf(thr, v) <= b <==> !Less(thr[b], v)
  {
    var c := BinOf(thr, v);
    BinOfUnique(thr, v, c);
    if c < b {
      assert Less(thr[c], thr[b]);
    } else if b < c - 1 {
      assert Less(thr[b], thr[c - 1]);
    }
  }

  /** The 16-bit index is on the wrong side of threshold b exactly from itself up to the bin it was cut from. */
  lemma TruncatedAtMost(thr: seq<Ext>, v: Ext, b: nat)
    requires StrictlySorted(thr) && b < |thr|
    ensures (BinOf(thr, v) % 0x1_0000 <= b <==> !Less(thr[b], v)) <==> BinOf(thr, v) <= b || b < BinOf(thr, v) % 0x1_0000
  {
    BinAtMost(thr, v, b);
  }

  /** So comparing 16-bit indices is comparing with thresholds, for all of them, if and only if the bin is below 2^16. */
  lemma TruncationExact(thr: seq<Ext>, v: Ext)
    requires StrictlySorted(thr) && BinOf(thr, v) < |thr|
    ensures (forall b :: 0 <= b < |thr| ==> (BinOf(thr, v) % 0x1_0000 <= b <==> !Less(thr[b], v))) <==> BinOf(thr, v) < 0x1_0000
  {
    hide BinOf, Less;
    var bin := BinOf(thr, v);
    forall b | 0 <= b < |thr|
      ensures (bin % 0x1_0000 <= b <==> !Less(thr[b], v)) <==> bin <= b || b < bin % 0x1_0000
    {
      TruncatedAtMost(thr, v, b);
    }
    if bin >= 0x1_0000 {
      assert !(bin % 0x1_0000 <= bin % 0x1_0000 <==> !Less(thr[bin % 0x1_0000], v));
    }
  }

  /** In category mode the two smallest categories share bin 0 and every later one has its own bin. */
  lemma {:induction false} CategoryBins(c: seq<real>, k: nat)
    requires Increasing(c) && k < |c|
    ensures BinOf(Wrapped(c[1..]) + [PosInf], Fin(c[k])) == if k == 0 then 0 else k - 1
  {
    var thr := Wrapped(c[1..]) + [PosInf];
    assert StrictlySorted(thr) by {
      forall i, j | 0 <= i < j < |thr|
        ensures Less(thr[i], thr[j])
      {
        assert thr[i] == Fin(c[i + 1]);
        assert j < |thr| - 1 ==> thr[j] == Fin(c[j + 1]);
      }
    }
    var b := if k == 0 then 0 else k - 1;
    assert k > 0 ==> thr[k - 1] == Fin(c[k]);
    assert b > 0 ==> thr[b - 1] == Fin(c[b]);
    assert k == 0 && |c| > 1 ==> thr[0] == Fin(c[1]);
    BinOfUnique(thr, Fin(c[k]), b);
  }
}
