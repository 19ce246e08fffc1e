/**
  The ring Z_M in which secret shares live (M = 2^k for the k-bit ring the program is set up
  with; nothing below depends on M beyond M >= 2), additive two-party sharing of vectors over it,
  and sums of vector entries over sets of positions.
 */
module Ring {
  import opened Arith

  type Modulus = m: int | m >= 2 witness 2

  /** An arbitrary ring size: every result holds for each of them. */
  const M: Modulus

  /** Wrap-around, by adding or subtracting M until the value fits; see ModIsRemainder. */
  function Mod(x: int): (r: int)
    ensures 0 <= r < M
    decreases x < 0, if x < 0 then -x else x
  {
    if x < 0 then Mod(x + M) else if x < M then x else Mod(x - M)
  }

  type Vec = seq<int>

  predicate IsVec(v: Vec, n: nat) {
    |v| == n && forall i :: 0 <= i < n ==> 0 <= v[i] < M
  }

  /** Entrywise sum; also what two additive shares reconstruct to. */
  function AddV(u: Vec, v: Vec): (r: Vec)
    requires |u| == |v|
    ensures |r| == |u| && IsVec(r, |u|)
    ensures forall i :: 0 <= i < |u| ==> r[i] == Mod(u[i] + v[i])
  {
    seq(|u|, i requires 0 <= i < |u| => Mod(u[i] + v[i]))
  }

  function SubV(u: Vec, v: Vec): (r: Vec)
    requires |u| == |v|
    ensures |r| == |u| && IsVec(r, |u|)
    ensures forall i :: 0 <= i < |u| ==> r[i] == Mod(u[i] - v[i])
  {
    seq(|u|, i requires 0 <= i < |u| => Mod(u[i] - v[i]))
  }

  /** The sum of the entries of v at the positions in S, as an integer. */
  function SumOver(v: Vec, S: set<nat>): int {
    if |v| == 0 then 0
    else SumOver(v[..|v| - 1], S) + if |v| - 1 in S then v[|v| - 1] else 0
  }

  // ---- arithmetic modulo M ----

  lemma {:induction false} ModIsRemainder(x: int)
    ensures Mod(x) == x % M
    decreases x < 0, if x < 0 then -x else x
  {
    if x < 0 {
      ModIsRemainder(x + M);
      DivModUnique(x, (x + M) / M - 1, (x + M) % M, M);
    } else if x < M {
      DivModUnique(x, 0, x, M);
    } else {
      ModIsRemainder(x - M);
      DivModUnique(x, (x - M) / M + 1, (x - M) % M, M);
    }
  }

  lemma ModSmall(x: int)
    requires 0 <= x < M
    ensures Mod(x) == x
  {
  }

  lemma ModStep(x: int)
    ensures Mod(x + M) == Mod(x)
  {
  }

  /** Reducing a summand first does not change the reduced sum. */
  lemma {:induction false} ModLeft(a: int, b: int)
    ensures Mod(Mod(a) + b) == Mod(a + b)
    ensures Mod(b - Mod(a)) == Mod(b - a)
    decreases a < 0, if a < 0 then -a else a
  {
    if a < 0 {
      ModLeft(a + M, b);
      ModStep(a + b);
      ModStep(b - (a + M));
    } else if a >= M {
      ModLeft(a - M, b);
      ModStep(a - M + b);
      ModStep(b - a);
    }
  }

  lemma AddCong(a: int, a': int, b: int, b': int)
    requires Mod(a) == Mod(a') && Mod(b) == Mod(b')
    ensures Mod(a + b) == Mod(a' + b')
    ensures Mod(a - b) == Mod(a' - b')
  {
    hide Mod;
    ModLeft(a, b);
    ModLeft(a', b);
    ModLeft(b, a');
    ModLeft(b', a');
    ModLeft(a, 0 - b);
    ModLeft(a', 0 - b);
  }

  lemma ModIdem(x: int)
    ensures Mod(Mod(x)) == Mod(x)
  {
    ModSmall(Mod(x));
  }

  /** Reductions inside a sum or a difference may be dropped. */
  lemma ModInside(a: int, b: int)
    ensures Mod(Mod(a) + Mod(b)) == Mod(a + b)
    ensures Mod(Mod(a) - Mod(b)) == Mod(a - b)
  {
    hide Mod;
    ModIdem(a);
    ModIdem(b);
    AddCong(Mod(a), a, Mod(b), b);
  }

  lemma SubOfSharesAt(x0: int, x1: int, y0: int, y1: int)
    ensures Mod(Mod(x0 - y0) + Mod(x1 - y1)) == Mod(Mod(x0 + x1) - Mod(y0 + y1))
  {
    hide Mod;
    ModInside(x0 - y0, x1 - y1);
    ModInside(x0 + x1, y0 + y1);
    assert x0 - y0 + (x1 - y1) == x0 + x1 - (y0 + y1);
  }

  /** Subtracting share by share subtracts the shared vectors. */
  lemma SubOfShares(u0: Vec, u1: Vec, v0: Vec, v1: Vec)
    requires |u0| == |u1| == |v0| == |v1|
    ensures AddV(SubV(u0, v0), SubV(u1, v1)) == SubV(AddV(u0, u1), AddV(v0, v1))
  {
    forall i | 0 <= i < |u0|
      ensures AddV(SubV(u0, v0), SubV(u1, v1))[i] == SubV(AddV(u0, u1), AddV(v0, v1))[i]
    {
      SubOfSharesAt(u0[i], u1[i], v0[i], v1[i]);
    }
  }

  lemma AddVCommutes(u: Vec, v: Vec)
    requires |u| == |v|
    ensures AddV(u, v) == AddV(v, u)
  {
    assert forall i :: 0 <= i < |u| ==> u[i] + v[i] == v[i] + u[i];
  }

  // ---- sums over sets of positions ----

  lemma {:induction false} SumOverCong(v: Vec, w: Vec, S: set<nat>, T: set<nat>)
    requires |v| == |w|
    requires forall i :: 0 <= i < |v| ==>
      (if i in S then v[i] else 0) == (if i in T then w[i] else 0)
    ensures SumOver(v, S) == SumOver(w, T)
  {
    if |v| > 0 {
      SumOverCong(v[..|v| - 1], w[..|v| - 1], S, T);
    }
  }

  lemma {:induction false} SumOverUnion(v: Vec, S: set<nat>, T: set<nat>)
    requires S !! T
    ensures SumOver(v, S + T) == SumOver(v, S) + SumOver(v, T)
  {
    if |v| > 0 {
      SumOverUnion(v[..|v| - 1], S, T);
    }
  }

  lemma {:induction false} SumOverSingle(v: Vec, x: nat)
    requires x < |v|
    ensures SumOver(v, {x}) == v[x]
  {
    var w := v[..|v| - 1];
    if x == |w| {
      SumOverCong(w, w, {x}, {});
      SumOverEmpty(w);
    } else {
      SumOverSingle(w, x);
    }
  }

  lemma {:induction false} SumOverEmpty(v: Vec)
    ensures SumOver(v, {}) == 0
  {
    if |v| > 0 {
      SumOverEmpty(v[..|v| - 1]);
    }
  }

  /** Summing a difference of vectors is subtracting their sums, up to multiples of M. */
  lemma {:induction false} SumOverSub(u: Vec, v: Vec, S: set<nat>)
    requires |u| == |v|
    ensures Mod(SumOver(SubV(u, v), S)) == Mod(SumOver(u, S) - SumOver(v, S))
  {
    hide Mod;
    if |u| > 0 {
      var k := |u| - 1;
      assert SubV(u, v)[..k] == SubV(u[..k], v[..k]);
      SumOverSub(u[..k], v[..k], S);
      var x, y := SumOver(u[..k], S) - SumOver(v[..k], S), u[k] - v[k];
      ModIdem(y);
      AddCong(SumOver(SubV(u[..k], v[..k]), S), x, if k in S then Mod(y) else 0, if k in S then y else 0);
    }
  }
}
