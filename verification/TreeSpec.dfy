/**
  What a tree built by the two parties means, independently of how they build it.  Nodes are
  numbered like a heap, the root being 1; every inner node is decided by one party, on one of its
  own buckets.
 */
module TreeSpec {
  import opened Arith
  import opened Ring
  import opened BinMatVec
  import opened TreeBuildWorker

  /** The decision at a node: whose bucket it is, in that party's own numbering. */
  datatype Choice = Choice(owner: nat, bucket: nat)

  /** The inputs of one tree: both parties' data, the opened root gradients, both root masks. */
  datatype Run = Run(d0: PartyData, d1: PartyData, rootG: Vec, rootH: Vec, mask0: seq<bool>, mask1: seq<bool>) {
    ghost predicate Valid() {
      && d0.Valid() && d1.Valid() && d0.n == d1.n > 0
      && IsVec(rootG, d0.n) && IsVec(rootH, d0.n)
      && (mask0 == [] || |mask0| == d0.n)
      && (mask1 == [] || |mask1| == d0.n)
    }

    function Data(r: nat): PartyData {
      if r == 0 then d0 else d1
    }

    /** The samples party r's root mask keeps. */
    function Root(r: nat): set<nat> {
      if r == 0 then Kept(mask0, d0.n) else Kept(mask1, d0.n)
    }

    predicate InRange(c: Choice) {
      c.owner < 2 && c.bucket < Data(c.owner).NumBuckets()
    }

    /** Decisions about nodes 1, 2, ... (entry 0 is a dummy), each about an existing bucket. */
    ghost predicate Decided(cs: seq<Choice>) {
      |cs| >= 1 && forall k :: 1 <= k < |cs| ==> InRange(cs[k])
    }

    predicate Left(c: Choice, i: nat) {
      i in Data(c.owner).LeftSet(c.bucket)
    }

    predicate GoesLeft(cs: seq<Choice>, k: nat, i: nat) {
      k < |cs| && Left(cs[k], i)
    }

    predicate OwnedBy(cs: seq<Choice>, k: nat, r: nat) {
      k < |cs| && cs[k].owner == r
    }

    /** Sample i is routed to node nd. */
    predicate Reach(cs: seq<Choice>, nd: nat, i: nat) {
      nd == 1 || (nd > 1 && Reach(cs, nd / 2, i) && ((nd % 2 == 0) == GoesLeft(cs, nd / 2, i)))
    }

    /** Nothing party r decides keeps sample i away from node nd. */
    predicate Path(r: nat, cs: seq<Choice>, nd: nat, i: nat) {
      nd == 1 || (nd > 1 && Path(r, cs, nd / 2, i) &&
        (OwnedBy(cs, nd / 2, r) ==> ((nd % 2 == 0) == GoesLeft(cs, nd / 2, i))))
    }

    /** Node nd exists: its parent has been decided. */
    predicate Exists(cs: seq<Choice>, nd: nat) {
      1 <= nd && nd / 2 < |cs|
    }

    /** A root vector restricted to the samples routed to a node. */
    function NodeVec(v: Vec, cs: seq<Choice>, nd: nat): (r: Vec)
      ensures |r| == |v|
      ensures forall i :: 0 <= i < |v| ==> r[i] == if Reach(cs, nd, i) then v[i] else 0
    {
      seq(|v|, i requires 0 <= i < |v| => if Reach(cs, nd, i) then v[i] else 0)
    }

    /** The histogram of a node: running bucket sums over each owner's root mask. */
    function NodeHistogram(v: Vec, cs: seq<Choice>, nd: nat): Vec {
      DirectHistogram(d0, d1, NodeVec(v, cs, nd), Root(0), Root(1))
    }

    /** The node of a level that sample i is routed to. */
    function NodeOf(cs: seq<Choice>, level: nat, i: nat): (nd: nat)
      requires 1 <= level
      ensures Pow2(level - 1) <= nd < Pow2(level)
      decreases level
    {
      if level == 1 then 1
      else
        var p := NodeOf(cs, level - 1, i);
        if GoesLeft(cs, p, i) then 2 * p else 2 * p + 1
    }

    // ---- facts ----

    lemma {:induction false} BothPathsReach(cs: seq<Choice>, nd: nat, i: nat)
      requires Decided(cs) && Exists(cs, nd)
      ensures Reach(cs, nd, i) <==> Path(0, cs, nd, i) && Path(1, cs, nd, i)
    {
      if nd > 1 {
        BothPathsReach(cs, nd / 2, i);
        assert InRange(cs[nd / 2]);
      }
    }

    /** Each sample reaches exactly one node of every level. */
    lemma {:induction false} ReachIsNodeOf(cs: seq<Choice>, level: nat, nd: nat, i: nat)
      requires 1 <= level && Pow2(level - 1) <= nd < Pow2(level)
      ensures Reach(cs, nd, i) <==> nd == NodeOf(cs, level, i)
      decreases level
    {
      if level > 1 {
        ReachIsNodeOf(cs, level - 1, nd / 2, i);
      }
    }

    /** Later decisions do not change who reaches a node already open. */
    lemma {:induction false} DecisionsAppend(cs: seq<Choice>, cs': seq<Choice>, nd: nat, i: nat)
      requires cs <= cs' && Exists(cs, nd)
      ensures Reach(cs, nd, i) == Reach(cs', nd, i)
      ensures Path(0, cs, nd, i) == Path(0, cs', nd, i)
      ensures Path(1, cs, nd, i) == Path(1, cs', nd, i)
    {
      if nd > 1 {
        DecisionsAppend(cs, cs', nd / 2, i);
        assert cs[nd / 2] == cs'[nd / 2];
      }
    }

    lemma NodeVecAppend(v: Vec, cs: seq<Choice>, cs': seq<Choice>, nd: nat)
      requires cs <= cs' && Exists(cs, nd)
      ensures NodeVec(v, cs, nd) == NodeVec(v, cs', nd)
    {
      forall i | 0 <= i < |v|
        ensures NodeVec(v, cs, nd)[i] == NodeVec(v, cs', nd)[i]
      {
        DecisionsAppend(cs, cs', nd, i);
      }
    }

    /** The left child's vector: the node's where the decision says left, zero elsewhere. */
    lemma LeftChildVec(v: Vec, cs: seq<Choice>, nd: nat, i: nat)
      requires 1 <= nd < |cs| && i < |v|
      ensures NodeVec(v, cs, 2 * nd)[i] == if Left(cs[nd], i) then NodeVec(v, cs, nd)[i] else 0
    {
      assert 2 * nd / 2 == nd;
    }

    /** Right child equals node minus left child. */
    lemma RightChildVec(v: Vec, cs: seq<Choice>, nd: nat)
      requires 1 <= nd < |cs| && IsVec(v, |v|)
      ensures NodeVec(v, cs, 2 * nd + 1) == SubV(NodeVec(v, cs, nd), NodeVec(v, cs, 2 * nd))
    {
      forall i | 0 <= i < |v|
        ensures NodeVec(v, cs, 2 * nd + 1)[i] == SubV(NodeVec(v, cs, nd), NodeVec(v, cs, 2 * nd))[i]
      {
        assert 2 * nd / 2 == nd && (2 * nd + 1) / 2 == nd;
        ModSmall(v[i]);
        ModSmall(0);
      }
    }

    /** Dropping samples the node does not contain leaves its histogram as it is. */
    lemma SkippingIsHarmless(v: Vec, cs: seq<Choice>, nd: nat, keep0: set<nat>, keep1: set<nat>)
      requires Decided(cs) && Exists(cs, nd)
      requires forall i :: 0 <= i < |v| ==> (i in keep0 <==> i in Root(0) && Path(0, cs, nd, i))
      requires forall i :: 0 <= i < |v| ==> (i in keep1 <==> i in Root(1) && Path(1, cs, nd, i))
      ensures DirectHistogram(d0, d1, NodeVec(v, cs, nd), keep0, keep1) == NodeHistogram(v, cs, nd)
    {
      var node := NodeVec(v, cs, nd);
      var a, b := DirectHistogram(d0, d1, node, keep0, keep1), NodeHistogram(v, cs, nd);
      forall j | 0 <= j < |a|
        ensures a[j] == b[j]
      {
        var left := JointLeftSet(d0, d1, j);
        var keep := if Owner(d0, j) == 0 then keep0 else keep1;
        var root := Root(Owner(d0, j));
        forall i | 0 <= i < |node|
          ensures (if i in left * keep then node[i] else 0) == (if i in left * root then node[i] else 0)
        {
          BothPathsReach(cs, nd, i);
        }
        SumOverCong(node, node, left * keep, left * root);
      }
    }

    /** Histograms subtract like the vectors they summarise. */
    lemma HistogramOfDifference(u: Vec, v: Vec)
      requires |u| == |v|
      ensures SubV(DirectHistogram(d0, d1, u, Root(0), Root(1)), DirectHistogram(d0, d1, v, Root(0), Root(1)))
           == DirectHistogram(d0, d1, SubV(u, v), Root(0), Root(1))
    {
      var a, b := DirectHistogram(d0, d1, u, Root(0), Root(1)), DirectHistogram(d0, d1, v, Root(0), Root(1));
      var c := DirectHistogram(d0, d1, SubV(u, v), Root(0), Root(1));
      forall j | 0 <= j < |a|
        ensures SubV(a, b)[j] == c[j]
      {
        var S := JointLeftSet(d0, d1, j) * (if Owner(d0, j) == 0 then Root(0) else Root(1));
        SumOverSub(u, v, S);
        ModInside(SumOver(u, S), SumOver(v, S));
      }
    }

    /** What sample i contributes to the nodes lo, ..., hi - 1 together. */
    function Contribution(v: Vec, cs: seq<Choice>, lo: nat, hi: nat, i: nat): int
      requires i < |v|
      decreases hi
    {
      if hi <= lo then 0 else Contribution(v, cs, lo, hi - 1, i) + NodeVec(v, cs, hi - 1)[i]
    }

    /** Nothing is lost or counted twice: a level adds up to the root. */
    lemma LevelConserves(v: Vec, cs: seq<Choice>, level: nat, i: nat)
      requires i < |v| && 1 <= level
      ensures Contribution(v, cs, Pow2(level - 1), Pow2(level), i) == v[i]
    {
      ContributionUpTo(v, cs, level, Pow2(level), i);
    }

    lemma {:induction false} ContributionUpTo(v: Vec, cs: seq<Choice>, level: nat, hi: nat, i: nat)
      requires i < |v| && 1 <= level && Pow2(level - 1) <= hi <= Pow2(level)
      ensures Contribution(v, cs, Pow2(level - 1), hi, i) == if NodeOf(cs, level, i) < hi then v[i] else 0
      decreases hi
    {
      if hi > Pow2(level - 1) {
        ContributionUpTo(v, cs, level, hi - 1, i);
        ReachIsNodeOf(cs, level, hi - 1, i);
      }
    }
  }
}
