/**
  Blocks of operations in SSA form, the scopes their values live in, and running a block one
  operation after the other.
 */
module Blocks {
  /** An operation inside a region of another one, with the operations of its own regions. */
  datatype Nested = Nested(operands: seq<nat>, inner: seq<Nested>)

  /** The operands of all nested operations, at every depth. */
  function Walk(ns: seq<Nested>): seq<nat> {
    if ns == [] then []
    else Walk(ns[..|ns| - 1]) + ns[|ns| - 1].operands + Walk(ns[|ns| - 1].inner)
  }

  datatype Op = Op(operands: seq<nat>, nested: seq<Nested>, results: seq<nat>, sideEffect: bool, debugPrint: bool)

  /**
    A block, the values that exist before it runs, and what each operation computes from its
    operands and the values of this block its nested operations use.  (Values of enclosing regions
    do not change meanwhile, so they are part of the kernel.)
   */
  datatype Block = Block(ops: seq<Op>, init: map<nat, int>, kernel: (Op, seq<int>) -> seq<int>, terminator: seq<nat>) {
    /** Values are used after they are defined, and defined once. */
    ghost predicate WellFormed() {
      && (forall i, v :: 0 <= i < |ops| && v in Uses(i) ==> v in init || DefinedBefore(i, v))
      && (forall i, v :: 0 <= i < |ops| && v in ops[i].results ==> v !in init)
      && (forall i, j, v :: 0 <= i < |ops| && 0 <= j < |ops| && v in ops[i].results && v in ops[j].results ==> i == j)
      && (forall i, x, y :: 0 <= i < |ops| && 0 <= x < y < |ops[i].results| ==> ops[i].results[x] != ops[i].results[y])
      && (forall op: Op, args: seq<int> :: |kernel(op, args)| == |op.results|)
      && forall v :: v in terminator ==> v in init || DefinedBefore(|ops|, v)
    }

    predicate DefinedBefore(i: nat, v: nat) {
      exists j :: 0 <= j < i && j < |ops| && v in ops[j].results
    }

    /** Of the values used by nested operations, those that an operation of this block defines. */
    function Captures(i: nat): (r: seq<nat>)
      requires i < |ops|
      ensures forall v :: v in r <==> v in Walk(ops[i].nested) && DefinedBefore(|ops|, v)
    {
      Defined(Walk(ops[i].nested))
    }

    function Defined(vs: seq<nat>): (r: seq<nat>)
      ensures forall v :: v in r <==> v in vs && DefinedBefore(|ops|, v)
    {
      if vs == [] then []
      else
        var r, v := Defined(vs[..|vs| - 1]), vs[|vs| - 1];
        if DefinedBefore(|ops|, v) then r + [v] else r
    }

    /** Everything an operation reads of what is computed here: its operands in order, then what it captures. */
    function Uses(i: nat): (u: seq<nat>)
      requires i < |ops|
      ensures ops[i].operands <= u && forall v :: v in u[|ops[i].operands|..] <==> v in Captures(i)
    {
      ops[i].operands + Captures(i)
    }
  }

  /** A value is an operand of n or of an operation nested in it. */
  predicate UsedWithin(n: Nested, v: nat) {
    v in n.operands || exists k :: 0 <= k < |n.inner| && UsedWithin(n.inner[k], v)
  }

  /** So no use is missed, however deep. */
  lemma {:induction false} WalkFindsAll(ns: seq<Nested>, v: nat)
    ensures v in Walk(ns) <==> exists k :: 0 <= k < |ns| && UsedWithin(ns[k], v)
  {
    if ns != [] {
      var last := |ns| - 1;
      WalkFindsAll(ns[..last], v);
      WalkFindsAll(ns[last].inner, v);
      WalkLast(ns, v);
      UsedAmong(ns, last, v);
    }
  }

  lemma WalkLast(ns: seq<Nested>, v: nat)
    requires ns != []
    ensures v in Walk(ns) <==>
      v in Walk(ns[..|ns| - 1]) || v in ns[|ns| - 1].operands || v in Walk(ns[|ns| - 1].inner)
  {
    var last := |ns| - 1;
    assert Walk(ns) == (Walk(ns[..last]) + ns[last].operands) + Walk(ns[last].inner);
    hide Walk;
    InJoined(Walk(ns[..last]) + ns[last].operands, Walk(ns[last].inner), v);
    InJoined(Walk(ns[..last]), ns[last].operands, v);
  }

  lemma InJoined(a: seq<nat>, b: seq<nat>, v: nat)
    ensures v in a + b <==> v in a || v in b
  {
  }

  lemma UsedAmong(ns: seq<Nested>, last: nat, v: nat)
    requires last + 1 == |ns|
    ensures (exists k :: 0 <= k < |ns| && UsedWithin(ns[k], v)) <==>
      (exists k :: 0 <= k < last && UsedWithin(ns[..last][k], v)) || UsedWithin(ns[last], v)
  {
    hide UsedWithin;
    if k :| 0 <= k < last && UsedWithin(ns[..last][k], v) {
      assert UsedWithin(ns[k], v);
    }
    if k :| 0 <= k < |ns| && UsedWithin(ns[k], v) {
      assert k < last ==> UsedWithin(ns[..last][k], v);
    }
  }

  function Lookup(m: map<nat, int>, vs: seq<nat>): (r: seq<int>)
    ensures |r| == |vs|
    ensures forall k :: 0 <= k < |vs| && vs[k] in m ==> r[k] == m[vs[k]]
  {
    seq(|vs|, k requires 0 <= k < |vs| => if vs[k] in m then m[vs[k]] else 0)
  }

  /** The first k results entered in the table. */
  function Added(m: map<nat, int>, vs: seq<nat>, vals: seq<int>, k: nat): map<nat, int>
    requires k <= |vs| && k <= |vals|
  {
    if k == 0 then m else Added(m, vs, vals, k - 1)[vs[k - 1] := vals[k - 1]]
  }

  /** The table after the first k operations. */
  function After(b: Block, k: nat): map<nat, int>
    requires k <= |b.ops|
  {
    if k == 0 then b.init
    else
      var m, op := After(b, k - 1), b.ops[k - 1];
      var vals := b.kernel(op, Lookup(m, b.Uses(k - 1)));
      if |vals| == |op.results| then Added(m, op.results, vals, |op.results|) else m
  }

  function Outputs(b: Block, i: nat): seq<int>
    requires i < |b.ops|
  {
    b.kernel(b.ops[i], Lookup(After(b, i), b.Uses(i)))
  }

  // ---- facts ----

  lemma {:induction false} AddedAt(m: map<nat, int>, vs: seq<nat>, vals: seq<int>, k: nat)
    requires k <= |vs| == |vals| && forall x, y :: 0 <= x < y < |vs| ==> vs[x] != vs[y]
    ensures forall v :: v in Added(m, vs, vals, k) <==> v in m || v in vs[..k]
    ensures forall x :: 0 <= x < k ==> Added(m, vs, vals, k)[vs[x]] == vals[x]
    ensures forall v :: v in m && v !in vs[..k] ==> Added(m, vs, vals, k)[v] == m[v]
  {
    if k > 0 {
      AddedAt(m, vs, vals, k - 1);
      var before, v, after := Added(m, vs, vals, k - 1), vs[k - 1], Added(m, vs, vals, k);
      assert after == before[v := vals[k - 1]];
      hide Added;
      assert vs[..k] == vs[..k - 1] + [v];
    }
  }

  /** What an operation leaves behind: its results, everything else as before. */
  lemma AfterNext(b: Block, i: nat)
    requires b.WellFormed() && i < |b.ops|
    ensures |Outputs(b, i)| == |b.ops[i].results|
    ensures forall v :: v in After(b, i + 1) <==> v in After(b, i) || v in b.ops[i].results
    ensures forall x :: 0 <= x < |b.ops[i].results| ==> b.ops[i].results[x] in After(b, i + 1) && After(b, i + 1)[b.ops[i].results[x]] == Outputs(b, i)[x]
    ensures forall v :: v in After(b, i) && v !in b.ops[i].results ==> After(b, i + 1)[v] == After(b, i)[v]
  {
    hide Lookup;
    var op := b.ops[i];
    AddedAt(After(b, i), op.results, Outputs(b, i), |op.results|);
    assert op.results[..|op.results|] == op.results;
  }

  /** What the kernel of operation i is given: the values of its operands in order, then of its captures. */
  lemma KernelArguments(b: Block, i: nat, args: seq<int>)
    requires b.WellFormed() && i < |b.ops| && |args| == |b.Uses(i)|
    requires forall k :: 0 <= k < |args| && b.Uses(i)[k] in After(b, i) ==> args[k] == After(b, i)[b.Uses(i)[k]]
    ensures forall k :: 0 <= k < |args| ==> b.Uses(i)[k] in After(b, i)
    ensures forall k :: 0 <= k < |b.ops[i].operands| ==> args[k] == After(b, i)[b.ops[i].operands[k]]
    ensures Outputs(b, i) == b.kernel(b.ops[i], args)
  {
    hide After, Block.WellFormed, Block.Uses;
    UsesSettled(b, i);
    assert args == Lookup(After(b, i), b.Uses(i));
  }

  /** The table holds the initial values and the results of the operations run. */
  lemma {:induction false} AfterKeys(b: Block, k: nat)
    requires b.WellFormed() && k <= |b.ops|
    ensures forall v :: v in After(b, k) <==> v in b.init || b.DefinedBefore(k, v)
  {
    hide After, Block.WellFormed;
    if k == 0 {
      AfterNone(b);
    } else {
      AfterKeys(b, k - 1);
      AfterNext(b, k - 1);
      forall v
        ensures b.DefinedBefore(k, v) <==> b.DefinedBefore(k - 1, v) || v in b.ops[k - 1].results
      {
        if b.DefinedBefore(k, v) {
          var j :| 0 <= j < k && j < |b.ops| && v in b.ops[j].results;
        }
        if b.DefinedBefore(k - 1, v) {
          var j :| 0 <= j < k - 1 && j < |b.ops| && v in b.ops[j].results;
        }
      }
    }
  }

  lemma AfterNone(b: Block)
    ensures After(b, 0) == b.init
  {
  }

  /** Later operations do not touch what is there. */
  lemma {:induction false} AfterStays(b: Block, k: nat, n: nat, v: nat)
    requires b.WellFormed() && k <= n <= |b.ops| && v in After(b, k)
    ensures v in After(b, n) && After(b, n)[v] == After(b, k)[v]
    decreases n
  {
    hide After, Block.WellFormed;
    if k < n {
      AfterStays(b, k, n - 1, v);
      AfterNext(b, n - 1);
      NotRedefined(b, k, n - 1, v);
    }
  }

  lemma NotRedefined(b: Block, k: nat, i: nat, v: nat)
    requires b.WellFormed() && k <= i < |b.ops| && v in After(b, k)
    ensures v !in b.ops[i].results
  {
    hide After;
    AfterKeys(b, k);
    if b.DefinedBefore(k, v) {
      var j :| 0 <= j < k && j < |b.ops| && v in b.ops[j].results;
    }
  }

  /** In the final table every use of operation i has the value it had when i ran in sequence. */
  lemma UsesSettled(b: Block, i: nat)
    requires b.WellFormed() && i < |b.ops|
    ensures forall v :: v in b.Uses(i) ==> v in After(b, i) && v in After(b, |b.ops|) && After(b, |b.ops|)[v] == After(b, i)[v]
  {
    hide After;
    AfterKeys(b, i);
    forall v | v in b.Uses(i)
      ensures v in After(b, i) && v in After(b, |b.ops|) && After(b, |b.ops|)[v] == After(b, i)[v]
    {
      AfterStays(b, i, |b.ops|, v);
    }
  }

  // ---- scopes ----

  /** A table of values, in front of the enclosing region's. */
  class SymbolScope {
    const parent: SymbolScope?
    ghost const depth: nat
    ghost const ancestors: set<SymbolScope>
    var symbols: map<nat, int>

    ghost predicate Valid()
      decreases depth
    {
      && this !in ancestors
      && (parent != null ==>
        parent.depth < depth && ancestors == {parent} + parent.ancestors && parent.Valid())
    }

    /** What a key means here: the innermost entry. */
    ghost function Visible(): map<nat, int>
      requires Valid()
      reads this, ancestors
      decreases depth
    {
      if parent == null then symbols else parent.Visible() + symbols
    }

    constructor (parent: SymbolScope?)
      requires parent != null ==> parent.Valid()
      ensures Valid() && this.parent == parent && symbols == map[]
    {
      this.parent := parent;
      this.ancestors := if parent == null then {} else {parent} + parent.ancestors;
      this.depth := if parent == null then 0 else parent.depth + 1;
      symbols := map[];
    }

    method LookupValue(key: nat) returns (found: bool, value: int)
      requires Valid()
      ensures found <==> key in Visible()
      ensures found ==> value == Visible()[key]
      decreases depth
    {
      if key in symbols {
        return true, symbols[key];
      }
      if parent != null {
        found, value := parent.LookupValue(key);
      } else {
        found, value := false, 0;
      }
    }

    method HasValue(key: nat) returns (has: bool)
      requires Valid()
      ensures has <==> key in Visible()
      decreases depth
    {
      if key in symbols {
        return true;
      }
      if parent != null {
        has := parent.HasValue(key);
      } else {
        has := false;
      }
    }

    method HasValues(keys: seq<nat>) returns (has: bool)
      requires Valid()
      ensures has <==> forall k :: k in keys ==> k in Visible()
    {
      for i := 0 to |keys|
        invariant forall k :: k in keys[..i] ==> k in Visible()
      {
        var h := HasValue(keys[i]);
        if !h {
          return false;
        }
        assert keys[..i + 1] == keys[..i] + [keys[i]];
      }
      assert keys[..|keys|] == keys;
      has := true;
    }

    method AddValue(key: nat, value: int)
      requires Valid()
      modifies this`symbols
      ensures Valid() && Visible() == old(Visible())[key := value]
    {
      symbols := symbols[key := value];
    }

    /** Uncovers an outer entry, if there is one. */
    method RemoveValue(key: nat)
      requires Valid()
      modifies this`symbols
      ensures Valid() && symbols == old(symbols) - {key}
      ensures parent == null ==> Visible() == old(Visible()) - {key}
      ensures parent != null ==> Visible() == parent.Visible() + (old(symbols) - {key})
    {
      symbols := symbols - {key};
    }
  }

  // ---- sequential execution ----

  /** Runs the operations in order and returns what the terminator names. */
  method RunBlock(b: Block) returns (symbols: map<nat, int>, results: seq<int>)
    requires b.WellFormed()
    ensures symbols == After(b, |b.ops|)
    ensures |results| == |b.terminator|
    ensures forall k :: 0 <= k < |results| ==> b.terminator[k] in symbols && results[k] == symbols[b.terminator[k]]
  {
    hide Lookup, Block.WellFormed, Block.Uses;
    symbols := b.init;
    for i := 0 to |b.ops|
      invariant symbols == After(b, i)
    {
      var op := b.ops[i];
      var vals := b.kernel(op, Lookup(symbols, b.Uses(i)));
      AfterNext(b, i);
      ghost var m := symbols;
      for k := 0 to |op.results|
        invariant symbols == Added(m, op.results, vals, k)
      {
        symbols := symbols[op.results[k] := vals[k]];
      }
    }
    TerminatorThere(b);
    results := Lookup(symbols, b.terminator);
  }

  lemma TerminatorThere(b: Block)
    requires b.WellFormed()
    ensures forall v :: v in b.terminator ==> v in After(b, |b.ops|)
  {
    hide After;
    AfterKeys(b, |b.ops|);
  }
}
