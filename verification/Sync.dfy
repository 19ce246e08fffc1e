/**
  Synchronising the parties' variables: each party turns its own variables into one share per
  party, the shares are exchanged, and every party enters what it got in its symbol table.  How
  shares are made is not modelled: they are whatever list of values the input gives.
 */
module Sync {
  import opened ValueChunks
  import opened ShareExchange

  /** The largest chunk sent: 128 MiB. */
  const MAX_CHUNK := 0x800_0000

  /** A variable still to be synchronised: its name and its share for each party. */
  type Unsynced = seq<(string, seq<Value>)>

  predicate Sendable(v: Value) {
    v.Valid() && v.dtype != 0 && v.stype.visibility != 0
  }

  /** One party's variables: distinct names, a share for each of the parties. */
  predicate GoodVars(vars: Unsynced, parties: nat) {
    && (forall k :: 0 <= k < |vars| ==> |vars[k].1| == parties && forall i :: 0 <= i < parties ==> Sendable(vars[k].1[i]))
    && forall k, l :: 0 <= k < l < |vars| ==> vars[k].0 != vars[l].0
  }

  /** p is what v is sent as. */
  predicate SentAs(v: Value, p: Proto) {
    && p.meta == Meta(v.dtype, v.imag.Some?, v.stype.visibility, v.shape, v.stype)
    && p.chunks == Cut(v.data, MAX_CHUNK, 0) + if v.imag.Some? then Cut(v.imag.value, MAX_CHUNK, 0) else []
  }

  /** Row i holds the shares for party i, name by name. */
  predicate RowFor(row: Row, vars: Unsynced, i: nat) {
    |row| == |vars| && forall k :: 0 <= k < |vars| ==> row[k].0 == vars[k].0 && i < |vars[k].1| && SentAs(vars[k].1[i], row[k].1)
  }

  /** What one party has for each of the others. */
  method SharesPerParty(vars: Unsynced, parties: nat) returns (rows: seq<Row>)
    requires GoodVars(vars, parties)
    ensures |rows| == parties && forall i :: 0 <= i < parties ==> RowFor(rows[i], vars, i) && DistinctNames(rows[i])
  {
    rows := seq(parties, _ => []);
    for k := 0 to |vars|
      invariant |rows| == parties
      invariant forall i :: 0 <= i < parties ==> RowFor(rows[i], vars[..k], i)
    {
      var shares := vars[k].1;
      for idx := 0 to parties
        invariant |rows| == parties
        invariant forall i :: 0 <= i < parties ==> RowFor(rows[i], if i < idx then vars[..k + 1] else vars[..k], i)
      {
        var ok, proto := ToProto(shares[idx], MAX_CHUNK);
        assert vars[..k + 1] == vars[..k] + [vars[k]];
        rows := rows[idx := rows[idx] + [(vars[k].0, proto)]];
      }
    }
    assert vars[..|vars|] == vars;
    forall i | 0 <= i < parties
      ensures DistinctNames(rows[i])
    {
    }
  }

  /** The shares for party i of one party's variables. */
  function SharesFor(vars: Unsynced, i: nat): map<string, Value>
    requires forall k :: 0 <= k < |vars| ==> i < |vars[k].1|
  {
    if vars == [] then map[] else SharesFor(vars[..|vars| - 1], i)[vars[|vars| - 1].0 := vars[|vars| - 1].1[i]]
  }

  function Names(vars: Unsynced): (s: set<string>) {
    if vars == [] then {} else Names(vars[..|vars| - 1]) + {vars[|vars| - 1].0}
  }

  lemma {:induction false} NamesOf(vars: Unsynced)
    ensures forall n :: n in Names(vars) <==> exists k :: 0 <= k < |vars| && vars[k].0 == n
  {
    if vars != [] {
      NamesOf(vars[..|vars| - 1]);
      assert vars == vars[..|vars| - 1] + [vars[|vars| - 1]];
    }
  }

  /** A received table has exactly the sender's names, each with the share sent. */
  ghost predicate TableFor(t: Table, vars: Unsynced, i: nat) {
    && (forall k :: 0 <= k < |vars| ==> i < |vars[k].1|)
    && t.Keys == Names(vars) == SharesFor(vars, i).Keys
    && forall n :: n in t ==> SentAs(SharesFor(vars, i)[n], t[n])
  }

  lemma {:induction false} TableOfRowFor(row: Row, vars: Unsynced, i: nat)
    requires RowFor(row, vars, i) && forall k, l :: 0 <= k < l < |vars| ==> vars[k].0 != vars[l].0
    ensures TableFor(TableOf(row), vars, i)
    decreases |vars|
  {
    hide SentAs;
    if vars != [] {
      var n := |vars| - 1;
      TableOfRowFor(row[..n], vars[..n], i);
      NamesOf(vars[..n]);
      assert vars[n].0 !in Names(vars[..n]);
      assert SentAs(vars[n].1[i], row[n].1);
    }
  }

  /** The exchange is set up with these rows. */
  ghost predicate RowsFor(rows: seq<seq<Row>>, hosts: seq<Unsynced>) {
    && |rows| == |hosts| > 0
    && (forall j :: 0 <= j < |hosts| ==> |rows[j]| == |hosts| && GoodVars(hosts[j], |hosts|))
    && forall j, i :: 0 <= j < |hosts| && 0 <= i < |hosts| ==> RowFor(rows[j][i], hosts[j], i) && DistinctNames(rows[j][i])
  }

  lemma RowsAreGood(rows: seq<seq<Row>>, hosts: seq<Unsynced>)
    requires RowsFor(rows, hosts)
    ensures GoodRows(rows)
  {
    forall j, i | 0 <= j < |rows| && 0 <= i < |rows|
      ensures |rows[j][i]| == |rows[j][0]| && DistinctNames(rows[j][i])
    {
      assert RowFor(rows[j][i], hosts[j], i) && RowFor(rows[j][0], hosts[j], 0);
    }
  }

  // ---- after the exchange ----

  /** Names of the first n columns. */
  function NamesIn(cols: seq<Table>, n: nat): set<string>
    requires n <= |cols|
  {
    if n == 0 then {} else NamesIn(cols, n - 1) + cols[n - 1].Keys
  }

  /** No name comes from two parties. */
  ghost predicate NoClash(cols: seq<Table>) {
    forall j, l :: 0 <= j < l < |cols| ==> cols[j].Keys !! cols[l].Keys
  }

  lemma {:induction false} InNames(cols: seq<Table>, n: nat)
    requires n <= |cols|
    ensures forall x :: x in NamesIn(cols, n) <==> exists j :: 0 <= j < n && x in cols[j]
  {
    if n > 0 {
      InNames(cols, n - 1);
    }
  }

  /** Every name of the first n columns is bound to the share its owner sent party i. */
  ghost predicate Bound(symbols: map<string, Value>, before: map<string, Value>, hosts: seq<Unsynced>, i: nat, cols: seq<Table>, n: nat) {
    && n <= |cols| == |hosts|
    && symbols.Keys == before.Keys + NamesIn(cols, n)
    && (forall j, x :: 0 <= j < n && x in cols[j] ==> ShareBound(symbols, hosts[j], i, x))
    && forall x :: x in before && x !in NamesIn(cols, n) ==> symbols[x] == before[x]
  }

  ghost predicate ShareBound(symbols: map<string, Value>, vars: Unsynced, i: nat, x: string) {
    (forall k :: 0 <= k < |vars| ==> i < |vars[k].1|) && x in symbols && x in SharesFor(vars, i) && symbols[x] == SharesFor(vars, i)[x]
  }

  /** Checks that names are distinct, then enters every value received. */
  method Enter(cols: seq<Table>, before: map<string, Value>, ghost hosts: seq<Unsynced>, ghost i: nat)
    returns (ok: bool, symbols: map<string, Value>)
    requires |cols| == |hosts| && i < |hosts|
    requires forall j :: 0 <= j < |hosts| ==> GoodVars(hosts[j], |hosts|) && TableFor(cols[j], hosts[j], i)
    ensures ok <==> NoClash(cols)
    ensures ok ==> Bound(symbols, before, hosts, i, cols, |cols|)
    ensures !ok ==> symbols == before
  {
    hide Bound, TableFor, GoodVars, SentAs, SharesFor, Names;
    symbols := before;
    ok := CheckNames(cols);
    if !ok {
      return;
    }
    StartBound(before, hosts, i, cols);
    for j := 0 to |cols|
      invariant Bound(symbols, before, hosts, i, cols, j)
    {
      ghost var was := symbols;
      symbols := EnterTable(cols[j], symbols, hosts[j], |hosts|, i);
      BoundNext(was, symbols, before, hosts, i, cols, j);
    }
  }

  lemma StartBound(before: map<string, Value>, hosts: seq<Unsynced>, i: nat, cols: seq<Table>)
    requires |cols| == |hosts|
    ensures Bound(before, before, hosts, i, cols, 0)
  {
  }

  method CheckNames(cols: seq<Table>) returns (ok: bool)
    ensures ok <==> forall j, l :: 0 <= j < l < |cols| ==> cols[j].Keys !! cols[l].Keys
  {
    var all := {};
    for j := 0 to |cols|
      invariant all == NamesIn(cols, j)
      invariant forall k, l :: 0 <= k < l < j ==> cols[k].Keys !! cols[l].Keys
    {
      InNames(cols, j);
      if all !! cols[j].Keys {
        all := all + cols[j].Keys;
      } else {
        var x :| x in all && x in cols[j].Keys;
        var k :| 0 <= k < j && x in cols[k];
        assert !(cols[k].Keys !! cols[j].Keys);
        return false;
      }
    }
    ok := true;
  }

  lemma BoundNext(was: map<string, Value>, now: map<string, Value>, before: map<string, Value>, hosts: seq<Unsynced>, i: nat, cols: seq<Table>, j: nat)
    requires j < |cols| && Bound(was, before, hosts, i, cols, j) && NoClash(cols)
    requires now.Keys == was.Keys + cols[j].Keys
    requires forall x :: x in cols[j] ==> ShareBound(now, hosts[j], i, x)
    requires forall x :: x in was && x !in cols[j] ==> now[x] == was[x]
    ensures Bound(now, before, hosts, i, cols, j + 1)
  {
    hide ShareBound, SharesFor, NoClash;
    InNames(cols, j);
    forall l, x | 0 <= l < j + 1 && x in cols[l]
      ensures ShareBound(now, hosts[l], i, x)
    {
      if l < j {
        NotIn(cols, l, j, x);
        assert ShareBound(was, hosts[l], i, x);
        assert x in NamesIn(cols, j);
        ShareKept(was, now, hosts[l], i, x);
      }
    }
  }

  lemma NotIn(cols: seq<Table>, l: nat, j: nat, x: string)
    requires NoClash(cols) && l < j < |cols| && x in cols[l]
    ensures x !in cols[j]
  {
    assert cols[l].Keys !! cols[j].Keys;
  }

  lemma ShareKept(was: map<string, Value>, now: map<string, Value>, vars: Unsynced, i: nat, x: string)
    requires ShareBound(was, vars, i, x) && x in now && now[x] == was[x]
    ensures ShareBound(now, vars, i, x)
  {
  }

  /** Enters one party's values, decoded. */
  method EnterTable(t: Table, before: map<string, Value>, ghost vars: Unsynced, ghost parties: nat, ghost i: nat)
    returns (symbols: map<string, Value>)
    requires GoodVars(vars, parties) && i < parties && TableFor(t, vars, i)
    ensures symbols.Keys == before.Keys + t.Keys
    ensures forall x :: x in t ==> ShareBound(symbols, vars, i, x)
    ensures forall x :: x in before && x !in t ==> symbols[x] == before[x]
  {
    hide GoodVars, SentAs, SharesFor, Names, Sendable, Partly, TableFor;
    symbols := before;
    var rest := t.Keys;
    NoneEntered(t, before, vars, parties, i);
    while rest != {}
      invariant Partly(symbols, before, t, rest, vars, i)
      decreases |rest|
    {
      var name: string :| name in rest;
      ghost var v := ShareOf(symbols, before, t, rest, vars, parties, i, name);
      var value := Decode(t[name], v);
      OneEntered(symbols, before, t, rest, vars, i, name, value);
      symbols := symbols[name := value];
      rest := rest - {name};
    }
    AllEntered(symbols, before, t, vars, i);
  }

  /** The entries outside rest have been made. */
  ghost predicate Partly(symbols: map<string, Value>, before: map<string, Value>, t: Table, rest: set<string>, vars: Unsynced, i: nat) {
    && rest <= t.Keys && symbols.Keys == before.Keys + (t.Keys - rest)
    && (forall x :: x in t && x !in rest ==> ShareBound(symbols, vars, i, x))
    && forall x :: x in before && x !in t ==> symbols[x] == before[x]
  }

  lemma NoneEntered(t: Table, before: map<string, Value>, vars: Unsynced, parties: nat, i: nat)
    ensures Partly(before, before, t, t.Keys, vars, i)
  {
  }

  lemma AllEntered(symbols: map<string, Value>, before: map<string, Value>, t: Table, vars: Unsynced, i: nat)
    requires Partly(symbols, before, t, {}, vars, i)
    ensures symbols.Keys == before.Keys + t.Keys
    ensures forall x :: x in t ==> ShareBound(symbols, vars, i, x)
    ensures forall x :: x in before && x !in t ==> symbols[x] == before[x]
  {
  }

  /** The share that name's entry was made from. */
  lemma ShareOf(symbols: map<string, Value>, before: map<string, Value>, t: Table, rest: set<string>, vars: Unsynced,
                parties: nat, i: nat, name: string) returns (v: Value)
    requires Partly(symbols, before, t, rest, vars, i) && GoodVars(vars, parties) && i < parties && TableFor(t, vars, i) && name in rest
    ensures name in t && Sendable(v) && SentAs(v, t[name])
    ensures (forall k :: 0 <= k < |vars| ==> i < |vars[k].1|) && name in SharesFor(vars, i) && v == SharesFor(vars, i)[name]
  {
    hide SentAs, Sendable;
    SharesSendable(vars, parties, i, name);
    v := SharesFor(vars, i)[name];
  }

  lemma OneEntered(symbols: map<string, Value>, before: map<string, Value>, t: Table, rest: set<string>, vars: Unsynced,
                   i: nat, name: string, value: Value)
    requires Partly(symbols, before, t, rest, vars, i) && name in rest
    requires (forall k :: 0 <= k < |vars| ==> i < |vars[k].1|) && name in SharesFor(vars, i) && value == SharesFor(vars, i)[name]
    ensures Partly(symbols[name := value], before, t, rest - {name}, vars, i)
  {
    hide SharesFor;
    forall x | x in t && x !in rest - {name}
      ensures ShareBound(symbols[name := value], vars, i, x)
    {
      if x != name {
        assert ShareBound(symbols, vars, i, x);
      }
    }
  }

  method Decode(p: Proto, ghost v: Value) returns (value: Value)
    requires Sendable(v) && SentAs(v, p)
    ensures value == v
  {
    hide Shows, Complete, Cut;
    SentComesBack(v, p, p, MAX_CHUNK);
    var ok;
    ok, value := FromProto(p);
    assert ok;
    DescribesOne(p, v, value);
  }

  lemma {:induction false} SharesSendable(vars: Unsynced, parties: nat, i: nat, name: string)
    requires GoodVars(vars, parties) && i < parties && name in SharesFor(vars, i)
    ensures Sendable(SharesFor(vars, i)[name])
    decreases |vars|
  {
    if vars != [] && vars[|vars| - 1].0 != name {
      SharesSendable(vars[..|vars| - 1], parties, i, name);
    }
  }

  // ---- the whole ----

  /** A run of the exchange, on the rows made from the owners' variables, that can go no further. */
  ghost predicate Exchanged(rows: seq<seq<Row>>, hosts: seq<Unsynced>, run: seq<Net>) {
    RowsFor(rows, hosts) && (
      RowsAreGood(rows, hosts);
      Run(rows, run) && (
        var s := run[|run| - 1];
        Sized(s, |rows|) ==> forall p :: 0 <= p < |rows| ==> StepOf(rows, s, p).None?))
  }

  /** Then party i's columns are the tables for it. */
  lemma ColumnsFor(rows: seq<seq<Row>>, hosts: seq<Unsynced>, run: seq<Net>, i: nat)
    requires Exchanged(rows, hosts, run) && i < |hosts|
    ensures var s := run[|run| - 1];
      |s.parties| == |hosts| && |s.parties[i].cols| == |hosts|
      && forall j :: 0 <= j < |hosts| ==> TableFor(s.parties[i].cols[j], hosts[j], i)
  {
    hide Inv, TableOf, TableFor, RowFor, StepOf, GoodRows;
    RowsAreGood(rows, hosts);
    var s := run[|run| - 1];
    ExchangeDelivers(rows, run, i, 0);
    forall j | 0 <= j < |hosts|
      ensures TableFor(s.parties[i].cols[j], hosts[j], i)
    {
      ExchangeDelivers(rows, run, i, j);
      assert RowFor(rows[j][i], hosts[j], i);
      TableOfRowFor(rows[j][i], hosts[j], i);
    }
  }

  /** All parties see the same names from each owner, so all of them accept or none does. */
  lemma SameNames(hosts: seq<Unsynced>, a: seq<Table>, b: seq<Table>, i: nat, k: nat)
    requires |a| == |b| == |hosts|
    requires forall j :: 0 <= j < |hosts| ==> TableFor(a[j], hosts[j], i) && TableFor(b[j], hosts[j], k)
    ensures NoClash(a) <==> NoClash(b)
    ensures NamesIn(a, |a|) == NamesIn(b, |b|)
  {
    assert forall j :: 0 <= j < |hosts| ==> a[j].Keys == b[j].Keys;
    SameNamesUpTo(a, b, |a|);
  }

  lemma {:induction false} SameNamesUpTo(a: seq<Table>, b: seq<Table>, n: nat)
    requires n <= |a| == |b| && forall j :: 0 <= j < n ==> a[j].Keys == b[j].Keys
    ensures NamesIn(a, n) == NamesIn(b, n)
  {
    if n > 0 {
      SameNamesUpTo(a, b, n - 1);
    }
  }

  ghost predicate Owned(hosts: seq<Unsynced>, x: string) {
    exists j :: 0 <= j < |hosts| && x in Names(hosts[j])
  }

  /**
    Party i's share of a synchronisation, on what the exchange has delivered to it.  Whether it
    accepts depends on the owners' variables alone, so all parties accept or none does; then every
    party holds the same names from them, each bound to the owner's share for that party.
   */
  method SyncParty(cols: seq<Table>, before: map<string, Value>, ghost i: nat,
                   ghost hosts: seq<Unsynced>, ghost rows: seq<seq<Row>>, ghost run: seq<Net>)
    returns (ok: bool, symbols: map<string, Value>)
    requires Exchanged(rows, hosts, run) && i < |hosts|
    requires i < |run[|run| - 1].parties| && cols == run[|run| - 1].parties[i].cols
    ensures ok <==> forall j, l :: 0 <= j < l < |hosts| ==> Names(hosts[j]) !! Names(hosts[l])
    ensures ok ==> forall j, x :: 0 <= j < |hosts| && x in Names(hosts[j]) ==> ShareBound(symbols, hosts[j], i, x)
    ensures ok ==> forall x :: x in symbols <==> x in before || Owned(hosts, x)
    ensures ok ==> forall x :: x in before && !Owned(hosts, x) ==> symbols[x] == before[x]
    ensures !ok ==> symbols == before
  {
    hide Inv, StepOf, SentAs, SharesFor, Names, GoodVars, RowFor, GoodRows, ShareBound;
    ColumnsFor(rows, hosts, run, i);
    ok, symbols := Enter(cols, before, hosts, i);
    InNames(cols, |cols|);
    forall x
      ensures x in NamesIn(cols, |cols|) <==> Owned(hosts, x)
    {
      assert forall j :: 0 <= j < |hosts| ==> (x in cols[j] <==> x in Names(hosts[j]));
    }
  }
}
