/**
  Every party sends every other party a table of values, message by message over first-in-first-out
  links.  Any interleaving of the parties' steps is a run.
 */
module ShareExchange {
  import opened Wrappers
  import opened ValueChunks

  datatype Msg =
    | CountMsg(n: nat)
    | KeyMsg(name: string)
    | MetaMsg(meta: Meta)
    | ChunkCountMsg(n: nat)
    | ChunkMsg(chunk: Chunk)

  /** A table in the order it is iterated. */
  type Row = seq<(string, Proto)>

  type Table = map<string, Proto>

  predicate DistinctNames(r: Row) {
    forall i, j :: 0 <= i < j < |r| ==> r[i].0 != r[j].0
  }

  /** insert keeps an entry that is already there. */
  function Inserted(t: Table, name: string, p: Proto): Table {
    if name in t then t else t[name := p]
  }

  function TableOf(r: Row): Table {
    if r == [] then map[] else Inserted(TableOf(r[..|r| - 1]), r[|r| - 1].0, r[|r| - 1].1)
  }

  function ChunkMsgs(chunks: seq<Chunk>): (m: seq<Msg>)
    ensures |m| == |chunks| && forall k :: 0 <= k < |chunks| ==> m[k] == ChunkMsg(chunks[k])
  {
    seq(|chunks|, k requires 0 <= k < |chunks| => ChunkMsg(chunks[k]))
  }

  /** The messages for one entry: its key, its meta data, how many chunks, and the chunks. */
  function EntryMsgs(name: string, p: Proto): seq<Msg> {
    [KeyMsg(name), MetaMsg(p.meta), ChunkCountMsg(|p.chunks|)] + ChunkMsgs(p.chunks)
  }

  function RowMsgs(r: Row): seq<Msg> {
    if r == [] then [] else RowMsgs(r[..|r| - 1]) + EntryMsgs(r[|r| - 1].0, r[|r| - 1].1)
  }

  // ---- receiving a table ----

  datatype Expected =
    | WantKey
    | WantMeta(name: string)
    | WantCount(name: string, meta: Meta)
    | WantChunk(name: string, meta: Meta, n: nat, chunks: seq<Chunk>)

  /** Entries still to come, entries received, and what the next message must be. */
  datatype Parser = Parser(left: nat, table: Table, next: Expected) {
    predicate Complete() {
      left == 0 && next.WantKey?
    }
  }

  /** An entry is complete when all of its chunks have come. */
  function Entry(ps: Parser, name: string, meta: Meta, n: nat, chunks: seq<Chunk>): Parser {
    if |chunks| < n then ps.(next := WantChunk(name, meta, n, chunks))
    else Parser(if ps.left > 0 then ps.left - 1 else 0, Inserted(ps.table, name, Proto(meta, chunks)), WantKey)
  }

  /** Takes one message; the wrong kind of message is an error. */
  function Take(ps: Parser, m: Msg): Option<Parser> {
    match ps.next
    case WantKey => if ps.left > 0 && m.KeyMsg? then Some(ps.(next := WantMeta(m.name))) else None
    case WantMeta(name) => if m.MetaMsg? then Some(ps.(next := WantCount(name, m.meta))) else None
    case WantCount(name, meta) => if m.ChunkCountMsg? then Some(Entry(ps, name, meta, m.n, [])) else None
    case WantChunk(name, meta, n, chunks) => if m.ChunkMsg? then Some(Entry(ps, name, meta, n, chunks + [m.chunk])) else None
  }

  function TakeAll(ps: Parser, ms: seq<Msg>): Option<Parser> {
    if ms == [] then Some(ps)
    else
      match TakeAll(ps, ms[..|ms| - 1])
      case None => None
      case Some(q) => Take(q, ms[|ms| - 1])
  }

  lemma {:induction false} TakeAppend(ps: Parser, a: seq<Msg>, b: seq<Msg>)
    ensures TakeAll(ps, a + b) == match TakeAll(ps, a) { case None => None case Some(q) => TakeAll(q, b) }
    decreases |b|
  {
    if b == [] {
      assert a + b == a;
    } else {
      TakeAppend(ps, a, b[..|b| - 1]);
      assert (a + b)[..|a + b| - 1] == a + b[..|b| - 1];
    }
  }

  lemma {:induction false} TakeChunks(ps: Parser, name: string, meta: Meta, chunks: seq<Chunk>, k: nat)
    requires k <= |chunks|
    ensures TakeAll(Entry(ps, name, meta, |chunks|, []), ChunkMsgs(chunks)[..k]) == Some(Entry(ps, name, meta, |chunks|, chunks[..k]))
    decreases k
  {
    if k > 0 {
      TakeChunks(ps, name, meta, chunks, k - 1);
      var ms := ChunkMsgs(chunks)[..k];
      assert ms[..k - 1] == ChunkMsgs(chunks)[..k - 1] && chunks[..k] == chunks[..k - 1] + [chunks[k - 1]];
    }
  }

  lemma TakeEntry(ps: Parser, name: string, p: Proto)
    requires ps.left > 0 && ps.next.WantKey?
    ensures TakeAll(ps, EntryMsgs(name, p)) == Some(Parser(ps.left - 1, Inserted(ps.table, name, p), WantKey))
  {
    var head := [KeyMsg(name), MetaMsg(p.meta), ChunkCountMsg(|p.chunks|)];
    TakeThree(ps, head[0], head[1], head[2]);
    TakeAppend(ps, head, ChunkMsgs(p.chunks));
    TakeChunks(ps.(next := WantCount(name, p.meta)), name, p.meta, p.chunks, |p.chunks|);
    assert ChunkMsgs(p.chunks)[..|p.chunks|] == ChunkMsgs(p.chunks) && p.chunks[..|p.chunks|] == p.chunks;
  }

  lemma TakeThree(ps: Parser, x: Msg, y: Msg, z: Msg)
    ensures TakeAll(ps, [x, y, z]) ==
      match Take(ps, x) { case None => None case Some(q) => match Take(q, y) { case None => None case Some(r) => Take(r, z) } }
  {
    assert [x, y, z][..2] == [x, y] && [x, y][..1] == [x] && [x][..0] == [];
    assert TakeAll(ps, [x]) == Take(ps, x);
  }

  /** The messages of a table, taken one by one, give the table. */
  lemma {:induction false} TakeRow(r: Row, left: nat)
    ensures TakeAll(Parser(|r| + left, map[], WantKey), RowMsgs(r)) == Some(Parser(left, TableOf(r), WantKey))
    decreases |r|
  {
    hide EntryMsgs, TakeAll, Inserted;
    if r == [] {
      TakeNothing(Parser(left, map[], WantKey));
    } else {
      var n := |r| - 1;
      TakeRow(r[..n], left + 1);
      var ps := Parser(|r| + left, map[], WantKey);
      TakeAppend(ps, RowMsgs(r[..n]), EntryMsgs(r[n].0, r[n].1));
      TakeEntry(Parser(left + 1, TableOf(r[..n]), WantKey), r[n].0, r[n].1);
    }
  }

  lemma TakeNothing(ps: Parser)
    ensures TakeAll(ps, []) == Some(ps)
  {
  }

  /** Short of the last message the receiver is neither stuck nor finished. */
  lemma {:induction false} PrefixGoesOn(r: Row, pre: seq<Msg>, m: Msg, rest: seq<Msg>)
    requires RowMsgs(r) == pre + [m] + rest
    ensures var taken := TakeAll(Parser(|r|, map[], WantKey), pre);
      taken.Some? && !taken.value.Complete() && Take(taken.value, m).Some?
      && TakeAll(Parser(|r|, map[], WantKey), pre + [m]) == Take(taken.value, m)
  {
    var ps := Parser(|r|, map[], WantKey);
    TakeRow(r, 0);
    TakeAppend(ps, pre + [m], rest);
    assert (pre + [m])[..|pre|] == pre;
  }

  // ---- the parties ----

  datatype Stage = SendCounts | ReceiveCounts | SendRows | ReceiveRows | Finished

  /** got is the history of what has come from each party. */
  datatype Party = Party(stage: Stage, out: seq<(nat, Msg)>, src: nat, counts: seq<nat>, parser: Parser, cols: seq<Table>, got: seq<seq<Msg>>)

  /** links[j][i] is what is on the way from j to i. */
  datatype Net = Net(parties: seq<Party>, links: seq<seq<seq<Msg>>>)

  /** rows[j][i] is what party j has for party i: as many entries for everyone, each name once. */
  ghost predicate GoodRows(rows: seq<seq<Row>>) {
    && rows != []
    && (forall j :: 0 <= j < |rows| ==> |rows[j]| == |rows|)
    && forall j, i :: 0 <= j < |rows| && 0 <= i < |rows| ==> |rows[j][i]| == |rows[j][0]| && DistinctNames(rows[j][i])
  }

  /** The count to every other party, in rank order. */
  function CountSends(rows: seq<seq<Row>>, me: nat, n: nat): seq<(nat, Msg)>
    requires me < |rows| && rows[me] != []
  {
    if n == 0 then []
    else if n - 1 == me then CountSends(rows, me, n - 1)
    else CountSends(rows, me, n - 1) + [(n - 1, CountMsg(|rows[me][0]|))]
  }

  function Addressed(to: nat, ms: seq<Msg>): (r: seq<(nat, Msg)>)
    ensures |r| == |ms| && forall k :: 0 <= k < |ms| ==> r[k] == (to, ms[k])
  {
    seq(|ms|, k requires 0 <= k < |ms| => (to, ms[k]))
  }

  /** All entries for every other party. */
  function RowSends(rows: seq<seq<Row>>, me: nat, n: nat): seq<(nat, Msg)>
    requires me < |rows| && n <= |rows[me]|
  {
    if n == 0 then []
    else if n - 1 == me then RowSends(rows, me, n - 1)
    else RowSends(rows, me, n - 1) + Addressed(n - 1, RowMsgs(rows[me][n - 1]))
  }

  /** What is still to be sent to party i. */
  function To(out: seq<(nat, Msg)>, i: nat): seq<Msg> {
    if out == [] then [] else To(out[..|out| - 1], i) + if out[|out| - 1].0 == i then [out[|out| - 1].1] else []
  }

  function StartOf(rows: seq<seq<Row>>, me: nat): Party
    requires me < |rows| && rows[me] != []
  {
    Party(SendCounts, CountSends(rows, me, |rows|), 0, [], Parser(0, map[], WantKey), [], seq(|rows|, _ => []))
  }

  function Start(rows: seq<seq<Row>>): Net
    requires forall j :: 0 <= j < |rows| ==> rows[j] != []
  {
    Net(seq(|rows|, j requires 0 <= j < |rows| => StartOf(rows, j)), seq(|rows|, _ => seq(|rows|, _ => [])))
  }

  function ParserFor(counts: seq<nat>, src: nat): Parser {
    Parser(if src < |counts| then counts[src] else 0, map[], WantKey)
  }

  /** The network with party p replaced. */
  function With(s: Net, p: nat, q: Party): Net
    requires p < |s.parties|
  {
    s.(parties := s.parties[p := q])
  }

  /** Party p has taken the front message of its link from src. */
  function Received(s: Net, src: nat, p: nat, q: Party): Net
    requires p < |s.parties| && src < |s.links| && p < |s.links[src]| && s.links[src][p] != [] && src < |q.got|
  {
    Net(s.parties[p := q.(got := q.got[src := q.got[src] + [s.links[src][p][0]]])],
        s.links[src := s.links[src][p := s.links[src][p][1..]]])
  }

  predicate Sized(s: Net, W: nat) {
    && |s.parties| == |s.links| == W && (forall j :: 0 <= j < W ==> |s.links[j]| == W)
    && forall j :: 0 <= j < W ==> |s.parties[j].got| == W
  }

  /** Sending never waits. */
  function SendStep(s: Net, p: nat): Option<Net>
    requires Sized(s, |s.parties|) && p < |s.parties|
  {
    var q := s.parties[p];
    if q.out == [] || q.out[0].0 >= |s.parties| then None
    else
      var to, m := q.out[0].0, q.out[0].1;
      Some(Net(s.parties[p := q.(out := q.out[1..])], s.links[p := s.links[p][to := s.links[p][to] + [m]]]))
  }

  /** What party p does next; None when it waits for a message, has failed, or is done. */
  function StepOf(rows: seq<seq<Row>>, s: Net, p: nat): Option<Net>
    requires Sized(s, |rows|) && p < |rows| && |rows[p]| == |rows|
  {
    var q, W := s.parties[p], |rows|;
    match q.stage
    case SendCounts => if q.out != [] then SendStep(s, p) else Some(With(s, p, q.(stage := ReceiveCounts, src := 0)))
    case ReceiveCounts =>
      if q.src >= W then Some(With(s, p, q.(stage := SendRows, out := RowSends(rows, p, W))))
      else if q.src == p then Some(With(s, p, q.(counts := q.counts + [|rows[p][0]|], src := q.src + 1)))
      else if s.links[q.src][p] == [] || !s.links[q.src][p][0].CountMsg? then None
      else Some(Received(s, q.src, p, q.(counts := q.counts + [s.links[q.src][p][0].n], src := q.src + 1)))
    case SendRows =>
      if q.out != [] then SendStep(s, p)
      else Some(With(s, p, q.(stage := ReceiveRows, src := 0, parser := ParserFor(q.counts, 0))))
    case ReceiveRows =>
      if q.src >= W then Some(With(s, p, q.(stage := Finished)))
      else if q.src == p then
        Some(With(s, p, q.(cols := q.cols + [TableOf(rows[p][p])], src := q.src + 1, parser := ParserFor(q.counts, q.src + 1))))
      else if q.parser.Complete() then
        Some(With(s, p, q.(cols := q.cols + [q.parser.table], src := q.src + 1, parser := ParserFor(q.counts, q.src + 1))))
      else if s.links[q.src][p] == [] then None
      else
        (match Take(q.parser, s.links[q.src][p][0])
         case None => None
         case Some(parser) => Some(Received(s, q.src, p, q.(parser := parser))))
    case Finished => None
  }

  // ---- the invariant ----

  /** All that j ever sends to i. */
  function Full(rows: seq<seq<Row>>, j: nat, i: nat): seq<Msg>
    requires j < |rows| && i < |rows[j]|
  {
    [CountMsg(|rows[j][0]|)] + RowMsgs(rows[j][i])
  }

  /** What j has still to send to i. */
  function Pending(rows: seq<seq<Row>>, q: Party, j: nat, i: nat): seq<Msg>
    requires j < |rows| && i < |rows[j]|
  {
    match q.stage
    case SendCounts => To(q.out, i) + RowMsgs(rows[j][i])
    case ReceiveCounts => RowMsgs(rows[j][i])
    case SendRows => To(q.out, i)
    case _ => []
  }

  /** Nothing is lost, repeated or reordered between j and i. */
  ghost predicate Conserved(rows: seq<seq<Row>>, s: Net, j: nat, i: nat) {
    && j < |rows| == |s.parties| == |s.links| && i < |rows| == |rows[j]| && i < |s.links[j]| && j < |s.parties[i].got|
    && Full(rows, j, i) == s.parties[i].got[j] + s.links[j][i] + Pending(rows, s.parties[j], j, i)
  }

  ghost predicate CountsUpTo(rows: seq<seq<Row>>, q: Party, n: nat) {
    |q.counts| == n <= |rows| && forall j :: 0 <= j < n ==> rows[j] != [] && q.counts[j] == |rows[j][0]|
  }

  /** The count and part of a table have been taken. */
  ghost predicate UnderWay(count: nat, got: seq<Msg>, parser: Parser) {
    got != [] && got[0] == CountMsg(count) && TakeAll(Parser(count, map[], WantKey), got[1..]) == Some(parser)
  }

  /** How much of j's messages party i has taken. */
  ghost predicate GotOk(rows: seq<seq<Row>>, q: Party, i: nat, j: nat) {
    && j < |rows| == |q.got| && i < |rows[j]| && i < |rows|
    && match q.stage
       case SendCounts => q.got[j] == []
       case ReceiveCounts => q.got[j] == if j < q.src then [CountMsg(|rows[j][0]|)] else []
       case SendRows => q.got[j] == [CountMsg(|rows[j][0]|)]
       case ReceiveRows =>
         (j < q.src ==> q.got[j] == Full(rows, j, i))
         && (j > q.src ==> q.got[j] == [CountMsg(|rows[j][0]|)])
         && (j == q.src ==> UnderWay(|rows[j][0]|, q.got[j], q.parser))
       case Finished => q.got[j] == Full(rows, j, i)
  }

  /** The columns received from the first n parties. */
  ghost predicate ColsUpTo(rows: seq<seq<Row>>, q: Party, i: nat, n: nat) {
    |q.cols| == n <= |rows| && forall j :: 0 <= j < n ==> i < |rows[j]| && q.cols[j] == TableOf(rows[j][i])
  }

  ghost predicate PartyOk(rows: seq<seq<Row>>, q: Party, i: nat) {
    && i < |rows|
    && (forall k :: 0 <= k < |q.out| ==> q.out[k].0 < |rows| && q.out[k].0 != i)
    && (forall j :: 0 <= j < |rows| && j != i ==> GotOk(rows, q, i, j))
    && match q.stage
       case SendCounts => q.counts == [] && q.cols == []
       case ReceiveCounts => q.out == [] && CountsUpTo(rows, q, q.src) && q.cols == []
       case SendRows => CountsUpTo(rows, q, |rows|) && q.cols == []
       case ReceiveRows => q.out == [] && CountsUpTo(rows, q, |rows|) && ColsUpTo(rows, q, i, q.src)
       case Finished => q.out == [] && ColsUpTo(rows, q, i, |rows|)
  }

  ghost predicate Inv(rows: seq<seq<Row>>, s: Net) {
    && Sized(s, |rows|)
    && (forall i :: 0 <= i < |rows| ==> PartyOk(rows, s.parties[i], i))
    && forall j, i :: 0 <= j < |rows| && 0 <= i < |rows| && j != i ==> Conserved(rows, s, j, i)
  }

  // ---- at the start ----

  lemma {:induction false} CountsTo(rows: seq<seq<Row>>, me: nat, n: nat, i: nat)
    requires me < |rows| && rows[me] != []
    ensures To(CountSends(rows, me, n), i) == if i < n && i != me then [CountMsg(|rows[me][0]|)] else []
    ensures forall k :: 0 <= k < |CountSends(rows, me, n)| ==> CountSends(rows, me, n)[k].0 < n && CountSends(rows, me, n)[k].0 != me
  {
    hide To;
    if n == 0 {
      ToNone(i);
    } else {
      CountsTo(rows, me, n - 1, i);
      if n - 1 != me {
        var m := CountMsg(|rows[me][0]|);
        ToAppend(CountSends(rows, me, n - 1), [(n - 1, m)], i);
        ToOne(n - 1, m, i);
      }
    }
  }

  lemma {:induction false} AddressedTo(to: nat, ms: seq<Msg>, i: nat)
    ensures To(Addressed(to, ms), i) == if i == to then ms else []
  {
    if ms != [] {
      var n := |ms| - 1;
      AddressedTo(to, ms[..n], i);
      assert Addressed(to, ms)[..n] == Addressed(to, ms[..n]);
      assert ms == ms[..n] + [ms[n]];
    }
  }

  lemma {:induction false} ToAppend(a: seq<(nat, Msg)>, b: seq<(nat, Msg)>, i: nat)
    ensures To(a + b, i) == To(a, i) + To(b, i)
    decreases |b|
  {
    if b == [] {
      assert a + b == a;
    } else {
      ToAppend(a, b[..|b| - 1], i);
      assert (a + b)[..|a + b| - 1] == a + b[..|b| - 1];
    }
  }

  lemma {:induction false} RowsTo(rows: seq<seq<Row>>, me: nat, n: nat, i: nat)
    requires me < |rows| && n <= |rows[me]|
    ensures To(RowSends(rows, me, n), i) == if i < n && i != me then RowMsgs(rows[me][i]) else []
    decreases n
  {
    hide RowMsgs, Addressed, To;
    if n == 0 {
      ToNone(i);
    } else {
      RowsTo(rows, me, n - 1, i);
      if n - 1 != me {
        ToAppend(RowSends(rows, me, n - 1), Addressed(n - 1, RowMsgs(rows[me][n - 1])), i);
        AddressedTo(n - 1, RowMsgs(rows[me][n - 1]), i);
      }
    }
  }

  lemma ToNone(i: nat)
    ensures To([], i) == []
  {
  }

  lemma ToOne(to: nat, m: Msg, i: nat)
    ensures To([(to, m)], i) == if to == i then [m] else []
  {
    var out := [(to, m)];
    assert out[..|out| - 1] == [] && To([], i) == [];
  }

  lemma {:induction false} RowTargets(rows: seq<seq<Row>>, me: nat, n: nat)
    requires me < |rows| && n <= |rows[me]|
    ensures forall k :: 0 <= k < |RowSends(rows, me, n)| ==> RowSends(rows, me, n)[k].0 < n && RowSends(rows, me, n)[k].0 != me
    decreases n
  {
    hide RowMsgs;
    if n > 0 {
      RowTargets(rows, me, n - 1);
    }
  }

  lemma StartInv(rows: seq<seq<Row>>)
    requires GoodRows(rows)
    ensures Inv(rows, Start(rows))
  {
    hide CountSends, RowMsgs, To, TakeAll, TableOf;
    var s := Start(rows);
    forall i | 0 <= i < |rows|
      ensures PartyOk(rows, s.parties[i], i)
    {
      CountsTo(rows, i, |rows|, i);
    }
    forall j, i | 0 <= j < |rows| && 0 <= i < |rows| && j != i
      ensures Conserved(rows, s, j, i)
    {
      CountsTo(rows, j, |rows|, i);
      assert s.parties[i].got[j] == [] && s.links[j][i] == [];
    }
  }

  // ---- each step ----

  lemma SendTo(q: Party, i: nat)
    requires q.out != []
    ensures To(q.out, i) == (if q.out[0].0 == i then [q.out[0].1] else []) + To(q.out[1..], i)
  {
    var first := [q.out[0]];
    assert q.out == first + q.out[1..];
    ToAppend(first, q.out[1..], i);
    assert first[..0] == [] && To(first[..0], i) == [];
  }

  lemma SendKeeps(rows: seq<seq<Row>>, s: Net, p: nat, t: Net)
    requires GoodRows(rows) && Inv(rows, s) && p < |rows| && SendStep(s, p) == Some(t)
    requires s.parties[p].stage.SendCounts? || s.parties[p].stage.SendRows?
    ensures Inv(rows, t)
  {
    hide RowMsgs, To, TakeAll, TableOf;
    var q := s.parties[p];
    var to, m := q.out[0].0, q.out[0].1;
    forall i | 0 <= i < |rows|
      ensures PartyOk(rows, t.parties[i], i)
    {
      if i != p {
        assert t.parties[i] == s.parties[i];
      } else {
        forall j | 0 <= j < |rows| && j != i
          ensures GotOk(rows, t.parties[i], i, j)
        {
          assert GotOk(rows, q, i, j);
        }
      }
    }
    forall j, i | 0 <= j < |rows| && 0 <= i < |rows| && j != i
      ensures Conserved(rows, t, j, i)
    {
      assert Conserved(rows, s, j, i);
      assert t.parties[i].got == s.parties[i].got;
      if j == p {
        SendTo(q, i);
        SentShift(s.parties[i].got[j], s.links[j][i], m, To(q.out[1..], i), RowMsgs(rows[j][i]));
      }
    }
  }

  lemma SentShift(got: seq<Msg>, link: seq<Msg>, m: Msg, rest: seq<Msg>, more: seq<Msg>)
    ensures got + link + ([m] + rest + more) == got + (link + [m]) + (rest + more)
    ensures got + link + ([m] + rest) == got + (link + [m]) + rest
    ensures [] + rest == rest
  {
  }

  /** A step that touches neither links nor what is pending. */
  lemma MoveKeeps(rows: seq<seq<Row>>, s: Net, p: nat, q': Party)
    requires Inv(rows, s) && p < |rows| && PartyOk(rows, q', p) && q'.got == s.parties[p].got && |rows[p]| == |rows|
    requires forall i :: 0 <= i < |rows| && i != p ==> Pending(rows, q', p, i) == Pending(rows, s.parties[p], p, i)
    ensures Inv(rows, With(s, p, q'))
  {
    hide RowMsgs, To, TakeAll, TableOf, Pending, PartyOk;
    var t := With(s, p, q');
    forall j, i | 0 <= j < |rows| && 0 <= i < |rows| && j != i
      ensures Conserved(rows, t, j, i)
    {
      assert Conserved(rows, s, j, i);
    }
  }

  /** Taking the front message of a link. */
  lemma ReceiveKeeps(rows: seq<seq<Row>>, s: Net, src: nat, p: nat, q': Party)
    requires Inv(rows, s) && p < |rows| && src < |rows| && src != p && s.links[src][p] != []
    requires |rows[p]| == |rows| && |rows[src]| == |rows| && q'.got == s.parties[p].got
    requires PartyOk(rows, q'.(got := q'.got[src := q'.got[src] + [s.links[src][p][0]]]), p)
    requires forall i :: 0 <= i < |rows| && i != p ==> Pending(rows, q', p, i) == Pending(rows, s.parties[p], p, i)
    ensures Inv(rows, Received(s, src, p, q'))
  {
    hide RowMsgs, To, TakeAll, TableOf, PartyOk;
    var t := Received(s, src, p, q');
    forall j, i | 0 <= j < |rows| && 0 <= i < |rows| && j != i
      ensures Conserved(rows, t, j, i)
    {
      assert Conserved(rows, s, j, i);
      if j == src && i == p {
        TakenShift(s.parties[i].got[j], s.links[j][i]);
      }
    }
  }

  lemma TakenShift(got: seq<Msg>, link: seq<Msg>)
    requires link != []
    ensures got + [link[0]] + link[1..] == got + link
  {
  }

  /** The next message on the link a party is reading. */
  lemma FrontMessage(rows: seq<seq<Row>>, s: Net, j: nat, i: nat)
    requires Inv(rows, s) && j < |rows| && i < |rows| && j != i && s.links[j][i] != [] && i < |rows[j]|
    ensures var got := s.parties[i].got[j];
      |got| < |Full(rows, j, i)| && Full(rows, j, i)[..|got|] == got && s.links[j][i][0] == Full(rows, j, i)[|got|]
  {
    assert Conserved(rows, s, j, i);
  }

  lemma CountKeeps(rows: seq<seq<Row>>, s: Net, p: nat)
    requires GoodRows(rows) && Inv(rows, s) && p < |rows| && s.parties[p].stage.ReceiveCounts?
    requires var src := s.parties[p].src; src < |rows| && src != p && s.links[src][p] != []
    ensures var q, src := s.parties[p], s.parties[p].src;
      s.links[src][p][0] == CountMsg(|rows[src][0]|)
      && Inv(rows, Received(s, src, p, q.(counts := q.counts + [|rows[src][0]|], src := src + 1)))
  {
    hide RowMsgs, To, TakeAll, TableOf;
    var q, src := s.parties[p], s.parties[p].src;
    assert GotOk(rows, q, p, src);
    FrontMessage(rows, s, src, p);
    var q' := q.(counts := q.counts + [|rows[src][0]|], src := src + 1);
    var r := q'.(got := q'.got[src := q'.got[src] + [s.links[src][p][0]]]);
    forall j | 0 <= j < |rows| && j != p
      ensures GotOk(rows, r, p, j)
    {
      assert GotOk(rows, q, p, j);
    }
    ReceiveKeeps(rows, s, src, p, q');
  }

  /** A table message is of the kind expected, and the table is not complete before the last. */
  lemma RowMessage(rows: seq<seq<Row>>, s: Net, p: nat)
    requires GoodRows(rows) && Inv(rows, s) && p < |rows| && s.parties[p].stage.ReceiveRows?
    requires var src := s.parties[p].src; src < |rows| && src != p && s.links[src][p] != []
    ensures var q, src := s.parties[p], s.parties[p].src;
      !q.parser.Complete() && Take(q.parser, s.links[src][p][0]).Some?
      && Inv(rows, Received(s, src, p, q.(parser := Take(q.parser, s.links[src][p][0]).value)))
  {
    hide RowMsgs, To, TakeAll, TableOf, Take;
    var q, src := s.parties[p], s.parties[p].src;
    var m, got := s.links[src][p][0], q.got[src];
    assert GotOk(rows, q, p, src);
    FrontMessage(rows, s, src, p);
    var full := RowMsgs(rows[src][p]);
    FullTail(rows, src, p, got, m);
    PrefixGoesOn(rows[src][p], got[1..], m, full[|got|..]);
    assert (got + [m])[1..] == got[1..] + [m];
    var q' := q.(parser := Take(q.parser, m).value);
    var r := q'.(got := q'.got[src := got + [m]]);
    forall j | 0 <= j < |rows| && j != p
      ensures GotOk(rows, r, p, j)
    {
      assert GotOk(rows, q, p, j);
    }
    ReceiveKeeps(rows, s, src, p, q');
  }

  lemma FullTail(rows: seq<seq<Row>>, j: nat, i: nat, got: seq<Msg>, m: Msg)
    requires j < |rows| && i < |rows[j]| && 1 <= |got| < |Full(rows, j, i)| && Full(rows, j, i)[..|got|] == got && m == Full(rows, j, i)[|got|]
    ensures |got| <= |RowMsgs(rows[j][i])| && RowMsgs(rows[j][i]) == got[1..] + [m] + RowMsgs(rows[j][i])[|got|..]
  {
    var full, tail := Full(rows, j, i), RowMsgs(rows[j][i]);
    assert full[1..] == tail;
    assert tail[..|got| - 1] == got[1..] && tail[|got| - 1] == m;
  }

  lemma NextCol(rows: seq<seq<Row>>, q: Party, p: nat, table: Table)
    requires GoodRows(rows) && PartyOk(rows, q, p) && q.stage.ReceiveRows? && q.src < |rows|
    requires table == TableOf(rows[q.src][p])
    requires q.src != p ==> |q.got| == |rows| && q.got[q.src] == Full(rows, q.src, p)
    ensures PartyOk(rows, q.(cols := q.cols + [table], src := q.src + 1, parser := ParserFor(q.counts, q.src + 1)), p)
  {
    hide RowMsgs, To, TableOf;
    var src := q.src;
    var r := q.(cols := q.cols + [table], src := src + 1, parser := ParserFor(q.counts, src + 1));
    forall j | 0 <= j < |rows| && j != p
      ensures GotOk(rows, r, p, j)
    {
      assert GotOk(rows, q, p, j);
      if j == src + 1 {
        assert q.got[j][1..] == [];
      }
    }
  }

  /** A table that is complete is all that was sent. */
  lemma CompleteIsFull(rows: seq<seq<Row>>, s: Net, p: nat)
    requires GoodRows(rows) && Inv(rows, s) && p < |rows| && s.parties[p].stage.ReceiveRows?
    requires var q := s.parties[p]; q.src < |rows| && q.src != p && q.parser.Complete()
    ensures var q := s.parties[p];
      q.got[q.src] == Full(rows, q.src, p) && q.parser.table == TableOf(rows[q.src][p])
  {
    hide RowMsgs, To, TableOf, TakeAll, Take;
    var q, src := s.parties[p], s.parties[p].src;
    assert GotOk(rows, q, p, src) && Conserved(rows, s, src, p);
    var got, full := q.got[src], Full(rows, src, p);
    TakeRow(rows[src][p], 0);
    if |got| < |full| {
      var m := full[|got|];
      assert full[..|got|] == got;
      FullTail(rows, src, p, got, m);
      PrefixGoesOn(rows[src][p], got[1..], m, RowMsgs(rows[src][p])[|got|..]);
      assert false;
    }
    assert got == full && full[1..] == RowMsgs(rows[src][p]);
  }

  lemma StageMoves(rows: seq<seq<Row>>, s: Net, p: nat, q': Party)
    requires GoodRows(rows) && Inv(rows, s) && p < |rows|
    requires var q := s.parties[p];
      || (q.stage.SendCounts? && q.out == [] && q' == q.(stage := ReceiveCounts, src := 0))
      || (q.stage.ReceiveCounts? && q.src >= |rows| && q' == q.(stage := SendRows, out := RowSends(rows, p, |rows|)))
      || (q.stage.SendRows? && q.out == [] && q' == q.(stage := ReceiveRows, src := 0, parser := ParserFor(q.counts, 0)))
      || (q.stage.ReceiveRows? && q.src >= |rows| && q' == q.(stage := Finished))
    ensures Inv(rows, With(s, p, q'))
  {
    hide RowMsgs, TakeAll, TableOf, RowSends;
    var q := s.parties[p];
    RowTargets(rows, p, |rows|);
    forall j | 0 <= j < |rows| && j != p
      ensures GotOk(rows, q', p, j)
    {
      assert GotOk(rows, q, p, j);
      NothingYet(q.got[j]);
    }
    forall i | 0 <= i < |rows| && i != p
      ensures Pending(rows, q', p, i) == Pending(rows, q, p, i)
    {
      RowsTo(rows, p, |rows|, i);
    }
    MoveKeeps(rows, s, p, q');
  }

  lemma NothingYet(got: seq<Msg>)
    ensures |got| == 1 ==> got[1..] == []
    ensures forall ps :: TakeAll(ps, []) == Some(ps)
  {
  }

  lemma OwnCount(rows: seq<seq<Row>>, s: Net, p: nat)
    requires GoodRows(rows) && Inv(rows, s) && p < |rows| && s.parties[p].stage.ReceiveCounts? && s.parties[p].src == p
    ensures var q := s.parties[p];
      Inv(rows, With(s, p, q.(counts := q.counts + [|rows[p][0]|], src := q.src + 1)))
  {
    hide RowMsgs, TakeAll, TableOf, To;
    var q := s.parties[p];
    var q' := q.(counts := q.counts + [|rows[p][0]|], src := q.src + 1);
    forall j | 0 <= j < |rows| && j != p
      ensures GotOk(rows, q', p, j)
    {
      assert GotOk(rows, q, p, j);
    }
    MoveKeeps(rows, s, p, q');
  }

  lemma StepKeeps(rows: seq<seq<Row>>, s: Net, p: nat, t: Net)
    requires GoodRows(rows) && Inv(rows, s) && p < |rows| && StepOf(rows, s, p) == Some(t)
    ensures Inv(rows, t)
  {
    hide RowMsgs, TakeAll, TableOf, To, Take, Conserved, PartyOk, SendStep, RowSends, CountSends;
    var q := s.parties[p];
    assert PartyOk(rows, q, p);
    match q.stage
    case SendCounts =>
      if q.out != [] {
        SendKeeps(rows, s, p, t);
      } else {
        StageMoves(rows, s, p, t.parties[p]);
      }
    case ReceiveCounts =>
      if q.src >= |rows| {
        StageMoves(rows, s, p, t.parties[p]);
      } else if q.src == p {
        OwnCount(rows, s, p);
      } else {
        CountKeeps(rows, s, p);
      }
    case SendRows =>
      if q.out != [] {
        SendKeeps(rows, s, p, t);
      } else {
        StageMoves(rows, s, p, t.parties[p]);
      }
    case ReceiveRows =>
      if q.src >= |rows| {
        StageMoves(rows, s, p, t.parties[p]);
      } else if q.src == p {
        NextCol(rows, q, p, TableOf(rows[p][p]));
        MoveKeeps(rows, s, p, t.parties[p]);
      } else if q.parser.Complete() {
        CompleteIsFull(rows, s, p);
        NextCol(rows, q, p, q.parser.table);
        MoveKeeps(rows, s, p, t.parties[p]);
      } else {
        RowMessage(rows, s, p);
      }
    case Finished =>
  }

  // ---- every run ----

  ghost predicate Step(rows: seq<seq<Row>>, s: Net, t: Net)
    requires Sized(s, |rows|) && GoodRows(rows)
  {
    exists p :: 0 <= p < |rows| && StepOf(rows, s, p) == Some(t)
  }

  ghost predicate AllFinished(s: Net) {
    forall p :: 0 <= p < |s.parties| ==> s.parties[p].stage.Finished?
  }

  /** As long as someone is not finished, someone can go on: there is no deadlock. */
  lemma NoDeadlock(rows: seq<seq<Row>>, s: Net)
    requires GoodRows(rows) && Inv(rows, s) && !AllFinished(s)
    ensures Sized(s, |rows|) && exists p :: 0 <= p < |rows| && StepOf(rows, s, p).Some? && Step(rows, s, StepOf(rows, s, p).value)
  {
    hide RowMsgs, TakeAll, TableOf, To, Take, Conserved, PartyOk, RowSends, CountSends;
    if p :| 0 <= p < |rows| && (s.parties[p].stage.SendCounts? || s.parties[p].stage.SendRows?) {
      SenderMoves(rows, s, p);
    } else if p :| 0 <= p < |rows| && s.parties[p].stage.ReceiveCounts? {
      CounterMoves(rows, s, p);
    } else {
      var p :| 0 <= p < |rows| && !s.parties[p].stage.Finished?;
      ReaderMoves(rows, s, p);
    }
  }

  lemma SenderMoves(rows: seq<seq<Row>>, s: Net, p: nat)
    requires GoodRows(rows) && Inv(rows, s) && p < |rows| && (s.parties[p].stage.SendCounts? || s.parties[p].stage.SendRows?)
    ensures StepOf(rows, s, p).Some?
  {
    hide RowMsgs, TakeAll, TableOf, To, Take, Conserved, RowSends, CountSends;
    assert PartyOk(rows, s.parties[p], p);
  }

  /** When nobody is sending, all counts have arrived. */
  lemma CounterMoves(rows: seq<seq<Row>>, s: Net, p: nat)
    requires GoodRows(rows) && Inv(rows, s) && p < |rows| && s.parties[p].stage.ReceiveCounts?
    requires forall j :: 0 <= j < |rows| ==> !s.parties[j].stage.SendCounts? && !s.parties[j].stage.SendRows?
    ensures StepOf(rows, s, p).Some?
  {
    hide RowMsgs, TakeAll, TableOf, To, Take, RowSends, CountSends;
    var src := s.parties[p].src;
    if src < |rows| && src != p {
      assert Conserved(rows, s, src, p) && GotOk(rows, s.parties[p], p, src);
      CountWaiting(rows, s, p, src);
      CountKeeps(rows, s, p);
    }
  }

  lemma CountWaiting(rows: seq<seq<Row>>, s: Net, p: nat, j: nat)
    requires j < |rows| == |s.parties| && p < |rows| && Conserved(rows, s, j, p)
    requires s.parties[p].got[j] == [] && !s.parties[j].stage.SendCounts? && !s.parties[j].stage.SendRows?
    ensures s.links[j][p] != []
  {
    hide RowMsgs;
    assert |Full(rows, j, p)| == 1 + |RowMsgs(rows[j][p])|;
  }

  /** When nobody is sending or counting, all messages have been sent. */
  lemma ReaderMoves(rows: seq<seq<Row>>, s: Net, p: nat)
    requires GoodRows(rows) && Inv(rows, s) && p < |rows| && s.parties[p].stage.ReceiveRows?
    requires forall j :: 0 <= j < |rows| ==> s.parties[j].stage.ReceiveRows? || s.parties[j].stage.Finished?
    ensures StepOf(rows, s, p).Some?
  {
    hide RowMsgs, TakeAll, TableOf, To, Take, RowSends, CountSends;
    var q, src := s.parties[p], s.parties[p].src;
    if src < |rows| && src != p && !q.parser.Complete() {
      assert Conserved(rows, s, src, p) && GotOk(rows, q, p, src);
      if s.links[src][p] == [] {
        EverythingTaken(rows, src, p, q.got[src], q.parser);
        assert false;
      }
      RowMessage(rows, s, p);
    }
  }

  lemma EverythingTaken(rows: seq<seq<Row>>, j: nat, i: nat, got: seq<Msg>, parser: Parser)
    requires GoodRows(rows) && j < |rows| && i < |rows| && got == Full(rows, j, i) && UnderWay(|rows[j][0]|, got, parser)
    ensures parser.Complete()
  {
    hide RowMsgs, TakeAll, TableOf;
    TakeRow(rows[j][i], 0);
    assert got[1..] == RowMsgs(rows[j][i]);
  }

  /** And when everyone is, column j of party i is the table that j had for i. */
  lemma Transposed(rows: seq<seq<Row>>, s: Net, i: nat, j: nat)
    requires GoodRows(rows) && Inv(rows, s) && AllFinished(s) && i < |rows| && j < |rows|
    ensures |s.parties[i].cols| == |rows| && s.parties[i].cols[j] == TableOf(rows[j][i])
  {
    hide RowMsgs, TakeAll, TableOf, To, Take, Conserved;
    assert PartyOk(rows, s.parties[i], i);
  }

  ghost predicate Run(rows: seq<seq<Row>>, run: seq<Net>)
    requires GoodRows(rows)
  {
    && run != [] && run[0] == Start(rows)
    && forall k :: 0 <= k && k + 1 < |run| ==> Sized(run[k], |rows|) && Step(rows, run[k], run[k + 1])
  }

  lemma {:induction false} RunsKeep(rows: seq<seq<Row>>, run: seq<Net>, k: nat)
    requires GoodRows(rows) && Run(rows, run) && k < |run|
    ensures Inv(rows, run[k])
  {
    hide Inv, StepOf;
    if k == 0 {
      StartInv(rows);
    } else {
      RunsKeep(rows, run, k - 1);
      assert Step(rows, run[k - 1], run[k]);
      var p :| 0 <= p < |rows| && StepOf(rows, run[k - 1], p) == Some(run[k]);
      StepKeeps(rows, run[k - 1], p, run[k]);
    }
  }

  /** A run that can go no further has delivered the transpose. */
  lemma ExchangeDelivers(rows: seq<seq<Row>>, run: seq<Net>, i: nat, j: nat)
    requires GoodRows(rows) && Run(rows, run) && i < |rows| && j < |rows|
    requires var s := run[|run| - 1]; Sized(s, |rows|) ==> forall p :: 0 <= p < |rows| ==> StepOf(rows, s, p).None?
    ensures var s := run[|run| - 1];
      |s.parties| == |rows| && |s.parties[i].cols| == |rows| && s.parties[i].cols[j] == TableOf(rows[j][i])
  {
    hide StepOf, TableOf, PartyOk, Conserved;
    var s := run[|run| - 1];
    RunsKeep(rows, run, |run| - 1);
    if !AllFinished(s) {
      NoDeadlock(rows, s);
      assert false;
    }
    Transposed(rows, s, i, j);
  }

  // ---- every run ends ----

  /** The messages, and ends of tables, still to come from the parties src, src + 1, ... */
  function RowsLeft(rows: seq<seq<Row>>, p: nat, src: nat): nat
    requires forall j :: 0 <= j < |rows| ==> p < |rows[j]|
    decreases |rows| - src
  {
    if src >= |rows| then 0 else |RowMsgs(rows[src][p])| + 1 + RowsLeft(rows, p, src + 1)
  }

  /** How many steps party p can still take. */
  function StepsLeft(rows: seq<seq<Row>>, q: Party, p: nat): int
    requires p < |rows| && forall j :: 0 <= j < |rows| ==> p < |rows[j]| == |rows|
  {
    var later := |RowSends(rows, p, |rows|)| + 1 + RowsLeft(rows, p, 0) + 1;
    match q.stage
    case SendCounts => |q.out| + 1 + |rows| + 1 + later
    case ReceiveCounts => |rows| - q.src + 1 + later
    case SendRows => |q.out| + 1 + RowsLeft(rows, p, 0) + 1
    case ReceiveRows => RowsLeft(rows, p, q.src) + 1 - if q.src < |q.got| && q.src != p && |q.got[q.src]| > 0 then |q.got[q.src]| - 1 else 0
    case Finished => 0
  }

  /** At most the table being read has been taken, and nothing of the next one. */
  predicate ReadingBounds(rows: seq<seq<Row>>, q: Party, p: nat) {
    && |q.got| == |rows| && (forall j :: 0 <= j < |rows| ==> p < |rows[j]|)
    && (q.src < |rows| && q.src != p ==> 1 <= |q.got[q.src]| <= |RowMsgs(rows[q.src][p])| + 1)
    && (q.src + 1 < |rows| && q.src + 1 != p ==> |q.got[q.src + 1]| == 1)
  }

  lemma ReadingLeft(rows: seq<seq<Row>>, s: Net, p: nat)
    requires GoodRows(rows) && Inv(rows, s) && p < |rows| && s.parties[p].stage.ReceiveRows?
    ensures ReadingBounds(rows, s.parties[p], p)
  {
    hide RowMsgs, TakeAll, TableOf, To;
    var q := s.parties[p];
    if q.src < |rows| && q.src != p {
      assert GotOk(rows, q, p, q.src) && Conserved(rows, s, q.src, p);
    }
    if q.src + 1 < |rows| && q.src + 1 != p {
      assert GotOk(rows, q, p, q.src + 1);
    }
  }

  lemma BeginLeft(rows: seq<seq<Row>>, s: Net, p: nat)
    requires GoodRows(rows) && Inv(rows, s) && p < |rows| && s.parties[p].stage.SendRows?
    ensures forall j :: 0 <= j < |rows| && j != p ==> |s.parties[p].got[j]| == 1
  {
    hide RowMsgs, TakeAll, TableOf, To;
    forall j | 0 <= j < |rows| && j != p
      ensures |s.parties[p].got[j]| == 1
    {
      assert GotOk(rows, s.parties[p], p, j);
    }
  }

  /** Every step leaves its party fewer steps to take, and the others as many: no run goes on for ever. */
  lemma StepShrinks(rows: seq<seq<Row>>, s: Net, p: nat, t: Net)
    requires GoodRows(rows) && Inv(rows, s) && p < |rows| && StepOf(rows, s, p) == Some(t)
    ensures 0 <= StepsLeft(rows, t.parties[p], p) < StepsLeft(rows, s.parties[p], p)
    ensures forall i :: 0 <= i < |rows| && i != p ==> StepsLeft(rows, t.parties[i], i) == StepsLeft(rows, s.parties[i], i)
  {
    hide StepOf, StepsLeft, PartyOk, Conserved;
    StepKeeps(rows, s, p, t);
    OthersAsBefore(rows, s, p, t);
    forall i | 0 <= i < |rows| && i != p
      ensures StepsLeft(rows, t.parties[i], i) == StepsLeft(rows, s.parties[i], i)
    {
      SameLeft(rows, s.parties[i], t.parties[i], i);
    }
    match s.parties[p].stage
    case SendCounts =>
      SendingShrinks(rows, s, p, t);
    case ReceiveCounts =>
      CountedAtMost(rows, s, p);
      CountingShrinks(rows, s, p, t);
    case SendRows =>
      BeginLeft(rows, s, p);
      SendingShrinks(rows, s, p, t);
    case ReceiveRows =>
      ReadingLeft(rows, s, p);
      if t.parties[p].stage.ReceiveRows? {
        ReadingLeft(rows, t, p);
      }
      ReadingShrinks(rows, s, p, t);
    case Finished =>
      NoneFinished(rows, s, p);
  }

  lemma CountedAtMost(rows: seq<seq<Row>>, s: Net, p: nat)
    requires Inv(rows, s) && p < |rows| && s.parties[p].stage.ReceiveCounts?
    ensures s.parties[p].src <= |rows|
  {
    hide GotOk, Conserved;
    assert PartyOk(rows, s.parties[p], p);
  }

  lemma NoneFinished(rows: seq<seq<Row>>, s: Net, p: nat)
    requires Sized(s, |rows|) && p < |rows| && |rows[p]| == |rows| && s.parties[p].stage.Finished?
    ensures StepOf(rows, s, p) == None
  {
  }

  lemma SendingShrinks(rows: seq<seq<Row>>, s: Net, p: nat, t: Net)
    requires Sized(s, |rows|) && p < |rows| && (forall j :: 0 <= j < |rows| ==> |rows[j]| == |rows|)
    requires s.parties[p].stage.SendCounts? || s.parties[p].stage.SendRows?
    requires s.parties[p].stage.SendRows? ==> forall j :: 0 <= j < |rows| && j != p ==> |s.parties[p].got[j]| == 1
    requires StepOf(rows, s, p) == Some(t) && |t.parties| == |rows|
    ensures 0 <= StepsLeft(rows, t.parties[p], p) < StepsLeft(rows, s.parties[p], p)
  {
    hide RowMsgs, RowSends, RowsLeft, TableOf, Take;
  }

  lemma CountingShrinks(rows: seq<seq<Row>>, s: Net, p: nat, t: Net)
    requires Sized(s, |rows|) && p < |rows| && (forall j :: 0 <= j < |rows| ==> |rows[j]| == |rows|)
    requires s.parties[p].stage.ReceiveCounts? && StepOf(rows, s, p) == Some(t) && |t.parties| == |rows|
    requires s.parties[p].src <= |rows|
    ensures 0 <= StepsLeft(rows, t.parties[p], p) < StepsLeft(rows, s.parties[p], p)
  {
    hide RowMsgs, RowSends, RowsLeft, TableOf, Take;
  }

  lemma ReadingShrinks(rows: seq<seq<Row>>, s: Net, p: nat, t: Net)
    requires Sized(s, |rows|) && p < |rows| && (forall j :: 0 <= j < |rows| ==> |rows[j]| == |rows|)
    requires s.parties[p].stage.ReceiveRows? && StepOf(rows, s, p) == Some(t) && |t.parties| == |rows|
    requires ReadingBounds(rows, s.parties[p], p)
    requires t.parties[p].stage.ReceiveRows? ==> ReadingBounds(rows, t.parties[p], p)
    ensures 0 <= StepsLeft(rows, t.parties[p], p) < StepsLeft(rows, s.parties[p], p)
  {
    hide RowMsgs, RowSends, TableOf, Take;
  }

  lemma SameLeft(rows: seq<seq<Row>>, q: Party, r: Party, i: nat)
    requires i < |rows| && forall j :: 0 <= j < |rows| ==> i < |rows[j]| == |rows|
    requires q.stage == r.stage && q.out == r.out && q.src == r.src && q.got == r.got
    ensures StepsLeft(rows, q, i) == StepsLeft(rows, r, i)
  {
    hide RowMsgs, RowSends, RowsLeft;
  }

  lemma OthersAsBefore(rows: seq<seq<Row>>, s: Net, p: nat, t: Net)
    requires Sized(s, |rows|) && p < |rows| && |rows[p]| == |rows| && StepOf(rows, s, p) == Some(t)
    requires forall j :: 0 <= j < |rows| ==> |rows[j]| == |rows|
    ensures |t.parties| == |rows| && forall i :: 0 <= i < |rows| && i != p ==>
      t.parties[i].stage == s.parties[i].stage && t.parties[i].out == s.parties[i].out && t.parties[i].src == s.parties[i].src && t.parties[i].got == s.parties[i].got
  {
    hide RowMsgs, TableOf, Take, RowSends, CountSends;
  }
}
