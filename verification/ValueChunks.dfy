/**
  Values cut into chunks for the wire, and put together again.  Element data is a row-major byte
  sequence; the types' names and their parsing are not modelled.
 */
module ValueChunks {
  import opened Arith
  import opened Wrappers
  import opened Shapes

  type Byte = b: nat | b < 256

  datatype Chunk = Chunk(totalBytes: nat, offset: nat, content: seq<Byte>)

  /** A storage type: its element size and the visibility it implies (0 is invalid). */
  datatype SType = SType(name: string, elsize: nat, visibility: nat)

  datatype Meta = Meta(dtype: nat, isComplex: bool, visibility: nat, shape: seq<nat>, stype: SType)

  datatype Proto = Proto(meta: Meta, chunks: seq<Chunk>)

  /** A value: its data type (0 is invalid), shape, storage type, and one or two arrays of bytes. */
  datatype Value = Value(dtype: nat, shape: seq<nat>, stype: SType, data: seq<Byte>, imag: Option<seq<Byte>>) {
    function Bytes(): nat {
      Numel(shape) * stype.elsize
    }

    predicate Valid() {
      |data| == Bytes() && (imag.Some? ==> |imag.value| == Bytes())
    }
  }

  function Min(a: nat, b: nat): nat {
    if a <= b then a else b
  }

  // ---- cutting ----

  /** The chunks from byte offset on: full ones, and one for the rest. */
  function Cut(data: seq<Byte>, size: nat, offset: nat): (c: seq<Chunk>)
    requires size > 0
    decreases |data| - offset
  {
    if offset >= |data| then []
    else [Chunk(|data|, offset, data[offset..offset + Min(size, |data| - offset)])] + Cut(data, size, offset + size)
  }

  /** How many chunks that takes. */
  function ChunksCount(total: nat, size: nat): nat
    requires size > 0
  {
    (total + size - 1) / size
  }

  lemma {:induction false} CutLength(data: seq<Byte>, size: nat, offset: nat)
    requires size > 0
    ensures offset <= |data| ==> |Cut(data, size, offset)| == ChunksCount(|data| - offset, size)
    ensures offset > |data| ==> Cut(data, size, offset) == []
    decreases |data| - offset
  {
    var left := |data| - offset;
    if offset < |data| {
      CutLength(data, size, offset + size);
      if left >= size {
        QuotientShifts(left + size - 1, size);
      } else {
        DivModUnique(left + size - 1, 1, left - 1, size);
      }
    } else if offset == |data| {
      DivModUnique(size - 1, 0, size - 1, size);
    }
  }

  /** The chunk at an offset that is a multiple of the chunk size. */
  lemma {:induction false} CutAt(data: seq<Byte>, size: nat, offset: nat, i: nat)
    requires size > 0 && i < |Cut(data, size, offset)|
    ensures offset + i * size >= 0 && offset + i * size < |data|
    ensures Cut(data, size, offset)[i] ==
      Chunk(|data|, offset + i * size, data[offset + i * size..offset + i * size + Min(size, |data| - (offset + i * size))])
    decreases i
  {
    if i == 0 {
      assert 0 * size == 0;
    } else {
      CutAt(data, size, offset + size, i - 1);
      assert size + (i - 1) * size == i * size;
    }
  }

  /** build_chunk: nothing for no bytes. */
  method BuildChunks(data: seq<Byte>, size: nat, numChunks: nat) returns (chunks: seq<Chunk>)
    requires size > 0 && numChunks == ChunksCount(|data|, size)
    ensures chunks == Cut(data, size, 0)
  {
    chunks := [];
    CutLength(data, size, 0);
    if |data| == 0 {
      return;
    }
    for i := 0 to numChunks
      invariant chunks == Cut(data, size, 0)[..i]
    {
      CutAt(data, size, 0, i);
      var offset := i * size;
      var chunkSize := Min(size, |data| - offset);
      chunks := chunks + [Chunk(|data|, offset, data[offset..offset + chunkSize])];
    }
    assert Cut(data, size, 0)[..numChunks] == Cut(data, size, 0);
  }

  method ToProto(v: Value, size: nat) returns (ok: bool, p: Proto)
    requires v.Valid()
    ensures ok <==> size > 0 && v.dtype != 0 && v.stype.visibility != 0
    ensures ok ==> p.meta == Meta(v.dtype, v.imag.Some?, v.stype.visibility, v.shape, v.stype)
    ensures ok ==> p.chunks == Cut(v.data, size, 0) + if v.imag.Some? then Cut(v.imag.value, size, 0) else []
  {
    p := Proto(Meta(v.dtype, v.imag.Some?, v.stype.visibility, v.shape, v.stype), []);
    if size == 0 || v.dtype == 0 || v.stype.visibility == 0 {
      return false, p;
    }
    var numChunks := ChunksCount(v.Bytes(), size);
    var chunks := BuildChunks(v.data, size, numChunks);
    if v.imag.Some? {
      var more := BuildChunks(v.imag.value, size, numChunks);
      chunks := chunks + more;
    }
    ok, p := true, p.(chunks := chunks);
  }

  // ---- putting together ----

  /** Each chunk's bytes stand at its offset. */
  predicate Holds(data: seq<Byte>, c: Chunk) {
    c.offset + |c.content| <= |data| && data[c.offset..c.offset + |c.content|] == c.content
  }

  ghost predicate DistinctOffsets(chunks: seq<Chunk>) {
    forall i, j :: 0 <= i < j < |chunks| ==> chunks[i].offset != chunks[j].offset
  }

  /** Every byte of an array lies in a chunk, no two chunks begin at the same byte, overlap, or reach beyond the array. */
  ghost predicate Tiles(chunks: seq<Chunk>, bytes: nat) {
    && DistinctOffsets(chunks)
    && (forall c :: c in chunks ==> c.offset + |c.content| <= bytes)
    && (forall c, e :: c in chunks && e in chunks && c.offset < e.offset ==> c.offset + |c.content| <= e.offset)
    && forall p: nat :: p < bytes ==> LiesInOne(chunks, p)
  }

  ghost predicate LiesInOne(chunks: seq<Chunk>, p: nat) {
    exists c :: c in chunks && c.offset <= p < c.offset + |c.content|
  }

  /** The array size the chunks declare. */
  function Declared(chunks: seq<Chunk>): nat {
    if chunks == [] then 0 else chunks[0].totalBytes
  }

  /** The chunks tile an array of that size, and declare it. */
  ghost predicate Complete(chunks: seq<Chunk>, bytes: nat) {
    Tiles(chunks, bytes) && Declared(chunks) == bytes
  }

  /** There is at most one array that holds them. */
  lemma TilesDetermine(chunks: seq<Chunk>, data: seq<Byte>, d: seq<Byte>)
    requires Tiles(chunks, |d|) && |data| == |d| && forall c :: c in chunks ==> Holds(data, c) && Holds(d, c)
    ensures data == d
  {
    hide DistinctOffsets;
    forall p: nat | p < |d|
      ensures data[p] == d[p]
    {
      assert LiesInOne(chunks, p);
      var c :| c in chunks && c.offset <= p < c.offset + |c.content|;
      assert Holds(data, c) && Holds(d, c);
      assert data[c.offset..c.offset + |c.content|][p - c.offset] == d[c.offset..c.offset + |c.content|][p - c.offset];
    }
  }

  /** The least key of a map, as an ordered map would give. */
  method LeastKey(m: map<nat, seq<Byte>>) returns (k: nat)
    requires m != map[]
    ensures k in m && forall j :: j in m ==> k <= j
  {
    k :| k in m;
    var rest := m.Keys - {k};
    while rest != {}
      invariant k in m && rest <= m.Keys && forall j :: j in m && j !in rest ==> k <= j
      decreases |rest|
    {
      var j :| j in rest;
      if j < k {
        k := j;
      }
      rest := rest - {j};
    }
  }

  /** The table of contents by offset. */
  ghost predicate ContentTable(m: map<nat, seq<Byte>>, chunks: seq<Chunk>) {
    && (forall c :: c in chunks ==> c.offset in m && m[c.offset] == c.content)
    && forall k :: k in m ==> Entered(chunks, k, m[k])
  }

  ghost predicate Entered(chunks: seq<Chunk>, k: nat, content: seq<Byte>) {
    exists c :: c in chunks && c.offset == k && c.content == content
  }

  /** Refuses a repeated offset. */
  method Order(chunks: seq<Chunk>) returns (ok: bool, ordered: map<nat, seq<Byte>>)
    ensures ok <==> DistinctOffsets(chunks)
    ensures ok ==> ContentTable(ordered, chunks)
  {
    ordered := map[];
    for i := 0 to |chunks|
      invariant DistinctOffsets(chunks[..i]) && ContentTable(ordered, chunks[..i])
    {
      assert chunks[..i + 1] == chunks[..i] + [chunks[i]];
      if chunks[i].offset in ordered {
        Repeated(chunks, i, ordered);
        return false, ordered;
      }
      ghost var before := ordered;
      ordered := ordered[chunks[i].offset := chunks[i].content];
      TableGrows(before, ordered, chunks, i);
    }
    assert chunks[..|chunks|] == chunks;
    ok := true;
  }

  lemma Repeated(chunks: seq<Chunk>, i: nat, m: map<nat, seq<Byte>>)
    requires i < |chunks| && ContentTable(m, chunks[..i]) && chunks[i].offset in m
    ensures !DistinctOffsets(chunks)
  {
    assert Entered(chunks[..i], chunks[i].offset, m[chunks[i].offset]);
    var c :| c in chunks[..i] && c.offset == chunks[i].offset;
    var j :| 0 <= j < i && chunks[j] == c;
  }

  lemma TableGrows(m: map<nat, seq<Byte>>, n: map<nat, seq<Byte>>, chunks: seq<Chunk>, i: nat)
    requires i < |chunks| && ContentTable(m, chunks[..i]) && chunks[i].offset !in m
    requires n == m[chunks[i].offset := chunks[i].content] && DistinctOffsets(chunks[..i])
    ensures DistinctOffsets(chunks[..i + 1]) && ContentTable(n, chunks[..i + 1])
  {
    var more := chunks[..i + 1];
    assert more == chunks[..i] + [chunks[i]];
    forall x, y | 0 <= x < y < |more|
      ensures more[x].offset != more[y].offset
    {
      assert more[x] in chunks[..i];
      if y < i {
        assert chunks[..i][x].offset != chunks[..i][y].offset;
      }
    }
    forall k | k in n
      ensures Entered(more, k, n[k])
    {
      if k == chunks[i].offset {
        assert chunks[i] in more;
      } else {
        assert Entered(chunks[..i], k, m[k]);
        var c :| c in chunks[..i] && c.offset == k && c.content == m[k];
        assert c in more;
      }
    }
  }

  // ---- the chunks taken, in order of their offsets ----

  ghost predicate InEntry(m: map<nat, seq<Byte>>, p: nat) {
    exists k :: k in m && k <= p < k + |m[k]|
  }

  /** The same of a table of contents. */
  ghost predicate TableTiles(m: map<nat, seq<Byte>>, bytes: nat) {
    && (forall k :: k in m ==> k + |m[k]| <= bytes)
    && (forall k, l :: k in m && l in m && k < l ==> k + |m[k]| <= l)
    && forall p: nat :: p < bytes ==> InEntry(m, p)
  }

  lemma TilesByTable(chunks: seq<Chunk>, m: map<nat, seq<Byte>>, bytes: nat)
    requires DistinctOffsets(chunks) && ContentTable(m, chunks)
    ensures Tiles(chunks, bytes) <==> TableTiles(m, bytes)
  {
    hide DistinctOffsets;
    forall k | k in m
      ensures exists c :: c in chunks && c.offset == k && c.content == m[k]
    {
      assert Entered(chunks, k, m[k]);
    }
    forall p: nat
      ensures LiesInOne(chunks, p) <==> InEntry(m, p)
    {
      SameByte(chunks, m, p);
    }
    hide LiesInOne, InEntry, Entered;
  }

  lemma SameByte(chunks: seq<Chunk>, m: map<nat, seq<Byte>>, p: nat)
    requires ContentTable(m, chunks)
    ensures LiesInOne(chunks, p) <==> InEntry(m, p)
  {
    if InEntry(m, p) {
      var k :| k in m && k <= p < k + |m[k]|;
      assert Entered(chunks, k, m[k]);
    }
  }

  /** The chunks taken so far are in place and fill the array up to pos. */
  ghost predicate Filled(data: seq<Byte>, taken: map<nat, seq<Byte>>, pos: nat) {
    && pos <= |data| && TableTiles(taken, pos)
    && forall k :: k in taken ==> k + |taken[k]| <= pos && data[k..k + |taken[k]|] == taken[k]
  }

  /** They come before the others. */
  ghost predicate SplitUp(whole: map<nat, seq<Byte>>, taken: map<nat, seq<Byte>>, ordered: map<nat, seq<Byte>>) {
    && (forall k :: k in whole <==> k in taken || k in ordered)
    && (forall k :: k in taken ==> whole[k] == taken[k])
    && (forall k :: k in ordered ==> whole[k] == ordered[k])
    && forall k, l :: k in taken && l in ordered ==> k < l
  }

  lemma TakeOne(data: seq<Byte>, whole: map<nat, seq<Byte>>, taken: map<nat, seq<Byte>>, ordered: map<nat, seq<Byte>>, pos: nat)
    requires Filled(data, taken, pos) && SplitUp(whole, taken, ordered)
    requires pos in ordered && (forall k :: k in ordered ==> pos <= k) && pos + |ordered[pos]| <= |data|
    ensures var content := ordered[pos];
      SplitUp(whole, taken[pos := content], ordered - {pos})
      && Filled(data[..pos] + content + data[pos + |content|..], taken[pos := content], pos + |content|)
  {
    hide InEntry;
    var content := ordered[pos];
    forall k | k in taken
      ensures k < pos
    {
      assert k + |taken[k]| <= pos;
    }
    FillOne(data, taken, pos, content);
    hide Filled;
    SplitOne(whole, taken, ordered, pos);
    hide SplitUp;
  }

  lemma SplitOne(whole: map<nat, seq<Byte>>, taken: map<nat, seq<Byte>>, ordered: map<nat, seq<Byte>>, pos: nat)
    requires SplitUp(whole, taken, ordered) && pos in ordered && forall k :: k in ordered ==> pos <= k
    ensures SplitUp(whole, taken[pos := ordered[pos]], ordered - {pos})
  {
  }

  lemma TilesOne(taken: map<nat, seq<Byte>>, pos: nat, content: seq<Byte>)
    requires TableTiles(taken, pos) && forall k :: k in taken ==> k < pos
    ensures TableTiles(taken[pos := content], pos + |content|)
  {
    hide InEntry;
    var more := taken[pos := content];
    forall p: nat | p < pos + |content|
      ensures InEntry(more, p)
    {
      StillInEntry(taken, pos, content, p);
    }
  }

  lemma FillOne(data: seq<Byte>, taken: map<nat, seq<Byte>>, pos: nat, content: seq<Byte>)
    requires Filled(data, taken, pos) && pos + |content| <= |data| && forall k :: k in taken ==> k < pos
    ensures Filled(data[..pos] + content + data[pos + |content|..], taken[pos := content], pos + |content|)
  {
    var more, now, end := taken[pos := content], data[..pos] + content + data[pos + |content|..], pos + |content|;
    TilesOne(taken, pos, content);
    hide TableTiles;
    forall k | k in more
      ensures k + |more[k]| <= end && now[k..k + |more[k]|] == more[k]
    {
      if k == pos {
        assert now[pos..end] == content;
      } else {
        assert now[k..k + |more[k]|] == data[k..k + |more[k]|];
      }
    }
  }

  lemma StillInEntry(taken: map<nat, seq<Byte>>, pos: nat, content: seq<Byte>, p: nat)
    requires pos !in taken && (InEntry(taken, p) || pos <= p < pos + |content|)
    ensures InEntry(taken[pos := content], p)
  {
    var more := taken[pos := content];
    if InEntry(taken, p) {
      var k :| k in taken && k <= p < k + |taken[k]|;
      assert k in more && more[k] == taken[k];
    } else {
      assert more[pos] == content;
    }
  }

  /** Where the next chunk does not begin at pos, or reaches too far, the chunks do not tile the array. */
  lemma NoTiling(data: seq<Byte>, whole: map<nat, seq<Byte>>, taken: map<nat, seq<Byte>>, ordered: map<nat, seq<Byte>>, pos: nat, offset: nat)
    requires Filled(data, taken, pos) && SplitUp(whole, taken, ordered)
    requires offset in ordered && forall k :: k in ordered ==> offset <= k
    requires offset != pos || offset + |ordered[offset]| > |data|
    ensures !TableTiles(whole, |data|)
  {
    var end := offset + |ordered[offset]|;
    assert offset in whole && whole[offset] == ordered[offset];
    if offset < pos {
      assert InEntry(taken, pos - 1);
      var k :| k in taken && k <= pos - 1 < k + |taken[k]|;
      assert k in whole && k < offset && whole[k] == taken[k];
    } else if offset > pos && end <= |data| {
      NotFull(data, whole, taken, ordered, pos);
    }
  }

  lemma NotFull(data: seq<Byte>, whole: map<nat, seq<Byte>>, taken: map<nat, seq<Byte>>, ordered: map<nat, seq<Byte>>, pos: nat)
    requires Filled(data, taken, pos) && SplitUp(whole, taken, ordered) && pos < |data| && forall k :: k in ordered ==> pos < k
    ensures !TableTiles(whole, |data|)
  {
    forall k | k in whole
      ensures !(k <= pos < k + |whole[k]|)
    {
      if k in taken {
        assert k + |taken[k]| <= pos;
      }
    }
    assert !InEntry(whole, pos);
  }

  /** All chunks are taken. */
  lemma AllTaken(data: seq<Byte>, whole: map<nat, seq<Byte>>, taken: map<nat, seq<Byte>>, pos: nat)
    requires Filled(data, taken, pos) && SplitUp(whole, taken, map[])
    ensures TableTiles(whole, |data|) <==> pos == |data|
    ensures forall k :: k in whole ==> k + |whole[k]| <= |data| && data[k..k + |whole[k]|] == whole[k]
  {
    assert whole == taken;
    if pos < |data| {
      NotFull(data, whole, taken, map[], pos);
    }
  }

  /**
    Reassembles one array of bytes.  It accepts exactly the chunks that tile the array and declare
    its size, in any order, and what comes out has every chunk's bytes in their place.
   */
  method Reassemble(chunks: seq<Chunk>, bytes: nat) returns (ok: bool, data: seq<Byte>)
    ensures ok <==> Complete(chunks, bytes)
    ensures ok ==> |data| == bytes && forall c :: c in chunks ==> Holds(data, c)
  {
    hide Tiles, TableTiles, Filled, SplitUp, ContentTable, DistinctOffsets;
    data := [];
    var total := if chunks == [] then 0 else chunks[0].totalBytes;
    var ordered: map<nat, seq<Byte>>;
    ok, ordered := Order(chunks);
    if !ok {
      NotDistinct(chunks, bytes);
      return;
    }
    data := seq(bytes, _ => 0);
    if bytes != total {
      return false, data;
    }
    var pos: nat := 0;
    ghost var whole := ordered;
    ghost var taken: map<nat, seq<Byte>> := map[];
    TilesByTable(chunks, whole, bytes);
    NoneTaken(data, whole);
    while ordered != map[]
      invariant |data| == bytes && Filled(data, taken, pos) && SplitUp(whole, taken, ordered)
      decreases |ordered|
    {
      var offset: nat := LeastKey(ordered);
      var content := ordered[offset];
      if offset != pos || offset + |content| > bytes {
        NoTiling(data, whole, taken, ordered, pos, offset);
        return false, data;
      }
      TakeOne(data, whole, taken, ordered, pos);
      data := data[..offset] + content + data[offset + |content|..];
      pos := pos + |content|;
      taken, ordered := taken[offset := content], ordered - {offset};
    }
    AllTaken(data, whole, taken, pos);
    AllHeld(chunks, whole, data);
    if total != pos {
      return false, data;
    }
  }

  lemma NotDistinct(chunks: seq<Chunk>, bytes: nat)
    ensures Tiles(chunks, bytes) ==> DistinctOffsets(chunks)
  {
  }

  lemma NoneTaken(data: seq<Byte>, whole: map<nat, seq<Byte>>)
    ensures Filled(data, map[], 0) && SplitUp(whole, map[], whole)
  {
  }

  lemma AllHeld(chunks: seq<Chunk>, m: map<nat, seq<Byte>>, data: seq<Byte>)
    requires ContentTable(m, chunks) && forall k :: k in m ==> k + |m[k]| <= |data| && data[k..k + |m[k]|] == m[k]
    ensures forall c :: c in chunks ==> Holds(data, c)
  {
  }

  // ---- the chunks of an array that was cut up ----

  /** The chunks cut data up, in some order. */
  ghost predicate CutsUp(chunks: seq<Chunk>, data: seq<Byte>, size: nat) {
    size > 0 && multiset(chunks) == multiset(Cut(data, size, 0))
  }

  /** They tile the array they were cut from, and hold its bytes. */
  lemma CutTiles(chunks: seq<Chunk>, d: seq<Byte>, size: nat)
    requires CutsUp(chunks, d, size)
    ensures Complete(chunks, |d|) && forall c :: c in chunks ==> Holds(d, c)
  {
    CutDistinct(chunks, d, size);
    CutTotal(chunks, d, size);
    hide DistinctOffsets, Cut;
    forall c | c in chunks
      ensures Holds(d, c)
    {
      assert c in multiset(chunks);
      var x := CutPlace(d, size, c);
    }
    forall c, e | c in chunks && e in chunks && c.offset < e.offset
      ensures c.offset + |c.content| <= e.offset
    {
      assert c in multiset(chunks) && e in multiset(chunks);
      CutApart(d, size, c, e);
    }
    forall p: nat | p < |d|
      ensures LiesInOne(chunks, p)
    {
      var c := CutCovers(d, size, 0, p);
      assert c in multiset(chunks);
    }
  }

  lemma CutApart(d: seq<Byte>, size: nat, c: Chunk, e: Chunk)
    requires size > 0 && c in multiset(Cut(d, size, 0)) && e in multiset(Cut(d, size, 0)) && c.offset < e.offset
    ensures c.offset + |c.content| <= e.offset
  {
    var x := CutPlace(d, size, c);
    var y := CutPlace(d, size, e);
    if y <= x {
      MulLe(y, x, size);
    } else {
      MulLt(x, y, size);
    }
  }

  lemma {:induction false} CutCovers(d: seq<Byte>, size: nat, offset: nat, p: nat) returns (c: Chunk)
    requires size > 0 && offset <= p < |d|
    ensures c in Cut(d, size, offset) && c.offset <= p < c.offset + |c.content|
    decreases |d| - offset
  {
    if p < offset + size {
      c := Cut(d, size, offset)[0];
    } else {
      c := CutCovers(d, size, offset + size, p);
    }
  }

  lemma {:induction false} TwiceMeansTwo<T>(s: seq<T>, x: T)
    ensures multiset(s)[x] >= 1 <==> x in s
    ensures multiset(s)[x] >= 2 ==> exists i, j :: 0 <= i < j < |s| && s[i] == x && s[j] == x
    decreases |s|
  {
    if s != [] {
      var n := |s| - 1;
      TwiceMeansTwo(s[..n], x);
      assert s == s[..n] + [s[n]];
      assert multiset(s) == multiset(s[..n]) + multiset{s[n]};
      if multiset(s)[x] >= 2 {
        if s[n] == x {
          assert x in s[..n];
          var i :| 0 <= i < n && s[..n][i] == x;
          assert s[i] == x && s[n] == x;
        } else {
          var i, j :| 0 <= i < j < n && s[..n][i] == x && s[..n][j] == x;
          assert s[i] == x && s[j] == x;
        }
      }
    }
  }

  lemma {:induction false} TwoMeansTwice<T>(s: seq<T>, i: nat, j: nat)
    requires i < j < |s| && s[i] == s[j]
    ensures multiset(s)[s[i]] >= 2
    decreases |s|
  {
    var n := |s| - 1;
    assert s == s[..n] + [s[n]];
    assert multiset(s) == multiset(s[..n]) + multiset{s[n]};
    if j == n {
      assert s[i] in s[..n];
    } else {
      TwoMeansTwice(s[..n], i, j);
    }
  }

  lemma WithinCut(d: seq<Byte>, offset: int, size: nat)
    requires size > 0 && 0 <= offset < |d|
    ensures var content := d[offset..offset + Min(size, |d| - offset)];
      content != [] && offset + |content| <= |d| && content == d[offset..offset + |content|]
      && |content| <= size && (offset + |content| < |d| ==> |content| == size)
  {
  }

  lemma OncePerCut(d: seq<Byte>, size: nat, c: Chunk)
    requires size > 0
    ensures multiset(Cut(d, size, 0))[c] <= 1
  {
    var cut := Cut(d, size, 0);
    hide Cut;
    TwiceMeansTwo(cut, c);
    if u, v :| 0 <= u < v < |cut| && cut[u] == c && cut[v] == c {
      CutAt(d, size, 0, u);
      CutAt(d, size, 0, v);
      MulLt(u, v, size);
    }
  }

  lemma CutDistinct(chunks: seq<Chunk>, d: seq<Byte>, size: nat)
    requires CutsUp(chunks, d, size)
    ensures DistinctOffsets(chunks)
  {
    var cut := Cut(d, size, 0);
    hide Cut;
    forall i, j | 0 <= i < j < |chunks|
      ensures chunks[i].offset != chunks[j].offset
    {
      assert chunks[i] in multiset(chunks) && chunks[j] in multiset(chunks);
      var x := CutPlace(d, size, chunks[i]);
      var y := CutPlace(d, size, chunks[j]);
      if chunks[i].offset == chunks[j].offset {
        MulCancel(x, y, size);
        TwoMeansTwice(chunks, i, j);
        OncePerCut(d, size, chunks[i]);
      }
    }
  }

  lemma CutTotal(chunks: seq<Chunk>, d: seq<Byte>, size: nat)
    requires CutsUp(chunks, d, size)
    ensures Declared(chunks) == |d|
  {
    var cut := Cut(d, size, 0);
    if chunks == [] {
      assert |multiset(cut)| == |cut|;
    } else {
      assert chunks[0] in multiset(cut);
      var x :| 0 <= x < |cut| && cut[x] == chunks[0];
      CutAt(d, size, 0, x);
    }
  }

  /** Where a chunk of the cut array stands. */
  lemma CutPlace(d: seq<Byte>, size: nat, c: Chunk) returns (x: nat)
    requires size > 0 && c in multiset(Cut(d, size, 0))
    ensures x < |Cut(d, size, 0)| && Cut(d, size, 0)[x] == c && c.offset == x * size
    ensures c.offset < |d| && c.content != [] && c.offset + |c.content| <= |d| && c.content == d[c.offset..c.offset + |c.content|]
    ensures |c.content| <= size && (c.offset + |c.content| < |d| ==> |c.content| == size)
  {
    hide Cut;
    x :| x < |Cut(d, size, 0)| && Cut(d, size, 0)[x] == c;
    CutAt(d, size, 0, x);
    WithinCut(d, x * size, size);
  }

  // ---- values ----

  /** A valid data type, and the visibility the storage type implies. */
  predicate GoodMeta(m: Meta) {
    m.dtype != 0 && m.visibility == m.stype.visibility
  }

  method FromReal(meta: Meta, chunks: seq<Chunk>) returns (ok: bool, v: Value)
    ensures var bytes := Numel(meta.shape) * meta.stype.elsize;
      ok <==> meta.dtype != 0 && meta.visibility == meta.stype.visibility && Complete(chunks, bytes)
    ensures ok ==> v == Value(meta.dtype, meta.shape, meta.stype, v.data, None) && v.Valid()
    ensures ok ==> forall c :: c in chunks ==> Holds(v.data, c)
  {
    hide Tiles, Holds;
    v := Value(meta.dtype, meta.shape, meta.stype, [], None);
    if meta.dtype == 0 || meta.visibility != meta.stype.visibility {
      return false, v;
    }
    var data;
    ok, data := Reassemble(chunks, v.Bytes());
    v := v.(data := data);
  }

  /** The bytes of every chunk stand in the real or the imaginary part. */
  ghost predicate Shows(p: Proto, v: Value) {
    var n := |p.chunks| / 2;
    && (v.imag.None? ==> forall c :: c in p.chunks ==> Holds(v.data, c))
    && (v.imag.Some? ==> forall c :: c in p.chunks[..n] ==> Holds(v.data, c))
    && (v.imag.Some? ==> forall c :: c in p.chunks[n..2 * n] ==> Holds(v.imag.value, c))
  }

  /** A complex value's chunks are those of the real part followed by as many of the imaginary part. */
  method FromProto(p: Proto) returns (ok: bool, v: Value)
    ensures var n, bytes := |p.chunks| / 2, Numel(p.meta.shape) * p.meta.stype.elsize;
      ok <==>
        && GoodMeta(p.meta)
        && (!p.meta.isComplex ==> Complete(p.chunks, bytes))
        && (p.meta.isComplex ==> Complete(p.chunks[..n], bytes) && Complete(p.chunks[n..2 * n], bytes))
    ensures ok ==> v == Value(p.meta.dtype, p.meta.shape, p.meta.stype, v.data, v.imag) && v.Valid() && v.imag.Some? == p.meta.isComplex
    ensures ok ==> Shows(p, v)
  {
    hide Tiles, Holds;
    if !p.meta.isComplex {
      ok, v := FromReal(p.meta, p.chunks);
      return;
    }
    var n := |p.chunks| / 2;
    var partial := p.meta.(isComplex := false);
    var rv, iv;
    ok, rv := FromReal(partial, p.chunks[..n]);
    v := rv;
    if !ok {
      return;
    }
    ok, iv := FromReal(partial, p.chunks[n..2 * n]);
    v := rv.(imag := Some(iv.data));
  }

  /** The chunks tile v's array or arrays, declare their size, and hold their bytes. */
  ghost predicate Describes(q: Proto, v: Value) {
    var n := |q.chunks| / 2;
    && (v.imag.None? ==> Complete(q.chunks, |v.data|))
    && (v.imag.Some? ==> Complete(q.chunks[..n], |v.data|) && Complete(q.chunks[n..2 * n], |v.imag.value|))
    && Shows(q, v)
  }

  /** A rearrangement of the chunks: any for a real value, within each part for a complex one. */
  ghost predicate Rearranged(p: Proto, q: Proto) {
    var n := |p.chunks| / 2;
    && q.meta == p.meta && |q.chunks| == |p.chunks|
    && (!p.meta.isComplex ==> multiset(q.chunks) == multiset(p.chunks))
    && (p.meta.isComplex ==> multiset(q.chunks[..n]) == multiset(p.chunks[..n]) && multiset(q.chunks[n..2 * n]) == multiset(p.chunks[n..2 * n]))
  }

  /** What a value is sent as, for any chunk size and any rearrangement, describes that value. */
  lemma SentComesBack(v: Value, p: Proto, q: Proto, size: nat)
    requires v.Valid() && size > 0 && v.dtype != 0 && p.meta == Meta(v.dtype, v.imag.Some?, v.stype.visibility, v.shape, v.stype)
    requires p.chunks == Cut(v.data, size, 0) + if v.imag.Some? then Cut(v.imag.value, size, 0) else []
    requires Rearranged(p, q)
    ensures q.meta == p.meta && Describes(q, v)
  {
    hide Cut, Rearranged, Complete, Holds;
    assert q.meta == p.meta by {
      SameMeta(p, q);
    }
    var n := |q.chunks| / 2;
    if v.imag.Some? {
      HalvesComeBack(v.data, v.imag.value, p, q, size);
      CutTiles(q.chunks[..n], v.data, size);
      CutTiles(q.chunks[n..2 * n], v.imag.value, size);
    } else {
      assert p.chunks == Cut(v.data, size, 0);
      WholeComesBack(v.data, p, q, size);
      CutTiles(q.chunks, v.data, size);
    }
  }

  lemma SameMeta(p: Proto, q: Proto)
    requires Rearranged(p, q)
    ensures q.meta == p.meta
  {
  }

  lemma WholeComesBack(data: seq<Byte>, p: Proto, q: Proto, size: nat)
    requires size > 0 && !p.meta.isComplex && p.chunks == Cut(data, size, 0) && Rearranged(p, q)
    ensures CutsUp(q.chunks, data, size)
  {
    hide Cut;
  }

  lemma HalvesComeBack(re: seq<Byte>, im: seq<Byte>, p: Proto, q: Proto, size: nat)
    requires size > 0 && |re| == |im| && p.meta.isComplex && p.chunks == Cut(re, size, 0) + Cut(im, size, 0) && Rearranged(p, q)
    ensures var n := |q.chunks| / 2;
      CutsUp(q.chunks[..n], re, size) && CutsUp(q.chunks[n..2 * n], im, size)
  {
    hide Cut;
    CutLength(re, size, 0);
    CutLength(im, size, 0);
    var n := |p.chunks| / 2;
    assert |Cut(re, size, 0)| == |Cut(im, size, 0)| == n;
    assert p.chunks[..n] == Cut(re, size, 0) && p.chunks[n..2 * n] == Cut(im, size, 0);
  }

  /** There is only one such value. */
  lemma DescribesOne(q: Proto, v: Value, w: Value)
    requires v.Valid() && w.Valid() && Describes(q, v) && Shows(q, w)
    requires w == Value(v.dtype, v.shape, v.stype, w.data, w.imag) && w.imag.Some? == v.imag.Some? == q.meta.isComplex
    ensures w == v
  {
    hide Tiles, Holds;
    var n := |q.chunks| / 2;
    if v.imag.Some? {
      TilesDetermine(q.chunks[..n], w.data, v.data);
      TilesDetermine(q.chunks[n..2 * n], w.imag.value, v.imag.value);
    } else {
      TilesDetermine(q.chunks, w.data, v.data);
    }
  }

  method RoundTrip(v: Value, size: nat, q: Proto) returns (p: Proto, back: Value)
    requires v.Valid() && size > 0 && v.dtype != 0 && v.stype.visibility != 0
    ensures Rearranged(p, q) ==> back == v
  {
    hide Rearranged, Shows, Complete, Cut;
    var ok;
    ok, p := ToProto(v, size);
    ok, back := FromProto(q);
    if Rearranged(p, q) {
      SentComesBack(v, p, q, size);
      assert ok;
      DescribesOne(q, v, back);
    }
  }
}
