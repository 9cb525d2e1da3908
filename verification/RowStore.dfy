/** Where row bytes live: chunks of an arena, or a spill file; and the rows the index columns describe. */
module RowStore {
  import opened Words
  import opened Rows

  /** A chunk never moves; rows are appended to it while its capacity lasts. */
  datatype Chunk = Chunk(cap: nat, data: Bytes)

  datatype Store = InMemory(chunks: seq<Chunk>) | InFile(contents: Bytes)

  /** A chunk and an offset in it; in a spill file, chunk zero and the file offset. */
  datatype Loc = Loc(chunk: nat, at: nat)

  /** chunk<<32 | offset within chunk, as the index stores it. */
  function Pack(l: Loc): nat { l.chunk * TWO32 + l.at }

  function Unpack(o: nat): Loc { Loc(o / TWO32, o % TWO32) }

  /** Offsets within chunks fit 32 bits, so packing loses nothing. */
  lemma PackRoundTrip(a: seq<Chunk>, l: Loc, n: nat)
    requires ChunkLimit(a) && Inside(InMemory(a), l, n)
    ensures Unpack(Pack(l)) == l
  {
    DivMod(l.at, TWO32, l.chunk);
  }

  predicate Inside(s: Store, l: Loc, n: nat) {
    match s
    case InMemory(chunks) => l.chunk < |chunks| && l.at + n <= |chunks[l.chunk].data|
    case InFile(contents) => l.chunk == 0 && l.at + n <= |contents|
  }

  /** The n bytes that start skip bytes after l. */
  function Fetch(s: Store, l: Loc, skip: nat, n: nat): (b: Bytes)
    requires Inside(s, l, skip + n)
    ensures |b| == n
  {
    match s
    case InMemory(chunks) => chunks[l.chunk].data[l.at + skip..l.at + skip + n]
    case InFile(contents) => contents[l.at + skip..l.at + skip + n]
  }

  /** One column per field of the index. */
  datatype Index = Index(offs: seq<Loc>, klens: seq<nat>, vlens: seq<nat>, lines: seq<int>)

  predicate Indexed(s: Store, x: Index) {
    && |x.offs| == |x.klens| == |x.vlens| == |x.lines|
    && forall i | 0 <= i < |x.offs| :: Inside(s, x.offs[i], x.klens[i] + x.vlens[i])
  }

  function RowAt(s: Store, l: Loc, klen: nat, vlen: nat): Row
    requires Inside(s, l, klen + vlen)
  {
    Row(Fetch(s, l, 0, klen), Fetch(s, l, klen, vlen))
  }

  function RowsOf(s: Store, x: Index): (rows: seq<Row>)
    requires Indexed(s, x)
    ensures |rows| == |x.offs| && forall i | 0 <= i < |rows| :: rows[i] == RowAt(s, x.offs[i], x.klens[i], x.vlens[i])
  {
    seq(|x.offs|, i requires 0 <= i < |x.offs| => RowAt(s, x.offs[i], x.klens[i], x.vlens[i]))
  }

  // -------------------------------------------------------------------- growing --

  predicate IsPrefix(a: Bytes, b: Bytes) { |a| <= |b| && b[..|a|] == a }

  /** Only the last chunk has grown, and chunks have been added. */
  predicate ChunksGrown(a: seq<Chunk>, b: seq<Chunk>) {
    && |a| <= |b|
    && (forall c | 0 <= c < |a| - 1 :: b[c] == a[c])
    && (|a| > 0 ==> b[|a| - 1].cap == a[|a| - 1].cap && IsPrefix(a[|a| - 1].data, b[|a| - 1].data))
  }

  predicate Grown(s: Store, t: Store) {
    match s
    case InMemory(a) => t.InMemory? && ChunksGrown(a, t.chunks)
    case InFile(a) => t.InFile? && IsPrefix(a, t.contents)
  }

  predicate IndexGrown(x: Index, y: Index) {
    && |x.offs| <= |y.offs| && |x.offs| == |x.klens| == |x.vlens| == |x.lines| && |y.offs| == |y.klens| == |y.vlens| == |y.lines|
    && y.offs[..|x.offs|] == x.offs && y.klens[..|x.offs|] == x.klens && y.vlens[..|x.offs|] == x.vlens && y.lines[..|x.offs|] == x.lines
  }

  /** Growth moves nothing. */
  lemma FetchKept(s: Store, t: Store, l: Loc, skip: nat, n: nat)
    requires Grown(s, t) && Inside(s, l, skip + n)
    ensures Inside(t, l, skip + n) && Fetch(t, l, skip, n) == Fetch(s, l, skip, n)
  {
    match s {
      case InMemory(a) =>
        if l.chunk == |a| - 1 {
          PrefixSlice(a[l.chunk].data, t.chunks[l.chunk].data, l.at + skip, l.at + skip + n);
        }
      case InFile(a) =>
        PrefixSlice(a, t.contents, l.at + skip, l.at + skip + n);
    }
  }

  lemma PrefixSlice(a: Bytes, b: Bytes, i: nat, j: nat)
    requires IsPrefix(a, b) && i <= j <= |a|
    ensures b[i..j] == a[i..j]
  {
    assert b[..|a|][i..j] == b[i..j];
  }

  lemma RowKept(s: Store, t: Store, l: Loc, klen: nat, vlen: nat)
    requires Grown(s, t) && Inside(s, l, klen + vlen)
    ensures Inside(t, l, klen + vlen) && RowAt(t, l, klen, vlen) == RowAt(s, l, klen, vlen)
  {
    FetchKept(s, t, l, 0, klen);
    FetchKept(s, t, l, klen, vlen);
  }

  lemma {:induction false} GrownTransitive(s: Store, t: Store, u: Store)
    requires Grown(s, t) && Grown(t, u)
    ensures Grown(s, u)
  {
    match s {
      case InMemory(a) =>
        if |a| > 0 {
          var k := |a| - 1;
          if k < |t.chunks| - 1 {
            assert u.chunks[k] == t.chunks[k];
          } else {
            PrefixTransitive(a[k].data, t.chunks[k].data, u.chunks[k].data);
          }
        }
      case InFile(a) =>
        PrefixTransitive(a, t.contents, u.contents);
    }
  }

  lemma PrefixTransitive(a: Bytes, b: Bytes, c: Bytes)
    requires IsPrefix(a, b) && IsPrefix(b, c)
    ensures IsPrefix(a, c)
  {
    assert c[..|a|] == c[..|b|][..|a|];
  }

  lemma IndexGrownTransitive(x: Index, y: Index, z: Index)
    requires IndexGrown(x, y) && IndexGrown(y, z)
    ensures IndexGrown(x, z)
  {
    var n := |x.offs|;
    assert z.offs[..|y.offs|][..n] == z.offs[..n] && z.klens[..|y.offs|][..n] == z.klens[..n];
    assert z.vlens[..|y.offs|][..n] == z.vlens[..n] && z.lines[..|y.offs|][..n] == z.lines[..n];
  }

  /** The rows of an earlier state are the first rows of a later one. */
  lemma RowsKept(s: Store, x: Index, t: Store, y: Index)
    requires Indexed(s, x) && Indexed(t, y) && Grown(s, t) && IndexGrown(x, y)
    ensures |x.offs| <= |RowsOf(t, y)| && RowsOf(t, y)[..|x.offs|] == RowsOf(s, x)
  {
    var a, b := RowsOf(s, x), RowsOf(t, y);
    forall i | 0 <= i < |a|
      ensures b[i] == a[i]
    {
      assert x.offs[i] == y.offs[..|x.offs|][i] && x.klens[i] == y.klens[..|x.offs|][i] && x.vlens[i] == y.vlens[..|x.offs|][i];
      RowKept(s, t, x.offs[i], x.klens[i], x.vlens[i]);
    }
  }

  // ------------------------------------------------------------------ appending --

  function Pushed(x: Index, l: Loc, klen: nat, vlen: nat, line: int): Index {
    Index(x.offs + [l], x.klens + [klen], x.vlens + [vlen], x.lines + [line])
  }

  lemma PushedGrown(x: Index, l: Loc, klen: nat, vlen: nat, line: int)
    requires |x.offs| == |x.klens| == |x.vlens| == |x.lines|
    ensures IndexGrown(x, Pushed(x, l, klen, vlen, line))
  {
  }

  /** An appended row is the last row; the others are untouched. */
  lemma RowsPushed(s: Store, x: Index, t: Store, l: Loc, row: Row, line: int)
    requires Indexed(s, x) && Grown(s, t) && Inside(t, l, |row.key| + |row.value|) && RowAt(t, l, |row.key|, |row.value|) == row
    ensures Indexed(t, Pushed(x, l, |row.key|, |row.value|, line))
    ensures RowsOf(t, Pushed(x, l, |row.key|, |row.value|, line)) == RowsOf(s, x) + [row]
  {
    forall i | 0 <= i < |x.offs|
      ensures Inside(t, x.offs[i], x.klens[i] + x.vlens[i])
      ensures RowAt(t, x.offs[i], x.klens[i], x.vlens[i]) == RowAt(s, x.offs[i], x.klens[i], x.vlens[i])
    {
      RowKept(s, t, x.offs[i], x.klens[i], x.vlens[i]);
    }
  }

  /** key and value appended to the last chunk. */
  lemma ChunkAppend(a: seq<Chunk>, key: Bytes, value: Bytes)
    requires |a| > 0
    ensures var b, o := Filled(a, key + value), NextLoc(a);
      Grown(InMemory(a), InMemory(b)) && Inside(InMemory(b), o, |key| + |value|) && RowAt(InMemory(b), o, |key|, |value|) == Row(key, value)
  {
    var k := |a| - 1;
    var c := a[k];
    var d := c.data + (key + value);
    assert d[..|c.data|] == c.data && d[|c.data|..|c.data| + |key|] == key && d[|c.data| + |key|..|c.data| + |key| + |value|] == value;
  }

  predicate ChunkLimit(chunks: seq<Chunk>) {
    forall c | 0 <= c < |chunks| :: |chunks[c].data| <= chunks[c].cap < TWO32
  }

  const ARENA_CHUNK := 0x400_0000

  /** A chunk with room for need more bytes, added if the last one has none. */
  function WithRoom(a: seq<Chunk>, need: nat): (b: seq<Chunk>)
    ensures |b| > 0
  {
    if |a| == 0 || a[|a| - 1].cap - |a[|a| - 1].data| < need then
      a + [Chunk(if need > ARENA_CHUNK then need else ARENA_CHUNK, [])]
    else a
  }

  function Filled(b: seq<Chunk>, bytes: Bytes): seq<Chunk>
    requires |b| > 0
  {
    b[|b| - 1 := Chunk(b[|b| - 1].cap, b[|b| - 1].data + bytes)]
  }

  lemma RoomGrown(a: seq<Chunk>, need: nat)
    requires ChunkLimit(a) && need < TWO32
    ensures ChunkLimit(WithRoom(a, need)) && Grown(InMemory(a), InMemory(WithRoom(a, need)))
    ensures var b := WithRoom(a, need); |b[|b| - 1].data| + need <= b[|b| - 1].cap
  {
  }

  lemma FilledLimit(b: seq<Chunk>, bytes: Bytes)
    requires ChunkLimit(b) && |b| > 0 && |b[|b| - 1].data| + |bytes| <= b[|b| - 1].cap
    ensures ChunkLimit(Filled(b, bytes))
  {
  }

  /** Where the next row goes. */
  function NextLoc(b: seq<Chunk>): Loc
    requires |b| > 0
  {
    Loc(|b| - 1, |b[|b| - 1].data|)
  }

  /** A row appended to the arena is there, and nothing has moved. */
  lemma ArenaAppend(a: seq<Chunk>, b: seq<Chunk>, key: Bytes, value: Bytes)
    requires ChunkLimit(a) && |key| + |value| < TWO32 && b == WithRoom(a, |key| + |value|)
    ensures ChunkLimit(Filled(b, key + value)) && Grown(InMemory(a), InMemory(Filled(b, key + value)))
    ensures var c, o := InMemory(Filled(b, key + value)), NextLoc(b); Inside(c, o, |key| + |value|) && RowAt(c, o, |key|, |value|) == Row(key, value)
  {
    RoomGrown(a, |key| + |value|);
    FilledLimit(b, key + value);
    ChunkAppend(b, key, value);
    GrownTransitive(InMemory(a), InMemory(b), InMemory(Filled(b, key + value)));
  }

  lemma FileAppend(a: Bytes, key: Bytes, value: Bytes)
    ensures var b := a + (key + value);
      Grown(InFile(a), InFile(b)) && Inside(InFile(b), Loc(0, |a|), |key| + |value|) && RowAt(InFile(b), Loc(0, |a|), |key|, |value|) == Row(key, value)
  {
    var b := a + (key + value);
    assert b[|a|..|a| + |key|] == key && b[|a| + |key|..|a| + |key| + |value|] == value;
  }

  // ---------------------------------------------------------------- rolling back --

  /** The chunks cut back to what a mark remembers. */
  function CutChunks(b: seq<Chunk>, count: nat, lastLen: nat): seq<Chunk>
    requires count <= |b| && (count > 0 ==> lastLen <= |b[count - 1].data|)
  {
    if count == 0 then [] else b[..count - 1] + [Chunk(b[count - 1].cap, b[count - 1].data[..lastLen])]
  }

  /** Cutting back undoes growth. */
  lemma CutUndoes(a: seq<Chunk>, b: seq<Chunk>)
    requires ChunksGrown(a, b)
    ensures var lastLen := if |a| > 0 then |a[|a| - 1].data| else 0;
      (|a| > 0 ==> lastLen <= |b[|a| - 1].data|) && CutChunks(b, |a|, lastLen) == a
  {
  }

  // ---------------------------------------------------------------- consistency --

  /** The rows agree with the derived columns. */
  ghost predicate Agree(hash: Hash, rows: seq<Row>, hashes: seq<nat>, dataBytes: nat) {
    && |hashes| <= |rows| && AllStorable(rows) && dataBytes == RowBytes(rows)
    && forall i | 0 <= i < |hashes| :: hashes[i] == hash(rows[i].key)
  }

  ghost predicate Consistent(hash: Hash, s: Store, x: Index, hashes: seq<nat>, dataBytes: nat) {
    Indexed(s, x) && Agree(hash, RowsOf(s, x), hashes, dataBytes)
  }

  lemma AgreePush(hash: Hash, rows: seq<Row>, row: Row, hashes: seq<nat>, dataBytes: nat)
    requires Agree(hash, rows, hashes, dataBytes) && Storable(row)
    ensures Agree(hash, rows + [row], hashes, dataBytes + 2 + |row.key| + |row.value|)
  {
    assert (rows + [row])[..|rows|] == rows;
  }

  lemma ConsistentPush(hash: Hash, s: Store, x: Index, t: Store, l: Loc, row: Row, line: int, hashes: seq<nat>, dataBytes: nat)
    requires Consistent(hash, s, x, hashes, dataBytes) && Storable(row)
    requires Grown(s, t) && Inside(t, l, |row.key| + |row.value|) && RowAt(t, l, |row.key|, |row.value|) == row
    ensures var y := Pushed(x, l, |row.key|, |row.value|, line);
      && Consistent(hash, t, y, hashes, dataBytes + 2 + |row.key| + |row.value|)
      && RowsOf(t, y) == RowsOf(s, x) + [row]
  {
    RowsPushed(s, x, t, l, row, line);
    AgreePush(hash, RowsOf(s, x), row, hashes, dataBytes);
  }

  lemma AgreeHash(hash: Hash, rows: seq<Row>, hashes: seq<nat>, dataBytes: nat)
    requires Agree(hash, rows, hashes, dataBytes) && |hashes| < |rows|
    ensures Agree(hash, rows, hashes + [hash(rows[|hashes|].key)], dataBytes)
  {
  }

  lemma AgreeCut(hash: Hash, rows: seq<Row>, n: nat, hashes: seq<nat>, dataBytes: nat)
    requires Agree(hash, rows, hashes, dataBytes) && n <= |rows|
    ensures Agree(hash, rows[..n], if |hashes| > n then hashes[..n] else hashes, RowBytes(rows[..n]))
  {
  }

  lemma ConsistentCut(hash: Hash, s: Store, x: Index, t: Store, y: Index, hashes: seq<nat>, dataBytes: nat)
    requires Consistent(hash, t, y, hashes, dataBytes) && Indexed(s, x) && Grown(s, t) && IndexGrown(x, y)
    ensures Consistent(hash, s, x, if |hashes| > |x.offs| then hashes[..|x.offs|] else hashes, RowBytes(RowsOf(s, x)))
  {
    RowsKept(s, x, t, y);
    AgreeCut(hash, RowsOf(t, y), |x.offs|, hashes, dataBytes);
  }
}
