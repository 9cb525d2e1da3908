/** The Builder: rows appended to an arena or a spill file, marks, rollback, and BuildFrom. */
module BuilderState {
  import opened Words
  import opened Rows
  import opened RowStore
  import opened Spill

  const MAX_LINE := 0xFFFF_FFFF

  /** Lines out of range are recorded as unknown. */
  function KeptLine(line: int): (r: int)
    ensures 0 <= line < 0x1_0000_0000 ==> r == line
  {
    if line < 0 || line > MAX_LINE then 0 else line
  }

  /** What a mark remembers. */
  datatype Mark = Mark(rows: nat, chunks: nat, lastLen: nat, dataBytes: nat, spillSize: nat)

  class Builder {
    const hash: Hash
    const spill: SpillStore?
    var chunks: seq<Chunk>
    var index: Index
    var hashes: seq<nat>
    var dataBytes: nat
    var checked: nat

    ghost function Region(): Store
      reads this`chunks, spill
    {
      if spill == null then InMemory(chunks) else InFile(spill.Contents())
    }

    ghost predicate Valid()
      reads this, spill
    {
      && Consistent(hash, Region(), index, hashes, dataBytes) && checked <= |index.offs|
      && (spill != null ==> spill.Valid() && chunks == []) && ChunkLimit(chunks)
    }

    /** The rows added so far. */
    ghost function Contents(): (rows: seq<Row>)
      reads this, spill
      requires Valid()
      ensures |rows| == |index.offs|
    {
      RowsOf(Region(), index)
    }

    constructor (hash: Hash, spill: SpillStore?)
      requires spill != null ==> spill.Valid() && spill.Contents() == []
      ensures Valid() && Contents() == [] && checked == 0 && this.spill == spill && this.hash == hash
    {
      this.hash, this.spill := hash, spill;
      chunks, index, hashes, dataBytes, checked := [], Index([], [], [], []), [], 0, 0;
    }

    // ----------------------------------------------------------------- rows --

    /** The arena's half of appendRow. */
    method ToArena(key: Bytes, value: Bytes) returns (l: Loc)
      requires |key| + |value| < TWO32
      modifies this`chunks
      ensures var b := WithRoom(old(chunks), |key| + |value|);
        chunks == Filled(b, key + value) && l == NextLoc(b)
    {
      var need := |key| + |value|;
      if |chunks| == 0 || chunks[|chunks| - 1].cap - |chunks[|chunks| - 1].data| < need {
        var size := ARENA_CHUNK;
        if need > size {
          size := need;
        }
        chunks := chunks + [Chunk(size, [])];
      }
      var ci := |chunks| - 1;
      var c := chunks[ci];
      l := Loc(ci, |c.data|);
      chunks := chunks[ci := Chunk(c.cap, c.data + (key + value))];
    }

    /** Where the row goes: the spill file or the arena. */
    method Place(key: Bytes, value: Bytes, passed: nat) returns (l: Loc)
      requires Valid() && Storable(Row(key, value))
      modifies this`chunks, spill
      ensures (spill != null ==> spill.Valid() && chunks == []) && ChunkLimit(chunks) && Grown(old(Region()), Region())
      ensures Inside(Region(), l, |key| + |value|) && RowAt(Region(), l, |key|, |value|) == Row(key, value)
    {
      if spill != null {
        FileAppend(spill.Contents(), key, value);
        var off := spill.Append(key, value, passed);
        l := Loc(0, off);
      } else {
        ArenaAppend(chunks, WithRoom(chunks, |key| + |value|), key, value);
        l := ToArena(key, value);
      }
    }

    /** The index entry of a row that has been placed. */
    method Enter(l: Loc, ghost row: Row, klen: nat, vlen: nat, line: int, ghost was: Store, ghost rows: seq<Row>)
      requires Consistent(hash, was, index, hashes, dataBytes) && rows == RowsOf(was, index) && checked <= |index.offs|
      requires (spill != null ==> spill.Valid() && chunks == []) && ChunkLimit(chunks) && Grown(was, Region())
      requires Storable(row) && klen == |row.key| && vlen == |row.value|
      requires Inside(Region(), l, klen + vlen) && RowAt(Region(), l, klen, vlen) == row
      modifies this`index, this`dataBytes
      ensures Valid() && Contents() == rows + [row]
      ensures index == Pushed(old(index), l, klen, vlen, line)
    {
      ghost var region := Region();
      ConsistentPush(hash, was, index, region, l, row, line, hashes, dataBytes);
      index := Pushed(index, l, klen, vlen, line);
      dataBytes := dataBytes + 2 + klen + vlen;
      assert Region() == region;
    }

    /** appendRow */
    method AppendRow(key: Bytes, value: Bytes, line: int, passed: nat)
      requires Valid() && Storable(Row(key, value))
      modifies this, spill
      ensures Valid() && Contents() == old(Contents()) + [Row(key, value)]
      ensures Grown(old(Region()), Region()) && IndexGrown(old(index), index)
      ensures index.lines == old(index.lines) + [KeptLine(line)]
      ensures checked == old(checked) && hashes == old(hashes)
    {
      ghost var was, rows, x := Region(), Contents(), index;
      var l := Place(key, value, passed);
      var kept := KeptLine(line);
      Enter(l, Row(key, value), |key|, |value|, kept, was, rows);
      PushedGrown(x, l, |key|, |value|, kept);
    }

    /** Stored bytes; reading a spilled row may refresh the mapping. */
    method Read(l: Loc, skip: nat, n: nat) returns (b: Bytes)
      requires (spill != null ==> spill.Valid()) && Inside(Region(), l, skip + n)
      modifies spill
      ensures (spill != null ==> spill.Valid()) && Region() == old(Region()) && b == Fetch(Region(), l, skip, n)
    {
      if spill != null {
        b := spill.View(l.at + skip, n);
      } else {
        b := chunks[l.chunk].data[l.at + skip..l.at + skip + n];
      }
    }

    /** rowKey */
    method RowKey(i: nat) returns (key: Bytes)
      requires Valid() && i < |index.offs|
      modifies spill
      ensures Valid() && Region() == old(Region()) && key == Contents()[i].key
    {
      key := Read(index.offs[i], 0, index.klens[i]);
    }

    /** rowValue */
    method RowValue(i: nat) returns (value: Bytes)
      requires Valid() && i < |index.offs|
      modifies spill
      ensures Valid() && Region() == old(Region()) && value == Contents()[i].value
    {
      value := Read(index.offs[i], index.klens[i], index.vlens[i]);
    }

    /** One more hash of the column that ensureHashes completes. */
    method PushHash(key: Bytes)
      requires Valid() && |hashes| < |index.offs| && key == Contents()[|hashes|].key
      modifies this`hashes
      ensures Valid() && hashes == old(hashes) + [hash(key)]
    {
      AgreeHash(hash, Contents(), hashes, dataBytes);
      hashes := hashes + [hash(key)];
    }

    /** All rows are taken as checked for duplicates. */
    method SetChecked()
      requires Valid()
      modifies this`checked
      ensures Valid() && checked == |index.offs|
    {
      checked := |index.offs|;
    }

    // -------------------------------------------------------- mark and rollback --

    /** The state has grown from (s, x) since m was taken there. */
    ghost predicate Since(m: Mark, s: Store, x: Index)
      reads this, spill
    {
      && Indexed(s, x) && Grown(s, Region()) && IndexGrown(x, index) && m.rows == |x.offs|
      && AllStorable(RowsOf(s, x)) && m.dataBytes == RowBytes(RowsOf(s, x))
      && match s
         case InMemory(a) => spill == null && ChunkLimit(a) && m.chunks == |a| && m.lastLen == if |a| > 0 then |a[|a| - 1].data| else 0
         case InFile(c) => spill != null && m.chunks == 0 && m.lastLen == 0 && m.spillSize == |c|
    }

    method TakeMark() returns (m: Mark)
      requires Valid()
      ensures Since(m, Region(), index)
    {
      m := Mark(|index.offs|, |chunks|, if |chunks| > 0 then |chunks[|chunks| - 1].data| else 0, dataBytes,
        if spill != null then spill.size else 0);
    }

    /** Appending keeps every mark usable. */
    method AppendSince(row: Row, line: int, passed: nat, m: Mark, ghost s: Store, ghost x: Index)
      requires Valid() && Storable(row) && Since(m, s, x)
      modifies this, spill
      ensures Valid() && Since(m, s, x) && Contents() == old(Contents()) + [row]
      ensures index.lines == old(index.lines) + [KeptLine(line)] && checked == old(checked)
    {
      ghost var t, y := Region(), index;
      AppendRow(row.key, row.value, line, passed);
      GrownTransitive(s, t, Region());
      IndexGrownTransitive(x, y, index);
    }

    /** The arena's or the file's half of rollback. */
    method CutBack(m: Mark, ghost s: Store, ghost x: Index)
      requires Valid() && Since(m, s, x)
      modifies this`chunks, spill
      ensures Region() == s && (spill != null ==> spill.Valid() && chunks == []) && ChunkLimit(chunks)
    {
      if spill == null {
        CutUndoes(s.chunks, chunks);
        chunks := CutChunks(chunks, m.chunks, m.lastLen);
      } else {
        spill.Truncate(m.spillSize);
      }
    }

    /** The index's half of rollback. */
    method CutIndex(m: Mark, ghost x: Index)
      requires IndexGrown(x, index) && m.rows == |x.offs|
      modifies this`index, this`hashes, this`dataBytes, this`checked
      ensures index == x && dataBytes == m.dataBytes && checked == if old(checked) > m.rows then m.rows else old(checked)
      ensures hashes == if |old(hashes)| > m.rows then old(hashes)[..m.rows] else old(hashes)
    {
      index := Index(index.offs[..m.rows], index.klens[..m.rows], index.vlens[..m.rows], index.lines[..m.rows]);
      if |hashes| > m.rows {
        hashes := hashes[..m.rows];
      }
      dataBytes := m.dataBytes;
      if checked > m.rows {
        checked := m.rows;
      }
    }

    /** rollback: exactly the rows of the mark are left. */
    method Rollback(m: Mark, ghost s: Store, ghost x: Index)
      requires Valid() && Since(m, s, x)
      modifies this, spill
      ensures Valid() && Region() == s && index == x
      ensures checked == if old(checked) > m.rows then m.rows else old(checked)
    {
      ConsistentCut(hash, s, x, Region(), index, hashes, dataBytes);
      CutBack(m, s, x);
      CutIndex(m, x);
    }
  }
}
