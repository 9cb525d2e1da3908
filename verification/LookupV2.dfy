/** Lookups in version 2 files agree with the plain map of rows. */
module LookupV2 {
  import opened Words
  import opened Rows
  import opened Blocks
  import opened PtHash
  import opened FileV2
  import opened ReadV2

  // ------------------------------------------------------------------- content --

  /** What the files depend on besides the rows: hashes, checksum, and the sizing computed in floating point. */
  datatype Env = Env(hash: Hash, mixer: Mixer, fp: Fingerprint, crc: Crc, sizing: nat -> Sizing)

  /** A row as it is stored: fingerprint and value, or a full record. */
  function StoredRow(r: Row, fpW: nat, fp: Fingerprint): (e: Bytes)
    requires fpW <= 8
    ensures |e| == (if fpW != 0 then fpW else 2 + |r.key|) + |r.value|
  {
    if fpW != 0 then fp(r.key)[..fpW] + r.value else Record(r)
  }

  function StoredRows(content: seq<Row>, fpW: nat, fp: Fingerprint): (recs: seq<Bytes>)
    requires fpW <= 8
    ensures |recs| == |content| && forall i | 0 <= i < |recs| :: recs[i] == StoredRow(content[i], fpW, fp)
  {
    seq(|content|, i requires 0 <= i < |content| => StoredRow(content[i], fpW, fp))
  }

  /** Where block b starts and ends, in slots. */
  function ChunkStart(shift: nat, b: nat): nat { b * Pow2(shift) }

  function ChunkEnd(n: nat, shift: nat, b: nat): (e: nat)
    ensures e <= n
  {
    if ChunkStart(shift, b) + Pow2(shift) < n then ChunkStart(shift, b) + Pow2(shift) else n
  }

  /** The records of block b: those of up to 2^shift consecutive slots. */
  function Chunk(recs: seq<Bytes>, b: nat, shift: nat): (c: seq<Bytes>)
    requires ChunkStart(shift, b) <= |recs|
    ensures |c| <= Pow2(shift)
  {
    recs[ChunkStart(shift, b)..ChunkEnd(|recs|, shift, b)]
  }

  lemma RoundDown(n: nat, per: nat, b: nat, q: nat, r: nat)
    requires n + per - 1 == q * per + r && per > 0 && b < q
    ensures 0 <= b * per < n
  {
    MulMonotone(per, b + 1, q);
    assert per * (b + 1) == b * per + per;
  }

  lemma BlockInside(n: nat, shift: nat, b: nat)
    requires b < UnitCount(n, true, shift)
    ensures ChunkStart(shift, b) < n
  {
    var t := n + Pow2(shift) - 1;
    SplitBits(t, shift);
    RoundDown(n, Pow2(shift), b, HighBits(t, shift), LowBits(t, shift));
  }

  function BlockUnit(recs: seq<Bytes>, shift: nat, b: nat): (u: Bytes)
    requires b < UnitCount(|recs|, true, shift)
    ensures |u| >= 2
  {
    BlockInside(|recs|, shift, b);
    Block(Raw(Chunk(recs, b, shift)))
  }

  /** What the blob is made of. */
  function UnitsOf(recs: seq<Bytes>, o: Format): (units: seq<Bytes>)
    ensures |units| == UnitCount(|recs|, o.lz4, o.shift)
    ensures !o.lz4 ==> units == recs
    ensures o.lz4 ==> forall b | 0 <= b < |units| :: units[b] == BlockUnit(recs, o.shift, b)
  {
    if o.lz4 then
      seq(UnitCount(|recs|, true, o.shift), b requires 0 <= b < UnitCount(|recs|, true, o.shift) => BlockUnit(recs, o.shift, b))
    else recs
  }

  /** Each row sits in the slot of its hash. */
  ghost predicate InSlot(t: Table, content: seq<Row>, r: Row, hash: Hash, mixer: Mixer)
    requires PtHash.Readable(t)
  {
    var s := Slot(t, hash(r.key), mixer);
    s < |content| && content[s] == r
  }

  ghost predicate IsContent(t: Table, content: seq<Row>, rows: seq<Row>, hash: Hash, mixer: Mixer) {
    && PtHash.Readable(t) && |content| == |rows| == t.n
    && (forall i {:trigger InSlot(t, content, rows[i], hash, mixer)} | 0 <= i < |rows| :: InSlot(t, content, rows[i], hash, mixer))
    && (forall s | 0 <= s < |content| :: content[s] in rows)
  }

  // -------------------------------------------------------------------- blocks --

  lemma InChunk(recs: seq<Bytes>, slot: nat, shift: nat)
    requires slot < |recs|
    ensures var b, k := HighBits(slot, shift), LowBits(slot, shift);
      ChunkStart(shift, b) <= |recs| && k < |Chunk(recs, b, shift)| && Chunk(recs, b, shift)[k] == recs[slot]
  {
    SplitBits(slot, shift);
  }

  /** The raw bytes of a slot's block. */
  function RawOf(recs: seq<Bytes>, shift: nat, slot: nat): Bytes
    requires slot < |recs|
  {
    InChunk(recs, slot, shift);
    Raw(Chunk(recs, HighBits(slot, shift), shift))
  }

  lemma BlockRecordOf(m: Mapping, b: nat, k: nat, chunk: seq<Bytes>)
    requires OffsetsInside(m) && b < Units(m) && k < |chunk|
    requires BlockBytes(m, b) == Some(Block(Raw(chunk))) && |Raw(chunk)| < TWO64 && forall i | 0 <= i < |chunk| :: |chunk[i]| < TWO64
    ensures BlockRecord(m, b, k) == if |Raw(chunk)| <= MAX_RAW then Fetched(chunk[k]) else Damaged
  {
    BlockRoundTrip(Raw(chunk));
    NthOfRaw(chunk, k);
  }

  lemma ChunkBounded(recs: seq<Bytes>, b: nat, shift: nat, limit: nat)
    requires ChunkStart(shift, b) <= |recs| && forall i | 0 <= i < |recs| :: |recs[i]| <= limit
    ensures forall i | 0 <= i < |Chunk(recs, b, shift)| :: |Chunk(recs, b, shift)[i]| <= limit
  {
  }

  /** A record of a block reads back exactly when the block's content has at most 2^28 bytes. */
  lemma BlockRecordRead(m: Mapping, recs: seq<Bytes>, shift: nat, slot: nat, b: nat, k: nat)
    requires slot < |recs| && |RawOf(recs, shift, slot)| < TWO64 && b == HighBits(slot, shift) && k == LowBits(slot, shift)
    requires forall i | 0 <= i < |recs| :: |recs[i]| < TWO64
    requires b < UnitCount(|recs|, true, shift) && UnitIn(m, b, BlockUnit(recs, shift, b))
    ensures BlockRecord(m, b, k) == if |RawOf(recs, shift, slot)| <= MAX_RAW then Fetched(recs[slot]) else Damaged
  {
    InChunk(recs, slot, shift);
    ChunkBounded(recs, b, shift, TWO64 - 1);
    BlockRead(m, b, BlockUnit(recs, shift, b));
    BlockRecordOf(m, b, k, Chunk(recs, b, shift));
  }

  // ------------------------------------------------------------------- lookups --

  /** The block of the slot is too large for the reader. */
  predicate TooLarge(recs: seq<Bytes>, o: Format, slot: nat)
    requires slot < |recs|
  {
    o.lz4 && |RawOf(recs, o.shift, slot)| > MAX_RAW
  }

  ghost predicate Sane(recs: seq<Bytes>, o: Format) {
    && (forall i | 0 <= i < |recs| :: 0 < |recs[i]| < TWO64)
    && (forall s | 0 <= s < |recs| :: |RawOf(recs, o.shift, s)| < TWO64)
  }

  /** Every unit of the records lies where the offsets of m say. */
  ghost predicate Backed(m: Mapping, o: Format, recs: seq<Bytes>) {
    && m.compressed == o.lz4 && m.shift == (if o.lz4 then o.shift else 0) && m.t.n == |recs| && PtHash.Readable(m.t)
    && OffsetsInside(m) && (m.lean ==> m.fpW == 4 || m.fpW == 8)
    && forall b: nat | b < |UnitsOf(recs, o)| :: UnitIn(m, b, UnitsOf(recs, o)[b])
  }

  lemma MappedBacked(m: Mapping, t: Table, o: Format, recs: seq<Bytes>, crc: Crc)
    requires MappedTo(m, t, o, UnitsOf(recs, o), crc) && |recs| == t.n
    ensures Backed(m, o, recs)
  {
    var units := UnitsOf(recs, o);
    MappedSections(m, t, o, units, crc);
    forall b: nat | b < |units|
      ensures UnitIn(m, b, units[b])
    {
      UnitAt(m, t, o, units, crc, b);
    }
  }

  lemma BackedBlock(m: Mapping, o: Format, recs: seq<Bytes>, b: nat)
    requires Backed(m, o, recs) && o.lz4 && b < UnitCount(|recs|, true, o.shift)
    ensures UnitIn(m, b, BlockUnit(recs, o.shift, b))
  {
    assert UnitIn(m, b, UnitsOf(recs, o)[b]);
  }

  lemma SaneSlot(recs: seq<Bytes>, o: Format, slot: nat)
    requires Sane(recs, o) && slot < |recs|
    ensures |RawOf(recs, o.shift, slot)| < TWO64 && forall i | 0 <= i < |recs| :: |recs[i]| < TWO64
  {
  }

  /** Fetching a slot's record from its block. */
  lemma SlotReadLz4(m: Mapping, o: Format, recs: seq<Bytes>, slot: nat, b: nat, k: nat)
    requires Backed(m, o, recs) && Sane(recs, o) && o.lz4 && slot < |recs|
    requires b == HighBits(slot, o.shift) && k == LowBits(slot, o.shift) && b < UnitCount(|recs|, true, o.shift)
    ensures b < Units(m) && BlockRecord(m, b, k) == if TooLarge(recs, o, slot) then Damaged else Fetched(recs[slot])
  {
    BackedBlock(m, o, recs, b);
    SaneSlot(recs, o, slot);
    BlockRecordRead(m, recs, o.shift, slot, b, k);
  }

  lemma SlotReadPlain(m: Mapping, o: Format, recs: seq<Bytes>, slot: nat)
    requires Backed(m, o, recs) && Sane(recs, o) && !o.lz4 && slot < |recs|
    ensures slot < Units(m) && PlainRecord(m, slot) == Fetched(recs[slot])
  {
    assert UnitIn(m, slot, UnitsOf(recs, o)[slot]);
    PlainRead(m, slot, recs[slot]);
  }

  /** Fetching a slot's record from a written file. */
  lemma FetchOf(m: Mapping, o: Format, recs: seq<Bytes>, slot: nat)
    requires Backed(m, o, recs) && Sane(recs, o) && slot < |recs|
    ensures Fetch(m, slot) == if TooLarge(recs, o, slot) then Damaged else Fetched(recs[slot])
  {
    if o.lz4 {
      BlockOfSlot(slot, |recs|, o.shift);
      SlotReadLz4(m, o, recs, slot, HighBits(slot, o.shift), LowBits(slot, o.shift));
    } else {
      SlotReadPlain(m, o, recs, slot);
    }
  }

  /** What a lookup answers, in terms of the slot of the key. */
  lemma EntryOf(m: Mapping, o: Format, recs: seq<Bytes>, h: nat, key: Bytes, mixer: Mixer, fp: Fingerprint)
    requires Backed(m, o, recs) && Sane(recs, o)
    ensures FileV2.Readable(m)
    ensures var slot := Slot(m.t, h, mixer);
      Entry(m, h, key, mixer, fp)
        == if slot >= |recs| then NotFound else if TooLarge(recs, o, slot) then Corrupted else MatchStored(m, recs[slot], key, fp)
  {
    var slot := Slot(m.t, h, mixer);
    if slot < |recs| {
      FetchOf(m, o, recs, slot);
    }
  }

  lemma StoredMatches(m: Mapping, r: Row, o: Format, key: Bytes, fp: Fingerprint)
    requires ValidFormat(o) && m.lean == (o.fpW != 0) && m.fpW == o.fpW && Rows.Storable(r)
    ensures key == r.key ==> MatchStored(m, StoredRow(r, o.fpW, fp), key, fp) == Found(r.value)
    ensures key != r.key && o.fpW == 0 ==> MatchStored(m, StoredRow(r, o.fpW, fp), key, fp) == NotFound
  {
    if o.fpW == 0 {
      RecordMatches(r, key);
    } else {
      var e := StoredRow(r, o.fpW, fp);
      assert e[..o.fpW] == fp(r.key)[..o.fpW] && e[o.fpW..] == r.value;
    }
  }

  /** The file m is mapped from holds the rows. */
  ghost predicate Holds(m: Mapping, o: Format, content: seq<Row>, rows: seq<Row>, env: Env) {
    && ValidFormat(o) && IsContent(m.t, content, rows, env.hash, env.mixer) && AllStorable(rows) && DistinctKeys(rows)
    && m.lean == (o.fpW != 0) && m.fpW == o.fpW
    && Backed(m, o, StoredRows(content, o.fpW, env.fp)) && Sane(StoredRows(content, o.fpW, env.fp), o)
  }

  /** A row's key finds its value, with full keys or fingerprints, unless its block is too large: then it finds corruption. */
  lemma PresentKey(m: Mapping, o: Format, content: seq<Row>, rows: seq<Row>, env: Env, i: nat)
    requires Holds(m, o, content, rows, env) && i < |rows|
    ensures FileV2.Readable(m) && InSlot(m.t, content, rows[i], env.hash, env.mixer)
    ensures Entry(m, env.hash(rows[i].key), rows[i].key, env.mixer, env.fp)
      == if TooLarge(StoredRows(content, o.fpW, env.fp), o, Slot(m.t, env.hash(rows[i].key), env.mixer)) then Corrupted else Found(rows[i].value)
  {
    var r := rows[i];
    assert InSlot(m.t, content, r, env.hash, env.mixer);
    EntryOf(m, o, StoredRows(content, o.fpW, env.fp), env.hash(r.key), r.key, env.mixer, env.fp);
    StoredMatches(m, r, o, r.key, env.fp);
  }

  /** With full keys, any other key is not found, unless the block it is looked up in is too large. */
  lemma AbsentKey(m: Mapping, o: Format, content: seq<Row>, rows: seq<Row>, env: Env, key: Bytes)
    requires Holds(m, o, content, rows, env) && o.fpW == 0 && forall i | 0 <= i < |rows| :: rows[i].key != key
    ensures FileV2.Readable(m)
    ensures var s := Slot(m.t, env.hash(key), env.mixer);
      Entry(m, env.hash(key), key, env.mixer, env.fp)
        == if s < |content| && TooLarge(StoredRows(content, o.fpW, env.fp), o, s) then Corrupted else NotFound
  {
    EntryOf(m, o, StoredRows(content, o.fpW, env.fp), env.hash(key), key, env.mixer, env.fp);
    var s := Slot(m.t, env.hash(key), env.mixer);
    if s < |content| {
      assert content[s] in rows;
      StoredMatches(m, content[s], o, key, env.fp);
    }
  }

  /** Every block is small enough for the reader. */
  ghost predicate BlocksFit(recs: seq<Bytes>, o: Format) {
    forall s | 0 <= s < |recs| :: !TooLarge(recs, o, s)
  }

  /** With full keys and readable blocks, looking a key up in the file is looking it up in the plain map of the rows. */
  lemma LookupAgrees(m: Mapping, o: Format, content: seq<Row>, rows: seq<Row>, env: Env, key: Bytes)
    requires Holds(m, o, content, rows, env) && o.fpW == 0 && BlocksFit(StoredRows(content, 0, env.fp), o)
    ensures FileV2.Readable(m) && Entry(m, env.hash(key), key, env.mixer, env.fp) == Expected(rows, key)
  {
    if i :| 0 <= i < |rows| && rows[i].key == key {
      PresentKey(m, o, content, rows, env, i);
      ExpectedRow(rows, i);
    } else {
      AbsentKey(m, o, content, rows, env, key);
      ExpectedAbsent(rows, key);
    }
  }

  // -------------------------------------------------------------- block limits --

  lemma UvarintSize(v: nat)
    requires v < 128 * 128 * 128
    ensures |PutUvarint(v)| <= 3
  {
    var w := v / 128;
    if v >= 128 && w >= 128 {
      assert PutUvarint(w / 128) == [w / 128];
    }
  }

  lemma {:induction false} RawBound(recs: seq<Bytes>, limit: nat)
    requires limit < 128 * 128 * 128 && forall i | 0 <= i < |recs| :: |recs[i]| <= limit
    ensures |Raw(recs)| <= |recs| * (limit + 3)
  {
    if |recs| > 0 {
      var n := |recs| - 1;
      RawBound(recs[..n], limit);
      UvarintSize(|recs[n]|);
      assert |recs| * (limit + 3) == n * (limit + 3) + (limit + 3);
    }
  }

  lemma {:induction false} RawLarge(recs: seq<Bytes>, least: nat)
    requires forall i | 0 <= i < |recs| :: |recs[i]| >= least
    ensures |Raw(recs)| >= |recs| * (least + 1)
  {
    if |recs| > 0 {
      var n := |recs| - 1;
      RawLarge(recs[..n], least);
      assert |recs| * (least + 1) == n * (least + 1) + (least + 1);
    }
  }

  lemma StoredSize(r: Row, fpW: nat, fp: Fingerprint)
    requires Rows.Storable(r) && fpW <= 8
    ensures 0 < |StoredRow(r, 0, fp)| <= 2 + MAX_KEY + MAX_VALUE
    ensures |StoredRow(r, fpW, fp)| <= 2 + MAX_KEY + MAX_VALUE
  {
  }

  lemma ChunkBound(chunk: seq<Bytes>, per: nat, limit: nat)
    requires |chunk| <= per && limit < 128 * 128 * 128 && forall i | 0 <= i < |chunk| :: |chunk[i]| <= limit
    ensures |Raw(chunk)| <= per * (limit + 3)
  {
    RawBound(chunk, limit);
    MulMonotone(limit + 3, |chunk|, per);
  }

  lemma RawBounded(recs: seq<Bytes>, shift: nat, s: nat, limit: nat)
    requires s < |recs| && limit < 128 * 128 * 128 && forall i | 0 <= i < |recs| :: |recs[i]| <= limit
    ensures |RawOf(recs, shift, s)| <= Pow2(shift) * (limit + 3)
  {
    var b := HighBits(s, shift);
    InChunk(recs, s, shift);
    ChunkBounded(recs, b, shift, limit);
    ChunkBound(Chunk(recs, b, shift), Pow2(shift), limit);
  }

  lemma RawOfBound(content: seq<Row>, o: Format, fp: Fingerprint, s: nat)
    requires ValidFormat(o) && AllStorable(content) && s < |content|
    ensures |RawOf(StoredRows(content, o.fpW, fp), o.shift, s)| <= Pow2(o.shift) * (MAX_KEY + MAX_VALUE + 5)
  {
    var recs := StoredRows(content, o.fpW, fp);
    forall i | 0 <= i < |recs|
      ensures |recs[i]| <= 2 + MAX_KEY + MAX_VALUE
    {
      StoredSize(content[i], o.fpW, fp);
    }
    RawBounded(recs, o.shift, s, 2 + MAX_KEY + MAX_VALUE);
  }

  /** Storable rows make sane records. */
  lemma StoredSane(content: seq<Row>, o: Format, fp: Fingerprint)
    requires ValidFormat(o) && AllStorable(content)
    ensures Sane(StoredRows(content, o.fpW, fp), o)
  {
    var recs := StoredRows(content, o.fpW, fp);
    forall i | 0 <= i < |recs|
      ensures 0 < |recs[i]| < TWO64
    {
      StoredSize(content[i], o.fpW, fp);
    }
    forall s | 0 <= s < |recs|
      ensures |RawOf(recs, o.shift, s)| < TWO64
    {
      RawOfBound(content, o, fp, s);
      SmallPower(o.shift, 8);
    }
  }

  lemma SmallPower(k: nat, n: nat)
    requires k <= n <= 8
    ensures Pow2(k) <= Pow2(n) <= 256
  {
    Pow2Monotone(k, n);
    Pow2Monotone(n, 8);
    Pow2Values();
  }

  lemma NoProduct(h: nat, l: nat, s: nat)
    requires s == h * 256 + l && s < 256
    ensures h == 0
  {
  }

  lemma FirstBlock(s: nat)
    requires s < 256
    ensures HighBits(s, 8) == 0
  {
    SplitBits(s, 8);
    Pow2Values();
    NoProduct(HighBits(s, 8), LowBits(s, 8), s);
  }

  /** A full block of 256 records with values of one mebibyte each is too large, although the writer accepts it. */
  lemma FullBlockFails(content: seq<Row>, o: Format, fp: Fingerprint, s: nat)
    requires ValidFormat(o) && o.lz4 && o.shift == 8 && |content| >= 256 && s < 256
    requires forall i | 0 <= i < |content| :: |content[i].value| == MAX_VALUE
    ensures TooLarge(StoredRows(content, o.fpW, fp), o, s)
  {
    var recs := StoredRows(content, o.fpW, fp);
    Pow2Values();
    FirstBlock(s);
    InChunk(recs, s, o.shift);
    var chunk := Chunk(recs, 0, o.shift);
    assert |chunk| == 256;
    RawLarge(chunk, MAX_VALUE);
  }
}
