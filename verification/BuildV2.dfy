/** CompileWithOptions step by step, and the independence of its result from row order. */
module BuildV2 {
  import opened Words
  import opened Totals
  import opened Flatten
  import opened Rows
  import opened Blocks
  import opened PtHash
  import opened PtHashBuild
  import opened FileV2
  import opened LookupV2
  import opened CompileV2
  import opened Duplicates
  import opened Greedy

  // ----------------------------------------------------------------- slot entries --

  /** The first k keys have entered their numbers in their slots. */
  ghost predicate Entered(t: Table, xs: seq<nat>, mixer: Mixer, slots: seq<nat>, k: nat)
    requires BijectiveOn(t, xs, mixer) && |slots| == |xs| && k <= |xs|
  {
    forall i | 0 <= i < k :: slots[Slot(t, xs[i], mixer)] == i
  }

  lemma EnterNext(t: Table, xs: seq<nat>, mixer: Mixer, slots: seq<nat>, k: nat)
    requires BijectiveOn(t, xs, mixer) && |slots| == |xs| && k < |xs| && Entered(t, xs, mixer, slots, k)
    ensures Entered(t, xs, mixer, slots[Slot(t, xs[k], mixer) := k], k + 1)
  {
    forall i | 0 <= i < k
      ensures Slot(t, xs[i], mixer) != Slot(t, xs[k], mixer)
    {
    }
  }

  /** slotEntry[t.Slot(x)] = int32(i) for every key */
  method FillSlots(t: Table, xs: seq<nat>, mixer: Mixer) returns (slotEntry: seq<nat>)
    requires BijectiveOn(t, xs, mixer)
    ensures |slotEntry| == |xs| && Entered(t, xs, mixer, slotEntry, |xs|)
  {
    var slots := new nat[|xs|](_ => 0);
    for i := 0 to |xs|
      invariant Entered(t, xs, mixer, slots[..], i)
    {
      ghost var was := slots[..];
      EnterNext(t, xs, mixer, was, i);
      slots[Slot(t, xs[i], mixer)] := i;
      assert slots[..] == was[Slot(t, xs[i], mixer) := i];
    }
    slotEntry := slots[..];
  }

  /** Every slot has been entered, by the key whose slot it is. */
  lemma EveryEntry(t: Table, xs: seq<nat>, mixer: Mixer, slots: seq<nat>, s: nat)
    requires BijectiveOn(t, xs, mixer) && |slots| == |xs| && Entered(t, xs, mixer, slots, |xs|) && s < |xs|
    ensures slots[s] < |xs| && Slot(t, xs[slots[s]], mixer) == s
  {
    assert Reached(t, xs, mixer, s);
    var i :| 0 <= i < |xs| && Slot(t, xs[i], mixer) == s;
  }

  function InSlotOrder(rows: seq<Row>, slots: seq<nat>): (content: seq<Row>)
    requires forall s | 0 <= s < |slots| :: slots[s] < |rows|
    ensures |content| == |slots| && forall s | 0 <= s < |slots| :: content[s] == rows[slots[s]]
  {
    seq(|slots|, s requires 0 <= s < |slots| => rows[slots[s]])
  }

  lemma EntriesInside(t: Table, xs: seq<nat>, mixer: Mixer, slots: seq<nat>)
    requires BijectiveOn(t, xs, mixer) && |slots| == |xs| && Entered(t, xs, mixer, slots, |xs|)
    ensures forall s | 0 <= s < |slots| :: slots[s] < |xs|
  {
    forall s | 0 <= s < |slots|
      ensures slots[s] < |xs|
    {
      EveryEntry(t, xs, mixer, slots, s);
    }
  }

  lemma EntryInSlot(t: Table, xs: seq<nat>, rows: seq<Row>, content: seq<Row>, hash: Hash, mixer: Mixer, slots: seq<nat>, i: nat)
    requires BijectiveOn(t, xs, mixer) && xs == Hashes(rows, hash) && |slots| == |xs| && Entered(t, xs, mixer, slots, |xs|) && i < |rows|
    requires |content| == |slots| && forall s | 0 <= s < |slots| :: slots[s] < |rows| && content[s] == rows[slots[s]]
    ensures InSlot(t, content, rows[i], hash, mixer)
  {
    assert xs[i] == hash(rows[i].key);
    assert slots[Slot(t, xs[i], mixer)] == i;
  }

  lemma EntriesInSlot(t: Table, xs: seq<nat>, rows: seq<Row>, content: seq<Row>, hash: Hash, mixer: Mixer, slots: seq<nat>)
    requires BijectiveOn(t, xs, mixer) && xs == Hashes(rows, hash) && |slots| == |xs| && Entered(t, xs, mixer, slots, |xs|)
    requires |content| == |slots| && forall s | 0 <= s < |slots| :: slots[s] < |rows| && content[s] == rows[slots[s]]
    ensures forall i | 0 <= i < |rows| :: InSlot(t, content, rows[i], hash, mixer)
  {
    forall i | 0 <= i < |rows|
      ensures InSlot(t, content, rows[i], hash, mixer)
    {
      EntryInSlot(t, xs, rows, content, hash, mixer, slots, i);
    }
  }

  lemma OrderedMembers(rows: seq<Row>, content: seq<Row>, slots: seq<nat>)
    requires |content| == |slots| && forall s | 0 <= s < |slots| :: slots[s] < |rows| && content[s] == rows[slots[s]]
    ensures forall s | 0 <= s < |content| :: content[s] in rows
  {
  }

  lemma EntriesContent(t: Table, xs: seq<nat>, rows: seq<Row>, hash: Hash, mixer: Mixer, slots: seq<nat>)
    requires BijectiveOn(t, xs, mixer) && xs == Hashes(rows, hash) && |slots| == |rows| && Entered(t, xs, mixer, slots, |xs|)
    ensures forall s | 0 <= s < |slots| :: slots[s] < |rows|
    ensures IsContent(t, InSlotOrder(rows, slots), rows, hash, mixer)
  {
    EntriesInside(t, xs, mixer, slots);
    var content := InSlotOrder(rows, slots);
    EntriesInSlot(t, xs, rows, content, hash, mixer, slots);
    OrderedMembers(rows, content, slots);
  }

  // ----------------------------------------------------------------------- sizes --

  function StoredLength(rows: seq<Row>, fpW: nat, fp: Fingerprint): nat -> int
    requires fpW <= 8
  {
    (i: nat) => if i < |rows| then |StoredRow(rows[i], fpW, fp)| else 0
  }

  lemma {:induction false} RowBytesStored(rows: seq<Row>, fp: Fingerprint, k: nat)
    requires k <= |rows|
    ensures RowBytes(rows[..k]) == SumTo(k, StoredLength(rows, 0, fp))
  {
    if k > 0 {
      RowBytesStored(rows, fp, k - 1);
      assert rows[..k][..k - 1] == rows[..k - 1];
    }
  }

  /** The uncompressed blob size, known before anything is hashed. */
  method BlobBytes(rows: seq<Row>, dataBytes: nat, fpW: nat, ghost fp: Fingerprint) returns (n: nat)
    requires dataBytes == RowBytes(rows) && fpW <= 8
    ensures n == SumTo(|rows|, StoredLength(rows, fpW, fp))
  {
    n := dataBytes;
    RowBytesStored(rows, fp, |rows|);
    assert rows[..|rows|] == rows;
    if fpW != 0 {
      n := 0;
      for i := 0 to |rows|
        invariant n == SumTo(i, StoredLength(rows, fpW, fp))
      {
        n := n + fpW + |rows[i].value|;
      }
    }
  }

  lemma {:induction false} PrefixTotal(rows: seq<Row>, slots: seq<nat>, fpW: nat, fp: Fingerprint, k: nat)
    requires fpW <= 8 && k <= |slots| && forall s | 0 <= s < |slots| :: slots[s] < |rows|
    ensures |Blob(StoredRows(InSlotOrder(rows, slots), fpW, fp)[..k])| == Total(slots[..k], Below(StoredLength(rows, fpW, fp), |rows|))
  {
    var recs := StoredRows(InSlotOrder(rows, slots), fpW, fp);
    if k > 0 {
      PrefixTotal(rows, slots, fpW, fp, k - 1);
      FlatPrefix(recs, k - 1, Same);
      TotalPrefix(slots, k - 1, Below(StoredLength(rows, fpW, fp), |rows|));
    }
  }

  function SlotsOfKeys(t: Table, xs: seq<nat>, mixer: Mixer): (at: seq<nat>)
    requires PtHash.Readable(t)
    ensures |at| == |xs| && forall i | 0 <= i < |xs| :: at[i] == Slot(t, xs[i], mixer)
  {
    seq(|xs|, i requires 0 <= i < |xs| => Slot(t, xs[i], mixer))
  }

  /** The records in slot order take the bytes of the records in row order. */
  lemma BlobSize(t: Table, xs: seq<nat>, mixer: Mixer, rows: seq<Row>, slots: seq<nat>, fpW: nat, fp: Fingerprint)
    requires BijectiveOn(t, xs, mixer) && |slots| == |xs| == |rows| && Entered(t, xs, mixer, slots, |xs|) && fpW <= 8
    requires forall s | 0 <= s < |slots| :: slots[s] < |rows|
    ensures |Blob(StoredRows(InSlotOrder(rows, slots), fpW, fp))| == SumTo(|rows|, StoredLength(rows, fpW, fp))
  {
    var at := SlotsOfKeys(t, xs, mixer);
    forall s | 0 <= s < |slots|
      ensures at[slots[s]] == s
    {
      EveryEntry(t, xs, mixer, slots, s);
    }
    ScatterTotal(slots, at, |rows|, StoredLength(rows, fpW, fp));
    PrefixTotal(rows, slots, fpW, fp, |slots|);
    assert slots[..|slots|] == slots;
    var recs := StoredRows(InSlotOrder(rows, slots), fpW, fp);
    assert recs[..|slots|] == recs;
  }

  // --------------------------------------------------------------------- writing --

  /** writeOffsets */
  method WriteOffsets(buf: Bytes, offs: seq<nat>, width: nat) returns (out: Bytes)
    requires width == 4 || width == 5
    ensures out == buf + OffsetBytes(offs, width)
  {
    out := buf;
    for i := 0 to |offs|
      invariant out == buf + Flat(offs[..i], EncodeLE(width))
    {
      FlatPrefix(offs, i, EncodeLE(width));
      out := out + ToLE(offs[i], width);
    }
    assert offs[..|offs|] == offs;
    out := out + seq(OffsetsSize(|offs|, width) - |offs| * width, _ => 0);
  }

  lemma RawNext(recs: seq<Bytes>, from: nat, s: nat)
    requires from <= s < |recs|
    ensures Raw(recs[from..s + 1]) == Raw(recs[from..s]) + Framed(recs[s])
  {
    assert recs[from..s + 1][..s - from] == recs[from..s];
  }

  lemma RawStep(content: seq<Row>, from: nat, s: nat, fpW: nat, fp: Fingerprint)
    requires from <= s < |content| && fpW <= 8
    ensures var recs := StoredRows(content, fpW, fp);
      Raw(recs[from..s + 1]) == Raw(recs[from..s]) + Framed(StoredRow(content[s], fpW, fp))
  {
    RawNext(StoredRows(content, fpW, fp), from, s);
  }

  /** The raw content of one block: the records of the slots from `from` up to `to`. */
  method RawBlock(content: seq<Row>, from: nat, to: nat, fpW: nat, fp: Fingerprint) returns (raw: Bytes)
    requires from <= to <= |content| && fpW <= 8
    ensures raw == Raw(StoredRows(content, fpW, fp)[from..to])
  {
    raw := [];
    for s := from to to
      invariant raw == Raw(StoredRows(content, fpW, fp)[from..s])
    {
      RawStep(content, from, s, fpW, fp);
      raw := raw + Framed(StoredRow(content[s], fpW, fp));
    }
  }

  /** One block of the blob. */
  method CompressOne(content: seq<Row>, shift: nat, fpW: nat, fp: Fingerprint, b: nat) returns (block: Bytes)
    requires fpW <= 8 && b < UnitCount(|content|, true, shift)
    ensures block == BlockUnit(StoredRows(content, fpW, fp), shift, b)
  {
    BlockInside(|content|, shift, b);
    var raw := RawBlock(content, ChunkStart(shift, b), ChunkEnd(|content|, shift, b), fpW, fp);
    block := WriteBlock(raw);
  }

  /** The blob and the offsets after the first b units. */
  ghost predicate WrittenTo(units: seq<Bytes>, b: nat, blob: Bytes, offs: seq<nat>) {
    b <= |units| && blob == Blob(units[..b]) && |offs| == b && forall k | 0 <= k < b :: offs[k] == |Blob(units[..k])|
  }

  lemma WrittenNext(units: seq<Bytes>, b: nat, blob: Bytes, offs: seq<nat>)
    requires WrittenTo(units, b, blob, offs) && b < |units|
    ensures WrittenTo(units, b + 1, blob + units[b], offs + [|blob|])
  {
    FlatPrefix(units, b, Same);
  }

  lemma WrittenAll(units: seq<Bytes>, blob: Bytes, offs: seq<nat>)
    requires WrittenTo(units, |units|, blob, offs)
    ensures blob == Blob(units) && offs + [|blob|] == Offsets(units)
  {
    assert units[..|units|] == units;
  }

  lemma UnitIs(content: seq<Row>, o: Format, fp: Fingerprint, b: nat)
    requires ValidFormat(o) && o.lz4 && b < UnitCount(|content|, true, o.shift)
    ensures |UnitsFor(content, o, fp)| == UnitCount(|content|, true, o.shift)
    ensures UnitsFor(content, o, fp)[b] == BlockUnit(StoredRows(content, o.fpW, fp), o.shift, b)
  {
  }

  /** compressBlocks; it gives up once the blob exceeds what 40 bits can address. */
  method CompressBlocks(content: seq<Row>, shift: nat, fpW: nat, fp: Fingerprint, ghost o: Format, ghost units: seq<Bytes>)
      returns (ok: bool, blob: Bytes, offs: seq<nat>)
    requires ValidFormat(o) && o.lz4 && o.shift == shift && o.fpW == fpW
    requires units == UnitsFor(content, o, fp) && |units| == UnitCount(|content|, true, shift)
    ensures ok ==> blob == Blob(units) && offs == Offsets(units)
    ensures !ok ==> |Blob(units)| > MAX_BLOB
  {
    var nBlocks := UnitCount(|content|, true, shift);
    blob, offs := [], [];
    for b := 0 to nBlocks
      invariant WrittenTo(units, b, blob, offs)
    {
      UnitIs(content, o, fp, b);
      WrittenNext(units, b, blob, offs);
      var block := CompressOne(content, shift, fpW, fp, b);
      offs := offs + [|blob|];
      blob := blob + block;
      if |blob| > MAX_BLOB {
        ReadV2.BlobGrows(units, b + 1);
        return false, blob, offs;
      }
    }
    WrittenAll(units, blob, offs);
    offs := offs + [|blob|];
    ok := true;
  }

  /** The running offsets and the records of an uncompressed blob. */
  method WriteRecords(content: seq<Row>, fpW: nat, fp: Fingerprint) returns (blob: Bytes, offs: seq<nat>)
    requires fpW <= 8
    ensures blob == Blob(StoredRows(content, fpW, fp)) && offs == Offsets(StoredRows(content, fpW, fp))
  {
    ghost var recs := StoredRows(content, fpW, fp);
    var run := 0;
    blob, offs := [], [];
    for s := 0 to |content|
      invariant WrittenTo(recs, s, blob, offs) && run == |blob|
    {
      WrittenNext(recs, s, blob, offs);
      var r := content[s];
      offs := offs + [run];
      if fpW != 0 {
        run := run + fpW + |r.value|;
        blob := blob + (fp(r.key)[..fpW] + r.value);
      } else {
        run := run + 2 + |r.key| + |r.value|;
        blob := blob + (ToBE(|r.key|, 2) + r.key + r.value);
      }
    }
    WrittenAll(recs, blob, offs);
    offs := offs + [run];
  }

  /** The output pass. */
  method WriteFile(t: Table, o: Format, units: seq<Bytes>, blob: Bytes, offs: seq<nat>, crc: Crc) returns (file: Bytes)
    requires FileV2.Storable(t) && ValidFormat(o) && blob == Blob(units) && offs == Offsets(units)
    ensures file == File(t, o, units, crc)
  {
    var out := Header(t, o) + t.front + t.back + t.free;
    out := WriteOffsets(out, offs, o.width);
    out := out + blob;
    file := out + ToBE(crc(out), 4);
  }

  // -------------------------------------------------------------------- uniqueness --

  /** The width decides nothing about the units. */
  lemma UnitsIgnoreWidth(content: seq<Row>, opts: Options, fp: Fingerprint, v: nat, w: nat)
    requires ValidOptions(opts) && (v == 4 || v == 5) && (w == 4 || w == 5)
    ensures UnitsFor(content, FormatOf(opts, v), fp) == UnitsFor(content, FormatOf(opts, w), fp)
  {
    var a, b := FormatOf(opts, v), FormatOf(opts, w);
    assert a.shift == b.shift && a.lz4 == b.lz4 && a.fpW == b.fpW;
  }

  /** A slot's content is the row whose slot it is. */
  lemma ContentAt(t: Table, xs: seq<nat>, rows: seq<Row>, content: seq<Row>, hash: Hash, mixer: Mixer, s: nat) returns (i: nat)
    requires BijectiveOn(t, xs, mixer) && xs == Hashes(rows, hash) && IsContent(t, content, rows, hash, mixer) && s < |rows|
    ensures i < |rows| && Slot(t, xs[i], mixer) == s && content[s] == rows[i]
  {
    assert Reached(t, xs, mixer, s);
    i :| i < |xs| && Slot(t, xs[i], mixer) == s;
    assert InSlot(t, content, rows[i], hash, mixer);
  }

  lemma ContentUnique(t: Table, xs: seq<nat>, rows: seq<Row>, c: seq<Row>, d: seq<Row>, hash: Hash, mixer: Mixer)
    requires BijectiveOn(t, xs, mixer) && xs == Hashes(rows, hash)
    requires IsContent(t, c, rows, hash, mixer) && IsContent(t, d, rows, hash, mixer)
    ensures c == d
  {
    forall s: nat | s < |c|
      ensures c[s] == d[s]
    {
      var i := ContentAt(t, xs, rows, c, hash, mixer, s);
      assert InSlot(t, d, rows[i], hash, mixer);
    }
  }

  /** Table and content are determined by the rows. */
  lemma LaidUnique(rows: seq<Row>, env: Env, t: Table, c: seq<Row>, u: Table, d: seq<Row>)
    requires |rows| <= MAX_ROWS && Laid(rows, env, t, c) && Laid(rows, env, u, d)
    ensures t == u && c == d
  {
    TableUnique(Hashes(rows, env.hash), env.sizing(|rows|), env.mixer, t, u);
    MinimalPerfect(t, Hashes(rows, env.hash), env.sizing(|rows|), env.mixer);
    ContentUnique(t, Hashes(rows, env.hash), rows, c, d, env.hash, env.mixer);
  }

  /** There is at most one file for a list of rows. */
  lemma FileUnique(rows: seq<Row>, opts: Options, env: Env, f: Bytes, g: Bytes)
    requires IsFile(rows, opts, env, f) && IsFile(rows, opts, env, g)
    ensures f == g
  {
    var t, c, v :| Plans(rows, opts, env, t, c, v) && f == File(t, FormatOf(opts, v), UnitsFor(c, FormatOf(opts, v), env.fp), env.crc);
    var u, d, w :| Plans(rows, opts, env, u, d, w) && g == File(u, FormatOf(opts, w), UnitsFor(d, FormatOf(opts, w), env.fp), env.crc);
    LaidUnique(rows, env, t, c, u, d);
    UnitsIgnoreWidth(c, opts, env.fp, v, w);
  }

  // ----------------------------------------------------- independence of row order --

  function HashFor(r: Row, hash: Hash): nat { hash(r.key) }

  function KeyHash(hash: Hash): Row -> nat { (r: Row) => HashFor(r, hash) }

  lemma {:induction false} HashesMapped(rows: seq<Row>, hash: Hash)
    ensures Hashes(rows, hash) == Mapped(rows, KeyHash(hash))
  {
    if |rows| > 0 {
      HashesMapped(rows[..|rows| - 1], hash);
    }
  }

  lemma ContentPermuted(t: Table, content: seq<Row>, rows: seq<Row>, rows2: seq<Row>, hash: Hash, mixer: Mixer)
    requires multiset(rows) == multiset(rows2) && IsContent(t, content, rows, hash, mixer)
    ensures IsContent(t, content, rows2, hash, mixer)
  {
    assert |rows| == |multiset(rows)| == |multiset(rows2)| == |rows2|;
    forall i | 0 <= i < |rows2|
      ensures InSlot(t, content, rows2[i], hash, mixer)
    {
      assert rows2[i] in multiset(rows);
      var k :| 0 <= k < |rows| && rows[k] == rows2[i];
      assert InSlot(t, content, rows[k], hash, mixer);
    }
    forall s | 0 <= s < |content|
      ensures content[s] in rows2
    {
      assert content[s] in multiset(rows);
    }
  }

  /** Permuting the rows changes nothing: byte-identical files, or failure both times. */
  lemma RowOrderIndependent(rows: seq<Row>, rows2: seq<Row>, opts: Options, env: Env, file: Bytes)
    requires multiset(rows) == multiset(rows2) && IsFile(rows, opts, env, file)
    ensures IsFile(rows2, opts, env, file)
  {
    var t, c, w :| Plans(rows, opts, env, t, c, w) && file == File(t, FormatOf(opts, w), UnitsFor(c, FormatOf(opts, w), env.fp), env.crc);
    assert |rows| == |multiset(rows)| == |multiset(rows2)| == |rows2|;
    HashesMapped(rows, env.hash);
    HashesMapped(rows2, env.hash);
    MappedPermuted(rows, rows2, KeyHash(env.hash));
    OrderIndependent(Hashes(rows, env.hash), Hashes(rows2, env.hash), env.sizing(|rows|), env.mixer, t);
    ContentPermuted(t, c, rows, rows2, env.hash, env.mixer);
    assert Plans(rows2, opts, env, t, c, w);
  }

  // ---------------------------------------------------------------------- compiling --

  datatype CompileResult = Written(file: Bytes) | BadOptions | NoEntries | DuplicateRow(first: nat, row: nat) | NotBuilt(duplicateHash: bool) | BlobTooLarge

  lemma {:induction false} SlotsExist(t: Table, xs: seq<nat>, mixer: Mixer, k: nat) returns (slots: seq<nat>)
    requires BijectiveOn(t, xs, mixer) && k <= |xs|
    ensures |slots| == |xs| && Entered(t, xs, mixer, slots, k)
  {
    if k == 0 {
      slots := seq(|xs|, _ => 0);
    } else {
      slots := SlotsExist(t, xs, mixer, k - 1);
      EnterNext(t, xs, mixer, slots, k - 1);
      slots := slots[Slot(t, xs[k - 1], mixer) := k - 1];
    }
  }

  /** The size of an uncompressed blob does not depend on the table. */
  lemma PlainBlobSize(rows: seq<Row>, opts: Options, env: Env, t: Table, content: seq<Row>, width: nat)
    requires Plans(rows, opts, env, t, content, width) && opts.compression == NoCompression
    ensures |Blob(UnitsFor(content, FormatOf(opts, width), env.fp))| == SumTo(|rows|, StoredLength(rows, opts.fingerprintBytes, env.fp))
  {
    var xs := Hashes(rows, env.hash);
    MinimalPerfect(t, xs, env.sizing(|rows|), env.mixer);
    var slots := SlotsExist(t, xs, env.mixer, |xs|);
    EntriesContent(t, xs, rows, env.hash, env.mixer, slots);
    ContentUnique(t, xs, rows, content, InSlotOrder(rows, slots), env.hash, env.mixer);
    BlobSize(t, xs, env.mixer, rows, slots, opts.fingerprintBytes, env.fp);
  }

  lemma TooLargeNotFile(rows: seq<Row>, opts: Options, env: Env, blobBytes: nat)
    requires ValidOptions(opts) && opts.compression == NoCompression && ChooseWidth(opts.offsetWidth, blobBytes).None?
    requires blobBytes == SumTo(|rows|, StoredLength(rows, opts.fingerprintBytes, env.fp))
    ensures forall f :: !IsFile(rows, opts, env, f)
  {
    forall t, content, width
      ensures !Plans(rows, opts, env, t, content, width)
    {
      if Plans(rows, opts, env, t, content, width) {
        PlainBlobSize(rows, opts, env, t, content, width);
      }
    }
  }

  lemma RepeatedNotFile(rows: seq<Row>, opts: Options, env: Env, q: nat, r: nat)
    requires Repeats(Keys(rows), q, r)
    ensures forall f :: !IsFile(rows, opts, env, f)
  {
    forall t, content, width
      ensures !Plans(rows, opts, env, t, content, width)
    {
      if Plans(rows, opts, env, t, content, width) {
        MinimalPerfect(t, Hashes(rows, env.hash), env.sizing(|rows|), env.mixer);
        CompileV2.KeysDistinct(rows, env.hash);
      }
    }
  }

  /** Offsets and blob of either kind, and the width they need. */
  method Layout(content: seq<Row>, opts: Options, env: Env) returns (ok: bool, blob: Bytes, offs: seq<nat>, width: nat)
    requires ValidOptions(opts)
    ensures ok ==> width == 4 || width == 5
    ensures ok ==> var units := UnitsFor(content, FormatOf(opts, width), env.fp);
      blob == Blob(units) && offs == Offsets(units) && ChooseWidth(opts.offsetWidth, |blob|) == Some(width)
    ensures !ok ==> Unreachable(content, opts, env.fp)
  {
    var o := FormatOf(opts, 4);
    ghost var units := UnitsFor(content, o, env.fp);
    UnitsIgnoreWidth(content, opts, env.fp, 4, 5);
    ok, width := true, 4;
    if opts.compression == LZ4 {
      ok, blob, offs := CompressBlocks(content, o.shift, o.fpW, env.fp, o, units);
    } else {
      blob, offs := WriteRecords(content, o.fpW, env.fp);
    }
    if !ok {
      return;
    }
    var w := ChooseWidth(opts.offsetWidth, |blob|);
    WidthReaches(opts.offsetWidth, |blob|);
    if w.None? {
      return false, blob, offs, width;
    }
    width := w.value;
    UnitsIgnoreWidth(content, opts, env.fp, 4, width);
  }

  /** No width reaches the blob of this content. */
  ghost predicate Unreachable(content: seq<Row>, opts: Options, fp: Fingerprint)
    requires ValidOptions(opts)
  {
    forall w | w == 4 || w == 5 :: ChooseWidth(opts.offsetWidth, |Blob(UnitsFor(content, FormatOf(opts, w), fp))|).None?
  }

  /** A failed layout of the only possible content leaves no file. */
  lemma NoLayoutNotFile(rows: seq<Row>, opts: Options, env: Env, t: Table, content: seq<Row>)
    requires ValidOptions(opts) && |rows| <= MAX_ROWS && Laid(rows, env, t, content) && Unreachable(content, opts, env.fp)
    ensures forall f :: !IsFile(rows, opts, env, f)
  {
    forall u, c, width
      ensures !Plans(rows, opts, env, u, c, width)
    {
      if Plans(rows, opts, env, u, c, width) {
        LaidUnique(rows, env, t, content, u, c);
      }
    }
  }

  /** From the slots of the keys to the file. */
  method Emit(rows: seq<Row>, opts: Options, env: Env, t: Table) returns (r: CompileResult)
    requires ValidOptions(opts) && 0 < |rows| <= MAX_ROWS && GoodEnv(env, |rows|)
    requires IsTable(t, Hashes(rows, env.hash), env.sizing(|rows|), env.mixer)
    ensures r.Written? || r.BlobTooLarge?
    ensures r.Written? ==> IsFile(rows, opts, env, r.file)
    ensures !r.Written? ==> forall f :: !IsFile(rows, opts, env, f)
  {
    var xs := Hashes(rows, env.hash);
    MinimalPerfect(t, xs, env.sizing(|rows|), env.mixer);
    var slotEntry := FillSlots(t, xs, env.mixer);
    EntriesContent(t, xs, rows, env.hash, env.mixer, slotEntry);
    var content := InSlotOrder(rows, slotEntry);
    var ok, blob, offs, width := Layout(content, opts, env);
    if !ok {
      NoLayoutNotFile(rows, opts, env, t, content);
      return BlobTooLarge;
    }
    TableStorable(t, xs, env.sizing(|rows|), env.mixer);
    assert Plans(rows, opts, env, t, content, width);
    var file := WriteFile(t, FormatOf(opts, width), UnitsFor(content, FormatOf(opts, width), env.fp), blob, offs, env.crc);
    r := Written(file);
  }

  /** The options are checked in part before the rows are counted. */
  predicate GoodCompression(opts: Options) {
    opts.compression != OtherCompression && (opts.compression == LZ4 ==> 1 <= BlockSize(opts) <= 256 && PowerOfTwo(BlockSize(opts)))
  }

  /** The records alone are more than the offsets reach. */
  ghost predicate Oversized(rows: seq<Row>, opts: Options, env: Env)
    requires ValidOptions(opts)
  {
    && opts.compression == NoCompression
    && SumTo(|rows|, StoredLength(rows, opts.fingerprintBytes, env.fp)) > if opts.offsetWidth == 4 then 0xFFFF_FFFF else 0xFF_FFFF_FFFF
  }

  /** What each result means: the checks in their order, each reached only if the ones before it passed. */
  ghost predicate Verdict(rows: seq<Row>, checked: nat, opts: Options, env: Env, r: CompileResult) {
    if !GoodCompression(opts) then r.BadOptions?
    else if |rows| == 0 then r.NoEntries?
    else if !ValidOptions(opts) then r.BadOptions?
    else if Oversized(rows, opts, env) then r.BlobTooLarge?
    else if !NoRepeat(Keys(rows), checked) then r.DuplicateRow?
    else if !Buildable(Hashes(rows, env.hash), env.sizing(|rows|), env.mixer) then
      r.NotBuilt? && exists ks :: FirstUnplaced(Hashes(rows, env.hash), env.sizing(|rows|), env.mixer, ks) && (r.duplicateHash <==> !Distinct(ks))
    else if exists f :: IsFile(rows, opts, env, f) then r.Written?
    else r.BlobTooLarge?
  }

  /** The size check of uncompressed files, before any hashing. */
  method SizeFits(rows: seq<Row>, dataBytes: nat, opts: Options, env: Env) returns (ok: bool)
    requires ValidOptions(opts) && dataBytes == RowBytes(rows) && 0 < |rows| <= MAX_ROWS && GoodEnv(env, |rows|)
    ensures ok <==> !Oversized(rows, opts, env)
    ensures !ok ==> forall f :: !IsFile(rows, opts, env, f)
  {
    if opts.compression != NoCompression {
      return true;
    }
    var blobBytes := BlobBytes(rows, dataBytes, opts.fingerprintBytes, env.fp);
    ok := ChooseWidth(opts.offsetWidth, blobBytes).Some?;
    WidthReaches(opts.offsetWidth, blobBytes);
    if !ok {
      TooLargeNotFile(rows, opts, env, blobBytes);
    }
  }

  /** CompileWithOptions; `detected` says that duplicate detection was reached and passed */
  method Compile(rows: seq<Row>, checked: nat, dataBytes: nat, opts: Options, env: Env) returns (r: CompileResult, detected: bool)
    requires dataBytes == RowBytes(rows) && |rows| <= MAX_ROWS && GoodEnv(env, |rows|)
    ensures r.Written? ==> IsFile(rows, opts, env, r.file)
    ensures !r.Written? ==> forall f :: !IsFile(rows, opts, env, f)
    ensures r.DuplicateRow? ==> LowestRepeat(Keys(rows), checked, r.row) && EarliestEqual(Keys(rows), r.first, r.row)
    ensures detected ==> NoRepeat(Keys(rows), checked)
    ensures r.BadOptions? || r.NoEntries? || r.DuplicateRow? ==> !detected
    ensures r.Written? || r.NotBuilt? ==> detected
    ensures Verdict(rows, checked, opts, env, r)
  {
    if opts.compression == OtherCompression || (opts.compression == LZ4 && !(1 <= BlockSize(opts) <= 256 && PowerOfTwo(BlockSize(opts)))) {
      return BadOptions, false;
    }
    if |rows| == 0 {
      return NoEntries, false;
    }
    if !ValidOptions(opts) {
      return BadOptions, false;
    }
    var fits := SizeFits(rows, dataBytes, opts, env);
    if !fits {
      return BlobTooLarge, false;
    }
    var xs := Hashes(rows, env.hash);
    if checked < |rows| {
      var best := FindDuplicate(Keys(rows), xs, checked);
      if best.Best? {
        RepeatedNotFile(rows, opts, env, best.first, best.row);
        return DuplicateRow(best.first, best.row), false;
      }
    }
    var b := BuildWith(xs, env.sizing(|rows|), env.mixer);
    if !b.Built? {
      return NotBuilt(b.DuplicateHash?), true;
    }
    detected := true;
    r := Emit(rows, opts, env, b.t);
  }
}
