/** A dataset that compiles with 256 records per block and cannot be read back. */
module LargeBlocks {
  import opened Words
  import opened Flatten
  import opened Rows
  import opened Blocks
  import opened Grouping
  import opened BucketOrder
  import opened Greedy
  import opened Placement
  import opened PtHash
  import opened FileV2
  import opened LookupV2
  import opened CompileV2
  import opened BuildV2
  import opened BlockLimit

  // ---------------------------------------------------------------- any such dataset --

  lemma ShiftEight(k: nat)
    requires Pow2(k) == 256
    ensures k == 8
  {
    Pow2Values();
    if k < 8 {
      Pow2Monotone(k + 1, 8);
    } else if k > 8 {
      Pow2Monotone(9, k);
    }
  }

  /** At least 256 rows with values of one mebibyte each, in blocks of 256: if they compile, some row's lookup reports corruption. */
  lemma LargeRowsFail(rows: seq<Row>, opts: Options, env: Env, file: Bytes, checkCrc: bool) returns (m: Mapping, i: nat)
    requires AllStorable(rows) && IsFile(rows, opts, env, file) && opts.compression == LZ4 && BlockSize(opts) == 256
    requires |rows| >= 256 && forall k | 0 <= k < |rows| :: |rows[k].value| == MAX_VALUE
    ensures ParseV2(file, checkCrc, env.crc) == FileV1.Ok(m) && FileV2.Readable(m) && i < |rows|
    ensures Entry(m, env.hash(rows[i].key), rows[i].key, env.mixer, env.fp) == Corrupted
  {
    var m1, content, width := EndToEnd(rows, opts, env, file, checkCrc);
    var o := FormatOf(opts, width);
    ShiftEight(o.shift);
    forall k | 0 <= k < |content|
      ensures |content[k].value| == MAX_VALUE
    {
      assert content[k] in rows;
    }
    FullBlockFails(content, o, env.fp, 0);
    assert !BlocksFit(StoredRows(content, opts.fingerprintBytes, env.fp), o);
    m, i := UnreadableRow(rows, opts, env, file, checkCrc);
  }

  // ---------------------------------------------------------------- keys in one bucket --

  function Ones(n: nat): (r: seq<nat>)
    ensures |r| == n && forall i | 0 <= i < n :: r[i] == 1
  {
    seq(n, _ => 1)
  }

  lemma {:induction false} SelectOnes(xs: seq<nat>, n: nat)
    requires n == |xs|
    ensures Select<nat>(xs, Ones(n), 1) == xs && Select<nat>(xs, Ones(n), 0) == []
  {
    if n > 0 {
      assert Ones(n)[..n - 1] == Ones(n - 1);
      SelectOnes(xs[..n - 1], n - 1);
      assert xs == xs[..n - 1] + [xs[n - 1]];
    }
  }

  lemma FirstPilotFits(xs: seq<nat>, pos: Pos)
    requires forall i, j | 0 <= i < j < |xs| :: pos(xs[i], 0) != pos(xs[j], 0)
    ensures Least(xs, 0, {}, pos)
  {
  }

  lemma OneGroup(xs: seq<nat>)
    ensures Regroup(xs, Ones(|xs|), 2) == [[], xs] && SizesOf([[], xs]) == [0, |xs|]
  {
    SelectOnes(xs, |xs|);
    assert Regroup(xs, Ones(|xs|), 2)[0] == [] && Regroup(xs, Ones(|xs|), 2)[1] == xs;
    assert SizesOf([[], xs])[0] == 0 && SizesOf([[], xs])[1] == |xs|;
  }

  lemma OneInOrder(n: nat)
    requires n > 0
    ensures IsOrder([1], [0, n])
  {
  }

  lemma OnePlaced(xs: seq<nat>, pos: Pos)
    requires Least(xs, 0, {}, pos)
    ensures Placed([[], xs], [1], [0, 0], pos) && Untouched([1], [0, 0])
  {
    var order: seq<nat> := [1];
    assert order[..0] == [];
    assert LeastAt([[], xs], order, [0, 0], pos, 0);
  }

  /** Keys of one bucket whose first positions differ are placed by pilot zero. */
  lemma OneBucketPlanned(xs: seq<nat>, pos: Pos)
    requires |xs| > 0 && forall i, j | 0 <= i < j < |xs| :: pos(xs[i], 0) != pos(xs[j], 0)
    ensures Solves(xs, Ones(|xs|), 2, pos, Plan(Regroup(xs, Ones(|xs|), 2), [1], [0, 0]))
  {
    OneGroup(xs);
    OneInOrder(|xs|);
    FirstPilotFits(xs, pos);
    OnePlaced(xs, pos);
  }

  // ------------------------------------------------------------------- the environment --

  /** Hashes are the keys' first bytes, and a hash's first position is the hash itself. */
  function FirstByte(key: Bytes): U64 { if |key| == 0 then 0 else key[0] }
  function Spread(x: nat, p: nat): U64 { x % 256 * 0x100_0000_0000_0000 }
  function NoFingerprint(key: Bytes): Bytes8 { [0, 0, 0, 0, 0, 0, 0, 0] }
  function TwoBuckets(n: nat): Sizing { Sizing(n, 2, 1, 0) }

  function PlainEnv(crc: Crc): Env {
    Env(FirstByte, Spread, NoFingerprint, crc, TwoBuckets)
  }

  lemma SpreadPosition(x: nat, p: nat)
    requires x < 256
    ensures Position(Spread, 256)(x, p) == x
  {
    var h := Spread(x, p);
    assert h == x * 0x100_0000_0000_0000;
    assert Reduce(h, 256) == TWO64 * x / TWO64;
    DivMod(0, TWO64, x);
    assert Position(Spread, 256)(x, p) == Reduce(h, 256);
  }

  lemma SecondBucket(x: nat)
    ensures BucketOf(x, TwoBuckets(256)) == 1
  {
  }

  lemma AllSecond(xs: seq<nat>)
    ensures Buckets(xs, TwoBuckets(256)) == Ones(|xs|)
  {
    forall i | 0 <= i < |xs|
      ensures Buckets(xs, TwoBuckets(256))[i] == 1
    {
      SecondBucket(xs[i]);
    }
  }

  // --------------------------------------------------------------------------- rows --

  function Mebibyte(): (v: Bytes)
    ensures |v| == MAX_VALUE
  {
    seq(MAX_VALUE, _ => 0)
  }

  function LargeRows(): (rows: seq<Row>)
    ensures |rows| == 256 && forall i | 0 <= i < 256 :: rows[i] == Row([i], Mebibyte())
  {
    seq(256, i requires 0 <= i < 256 => Row([i], Mebibyte()))
  }

  /** LZ4 in blocks of 256 records, everything else as by default. */
  function LargeOptions(): Options { Options(LZ4, 256, 0, 0) }

  lemma LargeOptionsValid()
    ensures ValidOptions(LargeOptions()) && BlockSize(LargeOptions()) == 256
  {
    assert PowerOfTwo(1) && PowerOfTwo(2) && PowerOfTwo(4) && PowerOfTwo(8);
    assert PowerOfTwo(16) && PowerOfTwo(32) && PowerOfTwo(64) && PowerOfTwo(128);
  }

  lemma LargeHashes(xs: seq<nat>, rows: seq<Row>)
    requires rows == LargeRows() && xs == Hashes(rows, FirstByte)
    ensures |xs| == 256 && forall i | 0 <= i < 256 :: xs[i] == i
  {
    forall i | 0 <= i < 256
      ensures xs[i] == i
    {
      assert rows[i].key == [i];
    }
  }

  lemma LargeTable(xs: seq<nat>) returns (t: Table)
    requires |xs| == 256 && forall i | 0 <= i < 256 :: xs[i] == i
    ensures IsTable(t, xs, TwoBuckets(256), Spread)
  {
    var pos := Position(Spread, 256);
    forall i: nat, j: nat | i < j < |xs|
      ensures pos(xs[i], 0) != pos(xs[j], 0)
    {
      SpreadPosition(i, 0);
      SpreadPosition(j, 0);
    }
    OneBucketPlanned(xs, pos);
    AllSecond(xs);
    var pl := Plan(Regroup(xs, Ones(256), 2), [1], [0, 0]);
    assert PlanFor(xs, TwoBuckets(256), Spread, pl);
    t := Encode(256, TwoBuckets(256), pl.disp, Taken(pos, pl));
  }

  lemma LargeLaid(rows: seq<Row>, crc: Crc) returns (t: Table, content: seq<Row>)
    requires rows == LargeRows()
    ensures Laid(rows, PlainEnv(crc), t, content) && FileV2.Storable(t) && |content| == 256
  {
    var xs, z := Hashes(rows, FirstByte), TwoBuckets(256);
    LargeHashes(xs, rows);
    t := LargeTable(xs);
    MinimalPerfect(t, xs, z, Spread);
    TableStorable(t, xs, z, Spread);
    var slots := SlotsExist(t, xs, Spread, |xs|);
    EntriesContent(t, xs, rows, FirstByte, Spread, slots);
    content := InSlotOrder(rows, slots);
  }

  // --------------------------------------------------------------------------- size --

  lemma {:induction false} UvarintShort(v: nat)
    ensures |PutUvarint(v)| <= v + 1
  {
    if v >= 128 {
      UvarintShort(v / 128);
    }
  }

  lemma BlockShort(raw: Bytes)
    ensures |Block(raw)| <= 2 * |raw| + 2
  {
    UvarintShort(|raw|);
  }

  lemma OneUnit()
    ensures UnitCount(256, true, 8) == 1
  {
    Pow2Values();
    SplitBits(511, 8);
    OneQuotient(HighBits(511, 8), LowBits(511, 8));
  }

  lemma OneQuotient(h: nat, l: nat)
    requires 511 == h * 256 + l && l < 256
    ensures h == 1
  {
  }

  lemma ChunkRaw(recs: seq<Bytes>, limit: nat)
    requires |recs| == 256 && limit < 128 * 128 * 128 && forall i | 0 <= i < |recs| :: |recs[i]| <= limit
    ensures ChunkStart(8, 0) <= |recs| && |Raw(Chunk(recs, 0, 8))| <= 256 * (limit + 3)
  {
    Pow2Values();
    ChunkBounded(recs, 0, 8, limit);
    ChunkBound(Chunk(recs, 0, 8), 256, limit);
  }

  /** The whole dataset is one block, far below the limits of the offsets. */
  lemma LargeBlob(content: seq<Row>, o: Format, fp: Fingerprint)
    requires ValidFormat(o) && o.lz4 && o.shift == 8 && o.fpW == 0 && |content| == 256 && AllStorable(content)
    ensures |Blob(UnitsFor(content, o, fp))| <= MAX_BLOB
  {
    var recs, units, limit := StoredRows(content, 0, fp), UnitsFor(content, o, fp), 2 + MAX_KEY + MAX_VALUE;
    forall i | 0 <= i < |recs|
      ensures |recs[i]| <= limit
    {
      StoredSize(content[i], 0, fp);
    }
    OneUnit();
    UnitIs(content, o, fp, 0);
    ChunkRaw(recs, limit);
    BlockShort(Raw(Chunk(recs, 0, 8)));
    FlatPrefix(units, 0, Same);
    assert units[..0] == [] && units[..1] == units;
  }

  // ------------------------------------------------------------------------- the file --

  /** The layout of full-key rows in one block gets a width. */
  lemma LargePlans(rows: seq<Row>, opts: Options, env: Env, t: Table, content: seq<Row>) returns (width: nat)
    requires ValidOptions(opts) && opts.compression == LZ4 && BlockSize(opts) == 256 && opts.offsetWidth == 0 && opts.fingerprintBytes == 0
    requires |rows| == 256 && AllStorable(rows) && Laid(rows, env, t, content) && FileV2.Storable(t) && |content| == 256
    ensures Plans(rows, opts, env, t, content, width)
  {
    forall k | 0 <= k < |content|
      ensures Rows.Storable(content[k])
    {
      assert content[k] in rows;
    }
    var o := FormatOf(opts, 4);
    ShiftEight(o.shift);
    LargeBlob(content, o, env.fp);
    width := ChooseWidth(0, |Blob(UnitsFor(content, o, env.fp))|).value;
    UnitsIgnoreWidth(content, opts, env.fp, 4, width);
  }

  lemma LargeStorable(rows: seq<Row>)
    requires rows == LargeRows()
    ensures |rows| == 256 && AllStorable(rows) && forall k | 0 <= k < 256 :: |rows[k].value| == MAX_VALUE
  {
  }

  /** The rows have a file, whatever the checksum function. */
  lemma LargeFile(rows: seq<Row>, opts: Options, env: Env, crc: Crc) returns (file: Bytes)
    requires rows == LargeRows() && opts == LargeOptions() && env == PlainEnv(crc)
    ensures IsFile(rows, opts, env, file)
  {
    LargeStorable(rows);
    LargeOptionsValid();
    var t, content := LargeLaid(rows, crc);
    var width := LargePlans(rows, opts, env, t, content);
    file := File(t, FormatOf(opts, width), UnitsFor(content, FormatOf(opts, width), env.fp), env.crc);
  }

  /**
   So there are rows that compile with 256 records per block, whose file opens, checksum and all, and one of whose
   lookups reports corruption.
  */
  lemma CompiledButCorrupted(crc: Crc, checkCrc: bool) returns (rows: seq<Row>, opts: Options, env: Env, file: Bytes, m: Mapping, i: nat)
    ensures AllStorable(rows) && ValidOptions(opts) && opts.compression == LZ4 && BlockSize(opts) == 256 && env.crc == crc
    ensures IsFile(rows, opts, env, file) && ParseV2(file, checkCrc, crc) == FileV1.Ok(m) && FileV2.Readable(m) && i < |rows|
    ensures Entry(m, env.hash(rows[i].key), rows[i].key, env.mixer, env.fp) == Corrupted
  {
    rows, opts, env := LargeRows(), LargeOptions(), PlainEnv(crc);
    LargeStorable(rows);
    LargeOptionsValid();
    file := LargeFile(rows, opts, env, crc);
    m, i := LargeRowsFail(rows, opts, env, file, checkCrc);
  }
}
