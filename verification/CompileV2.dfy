/** CompileWithOptions, and what a version 2 file is as a function of the set of rows. */
module CompileV2 {
  import opened Words
  import opened Rows
  import opened Blocks
  import opened Greedy
  import opened PtHash
  import opened FileV2
  import opened ReadV2
  import opened LookupV2

  // -------------------------------------------------------------------- options --

  datatype Compression = NoCompression | LZ4 | OtherCompression

  datatype Options = Options(compression: Compression, blockSize: int, offsetWidth: int, fingerprintBytes: int)

  predicate PowerOfTwo(v: int) {
    v >= 1 && (v == 1 || (v % 2 == 0 && PowerOfTwo(v / 2)))
  }

  /** bits.TrailingZeros of a power of two */
  function Exponent(v: int): (k: nat)
    requires PowerOfTwo(v)
    ensures Pow2(k) == v
  {
    if v == 1 then 0 else 1 + Exponent(v / 2)
  }

  function BlockSize(opts: Options): int { if opts.blockSize == 0 then 8 else opts.blockSize }

  predicate ValidOptions(opts: Options) {
    && opts.compression != OtherCompression
    && (opts.compression == LZ4 ==> 1 <= BlockSize(opts) <= 256 && PowerOfTwo(BlockSize(opts)))
    && (opts.offsetWidth == 0 || opts.offsetWidth == 4 || opts.offsetWidth == 5)
    && (opts.fingerprintBytes == 0 || opts.fingerprintBytes == 4 || opts.fingerprintBytes == 8)
  }

  /** Which options are accepted, value by value. */
  lemma OptionsIff(opts: Options)
    ensures ValidOptions(opts) <==>
      && (opts.compression == NoCompression || opts.compression == LZ4)
      && (opts.compression == LZ4 ==> opts.blockSize in {0, 1, 2, 4, 8, 16, 32, 64, 128, 256})
      && opts.offsetWidth in {0, 4, 5} && opts.fingerprintBytes in {0, 4, 8}
  {
    PowersUpTo256(BlockSize(opts));
  }

  lemma PowersUpTo256(v: int)
    ensures 1 <= v <= 256 && PowerOfTwo(v) <==> v in {1, 2, 4, 8, 16, 32, 64, 128, 256}
  {
    if v > 1 && v % 2 == 0 && v <= 256 {
      PowersUpTo256(v / 2);
    }
  }

  /** The width of the offsets, if the blob can be addressed. */
  function ChooseWidth(offsetWidth: int, blobLen: nat): Option<nat>
    requires offsetWidth == 0 || offsetWidth == 4 || offsetWidth == 5
  {
    if blobLen > MAX_BLOB then None
    else if offsetWidth == 0 then Some(if blobLen <= TWO32 - 1 then 4 else 5)
    else if offsetWidth == 4 && blobLen > TWO32 - 1 then None
    else Some(offsetWidth)
  }

  /** The chosen width reaches the whole blob; a blob that some valid width reaches is rejected only by a forced width of 4. */
  lemma WidthReaches(offsetWidth: int, blobLen: nat)
    requires offsetWidth == 0 || offsetWidth == 4 || offsetWidth == 5
    ensures var w := ChooseWidth(offsetWidth, blobLen); w.Some? ==> (w.value == 4 || w.value == 5) && blobLen <= Reach(w.value)
    ensures ChooseWidth(offsetWidth, blobLen).None? <==> blobLen > Reach(if offsetWidth == 4 then 4 else 5)
  {
  }

  function FormatOf(opts: Options, width: nat): (o: Format)
    requires ValidOptions(opts) && (width == 4 || width == 5)
    ensures ValidFormat(o) && o.width == width && o.fpW == opts.fingerprintBytes && (o.lz4 <==> opts.compression == LZ4)
    ensures opts.compression == LZ4 ==> Pow2(o.shift) == BlockSize(opts)
  {
    var shift := if opts.compression == LZ4 then Exponent(BlockSize(opts)) else 0;
    SmallExponent(shift, if opts.compression == LZ4 then BlockSize(opts) else 1);
    Format(opts.compression == LZ4, shift, opts.fingerprintBytes, width)
  }

  lemma SmallExponent(k: nat, v: nat)
    requires v <= 256 && (k == 0 || Pow2(k) == v)
    ensures k <= 8
  {
    Pow2Values();
    if k > 8 {
      Pow2Monotone(9, k);
      assert false;
    }
  }

  // -------------------------------------------------------------- specification --

  /** The facts about BuildWith's floating-point sizing that the format relies on. */
  predicate GoodSizing(n: nat, z: Sizing) {
    ValidSizing(n, z) && z.m <= 2 * n + 16 && z.nb <= 6 * n + 2 && z.p1thr < TWO64
  }

  predicate GoodEnv(env: Env, n: nat) {
    0 < n ==> GoodSizing(n, env.sizing(n))
  }

  /** slotEntry is []int32 */
  const MAX_ROWS := 0x7FFF_FFFF

  /** The units the rows are stored as. */
  function UnitsFor(content: seq<Row>, o: Format, fp: Fingerprint): seq<Bytes>
    requires ValidFormat(o)
  {
    UnitsOf(StoredRows(content, o.fpW, fp), o)
  }

  /** The table of the rows' hashes, and the rows in its slots. */
  ghost predicate Laid(rows: seq<Row>, env: Env, t: Table, content: seq<Row>) {
    && IsTable(t, Hashes(rows, env.hash), env.sizing(|rows|), env.mixer)
    && IsContent(t, content, rows, env.hash, env.mixer)
  }

  ghost predicate Plans(rows: seq<Row>, opts: Options, env: Env, t: Table, content: seq<Row>, width: nat) {
    && ValidOptions(opts) && 0 < |rows| <= MAX_ROWS && (width == 4 || width == 5)
    && Laid(rows, env, t, content) && FileV2.Storable(t)
    && ChooseWidth(opts.offsetWidth, |Blob(UnitsFor(content, FormatOf(opts, width), env.fp))|) == Some(width)
  }

  /** The file is the one CompileWithOptions writes for the rows. */
  ghost predicate IsFile(rows: seq<Row>, opts: Options, env: Env, file: Bytes) {
    exists t, content, width :: Plans(rows, opts, env, t, content, width)
      && file == File(t, FormatOf(opts, width), UnitsFor(content, FormatOf(opts, width), env.fp), env.crc)
  }

  // ------------------------------------------------------------------- tables --

  lemma EncodeStorable(n: nat, z: Sizing, pilots: seq<nat>, taken: set<nat>)
    requires GoodSizing(n, z) && n <= MAX_ROWS && |pilots| == z.nb && forall b | 0 <= b < |pilots| :: pilots[b] <= LIMIT
    ensures FileV2.Storable(Encode(n, z, pilots, taken)) && Encode(n, z, pilots, taken).n == n
  {
    EncodeReadable(n, z, pilots, taken);
  }

  /** A table that was built satisfies everything the header check asks for. */
  lemma TableStorable(t: Table, xs: seq<nat>, z: Sizing, mixer: Mixer)
    requires IsTable(t, xs, z, mixer) && |xs| <= MAX_ROWS && GoodSizing(|xs|, z)
    ensures FileV2.Storable(t) && t.n == |xs|
  {
    var pos := Position(mixer, z.m);
    var pl :| PlanFor(xs, z, mixer, pl) && t == Encode(|xs|, z, pl.disp, Placement.Taken(pos, pl));
    Placement.DispBounded(xs, Buckets(xs, z), z.nb, pos, pl);
    EncodeStorable(|xs|, z, pl.disp, Placement.Taken(pos, pl));
  }

  /** Distinct hashes come from distinct keys. */
  lemma KeysDistinct(rows: seq<Row>, hash: Hash)
    requires Distinct(Hashes(rows, hash))
    ensures DistinctKeys(rows)
  {
    var hs := Hashes(rows, hash);
    forall i, j | 0 <= i < j < |rows|
      ensures rows[i].key != rows[j].key
    {
      assert hs[i] != hs[j];
    }
  }

  // ----------------------------------------------------------------- end to end --

  lemma PlansHold(rows: seq<Row>, opts: Options, env: Env, t: Table, content: seq<Row>, width: nat)
    requires AllStorable(rows) && Plans(rows, opts, env, t, content, width)
    ensures DistinctKeys(rows)
    ensures var o := FormatOf(opts, width); var units := UnitsFor(content, o, env.fp);
      ReadV2.Fits(t, o, units) && Holds(MappingOf(t, o, units, env.crc), o, content, rows, env)
  {
    var o := FormatOf(opts, width);
    MinimalPerfect(t, Hashes(rows, env.hash), env.sizing(|rows|), env.mixer);
    KeysDistinct(rows, env.hash);
    WidthReaches(opts.offsetWidth, |Blob(UnitsFor(content, o, env.fp))|);
    forall s | 0 <= s < |content|
      ensures Rows.Storable(content[s])
    {
      assert content[s] in rows;
    }
    StoredSane(content, o, env.fp);
    MappedBacked(MappingOf(t, o, UnitsFor(content, o, env.fp), env.crc), t, o, StoredRows(content, o.fpW, env.fp), env.crc);
  }

  /** The reader accepts every block: in the rows' only layout, each has at most 2^28 bytes of content. */
  ghost predicate BlocksReadable(rows: seq<Row>, opts: Options, env: Env) {
    forall t, content, width | Plans(rows, opts, env, t, content, width) ::
      BlocksFit(StoredRows(content, opts.fingerprintBytes, env.fp), FormatOf(opts, width))
  }

  /** A compiled file opens, with or without its checksum verified, and holds the rows, which had pairwise different keys. */
  lemma EndToEnd(rows: seq<Row>, opts: Options, env: Env, file: Bytes, checkCrc: bool)
      returns (m: Mapping, content: seq<Row>, width: nat)
    requires AllStorable(rows) && IsFile(rows, opts, env, file)
    ensures DistinctKeys(rows) && |file| >= 8 && file[..4] == FileV1.Magic() && BE(file[4..8]) == 2
    ensures ParseV2(file, checkCrc, env.crc) == FileV1.Ok(m)
    ensures Plans(rows, opts, env, m.t, content, width) && Holds(m, FormatOf(opts, width), content, rows, env)
  {
    var t, c, w :| Plans(rows, opts, env, t, c, w) && file == File(t, FormatOf(opts, w), UnitsFor(c, FormatOf(opts, w), env.fp), env.crc);
    content, width := c, w;
    var o := FormatOf(opts, width);
    var units := UnitsFor(content, o, env.fp);
    m := MappingOf(t, o, units, env.crc);
    PlansHold(rows, opts, env, t, content, width);
    ReadV2.ParsesBack(t, o, units, env.crc, checkCrc);
  }

  /** Rows that have a file have pairwise different keys, whether or not duplicates were looked for. */
  lemma FileDistinct(rows: seq<Row>, opts: Options, env: Env, file: Bytes)
    requires IsFile(rows, opts, env, file)
    ensures DistinctKeys(rows)
  {
    var t, c, width :| Plans(rows, opts, env, t, c, width)
      && file == File(t, FormatOf(opts, width), UnitsFor(c, FormatOf(opts, width), env.fp), env.crc);
    MinimalPerfect(t, Hashes(rows, env.hash), env.sizing(|rows|), env.mixer);
    KeysDistinct(rows, env.hash);
  }

  /** With full keys and readable blocks, every lookup agrees with the plain map, for present and absent keys. */
  lemma LookupFull(rows: seq<Row>, opts: Options, env: Env, file: Bytes, checkCrc: bool, key: Bytes)
    requires AllStorable(rows) && IsFile(rows, opts, env, file) && opts.fingerprintBytes == 0 && BlocksReadable(rows, opts, env)
    ensures var p := ParseV2(file, checkCrc, env.crc);
      p.Ok? && FileV2.Readable(p.m) && Entry(p.m, env.hash(key), key, env.mixer, env.fp) == Expected(rows, key)
  {
    var m, content, width := EndToEnd(rows, opts, env, file, checkCrc);
    LookupAgrees(m, FormatOf(opts, width), content, rows, env, key);
  }

  /** With fingerprints too, every row's key finds its value. */
  lemma LookupPresent(rows: seq<Row>, opts: Options, env: Env, file: Bytes, checkCrc: bool, i: nat)
    requires AllStorable(rows) && IsFile(rows, opts, env, file) && BlocksReadable(rows, opts, env) && i < |rows|
    ensures var p := ParseV2(file, checkCrc, env.crc);
      p.Ok? && FileV2.Readable(p.m) && Entry(p.m, env.hash(rows[i].key), rows[i].key, env.mixer, env.fp) == Found(rows[i].value)
  {
    var m, content, width := EndToEnd(rows, opts, env, file, checkCrc);
    PresentKey(m, FormatOf(opts, width), content, rows, env, i);
  }

  /** A mapping has the options; an automatic offset width is the least that reaches the blob. */
  ghost predicate Honours(m: Mapping, opts: Options) {
    && (if opts.offsetWidth != 0 then m.offW == opts.offsetWidth else m.offW == if m.end - m.d <= TWO32 - 1 then 4 else 5)
    && m.end - m.d <= Reach(m.offW)
    && (m.lean <==> opts.fingerprintBytes != 0) && m.fpW == opts.fingerprintBytes
    && (m.compressed <==> opts.compression == LZ4)
    && (m.compressed ==> Pow2(m.shift) == if opts.blockSize == 0 then 8 else opts.blockSize)
  }

  lemma FormatHonours(opts: Options, t: Table, units: seq<Bytes>, width: nat, crc: Crc)
    requires ValidOptions(opts) && FileV2.Storable(t) && ChooseWidth(opts.offsetWidth, |Blob(units)|) == Some(width)
    ensures (width == 4 || width == 5) && Honours(MappingOf(t, FormatOf(opts, width), units, crc), opts)
  {
  }

  lemma Compiled(rows: seq<Row>, opts: Options, env: Env, file: Bytes, checkCrc: bool) returns (t: Table, content: seq<Row>, width: nat)
    requires AllStorable(rows) && IsFile(rows, opts, env, file)
    ensures Plans(rows, opts, env, t, content, width)
    ensures ParseV2(file, checkCrc, env.crc) == FileV1.Ok(MappingOf(t, FormatOf(opts, width), UnitsFor(content, FormatOf(opts, width), env.fp), env.crc))
  {
    var u, c, w :| Plans(rows, opts, env, u, c, w) && file == File(u, FormatOf(opts, w), UnitsFor(c, FormatOf(opts, w), env.fp), env.crc);
    t, content, width := u, c, w;
    PlansHold(rows, opts, env, t, content, width);
    ReadV2.ParsesBack(t, FormatOf(opts, w), UnitsFor(c, FormatOf(opts, w), env.fp), env.crc, checkCrc);
  }

  /** The parsed file has the options it was compiled with. */
  lemma OptionsHonoured(rows: seq<Row>, opts: Options, env: Env, file: Bytes, checkCrc: bool)
    requires AllStorable(rows) && IsFile(rows, opts, env, file)
    ensures var p := ParseV2(file, checkCrc, env.crc); p.Ok? && Honours(p.m, opts)
  {
    var t, content, width := Compiled(rows, opts, env, file, checkCrc);
    FormatHonours(opts, t, UnitsFor(content, FormatOf(opts, width), env.fp), width, env.crc);
  }

  // ------------------------------------------------------------ when blocks are readable --

  lemma ContentBounded(rows: seq<Row>, opts: Options, env: Env, t: Table, content: seq<Row>, width: nat, limit: nat)
    requires Plans(rows, opts, env, t, content, width)
    requires forall i | 0 <= i < |rows| :: |StoredRow(rows[i], opts.fingerprintBytes, env.fp)| <= limit
    ensures forall i | 0 <= i < |content| :: |StoredRows(content, opts.fingerprintBytes, env.fp)[i]| <= limit
  {
    forall i | 0 <= i < |content|
      ensures |StoredRow(content[i], opts.fingerprintBytes, env.fp)| <= limit
    {
      assert content[i] in rows;
    }
  }

  /** Blocks of rows that are short enough for the block size are readable, for every block size. */
  lemma ShortRowsReadable(rows: seq<Row>, opts: Options, env: Env, limit: nat)
    requires ValidOptions(opts) && limit < 128 * 128 * 128 && (opts.compression == LZ4 ==> BlockSize(opts) * (limit + 3) <= MAX_RAW)
    requires forall i | 0 <= i < |rows| :: |StoredRow(rows[i], opts.fingerprintBytes, env.fp)| <= limit
    ensures BlocksReadable(rows, opts, env)
  {
    forall t, content, width | Plans(rows, opts, env, t, content, width)
      ensures BlocksFit(StoredRows(content, opts.fingerprintBytes, env.fp), FormatOf(opts, width))
    {
      var o, recs := FormatOf(opts, width), StoredRows(content, opts.fingerprintBytes, env.fp);
      ContentBounded(rows, opts, env, t, content, width, limit);
      forall s | 0 <= s < |recs|
        ensures !TooLarge(recs, o, s)
      {
        RawBounded(recs, o.shift, s, limit);
      }
    }
  }

  /** Uncompressed files have no blocks to reject, and blocks of at most 128 records are readable whatever the rows. */
  lemma SmallBlocksReadable(rows: seq<Row>, opts: Options, env: Env)
    requires ValidOptions(opts) && AllStorable(rows) && (opts.compression == LZ4 ==> BlockSize(opts) <= 128)
    ensures BlocksReadable(rows, opts, env)
  {
    var limit := 2 + MAX_KEY + MAX_VALUE;
    forall i | 0 <= i < |rows|
      ensures |StoredRow(rows[i], opts.fingerprintBytes, env.fp)| <= limit
    {
      StoredSize(rows[i], opts.fingerprintBytes, env.fp);
    }
    ShortRowsReadable(rows, opts, env, limit);
  }
}
