/** The version 1 file: what write emits, and what parseHeader and entry read back. */
module FileV1 {
  import opened Words
  import opened Flatten
  import opened Rows
  import opened Greedy
  import opened Placement
  import opened PlaceV1

  const HEADER := 33
  const MAX_INT64 := 0x7FFF_FFFF_FFFF_FFFF

  // -------------------------------------------------------------------- layout --

  /** "ATTO" */
  function Magic(): Bytes { [0x41, 0x54, 0x54, 0x4F] }

  /** The rows in slot order. */
  function Content(rows: seq<Row>, slotRow: seq<nat>): (c: seq<Option<Row>>)
    ensures |c| == |slotRow|
    ensures forall s | 0 <= s < |c| :: c[s] == if slotRow[s] < |rows| then Some(rows[slotRow[s]]) else None
  {
    seq(|slotRow|, s requires 0 <= s < |slotRow| => if slotRow[s] < |rows| then Some(rows[slotRow[s]]) else None)
  }

  function SlotBytes(c: Option<Row>): Bytes {
    match c
    case None => []
    case Some(r) => Record(r)
  }

  function DataBlock(content: seq<Option<Row>>): Bytes {
    Flat(content, SlotBytes)
  }

  /** off<<32 | ln, or zero for an empty slot */
  function SlotWord(content: seq<Option<Row>>, s: nat): nat
    requires s < |content|
  {
    match content[s]
    case None => 0
    case Some(r) => |DataBlock(content[..s])| * TWO32 + |Record(r)|
  }

  function SlotWords(content: seq<Option<Row>>): (ws: seq<nat>)
    ensures |ws| == |content| && forall s: nat | s < |ws| :: ws[s] == SlotWord(content, s)
  {
    seq(|content|, s requires 0 <= s < |content| => SlotWord(content, s))
  }

  /** A number in w big-endian bytes. */
  function EncodeBE(w: nat): nat -> Bytes { v => ToBE(v, w) }

  function Wide(disp: seq<nat>): bool { MaxOf(disp) > 0xFFFF }

  function DispWidth(wide: bool): nat { if wide then 4 else 2 }

  function Header(z: Sizes, wide: bool): (h: Bytes)
    ensures |h| == HEADER
  {
    Magic() + ToBE(1, 4) + [if wide then 2 else 1] + ToBE(z.slots, 8) + ToBE(z.buckets, 8) + ToBE(0, 8)
  }

  function DispBytes(wide: bool, disp: seq<nat>): Bytes {
    Flat(disp, EncodeBE(DispWidth(wide)))
  }

  function WordBytes(content: seq<Option<Row>>): Bytes {
    Flat(SlotWords(content), EncodeBE(8))
  }

  function Body(z: Sizes, wide: bool, disp: seq<nat>, content: seq<Option<Row>>): Bytes {
    Header(z, wide) + DispBytes(wide, disp) + WordBytes(content) + DataBlock(content)
  }

  function WithTrailer(body: Bytes, crc: Crc): Bytes {
    body + ToBE(crc(body), 4)
  }

  function File(z: Sizes, wide: bool, disp: seq<nat>, content: seq<Option<Row>>, crc: Crc): Bytes {
    WithTrailer(Body(z, wide, disp, content), crc)
  }

  // ------------------------------------------------------------------- reading --

  datatype Mapping = Mapping(data: Bytes, is32: bool, slots: nat, buckets: nat, r: nat, d: nat, end: nat)

  datatype ParseError = InvalidMagic | UnknownVersion(version: nat) | CorruptedBinary | Unsupported | ChecksumMismatch

  datatype Parsed<M> = Ok(m: M) | Err(error: ParseError)

  /** The version 1 part of parseHeader; the size checks cannot overflow. */
  function ParseV1(data: Bytes, checkCrc: bool, crc: Crc): (p: Parsed<Mapping>)
    ensures p.Ok? ==> Readable(p.m) && p.m.data == data
  {
    if |data| < HEADER then Err(CorruptedBinary)
    else if data[8] != 1 && data[8] != 2 then Err(CorruptedBinary)
    else
      var w := DispWidth(data[8] == 2);
      var S, B := BE(data[9..17]), BE(data[17..25]);
      if S == 0 || B == 0 then Err(CorruptedBinary)
      else if B > (TWO64 - 1 - HEADER) / w || S > (TWO64 - 1) / 8 then Err(CorruptedBinary)
      else
        var R := HEADER + B * w;
        if R > TWO64 - 1 - S * 8 - 4 then Err(CorruptedBinary)
        else if R + S * 8 + 4 > |data| then Err(CorruptedBinary)
        else if checkCrc && BE(data[|data| - 4..]) != crc(data[..|data| - 4]) then Err(ChecksumMismatch)
        else Ok(Mapping(data, data[8] == 2, S, B, R, R + S * 8, |data| - 4))
  }

  /** The last four bytes are the checksum of the others. */
  predicate TrailerOk(data: Bytes, crc: Crc) {
    |data| >= 4 && BE(data[|data| - 4..]) == crc(data[..|data| - 4])
  }

  /** Verifying the checksum rejects exactly the files whose trailer is wrong, among those accepted without verifying. */
  lemma VerifiedIff(data: Bytes, crc: Crc)
    ensures var p, q := ParseV1(data, false, crc), ParseV1(data, true, crc);
      && (q.Ok? <==> p.Ok? && TrailerOk(data, crc))
      && q == if p.Ok? && !TrailerOk(data, crc) then Err(ChecksumMismatch) else p
  {
  }

  /** Without verifying, exactly the files are accepted whose sections fit: the overflow checks reject none that do. */
  lemma AcceptedIff(data: Bytes, crc: Crc)
    requires |data| < TWO64
    ensures ParseV1(data, false, crc).Ok? <==>
      && |data| >= 33 && (data[8] == 1 || data[8] == 2) && BE(data[9..17]) > 0 && BE(data[17..25]) > 0
      && 33 + BE(data[17..25]) * (if data[8] == 2 then 4 else 2) + 8 * BE(data[9..17]) + 4 <= |data|
  {
    if |data| >= 33 && (data[8] == 1 || data[8] == 2) {
      NoOverflow(BE(data[17..25]), if data[8] == 2 then 4 else 2, BE(data[9..17]), |data|);
    }
  }

  lemma NoOverflow(B: nat, w: nat, S: nat, size: nat)
    requires (w == 2 || w == 4) && size < TWO64
    ensures 33 + B * w + 8 * S + 4 <= size ==>
      B <= (TWO64 - 1 - 33) / w && S <= (TWO64 - 1) / 8 && 33 + B * w <= TWO64 - 1 - S * 8 - 4
  {
  }

  /** What parseHeader has checked; every access of Entry stays in data. */
  predicate Readable(m: Mapping) {
    && m.slots > 0 && m.buckets > 0 && m.r == HEADER + m.buckets * DispWidth(m.is32)
    && m.d == m.r + m.slots * 8 && m.d + 4 <= |m.data| && m.end == |m.data| - 4
  }

  lemma CellInside(i: nat, n: nat, w: nat)
    requires i < n
    ensures 0 <= i * w && i * w + w <= n * w
  {
    MulMonotone(w, i + 1, n);
  }

  function DispAt(m: Mapping, b: nat): nat
    requires Readable(m) && b < m.buckets
  {
    var w := DispWidth(m.is32);
    CellInside(b, m.buckets, w);
    BE(m.data[HEADER + b * w..HEADER + b * w + w])
  }

  function WordAt(m: Mapping, s: nat): nat
    requires Readable(m) && s < m.slots
  {
    BE(m.data[m.r + s * 8..m.r + s * 8 + 8])
  }

  /** entry, for version 1 */
  function Entry(m: Mapping, h: nat, key: Bytes): Answer
    requires Readable(m)
  {
    var slot := Xor(Lo(h), DispAt(m, Hi(h) % m.buckets)) % m.slots;
    RecordAt(m, WordAt(m, slot), key)
  }

  function RecordAt(m: Mapping, word: nat, key: Bytes): Answer
    requires Readable(m)
  {
    var ln := word % TWO32;
    var start := m.d + word / TWO32;
    if ln == 0 then NotFound
    else if ln < 2 || start + ln > m.end then Corrupted
    else MatchRecord(m.data[start..start + ln], key)
  }

  // --------------------------------------------------------------- round trip --

  ghost predicate Compiled(rows: seq<Row>, hash: Hash, z: Sizes, disp: seq<nat>, slotRow: seq<nat>) {
    && AllStorable(rows) && |rows| < EMPTY && IsPlacement(Hashes(rows, hash), z, disp, slotRow)
    && |DataBlock(Content(rows, slotRow))| < TWO32
  }

  /** The mapping the header of a written file parses to. */
  ghost predicate IsMapping(m: Mapping, z: Sizes, wide: bool, disp: seq<nat>, content: seq<Option<Row>>, crc: Crc) {
    && m.data == File(z, wide, disp, content, crc) && m.is32 == wide && m.slots == z.slots && m.buckets == z.buckets
    && |disp| == z.buckets && |content| == z.slots && Readable(m)
  }

  lemma HeaderFields(f: Bytes, z: Sizes, wide: bool)
    requires z.slots < TWO64 && z.buckets < TWO64 && |f| >= HEADER && f[..HEADER] == Header(z, wide)
    ensures f[..4] == Magic() && BE(f[4..8]) == 1 && f[8] == if wide then 2 else 1
    ensures BE(f[9..17]) == z.slots && BE(f[17..25]) == z.buckets
  {
    var h := f[..HEADER];
    Pow2Values();
    assert f[..4] == h[..4] == Magic();
    assert f[4..8] == h[4..8] == ToBE(1, 4);
    assert f[8] == h[8];
    assert f[9..17] == h[9..17] == ToBE(z.slots, 8);
    assert f[17..25] == h[17..25] == ToBE(z.buckets, 8);
    BEToBE(1, 4);
    BEToBE(z.slots, 8);
    BEToBE(z.buckets, 8);
  }

  lemma Trailer(body: Bytes, crc: Crc)
    ensures var f := WithTrailer(body, crc); |f| == |body| + 4 && f[..|f| - 4] == body && BE(f[|f| - 4..]) == crc(body)
  {
    var f := WithTrailer(body, crc);
    assert f[|f| - 4..] == ToBE(crc(body), 4);
    Pow2Values();
    BEToBE(crc(body), 4);
  }

  lemma Lengths(z: Sizes, wide: bool, disp: seq<nat>, content: seq<Option<Row>>)
    requires |disp| == z.buckets && |content| == z.slots
    ensures |DispBytes(wide, disp)| == z.buckets * DispWidth(wide) && |WordBytes(content)| == z.slots * 8
    ensures |Body(z, wide, disp, content)| == HEADER + z.buckets * DispWidth(wide) + z.slots * 8 + |DataBlock(content)|
  {
    FlatUniform(disp, DispWidth(wide), EncodeBE(DispWidth(wide)));
    FlatUniform(SlotWords(content), 8, EncodeBE(8));
  }

  lemma WidthBound(b: nat, w: nat)
    requires w == 2 || w == 4
    requires HEADER + b * w < TWO64
    ensures b <= (TWO64 - 1 - HEADER) / w && b < TWO64
  {
  }

  /** A file with a proper header and trailer parses. */
  lemma ParsesHeader(f: Bytes, z: Sizes, wide: bool, checkCrc: bool, crc: Crc)
    requires ValidSizes(z) && |f| >= HEADER && |f| <= MAX_INT64 && f[8] == if wide then 2 else 1
    requires BE(f[9..17]) == z.slots && BE(f[17..25]) == z.buckets
    requires HEADER + z.buckets * DispWidth(wide) + z.slots * 8 + 4 <= |f| && BE(f[|f| - 4..]) == crc(f[..|f| - 4])
    ensures var p := ParseV1(f, checkCrc, crc); p.Ok? && p.m.is32 == wide && p.m.slots == z.slots && p.m.buckets == z.buckets
  {
    WidthBound(z.buckets, DispWidth(wide));
  }

  /** The header and the size of a written file. */
  lemma FileHead(z: Sizes, wide: bool, disp: seq<nat>, content: seq<Option<Row>>, crc: Crc)
    requires |disp| == z.buckets && |content| == z.slots
    ensures var f := File(z, wide, disp, content, crc);
      && |f| >= HEADER && f[..HEADER] == Header(z, wide) && BE(f[|f| - 4..]) == crc(f[..|f| - 4])
      && HEADER + z.buckets * DispWidth(wide) + z.slots * 8 + 4 <= |f|
  {
    Lengths(z, wide, disp, content);
    Trailer(Body(z, wide, disp, content), crc);
  }

  /** A written file of any size a file can have parses, with or without checking the trailer. */
  lemma ParsesBack(z: Sizes, wide: bool, disp: seq<nat>, content: seq<Option<Row>>, crc: Crc, checkCrc: bool)
    requires ValidSizes(z) && |disp| == z.buckets && |content| == z.slots
    requires |File(z, wide, disp, content, crc)| <= MAX_INT64
    ensures var f := File(z, wide, disp, content, crc); |f| >= HEADER && f[..4] == Magic() && BE(f[4..8]) == 1
    ensures var p := ParseV1(File(z, wide, disp, content, crc), checkCrc, crc); p.Ok? && IsMapping(p.m, z, wide, disp, content, crc)
  {
    var f := File(z, wide, disp, content, crc);
    FileHead(z, wide, disp, content, crc);
    WidthBound(z.buckets, DispWidth(wide));
    HeaderFields(f, z, wide);
    ParsesHeader(f, z, wide, checkCrc, crc);
  }

  lemma SectionsOf(m: Mapping, z: Sizes, wide: bool, disp: seq<nat>, content: seq<Option<Row>>, crc: Crc)
    requires IsMapping(m, z, wide, disp, content, crc)
    ensures HEADER <= m.r <= m.d <= m.end <= |m.data|
    ensures m.data[HEADER..m.r] == DispBytes(wide, disp) && m.data[m.r..m.d] == WordBytes(content)
    ensures m.data[m.d..m.end] == DataBlock(content)
  {
    Lengths(z, wide, disp, content);
    FiveSections(Header(z, wide), DispBytes(wide, disp), WordBytes(content), DataBlock(content),
      ToBE(crc(Body(z, wide, disp, content)), 4));
  }

  lemma ReadsDisp(m: Mapping, b: nat, v: nat)
    requires Readable(m) && b < m.buckets && v < Pow2(8 * DispWidth(m.is32))
    requires var w := DispWidth(m.is32); 0 <= b * w && b * w + w <= m.r - HEADER && m.data[HEADER..m.r][b * w..b * w + w] == ToBE(v, w)
    ensures DispAt(m, b) == v
  {
    var w := DispWidth(m.is32);
    PartOf(m.data, HEADER, m.r, b * w, b * w + w);
    BEToBE(v, w);
  }

  lemma DispStored(m: Mapping, z: Sizes, wide: bool, disp: seq<nat>, content: seq<Option<Row>>, crc: Crc, b: nat)
    requires IsMapping(m, z, wide, disp, content, crc) && b < z.buckets && disp[b] < Pow2(8 * DispWidth(wide))
    ensures DispAt(m, b) == disp[b]
  {
    SectionsOf(m, z, wide, disp, content, crc);
    FlatCell(disp, b, DispWidth(wide), EncodeBE(DispWidth(wide)));
    ReadsDisp(m, b, disp[b]);
  }

  lemma ReadsWord(m: Mapping, s: nat, v: U64)
    requires Readable(m) && s < m.slots && m.data[m.r..m.d][s * 8..s * 8 + 8] == ToBE(v, 8)
    ensures WordAt(m, s) == v
  {
    PartOf(m.data, m.r, m.d, s * 8, s * 8 + 8);
    Pow2Values();
    BEToBE(v, 8);
  }

  lemma WordStored(m: Mapping, z: Sizes, wide: bool, disp: seq<nat>, content: seq<Option<Row>>, crc: Crc, s: nat)
    requires IsMapping(m, z, wide, disp, content, crc) && s < z.slots && SlotWord(content, s) < TWO64
    ensures WordAt(m, s) == SlotWord(content, s)
  {
    SectionsOf(m, z, wide, disp, content, crc);
    FlatCell(SlotWords(content), s, 8, EncodeBE(8));
    ReadsWord(m, s, SlotWord(content, s));
  }

  lemma ReadsRecord(m: Mapping, off: nat, rec: Bytes, key: Bytes)
    requires Readable(m) && 2 <= |rec| < TWO32 && off + |rec| <= m.end - m.d && m.data[m.d..m.end][off..off + |rec|] == rec
    ensures RecordAt(m, off * TWO32 + |rec|, key) == MatchRecord(rec, key)
  {
    PartOf(m.data, m.d, m.end, off, off + |rec|);
    DivMod(|rec|, TWO32, off);
  }

  /** Where the record of an occupied slot lies in the data block. */
  lemma BlockHolds(content: seq<Option<Row>>, s: nat)
    requires s < |content| && content[s].Some?
    ensures var rec, off := Record(content[s].value), |DataBlock(content[..s])|;
      off + |rec| <= |DataBlock(content)| && DataBlock(content)[off..off + |rec|] == rec && SlotWord(content, s) == off * TWO32 + |rec|
  {
    FlatAt(content, s, SlotBytes);
  }

  /** The slot's word leads to the slot's record. */
  lemma RecordStored(m: Mapping, content: seq<Option<Row>>, s: nat, key: Bytes)
    requires Readable(m) && s < |content| && |DataBlock(content)| < TWO32
    requires m.d <= m.end && m.data[m.d..m.end] == DataBlock(content)
    ensures SlotWord(content, s) < TWO64
    ensures RecordAt(m, SlotWord(content, s), key) == if content[s].Some? then MatchRecord(Record(content[s].value), key) else NotFound
  {
    if content[s].Some? {
      BlockHolds(content, s);
      var rec, off := Record(content[s].value), |DataBlock(content[..s])|;
      ReadsRecord(m, off, rec, key);
    }
  }

  /** The displacements fit the width their maximum selects. */
  lemma DispFits(disp: seq<nat>, b: nat)
    requires b < |disp| && forall c | 0 <= c < |disp| :: disp[c] <= LIMIT
    ensures disp[b] < Pow2(8 * DispWidth(Wide(disp)))
  {
    Pow2Values();
  }

  /**
   Looking a key up in a compiled file is looking it up in the plain map of the rows, for present and
   absent keys, narrow and wide displacements, and no rows at all.
  */
  lemma LookupAgrees(m: Mapping, rows: seq<Row>, hash: Hash, z: Sizes, disp: seq<nat>, slotRow: seq<nat>, crc: Crc, key: Bytes)
    requires Compiled(rows, hash, z, disp, slotRow) && IsMapping(m, z, Wide(disp), disp, Content(rows, slotRow), crc)
    ensures Entry(m, hash(key), key) == Expected(rows, key)
  {
    var content, h := Content(rows, slotRow), hash(key);
    var b, s := Hi(h) % z.buckets, SlotOf1(h, z, disp);
    PlacementBounded(Hashes(rows, hash), z, disp);
    DispFits(disp, b);
    DispStored(m, z, Wide(disp), disp, content, crc, b);
    SectionsOf(m, z, Wide(disp), disp, content, crc);
    RecordStored(m, content, s, key);
    WordStored(m, z, Wide(disp), disp, content, crc, s);
    if content[s].Some? {
      RecordMatches(content[s].value, key);
    }
    KeysDistinct(rows, hash, z, disp, slotRow);
    SlotDecides(rows, Hashes(rows, hash), hash, z, disp, slotRow, h, slotRow[s], key);
  }

  lemma PlacementBounded(hs: seq<nat>, z: Sizes, disp: seq<nat>)
    requires ValidSizes(z) && exists pl :: PlanFor1(hs, z, pl) && pl.disp == disp
    ensures forall b | 0 <= b < |disp| :: disp[b] <= LIMIT
  {
    var pl :| PlanFor1(hs, z, pl) && pl.disp == disp;
    DispBounded(Los(hs), Buckets1(hs, z.buckets), z.buckets, Pos1(z.slots), pl);
  }

  /** Rows that could be placed have different keys, whether or not duplicates were looked for. */
  lemma KeysDistinct(rows: seq<Row>, hash: Hash, z: Sizes, disp: seq<nat>, slotRow: seq<nat>)
    requires IsPlacement(Hashes(rows, hash), z, disp, slotRow)
    ensures DistinctKeys(rows)
  {
    var hs := Hashes(rows, hash);
    forall i, j | 0 <= i < j < |rows|
      ensures rows[i].key != rows[j].key
    {
      assert AtHome(hs, z, disp, slotRow, i) && AtHome(hs, z, disp, slotRow, j);
    }
  }

  /** Only one row's hash can be looked up in slot s. */
  lemma OnlyHash(hs: seq<nat>, z: Sizes, disp: seq<nat>, slotRow: seq<nat>, h: nat, i: nat)
    requires Inverse(hs, z, disp, slotRow) && i < |hs| && hs[i] == h
    ensures slotRow[SlotOf1(h, z, disp)] == i
  {
    assert AtHome(hs, z, disp, slotRow, i);
  }

  /** The row in a key's slot is the only one that can have that key. */
  lemma SlotDecides(rows: seq<Row>, hs: seq<nat>, hash: Hash, z: Sizes, disp: seq<nat>, slotRow: seq<nat>, h: nat, r: nat, key: Bytes)
    requires hs == Hashes(rows, hash) && h == hash(key) && Inverse(hs, z, disp, slotRow) && DistinctKeys(rows)
    requires r == slotRow[SlotOf1(h, z, disp)]
    ensures Expected(rows, key) == if r < |rows| && rows[r].key == key then Found(rows[r].value) else NotFound
  {
    forall i | 0 <= i < |rows| && rows[i].key == key
      ensures i == r
    {
      assert hs[i] == h;
      OnlyHash(hs, z, disp, slotRow, h, i);
    }
    OnlyRow(rows, r, key);
  }

  lemma OnlyRow(rows: seq<Row>, r: nat, key: Bytes)
    requires DistinctKeys(rows) && forall i | 0 <= i < |rows| && rows[i].key == key :: i == r
    ensures Expected(rows, key) == if r < |rows| && rows[r].key == key then Found(rows[r].value) else NotFound
  {
    if r < |rows| && rows[r].key == key {
      ExpectedRow(rows, r);
    } else {
      ExpectedAbsent(rows, key);
    }
  }
}
