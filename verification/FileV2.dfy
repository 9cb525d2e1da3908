/** The version 2 file: its layout, and what parseHeaderV2, off, blockBytes and entryV2 read back. */
module FileV2 {
  import opened Words
  import opened Flatten
  import opened Rows
  import opened Blocks
  import opened PtHash
  import FileV1

  const HEADER2 := 64
  const MAX_BLOB := 0xFF_FFFF_FFFF

  /** keyFingerprint: any eight bytes. */
  type Bytes8 = s: Bytes | |s| == 8 witness [0, 0, 0, 0, 0, 0, 0, 0]
  type Fingerprint = Bytes -> Bytes8

  /** How records are stored: shift is the block size's exponent, fpW zero for full keys, width 4 or 5. */
  datatype Format = Format(lz4: bool, shift: nat, fpW: nat, width: nat)

  predicate ValidFormat(o: Format) {
    (o.fpW == 0 || o.fpW == 4 || o.fpW == 8) && (o.width == 4 || o.width == 5) && o.shift <= 8
  }

  // ------------------------------------------------------------------- offsets --

  /** offsetsSize */
  function OffsetsSize(count: nat, width: nat): nat {
    (count * width + 7) / 8 * 8 + if width == 5 then 8 else 0
  }

  function EncodeLE(w: nat): nat -> Bytes { v => ToLE(v, w) }

  function Same(b: Bytes): Bytes { b }

  /** The blob: records, or blocks, one behind another. */
  function Blob(units: seq<Bytes>): Bytes {
    Flat(units, Same)
  }

  /** Where each unit starts, and where the last one ends. */
  function Offsets(units: seq<Bytes>): (r: seq<nat>)
    ensures |r| == |units| + 1 && forall i | 0 <= i < |r| :: r[i] == |Blob(units[..i])|
  {
    seq(|units| + 1, i requires 0 <= i <= |units| => |Blob(units[..i])|)
  }

  /** writeOffsets: the offsets at the given width, zero-padded. */
  function OffsetBytes(offs: seq<nat>, width: nat): Bytes
    requires width == 4 || width == 5
  {
    Flat(offs, EncodeLE(width)) + seq(OffsetsSize(|offs|, width) - |offs| * width, _ => 0)
  }

  /** The greatest blob a width can address. */
  function Reach(width: nat): nat { if width == 5 then MAX_BLOB else TWO32 - 1 }

  // -------------------------------------------------------------------- layout --

  function Flags(o: Format): (f: Byte)
    ensures f < 4
  {
    (if o.lz4 then 1 else 0) + if o.fpW != 0 then 2 else 0
  }

  /** N, M, NB, P2 and P1Thr */
  function Counts(t: Table): (s: Bytes)
    ensures |s| == 40
  {
    ToBE(t.n, 8) + ToBE(t.m, 8) + ToBE(t.nb, 8) + ToBE(t.p2, 8) + ToBE(t.p1thr, 8)
  }

  function Header(t: Table, o: Format): (h: Bytes)
    requires t.fw < 256 && t.bw < 256 && o.shift < 256 && o.fpW < 256
    ensures |h| == HEADER2
  {
    FileV1.Magic() + ToBE(2, 4) + [Flags(o), t.fw, t.bw, if o.lz4 then o.shift else 0] + Counts(t)
    + [if o.width == 5 then 5 else 0, o.fpW, 0, 0, 0, 0, 0, 0, 0, 0, 0, 0]
  }

  /** The fields fit the header. */
  predicate Writable(t: Table) {
    t.fw < 256 && t.bw < 256 && t.n < TWO64 && t.m < TWO64 && t.nb < TWO64 && t.p2 < TWO64 && t.p1thr < TWO64
  }

  /** What the table of a file has to satisfy for its header to be accepted. */
  predicate Storable(t: Table) {
    && PtHash.Readable(t) && t.n < TWO32 && t.m <= t.n * 2 + 16 && t.nb <= 6 * t.n + 2 && t.p1thr < TWO64
    && 1 <= t.fw <= 32 && 1 <= t.bw <= 32
    && |t.front| == BitPacking.PackedSize(t.p2, t.fw) && |t.back| == BitPacking.PackedSize(t.nb - t.p2, t.bw)
    && |t.free| == FreeSlots.FreeSize(t.n, t.m)
  }

  function Body(t: Table, o: Format, units: seq<Bytes>): Bytes
    requires Storable(t) && ValidFormat(o)
  {
    Header(t, o) + t.front + t.back + t.free + OffsetBytes(Offsets(units), o.width) + Blob(units)
  }

  function File(t: Table, o: Format, units: seq<Bytes>, crc: Crc): Bytes
    requires Storable(t) && ValidFormat(o)
  {
    FileV1.WithTrailer(Body(t, o, units), crc)
  }

  // ------------------------------------------------------------------- parsing --

  datatype Mapping = Mapping(data: Bytes, t: Table, lean: bool, fpW: nat, compressed: bool, shift: nat, offW: nat, offsetsOff: nat, d: nat, end: nat)

  /** PackedSize in 64-bit arithmetic */
  function PackedSize64(count: nat, w: nat): (r: nat)
    ensures r <= TWO64 / 8 + 8
  {
    (count * w % TWO64 + 63) % TWO64 / 64 * 8 + 8
  }

  /** Units of a file: records or blocks. */
  function UnitCount(n: nat, compressed: bool, shift: nat): nat {
    if compressed then HighBits(n + Pow2(shift) - 1, shift) else n
  }

  datatype Head = Head(flags: nat, fw: nat, bw: nat, shift: nat, n: nat, m: nat, nb: nat, p2: nat, p1thr: nat, width: nat, fpW: nat)

  function ReadHead(data: Bytes): Head
    requires |data| >= HEADER2
  {
    Head(data[8], data[9], data[10], data[11], BE(data[12..20]), BE(data[20..28]), BE(data[28..36]), BE(data[36..44]), BE(data[44..52]),
      data[52], data[53])
  }

  predicate HeadOk(h: Head) {
    && h.n != 0 && h.n <= h.m <= h.n * 2 + 16 && h.nb >= 2 && 1 <= h.p2 < h.nb
    && 1 <= h.fw <= 32 && 1 <= h.bw <= 32 && h.n <= TWO32 - 1
  }

  /** unsupportedFeature: newer than this reader if the checksum verifies, damaged otherwise. */
  function Unknown(data: Bytes, crc: Crc): FileV1.Parsed<Mapping> {
    if |data| > 4 && BE(data[|data| - 4..]) == crc(data[..|data| - 4]) then FileV1.Err(FileV1.Unsupported) else FileV1.Err(FileV1.CorruptedBinary)
  }

  /** parseHeaderV2 */
  function ParseV2(data: Bytes, checkCrc: bool, crc: Crc): FileV1.Parsed<Mapping> {
    if |data| < HEADER2 + 4 then FileV1.Err(FileV1.CorruptedBinary) else
      var h := ReadHead(data);
      if !HeadOk(h) then FileV1.Err(FileV1.CorruptedBinary)
      else if h.flags >= 4 then Unknown(data, crc)
      else if h.flags / 2 == 1 && h.fpW != 4 && h.fpW != 8 then Unknown(data, crc)
      else if h.flags % 2 == 1 && h.shift > 8 then FileV1.Err(FileV1.CorruptedBinary)
      else if h.width != 0 && h.width != 4 && h.width != 5 then Unknown(data, crc)
      else ParseSections(data, h, checkCrc, crc)
  }

  /** Where the sections end: front, back, free, offsets. */
  datatype Cuts = Cuts(front: nat, back: nat, free: nat, offsets: nat)

  function CutsOf(h: Head): (c: Cuts)
    requires HeadOk(h)
    ensures HEADER2 <= c.front <= c.back <= c.free <= c.offsets
  {
    var a := HEADER2 + PackedSize64(h.p2, h.fw);
    var b := a + PackedSize64(h.nb - h.p2, h.bw);
    var c := b + FreeSlots.FreeSize(h.n, h.m);
    Cuts(a, b, c, c + OffsetsSize(UnitCount(h.n, h.flags % 2 == 1, h.shift) + 1, if h.width == 5 then 5 else 4))
  }

  function Cut(data: Bytes, h: Head, c: Cuts): Mapping
    requires |data| >= c.offsets + 4 && HEADER2 <= c.front <= c.back <= c.free <= c.offsets
  {
    var t := Table(h.n, h.m, h.nb, h.p2, h.p1thr, h.fw, h.bw, data[HEADER2..c.front], data[c.front..c.back], data[c.back..c.free]);
    var lean, compressed := h.flags / 2 == 1, h.flags % 2 == 1;
    Mapping(data, t, lean, if lean then h.fpW else 0, compressed, if compressed then h.shift else 0,
      if h.width == 5 then 5 else 4, c.free, c.offsets, |data| - 4)
  }

  /** From the sizes of the sections on; these sums do not overflow, as each size is at most 2^61 + 8. */
  function ParseSections(data: Bytes, h: Head, checkCrc: bool, crc: Crc): FileV1.Parsed<Mapping>
    requires |data| >= HEADER2 + 4 && HeadOk(h)
  {
    var c := CutsOf(h);
    if c.offsets + 4 > |data| then FileV1.Err(FileV1.CorruptedBinary) else
      var m := Cut(data, h, c);
      if c.offsets + Off(m, Units(m)) + 4 > |data| then FileV1.Err(FileV1.CorruptedBinary)
      else if checkCrc && BE(data[|data| - 4..]) != crc(data[..|data| - 4]) then FileV1.Err(FileV1.ChecksumMismatch)
      else FileV1.Ok(m)
  }

  // ------------------------------------------------------------------- reading --

  /** The offsets section lies inside the file. */
  predicate OffsetsInside(m: Mapping) {
    && (m.offW == 4 || m.offW == 5) && m.offsetsOff <= m.d && m.d + 4 <= |m.data| && m.end == |m.data| - 4
    && m.offsetsOff + OffsetsSize(Units(m) + 1, m.offW) == m.d
  }

  function Units(m: Mapping): nat {
    UnitCount(m.t.n, m.compressed, m.shift)
  }

  lemma OffsetInside(i: nat, count: nat, width: nat)
    requires i < count && (width == 4 || width == 5)
    ensures 0 <= i * width && i * width + (if width == 5 then 8 else 4) <= OffsetsSize(count, width)
  {
    MulMonotone(width, i + 1, count);
  }

  /** off: a load of eight bytes masked to 40 bits, or of four. */
  function Off(m: Mapping, i: nat): nat
    requires OffsetsInside(m) && i <= Units(m)
  {
    OffsetInside(i, Units(m) + 1, m.offW);
    var p := m.offsetsOff + i * m.offW;
    if m.offW == 5 then LE(m.data[p..p + 8]) % TWO40 else LE(m.data[p..p + 4])
  }

  /** What entryV2 relies on; every access it makes stays in the file. */
  predicate Readable(m: Mapping) {
    OffsetsInside(m) && PtHash.Readable(m.t) && (m.lean ==> m.fpW == 4 || m.fpW == 8)
  }

  datatype Fetched = Missing | Damaged | Fetched(e: Bytes)

  /** The record in a slot, uncompressed. */
  function PlainRecord(m: Mapping, slot: nat): Fetched
    requires OffsetsInside(m) && slot < Units(m)
  {
    var start, end := Off(m, slot), Off(m, slot + 1);
    if end <= start then Missing
    else if m.d + end > m.end then Damaged
    else Fetched(m.data[m.d + start..m.d + end])
  }

  /** blockBytes */
  function BlockBytes(m: Mapping, b: nat): (r: Option<Bytes>)
    requires OffsetsInside(m) && b < Units(m)
    ensures r.Some? ==> |r.value| > 0
  {
    var start, end := Off(m, b), Off(m, b + 1);
    if end > |m.data| then None
    else if end <= start || m.d + end > |m.data| - 4 then None
    else Some(m.data[m.d + start..m.d + end])
  }

  /** recordCompressed, once the slot is known: record k of block b */
  function BlockRecord(m: Mapping, b: nat, k: nat): Fetched
    requires OffsetsInside(m) && b < Units(m)
  {
    match BlockBytes(m, b)
    case None => Damaged
    case Some(blk) =>
      match DecodeBlock(blk)
      case None => Damaged
      case Some(raw) =>
        match NthRecord(raw, k)
        case None => Damaged
        case Some(rec) => Fetched(rec)
  }

  /** Rounding up: slot b*per + l lies below n, and q*per + r is n rounded up, before truncation. */
  lemma RoundUp(slot: nat, n: nat, per: nat, b: nat, l: nat, q: nat, r: nat)
    requires slot == b * per + l && n + per - 1 == q * per + r && r < per && slot < n
    ensures b < q
  {
    if q <= b {
      MulMonotone(per, q, b);
    }
  }

  lemma BlockOfSlot(slot: nat, n: nat, shift: nat)
    requires slot < n
    ensures HighBits(slot, shift) < UnitCount(n, true, shift)
  {
    var per := Pow2(shift);
    var t := n + per - 1;
    SplitBits(slot, shift);
    SplitBits(t, shift);
    RoundUp(slot, n, per, HighBits(slot, shift), LowBits(slot, shift), HighBits(t, shift), LowBits(t, shift));
  }

  /** The fingerprint or key comparison. */
  function MatchStored(m: Mapping, e: Bytes, key: Bytes, fp: Fingerprint): Answer
    requires m.lean ==> m.fpW == 4 || m.fpW == 8
  {
    if m.lean then
      if |e| < m.fpW then Corrupted
      else if e[..m.fpW] != fp(key)[..m.fpW] then NotFound
      else Found(e[m.fpW..])
    else MatchRecord(e, key)
  }

  /** The record in a slot. */
  function Fetch(m: Mapping, slot: nat): Fetched
    requires OffsetsInside(m) && slot < m.t.n
  {
    if m.compressed then
      BlockOfSlot(slot, m.t.n, m.shift);
      BlockRecord(m, HighBits(slot, m.shift), LowBits(slot, m.shift))
    else PlainRecord(m, slot)
  }

  function Judge(m: Mapping, f: Fetched, key: Bytes, fp: Fingerprint): Answer
    requires m.lean ==> m.fpW == 4 || m.fpW == 8
  {
    match f
    case Missing => NotFound
    case Damaged => Corrupted
    case Fetched(e) => MatchStored(m, e, key, fp)
  }

  /** entryV2 */
  function Entry(m: Mapping, h: nat, key: Bytes, mixer: Mixer, fp: Fingerprint): Answer
    requires Readable(m)
  {
    var slot := Slot(m.t, h, mixer);
    if slot >= m.t.n then NotFound else Judge(m, Fetch(m, slot), key, fp)
  }
}
