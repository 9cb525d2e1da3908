/** Reading version 2 files back: bounds of the parser, and the round trip through header, offsets and blocks. */
module ReadV2 {
  import opened Words
  import opened Flatten
  import opened Rows
  import opened PtHash
  import opened FileV2
  import BitPacking
  import FileV1

  // --------------------------------------------------------- any parsed header --

  /** The pilot sections' sizes fit 64-bit arithmetic. */
  predicate SizesFit(t: Table) {
    t.p2 <= t.nb && t.p2 * t.fw + 63 < TWO64 && (t.nb - t.p2) * t.bw + 63 < TWO64
  }

  lemma SizeAgrees(count: nat, w: nat)
    ensures 0 <= count * w
    ensures count * w + 63 < TWO64 ==> PackedSize64(count, w) == BitPacking.PackedSize(count, w)
    ensures count * w + 63 >= TWO64 ==> PackedSize64(count, w) < BitPacking.PackedSize(count, w)
  {
    SizeOf(count * w);
  }

  lemma SizeOf(x: nat)
    ensures x + 63 < TWO64 ==> (x % TWO64 + 63) % TWO64 == x + 63
    ensures x + 63 >= TWO64 ==> (x % TWO64 + 63) % TWO64 / 64 < (x + 63) / 64
  {
  }

  /** An accepted file is cut where its header says, into sections of the sizes computed. */
  lemma ParsedIsCut(data: Bytes, checkCrc: bool, crc: Crc)
    requires ParseV2(data, checkCrc, crc).Ok?
    ensures |data| >= HEADER2 + 4 && HeadOk(ReadHead(data)) && CutsOf(ReadHead(data)).offsets + 4 <= |data|
    ensures var h := ReadHead(data);
      && ParseV2(data, checkCrc, crc).m == Cut(data, h, CutsOf(h)) && (h.flags / 2 == 1 ==> h.fpW == 4 || h.fpW == 8)
      && (h.width == 0 || h.width == 4 || h.width == 5)
  {
  }

  lemma CutReadable(data: Bytes, h: Head)
    requires |data| >= HEADER2 + 4 && HeadOk(h) && CutsOf(h).offsets + 4 <= |data|
    requires (h.flags / 2 == 1 ==> h.fpW == 4 || h.fpW == 8) && (h.width == 0 || h.width == 4 || h.width == 5)
    ensures var m := Cut(data, h, CutsOf(h));
      OffsetsInside(m) && m.data == data && (FileV2.Readable(m) <==> SizesFit(m.t))
  {
    SizeAgrees(h.p2, h.fw);
    SizeAgrees(h.nb - h.p2, h.bw);
  }

  /** Verifying the checksum rejects exactly the files whose trailer is wrong, among those accepted without verifying. */
  lemma VerifiedIff(data: Bytes, crc: Crc)
    ensures var p, q := ParseV2(data, false, crc), ParseV2(data, true, crc);
      && (q.Ok? <==> p.Ok? && FileV1.TrailerOk(data, crc))
      && q == if p.Ok? && !FileV1.TrailerOk(data, crc) then FileV1.Err(FileV1.ChecksumMismatch) else p
  {
  }

  /** A header that uses what this reader does not know, its counts being valid. */
  predicate UsesUnknown(h: Head) {
    || h.flags >= 4
    || (h.flags / 2 == 1 && h.fpW != 4 && h.fpW != 8)
    || (!(h.flags % 2 == 1 && h.shift > 8) && h.width != 0 && h.width != 4 && h.width != 5)
  }

  /** Such a file is called unsupported if its checksum verifies, and corrupted otherwise, whether or not the caller asked for the checksum. */
  lemma UnsupportedIff(data: Bytes, checkCrc: bool, crc: Crc)
    ensures ParseV2(data, checkCrc, crc) == FileV1.Err(FileV1.Unsupported) <==>
      |data| >= HEADER2 + 4 && HeadOk(ReadHead(data)) && UsesUnknown(ReadHead(data)) && FileV1.TrailerOk(data, crc)
    ensures |data| >= HEADER2 + 4 && UsesUnknown(ReadHead(data)) ==> !ParseV2(data, checkCrc, crc).Ok?
  {
  }

  /** Where the blob of a file cut like this ends. */
  function BlobEnd(data: Bytes, h: Head): nat
    requires |data| >= HEADER2 + 4 && HeadOk(h) && CutsOf(h).offsets + 4 <= |data|
  {
    CutsOf(h).offsets + Off(Cut(data, h, CutsOf(h)), Units(Cut(data, h, CutsOf(h))))
  }

  /** Without verifying, exactly the files are accepted whose counts are valid, which use nothing unknown, and whose sections and blob fit. */
  lemma AcceptedIff(data: Bytes, crc: Crc)
    ensures ParseV2(data, false, crc).Ok? <==>
      && |data| >= 68 && HeadOk(ReadHead(data)) && !UsesUnknown(ReadHead(data))
      && (ReadHead(data).flags % 2 == 1 ==> ReadHead(data).shift <= 8)
      && CutsOf(ReadHead(data)).offsets + 4 <= |data| && BlobEnd(data, ReadHead(data)) + 4 <= |data|
  {
  }

  /** The sections of an accepted header are as long as Slot's model needs them exactly when no section size wraps. */
  lemma ParsedReadable(data: Bytes, checkCrc: bool, crc: Crc)
    ensures var p := ParseV2(data, checkCrc, crc);
      p.Ok? ==> OffsetsInside(p.m) && p.m.data == data && (FileV2.Readable(p.m) <==> SizesFit(p.m.t))
  {
    if ParseV2(data, checkCrc, crc).Ok? {
      ParsedIsCut(data, checkCrc, crc);
      CutReadable(data, ReadHead(data));
    }
  }

  // ------------------------------------------------------------- written files --

  /** What a written file is parsed to. */
  function MappingOf(t: Table, o: Format, units: seq<Bytes>, crc: Crc): Mapping
    requires FileV2.Storable(t) && ValidFormat(o)
  {
    var c := HEADER2 + |t.front| + |t.back| + |t.free|;
    var d := c + OffsetsSize(|units| + 1, o.width);
    Mapping(File(t, o, units, crc), t, o.fpW != 0, o.fpW, o.lz4, if o.lz4 then o.shift else 0, o.width, c, d, d + |Blob(units)|)
  }

  /** The header is accepted and the offsets are wide enough. */
  predicate Fits(t: Table, o: Format, units: seq<Bytes>) {
    && FileV2.Storable(t) && ValidFormat(o)
    && |units| == UnitCount(t.n, o.lz4, o.shift) && |Blob(units)| <= Reach(o.width)
  }

  /** m is the mapping of a written file. */
  ghost predicate MappedTo(m: Mapping, t: Table, o: Format, units: seq<Bytes>, crc: Crc) {
    Fits(t, o, units) && m == MappingOf(t, o, units, crc)
  }

  lemma OffsetBytesSize(offs: seq<nat>, width: nat)
    requires width == 4 || width == 5
    ensures |OffsetBytes(offs, width)| == OffsetsSize(|offs|, width)
    ensures |Flat(offs, EncodeLE(width))| == |offs| * width
  {
    FlatUniform(offs, width, EncodeLE(width));
  }

  lemma FileSections(t: Table, o: Format, units: seq<Bytes>, crc: Crc)
    requires FileV2.Storable(t) && ValidFormat(o)
    ensures var f, a := File(t, o, units, crc), HEADER2 + |t.front|;
      var b, c := a + |t.back|, a + |t.back| + |t.free|;
      var d := c + OffsetsSize(|units| + 1, o.width);
      && |f| == d + |Blob(units)| + 4 && f[HEADER2..a] == t.front && f[a..b] == t.back && f[b..c] == t.free
      && f[c..d] == OffsetBytes(Offsets(units), o.width) && f[d..|f| - 4] == Blob(units)
  {
    OffsetBytesSize(Offsets(units), o.width);
    SevenSections(Header(t, o), t.front, t.back, t.free, OffsetBytes(Offsets(units), o.width), Blob(units),
      ToBE(crc(Body(t, o, units)), 4));
  }

  /** Where the header's parts lie in f. */
  ghost predicate HasParts(f: Bytes, t: Table, o: Format)
    requires Writable(t) && ValidFormat(o)
  {
    && |f| >= HEADER2 && f[..4] == FileV1.Magic() && f[4..8] == ToBE(2, 4)
    && f[8..12] == [Flags(o), t.fw, t.bw, if o.lz4 then o.shift else 0]
    && f[12..52] == Counts(t) && f[52..54] == [if o.width == 5 then 5 else 0, o.fpW]
  }

  lemma HeaderParts(t: Table, o: Format)
    requires Writable(t) && ValidFormat(o)
    ensures HasParts(Header(t, o), t, o)
  {
    var version := ToBE(2, 4);
    var small, tail := [Flags(o), t.fw, t.bw, if o.lz4 then o.shift else 0], [if o.width == 5 then 5 else 0, o.fpW, 0, 0, 0, 0, 0, 0, 0, 0, 0, 0];
    var h := FileV1.Magic() + version + small + Counts(t) + tail;
    assert h == Header(t, o);
    FiveSections(FileV1.Magic(), version, small, Counts(t), tail);
    HeaderTail(h, tail);
  }

  lemma HeaderTail(h: Bytes, tail: Bytes)
    requires |h| == HEADER2 && |tail| == 12 && h[52..] == tail
    ensures h[52..54] == [tail[0], tail[1]]
  {
    assert h[52..][..2] == h[52..54];
  }

  lemma PartsExtend(f: Bytes, h: Bytes, t: Table, o: Format)
    requires Writable(t) && ValidFormat(o) && |f| >= |h| == HEADER2 && f[..HEADER2] == h && HasParts(h, t, o)
    ensures HasParts(f, t, o)
  {
    Within(f, h, 0, 4);
    Within(f, h, 4, 8);
    Within(f, h, 8, 12);
    Within(f, h, 12, 52);
    Within(f, h, 52, 54);
  }

  /** The five counts, each in eight bytes. */
  lemma CountParts(t: Table)
    ensures var s := Counts(t);
      && s[0..8] == ToBE(t.n, 8) && s[8..16] == ToBE(t.m, 8) && s[16..24] == ToBE(t.nb, 8)
      && s[24..32] == ToBE(t.p2, 8) && s[32..40] == ToBE(t.p1thr, 8)
  {
    FiveSections(ToBE(t.n, 8), ToBE(t.m, 8), ToBE(t.nb, 8), ToBE(t.p2, 8), ToBE(t.p1thr, 8));
  }

  /** The word at a position of a part of a file. */
  lemma WordIn(f: Bytes, from: nat, to: nat, at: nat, v: U64)
    requires from + at + 8 <= to <= |f| && f[from..to][at..at + 8] == ToBE(v, 8)
    ensures BE(f[from + at..from + at + 8]) == v
  {
    PartOf(f, from, to, at, at + 8);
    Pow2Values();
    BEToBE(v, 8);
  }

  lemma HeaderCounts(f: Bytes, t: Table)
    requires Writable(t) && |f| >= HEADER2 && f[12..52] == Counts(t)
    ensures BE(f[12..20]) == t.n && BE(f[20..28]) == t.m && BE(f[28..36]) == t.nb && BE(f[36..44]) == t.p2 && BE(f[44..52]) == t.p1thr
  {
    CountParts(t);
    WordIn(f, 12, 52, 0, t.n);
    WordIn(f, 12, 52, 8, t.m);
    WordIn(f, 12, 52, 16, t.nb);
    WordIn(f, 12, 52, 24, t.p2);
    WordIn(f, 12, 52, 32, t.p1thr);
  }

  lemma HeaderFields(f: Bytes, t: Table, o: Format)
    requires Writable(t) && ValidFormat(o) && HasParts(f, t, o)
    ensures f[..4] == FileV1.Magic() && BE(f[4..8]) == 2
    ensures ReadHead(f) == HeadOf(t, o)
  {
    Pow2Values();
    BEToBE(2, 4);
    HeaderCounts(f, t);
    SmallFields(f, f[8..12], f[52..54]);
  }

  lemma SmallFields(f: Bytes, s: Bytes, w: Bytes)
    requires |f| >= HEADER2 && s == f[8..12] && w == f[52..54]
    ensures f[8] == s[0] && f[9] == s[1] && f[10] == s[2] && f[11] == s[3] && f[52] == w[0] && f[53] == w[1]
  {
  }

  lemma Within(f: Bytes, h: Bytes, i: nat, j: nat)
    requires |h| <= |f| && f[..|h|] == h && i <= j <= |h|
    ensures f[i..j] == h[i..j]
  {
    PartOf(f, 0, |h|, i, j);
  }

  // ------------------------------------------------------------------- offsets --

  /** The load of eight bytes sees the five of the offset below the rest. */
  lemma MaskedLoad(s: Bytes, v: nat)
    requires |s| == 8 && s[..5] == ToLE(v, 5) && v < TWO40
    ensures LE(s) % TWO40 == v
  {
    Pow2Values();
    LEToLE(v, 5);
    assert s == s[..5] + s[5..];
    LEConcat(s[..5], s[5..]);
    DivMod(v, TWO40, LE(s[5..]));
  }

  lemma OffsetCell(offs: seq<nat>, width: nat, i: nat)
    requires i < |offs| && (width == 4 || width == 5)
    ensures 0 <= i * width && i * width + width <= |OffsetBytes(offs, width)|
    ensures OffsetBytes(offs, width)[i * width..i * width + width] == ToLE(offs[i], width)
  {
    FlatCell(offs, i, width, EncodeLE(width));
  }

  lemma ReadFive(data: Bytes, p: nat, v: nat)
    requires p + 8 <= |data| && data[p..p + 5] == ToLE(v, 5) && v < TWO40
    ensures LE(data[p..p + 8]) % TWO40 == v
  {
    assert data[p..p + 8][..5] == data[p..p + 5];
    MaskedLoad(data[p..p + 8], v);
  }

  lemma ReadFour(data: Bytes, p: nat, v: nat)
    requires p + 4 <= |data| && data[p..p + 4] == ToLE(v, 4) && v < TWO32
    ensures LE(data[p..p + 4]) == v
  {
    Pow2Values();
    LEToLE(v, 4);
  }

  /** The bytes of offset i, k bytes into the section. */
  lemma OffsetSlice(m: Mapping, offs: seq<nat>, i: nat, k: nat)
    requires OffsetsInside(m) && |offs| == Units(m) + 1 && i < |offs| && k == i * m.offW
    requires m.data[m.offsetsOff..m.d] == OffsetBytes(offs, m.offW)
    ensures m.offsetsOff + k + m.offW <= |m.data|
    ensures m.data[m.offsetsOff + k..m.offsetsOff + k + m.offW] == ToLE(offs[i], m.offW)
  {
    OffsetCell(offs, m.offW, i);
    PartOf(m.data, m.offsetsOff, m.d, k, k + m.offW);
  }

  /** An offset written is the offset read. */
  lemma OffStored(m: Mapping, offs: seq<nat>, i: nat)
    requires OffsetsInside(m) && |offs| == Units(m) + 1 && i < |offs| && offs[i] <= Reach(m.offW)
    requires m.data[m.offsetsOff..m.d] == OffsetBytes(offs, m.offW)
    ensures Off(m, i) == offs[i]
  {
    var k := i * m.offW;
    OffsetInside(i, |offs|, m.offW);
    OffsetSlice(m, offs, i, k);
    if m.offW == 5 {
      ReadFive(m.data, m.offsetsOff + k, offs[i]);
    } else {
      ReadFour(m.data, m.offsetsOff + k, offs[i]);
    }
  }

  // ------------------------------------------------------------------- parsing --

  lemma FileHasParts(t: Table, o: Format, units: seq<Bytes>, crc: Crc)
    requires FileV2.Storable(t) && ValidFormat(o)
    ensures HasParts(File(t, o, units, crc), t, o)
  {
    var f := File(t, o, units, crc);
    HeaderParts(t, o);
    assert f[..HEADER2] == Header(t, o);
    PartsExtend(f, Header(t, o), t, o);
  }

  /** The sections of the mapping. */
  lemma MappedSections(m: Mapping, t: Table, o: Format, units: seq<Bytes>, crc: Crc)
    requires MappedTo(m, t, o, units, crc)
    ensures OffsetsInside(m) && |units| == Units(m) && m.end == m.d + |Blob(units)|
    ensures m.data[m.offsetsOff..m.d] == OffsetBytes(Offsets(units), m.offW) && m.data[m.d..m.end] == Blob(units)
  {
    MappingPlaces(t, o, units, crc);
    FileSections(t, o, units, crc);
  }

  /** Where the offsets and the blob of a written file lie. */
  lemma MappingPlaces(t: Table, o: Format, units: seq<Bytes>, crc: Crc)
    requires Fits(t, o, units)
    ensures var m := MappingOf(t, o, units, crc);
      && |units| == Units(m) && m.end == m.d + |Blob(units)| && m.offW == o.width
      && m.offsetsOff == HEADER2 + |t.front| + |t.back| + |t.free| && m.d == m.offsetsOff + OffsetsSize(|units| + 1, o.width)
      && |m.data| == m.end + 4
  {
    FileSections(t, o, units, crc);
  }

  lemma {:induction false} BlobGrows(units: seq<Bytes>, i: nat)
    requires i <= |units|
    ensures |Blob(units[..i])| <= |Blob(units)|
  {
    FlatGrows(units, i, Same);
  }

  /** Every offset of a written file reads back. */
  lemma OffsetRead(m: Mapping, t: Table, o: Format, units: seq<Bytes>, crc: Crc, i: nat)
    requires MappedTo(m, t, o, units, crc) && i <= |units|
    ensures OffsetsInside(m) && |units| == Units(m) && Off(m, i) == |Blob(units[..i])|
  {
    MappedSections(m, t, o, units, crc);
    BlobGrows(units, i);
    OffStored(m, Offsets(units), i);
  }

  lemma FlagBits(o: Format)
    requires ValidFormat(o)
    ensures (Flags(o) / 2 == 1 <==> o.fpW != 0) && (Flags(o) % 2 == 1 <==> o.lz4)
  {
  }

  lemma TrailerOf(t: Table, o: Format, units: seq<Bytes>, crc: Crc)
    requires FileV2.Storable(t) && ValidFormat(o)
    ensures var f := File(t, o, units, crc); |f| >= HEADER2 + 4 && BE(f[|f| - 4..]) == crc(f[..|f| - 4])
  {
    FileV1.Trailer(Body(t, o, units), crc);
  }

  /** A written file parses, with or without checking the trailer. */
  lemma ParsesBack(t: Table, o: Format, units: seq<Bytes>, crc: Crc, checkCrc: bool)
    requires Fits(t, o, units)
    ensures var f := File(t, o, units, crc); |f| >= HEADER2 + 4 && f[..4] == FileV1.Magic() && BE(f[4..8]) == 2
    ensures ParseV2(File(t, o, units, crc), checkCrc, crc) == FileV1.Ok(MappingOf(t, o, units, crc))
  {
    var f := File(t, o, units, crc);
    FileHasParts(t, o, units, crc);
    HeaderFields(f, t, o);
    FlagBits(o);
    TrailerOf(t, o, units, crc);
    ParsesSections(t, o, units, crc, checkCrc);
  }

  lemma SizesMatch(t: Table)
    requires FileV2.Storable(t)
    ensures PackedSize64(t.p2, t.fw) == |t.front| && PackedSize64(t.nb - t.p2, t.bw) == |t.back|
  {
    SmallProduct(t.p2, t.fw, t.nb);
    SmallProduct(t.nb - t.p2, t.bw, t.nb);
    SizeAgrees(t.p2, t.fw);
    SizeAgrees(t.nb - t.p2, t.bw);
  }

  lemma SmallProduct(c: nat, w: nat, nb: nat)
    requires c <= nb <= 6 * TWO32 && w <= 32
    ensures c * w <= 6 * TWO32 * 32
  {
    MulMonotone(c, w, 32);
  }

  /** The header of a table and a format. */
  function HeadOf(t: Table, o: Format): Head {
    Head(Flags(o), t.fw, t.bw, if o.lz4 then o.shift else 0, t.n, t.m, t.nb, t.p2, t.p1thr, if o.width == 5 then 5 else 0, o.fpW)
  }

  lemma CutsMatch(t: Table, o: Format, units: seq<Bytes>)
    requires Fits(t, o, units)
    ensures HeadOk(HeadOf(t, o))
    ensures var a := HEADER2 + |t.front|;
      CutsOf(HeadOf(t, o)) == Cuts(a, a + |t.back|, a + |t.back| + |t.free|, a + |t.back| + |t.free| + OffsetsSize(|units| + 1, o.width))
  {
    SizesMatch(t);
    FlagBits(o);
  }

  lemma CutMatches(t: Table, o: Format, units: seq<Bytes>, crc: Crc)
    requires Fits(t, o, units)
    ensures HeadOk(HeadOf(t, o)) && CutsOf(HeadOf(t, o)).offsets + 4 <= |File(t, o, units, crc)|
    ensures Cut(File(t, o, units, crc), HeadOf(t, o), CutsOf(HeadOf(t, o))) == MappingOf(t, o, units, crc)
  {
    CutsMatch(t, o, units);
    FlagBits(o);
    FileSections(t, o, units, crc);
  }

  lemma ParsesSections(t: Table, o: Format, units: seq<Bytes>, crc: Crc, checkCrc: bool)
    requires Fits(t, o, units) && |File(t, o, units, crc)| >= HEADER2 + 4
    ensures HeadOk(HeadOf(t, o))
    ensures ParseSections(File(t, o, units, crc), HeadOf(t, o), checkCrc, crc) == FileV1.Ok(MappingOf(t, o, units, crc))
  {
    var m := MappingOf(t, o, units, crc);
    CutMatches(t, o, units, crc);
    OffsetRead(m, t, o, units, crc, |units|);
    assert units[..|units|] == units;
    CutsMatch(t, o, units);
    FileSections(t, o, units, crc);
    TrailerOf(t, o, units, crc);
  }

  // --------------------------------------------------------------------- units --

  /** Unit i lies in the blob between its offsets. */
  ghost predicate UnitIn(m: Mapping, i: nat, u: Bytes) {
    && OffsetsInside(m) && i < Units(m) && Off(m, i + 1) == Off(m, i) + |u| && m.d + Off(m, i + 1) <= m.end
    && m.data[m.d + Off(m, i)..m.d + Off(m, i + 1)] == u
  }

  lemma UnitAt(m: Mapping, t: Table, o: Format, units: seq<Bytes>, crc: Crc, i: nat)
    requires MappedTo(m, t, o, units, crc) && i < |units|
    ensures UnitIn(m, i, units[i])
  {
    MappedSections(m, t, o, units, crc);
    OffsetRead(m, t, o, units, crc, i);
    OffsetRead(m, t, o, units, crc, i + 1);
    FlatAt(units, i, Same);
    PartOf(m.data, m.d, m.end, Off(m, i), Off(m, i + 1));
  }

  /** An uncompressed record reads back. */
  lemma PlainRead(m: Mapping, slot: nat, u: Bytes)
    requires UnitIn(m, slot, u) && |u| > 0
    ensures PlainRecord(m, slot) == Fetched(u)
  {
  }

  /** A block reads back. */
  lemma BlockRead(m: Mapping, b: nat, u: Bytes)
    requires UnitIn(m, b, u) && |u| > 0
    ensures BlockBytes(m, b) == Some(u)
  {
  }
}
