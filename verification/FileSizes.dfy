/** How large the sections and the files are, to the byte. */
module FileSizes {
  import opened Words
  import opened Flatten
  import opened Rows
  import opened BitPacking
  import opened FreeSlots
  import opened PlaceV1
  import opened Placement
  import PtHash
  import FileV1
  import CompileV1
  import FileV2

  /** Eight bytes more than the least multiple of eight bytes that holds all fields. */
  lemma PackedLaw(count: nat, w: nat)
    ensures PackedSize(count, w) % 8 == 0 && 8 * (PackedSize(count, w) - 8) - 64 < count * w <= 8 * (PackedSize(count, w) - 8)
  {
  }

  /** The least multiple of eight bytes that holds all entries. */
  lemma FreeLaw(n: nat, m: nat)
    requires n <= m
    ensures FreeSize(n, m) % 8 == 0 && FreeSize(n, m) - 8 < 4 * (m - n) <= FreeSize(n, m)
  {
  }

  /** The least multiple of eight bytes that holds all offsets, and eight bytes more for loads of width five. */
  lemma OffsetsLaw(count: nat, width: nat)
    requires width == 4 || width == 5
    ensures var size := FileV2.OffsetsSize(count, width) - if width == 5 then 8 else 0;
      size % 8 == 0 && size - 8 < count * width <= size
  {
  }

  /** Pilots are packed in the least number of bits, at least one, that holds the largest. */
  lemma WidthLeast(v: nat)
    ensures var w := PtHash.WidthFor(v); w >= 1 && v < Pow2(w) && (w > 1 ==> v >= Pow2(w - 1))
  {
    BitLenBound(v, BitLen(v));
    if BitLen(v) > 0 {
      BitLenBound(v, BitLen(v) - 1);
    }
  }

  /** Displacements take four bytes exactly if one of them needs more than two. */
  lemma WideIff(disp: seq<nat>)
    ensures FileV1.Wide(disp) <==> exists b :: 0 <= b < |disp| && disp[b] >= 0x1_0000
  {
    if FileV1.Wide(disp) {
      var b :| 0 <= b < |disp| && disp[b] == MaxOf(disp);
    }
  }

  /** A version 1 file: header, displacements of two or four bytes, a word for every slot, the records, the trailer. */
  lemma SizeV1(rows: seq<Row>, hash: Hash, z: Sizes, disp: seq<nat>, slotRow: seq<nat>, crc: Crc)
    requires CompileV1.Plans(rows, hash, z, disp, slotRow)
    ensures |FileV1.File(z, FileV1.Wide(disp), disp, FileV1.Content(rows, slotRow), crc)|
      == 33 + z.buckets * (if FileV1.Wide(disp) then 4 else 2) + 8 * z.slots + RowBytes(rows) + 4
  {
    var wide, content := FileV1.Wide(disp), FileV1.Content(rows, slotRow);
    FlatUniform(disp, FileV1.DispWidth(wide), FileV1.EncodeBE(FileV1.DispWidth(wide)));
    FlatUniform(FileV1.SlotWords(content), 8, FileV1.EncodeBE(8));
    CompileV1.DataBlockSize(rows, Hashes(rows, hash), z, disp, slotRow);
  }

  /** A version 2 file: header, sections, offsets, records or blocks, trailer. */
  lemma SizeV2(t: PtHash.Table, o: FileV2.Format, units: seq<Bytes>, crc: Crc)
    requires FileV2.Storable(t) && FileV2.ValidFormat(o)
    ensures |FileV2.File(t, o, units, crc)|
      == 64 + |t.front| + |t.back| + |t.free| + FileV2.OffsetsSize(|units| + 1, o.width) + |FileV2.Blob(units)| + 4
  {
    FlatUniform(FileV2.Offsets(units), o.width, FileV2.EncodeLE(o.width));
  }

  /** The bytes of a version 1 header that are reserved are zero. */
  lemma ReservedV1(z: Sizes, wide: bool)
    ensures var h := FileV1.Header(z, wide); |h| == 33 && forall i | 25 <= i < 33 :: h[i] == 0
  {
    var front, zeros := FileV1.Magic() + ToBE(1, 4) + [if wide then 2 else 1] + ToBE(z.slots, 8) + ToBE(z.buckets, 8), ToBE(0, 8);
    assert FileV1.Header(z, wide) == front + zeros && |front| == 25;
    ZeroBytes(8);
  }

  lemma {:induction false} ZeroBytes(n: nat)
    ensures forall i | 0 <= i < n :: ToBE(0, n)[i] == 0
  {
    if n > 0 {
      ZeroBytes(n - 1);
    }
  }

  /** So are those of a version 2 header, and the block size's exponent without compression. */
  lemma ReservedV2(t: PtHash.Table, o: FileV2.Format)
    requires FileV2.Storable(t) && FileV2.ValidFormat(o)
    ensures var h := FileV2.Header(t, o); |h| == 64 && (!o.lz4 ==> h[11] == 0) && forall i | 54 <= i < 64 :: h[i] == 0
  {
    var small := [FileV2.Flags(o), t.fw, t.bw, if o.lz4 then o.shift else 0];
    var tail := [if o.width == 5 then 5 else 0, o.fpW, 0, 0, 0, 0, 0, 0, 0, 0, 0, 0];
    var front := FileV1.Magic() + ToBE(2, 4);
    var h := FileV2.Header(t, o);
    assert h == front + small + FileV2.Counts(t) + tail && |front| == 8 && |small| == 4;
    assert h[11] == small[3] && h[52..] == tail;
    forall i | 54 <= i < 64
      ensures h[i] == 0
    {
      assert h[i] == h[52..][i - 52];
    }
  }
}
