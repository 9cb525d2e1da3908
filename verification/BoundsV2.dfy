/**
 Which accepted version 2 headers keep every lookup inside the file. The header puts no upper bound on the number of
 buckets, so the size of a pilot section, and the bit offset of a load in it, can wrap in 64 bits.
*/
module BoundsV2 {
  import opened Words
  import opened Rows
  import opened PtHash
  import opened FileV2
  import opened ReadV2
  import opened BitPacking

  const TWO60 := 0x1000_0000_0000_0000
  const TWO63 := 0x8000_0000_0000_0000
  const TOP := 0xFFFF_FFFF

  /** getBits loads eight bytes at a bit offset computed in 64-bit arithmetic. */
  predicate LoadInside(len: nat, i: nat, w: nat) {
    i * w % TWO64 / 8 + 8 <= len
  }

  function BackCount(t: Table): nat
    requires t.p2 <= t.nb
  {
    t.nb - t.p2
  }

  /** The pilot load of a lookup stays inside its section. */
  predicate PilotInside(t: Table, x: U64)
    requires t.p2 <= t.nb
  {
    if x < t.p1thr then LoadInside(|t.front|, Reduce(Rotate32(x), t.p2), t.fw)
    else LoadInside(|t.back|, Reduce(Rotate32(x), BackCount(t)), t.bw)
  }

  /** The pilot that is loaded. */
  function Pilot64(t: Table, x: U64): nat
    requires t.p2 <= t.nb && PilotInside(t, x)
  {
    if x < t.p1thr then FieldAt(t.front, Reduce(Rotate32(x), t.p2) * t.fw % TWO64, t.fw)
    else FieldAt(t.back, Reduce(Rotate32(x), BackCount(t)) * t.bw % TWO64, t.bw)
  }

  /** Every load of Slot stays inside its section: the pilot, and the remap entry if the position needs one. */
  predicate SlotInside(t: Table, x: U64, mixer: Mixer)
    requires t.p2 <= t.nb && t.n <= t.m
  {
    && PilotInside(t, x)
    && var q := Reduce(mixer(x, Pilot64(t, x)), t.m);
      q >= t.n ==> (q - t.n) * 4 + 4 <= |t.free|
  }

  /** What the header check establishes about a table. */
  predicate Accepted(t: Table) {
    && 0 < t.n <= t.m <= 2 * t.n + 16 && t.n < TWO32 && 1 <= t.p2 < t.nb < TWO64 && t.p1thr < TWO64 && 1 <= t.fw <= 32 && 1 <= t.bw <= 32
    && |t.front| == PackedSize64(t.p2, t.fw) && |t.back| == PackedSize64(BackCount(t), t.bw) && |t.free| >= 4 * (t.m - t.n)
  }

  /** No section has 2^60 bytes, as none has in an address space of today. */
  predicate Mappable(t: Table) {
    |t.front| <= TWO60 && |t.back| <= TWO60
  }

  lemma WordBound(data: Bytes, at: nat)
    requires at + 8 <= |data|
    ensures BE(data[at..at + 8]) < TWO64
  {
    BEBound(data[at..at + 8]);
    Pow2Values();
  }

  lemma CutAccepted(data: Bytes, h: Head)
    requires |data| >= HEADER2 + 4 && HeadOk(h) && CutsOf(h).offsets + 4 <= |data| && h.nb < TWO64 && h.p1thr < TWO64
    ensures Accepted(Cut(data, h, CutsOf(h)).t)
  {
  }

  lemma ParsedAccepted(data: Bytes, checkCrc: bool, crc: Crc)
    ensures var p := ParseV2(data, checkCrc, crc); p.Ok? ==> Accepted(p.m.t)
  {
    if ParseV2(data, checkCrc, crc).Ok? {
      ParsedIsCut(data, checkCrc, crc);
      WordBound(data, 28);
      WordBound(data, 44);
      CutAccepted(data, ReadHead(data));
    }
  }

  /** Only the pilot load can leave its section; the remap section always has the entry. */
  lemma FreeAlwaysInside(t: Table, x: U64, mixer: Mixer)
    requires Accepted(t)
    ensures SlotInside(t, x, mixer) <==> PilotInside(t, x)
  {
    if PilotInside(t, x) {
      ReduceBound(mixer(x, Pilot64(t, x)), t.m);
    }
  }

  // ------------------------------------------------------------------------ chains --

  /** The index of the hash whose rotation is y * 2^32 + low. */
  function Idx(y: nat, low: nat, c: nat): nat {
    (y * TWO32 + low) * c / TWO64
  }

  lemma QuotientStep(a: nat, d: nat)
    ensures a / TWO64 <= (a + d) / TWO64 <= a / TWO64 + d / TWO64 + 1
  {
  }

  /** Neighbouring indices are close together. */
  lemma IdxStep(y: nat, low: nat, c: nat)
    requires c <= TWO64
    ensures Idx(y, low, c) <= Idx(y + 1, low, c) <= Idx(y, low, c) + TWO32 + 1
  {
    var a := (y * TWO32 + low) * c;
    assert ((y + 1) * TWO32 + low) * c == a + TWO32 * c;
    QuotientStep(a, TWO32 * c);
    assert TWO32 * c <= TWO32 * TWO64;
  }

  lemma {:induction false} IdxMonotone(y: nat, z: nat, low: nat, c: nat)
    requires y <= z && c <= TWO64
    ensures Idx(y, low, c) <= Idx(z, low, c)
  {
    if y < z {
      IdxMonotone(y, z - 1, low, c);
      IdxStep(z - 1, low, c);
    }
  }

  /** The first and the last index lie in the same 2^64 bits, and the last one's load is inside. */
  predicate EndsInside(len: nat, w: nat, i: nat, j: nat) {
    i * w / TWO64 == j * w / TWO64 && LoadInside(len, j, w)
  }

  lemma BetweenEnds(len: nat, w: nat, i: nat, k: nat, j: nat)
    requires i <= k <= j && EndsInside(len, w, i, j)
    ensures LoadInside(len, k, w)
  {
    MulMonotone(w, i, k);
    MulMonotone(w, k, j);
    SameQuotient(i * w, k * w, j * w);
  }

  lemma SameQuotient(a: nat, b: nat, c: nat)
    requires a <= b <= c && a / TWO64 == c / TWO64
    ensures b % TWO64 <= c % TWO64
  {
  }

  /** A small step across a multiple of 2^64 starts close below it. */
  lemma CloseBelow(a: nat, b: nat)
    requires a <= b < a + TWO63 && a / TWO64 < b / TWO64
    ensures a % TWO64 >= TWO63
  {
  }

  lemma SmallStep(i: nat, j: nat, w: nat)
    requires i <= j <= i + TWO32 + 1 && w <= 32
    ensures 0 <= i * w <= j * w < i * w + TWO63
  {
    MulMonotone(w, i, j);
    MulMonotone(w, j, i + TWO32 + 1);
    MulMonotone(TWO32 + 1, w, 32);
    assert w * (i + TWO32 + 1) == i * w + w * (TWO32 + 1);
  }

  lemma FarOutside(len: nat, i: nat, w: nat)
    requires len <= TWO60 && i * w % TWO64 >= TWO63
    ensures !LoadInside(len, i, w)
  {
  }

  /** A step into the next 2^64 bits starts with a load outside. */
  lemma CrossOutside(len: nat, i: nat, j: nat, w: nat)
    requires i <= j <= i + TWO32 + 1 && w <= 32 && len <= TWO60 && i * w / TWO64 != j * w / TWO64
    ensures !LoadInside(len, i, w)
  {
    SmallStep(i, j, w);
    QuotientStep(i * w, j * w - i * w);
    CloseBelow(i * w, j * w);
    FarOutside(len, i, w);
  }

  /** If the ends of a chain lie in different 2^64 bits, some load on the way is outside. */
  lemma {:induction false} SomewhereOutside(len: nat, w: nat, c: nat, low: nat, a: nat, b: nat) returns (y: nat)
    requires a <= b && len <= TWO60 && c <= TWO64 && w <= 32
    requires Idx(a, low, c) * w / TWO64 != Idx(b, low, c) * w / TWO64
    ensures a <= y <= b && !LoadInside(len, Idx(y, low, c), w)
    decreases b - a
  {
    var i, j := Idx(a, low, c), Idx(a + 1, low, c);
    IdxStep(a, low, c);
    if i * w / TWO64 == j * w / TWO64 {
      y := SomewhereOutside(len, w, c, low, a + 1, b);
    } else {
      CrossOutside(len, i, j, w);
      y := a;
    }
  }

  ghost predicate ChainInside(len: nat, w: nat, c: nat, low: nat, a: nat, b: nat) {
    forall y | a <= y <= b :: LoadInside(len, Idx(y, low, c), w)
  }

  /** All loads of a chain are inside exactly if its ends say so. */
  lemma ChainIff(len: nat, w: nat, c: nat, low: nat, a: nat, b: nat)
    requires a <= b && len <= TWO60 && c <= TWO64 && w <= 32
    ensures ChainInside(len, w, c, low, a, b) <==> EndsInside(len, w, Idx(a, low, c), Idx(b, low, c))
  {
    if EndsInside(len, w, Idx(a, low, c), Idx(b, low, c)) {
      forall y | a <= y <= b
        ensures LoadInside(len, Idx(y, low, c), w)
      {
        IdxMonotone(a, y, low, c);
        IdxMonotone(y, b, low, c);
        BetweenEnds(len, w, Idx(a, low, c), Idx(y, low, c), Idx(b, low, c));
      }
    } else if ChainInside(len, w, c, low, a, b) {
      var y := SomewhereOutside(len, w, c, low, a, b);
    }
  }

  // ---------------------------------------------------------------- a whole section --

  lemma Small(v: nat)
    requires v < TWO64
    ensures v % TWO64 == v
  {
  }

  /** Without a wrap every entry of a section can be loaded. */
  lemma NoWrapInside(c: nat, w: nat, i: nat)
    requires c * w + 63 < TWO64 && i < c
    ensures LoadInside(PackedSize64(c, w), i, w)
  {
    SizeAgrees(c, w);
    InPackedSize(c, w, i);
    FieldsEnd(c, w, i);
    Small(i * w);
  }

  /** If nearly the last entry lies below 2^63 bits, nothing wraps. */
  lemma LastLow(c: nat, w: nat, i: nat, len: nat)
    requires w <= 32 && c <= i + TWO32 + 1 && len <= TWO60 && i * w < TWO64 && LoadInside(len, i, w)
    ensures c * w + 63 < TWO64
  {
    MulMonotone(w, c, i + TWO32 + 1);
    MulMonotone(TWO32 + 1, w, 32);
    assert w * (i + TWO32 + 1) == i * w + w * (TWO32 + 1);
  }

  // ----------------------------------------------------------------------- rotations --

  lemma RotateLow(y: nat)
    requires y < TWO32
    ensures Rotate32(y) == y * TWO32
  {
  }

  lemma RotateHigh(y: nat)
    requires y < TWO32
    ensures TOP * TWO32 + y < TWO64 && Rotate32(TOP * TWO32 + y) == y * TWO32 + TOP
  {
    DivMod(y, TWO32, TOP);
  }

  // --------------------------------------------------------------------------- front --

  /** The last of the hashes below 2^32 that are looked up in the front section. */
  function FrontLast(t: Table): nat
    requires t.p1thr > 0
  {
    if t.p1thr < TWO32 then t.p1thr - 1 else TOP
  }

  predicate FrontSafe(t: Table) {
    t.p1thr == 0 || EndsInside(|t.front|, t.fw, 0, Reduce(Rotate32(FrontLast(t)), t.p2))
  }

  ghost predicate FrontInside(t: Table)
    requires t.p2 <= t.nb
  {
    forall x: U64 | x < t.p1thr :: PilotInside(t, x)
  }

  lemma FrontIndex(t: Table, x: nat)
    requires x < TWO32
    ensures Reduce(Rotate32(x), t.p2) == Idx(x, 0, t.p2)
  {
    RotateLow(x);
  }

  lemma FrontChain(t: Table)
    requires Accepted(t) && Mappable(t) && t.p1thr > 0
    ensures ChainInside(|t.front|, t.fw, t.p2, 0, 0, FrontLast(t)) <==> FrontSafe(t)
  {
    FrontIndex(t, FrontLast(t));
    assert Idx(0, 0, t.p2) == 0;
    ChainIff(|t.front|, t.fw, t.p2, 0, 0, FrontLast(t));
  }

  /** The hashes below 2^32 reach nearly the last front bucket. */
  lemma FrontReach(c: nat)
    requires c <= TWO64
    ensures c <= Idx(TOP, 0, c) + TWO32 + 1
  {
    QuotientStep(TOP * TWO32 * c, TWO32 * c);
    assert (TOP * TWO32 + 0) * c == TOP * TWO32 * c;
    assert TOP * TWO32 * c + TWO32 * c == TWO64 * c;
    assert TWO32 * c <= TWO32 * TWO64;
  }

  lemma FrontFits(t: Table)
    requires Accepted(t) && Mappable(t) && TWO32 <= t.p1thr && FrontSafe(t)
    ensures t.p2 * t.fw + 63 < TWO64
  {
    FrontIndex(t, TOP);
    FrontReach(t.p2);
    LastLow(t.p2, t.fw, Idx(TOP, 0, t.p2), |t.front|);
  }

  lemma FrontWide(t: Table, x: U64)
    requires Accepted(t) && Mappable(t) && t.p1thr >= TWO32 && FrontSafe(t) && x < t.p1thr
    ensures PilotInside(t, x)
  {
    FrontFits(t);
    ReduceBound(Rotate32(x), t.p2);
    NoWrapInside(t.p2, t.fw, Reduce(Rotate32(x), t.p2));
  }

  lemma FrontIff(t: Table)
    requires Accepted(t) && Mappable(t)
    ensures FrontInside(t) <==> FrontSafe(t)
  {
    if t.p1thr > 0 {
      FrontChain(t);
      if FrontSafe(t) {
        forall x: U64 | x < t.p1thr
          ensures PilotInside(t, x)
        {
          if t.p1thr >= TWO32 {
            FrontWide(t, x);
          } else {
            FrontIndex(t, x);
          }
        }
      }
      if FrontInside(t) {
        forall y | 0 <= y <= FrontLast(t)
          ensures LoadInside(|t.front|, Idx(y, 0, t.p2), t.fw)
        {
          FrontIndex(t, y);
          assert PilotInside(t, y);
        }
      }
    }
  }

  // ---------------------------------------------------------------------------- back --

  /** The low half of the first hash with the highest upper half that is looked up in the back section. */
  function BackFirst(t: Table): nat {
    if t.p1thr > TOP * TWO32 then t.p1thr - TOP * TWO32 else 0
  }

  predicate BackSafe(t: Table)
    requires t.p2 <= t.nb
  {
    EndsInside(|t.back|, t.bw, Idx(BackFirst(t), TOP, BackCount(t)), Idx(TOP, TOP, BackCount(t)))
  }

  ghost predicate BackInside(t: Table)
    requires t.p2 <= t.nb
  {
    forall x: U64 | t.p1thr <= x :: PilotInside(t, x)
  }

  lemma BackIndex(t: Table, y: nat)
    requires y < TWO32 && t.p2 <= t.nb
    ensures TOP * TWO32 + y < TWO64 && Reduce(Rotate32(TOP * TWO32 + y), BackCount(t)) == Idx(y, TOP, BackCount(t))
  {
    RotateHigh(y);
  }

  /** The highest hash reaches the last back bucket. */
  lemma BackReach(c: nat)
    requires 0 < c <= TWO64
    ensures Idx(TOP, TOP, c) == c - 1
  {
    assert (TOP * TWO32 + TOP) * c == TWO64 * c - c;
    LastQuotient(c);
  }

  lemma LastQuotient(c: nat)
    requires 0 < c <= TWO64
    ensures (TWO64 * c - c) / TWO64 == c - 1
  {
    DivMod(TWO64 - c, TWO64, c - 1);
  }

  lemma BackStart(c: nat)
    requires c <= TWO64
    ensures Idx(0, TOP, c) <= TWO32
  {
    assert TOP * c <= TOP * TWO64;
  }

  lemma SameChunk(i: nat, j: nat, w: nat)
    requires i <= TWO32 && w <= 32 && i * w / TWO64 == j * w / TWO64
    ensures j * w < TWO64
  {
    MulMonotone(w, i, TWO32);
    assert i * w < TWO64;
  }

  lemma BackFits(t: Table)
    requires Accepted(t) && Mappable(t) && t.p1thr <= TOP * TWO32 && BackSafe(t)
    ensures BackCount(t) * t.bw + 63 < TWO64
  {
    var c := BackCount(t);
    BackReach(c);
    BackStart(c);
    SameChunk(Idx(0, TOP, c), c - 1, t.bw);
    LastLow(c, t.bw, c - 1, |t.back|);
  }

  lemma BackWide(t: Table, x: U64)
    requires Accepted(t) && Mappable(t) && t.p1thr <= TOP * TWO32 && BackSafe(t) && t.p1thr <= x
    ensures PilotInside(t, x)
  {
    BackFits(t);
    ReduceBound(Rotate32(x), BackCount(t));
    NoWrapInside(BackCount(t), t.bw, Reduce(Rotate32(x), BackCount(t)));
  }

  lemma BackIff(t: Table)
    requires Accepted(t) && Mappable(t)
    ensures BackInside(t) <==> BackSafe(t)
  {
    ChainIff(|t.back|, t.bw, BackCount(t), TOP, BackFirst(t), TOP);
    if BackSafe(t) {
      forall x: U64 | t.p1thr <= x
        ensures PilotInside(t, x)
      {
        if t.p1thr <= TOP * TWO32 {
          BackWide(t, x);
        } else {
          BackIndex(t, x - TOP * TWO32);
        }
      }
    }
    if BackInside(t) {
      forall y | BackFirst(t) <= y <= TOP
        ensures LoadInside(|t.back|, Idx(y, TOP, BackCount(t)), t.bw)
      {
        BackIndex(t, y);
        assert PilotInside(t, TOP * TWO32 + y);
      }
    }
  }

  // --------------------------------------------------------------------- both sections --

  ghost predicate AllInside(t: Table, mixer: Mixer)
    requires t.p2 <= t.nb && t.n <= t.m
  {
    forall x: U64 :: SlotInside(t, x, mixer)
  }

  /** The ends of two chains, the lowest hashes in the front section and the highest in the back one, tell whether every lookup stays inside. */
  lemma LookupsInsideIff(t: Table, mixer: Mixer)
    requires Accepted(t) && Mappable(t)
    ensures AllInside(t, mixer) <==> FrontSafe(t) && BackSafe(t)
  {
    FrontIff(t);
    BackIff(t);
    forall x: U64
      ensures SlotInside(t, x, mixer) <==> PilotInside(t, x)
    {
      FreeAlwaysInside(t, x, mixer);
    }
    if AllInside(t, mixer) {
      forall x: U64
        ensures PilotInside(t, x)
      {
        assert SlotInside(t, x, mixer);
      }
    }
  }

  /** If no size wraps, every lookup stays inside, whatever the file's size. */
  lemma FitInside(t: Table, mixer: Mixer)
    requires Accepted(t) && SizesFit(t)
    ensures AllInside(t, mixer)
  {
    forall x: U64
      ensures SlotInside(t, x, mixer)
    {
      ReduceBound(Rotate32(x), t.p2);
      ReduceBound(Rotate32(x), BackCount(t));
      if x < t.p1thr {
        NoWrapInside(t.p2, t.fw, Reduce(Rotate32(x), t.p2));
      } else {
        NoWrapInside(BackCount(t), t.bw, Reduce(Rotate32(x), BackCount(t)));
      }
      FreeAlwaysInside(t, x, mixer);
    }
  }

  /** With 2^32 hashes on either side of the skew threshold, as every writer leaves, exactly the headers whose sizes do not wrap are safe. */
  lemma FitIff(t: Table, mixer: Mixer)
    requires Accepted(t) && Mappable(t) && TWO32 <= t.p1thr <= TOP * TWO32
    ensures AllInside(t, mixer) <==> SizesFit(t)
  {
    if SizesFit(t) {
      FitInside(t, mixer);
    } else if AllInside(t, mixer) {
      LookupsInsideIff(t, mixer);
      FrontFits(t);
      BackFits(t);
    }
  }

  /**
   An accepted file of at most 2^60 bytes: every load of every lookup's Slot stays inside exactly if the ends of those
   two chains say so; the offsets are inside in any case.
  */
  lemma FileSafeIff(data: Bytes, checkCrc: bool, crc: Crc, mixer: Mixer)
    requires ParseV2(data, checkCrc, crc).Ok? && |data| <= TWO60
    ensures var m := ParseV2(data, checkCrc, crc).m;
      && OffsetsInside(m) && Accepted(m.t)
      && (AllInside(m.t, mixer) <==> FrontSafe(m.t) && BackSafe(m.t))
  {
    ParsedReadable(data, checkCrc, crc);
    ParsedAccepted(data, checkCrc, crc);
    LookupsInsideIff(ParseV2(data, checkCrc, crc).m.t, mixer);
  }

  // ------------------------------------------------------- a header that is not safe --

  /** One key, 2^61 back pilots of eight bits, one front pilot of one bit, every hash in the back section. */
  function WrappingTable(): (t: Table)
    ensures Writable(t)
  {
    Table(1, 1, 0x2000_0000_0000_0001, 1, 0, 1, 8, [], [], [])
  }

  function FullKeys(): (o: Format)
    ensures ValidFormat(o)
  {
    Format(false, 0, 0, 4)
  }

  function ZeroBytes(n: nat): (s: Bytes)
    ensures |s| == n
  {
    seq(n, _ => 0)
  }

  /** A file of a hundred bytes: header, empty sections, trailer. */
  function WrappingFile(crc: Crc): (f: Bytes)
    ensures |f| == 100
  {
    FileV1.WithTrailer(Header(WrappingTable(), FullKeys()) + ZeroBytes(32), crc)
  }

  lemma WrappingHead(crc: Crc)
    ensures var f := WrappingFile(crc); f[..4] == FileV1.Magic() && BE(f[4..8]) == 2 && ReadHead(f) == HeadOf(WrappingTable(), FullKeys())
  {
    var f, h := WrappingFile(crc), Header(WrappingTable(), FullKeys());
    HeaderParts(WrappingTable(), FullKeys());
    assert f[..HEADER2] == h;
    PartsExtend(f, h, WrappingTable(), FullKeys());
    HeaderFields(f, WrappingTable(), FullKeys());
  }

  lemma WrappedSizes(back: nat)
    requires back == 0x2000_0000_0000_0000
    ensures PackedSize64(1, 1) == 16 && PackedSize64(back, 8) == 8
  {
  }

  lemma WrappingCuts()
    ensures HeadOk(HeadOf(WrappingTable(), FullKeys()))
    ensures CutsOf(HeadOf(WrappingTable(), FullKeys())) == Cuts(80, 88, 88, 96)
  {
    WrappedSizes(0x2000_0000_0000_0000);
  }

  lemma {:induction false} ZerosLE(s: Bytes)
    requires forall i | 0 <= i < |s| :: s[i] == 0
    ensures LE(s) == 0
  {
    if |s| > 0 {
      ZerosLE(s[1..]);
    }
  }

  /** An uncompressed file of one record that ends after its offsets, all of them zero. */
  lemma NothingStored(data: Bytes, h: Head, checkCrc: bool, crc: Crc)
    requires |data| == 100 && HeadOk(h) && CutsOf(h).offsets == 96 && CutsOf(h).free == 88 && h.n == 1 && h.flags == 0 && h.width == 0
    requires (forall i | 92 <= i < 96 :: data[i] == 0) && BE(data[96..]) == crc(data[..96])
    ensures ParseSections(data, h, checkCrc, crc) == FileV1.Ok(Cut(data, h, CutsOf(h)))
  {
    ZerosLE(data[92..96]);
  }

  /** The header check accepts the file, with or without verifying its checksum. */
  lemma WrappingAccepted(crc: Crc, checkCrc: bool) returns (m: Mapping)
    ensures ParseV2(WrappingFile(crc), checkCrc, crc) == FileV1.Ok(m)
    ensures m.t.nb == 0x2000_0000_0000_0001 && m.t.p2 == 1 && m.t.p1thr == 0 && m.t.bw == 8 && |m.t.back| == 8 && |m.data| == 100
  {
    var f, h := WrappingFile(crc), HeadOf(WrappingTable(), FullKeys());
    WrappingHead(crc);
    WrappingCuts();
    FileV1.Trailer(Header(WrappingTable(), FullKeys()) + ZeroBytes(32), crc);
    NothingStored(f, h, checkCrc, crc);
    m := Cut(f, h, CutsOf(h));
  }

  lemma LastByte(i: nat)
    requires i == 0x1FFF_FFFF_FFFF_FFFF
    ensures i * 8 % TWO64 / 8 == i
  {
  }

  /** The highest hash looks up the last back pilot. */
  lemma TopHash(t: Table)
    requires t.p2 < t.nb < TWO64
    ensures Reduce(Rotate32(TWO64 - 1), BackCount(t)) == BackCount(t) - 1
  {
    BackIndex(t, TOP);
    BackReach(BackCount(t));
    assert TOP * TWO32 + TOP == TWO64 - 1;
  }

  /** In that file the highest hash loads its pilot far outside the section, and outside the file. */
  lemma WrappingFails(crc: Crc, checkCrc: bool) returns (m: Mapping)
    ensures ParseV2(WrappingFile(crc), checkCrc, crc) == FileV1.Ok(m)
    ensures m.t.p2 <= m.t.nb && !PilotInside(m.t, TWO64 - 1)
    ensures Reduce(Rotate32(TWO64 - 1), BackCount(m.t)) * m.t.bw % TWO64 / 8 > |m.data|
  {
    m := WrappingAccepted(crc, checkCrc);
    TopHash(m.t);
    LastByte(BackCount(m.t) - 1);
  }

  /** A header can also wrap harmlessly: here the front section does, and no hash is looked up in it. */
  lemma WrapCanBeHarmless(t: Table, mixer: Mixer)
    requires Accepted(t) && Mappable(t) && t.p1thr == 0 && BackCount(t) * t.bw + 63 < TWO64
    ensures AllInside(t, mixer)
  {
    forall x: U64
      ensures SlotInside(t, x, mixer)
    {
      ReduceBound(Rotate32(x), BackCount(t));
      NoWrapInside(BackCount(t), t.bw, Reduce(Rotate32(x), BackCount(t)));
      FreeAlwaysInside(t, x, mixer);
    }
  }
}
