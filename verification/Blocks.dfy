/** Compressed blocks of version 2: uvarints, the records of one block, and its stored or LZ4 form. */
module Blocks {
  import opened Words
  import opened Flatten
  import Lz4Format
  import Lz4Compress
  import Lz4Decode

  // ------------------------------------------------------------------- uvarint --

  /** binary.PutUvarint */
  function PutUvarint(v: nat): (s: Bytes)
    ensures |s| >= 1
  {
    if v < 128 then [v] else [128 + v % 128] + PutUvarint(v / 128)
  }

  /** binary.Uvarint after i bytes: the value and its length, or None where it reports n <= 0. */
  function UvarintFrom(s: Bytes, i: nat): (r: Option<(nat, nat)>)
    ensures r.Some? ==> 1 <= r.value.1 <= |s|
    decreases |s|
  {
    if |s| == 0 || i >= 10 then None
    else if s[0] < 128 then (if i == 9 && s[0] > 1 then None else Some((s[0], 1)))
    else
      match UvarintFrom(s[1..], i + 1)
      case None => None
      case Some((v, n)) => Some((s[0] - 128 + 128 * v, n + 1))
  }

  function Uvarint(s: Bytes): (r: Option<(nat, nat)>)
    ensures r.Some? ==> 1 <= r.value.1 <= |s|
  {
    UvarintFrom(s, 0)
  }

  lemma {:induction false} UvarintBack(v: nat, i: nat, tail: Bytes)
    requires i <= 9 && v < Pow2(64 - 7 * i)
    ensures UvarintFrom(PutUvarint(v) + tail, i) == Some((v, |PutUvarint(v)|))
    decreases v
  {
    var s := PutUvarint(v) + tail;
    if i == 9 {
      assert Pow2(1) == 2;
    }
    if v >= 128 {
      Pow2Add(7, 64 - 7 * (i + 1));
      assert Pow2(7) == 128;
      assert s[1..] == PutUvarint(v / 128) + tail;
      UvarintBack(v / 128, i + 1, tail);
    }
  }

  lemma UvarintRoundTrip(v: nat, tail: Bytes)
    requires v < TWO64
    ensures Uvarint(PutUvarint(v) + tail) == Some((v, |PutUvarint(v)|))
  {
    Pow2Values();
    UvarintBack(v, 0, tail);
  }

  /** A uvarint: seven bits a byte, lowest first, the top bit set in all bytes but the last. */
  predicate IsUvarint(w: Bytes) {
    |w| > 0 && w[|w| - 1] < 128 && forall k | 0 <= k < |w| - 1 :: w[k] >= 128
  }

  function UvarintValue(w: Bytes): nat {
    if |w| == 0 then 0 else w[0] % 128 + 128 * UvarintValue(w[1..])
  }

  /** Seven bits less are left after each byte, and one after nine. */
  lemma BitsLeft(i: nat)
    requires i <= 9
    ensures if i == 9 then Pow2(64 - 7 * i) == 2 else Pow2(64 - 7 * i) == 128 * Pow2(64 - 7 * (i + 1))
  {
    if i == 9 {
      assert Pow2(1) == 2;
    } else {
      Pow2Add(7, 64 - 7 * (i + 1));
      assert Pow2(7) == 128;
    }
  }

  lemma LastByte(b: Byte)
    requires b < 128
    ensures IsUvarint([b]) && UvarintValue([b]) == b
  {
    assert [b][1..] == [];
  }

  lemma MoreBytes(b: Byte, w: Bytes)
    requires b >= 128 && IsUvarint(w)
    ensures IsUvarint([b] + w) && UvarintValue([b] + w) == b - 128 + 128 * UvarintValue(w)
  {
    assert ([b] + w)[1..] == w;
  }

  /** What is read fits what is left of 64 bits, and of ten bytes. */
  lemma {:induction false} UvarintSound(s: Bytes, i: nat)
    requires i <= 10 && UvarintFrom(s, i).Some?
    ensures var (v, n) := UvarintFrom(s, i).value; n <= |s| && i + n <= 10 && IsUvarint(s[..n]) && v == UvarintValue(s[..n]) < Pow2(64 - 7 * i)
    decreases |s|
  {
    BitsLeft(i);
    if s[0] < 128 {
      assert s[..1] == [s[0]];
      LastByte(s[0]);
    } else {
      UvarintSound(s[1..], i + 1);
      var n := UvarintFrom(s[1..], i + 1).value.1;
      assert s[..n + 1] == [s[0]] + s[1..][..n];
      MoreBytes(s[0], s[1..][..n]);
    }
  }

  lemma {:induction false} UvarintComplete(w: Bytes, tail: Bytes, i: nat)
    requires i <= 9 && IsUvarint(w) && i + |w| <= 10 && UvarintValue(w) < Pow2(64 - 7 * i)
    ensures UvarintFrom(w + tail, i) == Some((UvarintValue(w), |w|))
    decreases |w|
  {
    BitsLeft(i);
    if |w| > 1 {
      assert w == [w[0]] + w[1..];
      MoreBytes(w[0], w[1..]);
      assert (w + tail)[1..] == w[1..] + tail;
      UvarintComplete(w[1..], tail, i + 1);
    } else {
      assert w == [w[0]];
      LastByte(w[0]);
    }
  }

  /** A uvarint of at most ten bytes whose value fits 64 bits. */
  predicate FitsUvarint(w: Bytes) {
    |w| <= 10 && IsUvarint(w) && UvarintValue(w) < TWO64
  }

  lemma UvarintFits(s: Bytes)
    requires Uvarint(s).Some?
    ensures var (v, n) := Uvarint(s).value; n <= |s| && FitsUvarint(s[..n]) && v == UvarintValue(s[..n])
  {
    Pow2Values();
    UvarintSound(s, 0);
  }

  lemma FitsRead(s: Bytes, n: nat)
    requires n <= |s| && FitsUvarint(s[..n])
    ensures Uvarint(s) == Some((UvarintValue(s[..n]), n))
  {
    Pow2Values();
    UvarintComplete(s[..n], s[n..], 0);
    assert s == s[..n] + s[n..];
  }

  /** binary.Uvarint reads exactly those. */
  lemma UvarintIff(s: Bytes, v: nat, n: nat)
    ensures Uvarint(s) == Some((v, n)) <==> n <= |s| && FitsUvarint(s[..n]) && v == UvarintValue(s[..n])
  {
    if Uvarint(s).Some? {
      UvarintFits(s);
    }
    if n <= |s| && FitsUvarint(s[..n]) {
      FitsRead(s, n);
    }
  }

  // ------------------------------------------------------------------- records --

  function Framed(rec: Bytes): Bytes {
    PutUvarint(|rec|) + rec
  }

  /** The content of a block. */
  function Raw(recs: seq<Bytes>): Bytes {
    Flat(recs, Framed)
  }

  /** nextRecord: the record in front, and the rest. */
  function NextRecord(raw: Bytes): Option<(Bytes, Bytes)> {
    match Uvarint(raw)
    case None => None
    case Some((l, n)) => if l > |raw| - n then None else Some((raw[n..n + l], raw[n + l..]))
  }

  /** The record after skipping i of them. */
  function NthRecord(raw: Bytes, i: nat): Option<Bytes> {
    match NextRecord(raw)
    case None => None
    case Some((rec, rest)) => if i == 0 then Some(rec) else NthRecord(rest, i - 1)
  }

  /** The loop of recordCompressed. */
  method FindRecord(raw: Bytes, i: nat) returns (r: Option<Bytes>)
    ensures r == NthRecord(raw, i)
  {
    var rest, k: nat := raw, i;
    while true
      invariant k <= i && NthRecord(rest, k) == NthRecord(raw, i)
      decreases k
    {
      var next := NextRecord(rest);
      if next.None? {
        return None;
      }
      if k == 0 {
        return Some(next.value.0);
      }
      rest, k := next.value.1, k - 1;
    }
  }

  lemma NextFramed(rec: Bytes, tail: Bytes)
    requires |rec| < TWO64
    ensures NextRecord(Framed(rec) + tail) == Some((rec, tail))
  {
    var p, s := PutUvarint(|rec|), Framed(rec) + tail;
    assert s == p + (rec + tail);
    UvarintRoundTrip(|rec|, rec + tail);
    assert s[|p|..|p| + |rec|] == rec && s[|p| + |rec|..] == tail;
  }

  lemma {:induction false} RawSplit(recs: seq<Bytes>)
    requires |recs| > 0
    ensures Raw(recs) == Framed(recs[0]) + Raw(recs[1..])
  {
    if |recs| == 1 {
      assert recs[..0] == [] && recs[1..] == [];
    } else {
      var n := |recs| - 1;
      RawSplit(recs[..n]);
      assert recs[..n][1..] == recs[1..][..n - 1];
    }
  }

  /** Skipping i records leads to record i. */
  lemma {:induction false} NthOfRaw(recs: seq<Bytes>, i: nat)
    requires i < |recs| && forall k | 0 <= k < |recs| :: |recs[k]| < TWO64
    ensures NthRecord(Raw(recs), i) == Some(recs[i])
  {
    RawSplit(recs);
    NextFramed(recs[0], Raw(recs[1..]));
    if i > 0 {
      NthOfRaw(recs[1..], i - 1);
    }
  }

  // -------------------------------------------------------------------- blocks --

  /** maxBlockRaw */
  const MAX_RAW := 0x1000_0000

  /** method | uvarint(raw length) | payload; stored when LZ4 does not make it smaller. */
  function Block(raw: Bytes): (b: Bytes)
    ensures |b| >= 2
  {
    var comp := Lz4Compress.Compressed(raw);
    if |comp| >= |raw| then [0] + PutUvarint(|raw|) + raw else [1] + PutUvarint(|raw|) + comp
  }

  method WriteBlock(raw: Bytes) returns (b: Bytes)
    ensures b == Block(raw)
  {
    var comp := Lz4Compress.Compress([], raw);
    assert comp == Lz4Compress.Compressed(raw);
    if |comp| >= |raw| {
      b := [0] + PutUvarint(|raw|) + raw;
    } else {
      b := [1] + PutUvarint(|raw|) + comp;
    }
  }

  /** decodeBlock */
  function DecodeBlock(blk: Bytes): Option<Bytes>
    requires |blk| > 0
  {
    match Uvarint(blk[1..])
    case None => None
    case Some((rawLen, n)) =>
      var payload := blk[1 + n..];
      if rawLen > MAX_RAW then None
      else if blk[0] == 0 then (if |payload| != rawLen then None else Some(payload))
      else if blk[0] == 1 then (if rawLen > 255 * |payload| + 16 then None else Lz4Format.Decode(payload, [], rawLen))
      else None
  }

  /** decodeBlock with its scratch buffer, which is used when it is large enough; what is behind rawLen in it is noise. */
  method DecodeInto(blk: Bytes, scratch: array<Byte>) returns (r: Option<Bytes>)
    requires |blk| > 0
    modifies scratch
    ensures r == DecodeBlock(blk)
  {
    var u := Uvarint(blk[1..]);
    if u.None? || u.value.0 > MAX_RAW {
      return None;
    }
    var rawLen, payload := u.value.0, blk[1 + u.value.1..];
    if blk[0] == 0 {
      return if |payload| != rawLen then None else Some(payload);
    }
    if blk[0] != 1 || rawLen > 255 * |payload| + 16 {
      return None;
    }
    var raw := scratch;
    if scratch.Length < rawLen + Lz4Decode.SLACK {
      raw := new Byte[rawLen + Lz4Decode.SLACK](_ => 0);
    }
    var ok := Lz4Decode.Decompress(raw, rawLen, payload);
    r := if ok then Some(raw[..rawLen]) else None;
  }

  /** The ratio check rejects nothing that decodes, whoever wrote it; it only saves the attempt. */
  lemma RatioRejectsNothing(payload: Bytes, rawLen: nat)
    ensures Lz4Format.Decode(payload, [], rawLen).Some? ==> rawLen <= 255 * |payload| + 16
  {
    Lz4Format.DecodeBound(payload, [], rawLen);
  }

  /** What decodes: a stored block to its payload, an LZ4 block to what its payload says; nothing beyond 2^28 bytes, and no other kind of block. */
  lemma DecodeIff(blk: Bytes, raw: Bytes)
    requires |blk| > 0
    ensures DecodeBlock(blk) == Some(raw) <==>
      && |raw| <= 0x1000_0000 && Uvarint(blk[1..]).Some? && Uvarint(blk[1..]).value.0 == |raw|
      && var payload := blk[1 + Uvarint(blk[1..]).value.1..];
        (blk[0] == 0 && payload == raw) || (blk[0] == 1 && Lz4Format.Decode(payload, [], |raw|) == Some(raw))
  {
    match Uvarint(blk[1..])
    case None =>
    case Some((rawLen, n)) =>
      RatioRejectsNothing(blk[1 + n..], rawLen);
      Lz4Format.DecodeLength(blk[1 + n..], [], rawLen);
  }

  lemma BlockParts(m: Byte, l: nat, payload: Bytes)
    requires l < TWO64
    ensures var b, p := [m] + PutUvarint(l) + payload, PutUvarint(l);
      b[0] == m && b[1..] == p + payload && b[1 + |p|..] == payload && Uvarint(b[1..]) == Some((l, |p|))
  {
    var b, p := [m] + PutUvarint(l) + payload, PutUvarint(l);
    assert b[1..] == p + payload;
    UvarintRoundTrip(l, payload);
  }

  /**
   A block decodes to its content if and only if the content has at most 2^28 bytes. The ratio check never
   rejects a block that was written.
  */
  lemma BlockRoundTrip(raw: Bytes)
    requires |raw| < TWO64
    ensures DecodeBlock(Block(raw)) == if |raw| <= 0x1000_0000 then Some(raw) else None
  {
    var comp := Lz4Compress.Compressed(raw);
    Lz4Compress.RoundTrip(raw);
    Lz4Compress.SizeBounds(raw);
    if |comp| >= |raw| {
      BlockParts(0, |raw|, raw);
    } else {
      BlockParts(1, |raw|, comp);
    }
  }
}
