/** What lookups promise about any file that has been accepted, whoever wrote it and whatever has happened to it since. */
module AnyFile {
  import opened Words
  import opened Rows
  import opened PlaceV1
  import opened PtHash
  import opened Blocks
  import opened FileV2

  /** e is the record of this key and value. */
  predicate IsRecord(e: Bytes, key: Bytes, value: Bytes) {
    && |e| == 2 + |key| + |value| && BE(e[..2]) == |key|
    && e[2..2 + |key|] == key && e[2 + |key|..] == value
  }

  /** e is the record of some key and value. */
  ghost predicate WellFormed(e: Bytes) {
    exists key, value :: IsRecord(e, key, value)
  }

  lemma WellFormedIff(e: Bytes)
    ensures WellFormed(e) <==> |e| >= 2 && 2 + BE(e[..2]) <= |e|
  {
    if |e| >= 2 && 2 + BE(e[..2]) <= |e| {
      assert IsRecord(e, e[2..2 + BE(e[..2])], e[2 + BE(e[..2])..]);
    }
  }

  /** A record answers with its value to its own key, with absence to any other; bytes that are no record are damage. */
  lemma MatchIff(e: Bytes, key: Bytes)
    ensures forall v :: MatchRecord(e, key) == Found(v) <==> IsRecord(e, key, v)
    ensures MatchRecord(e, key) == Corrupted <==> !WellFormed(e)
    ensures MatchRecord(e, key) == NotFound <==> WellFormed(e) && forall v :: !IsRecord(e, key, v)
  {
    WellFormedIff(e);
    forall v
      ensures MatchRecord(e, key) == Found(v) <==> IsRecord(e, key, v)
    {
      if MatchRecord(e, key) == Found(v) {
        assert e[2..2 + BE(e[..2])] == key;
      }
    }
    if MatchRecord(e, key).Found? {
      assert IsRecord(e, key, MatchRecord(e, key).value);
    }
  }

  predicate LiesAt(data: Bytes, from: nat, to: nat, at: nat, e: Bytes) {
    from <= at && at + |e| <= to <= |data| && data[at..at + |e|] == e
  }

  /** e is a part of the file between from and to. */
  ghost predicate Inside(data: Bytes, from: nat, to: nat, e: Bytes) {
    exists at: nat :: LiesAt(data, from, to, at, e)
  }

  // ------------------------------------------------------------------- version 1 --

  /** The slot a hash leads to, and what its word says: where its record starts behind the data block's start, and its length. */
  function Slot1(m: FileV1.Mapping, h: nat): (s: nat)
    requires FileV1.Readable(m)
    ensures s < m.slots
  {
    Xor(FileV1.DispAt(m, Hi(h) % m.buckets), Lo(h)) % m.slots
  }

  /** The record the slot points to, if it lies in the data block. */
  function Stored1(m: FileV1.Mapping, s: nat): (e: Option<Bytes>)
    requires FileV1.Readable(m) && s < m.slots
    ensures e.Some? ==> Inside(m.data, m.d, m.end, e.value)
  {
    var off, ln := FileV1.WordAt(m, s) / TWO32, FileV1.WordAt(m, s) % TWO32;
    if m.d + off + ln > m.end then None else
      var e := m.data[m.d + off..m.d + off + ln];
      assert LiesAt(m.data, m.d, m.end, m.d + off, e);
      Some(e)
  }

  function Length1(m: FileV1.Mapping, s: nat): nat
    requires FileV1.Readable(m) && s < m.slots
  {
    FileV1.WordAt(m, s) % TWO32
  }

  /**
   In an accepted version 1 file a lookup finds a value exactly if the slot holds the record of that key with that
   value inside the data block, reports damage exactly if the slot is in use but holds no record inside it, and
   finds nothing otherwise.
  */
  lemma AnswersV1(m: FileV1.Mapping, h: nat, key: Bytes)
    requires FileV1.Readable(m)
    ensures var s, a := Slot1(m, h), FileV1.Entry(m, h, key); var e := Stored1(m, s);
      && (forall v :: a == Found(v) <==> Length1(m, s) > 0 && e.Some? && IsRecord(e.value, key, v))
      && (a == Corrupted <==> Length1(m, s) > 0 && (e.None? || !WellFormed(e.value)))
  {
    XorTwice(Lo(h), FileV1.DispAt(m, Hi(h) % m.buckets));
    var s := Slot1(m, h);
    var e := Stored1(m, s);
    if e.Some? {
      MatchIff(e.value, key);
      WellFormedIff(e.value);
    }
  }

  // ------------------------------------------------------------------- version 2 --

  /** With fingerprints a record is the key's fingerprint and the value. */
  predicate IsStored(m: Mapping, e: Bytes, key: Bytes, value: Bytes, fp: Fingerprint)
    requires m.lean ==> m.fpW == 4 || m.fpW == 8
  {
    if m.lean then e == fp(key)[..m.fpW] + value else IsRecord(e, key, value)
  }

  /** e is nothing a writer stores. */
  ghost predicate Unstored(m: Mapping, e: Bytes) {
    if m.lean then |e| < m.fpW else !WellFormed(e)
  }

  lemma StoredIff(m: Mapping, e: Bytes, key: Bytes, fp: Fingerprint)
    requires m.lean ==> m.fpW == 4 || m.fpW == 8
    ensures forall v :: MatchStored(m, e, key, fp) == Found(v) <==> IsStored(m, e, key, v, fp)
    ensures MatchStored(m, e, key, fp) == Corrupted <==> Unstored(m, e)
  {
    if m.lean {
      forall v
        ensures MatchStored(m, e, key, fp) == Found(v) <==> IsStored(m, e, key, v, fp)
      {
        if IsStored(m, e, key, v, fp) {
          assert e[..m.fpW] == fp(key)[..m.fpW] && e[m.fpW..] == v;
        }
      }
    } else {
      MatchIff(e, key);
    }
  }

  /** An uncompressed record is read from inside the blob, between its two offsets; a slot is empty if they are equal or reversed. */
  lemma FetchedInBlob(m: Mapping, slot: nat)
    requires OffsetsInside(m) && slot < m.t.n && !m.compressed
    ensures Fetch(m, slot).Fetched? ==> Inside(m.data, m.d, m.end, Fetch(m, slot).e) && |Fetch(m, slot).e| == Off(m, slot + 1) - Off(m, slot)
    ensures Fetch(m, slot).Missing? <==> Off(m, slot + 1) <= Off(m, slot)
    ensures Fetch(m, slot).Damaged? <==> Off(m, slot) < Off(m, slot + 1) && m.d + Off(m, slot + 1) > m.end
  {
    if Fetch(m, slot).Fetched? {
      assert LiesAt(m.data, m.d, m.end, m.d + Off(m, slot), Fetch(m, slot).e);
    }
  }

  /** A compressed record comes from a block inside the blob that decodes. */
  lemma FetchedFromBlock(m: Mapping, slot: nat)
    requires OffsetsInside(m) && slot < m.t.n && m.compressed
    ensures HighBits(slot, m.shift) < Units(m) && !Fetch(m, slot).Missing?
    ensures forall e :: Fetch(m, slot) == Fetched(e) <==>
      exists blk: Bytes, raw :: BlockAt(m, HighBits(slot, m.shift), blk) && DecodeBlock(blk) == Some(raw) && NthRecord(raw, LowBits(slot, m.shift)) == Some(e)
  {
    BlockOfSlot(slot, m.t.n, m.shift);
    BlockAtIff(m, HighBits(slot, m.shift));
    var b := BlockBytes(m, HighBits(slot, m.shift));
    forall e
      ensures Fetch(m, slot) == Fetched(e) <==>
        exists blk: Bytes, raw :: BlockAt(m, HighBits(slot, m.shift), blk) && DecodeBlock(blk) == Some(raw) && NthRecord(raw, LowBits(slot, m.shift)) == Some(e)
    {
      if Fetch(m, slot) == Fetched(e) {
        assert BlockAt(m, HighBits(slot, m.shift), b.value) && DecodeBlock(b.value) == Some(DecodeBlock(b.value).value);
      }
    }
  }

  /** Block b is these bytes, which are not empty and lie inside the blob. */
  predicate BlockAt(m: Mapping, b: nat, blk: Bytes)
    requires OffsetsInside(m) && b < Units(m)
  {
    && |blk| > 0 && Off(m, b) + |blk| == Off(m, b + 1) && m.d + Off(m, b + 1) <= m.end
    && m.data[m.d + Off(m, b)..m.d + Off(m, b + 1)] == blk
  }

  lemma BlockAtIff(m: Mapping, b: nat)
    requires OffsetsInside(m) && b < Units(m)
    ensures forall blk :: BlockBytes(m, b) == Some(blk) <==> BlockAt(m, b, blk)
  {
  }

  /**
   In an accepted version 2 file a lookup finds a value exactly if the slot of the hash holds that value with this key
   (or its fingerprint), and reports damage exactly if the slot's record cannot be fetched or is no record.
  */
  lemma AnswersV2(m: Mapping, h: nat, key: Bytes, mixer: Mixer, fp: Fingerprint)
    requires FileV2.Readable(m)
    ensures var s, a := Slot(m.t, h, mixer), Entry(m, h, key, mixer, fp);
      && (forall v :: a == Found(v) <==> s < m.t.n && Fetch(m, s).Fetched? && IsStored(m, Fetch(m, s).e, key, v, fp))
      && (a == Corrupted <==> s < m.t.n && (Fetch(m, s).Damaged? || (Fetch(m, s).Fetched? && Unstored(m, Fetch(m, s).e))))
  {
    var s := Slot(m.t, h, mixer);
    if s < m.t.n && Fetch(m, s).Fetched? {
      StoredIff(m, Fetch(m, s).e, key, fp);
    }
  }
}
