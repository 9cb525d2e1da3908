/**
 Fixed-width fields packed into bytes: getBits, setBits and PackedSize of pthash.
 A 64-bit word is the sequence of its bits, lowest first, so that shifts, masks, `&^` and `|` are the
 operations the code writes.
*/
module BitPacking {
  import opened Words

  // ------------------------------------------------------- numbers as bits --

  /** Bit k of a number. */
  predicate Bit(v: nat, k: nat) {
    if k == 0 then v % 2 == 1 else Bit(v / 2, k - 1)
  }

  function ToBits(v: nat, n: nat): (bs: seq<bool>)
    ensures |bs| == n
  {
    seq(n, k requires 0 <= k < n => Bit(v, k))
  }

  function FromBits(bs: seq<bool>): nat {
    if |bs| == 0 then 0 else (if bs[0] then 1 else 0) + 2 * FromBits(bs[1..])
  }

  /** bits.Len64 */
  function BitLen(v: nat): nat {
    if v == 0 then 0 else 1 + BitLen(v / 2)
  }

  function Zeros(n: nat): (bs: seq<bool>)
    ensures |bs| == n && forall k | 0 <= k < n :: !bs[k]
  {
    seq(n, _ => false)
  }

  lemma {:induction false} FromToBits(v: nat, n: nat)
    requires BitLen(v) <= n
    ensures FromBits(ToBits(v, n)) == v
  {
    if n > 0 {
      FromToBits(v / 2, n - 1);
      assert ToBits(v, n)[1..] == ToBits(v / 2, n - 1);
    }
  }

  lemma {:induction false} ToFromBits(bs: seq<bool>)
    ensures ToBits(FromBits(bs), |bs|) == bs
  {
    if |bs| > 0 {
      ToFromBits(bs[1..]);
      assert FromBits(bs) / 2 == FromBits(bs[1..]);
    }
  }

  /** High zeros add nothing. */
  lemma {:induction false} FromBitsZeros(bs: seq<bool>, n: nat)
    ensures FromBits(bs + Zeros(n)) == FromBits(bs)
  {
    if |bs| > 0 {
      FromBitsZeros(bs[1..], n);
      assert (bs + Zeros(n))[1..] == bs[1..] + Zeros(n);
    } else if n > 0 {
      FromBitsZeros([], n - 1);
      assert (bs + Zeros(n))[1..] == [] + Zeros(n - 1);
    }
  }

  /** A number that fits w bits, written in n >= w bits. */
  lemma {:induction false} HighBitsClear(v: nat, k: nat)
    requires BitLen(v) <= k
    ensures !Bit(v, k)
  {
    if k > 0 {
      HighBitsClear(v / 2, k - 1);
    }
  }

  /** A number that fits w bits, written in n >= w bits. */
  lemma ToBitsZeros(v: nat, w: nat, n: nat)
    requires BitLen(v) <= w <= n
    ensures ToBits(v, n) == ToBits(v, w) + Zeros(n - w)
  {
    forall k | w <= k < n
      ensures !Bit(v, k)
    {
      HighBitsClear(v, k);
    }
  }

  lemma {:induction false} BitLenMonotone(a: nat, b: nat)
    requires a <= b
    ensures BitLen(a) <= BitLen(b)
  {
    if a > 0 {
      BitLenMonotone(a / 2, b / 2);
    }
  }

  lemma {:induction false} BitLenBound(v: nat, n: nat)
    ensures BitLen(v) <= n <==> v < Pow2(n)
  {
    if n > 0 {
      BitLenBound(v / 2, n - 1);
    }
  }

  // --------------------------------------------------------- bytes as bits --

  function BitsOf(s: Bytes): (bs: seq<bool>)
    ensures |bs| == 8 * |s|
  {
    seq(8 * |s|, k requires 0 <= k < 8 * |s| => Bit(s[k / 8], k % 8))
  }

  function ByteOf(bs: seq<bool>): Byte
    requires |bs| == 8
  {
    BitLenOfBits(bs);
    FromBits(bs)
  }

  function BytesOf(bs: seq<bool>): (s: Bytes)
    requires |bs| % 8 == 0
    ensures 8 * |s| == |bs|
  {
    seq(|bs| / 8, k requires 0 <= k < |bs| / 8 => ByteOf(bs[8 * k..8 * k + 8]))
  }

  lemma {:induction false} BitLenOfBits(bs: seq<bool>)
    ensures FromBits(bs) < Pow2(|bs|)
    ensures |bs| == 8 ==> FromBits(bs) < 256
  {
    if |bs| > 0 {
      BitLenOfBits(bs[1..]);
    }
    Pow2Values();
  }

  lemma BitsConcat(a: Bytes, b: Bytes)
    ensures BitsOf(a + b) == BitsOf(a) + BitsOf(b)
  {
  }

  lemma BitsSlice(s: Bytes, i: nat, j: nat)
    requires i <= j <= |s|
    ensures BitsOf(s[i..j]) == BitsOf(s)[8 * i..8 * j]
  {
  }

  lemma BitsOfBytes(bs: seq<bool>)
    requires |bs| % 8 == 0
    ensures BitsOf(BytesOf(bs)) == bs
  {
    forall k | 0 <= k < |bs|
      ensures BitsOf(BytesOf(bs))[k] == bs[k]
    {
      var b := bs[8 * (k / 8)..8 * (k / 8) + 8];
      ToFromBits(b);
      assert ToBits(FromBits(b), |b|)[k % 8] == b[k % 8];
    }
  }

  lemma ByteBack(x: Byte)
    ensures ByteOf(ToBits(x, 8)) == x
  {
    BitLenBound(x, 8);
    Pow2Values();
    FromToBits(x, 8);
  }

  lemma ByteSlice(s: Bytes, k: nat)
    requires k < |s|
    ensures BitsOf(s)[8 * k..8 * k + 8] == ToBits(s[k], 8)
  {
  }

  lemma BytesOfBits(s: Bytes)
    ensures BytesOf(BitsOf(s)) == s
  {
    forall k | 0 <= k < |s|
      ensures ByteOf(BitsOf(s)[8 * k..8 * k + 8]) == s[k]
    {
      ByteSlice(s, k);
      ByteBack(s[k]);
    }
  }

  // ------------------------------------------------------- 64-bit operations --

  type Word = w: seq<bool> | |w| == 64 witness seq(64, _ => false)

  function Shl(a: Word, n: nat): Word { seq(64, k requires 0 <= k < 64 => k >= n && a[k - n]) }
  function Shr(a: Word, n: nat): Word { seq(64, k requires 0 <= k < 64 => k + n < 64 && a[k + n]) }
  function And(a: Word, b: Word): Word { seq(64, k requires 0 <= k < 64 => a[k] && b[k]) }
  function AndNot(a: Word, b: Word): Word { seq(64, k requires 0 <= k < 64 => a[k] && !b[k]) }
  function Or(a: Word, b: Word): Word { seq(64, k requires 0 <= k < 64 => a[k] || b[k]) }

  /** (1 << w) - 1 */
  function Mask(w: nat): Word { seq(64, k requires 0 <= k < 64 => k < w) }

  /** binary.LittleEndian.Uint64(data[b:]) */
  function Load(data: Bytes, b: nat): Word
    requires b + 8 <= |data|
  {
    BitsOf(data[b..b + 8])
  }

  /** The field of width w at bit off. */
  function FieldAt(data: Bytes, off: nat, w: nat): nat
    requires off / 8 + 8 <= |data|
  {
    FromBits(And(Shr(Load(data, off / 8), off % 8), Mask(w)))
  }

  /** getBits */
  function GetBits(data: Bytes, i: nat, w: nat): nat
    requires i * w / 8 + 8 <= |data|
  {
    FieldAt(data, i * w, w)
  }

  /** pthash.PackedSize, before its 64-bit truncation */
  function PackedSize(count: nat, w: nat): nat {
    (count * w + 63) / 64 * 8 + 8
  }

  lemma {:induction false} FieldsEnd(count: nat, w: nat, i: nat)
    requires i < count
    ensures 0 <= i * w && i * w + w == (i + 1) * w <= count * w
  {
    if i + 1 < count {
      FieldsEnd(count - 1, w, i);
      assert count * w == (count - 1) * w + w;
    }
  }

  lemma InPackedSize(count: nat, w: nat, i: nat)
    requires i < count
    ensures 0 <= i * w && i * w / 8 + 8 <= PackedSize(count, w) && count * w <= 8 * PackedSize(count, w)
  {
    FieldsEnd(count, w, i);
  }

  /** The load, shift and mask see exactly the w bits at off. */
  lemma FieldAtIsSlice(data: Bytes, off: nat, w: nat)
    requires w <= 57 && off / 8 + 8 <= |data|
    ensures off + w <= 8 * |data| && FieldAt(data, off, w) == FromBits(BitsOf(data)[off..off + w])
  {
    var b, sh := off / 8, off % 8;
    BitsSlice(data, b, b + 8);
    var field := BitsOf(data)[off..off + w];
    assert And(Shr(Load(data, b), sh), Mask(w)) == field + Zeros(64 - w);
    FromBitsZeros(field, 64 - w);
  }

  /** `cur &^= mask << sh; cur |= x << sh` replaces w bits of a word. */
  lemma WordUpdate(cur: Word, sh: nat, w: nat, x: nat)
    requires sh + w <= 64 && BitLen(x) <= w
    ensures Or(AndNot(cur, Shl(Mask(w), sh)), Shl(ToBits(x, 64), sh)) == cur[..sh] + ToBits(x, w) + cur[sh + w..]
  {
    ToBitsZeros(x, w, 64);
  }

  lemma BitsReplaced(before: Bytes, b: nat, word: Bytes)
    requires b + 8 <= |before| && |word| == 8
    ensures var bs := BitsOf(before);
      BitsOf(before[..b] + word + before[b + 8..]) == bs[..8 * b] + BitsOf(word) + bs[8 * b + 64..]
  {
    BitsConcat(before[..b] + word, before[b + 8..]);
    BitsConcat(before[..b], word);
    BitsSlice(before, 0, b);
    BitsSlice(before, b + 8, |before|);
  }

  /** binary.LittleEndian.PutUint64(data[b:], word) */
  method Store(data: array<Byte>, b: nat, word: Word)
    requires b + 8 <= data.Length
    modifies data
    ensures data[..] == old(data[..b]) + BytesOf(word) + old(data[b + 8..])
  {
    var bytes := BytesOf(word);
    forall k | 0 <= k < 8 {
      data[b + k] := bytes[k];
    }
  }

  /** The word that setBits writes back. */
  function Updated(cur: Word, sh: nat, w: nat, x: nat): Word {
    Or(AndNot(cur, Shl(Mask(w), sh)), Shl(ToBits(x, 64), sh))
  }

  lemma Splice(bs: seq<bool>, a: nat, sh: nat, w: nat, t: seq<bool>)
    requires sh + w <= 64 && a + 64 <= |bs| && |t| == w
    ensures var cur := bs[a..a + 64];
      bs[..a] + (cur[..sh] + t + cur[sh + w..]) + bs[a + 64..] == bs[..a + sh] + t + bs[a + sh + w..]
  {
  }

  lemma BitsStored(before: Bytes, b: nat, sh: nat, t: seq<bool>, bytes: Bytes)
    requires b + 8 <= |before| && |bytes| == 8 && sh + |t| <= 64
    requires var cur := BitsOf(before)[8 * b..8 * b + 64]; BitsOf(bytes) == cur[..sh] + t + cur[sh + |t|..]
    ensures var bs := BitsOf(before);
      BitsOf(before[..b] + bytes + before[b + 8..]) == bs[..8 * b + sh] + t + bs[8 * b + sh + |t|..]
  {
    BitsReplaced(before, b, bytes);
    Splice(BitsOf(before), 8 * b, sh, |t|, t);
  }

  /** A loaded word with one field replaced. */
  lemma FieldBytes(cur: Word, sh: nat, w: nat, x: nat)
    requires sh + w <= 64 && BitLen(x) <= w
    ensures BitsOf(BytesOf(Updated(cur, sh, w, x))) == cur[..sh] + ToBits(x, w) + cur[sh + w..]
  {
    WordUpdate(cur, sh, w, x);
    BitsOfBytes(Updated(cur, sh, w, x));
  }

  lemma LoadedBits(data: Bytes, b: nat)
    requires b + 8 <= |data|
    ensures Load(data, b) == BitsOf(data)[8 * b..8 * b + 64]
  {
    BitsSlice(data, b, b + 8);
  }

  lemma FieldStored(before: Bytes, b: nat, sh: nat, w: nat, x: nat)
    requires sh + w <= 64 && BitLen(x) <= w && b + 8 <= |before|
    ensures var bs := BitsOf(before); var word := Updated(Load(before, b), sh, w, x);
      BitsOf(before[..b] + BytesOf(word) + before[b + 8..]) == bs[..8 * b + sh] + ToBits(x, w) + bs[8 * b + sh + w..]
  {
    var cur, t := Load(before, b), ToBits(x, w);
    var bytes := BytesOf(Updated(cur, sh, w, x));
    LoadedBits(before, b);
    FieldBytes(cur, sh, w, x);
    BitsStored(before, b, sh, t, bytes);
  }

  /** setBits at bit off: w bits become x and every other bit of the section keeps its value. */
  method SetFieldAt(data: array<Byte>, off: nat, w: nat, x: nat)
    requires w <= 57 && BitLen(x) <= w && off / 8 + 8 <= data.Length
    modifies data
    ensures BitsOf(data[..]) == old(BitsOf(data[..]))[..off] + ToBits(x, w) + old(BitsOf(data[..]))[off + w..]
  {
    var b, sh := off / 8, off % 8;
    assert 8 * b + sh == off;
    FieldStored(data[..], b, sh, w, x);
    var cur := Load(data[..], b);
    cur := AndNot(cur, Shl(Mask(w), sh));
    cur := Or(cur, Shl(ToBits(x, 64), sh));
    Store(data, b, cur);
  }

  // -------------------------------------------------------------- packing --

  ghost predicate Fit(ps: seq<nat>, w: nat) {
    forall j | 0 <= j < |ps| :: BitLen(ps[j]) <= w
  }

  /** The elements one after another, each in w bits. */
  function PackedBits(ps: seq<nat>, w: nat): seq<bool> {
    if |ps| == 0 then [] else PackedBits(ps[..|ps| - 1], w) + ToBits(ps[|ps| - 1], w)
  }

  lemma {:induction false} PackedLength(ps: seq<nat>, w: nat)
    ensures |PackedBits(ps, w)| == |ps| * w
    ensures 0 <= |ps| * w <= 8 * PackedSize(|ps|, w)
  {
    if |ps| > 0 {
      PackedLength(ps[..|ps| - 1], w);
    }
  }

  lemma {:induction false} PackedPrefix(ps: seq<nat>, w: nat, i: nat)
    requires i < |ps|
    ensures PackedBits(ps[..i + 1], w) == PackedBits(ps[..i], w) + ToBits(ps[i], w)
    ensures |PackedBits(ps[..i], w)| == i * w && i * w + w <= |PackedBits(ps, w)|
  {
    assert ps[..i + 1][..i] == ps[..i];
    PackedLength(ps[..i], w);
    PackedLength(ps, w);
    FieldsEnd(|ps|, w, i);
  }

  /** The pilot section that holds ps in fields of width w. */
  function PackedBytes(ps: seq<nat>, w: nat): (s: Bytes)
    ensures |s| == PackedSize(|ps|, w)
  {
    PackedLength(ps, w);
    var bs := PackedBits(ps, w);
    BytesOf(bs + Zeros(8 * PackedSize(|ps|, w) - |bs|))
  }

  lemma ZeroBytes(s: Bytes)
    requires forall k | 0 <= k < |s| :: s[k] == 0
    ensures BitsOf(s) == Zeros(8 * |s|)
  {
    forall k | 0 <= k < 8 * |s|
      ensures !BitsOf(s)[k]
    {
      HighBitsClear(0, k % 8);
    }
  }

  /** Replacing the first w clear bits appends one element. */
  lemma AppendField(front: seq<bool>, room: nat, t: seq<bool>)
    requires |front| + |t| <= room
    ensures var bs := front + Zeros(room - |front|);
      bs[..|front|] + t + bs[|front| + |t|..] == (front + t) + Zeros(room - |front| - |t|)
  {
  }

  lemma PackRoom(ps: seq<nat>, w: nat, i: nat)
    requires i < |ps| && Fit(ps, w)
    ensures BitLen(ps[i]) <= w && 0 <= i * w && i * w / 8 + 8 <= PackedSize(|ps|, w)
    ensures |PackedBits(ps[..i], w)| == i * w && i * w + w <= 8 * PackedSize(|ps|, w)
    ensures PackedBits(ps[..i + 1], w) == PackedBits(ps[..i], w) + ToBits(ps[i], w)
  {
    InPackedSize(|ps|, w, i);
    PackedPrefix(ps, w, i);
    PackedLength(ps, w);
  }

  /** The section after the first i elements. */
  function Partial(ps: seq<nat>, w: nat, i: nat, room: nat): seq<bool>
    requires i <= |ps| && |PackedBits(ps[..i], w)| <= room
  {
    PackedBits(ps[..i], w) + Zeros(room - |PackedBits(ps[..i], w)|)
  }

  method PackOne(data: array<Byte>, ps: seq<nat>, w: nat, i: nat)
    requires w <= 57 && Fit(ps, w) && i < |ps| && data.Length == PackedSize(|ps|, w)
    requires |PackedBits(ps[..i], w)| <= 8 * data.Length && BitsOf(data[..]) == Partial(ps, w, i, 8 * data.Length)
    modifies data
    ensures |PackedBits(ps[..i + 1], w)| <= 8 * data.Length && BitsOf(data[..]) == Partial(ps, w, i + 1, 8 * data.Length)
  {
    PackRoom(ps, w, i);
    AppendField(PackedBits(ps[..i], w), 8 * data.Length, ToBits(ps[i], w));
    SetFieldAt(data, i * w, w, ps[i]);
  }

  /** The packing loop of BuildWith: setBits of every element into zeroed bytes. */
  method Pack(ps: seq<nat>, w: nat) returns (data: array<Byte>)
    requires w <= 57 && Fit(ps, w)
    ensures fresh(data) && data[..] == PackedBytes(ps, w)
  {
    var size := PackedSize(|ps|, w);
    data := new Byte[size](_ => 0);
    ZeroBytes(data[..]);
    for i := 0 to |ps|
      invariant |PackedBits(ps[..i], w)| <= 8 * size && BitsOf(data[..]) == Partial(ps, w, i, 8 * size)
    {
      PackOne(data, ps, w, i);
    }
    assert ps[..|ps|] == ps;
    BytesOfBits(data[..]);
  }

  lemma {:induction false} PackedField(ps: seq<nat>, w: nat, i: nat, n: nat)
    requires i < n <= |ps|
    ensures 0 <= i * w && i * w + w <= |PackedBits(ps[..n], w)|
    ensures PackedBits(ps[..n], w)[i * w..i * w + w] == ToBits(ps[i], w)
    decreases n
  {
    PackedPrefix(ps, w, n - 1);
    if i < n - 1 {
      PackedField(ps, w, i, n - 1);
    }
  }

  lemma PackedSlice(ps: seq<nat>, w: nat, i: nat)
    requires i < |ps|
    ensures var bs := BitsOf(PackedBytes(ps, w)); 0 <= i * w && i * w + w <= |bs| && bs[i * w..i * w + w] == ToBits(ps[i], w)
  {
    var bs := PackedBits(ps, w);
    PackedLength(ps, w);
    BitsOfBytes(bs + Zeros(8 * PackedSize(|ps|, w) - |bs|));
    PackedField(ps, w, i, |ps|);
    assert ps[..|ps|] == ps;
  }

  /** getBits on a packed section returns the element that was packed. */
  lemma PackRoundTrip(ps: seq<nat>, w: nat, i: nat)
    requires w <= 57 && Fit(ps, w) && i < |ps|
    ensures 0 <= i * w && i * w / 8 + 8 <= PackedSize(|ps|, w)
    ensures GetBits(PackedBytes(ps, w), i, w) == ps[i]
  {
    InPackedSize(|ps|, w, i);
    FieldAtIsSlice(PackedBytes(ps, w), i * w, w);
    PackedSlice(ps, w, i);
    FromToBits(ps[i], w);
  }
}
