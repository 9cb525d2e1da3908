/**
 The LZ4 block format (LZ4 Block Format Description): a reference decoder that follows the format byte by
 byte, the wire form of a list of sequences, and the proof that the one undoes the other.
*/
module Lz4Format {
  import opened Words

  // ------------------------------------------------------- reference decoder --

  /** A length that may continue in extra bytes of 255. */
  function ReadLen(src: Bytes, base: nat): Option<(nat, Bytes)> {
    if |src| == 0 then None
    else if src[0] != 255 then Some((base + src[0], src[1..]))
    else ReadLen(src[1..], base + 255)
  }

  /** Copy ml bytes from offset back, one at a time, so that a match may overlap its own output. */
  function CopyMatch(out: Bytes, offset: nat, ml: nat): (r: Bytes)
    requires 1 <= offset <= |out|
    ensures |r| == |out| + ml && r[..|out|] == out
    decreases ml, |out|
  {
    if ml == 0 then out else CopyMatch(out + [out[|out| - offset]], offset, ml - 1)
  }

  function Extended(nibble: nat, src: Bytes): Option<(nat, Bytes)> {
    if nibble == 15 then ReadLen(src, 15) else Some((nibble, src))
  }

  function Offset(s: Bytes): (r: int)
    requires |s| >= 2
    ensures 0 <= r < TWO16
  {
    (s[0] as int) + 256 * (s[1] as int)
  }

  /** What a block decodes to after `out`, if it decodes to exactly n bytes. */
  function Decode(src: Bytes, out: Bytes, n: nat): Option<Bytes>
    decreases |src|
  {
    if |src| == 0 || |out| > n then None else
      match Extended(src[0] / 16, src[1..])
      case None => None
      case Some((lit, s1)) => AfterLength(src, s1, lit, out, n)
  }

  function AfterLength(src: Bytes, s1: Bytes, lit: nat, out: Bytes, n: nat): Option<Bytes>
    requires |src| > 0 && |out| <= n
    decreases |src|, 0
  {
    if lit > |s1| || lit > n - |out| || |s1| >= |src| then None else
      var o1, s2 := out + s1[..lit], s1[lit..];
      if |s2| == 0 then (if |o1| == n then Some(o1) else None)
      else if |s2| < 2 then None else
        var offset := Offset(s2);
        if offset == 0 || offset > |o1| then None else
          match Extended(src[0] % 16, s2[2..])
          case None => None
          case Some((m, s4)) =>
            if m + 4 > n - |o1| || |s4| >= |src| then None else Decode(s4, CopyMatch(o1, offset, m + 4), n)
  }

  lemma {:induction false} ReadLenShrinks(src: Bytes, base: nat)
    ensures ReadLen(src, base).Some? ==> |ReadLen(src, base).value.1| < |src| && ReadLen(src, base).value.0 >= base
  {
    if |src| > 0 && src[0] == 255 {
      ReadLenShrinks(src[1..], base + 255);
    }
  }

  // ------------------------------------------------------------------ matches --

  ghost predicate Periodic(s: Bytes, from: nat, to: nat, offset: nat) {
    1 <= offset <= from && to <= |s| && forall j | from <= j < to :: s[j] == s[j - offset]
  }

  /** The copied bytes repeat what lies offset before them, and nothing else does. */
  lemma {:induction false} CopyMatchIff(out: Bytes, offset: nat, ml: nat, t: Bytes)
    requires 1 <= offset <= |out|
    ensures t == CopyMatch(out, offset, ml) <==> |t| == |out| + ml && t[..|out|] == out && Periodic(t, |out|, |t|, offset)
    decreases ml
  {
    if ml == 0 {
      if |t| == |out| && t[..|out|] == out {
        assert t == out;
      }
    } else {
      var x := out[|out| - offset];
      CopyMatchIff(out + [x], offset, ml - 1, t);
      if t == CopyMatch(out, offset, ml) {
        assert t[..|out| + 1] == out + [x];
        assert t[|out|] == x == t[|out| - offset];
      }
      if |t| == |out| + ml && t[..|out|] == out && Periodic(t, |out|, |t|, offset) {
        assert t[..|out| + 1] == out + [x];
      }
    }
  }

  // ------------------------------------------------------------------ wire form --

  /** One token with its literals and match. */
  datatype Sequence = Sequence(lits: Bytes, offset: nat, ml: nat)

  /** appendLen */
  function LenBytes(l: nat): (s: Bytes)
    ensures |s| == l / 255 + 1
  {
    if l >= 255 then [255] + LenBytes(l - 255) else [l]
  }

  function Nibble(l: nat): (r: nat)
    ensures r <= 15
  {
    if l >= 15 then 15 else l
  }

  function Extra(l: nat): Bytes {
    if l >= 15 then LenBytes(l - 15) else []
  }

  /** emitSequence */
  function Emit(s: Sequence): Bytes
    requires s.ml >= 4 && s.offset < TWO16
  {
    [Nibble(|s.lits|) * 16 + Nibble(s.ml - 4)] + Extra(|s.lits|) + s.lits + [s.offset % 256, s.offset / 256] + Extra(s.ml - 4)
  }

  /** The token and literals that end a block. */
  function EmitLast(lits: Bytes): Bytes {
    [Nibble(|lits|) * 16] + Extra(|lits|) + lits
  }

  lemma {:induction false} ReadLenBytes(l: nat, base: nat, tail: Bytes)
    ensures ReadLen(LenBytes(l) + tail, base) == Some((base + l, tail))
  {
    var s := LenBytes(l) + tail;
    if l >= 255 {
      ReadLenBytes(l - 255, base + 255, tail);
      assert s[1..] == LenBytes(l - 255) + tail;
    } else {
      assert s[1..] == tail;
    }
  }

  lemma ExtendedExtra(l: nat, tail: Bytes)
    ensures Extended(Nibble(l), Extra(l) + tail) == Some((l, tail))
  {
    if l >= 15 {
      ReadLenBytes(l - 15, 15, tail);
    } else {
      assert Extra(l) + tail == tail;
    }
  }

  /** What follows the literals of an emitted sequence. */
  function MatchBytes(s: Sequence, tail: Bytes): Bytes
    requires s.ml >= 4 && s.offset < TWO16
  {
    [s.offset % 256, s.offset / 256] + (Extra(s.ml - 4) + tail)
  }

  /** The part of an emitted sequence after its literal length. */
  lemma AfterLengthEmit(src: Bytes, s: Sequence, tail: Bytes, out: Bytes, n: nat)
    requires s.ml >= 4 && 1 <= s.offset < TWO16 && s.offset <= |out| + |s.lits| && |out| + |s.lits| + s.ml <= n
    requires |src| > |s.lits| + 2 + |Extra(s.ml - 4)| + |tail| && src[0] % 16 == Nibble(s.ml - 4)
    ensures AfterLength(src, s.lits + MatchBytes(s, tail), |s.lits|, out, n)
      == Decode(tail, CopyMatch(out + s.lits, s.offset, s.ml), n)
  {
    var s4 := Extra(s.ml - 4) + tail;
    var s2 := [s.offset % 256, s.offset / 256] + s4;
    var s1 := s.lits + s2;
    assert s1[..|s.lits|] == s.lits && s1[|s.lits|..] == s2;
    ExtendedExtra(s.ml - 4, tail);
    assert s2[2..] == s4;
    assert Offset(s2) == s.offset;
  }

  lemma EmitLayout(s: Sequence, tail: Bytes)
    requires s.ml >= 4 && s.offset < TWO16
    ensures |Emit(s) + tail| > 0 && (Emit(s) + tail)[0] == Nibble(|s.lits|) * 16 + Nibble(s.ml - 4)
    ensures (Emit(s) + tail)[1..] == Extra(|s.lits|) + (s.lits + MatchBytes(s, tail))
  {
    Regroup(Nibble(|s.lits|) * 16 + Nibble(s.ml - 4), Extra(|s.lits|), s.lits,
      [s.offset % 256, s.offset / 256], Extra(s.ml - 4), tail);
  }

  lemma Regroup(token: Byte, a: Bytes, b: Bytes, c: Bytes, d: Bytes, tail: Bytes)
    ensures ([token] + a + b + c + d + tail)[1..] == a + (b + (c + (d + tail)))
  {
  }

  lemma DecodeToken(src: Bytes, lit: nat, s1: Bytes, out: Bytes, n: nat)
    requires |src| > 0 && |out| <= n && Extended(src[0] / 16, src[1..]) == Some((lit, s1))
    ensures Decode(src, out, n) == AfterLength(src, s1, lit, out, n)
  {
  }

  /** Decoding one emitted sequence appends its literals and its match. */
  lemma DecodeEmit(s: Sequence, tail: Bytes, out: Bytes, n: nat)
    requires s.ml >= 4 && 1 <= s.offset < TWO16 && s.offset <= |out| + |s.lits| && |out| + |s.lits| + s.ml <= n
    ensures Decode(Emit(s) + tail, out, n) == Decode(tail, CopyMatch(out + s.lits, s.offset, s.ml), n)
  {
    var src, s1 := Emit(s) + tail, s.lits + MatchBytes(s, tail);
    EmitLayout(s, tail);
    ExtendedExtra(|s.lits|, s1);
    DecodeToken(src, |s.lits|, s1, out, n);
    AfterLengthEmit(src, s, tail, out, n);
  }

  lemma DecodeLast(lits: Bytes, out: Bytes, n: nat)
    requires |out| + |lits| == n
    ensures Decode(EmitLast(lits), out, n) == Some(out + lits)
  {
    var src := EmitLast(lits);
    assert src[1..] == Extra(|lits|) + lits;
    ExtendedExtra(|lits|, lits);
    assert lits[..|lits|] == lits;
  }

  // ---------------------------------------------------------------- whole blocks --

  /** What a list of sequences decodes to. */
  function Replay(plan: seq<Sequence>): Bytes
    requires ValidPlan(plan)
    decreases |plan|, 1
  {
    if |plan| == 0 then [] else
      var s := plan[|plan| - 1];
      CopyMatch(Replay(plan[..|plan| - 1]) + s.lits, s.offset, s.ml)
  }

  /** Offsets reach back into what has been decoded; matches have at least four bytes. */
  predicate ValidPlan(plan: seq<Sequence>)
    decreases |plan|, 0
  {
    |plan| == 0 || (
      var i, s := plan[..|plan| - 1], plan[|plan| - 1];
      ValidPlan(i) && s.ml >= 4 && 1 <= s.offset < TWO16 && s.offset <= |Replay(i)| + |s.lits|)
  }

  /** Every sequence has a wire form. */
  predicate Emittable(plan: seq<Sequence>) {
    forall i | 0 <= i < |plan| :: plan[i].ml >= 4 && plan[i].offset < TWO16
  }

  function EmitAll(plan: seq<Sequence>): Bytes
    requires Emittable(plan)
  {
    if |plan| == 0 then [] else EmitAll(plan[..|plan| - 1]) + Emit(plan[|plan| - 1])
  }

  lemma PlanAppend(plan: seq<Sequence>, s: Sequence)
    requires ValidPlan(plan) && s.ml >= 4 && 1 <= s.offset < TWO16 && s.offset <= |Replay(plan)| + |s.lits|
    ensures ValidPlan(plan + [s])
    ensures Replay(plan + [s]) == CopyMatch(Replay(plan) + s.lits, s.offset, s.ml)
  {
    assert (plan + [s])[..|plan|] == plan;
  }

  /** Decoding any valid list of sequences replays it. */
  lemma {:induction false} DecodeAll(plan: seq<Sequence>, tail: Bytes, n: nat)
    requires ValidPlan(plan) && Emittable(plan) && |Replay(plan)| <= n
    ensures Decode(EmitAll(plan) + tail, [], n) == Decode(tail, Replay(plan), n)
  {
    if |plan| == 0 {
      assert EmitAll(plan) + tail == tail;
    } else {
      var i, s := plan[..|plan| - 1], plan[|plan| - 1];
      assert EmitAll(plan) + tail == EmitAll(i) + (Emit(s) + tail);
      DecodeAll(i, Emit(s) + tail, n);
      DecodeEmit(s, tail, Replay(i), n);
    }
  }

  /** Block is a wire form of src. */
  ghost predicate Encodes(block: Bytes, src: Bytes, plan: seq<Sequence>, last: Bytes) {
    ValidPlan(plan) && Emittable(plan) && block == EmitAll(plan) + EmitLast(last) && src == Replay(plan) + last
  }

  lemma EncodesDecodes(block: Bytes, src: Bytes, plan: seq<Sequence>, last: Bytes)
    requires Encodes(block, src, plan, last)
    ensures Decode(block, [], |src|) == Some(src)
  {
    DecodeAll(plan, EmitLast(last), |src|);
    DecodeLast(last, Replay(plan), |src|);
  }

  // ------------------------------------------------------------------------ sizes --

  lemma EmitSize(s: Sequence)
    requires s.ml >= 4 && s.offset < TWO16
    ensures |Emit(s)| <= |s.lits| + |s.lits| / 255 + s.ml
    ensures |s.lits| + s.ml <= 255 * |Emit(s)|
  {
  }

  lemma {:induction false} EmitAllSize(plan: seq<Sequence>)
    requires ValidPlan(plan) && Emittable(plan)
    ensures |EmitAll(plan)| <= |Replay(plan)| + |Replay(plan)| / 255
    ensures |Replay(plan)| <= 255 * |EmitAll(plan)|
  {
    if |plan| > 0 {
      EmitAllSize(plan[..|plan| - 1]);
      EmitSize(plan[|plan| - 1]);
    }
  }

  /** CompressBound */
  function CompressBound(n: nat): nat { n + n / 255 + 16 }

  lemma {:induction false} ReadLenBound(src: Bytes, base: nat)
    ensures ReadLen(src, base).Some? ==> var (v, rest) := ReadLen(src, base).value; |rest| < |src| && v <= base + 255 * (|src| - |rest|)
  {
    if |src| > 0 && src[0] == 255 {
      ReadLenBound(src[1..], base + 255);
    }
  }

  lemma ExtendedBound(nibble: nat, src: Bytes)
    requires nibble <= 15
    ensures Extended(nibble, src).Some? ==> var (v, rest) := Extended(nibble, src).value; |rest| <= |src| && v <= 15 + 255 * (|src| - |rest|)
  {
    ReadLenBound(src, 15);
  }

  /** Nothing decodes to more than 255 times its size, whoever wrote it. */
  lemma {:induction false} DecodeBound(src: Bytes, out: Bytes, n: nat)
    ensures Decode(src, out, n).Some? ==> n - |out| <= 255 * |src|
    decreases |src|
  {
    if Decode(src, out, n).Some? {
      ExtendedBound(src[0] / 16, src[1..]);
      var (lit, s1) := Extended(src[0] / 16, src[1..]).value;
      DecodeToken(src, lit, s1, out, n);
      AfterLengthBound(src, s1, lit, out, n);
    }
  }

  lemma {:induction false} AfterLengthBound(src: Bytes, s1: Bytes, lit: nat, out: Bytes, n: nat)
    requires |src| > 0 && |out| <= n && |s1| < |src| && AfterLength(src, s1, lit, out, n).Some?
    ensures n - |out| <= 255 * |src|
    decreases |src|, 0
  {
    var o1, s2 := out + s1[..lit], s1[lit..];
    if |s2| > 0 {
      ExtendedBound(src[0] % 16, s2[2..]);
      var (m, s4) := Extended(src[0] % 16, s2[2..]).value;
      DecodeBound(s4, CopyMatch(o1, Offset(s2), m + 4), n);
    }
  }

  /** Decoding gives exactly the length asked for. */
  lemma {:induction false} DecodeLength(src: Bytes, out: Bytes, n: nat)
    ensures Decode(src, out, n).Some? ==> |Decode(src, out, n).value| == n
    decreases |src|
  {
    if Decode(src, out, n).Some? {
      ExtendedBound(src[0] / 16, src[1..]);
      var (lit, s1) := Extended(src[0] / 16, src[1..]).value;
      DecodeToken(src, lit, s1, out, n);
      var o1, s2 := out + s1[..lit], s1[lit..];
      if |s2| > 0 {
        ExtendedBound(src[0] % 16, s2[2..]);
        var (m, s4) := Extended(src[0] % 16, s2[2..]).value;
        DecodeLength(s4, CopyMatch(o1, Offset(s2), m + 4), n);
      }
    }
  }

  /** A block is never larger than CompressBound, and never more than 255 times smaller than its content. */
  lemma EncodesSize(block: Bytes, src: Bytes, plan: seq<Sequence>, last: Bytes)
    requires Encodes(block, src, plan, last)
    ensures 1 <= |block| <= CompressBound(|src|)
    ensures |src| <= 255 * |block|
  {
    EmitAllSize(plan);
  }
}
