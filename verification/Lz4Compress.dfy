/** Compress: the greedy compressor with its table of last positions. */
module Lz4Compress {
  import opened Words
  import opened Lz4Format
  import opened Lz4Decode

  const MIN_MATCH := 4
  const LAST_LITERALS := 5
  const MATCH_LIMIT := 12
  const MAX_OFFSET := 65535
  const TABLE_SIZE := 4096

  /** The conversion to a signed 32-bit integer, which drops the upper bits. */
  function Int32(v: int): (r: int)
    ensures -0x8000_0000 <= r < 0x8000_0000
    ensures v >= 0 ==> r <= v
  {
    (v + 0x8000_0000) % TWO32 - 0x8000_0000
  }

  function Load32(s: Bytes, i: nat): nat
    requires i + 4 <= |s|
  {
    LE(s[i..i + 4])
  }

  /** hash4 */
  function Hash4(v: nat): (h: nat)
    ensures h < TABLE_SIZE
  {
    v * 2654435761 % TWO32 / 0x10_0000
  }

  // ------------------------------------------------------------------ emission --

  /** appendLen */
  method AppendLen(dst: Bytes, l: nat) returns (out: Bytes)
    ensures out == dst + LenBytes(l)
  {
    out := dst;
    var rest := l;
    while rest >= 255
      invariant out + LenBytes(rest) == dst + LenBytes(l)
    {
      out := out + [255];
      rest := rest - 255;
    }
    out := out + [rest];
  }

  method AppendExtra(dst: Bytes, l: nat) returns (out: Bytes)
    ensures out == dst + Extra(l)
  {
    out := dst;
    if l >= 15 {
      out := AppendLen(dst, l - 15);
    }
  }

  /** emitSequence */
  method EmitSequence(dst: Bytes, s: Sequence) returns (out: Bytes)
    requires s.ml >= 4 && s.offset < TWO16
    ensures out == dst + Emit(s)
  {
    var token := [Nibble(|s.lits|) * 16 + Nibble(s.ml - 4)];
    var offset := [s.offset % 256, s.offset / 256];
    out := AppendExtra(dst + token, |s.lits|);
    out := out + s.lits;
    out := out + offset;
    out := AppendExtra(out, s.ml - 4);
    Append5(dst, token, Extra(|s.lits|), s.lits, offset, Extra(s.ml - 4));
  }

  lemma Append5(dst: Bytes, a: Bytes, b: Bytes, c: Bytes, d: Bytes, e: Bytes)
    ensures dst + a + b + c + d + e == dst + (a + b + c + d + e)
  {
  }

  /** The literals that end the block. */
  method EmitRest(dst: Bytes, lits: Bytes) returns (out: Bytes)
    ensures out == dst + EmitLast(lits)
  {
    out := dst + [Nibble(|lits|) * 16];
    out := AppendExtra(out, |lits|);
    out := out + lits;
  }

  // ------------------------------------------------------------------- matches --

  ghost predicate Matches(src: Bytes, from: nat, at: nat, ml: nat) {
    from < at && Periodic(src, at, at + ml, at - from)
  }

  lemma SameWords(src: Bytes, from: nat, at: nat)
    requires from < at && at + 4 <= |src| && Load32(src, from) == Load32(src, at)
    ensures Matches(src, from, at, 4)
  {
    var a, b := src[from..from + 4], src[at..at + 4];
    LEInjective(a, b);
    forall j | at <= j < at + 4
      ensures src[j] == src[j - (at - from)]
    {
      assert b[j - at] == a[j - at];
    }
  }

  /** A match that is copied from behind reproduces src. */
  lemma MatchCopies(src: Bytes, from: nat, at: nat, ml: nat)
    requires Matches(src, from, at, ml)
    ensures CopyMatch(src[..at], at - from, ml) == src[..at + ml]
  {
    var t := src[..at + ml];
    assert t[..at] == src[..at];
    CopyMatchIff(src[..at], at - from, ml, t);
  }

  /** How far a match of ml bytes extends forward, never into the last five bytes. */
  function Longest(src: Bytes, from: nat, at: nat, ml: nat): (r: nat)
    requires from < at && at + ml <= |src| - LAST_LITERALS
    ensures ml <= r && at + r <= |src| - LAST_LITERALS
    decreases |src| - at - ml
  {
    if at + ml < |src| - LAST_LITERALS && src[from + ml] == src[at + ml] then Longest(src, from, at, ml + 1) else ml
  }

  lemma {:induction false} LongestMatches(src: Bytes, from: nat, at: nat, ml: nat)
    requires Matches(src, from, at, ml) && at + ml <= |src| - LAST_LITERALS
    ensures Matches(src, from, at, Longest(src, from, at, ml))
    decreases |src| - at - ml
  {
    if at + ml < |src| - LAST_LITERALS && src[from + ml] == src[at + ml] {
      LongestMatches(src, from, at, ml + 1);
    }
  }

  method Extend(src: Bytes, from: nat, at: nat) returns (ml: nat)
    requires from < at && at + MATCH_LIMIT <= |src|
    ensures ml == Longest(src, from, at, MIN_MATCH)
  {
    ml := MIN_MATCH;
    while at + ml < |src| - LAST_LITERALS && src[from + ml] == src[at + ml]
      invariant at + ml <= |src| - LAST_LITERALS && Longest(src, from, at, ml) == Longest(src, from, at, MIN_MATCH)
      decreases |src| - at - ml
    {
      ml := ml + 1;
    }
  }

  // -------------------------------------------------------------------- blocks --

  /** Every match starts more than twelve bytes before the end and leaves the last five bytes alone. */
  ghost predicate EndRestricted(plan: seq<Sequence>, n: nat)
    requires ValidPlan(plan)
  {
    |plan| == 0 || (
      var i := plan[..|plan| - 1];
      && EndRestricted(i, n)
      && |Replay(i)| + |plan[|plan| - 1].lits| + 12 < n
      && |Replay(plan)| + 5 <= n)
  }

  /** The format's end-of-block restrictions. */
  ghost predicate Restricted(src: Bytes, plan: seq<Sequence>, last: Bytes)
    requires ValidPlan(plan)
  {
    EndRestricted(plan, |src|) && (|plan| > 0 ==> |last| >= 5)
  }

  /** The plan covers src up to the anchor. */
  ghost predicate Progress(src: Bytes, plan: seq<Sequence>, anchor: nat) {
    anchor <= |src| && ValidPlan(plan) && Replay(plan) == src[..anchor] && EndRestricted(plan, |src|)
  }

  lemma Appended(src: Bytes, plan: seq<Sequence>, anchor: nat, from: nat, at: nat, ml: nat)
    requires Progress(src, plan, anchor) && anchor <= at && Matches(src, from, at, ml)
    requires 4 <= ml && at - from < TWO16 && at + MATCH_LIMIT < |src| && at + ml + LAST_LITERALS <= |src|
    ensures Progress(src, plan + [Sequence(src[anchor..at], at - from, ml)], at + ml)
  {
    var s := Sequence(src[anchor..at], at - from, ml);
    assert Replay(plan) + s.lits == src[..at];
    MatchCopies(src, from, at, ml);
    PlanAppend(plan, s);
    assert (plan + [s])[..|plan|] == plan;
  }

  /** The table remembers positions before p, plus one, or nothing. */
  ghost predicate Remembers(table: seq<int>, p: nat) {
    |table| == TABLE_SIZE && forall h | 0 <= h < TABLE_SIZE :: table[h] <= p
  }

  /** The position a table entry stands for, if it is near enough and its four bytes are those at si. */
  function Candidate(entry: int, src: Bytes, si: nat): (c: Option<nat>)
    requires entry <= si && si + 4 <= |src|
    ensures c.Some? ==> c.value < si && si - c.value <= MAX_OFFSET
  {
    var from := entry - 1;
    if from < 0 || si - from > MAX_OFFSET || Load32(src, from) != Load32(src, si) then None else Some(from)
  }

  function Slot(src: Bytes, si: nat): (h: nat)
    requires si + 4 <= |src|
    ensures h < TABLE_SIZE
  {
    Hash4(Load32(src, si))
  }

  /** int32(si) + 1 */
  function Entry(si: nat): (e: int)
    ensures e <= si + 1
  {
    Int32(Int32(si) + 1)
  }

  /** The table's candidate for the four bytes at si. */
  function Next(table: seq<int>, src: Bytes, si: nat): (c: Option<nat>)
    requires Remembers(table, si) && si + 4 <= |src|
    ensures c.Some? ==> c.value < si && si - c.value <= MAX_OFFSET
  {
    Candidate(table[Slot(src, si)], src, si)
  }

  /** The table with position si remembered. */
  function Updated(table: seq<int>, src: Bytes, si: nat): (now: seq<int>)
    requires Remembers(table, si) && si + 4 <= |src|
    ensures forall p | si < p :: Remembers(now, p)
  {
    table[Slot(src, si) := Entry(si)]
  }

  /** The sequence emitted for a match at si. */
  function SequenceAt(src: Bytes, anchor: nat, si: nat, from: nat): (s: Sequence)
    requires anchor <= si && from < si && si - from <= MAX_OFFSET && si + MATCH_LIMIT < |src|
    ensures s.ml >= 4 && s.offset < TWO16 && si + s.ml <= |src|
  {
    Sequence(src[anchor..si], si - from, Longest(src, from, si, MIN_MATCH))
  }

  /** The whole plan, and where its last literals start, once the first si bytes have been looked at. */
  function PlanFrom(src: Bytes, table: seq<int>, anchor: nat, si: nat, plan: seq<Sequence>): (r: (seq<Sequence>, nat))
    requires anchor <= si && Remembers(table, si) && anchor <= |src| && Emittable(plan)
    ensures Emittable(r.0) && r.1 <= |src|
    decreases |src| - si
  {
    if si + MATCH_LIMIT >= |src| then (plan, anchor)
    else if Next(table, src, si).None? then PlanFrom(src, Updated(table, src, si), anchor, si + 1, plan)
    else
      var s := SequenceAt(src, anchor, si, Next(table, src, si).value);
      PlanFrom(src, Updated(table, src, si), si + s.ml, si + s.ml, plan + [s])
  }

  function Fresh(): (t: seq<int>)
    ensures Remembers(t, 0)
  {
    seq(TABLE_SIZE, _ => 0)
  }

  function PlanOf(src: Bytes): (r: (seq<Sequence>, nat))
    ensures Emittable(r.0) && r.1 <= |src|
  {
    PlanFrom(src, Fresh(), 0, 0, [])
  }

  /** The block for src. */
  function Compressed(src: Bytes): Bytes {
    var (plan, anchor) := PlanOf(src);
    EmitAll(plan) + EmitLast(src[anchor..])
  }

  // -------------------------------------------------------------- the compressor --

  /** Look up the last position with the same four bytes, as far as the table remembers it, and remember this one. */
  method Probe(table: array<int>, src: Bytes, si: nat) returns (c: Option<nat>)
    requires si + 4 <= |src| && Remembers(table[..], si)
    modifies table
    ensures c == Next(old(table[..]), src, si) && table[..] == Updated(old(table[..]), src, si)
  {
    ghost var was := table[..];
    var h := Hash4(Load32(src, si));
    var from := table[h] - 1;
    assert was[h] == from + 1;
    table[h] := Int32(Int32(si) + 1);
    assert table[..] == was[h := Entry(si)];
    if from < 0 || si - from > MAX_OFFSET || Load32(src, from) != Load32(src, si) {
      return None;
    }
    c := Some(from);
  }

  /** The loop's state: where the plan is going, and what of it has been written. */
  ghost predicate OnPlan(dst: Bytes, out: Bytes, src: Bytes, table: seq<int>, anchor: nat, si: nat, plan: seq<Sequence>) {
    && anchor <= si <= |src| && Remembers(table, si) && Emittable(plan)
    && PlanFrom(src, table, anchor, si, plan) == PlanOf(src) && out == dst + EmitAll(plan)
  }

  /** The candidate at si becomes a sequence. */
  method EmitMatch(ghost dst: Bytes, buf: Bytes, src: Bytes, ghost was: seq<int>, anchor: nat, si: nat, from: nat, ghost plan: seq<Sequence>)
      returns (out: Bytes, next: nat, ghost longer: seq<Sequence>)
    requires OnPlan(dst, buf, src, was, anchor, si, plan) && si + MATCH_LIMIT < |src| && Next(was, src, si) == Some(from)
    ensures si < next && OnPlan(dst, out, src, Updated(was, src, si), next, next, longer)
  {
    TakeMatch(dst, buf, src, was, anchor, si, plan);
    var ml := Extend(src, from, si);
    var s := Sequence(src[anchor..si], si - from, ml);
    out := EmitSequence(buf, s);
    next, longer := si + ml, plan + [s];
  }

  /** The loop over src. */
  method FindMatches(dst: Bytes, src: Bytes, table: array<int>) returns (out: Bytes, anchor: nat, ghost si: nat, ghost plan: seq<Sequence>)
    requires table[..] == Fresh() && |src| >= MATCH_LIMIT + 1
    modifies table
    ensures OnPlan(dst, out, src, table[..], anchor, si, plan) && si + MATCH_LIMIT >= |src|
  {
    var limit, pos: nat := |src| - MATCH_LIMIT, 0;
    out, anchor, plan := dst, 0, [];
    Started(dst, src);
    while pos < limit
      invariant OnPlan(dst, out, src, table[..], anchor, pos, plan)
      decreases |src| - pos
    {
      ghost var was := table[..];
      var c := Probe(table, src, pos);
      if c.None? {
        Skip(dst, out, src, was, anchor, pos, plan);
        pos := pos + 1;
      } else {
        out, pos, plan := EmitMatch(dst, out, src, was, anchor, pos, c.value, plan);
        anchor := pos;
      }
    }
    si := pos;
  }

  lemma Started(dst: Bytes, src: Bytes)
    ensures OnPlan(dst, dst, src, Fresh(), 0, 0, [])
  {
    assert dst == dst + EmitAll([]);
  }

  /** Compress appends to dst the block for src. */
  method Compress(dst: Bytes, src: Bytes) returns (out: Bytes)
    ensures out == dst + Compressed(src)
  {
    var table := new int[TABLE_SIZE](_ => 0);
    assert table[..] == Fresh();
    var anchor: nat := 0;
    ghost var si: nat, plan: seq<Sequence> := 0, [];
    out := dst;
    Started(dst, src);
    if |src| >= MATCH_LIMIT + 1 {
      out, anchor, si, plan := FindMatches(dst, src, table);
    }
    AtEnd(dst, out, src, table[..], anchor, si, plan);
    out := EmitRest(out, src[anchor..]);
  }

  lemma Skip(dst: Bytes, out: Bytes, src: Bytes, table: seq<int>, anchor: nat, si: nat, plan: seq<Sequence>)
    requires OnPlan(dst, out, src, table, anchor, si, plan) && si + MATCH_LIMIT < |src| && Next(table, src, si).None?
    ensures OnPlan(dst, out, src, Updated(table, src, si), anchor, si + 1, plan)
  {
  }

  lemma TakeMatch(dst: Bytes, out: Bytes, src: Bytes, table: seq<int>, anchor: nat, si: nat, plan: seq<Sequence>)
    requires OnPlan(dst, out, src, table, anchor, si, plan) && si + MATCH_LIMIT < |src| && Next(table, src, si).Some?
    ensures var s := SequenceAt(src, anchor, si, Next(table, src, si).value);
      OnPlan(dst, out + Emit(s), src, Updated(table, src, si), si + s.ml, si + s.ml, plan + [s])
  {
    var s := SequenceAt(src, anchor, si, Next(table, src, si).value);
    assert (plan + [s])[..|plan|] == plan;
    Associative(dst, EmitAll(plan), Emit(s));
  }

  lemma AtEnd(dst: Bytes, out: Bytes, src: Bytes, table: seq<int>, anchor: nat, si: nat, plan: seq<Sequence>)
    requires OnPlan(dst, out, src, table, anchor, si, plan) && si + MATCH_LIMIT >= |src|
    ensures out + EmitLast(src[anchor..]) == dst + Compressed(src)
  {
    Associative(dst, EmitAll(plan), EmitLast(src[anchor..]));
  }

  lemma Associative(a: Bytes, b: Bytes, c: Bytes)
    ensures (a + b) + c == a + (b + c)
  {
  }

  // ------------------------------------------------------------------ round trip --

  /** A candidate extends to a match, which extends the plan. */
  lemma MatchProgress(src: Bytes, plan: seq<Sequence>, anchor: nat, si: nat, from: nat)
    requires Progress(src, plan, anchor) && anchor <= si && from < si && si - from <= MAX_OFFSET
    requires si + MATCH_LIMIT < |src| && Load32(src, from) == Load32(src, si)
    ensures var s := SequenceAt(src, anchor, si, from); Progress(src, plan + [s], si + s.ml)
  {
    SameWords(src, from, si);
    LongestMatches(src, from, si, MIN_MATCH);
    Appended(src, plan, anchor, from, si, Longest(src, from, si, MIN_MATCH));
  }

  /** The plan the compressor follows, from any point of its run. */
  lemma {:induction false} PlanProgress(src: Bytes, table: seq<int>, anchor: nat, si: nat, plan: seq<Sequence>)
    requires anchor <= si && Remembers(table, si) && Emittable(plan) && Progress(src, plan, anchor)
    ensures var (whole, end) := PlanFrom(src, table, anchor, si, plan); Progress(src, whole, end)
    decreases |src| - si
  {
    if si + MATCH_LIMIT < |src| {
      var now, c := Updated(table, src, si), Next(table, src, si);
      if c.None? {
        PlanProgress(src, now, anchor, si + 1, plan);
      } else {
        var s := SequenceAt(src, anchor, si, c.value);
        MatchProgress(src, plan, anchor, si, c.value);
        PlanProgress(src, now, si + s.ml, si + s.ml, plan + [s]);
      }
    }
  }

  /** A plan of Compressed(src) that respects the format's end-of-block restrictions. */
  lemma CompressedPlan(src: Bytes) returns (plan: seq<Sequence>, last: Bytes)
    ensures Encodes(Compressed(src), src, plan, last) && Restricted(src, plan, last) && plan == PlanOf(src).0
  {
    PlanProgress(src, Fresh(), 0, 0, []);
    var anchor := PlanOf(src).1;
    plan, last := PlanOf(src).0, src[anchor..];
    assert src == src[..anchor] + last;
  }

  /** The compressor's output decodes to its input, for every input. */
  lemma RoundTrip(src: Bytes)
    ensures Decode(Compressed(src), [], |src|) == Some(src)
  {
    var plan, last := CompressedPlan(src);
    EncodesDecodes(Compressed(src), src, plan, last);
  }

  /** A block is at most CompressBound long, and at least a 255th of its content. */
  lemma SizeBounds(src: Bytes)
    ensures 1 <= |Compressed(src)| <= CompressBound(|src|) && |src| <= 255 * |Compressed(src)|
  {
    var plan, last := CompressedPlan(src);
    EncodesSize(Compressed(src), src, plan, last);
  }

  /** Compressing and decompressing into any destination of the right length, whatever its capacity, gives src back. */
  method CompressDecompress(src: Bytes, full: array<Byte>) returns (ok: bool)
    requires |src| <= full.Length
    modifies full
    ensures ok && full[..|src|] == src
  {
    var block := Compress([], src);
    RoundTrip(src);
    assert block == Compressed(src);
    ok := Decompress(full, |src|, block);
  }
}
