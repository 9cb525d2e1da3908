/** scanV2 and scanCompressed: a scan of a compiled file visits every row exactly once, in slot order. */
module ScanV2 {
  import opened Words
  import opened Rows
  import opened Blocks
  import opened FileV2
  import opened ReadV2
  import opened LookupV2

  type Pair = (Bytes, Bytes)

  /** What the callback sees of a stored record: key or fingerprint, and value. */
  function Visible(m: Mapping, e: Bytes): Option<Pair> {
    if m.lean then (if |e| < m.fpW then None else Some((e[..m.fpW], e[m.fpW..])))
    else if |e| < 2 then None
    else
      var kl := BE(e[..2]);
      if 2 + kl > |e| then None else Some((e[2..2 + kl], e[2 + kl..]))
  }

  function OneOrNone(p: Option<Pair>): seq<Pair> {
    if p.Some? then [p.value] else []
  }

  // -------------------------------------------------------------------- callbacks --

  /** The callback: shown pairs one by one, it says after each, given all it has been shown, whether to go on. */
  type Callback = seq<Pair> -> bool

  /** What is shown of ps: all of it, or up to and including the first pair after which the callback stops. */
  function Upto(ps: seq<Pair>, cb: Callback, k: nat): seq<Pair>
    decreases |ps| - k
  {
    if k >= |ps| then ps else if !cb(ps[..k + 1]) then ps[..k + 1] else Upto(ps, cb, k + 1)
  }

  ghost predicate GoesOn(ps: seq<Pair>, cb: Callback) {
    forall k | 1 <= k <= |ps| :: cb(ps[..k])
  }

  /** The callback stopped after out, a part of full. */
  ghost predicate Halted(out: seq<Pair>, full: seq<Pair>, cb: Callback) {
    0 < |out| <= |full| && full[..|out|] == out && !cb(out) && GoesOn(out[..|out| - 1], cb)
  }

  /** What has been shown of full: all of it, or what the callback allowed. */
  ghost predicate Shown(out: seq<Pair>, full: seq<Pair>, cb: Callback, stopped: bool) {
    if stopped then Halted(out, full, cb) else out == full && GoesOn(out, cb)
  }

  lemma {:induction false} ShownUpto(out: seq<Pair>, full: seq<Pair>, cb: Callback, stopped: bool, k: nat)
    requires Shown(out, full, cb, stopped) && k <= |out| && (stopped ==> k < |out|)
    ensures Upto(full, cb, k) == out
    decreases |out| - k
  {
    if k < |full| {
      assert full[..k + 1] == out[..k + 1];
      if stopped && k == |out| - 1 {
        assert out[..k + 1] == out;
      } else if stopped {
        assert out[..|out| - 1][..k + 1] == out[..k + 1];
        ShownUpto(out, full, cb, stopped, k + 1);
      } else {
        ShownUpto(out, full, cb, stopped, k + 1);
      }
    }
  }

  ghost predicate Extends(a: seq<Pair>, b: seq<Pair>) {
    |a| <= |b| && b[..|a|] == a
  }

  lemma HaltedExtends(out: seq<Pair>, full: seq<Pair>, more: seq<Pair>, cb: Callback)
    requires Halted(out, full, cb) && Extends(full, more)
    ensures Halted(out, more, cb)
  {
    assert more[..|out|] == more[..|full|][..|out|];
  }

  lemma ShowOne(out: seq<Pair>, p: Pair, full: seq<Pair>, cb: Callback)
    requires GoesOn(out, cb) && Extends(out + [p], full)
    ensures cb(out + [p]) ==> GoesOn(out + [p], cb)
    ensures !cb(out + [p]) ==> Halted(out + [p], full, cb)
  {
    var next := out + [p];
    forall k | 1 <= k <= |next|
      ensures next[..k] == if k <= |out| then out[..k] else next
    {
    }
    assert next[..|next| - 1] == out;
  }

  /** One more pair is shown. */
  method ShowPair(before: seq<Pair>, p: Pair, cb: Callback, ghost full: seq<Pair>) returns (out: seq<Pair>, stopped: bool)
    requires GoesOn(before, cb) && Extends(before + [p], full)
    ensures out == before + [p] && if stopped then Halted(out, full, cb) else GoesOn(out, cb)
  {
    ShowOne(before, p, full, cb);
    out := before + [p];
    stopped := !cb(out);
  }

  lemma ExtendsTransitive(a: seq<Pair>, b: seq<Pair>, c: seq<Pair>)
    requires Extends(a, b) && Extends(b, c)
    ensures Extends(a, c)
  {
    assert c[..|a|] == c[..|b|][..|a|];
  }

  // ------------------------------------------------------------------------ units --

  /** What a scan has yielded, and whether it goes on. */
  datatype Progress = Progress(out: seq<Pair>, ok: bool)

  /** How a unit of the file, a slot or a block, takes a scan further. */
  type Advance = (nat, seq<Pair>) -> Progress

  /** A scan from unit b on; it ends at the first unit that cannot be read. */
  ghost function Run(step: Advance, b: nat, n: nat, out: seq<Pair>): seq<Pair>
    requires b <= n
    decreases n - b
  {
    if b == n then out else
      var p := step(b, out);
      if p.ok then Run(step, b + 1, n, p.out) else p.out
  }

  ghost predicate Grows(step: Advance, n: nat) {
    forall b: nat, out | b < n :: Extends(out, step(b, out).out)
  }

  lemma {:induction false} RunExtends(step: Advance, b: nat, n: nat, out: seq<Pair>)
    requires Grows(step, n) && b <= n
    ensures Extends(out, Run(step, b, n, out))
    decreases n - b
  {
    if b < n && step(b, out).ok {
      RunExtends(step, b + 1, n, step(b, out).out);
      ExtendsTransitive(out, step(b, out).out, Run(step, b, n, out));
    }
  }

  /** A unit in which the callback stopped ends the whole scan there. */
  lemma HaltedInUnit(step: Advance, b: nat, n: nat, before: seq<Pair>, out: seq<Pair>, cb: Callback)
    requires Grows(step, n) && b < n && Halted(out, step(b, before).out, cb)
    ensures Halted(out, Run(step, b, n, before), cb)
  {
    var p := step(b, before);
    if p.ok {
      RunExtends(step, b + 1, n, p.out);
      HaltedExtends(out, p.out, Run(step, b, n, before), cb);
    }
  }

  /** Every unit b takes a scan from stops[b] to stops[b + 1]. */
  ghost predicate Steps(step: Advance, stops: seq<seq<Pair>>) {
    |stops| > 0 && forall b | 0 < b < |stops| :: step(b - 1, stops[b - 1]) == Progress(stops[b], true)
  }

  lemma {:induction false} RunAll(step: Advance, stops: seq<seq<Pair>>, b: nat)
    requires Steps(step, stops) && b < |stops|
    ensures Run(step, b, |stops| - 1, stops[b]) == stops[|stops| - 1]
    decreases |stops| - b
  {
    if b < |stops| - 1 {
      assert step(b, stops[b]) == Progress(stops[b + 1], true);
      RunAll(step, stops, b + 1);
    }
  }

  // ----------------------------------------------------------------- uncompressed --

  /** What slot i contributes to a scan; unreadable records are skipped. */
  function SlotPairs(m: Mapping, i: nat): seq<Pair>
    requires OffsetsInside(m) && i < Units(m)
  {
    match PlainRecord(m, i)
    case Missing => []
    case Damaged => []
    case Fetched(e) => OneOrNone(Visible(m, e))
  }

  ghost function PlainStep(m: Mapping): Advance {
    (i: nat, out: seq<Pair>) => if OffsetsInside(m) && i < Units(m) then Progress(out + SlotPairs(m, i), true) else Progress(out, false)
  }

  lemma PlainGrows(m: Mapping)
    requires OffsetsInside(m)
    ensures Grows(PlainStep(m), Units(m))
  {
  }

  /** The pair of one slot, if its record can be read. */
  method ReadSlot(m: Mapping, i: nat) returns (v: Option<Pair>)
    requires OffsetsInside(m) && i < Units(m)
    ensures OneOrNone(v) == SlotPairs(m, i)
  {
    var start, end := Off(m, i), Off(m, i + 1);
    if end <= start || m.d + end > m.end {
      return None;
    }
    v := Visible(m, m.data[m.d + start..m.d + end]);
  }

  /** One slot: the pair it contributes is shown, if there is one. */
  method ScanSlot(m: Mapping, i: nat, before: seq<Pair>, cb: Callback) returns (out: seq<Pair>, stopped: bool)
    requires OffsetsInside(m) && i < Units(m) && GoesOn(before, cb)
    ensures Shown(out, before + SlotPairs(m, i), cb, stopped)
  {
    out, stopped := before, false;
    var v := ReadSlot(m, i);
    if v.Some? {
      out, stopped := ShowPair(before, v.value, cb, before + [v.value]);
    }
  }

  /** scanV2 of an uncompressed file */
  method ScanPlain(m: Mapping, cb: Callback) returns (out: seq<Pair>)
    requires OffsetsInside(m)
    ensures out == Upto(Run(PlainStep(m), 0, Units(m), []), cb, 0)
  {
    ghost var full := Run(PlainStep(m), 0, Units(m), []);
    out := [];
    for i := 0 to Units(m)
      invariant Run(PlainStep(m), i, Units(m), out) == full && GoesOn(out, cb)
    {
      ghost var before := out;
      var stopped;
      out, stopped := ScanSlot(m, i, out, cb);
      if stopped {
        PlainGrows(m);
        HaltedInUnit(PlainStep(m), i, Units(m), before, out, cb);
        ShownUpto(out, full, cb, true, 0);
        return;
      }
    }
    ShownUpto(out, full, cb, false, 0);
  }

  // ------------------------------------------------------------------- compressed --

  /** The next count records of a block. */
  function BlockScan(m: Mapping, raw: Bytes, count: nat, out: seq<Pair>): Progress
    decreases count
  {
    if count == 0 then Progress(out, true) else
      match NextRecord(raw)
      case None => Progress(out, false)
      case Some((rec, rest)) =>
        match Visible(m, rec)
        case None => Progress(out, false)
        case Some(p) => BlockScan(m, rest, count - 1, out + [p])
  }

  /** Records of block b: a full block's, or what is left. */
  function BlockCount(m: Mapping, b: nat): nat {
    var from, to := ChunkStart(m.shift, b), ChunkEnd(m.t.n, m.shift, b);
    if from < to then to - from else 0
  }

  /** The scan of one block. */
  function OneBlock(m: Mapping, b: nat, out: seq<Pair>): Progress
    requires OffsetsInside(m) && b < Units(m)
  {
    match BlockBytes(m, b)
    case None => Progress(out, false)
    case Some(blk) =>
      match DecodeBlock(blk)
      case None => Progress(out, false)
      case Some(raw) => BlockScan(m, raw, BlockCount(m, b), out)
  }

  ghost function BlockStep(m: Mapping): Advance {
    (b: nat, out: seq<Pair>) => if OffsetsInside(m) && b < Units(m) then OneBlock(m, b, out) else Progress(out, false)
  }

  lemma {:induction false} BlockExtends(m: Mapping, raw: Bytes, count: nat, out: seq<Pair>)
    ensures Extends(out, BlockScan(m, raw, count, out).out)
    decreases count
  {
    if count > 0 && NextRecord(raw).Some? && Visible(m, NextRecord(raw).value.0).Some? {
      var next := out + [Visible(m, NextRecord(raw).value.0).value];
      BlockExtends(m, NextRecord(raw).value.1, count - 1, next);
      ExtendsTransitive(out, next, BlockScan(m, NextRecord(raw).value.1, count - 1, next).out);
    }
  }

  lemma OneBlockExtends(m: Mapping, b: nat, out: seq<Pair>)
    requires OffsetsInside(m) && b < Units(m)
    ensures Extends(out, OneBlock(m, b, out).out)
  {
    if BlockBytes(m, b).Some? && DecodeBlock(BlockBytes(m, b).value).Some? {
      BlockExtends(m, DecodeBlock(BlockBytes(m, b).value).value, BlockCount(m, b), out);
    }
  }

  lemma BlocksGrow(m: Mapping)
    requires OffsetsInside(m)
    ensures Grows(BlockStep(m), Units(m))
  {
    forall b: nat, out | b < Units(m)
      ensures Extends(out, BlockStep(m)(b, out).out)
    {
      OneBlockExtends(m, b, out);
    }
  }

  lemma NextPair(m: Mapping, raw: Bytes, count: nat, out: seq<Pair>)
    requires count > 0 && NextRecord(raw).Some? && Visible(m, NextRecord(raw).value.0).Some?
    ensures var (rec, rest) := NextRecord(raw).value; var next := out + [Visible(m, rec).value];
      BlockScan(m, raw, count, out) == BlockScan(m, rest, count - 1, next) && Extends(next, BlockScan(m, raw, count, out).out)
  {
    var (rec, rest) := NextRecord(raw).value;
    BlockExtends(m, rest, count - 1, out + [Visible(m, rec).value]);
  }

  lemma NoPair(m: Mapping, raw: Bytes, count: nat, out: seq<Pair>)
    requires count > 0 && (NextRecord(raw).None? || Visible(m, NextRecord(raw).value.0).None?)
    ensures BlockScan(m, raw, count, out) == Progress(out, false)
  {
  }

  /** The next record of a block, as it is shown. */
  method ReadPair(m: Mapping, raw: Bytes) returns (v: Option<Pair>, rest: Bytes)
    ensures v.Some? <==> NextRecord(raw).Some? && Visible(m, NextRecord(raw).value.0).Some?
    ensures v.Some? ==> v == Visible(m, NextRecord(raw).value.0) && rest == NextRecord(raw).value.1
  {
    var next := NextRecord(raw);
    if next.None? {
      return None, [];
    }
    v, rest := Visible(m, next.value.0), next.value.1;
  }

  /** The inner loop of scanCompressed */
  method ScanRecords(m: Mapping, raw: Bytes, count: nat, before: seq<Pair>, cb: Callback) returns (p: Progress, stopped: bool)
    requires GoesOn(before, cb)
    ensures Shown(p.out, BlockScan(m, raw, count, before).out, cb, stopped)
    ensures !stopped ==> p == BlockScan(m, raw, count, before)
  {
    ghost var full := BlockScan(m, raw, count, before);
    var rest, k: nat, out := raw, count, before;
    while k > 0
      invariant BlockScan(m, rest, k, out) == full && GoesOn(out, cb)
    {
      var v, tail := ReadPair(m, rest);
      if v.None? {
        NoPair(m, rest, k, out);
        return Progress(out, false), false;
      }
      NextPair(m, rest, k, out);
      out, stopped := ShowPair(out, v.value, cb, full.out);
      if stopped {
        return Progress(out, false), true;
      }
      rest, k := tail, k - 1;
    }
    p, stopped := Progress(out, true), false;
  }

  method ScanBlock(m: Mapping, b: nat, scratch: array<Byte>, before: seq<Pair>, cb: Callback) returns (p: Progress, stopped: bool)
    requires OffsetsInside(m) && b < Units(m) && GoesOn(before, cb)
    modifies scratch
    ensures Shown(p.out, OneBlock(m, b, before).out, cb, stopped)
    ensures !stopped ==> p == OneBlock(m, b, before)
  {
    var blk := BlockBytes(m, b);
    if blk.None? {
      return Progress(before, false), false;
    }
    var raw := DecodeInto(blk.value, scratch);
    if raw.None? {
      return Progress(before, false), false;
    }
    p, stopped := ScanRecords(m, raw.value, BlockCount(m, b), before, cb);
  }

  /** scanCompressed; decoding reuses one scratch buffer */
  method ScanCompressed(m: Mapping, scratch: array<Byte>, cb: Callback) returns (out: seq<Pair>)
    requires OffsetsInside(m)
    modifies scratch
    ensures out == Upto(Run(BlockStep(m), 0, Units(m), []), cb, 0)
  {
    ghost var full := Run(BlockStep(m), 0, Units(m), []);
    out := [];
    for b := 0 to Units(m)
      invariant Run(BlockStep(m), b, Units(m), out) == full && GoesOn(out, cb)
    {
      ghost var before := out;
      var p, stopped := ScanBlock(m, b, scratch, out, cb);
      out := p.out;
      if stopped {
        BlocksGrow(m);
        HaltedInUnit(BlockStep(m), b, Units(m), before, out, cb);
      }
      if stopped || !p.ok {
        ShownUpto(out, full, cb, stopped, 0);
        return;
      }
    }
    ShownUpto(out, full, cb, false, 0);
  }

  // ------------------------------------------------------------------- every row --

  /** A row as a scan shows it. */
  function PairOf(r: Row, fpW: nat, fp: Fingerprint): Pair
    requires fpW <= 8
  {
    (if fpW != 0 then fp(r.key)[..fpW] else r.key, r.value)
  }

  function PairsOf(content: seq<Row>, fpW: nat, fp: Fingerprint): (ps: seq<Pair>)
    requires fpW <= 8
    ensures |ps| == |content| && forall i | 0 <= i < |ps| :: ps[i] == PairOf(content[i], fpW, fp)
  {
    seq(|content|, i requires 0 <= i < |content| => PairOf(content[i], fpW, fp))
  }

  lemma StoredVisible(m: Mapping, r: Row, o: Format, fp: Fingerprint)
    requires ValidFormat(o) && m.lean == (o.fpW != 0) && m.fpW == o.fpW && Rows.Storable(r)
    ensures Visible(m, StoredRow(r, o.fpW, fp)) == Some(PairOf(r, o.fpW, fp))
  {
    var e := StoredRow(r, o.fpW, fp);
    if o.fpW == 0 {
      Pow2Values();
      BEToBE(|r.key|, 2);
      assert e[..2] == ToBE(|r.key|, 2);
      assert e[2..2 + |r.key|] == r.key && e[2 + |r.key|..] == r.value;
    } else {
      assert e[..o.fpW] == fp(r.key)[..o.fpW] && e[o.fpW..] == r.value;
    }
  }

  /** Every record of the content can be shown. */
  ghost predicate Shows(m: Mapping, recs: seq<Bytes>, ps: seq<Pair>) {
    |recs| == |ps| && forall i | 0 <= i < |recs| :: Visible(m, recs[i]) == Some(ps[i])
  }

  /** One slot of an uncompressed file shows its row. */
  lemma SlotShows(m: Mapping, o: Format, recs: seq<Bytes>, ps: seq<Pair>, i: nat)
    requires Backed(m, o, recs) && Sane(recs, o) && !o.lz4 && i < |recs| && Shows(m, recs, ps)
    ensures i < Units(m) && SlotPairs(m, i) == [ps[i]]
  {
    SlotReadPlain(m, o, recs, i);
    assert Visible(m, recs[i]) == Some(ps[i]);
  }

  lemma ScanPlainAll(m: Mapping, o: Format, recs: seq<Bytes>, ps: seq<Pair>)
    requires Backed(m, o, recs) && Sane(recs, o) && !o.lz4 && Shows(m, recs, ps)
    ensures Run(PlainStep(m), 0, Units(m), []) == ps
  {
    var stops := seq(|ps| + 1, i requires 0 <= i <= |ps| => ps[..i]);
    forall i | 0 < i < |stops|
      ensures PlainStep(m)(i - 1, stops[i - 1]) == Progress(stops[i], true)
    {
      SlotShows(m, o, recs, ps, i - 1);
      assert ps[..i] == ps[..i - 1] + [ps[i - 1]];
    }
    RunAll(PlainStep(m), stops, 0);
  }

  lemma {:induction false} BlockScanAll(m: Mapping, chunk: seq<Bytes>, ps: seq<Pair>, out: seq<Pair>)
    requires Shows(m, chunk, ps) && forall i | 0 <= i < |chunk| :: |chunk[i]| < TWO64
    ensures BlockScan(m, Raw(chunk), |chunk|, out) == Progress(out + ps, true)
  {
    if |chunk| == 0 {
      assert out + ps == out;
    } else {
      RawSplit(chunk);
      NextFramed(chunk[0], Raw(chunk[1..]));
      BlockScanAll(m, chunk[1..], ps[1..], out + [ps[0]]);
      assert out + [ps[0]] + ps[1..] == out + ps;
    }
  }

  lemma ShowsPart(m: Mapping, recs: seq<Bytes>, ps: seq<Pair>, from: nat, to: nat)
    requires Shows(m, recs, ps) && from <= to <= |recs|
    ensures Shows(m, recs[from..to], ps[from..to])
  {
    forall i | 0 <= i < to - from
      ensures Visible(m, recs[from..to][i]) == Some(ps[from..to][i])
    {
      assert Visible(m, recs[from + i]) == Some(ps[from + i]);
    }
  }

  /** A block with this chunk of records shows its part of the content. */
  lemma OneBlockShows(m: Mapping, b: nat, chunk: seq<Bytes>, ps: seq<Pair>, out: seq<Pair>)
    requires OffsetsInside(m) && b < Units(m) && BlockBytes(m, b) == Some(Block(Raw(chunk))) && BlockCount(m, b) == |chunk|
    requires |Raw(chunk)| <= MAX_RAW && Shows(m, chunk, ps) && forall i | 0 <= i < |chunk| :: |chunk[i]| < TWO64
    ensures OneBlock(m, b, out) == Progress(out + ps, true)
  {
    BlockRoundTrip(Raw(chunk));
    BlockScanAll(m, chunk, ps, out);
  }

  /** Every block's content is small enough. */
  ghost predicate ChunksFit(recs: seq<Bytes>, shift: nat) {
    forall b | 0 <= b < UnitCount(|recs|, true, shift) && ChunkStart(shift, b) <= |recs| :: |Raw(Chunk(recs, b, shift))| <= MAX_RAW
  }

  /** Block b of a written file: its bytes and its records. */
  lemma BlockStored(m: Mapping, o: Format, recs: seq<Bytes>, b: nat)
    requires Backed(m, o, recs) && Sane(recs, o) && o.lz4 && b < UnitCount(|recs|, true, o.shift)
    ensures ChunkStart(o.shift, b) <= |recs| && OffsetsInside(m) && b < Units(m)
    ensures var chunk := Chunk(recs, b, o.shift);
      && BlockBytes(m, b) == Some(Block(Raw(chunk))) && BlockCount(m, b) == |chunk|
      && forall i | 0 <= i < |chunk| :: |chunk[i]| < TWO64
  {
    BlockInside(|recs|, o.shift, b);
    BackedBlock(m, o, recs, b);
    BlockRead(m, b, BlockUnit(recs, o.shift, b));
    ChunkBounded(recs, b, o.shift, TWO64 - 1);
  }

  lemma OneBlockAll(m: Mapping, o: Format, recs: seq<Bytes>, ps: seq<Pair>, b: nat, from: nat, to: nat)
    requires Backed(m, o, recs) && Sane(recs, o) && o.lz4 && b < UnitCount(|recs|, true, o.shift) && Shows(m, recs, ps)
    requires ChunksFit(recs, o.shift) && from == ChunkStart(o.shift, b) && to == ChunkEnd(|recs|, o.shift, b)
    ensures b < Units(m) && from < to <= |ps| && OneBlock(m, b, ps[..from]) == Progress(ps[..to], true)
  {
    BlockInside(|recs|, o.shift, b);
    BlockStored(m, o, recs, b);
    ShowsPart(m, recs, ps, from, to);
    OneBlockShows(m, b, Chunk(recs, b, o.shift), ps[from..to], ps[..from]);
    assert ps[..from] + ps[from..to] == ps[..to];
  }

  // ------------------------------------------------------------------- all blocks --

  /** Where block b starts, the end counting as the start of one more block. */
  function StartOf(n: nat, shift: nat, b: nat): (s: nat)
    ensures s <= n
  {
    if ChunkStart(shift, b) < n then ChunkStart(shift, b) else n
  }

  lemma StartNext(n: nat, shift: nat, b: nat)
    requires b < UnitCount(n, true, shift)
    ensures StartOf(n, shift, b) == ChunkStart(shift, b) && StartOf(n, shift, b + 1) == ChunkEnd(n, shift, b)
  {
    BlockInside(n, shift, b);
    assert ChunkStart(shift, b + 1) == ChunkStart(shift, b) + Pow2(shift);
  }

  lemma CoversAll(n: nat, per: nat, q: nat, r: nat)
    requires n + per - 1 == q * per + r && r < per
    ensures q * per >= n
  {
  }

  lemma StartLast(n: nat, shift: nat)
    ensures StartOf(n, shift, UnitCount(n, true, shift)) == n && StartOf(n, shift, 0) == 0
  {
    var t := n + Pow2(shift) - 1;
    SplitBits(t, shift);
    CoversAll(n, Pow2(shift), HighBits(t, shift), LowBits(t, shift));
  }

  /** Block b takes a scan from its start to its end. */
  ghost predicate Advances(m: Mapping, ps: seq<Pair>, shift: nat, b: nat) {
    BlockStep(m)(b, ps[..StartOf(|ps|, shift, b)]) == Progress(ps[..StartOf(|ps|, shift, b + 1)], true)
  }

  lemma BlockAdvances(m: Mapping, o: Format, recs: seq<Bytes>, ps: seq<Pair>, b: nat)
    requires Backed(m, o, recs) && Sane(recs, o) && o.lz4 && Shows(m, recs, ps) && ChunksFit(recs, o.shift)
    requires b < UnitCount(|recs|, true, o.shift)
    ensures Advances(m, ps, o.shift, b)
  {
    StartNext(|recs|, o.shift, b);
    OneBlockAll(m, o, recs, ps, b, ChunkStart(o.shift, b), ChunkEnd(|recs|, o.shift, b));
  }

  /** What has been shown when each block is reached, and at the end. */
  ghost function Stops(ps: seq<Pair>, shift: nat, units: nat): (stops: seq<seq<Pair>>)
    ensures |stops| == units + 1 && forall b | 0 <= b <= units :: stops[b] == ps[..StartOf(|ps|, shift, b)]
  {
    seq(units + 1, b requires 0 <= b <= units => ps[..StartOf(|ps|, shift, b)])
  }

  lemma BlockSteps(m: Mapping, ps: seq<Pair>, shift: nat, units: nat)
    requires forall b: nat | b < units :: Advances(m, ps, shift, b)
    ensures Steps(BlockStep(m), Stops(ps, shift, units))
  {
    forall b | 0 < b <= units
      ensures BlockStep(m)(b - 1, ps[..StartOf(|ps|, shift, b - 1)]) == Progress(ps[..StartOf(|ps|, shift, b)], true)
    {
      assert Advances(m, ps, shift, b - 1);
    }
  }

  lemma ScanBlocksAll(m: Mapping, o: Format, recs: seq<Bytes>, ps: seq<Pair>)
    requires Backed(m, o, recs) && Sane(recs, o) && o.lz4 && Shows(m, recs, ps) && ChunksFit(recs, o.shift)
    ensures Run(BlockStep(m), 0, Units(m), []) == ps
  {
    forall b: nat | b < Units(m)
      ensures Advances(m, ps, o.shift, b)
    {
      BlockAdvances(m, o, recs, ps, b);
    }
    BlockSteps(m, ps, o.shift, Units(m));
    StartLast(|ps|, o.shift);
    RunAll(BlockStep(m), Stops(ps, o.shift, Units(m)), 0);
  }

  lemma SameMultiple(b: nat, per: nat, h: nat, l: nat)
    requires b * per == h * per + l && l < per
    ensures h == b
  {
    if h < b {
      MulMonotone(per, h + 1, b);
    } else if b < h {
      MulMonotone(per, b + 1, h);
    }
  }

  /** A block's first slot has the block's content. */
  lemma FirstSlot(recs: seq<Bytes>, shift: nat, b: nat)
    requires ChunkStart(shift, b) < |recs|
    ensures RawOf(recs, shift, ChunkStart(shift, b)) == Raw(Chunk(recs, b, shift))
  {
    var s := ChunkStart(shift, b);
    SplitBits(s, shift);
    SameMultiple(b, Pow2(shift), HighBits(s, shift), LowBits(s, shift));
  }

  lemma FitChunks(recs: seq<Bytes>, o: Format)
    requires BlocksFit(recs, o) && o.lz4
    ensures ChunksFit(recs, o.shift)
  {
    forall b | 0 <= b < UnitCount(|recs|, true, o.shift)
      ensures ChunkStart(o.shift, b) < |recs| && |Raw(Chunk(recs, b, o.shift))| <= MAX_RAW
    {
      BlockInside(|recs|, o.shift, b);
      FirstSlot(recs, o.shift, b);
      assert !TooLarge(recs, o, ChunkStart(o.shift, b));
    }
  }

  lemma HeldShows(m: Mapping, o: Format, content: seq<Row>, rows: seq<Row>, env: Env)
    requires Holds(m, o, content, rows, env)
    ensures Shows(m, StoredRows(content, o.fpW, env.fp), PairsOf(content, o.fpW, env.fp))
  {
    forall i | 0 <= i < |content|
      ensures Visible(m, StoredRow(content[i], o.fpW, env.fp)) == Some(PairOf(content[i], o.fpW, env.fp))
    {
      assert content[i] in rows;
      StoredVisible(m, content[i], o, env.fp);
    }
  }

  /** What a scan yields. */
  ghost function Scanned(m: Mapping): seq<Pair>
    requires OffsetsInside(m)
  {
    Run(if m.compressed then BlockStep(m) else PlainStep(m), 0, Units(m), [])
  }

  /** scanV2: the callback sees the pairs of the scan in order, up to and including the first after which it stops. */
  method Scan(m: Mapping, scratch: array<Byte>, cb: Callback) returns (out: seq<Pair>)
    requires OffsetsInside(m)
    modifies scratch
    ensures out == Upto(Scanned(m), cb, 0)
  {
    if m.compressed {
      out := ScanCompressed(m, scratch, cb);
    } else {
      out := ScanPlain(m, cb);
    }
  }

  lemma ScanShows(m: Mapping, o: Format, recs: seq<Bytes>, ps: seq<Pair>)
    requires Backed(m, o, recs) && Sane(recs, o) && Shows(m, recs, ps) && BlocksFit(recs, o)
    ensures Scanned(m) == ps
  {
    if o.lz4 {
      FitChunks(recs, o);
      ScanBlocksAll(m, o, recs, ps);
    } else {
      ScanPlainAll(m, o, recs, ps);
    }
  }

  /**
   A scan of a compiled file yields exactly its content, which has every row in the slot of its hash and nothing
   else: with full keys or fingerprints, uncompressed or in blocks the reader accepts.
  */
  lemma ScanVisitsAll(m: Mapping, o: Format, content: seq<Row>, rows: seq<Row>, env: Env)
    requires Holds(m, o, content, rows, env) && BlocksFit(StoredRows(content, o.fpW, env.fp), o)
    ensures OffsetsInside(m) && Scanned(m) == PairsOf(content, o.fpW, env.fp)
    ensures IsContent(m.t, content, rows, env.hash, env.mixer)
  {
    HeldShows(m, o, content, rows, env);
    ScanShows(m, o, StoredRows(content, o.fpW, env.fp), PairsOf(content, o.fpW, env.fp));
  }
}
