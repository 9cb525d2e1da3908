/** The minimal perfect hash of version 2: BuildWith and Slot. */
module PtHash {
  import opened Words
  import opened BitPacking
  import opened Greedy
  import opened SlotSearch
  import opened FreeSlots
  import opened Placement

  /** Mix(x ^ HP(p)), an arbitrary 64-bit function of key hash and pilot. */
  type Mixer = (nat, nat) -> U64

  /** What BuildWith computes from n in floating point. */
  datatype Sizing = Sizing(m: nat, nb: nat, p2: nat, p1thr: nat)

  predicate ValidSizing(n: nat, z: Sizing) {
    0 < n <= z.m && 1 <= z.p2 < z.nb
  }

  datatype Table = Table(n: nat, m: nat, nb: nat, p2: nat, p1thr: nat, fw: nat, bw: nat, front: Bytes, back: Bytes, free: Bytes)

  // ------------------------------------------------------------------- hashes --

  /** bits.RotateLeft64(x, 32) */
  function Rotate32(x: nat): U64 {
    x % TWO32 * TWO32 + x / TWO32 % TWO32
  }

  /** The high 64 bits of h * n. */
  function Reduce(h: U64, n: nat): nat {
    h * n / TWO64
  }

  lemma ReduceBound(h: U64, n: nat)
    requires n > 0
    ensures Reduce(h, n) < n
  {
    MulMonotone(n, h, TWO64 - 1);
    assert h * n <= (TWO64 - 1) * n == TWO64 * n - n;
  }

  function BucketOf(x: nat, z: Sizing): nat
    requires z.p2 <= z.nb
  {
    var r := Rotate32(x);
    if x < z.p1thr then Reduce(r, z.p2) else z.p2 + Reduce(r, z.nb - z.p2)
  }

  lemma BucketBound(x: nat, z: Sizing)
    requires 1 <= z.p2 < z.nb
    ensures BucketOf(x, z) < z.nb
    ensures BucketOf(x, z) < z.p2 <==> x < z.p1thr
  {
    ReduceBound(Rotate32(x), z.p2);
    ReduceBound(Rotate32(x), z.nb - z.p2);
  }

  /** The table position of key hash x under a pilot. */
  function Position(mixer: Mixer, m: nat): Pos {
    (x: nat, p: nat) => Reduce(mixer(x, p), m)
  }

  lemma PositionBounded(mixer: Mixer, m: nat)
    requires m > 0
    ensures Bounded(Position(mixer, m), m)
  {
    forall x: nat, d: nat
      ensures Position(mixer, m)(x, d) < m
    {
      ReduceBound(mixer(x, d), m);
    }
  }

  // --------------------------------------------------------------------- Slot --

  /** The sections are long enough for every access Slot makes. */
  predicate Readable(t: Table) {
    && 0 < t.n <= t.m && 1 <= t.p2 < t.nb && t.fw <= 57 && t.bw <= 57
    && |t.front| >= PackedSize(t.p2, t.fw) && |t.back| >= PackedSize(t.nb - t.p2, t.bw) && |t.free| >= 4 * (t.m - t.n)
  }

  function PilotOf(t: Table, x: nat): nat
    requires Readable(t)
  {
    var r := Rotate32(x);
    ReduceBound(r, t.p2);
    ReduceBound(r, t.nb - t.p2);
    if x < t.p1thr then
      InPackedSize(t.p2, t.fw, Reduce(r, t.p2));
      GetBits(t.front, Reduce(r, t.p2), t.fw)
    else
      InPackedSize(t.nb - t.p2, t.bw, Reduce(r, t.nb - t.p2));
      GetBits(t.back, Reduce(r, t.nb - t.p2), t.bw)
  }

  function Slot(t: Table, x: nat, mixer: Mixer): nat
    requires Readable(t)
  {
    var q := Reduce(mixer(x, PilotOf(t, x)), t.m);
    ReduceBound(mixer(x, PilotOf(t, x)), t.m);
    if q >= t.n then LE(t.free[(q - t.n) * 4..(q - t.n) * 4 + 4]) else q
  }

  // ----------------------------------------------------------- specification --

  function Buckets(xs: seq<nat>, z: Sizing): (r: seq<nat>)
    requires 1 <= z.p2 < z.nb
    ensures |r| == |xs| && forall i | 0 <= i < |xs| :: r[i] == BucketOf(xs[i], z) && r[i] < z.nb
  {
    if |xs| == 0 then [] else
      BucketBound(xs[|xs| - 1], z);
      Buckets(xs[..|xs| - 1], z) + [BucketOf(xs[|xs| - 1], z)]
  }

  /** The widths BuildWith chooses: enough bits for the largest pilot, at least one. */
  function WidthFor(v: nat): nat {
    if v == 0 then 1 else BitLen(v)
  }

  /** The table that pilots and taken positions are written to. */
  function Encode(n: nat, z: Sizing, pilots: seq<nat>, taken: set<nat>): Table
    requires n <= z.m && 1 <= z.p2 < z.nb == |pilots|
  {
    var front, back := pilots[..z.p2], pilots[z.p2..];
    var fw, bw := WidthFor(MaxOf(front)), WidthFor(MaxOf(back));
    Table(n, z.m, z.nb, z.p2, z.p1thr, fw, bw, PackedBytes(front, fw), PackedBytes(back, bw), FreeBytes(taken, n, z.m))
  }

  /** The plan is the greedy placement of the keys xs. */
  ghost predicate PlanFor(xs: seq<nat>, z: Sizing, mixer: Mixer, pl: Plan)
    requires 1 <= z.p2 < z.nb
  {
    Solves(xs, Buckets(xs, z), z.nb, Position(mixer, z.m), pl)
  }

  /** t is what BuildWith returns for xs. */
  ghost predicate IsTable(t: Table, xs: seq<nat>, z: Sizing, mixer: Mixer) {
    && ValidSizing(|xs|, z)
    && exists pl :: PlanFor(xs, z, mixer, pl) && t == Encode(|xs|, z, pl.disp, Taken(Position(mixer, z.m), pl))
  }

  // ------------------------------------------------------------------ bijection --

  function KeyPos(xs: seq<nat>, z: Sizing, mixer: Mixer, pilots: seq<nat>, i: nat): nat
    requires 1 <= z.p2 < z.nb == |pilots| && i < |xs|
  {
    PosOf(xs, Buckets(xs, z), Position(mixer, z.m), pilots, i)
  }

  lemma KeysDistinct(xs: seq<nat>, z: Sizing, mixer: Mixer, pl: Plan)
    requires 1 <= z.p2 < z.nb && PlanFor(xs, z, mixer, pl)
    ensures Distinct(xs)
  {
    forall i, j | 0 <= i < j < |xs|
      ensures xs[i] != xs[j]
    {
      PlanInjective(xs, Buckets(xs, z), z.nb, Position(mixer, z.m), pl, i, j);
    }
  }

  lemma {:induction false} DistinctSize(ps: seq<nat>)
    requires Distinct(ps)
    ensures |SlotsOf(ps)| == |ps|
  {
    if |ps| > 0 {
      var n := |ps| - 1;
      DistinctSize(ps[..n]);
      assert SlotsOf(ps) == SlotsOf(ps[..n]) + {ps[n]};
      assert ps[n] !in SlotsOf(ps[..n]);
    }
  }

  /** n positions are taken, all below m. */
  lemma TakenIsFull(xs: seq<nat>, z: Sizing, mixer: Mixer, pl: Plan)
    requires ValidSizing(|xs|, z) && PlanFor(xs, z, mixer, pl)
    ensures FullTable(Taken(Position(mixer, z.m), pl), |xs|, z.m)
  {
    var bk, pos := Buckets(xs, z), Position(mixer, z.m);
    var ps := PosAll(xs, bk, pos, pl.disp);
    TakenIsPositions(xs, bk, z.nb, pos, pl);
    forall i, j | 0 <= i < j < |ps|
      ensures ps[i] != ps[j]
    {
      PlanInjective(xs, bk, z.nb, pos, pl, i, j);
    }
    DistinctSize(ps);
    PositionBounded(mixer, z.m);
  }

  // ------------------------------------------------------- reading the table back --

  lemma WidthsFit(ps: seq<nat>)
    requires forall i | 0 <= i < |ps| :: ps[i] <= LIMIT
    ensures 1 <= WidthFor(MaxOf(ps)) <= 32 && Fit(ps, WidthFor(MaxOf(ps)))
  {
    var w := WidthFor(MaxOf(ps));
    Pow2Values();
    BitLenBound(MaxOf(ps), 32);
    forall j | 0 <= j < |ps|
      ensures BitLen(ps[j]) <= w
    {
      BitLenMonotone(ps[j], MaxOf(ps));
    }
  }

  /** A packed section of pilots gives back every pilot. */
  lemma SectionRead(ps: seq<nat>, i: nat)
    requires i < |ps| && forall b | 0 <= b < |ps| :: ps[b] <= LIMIT
    ensures 1 <= WidthFor(MaxOf(ps)) <= 32
    ensures var w := WidthFor(MaxOf(ps)); 0 <= i * w && i * w / 8 + 8 <= PackedSize(|ps|, w) && GetBits(PackedBytes(ps, w), i, w) == ps[i]
  {
    WidthsFit(ps);
    PackRoundTrip(ps, WidthFor(MaxOf(ps)), i);
  }

  lemma EncodeReadable(n: nat, z: Sizing, pilots: seq<nat>, taken: set<nat>)
    requires ValidSizing(n, z) && |pilots| == z.nb && forall b | 0 <= b < |pilots| :: pilots[b] <= LIMIT
    ensures var t := Encode(n, z, pilots, taken); Readable(t) && 1 <= t.fw <= 32 && 1 <= t.bw <= 32
  {
    WidthsFit(pilots[..z.p2]);
    WidthsFit(pilots[z.p2..]);
  }

  /** The packed sections give back the pilot of a key's bucket. */
  lemma PilotRead(n: nat, z: Sizing, pilots: seq<nat>, taken: set<nat>, x: nat)
    requires ValidSizing(n, z) && |pilots| == z.nb && forall b | 0 <= b < |pilots| :: pilots[b] <= LIMIT
    ensures Readable(Encode(n, z, pilots, taken))
    ensures BucketOf(x, z) < z.nb && PilotOf(Encode(n, z, pilots, taken), x) == pilots[BucketOf(x, z)]
  {
    EncodeReadable(n, z, pilots, taken);
    BucketBound(x, z);
    var r := Rotate32(x);
    ReduceBound(r, z.p2);
    ReduceBound(r, z.nb - z.p2);
    if x < z.p1thr {
      SectionRead(pilots[..z.p2], Reduce(r, z.p2));
    } else {
      SectionRead(pilots[z.p2..], Reduce(r, z.nb - z.p2));
    }
  }

  lemma EntryBytes(taken: set<nat>, n: nat, m: nat, i: nat)
    requires n <= m && i < m - n
    ensures FreeBytes(taken, n, m)[i * 4..i * 4 + 4] == ToLE(Entries(taken, n, m)[i], 4)
  {
    WordAt(Entries(taken, n, m), i);
    assert FreeBytes(taken, n, m)[i * 4..i * 4 + 4] == Words32(Entries(taken, n, m))[4 * i..4 * i + 4];
  }

  lemma WordBack(s: Bytes, v: nat)
    requires v < TWO32 && s == ToLE(v, 4)
    ensures LE(s) == v
  {
    Pow2Values();
    LEToLE(v, 4);
  }

  lemma EntryIsRemap(taken: set<nat>, n: nat, m: nat, q: nat)
    requires FullTable(taken, n, m) && n <= q < m && q in taken
    ensures Overflow(taken, n, q) < |Free(taken, n)|
    ensures Entries(taken, n, m)[q - n] == Remap(taken, n, q) < n
  {
    RemapDefined(taken, n, m, q);
    assert Entries(taken, n, m)[q - n] == Entry(taken, n, n + (q - n));
  }

  /** The remap section gives back every entry. */
  lemma EntryRead(taken: set<nat>, n: nat, m: nat, q: nat)
    requires FullTable(taken, n, m) && n <= TWO32 && n <= q < m && q in taken
    ensures Overflow(taken, n, q) < |Free(taken, n)|
    ensures LE(FreeBytes(taken, n, m)[(q - n) * 4..(q - n) * 4 + 4]) == Remap(taken, n, q)
  {
    EntryIsRemap(taken, n, m, q);
    EntryBytes(taken, n, m, q - n);
    WordBack(FreeBytes(taken, n, m)[(q - n) * 4..(q - n) * 4 + 4], Remap(taken, n, q));
  }

  ghost predicate ReadsAs(t: Table, x: nat, mixer: Mixer, taken: set<nat>, q: nat) {
    && Readable(t) && q in taken && (q >= t.n ==> Overflow(taken, t.n, q) < |Free(taken, t.n)|)
    && Slot(t, x, mixer) == Remap(taken, t.n, q)
  }

  /** Slot in terms of the pilot it reads and the remap entry it may read. */
  lemma SlotReads(t: Table, x: nat, mixer: Mixer, p: nat, q: nat)
    requires Readable(t) && PilotOf(t, x) == p && q == Reduce(mixer(x, p), t.m)
    ensures q < t.m
    ensures Slot(t, x, mixer) == if q >= t.n then LE(t.free[(q - t.n) * 4..(q - t.n) * 4 + 4]) else q
  {
    ReduceBound(mixer(x, p), t.m);
  }

  /** On a key of the input, Slot is its position, remapped. */
  lemma SlotIsRemap(xs: seq<nat>, z: Sizing, mixer: Mixer, pl: Plan, taken: set<nat>, i: nat)
    requires ValidSizing(|xs|, z) && |xs| <= TWO32 && PlanFor(xs, z, mixer, pl) && i < |xs| && taken == Taken(Position(mixer, z.m), pl)
    requires FullTable(taken, |xs|, z.m)
    ensures ReadsAs(Encode(|xs|, z, pl.disp, taken), xs[i], mixer, taken, KeyPos(xs, z, mixer, pl.disp, i))
  {
    var q := KeyPos(xs, z, mixer, pl.disp, i);
    PositionTaken(xs, Buckets(xs, z), z.nb, Position(mixer, z.m), pl, i);
    DispBounded(xs, Buckets(xs, z), z.nb, Position(mixer, z.m), pl);
    PilotRead(|xs|, z, pl.disp, taken, xs[i]);
    SlotReads(Encode(|xs|, z, pl.disp, taken), xs[i], mixer, pl.disp[BucketOf(xs[i], z)], q);
    if q >= |xs| {
      EntryRead(taken, |xs|, z.m, q);
    }
  }

  ghost predicate Reached(t: Table, xs: seq<nat>, mixer: Mixer, s: nat)
    requires Readable(t)
  {
    exists i :: 0 <= i < |xs| && Slot(t, xs[i], mixer) == s
  }

  ghost predicate BijectiveOn(t: Table, xs: seq<nat>, mixer: Mixer) {
    && Readable(t) && t.n == |xs|
    && (forall i | 0 <= i < |xs| :: Slot(t, xs[i], mixer) < |xs|)
    && (forall i, j | 0 <= i < j < |xs| :: Slot(t, xs[i], mixer) != Slot(t, xs[j], mixer))
    && (forall s: nat | s < |xs| :: Reached(t, xs, mixer, s))
  }

  lemma PlanBijective(xs: seq<nat>, z: Sizing, mixer: Mixer, pl: Plan)
    requires ValidSizing(|xs|, z) && |xs| <= TWO32 && PlanFor(xs, z, mixer, pl)
    ensures BijectiveOn(Encode(|xs|, z, pl.disp, Taken(Position(mixer, z.m), pl)), xs, mixer)
  {
    var n, taken := |xs|, Taken(Position(mixer, z.m), pl);
    var t := Encode(n, z, pl.disp, taken);
    TakenIsFull(xs, z, mixer, pl);
    DispBounded(xs, Buckets(xs, z), z.nb, Position(mixer, z.m), pl);
    EncodeReadable(n, z, pl.disp, taken);
    forall i: nat | i < n
      ensures ReadsAs(t, xs[i], mixer, taken, KeyPos(xs, z, mixer, pl.disp, i)) && Slot(t, xs[i], mixer) < n
    {
      SlotIsRemap(xs, z, mixer, pl, taken, i);
      RemapDefined(taken, n, z.m, KeyPos(xs, z, mixer, pl.disp, i));
    }
    forall i: nat, j: nat | i < j < n
      ensures Slot(t, xs[i], mixer) != Slot(t, xs[j], mixer)
    {
      assert ReadsAs(t, xs[i], mixer, taken, KeyPos(xs, z, mixer, pl.disp, i));
      assert ReadsAs(t, xs[j], mixer, taken, KeyPos(xs, z, mixer, pl.disp, j));
      PlanInjective(xs, Buckets(xs, z), z.nb, Position(mixer, z.m), pl, i, j);
      RemapInjective(taken, n, z.m, KeyPos(xs, z, mixer, pl.disp, i), KeyPos(xs, z, mixer, pl.disp, j));
    }
    forall s: nat | s < n
      ensures Reached(t, xs, mixer, s)
    {
      ReachSlot(xs, z, mixer, pl, taken, s);
    }
  }

  lemma ReachSlot(xs: seq<nat>, z: Sizing, mixer: Mixer, pl: Plan, taken: set<nat>, s: nat)
    requires ValidSizing(|xs|, z) && |xs| <= TWO32 && PlanFor(xs, z, mixer, pl) && taken == Taken(Position(mixer, z.m), pl) && s < |xs|
    requires FullTable(taken, |xs|, z.m) && Readable(Encode(|xs|, z, pl.disp, taken))
    ensures Reached(Encode(|xs|, z, pl.disp, taken), xs, mixer, s)
  {
    TakenIsPositions(xs, Buckets(xs, z), z.nb, Position(mixer, z.m), pl);
    var q := RemapOnto(taken, |xs|, z.m, s);
    var ps := PosAll(xs, Buckets(xs, z), Position(mixer, z.m), pl.disp);
    var i: nat :| i < |ps| && ps[i] == q;
    SlotIsRemap(xs, z, mixer, pl, taken, i);
  }

  /**
   Whenever BuildWith returns a table, the hashes were pairwise distinct and Slot, reading the packed
   bytes, is a bijection from them onto [0, N).
  */
  lemma MinimalPerfect(t: Table, xs: seq<nat>, z: Sizing, mixer: Mixer)
    requires IsTable(t, xs, z, mixer) && |xs| <= TWO32
    ensures Distinct(xs) && BijectiveOn(t, xs, mixer)
  {
    var pl :| PlanFor(xs, z, mixer, pl) && t == Encode(|xs|, z, pl.disp, Taken(Position(mixer, z.m), pl));
    KeysDistinct(xs, z, mixer, pl);
    PlanBijective(xs, z, mixer, pl);
  }
}
