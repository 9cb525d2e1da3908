/**
 What the greedy search of the compressor finds: at every position it probes it takes the last earlier probed
 position with the same hash if that one matches near enough, and every match is as long as it can be.
*/
module Lz4Greedy {
  import opened Words
  import opened Lz4Format
  import opened Lz4Compress

  // ------------------------------------------------------------ positions of a plan --

  /** The bytes a list of sequences covers. */
  function Covered(plan: seq<Sequence>): nat {
    if |plan| == 0 then 0 else
      var s := plan[|plan| - 1];
      Covered(plan[..|plan| - 1]) + |s.lits| + s.ml
  }

  /** Where match k ends and starts. */
  function EndOf(plan: seq<Sequence>, k: nat): nat
    requires k < |plan|
  {
    Covered(plan[..k + 1])
  }

  function StartOf(plan: seq<Sequence>, k: nat): nat
    requires k < |plan|
  {
    Covered(plan[..k]) + |plan[k].lits|
  }

  lemma Spans(plan: seq<Sequence>, k: nat)
    requires k < |plan|
    ensures EndOf(plan, k) == StartOf(plan, k) + plan[k].ml
  {
    assert plan[..k + 1][..k] == plan[..k];
  }

  lemma {:induction false} CoveredGrows(plan: seq<Sequence>, k: nat)
    requires k <= |plan|
    ensures Covered(plan[..k]) <= Covered(plan)
    decreases |plan|
  {
    var n := |plan|;
    if k < n {
      assert plan[..n - 1][..k] == plan[..k];
      CoveredGrows(plan[..n - 1], k);
    } else {
      assert plan[..k] == plan;
    }
  }

  lemma {:induction false} CoveredReplay(plan: seq<Sequence>)
    requires ValidPlan(plan)
    ensures Covered(plan) == |Replay(plan)|
  {
    if |plan| > 0 {
      CoveredReplay(plan[..|plan| - 1]);
    }
  }

  /** Position p lies in match k, behind its first byte. */
  predicate InMatch(plan: seq<Sequence>, k: nat, p: nat) {
    k < |plan| && StartOf(plan, k) < p < EndOf(plan, k)
  }

  /** The search looks a position up unless it lies in a match or among the last twelve bytes. */
  ghost predicate Probed(plan: seq<Sequence>, src: Bytes, p: nat) {
    p + 12 < |src| && forall k: nat :: !InMatch(plan, k, p)
  }

  /** The last probed position before p with that hash. */
  ghost function LastProbe(plan: seq<Sequence>, src: Bytes, p: nat, h: nat): Option<nat> {
    if p == 0 then None
    else if Probed(plan, src, p - 1) && Slot(src, p - 1) == h then Some(p - 1)
    else LastProbe(plan, src, p - 1, h)
  }

  ghost predicate IsLastProbe(plan: seq<Sequence>, src: Bytes, p: nat, h: nat, q: nat) {
    && q < p && Probed(plan, src, q) && Slot(src, q) == h
    && forall r | q < r < p && Probed(plan, src, r) :: Slot(src, r) != h
  }

  lemma {:induction false} LastProbeAt(plan: seq<Sequence>, src: Bytes, p: nat, h: nat, q: nat)
    ensures LastProbe(plan, src, p, h) == Some(q) <==> IsLastProbe(plan, src, p, h, q)
  {
    if p > 0 {
      LastProbeAt(plan, src, p - 1, h, q);
    }
  }

  lemma LastProbeIff(plan: seq<Sequence>, src: Bytes, p: nat, h: nat)
    ensures forall q: nat :: LastProbe(plan, src, p, h) == Some(q) <==> IsLastProbe(plan, src, p, h, q)
  {
    forall q: nat
      ensures LastProbe(plan, src, p, h) == Some(q) <==> IsLastProbe(plan, src, p, h, q)
    {
      LastProbeAt(plan, src, p, h, q);
    }
  }

  /** Position q can be matched from p: it was remembered in 31 bits, lies near enough and starts with the same four bytes. */
  predicate Usable(src: Bytes, q: nat, p: nat)
    requires q < p && p + 4 <= |src|
  {
    q + 1 < 0x8000_0000 && p - q <= 65535 && src[q..q + 4] == src[p..p + 4]
  }

  /** The match the search finds at p, if any. */
  ghost predicate Offers(plan: seq<Sequence>, src: Bytes, p: nat, q: nat) {
    p + 4 <= |src| && IsLastProbe(plan, src, p, Slot(src, p), q) && Usable(src, q, p)
  }

  /** A match that cannot be extended: it reaches the last five bytes, or the next byte differs. */
  predicate Maximal(src: Bytes, q: nat, p: nat, ml: nat)
    requires q < p && p + ml <= |src|
  {
    p + ml + 5 == |src| || (p + ml < |src| && src[q + ml] != src[p + ml])
  }

  /** Match k was offered by the search, and cannot be extended. */
  ghost predicate TakesOffer(plan: seq<Sequence>, src: Bytes, k: nat)
    requires k < |plan|
  {
    var p, s := StartOf(plan, k), plan[k];
    && Probed(plan, src, p) && s.offset <= p && Offers(plan, src, p, p - s.offset)
    && p + s.ml <= |src| && s.offset > 0 && Maximal(src, p - s.offset, p, s.ml)
  }

  predicate StartsMatch(plan: seq<Sequence>, p: nat) {
    exists k :: 0 <= k < |plan| && StartOf(plan, k) == p
  }

  /** Below p, every match takes the search's offer, and a position with an offer starts a match. */
  ghost predicate GreedyTo(plan: seq<Sequence>, src: Bytes, p: nat) {
    && (forall k | 0 <= k < |plan| :: TakesOffer(plan, src, k))
    && (forall r, q: nat | 0 <= r < p && Probed(plan, src, r) && Offers(plan, src, r, q) :: StartsMatch(plan, r))
  }

  /** The plan of a greedy search. */
  ghost predicate Greedy(plan: seq<Sequence>, src: Bytes) {
    GreedyTo(plan, src, |src|)
  }

  // ------------------------------------------------------------------- the table --

  /** What the table holds for a hash whose last probed position is that. */
  function EntryFor(last: Option<nat>): int {
    match last
    case None => 0
    case Some(q) => Entry(q)
  }

  ghost predicate Tabled(table: seq<int>, plan: seq<Sequence>, src: Bytes, p: nat) {
    |table| == TABLE_SIZE && forall h: nat | h < TABLE_SIZE :: table[h] == EntryFor(LastProbe(plan, src, p, h))
  }

  /** Positions that do not fit 31 bits are never found again. */
  lemma EntryUsable(q: nat, p: nat)
    requires q < p
    ensures q + 1 < 0x8000_0000 ==> Entry(q) == q + 1
    ensures q + 1 >= 0x8000_0000 ==> Entry(q) - 1 < 0 || p - (Entry(q) - 1) > MAX_OFFSET
  {
    EntryValue(q);
  }

  lemma Shifted(v: int)
    ensures exists k: int :: Int32(v) == v - k * TWO32
  {
    var k := (v + 0x8000_0000) / TWO32;
    assert Int32(v) == v - k * TWO32;
  }

  lemma EntryValue(q: nat)
    ensures q + 1 < 0x8000_0000 ==> Entry(q) == q + 1
    ensures q + 1 >= 0x8000_0000 ==> Entry(q) <= q + 1 - TWO32
  {
    Shifted(q);
    Shifted(Int32(q) + 1);
    var k: int :| Int32(q) == q - k * TWO32;
    var l: int :| Entry(q) == Int32(q) + 1 - l * TWO32;
    if q + 1 >= 0x8000_0000 {
      assert Entry(q) == q + 1 - (k + l) * TWO32;
    }
  }

  /** The table's candidate at p is the search's offer. */
  lemma NextOffers(table: seq<int>, plan: seq<Sequence>, src: Bytes, p: nat)
    requires Tabled(table, plan, src, p) && Remembers(table, p) && p + 4 <= |src|
    ensures forall q: nat :: Next(table, src, p) == Some(q) <==> Offers(plan, src, p, q)
  {
    var h := Slot(src, p);
    LastProbeIff(plan, src, p, h);
    var last := LastProbe(plan, src, p, h);
    if last.Some? {
      EntryUsable(last.value, p);
      SameFour(src, last.value, p);
    }
  }

  lemma SameFour(src: Bytes, q: nat, p: nat)
    requires q < p && p + 4 <= |src|
    ensures Load32(src, q) == Load32(src, p) <==> src[q..q + 4] == src[p..p + 4]
  {
    if Load32(src, q) == Load32(src, p) {
      LEInjective(src[q..q + 4], src[p..p + 4]);
    }
  }

  /** Remembering a probed position. */
  lemma TabledNext(table: seq<int>, plan: seq<Sequence>, src: Bytes, p: nat)
    requires Tabled(table, plan, src, p) && Remembers(table, p) && Probed(plan, src, p)
    ensures Tabled(Updated(table, src, p), plan, src, p + 1)
  {
  }

  // --------------------------------------------------------------- growing the plan --

  lemma OldSpans(plan: seq<Sequence>, s: Sequence, k: nat)
    requires k < |plan|
    ensures StartOf(plan + [s], k) == StartOf(plan, k) && EndOf(plan + [s], k) == EndOf(plan, k) && (plan + [s])[k] == plan[k]
  {
    assert (plan + [s])[..k] == plan[..k] && (plan + [s])[..k + 1] == plan[..k + 1];
  }

  lemma NewSpan(plan: seq<Sequence>, s: Sequence)
    ensures Covered(plan + [s]) == Covered(plan) + |s.lits| + s.ml
    ensures StartOf(plan + [s], |plan|) == Covered(plan) + |s.lits| && EndOf(plan + [s], |plan|) == Covered(plan + [s])
  {
    assert (plan + [s])[..|plan|] == plan && (plan + [s])[..|plan| + 1] == plan + [s];
  }

  /** A new match changes nothing up to its first byte, and hides the positions behind it. */
  lemma ProbedAppend(plan: seq<Sequence>, s: Sequence, src: Bytes, p: nat)
    ensures var first := Covered(plan) + |s.lits|;
      Probed(plan + [s], src, p) <==> Probed(plan, src, p) && !(first < p < first + s.ml)
  {
    var longer, first := plan + [s], Covered(plan) + |s.lits|;
    NewSpan(plan, s);
    assert InMatch(longer, |plan|, p) <==> first < p < first + s.ml;
    forall k: nat | k < |plan|
      ensures InMatch(longer, k, p) <==> InMatch(plan, k, p)
    {
      OldSpans(plan, s, k);
    }
  }

  lemma {:induction false} LastProbeAppend(plan: seq<Sequence>, s: Sequence, src: Bytes, p: nat, h: nat)
    requires p <= Covered(plan) + |s.lits| + 1
    ensures LastProbe(plan + [s], src, p, h) == LastProbe(plan, src, p, h)
  {
    if p > 0 {
      ProbedAppend(plan, s, src, p - 1);
      LastProbeAppend(plan, s, src, p - 1, h);
    }
  }

  /** Where nothing is probed the last probe stays what it was. */
  lemma {:induction false} LastProbeStays(plan: seq<Sequence>, src: Bytes, from: nat, p: nat, h: nat)
    requires from <= p && forall r: nat | from <= r < p :: !Probed(plan, src, r)
    ensures LastProbe(plan, src, p, h) == LastProbe(plan, src, from, h)
  {
    if from < p {
      LastProbeStays(plan, src, from, p - 1, h);
    }
  }

  /** Nothing is probed inside the new match. */
  lemma NoneInside(plan: seq<Sequence>, s: Sequence, src: Bytes, first: nat)
    requires first == Covered(plan) + |s.lits|
    ensures forall r: nat | first + 1 <= r < first + s.ml :: !Probed(plan + [s], src, r)
  {
    forall r: nat | first + 1 <= r < first + s.ml
      ensures !Probed(plan + [s], src, r)
    {
      ProbedAppend(plan, s, src, r);
    }
  }

  lemma LastProbeSkip(plan: seq<Sequence>, s: Sequence, src: Bytes, first: nat, h: nat)
    requires first == Covered(plan) + |s.lits| && s.ml >= 1
    ensures LastProbe(plan + [s], src, first + s.ml, h) == LastProbe(plan, src, first + 1, h)
  {
    NoneInside(plan, s, src, first);
    LastProbeStays(plan + [s], src, first + 1, first + s.ml, h);
    LastProbeAppend(plan, s, src, first + 1, h);
  }

  lemma TabledAppend(table: seq<int>, plan: seq<Sequence>, s: Sequence, src: Bytes)
    requires Tabled(table, plan, src, Covered(plan) + |s.lits| + 1) && s.ml >= 1
    ensures Tabled(table, plan + [s], src, Covered(plan + [s]))
  {
    NewSpan(plan, s);
    forall h: nat | h < TABLE_SIZE
      ensures LastProbe(plan + [s], src, Covered(plan + [s]), h) == LastProbe(plan, src, Covered(plan) + |s.lits| + 1, h)
    {
      LastProbeSkip(plan, s, src, Covered(plan) + |s.lits|, h);
    }
  }

  lemma OffersAppend(plan: seq<Sequence>, s: Sequence, src: Bytes, p: nat, q: nat)
    requires p <= Covered(plan) + |s.lits|
    ensures Offers(plan + [s], src, p, q) <==> Offers(plan, src, p, q)
  {
    if p + 4 <= |src| {
      var h := Slot(src, p);
      LastProbeIff(plan, src, p, h);
      LastProbeIff(plan + [s], src, p, h);
      LastProbeAppend(plan, s, src, p, h);
    }
  }

  // -------------------------------------------------------------------- the search --

  /** The state of the search at p. */
  ghost predicate Searching(src: Bytes, table: seq<int>, anchor: nat, p: nat, plan: seq<Sequence>) {
    && anchor == Covered(plan) <= p <= |src| && Remembers(table, p) && Emittable(plan)
    && Tabled(table, plan, src, p) && GreedyTo(plan, src, p)
  }

  /** Behind the last match everything is probed. */
  lemma ProbedBehind(plan: seq<Sequence>, src: Bytes, p: nat)
    requires Covered(plan) <= p && p + MATCH_LIMIT < |src|
    ensures Probed(plan, src, p)
  {
    forall k: nat | k < |plan|
      ensures !InMatch(plan, k, p)
    {
      CoveredGrows(plan, k + 1);
    }
  }

  lemma StepOver(src: Bytes, table: seq<int>, anchor: nat, p: nat, plan: seq<Sequence>)
    requires Searching(src, table, anchor, p, plan) && p + MATCH_LIMIT < |src| && Next(table, src, p).None?
    ensures Searching(src, Updated(table, src, p), anchor, p + 1, plan)
  {
    ProbedBehind(plan, src, p);
    TabledNext(table, plan, src, p);
    NextOffers(table, plan, src, p);
    forall r, q: nat | 0 <= r < p + 1 && Probed(plan, src, r) && Offers(plan, src, r, q)
      ensures StartsMatch(plan, r)
    {
    }
  }

  lemma {:induction false} LongestMaximal(src: Bytes, q: nat, p: nat, ml: nat)
    requires q < p && p + ml <= |src| - LAST_LITERALS
    ensures Maximal(src, q, p, Longest(src, q, p, ml))
    decreases |src| - p - ml
  {
    if p + ml < |src| - LAST_LITERALS && src[q + ml] == src[p + ml] {
      LongestMaximal(src, q, p, ml + 1);
    }
  }

  /** The new match takes the offer. */
  lemma NewMatchTakes(src: Bytes, table: seq<int>, anchor: nat, p: nat, plan: seq<Sequence>, q: nat)
    requires Searching(src, table, anchor, p, plan) && p + MATCH_LIMIT < |src| && Next(table, src, p) == Some(q)
    ensures TakesOffer(plan + [SequenceAt(src, anchor, p, q)], src, |plan|)
  {
    var s := SequenceAt(src, anchor, p, q);
    ProbedBehind(plan, src, p);
    NextOffers(table, plan, src, p);
    NewSpan(plan, s);
    ProbedAppend(plan, s, src, p);
    OffersAppend(plan, s, src, p, q);
    LongestMaximal(src, q, p, MIN_MATCH);
  }

  lemma OldMatchTakes(plan: seq<Sequence>, s: Sequence, src: Bytes, k: nat)
    requires k < |plan| && TakesOffer(plan, src, k)
    ensures TakesOffer(plan + [s], src, k)
  {
    var p := StartOf(plan, k);
    OldSpans(plan, s, k);
    Spans(plan, k);
    CoveredGrows(plan, k + 1);
    ProbedAppend(plan, s, src, p);
    OffersAppend(plan, s, src, p, p - plan[k].offset);
  }

  lemma OldOffers(plan: seq<Sequence>, s: Sequence, src: Bytes, r: nat, q: nat)
    requires Probed(plan + [s], src, r) && Offers(plan + [s], src, r, q) && r < Covered(plan + [s])
    requires GreedyTo(plan, src, Covered(plan) + |s.lits|)
    ensures StartsMatch(plan + [s], r)
  {
    var first := Covered(plan) + |s.lits|;
    NewSpan(plan, s);
    ProbedAppend(plan, s, src, r);
    if r < first {
      OffersAppend(plan, s, src, r, q);
      var k :| 0 <= k < |plan| && StartOf(plan, k) == r;
      OldSpans(plan, s, k);
      assert StartOf(plan + [s], k) == r;
    } else {
      assert StartOf(plan + [s], |plan|) == r;
    }
  }

  lemma AllTake(src: Bytes, table: seq<int>, anchor: nat, p: nat, plan: seq<Sequence>, q: nat)
    requires Searching(src, table, anchor, p, plan) && p + MATCH_LIMIT < |src| && Next(table, src, p) == Some(q)
    ensures var longer := plan + [SequenceAt(src, anchor, p, q)]; forall k | 0 <= k < |longer| :: TakesOffer(longer, src, k)
  {
    var s := SequenceAt(src, anchor, p, q);
    forall k | 0 <= k < |plan| + 1
      ensures TakesOffer(plan + [s], src, k)
    {
      if k < |plan| {
        OldMatchTakes(plan, s, src, k);
      } else {
        NewMatchTakes(src, table, anchor, p, plan, q);
      }
    }
  }

  lemma AllStart(plan: seq<Sequence>, s: Sequence, src: Bytes)
    requires GreedyTo(plan, src, Covered(plan) + |s.lits|)
    ensures var longer := plan + [s];
      forall r, q: nat | 0 <= r < Covered(longer) && Probed(longer, src, r) && Offers(longer, src, r, q) :: StartsMatch(longer, r)
  {
    forall r, q: nat | 0 <= r < Covered(plan + [s]) && Probed(plan + [s], src, r) && Offers(plan + [s], src, r, q)
      ensures StartsMatch(plan + [s], r)
    {
      OldOffers(plan, s, src, r, q);
    }
  }

  lemma TableTaken(src: Bytes, table: seq<int>, anchor: nat, p: nat, plan: seq<Sequence>, s: Sequence)
    requires Searching(src, table, anchor, p, plan) && p + MATCH_LIMIT < |src| && p == Covered(plan) + |s.lits| && s.ml >= 1
    ensures Tabled(Updated(table, src, p), plan + [s], src, Covered(plan + [s]))
  {
    ProbedBehind(plan, src, p);
    TabledNext(table, plan, src, p);
    TabledAppend(Updated(table, src, p), plan, s, src);
  }

  lemma TakeOver(src: Bytes, table: seq<int>, anchor: nat, p: nat, plan: seq<Sequence>, q: nat)
    requires Searching(src, table, anchor, p, plan) && p + MATCH_LIMIT < |src| && Next(table, src, p) == Some(q)
    ensures var s := SequenceAt(src, anchor, p, q); Searching(src, Updated(table, src, p), p + s.ml, p + s.ml, plan + [s])
  {
    var s := SequenceAt(src, anchor, p, q);
    NewSpan(plan, s);
    TableTaken(src, table, anchor, p, plan, s);
    AllTake(src, table, anchor, p, plan, q);
    AllStart(plan, s, src);
  }

  /** A property of the search's states. */
  type Property = (seq<int>, nat, nat, seq<Sequence>) -> bool

  ghost predicate AtState(src: Bytes, table: seq<int>, anchor: nat, p: nat, plan: seq<Sequence>) {
    anchor <= p && Remembers(table, p) && anchor <= |src| && Emittable(plan)
  }

  /** The property survives the step at p. */
  ghost predicate Keeps(src: Bytes, inv: Property, table: seq<int>, anchor: nat, p: nat, plan: seq<Sequence>)
    requires AtState(src, table, anchor, p, plan) && p + MATCH_LIMIT < |src|
  {
    var now, c := Updated(table, src, p), Next(table, src, p);
    if c.None? then inv(now, anchor, p + 1, plan)
    else var s := SequenceAt(src, anchor, p, c.value); inv(now, p + s.ml, p + s.ml, plan + [s])
  }

  ghost predicate KeepsAlways(src: Bytes, inv: Property) {
    forall table, anchor: nat, p: nat, plan | AtState(src, table, anchor, p, plan) && p + MATCH_LIMIT < |src| && inv(table, anchor, p, plan) ::
      Keeps(src, inv, table, anchor, p, plan)
  }

  /** What every step keeps holds at the end of the search. */
  lemma {:induction false} AtTheEnd(src: Bytes, inv: Property, table: seq<int>, anchor: nat, p: nat, plan: seq<Sequence>)
      returns (table2: seq<int>, anchor2: nat, p2: nat)
    requires AtState(src, table, anchor, p, plan) && inv(table, anchor, p, plan) && KeepsAlways(src, inv)
    ensures inv(table2, anchor2, p2, PlanFrom(src, table, anchor, p, plan).0) && p2 + MATCH_LIMIT >= |src|
    decreases |src| - p
  {
    if p + MATCH_LIMIT >= |src| {
      table2, anchor2, p2 := table, anchor, p;
    } else {
      assert Keeps(src, inv, table, anchor, p, plan);
      var now, c := Updated(table, src, p), Next(table, src, p);
      if c.None? {
        table2, anchor2, p2 := AtTheEnd(src, inv, now, anchor, p + 1, plan);
      } else {
        var s := SequenceAt(src, anchor, p, c.value);
        table2, anchor2, p2 := AtTheEnd(src, inv, now, p + s.ml, p + s.ml, plan + [s]);
      }
    }
  }

  ghost function SearchOf(src: Bytes): Property {
    (table: seq<int>, anchor: nat, p: nat, plan: seq<Sequence>) => Searching(src, table, anchor, p, plan)
  }

  lemma SearchKept(src: Bytes, table: seq<int>, anchor: nat, p: nat, plan: seq<Sequence>)
    requires AtState(src, table, anchor, p, plan) && p + MATCH_LIMIT < |src| && Searching(src, table, anchor, p, plan)
    ensures Keeps(src, SearchOf(src), table, anchor, p, plan)
  {
    if Next(table, src, p).None? {
      StepOver(src, table, anchor, p, plan);
    } else {
      TakeOver(src, table, anchor, p, plan, Next(table, src, p).value);
    }
  }

  /** The last twelve positions are not probed. */
  lemma SearchEnds(src: Bytes, table: seq<int>, anchor: nat, p: nat, plan: seq<Sequence>)
    requires Searching(src, table, anchor, p, plan) && p + MATCH_LIMIT >= |src|
    ensures Greedy(plan, src)
  {
  }

  lemma SearchGreedy(src: Bytes)
    ensures Greedy(PlanOf(src).0, src)
  {
    forall table, anchor: nat, p: nat, plan | AtState(src, table, anchor, p, plan) && p + MATCH_LIMIT < |src| && SearchOf(src)(table, anchor, p, plan)
      ensures Keeps(src, SearchOf(src), table, anchor, p, plan)
    {
      SearchKept(src, table, anchor, p, plan);
    }
    FreshTabled(src);
    var table, anchor, p := AtTheEnd(src, SearchOf(src), Fresh(), 0, 0, []);
    SearchEnds(src, table, anchor, p, PlanOf(src).0);
  }

  lemma FreshTabled(src: Bytes)
    ensures Searching(src, Fresh(), 0, 0, [])
  {
  }

  /**
   The block of every input is the wire form of a greedy plan: each match starts at a probed position, reaches back to
   the last earlier probed position with the same hash and is as long as can be; and wherever that position is near
   enough, was remembered and has the same four bytes, a match starts.
  */
  lemma GreedyPlan(src: Bytes) returns (plan: seq<Sequence>, last: Bytes)
    ensures Encodes(Compressed(src), src, plan, last) && Restricted(src, plan, last) && Greedy(plan, src)
    ensures Covered(plan) + |last| == |src|
  {
    plan, last := CompressedPlan(src);
    SearchGreedy(src);
    CoveredReplay(plan);
  }

  // -------------------------------------------------------------------------- the hash --

  lemma ModShift(a: int, k: int)
    ensures (a + k * TWO32) % TWO32 == a % TWO32
  {
  }

  /** The hash uses the whole table: for every entry there are four bytes that hash to it. */
  lemma HashOnto(h: nat) returns (v: U32)
    requires h < TABLE_SIZE
    ensures Hash4(v) == h
  {
    // the inverse of the multiplier modulo 2^32
    var inverse := 244002641;
    var w := h * 0x10_0000 * inverse;
    var k := w / TWO32;
    v := w % TWO32;
    assert v == w - k * TWO32;
    assert inverse * 2654435761 == 1 + 150801925 * TWO32;
    assert v * 2654435761 == h * 0x10_0000 + (h * 0x10_0000 * 150801925 - k * 2654435761) * TWO32;
    ModShift(h * 0x10_0000, h * 0x10_0000 * 150801925 - k * 2654435761);
  }

  // ---------------------------------------------------------------- runs of one byte --

  ghost predicate RunOf(src: Bytes, b: Byte) {
    forall i | 0 <= i < |src| :: src[i] == b
  }

  lemma {:induction false} RunLongest(src: Bytes, b: Byte, ml: nat)
    requires RunOf(src, b) && 1 + ml <= |src| - LAST_LITERALS
    ensures Longest(src, 0, 1, ml) == |src| - LAST_LITERALS - 1
    decreases |src| - ml
  {
    if 1 + ml < |src| - LAST_LITERALS {
      RunLongest(src, b, ml + 1);
    }
  }

  /** A run is found at its second byte. */
  lemma RunFound(src: Bytes, b: Byte)
    requires RunOf(src, b) && |src| > MATCH_LIMIT + 1
    ensures Next(Fresh(), src, 0).None?
    ensures Next(Updated(Fresh(), src, 0), src, 1) == Some(0)
  {
    EntryValue(0);
    assert src[0..4] == src[1..5];
  }

  lemma RunPlan(src: Bytes, b: Byte)
    requires RunOf(src, b) && |src| > MATCH_LIMIT + 1
    ensures PlanOf(src) == ([Sequence([b], 1, |src| - LAST_LITERALS - 1)], |src| - LAST_LITERALS)
  {
    RunFound(src, b);
    RunLongest(src, b, MIN_MATCH);
    var t0 := Fresh();
    var t1 := Updated(t0, src, 0);
    assert PlanOf(src) == PlanFrom(src, t1, 0, 1, []);
    var s := SequenceAt(src, 0, 1, 0);
    assert s == Sequence([b], 1, |src| - LAST_LITERALS - 1);
    assert [] + [s] == [s];
  }

  /** A run of n equal bytes, however long, takes ten bytes and one more for every 255 of it. */
  lemma RunSize(src: Bytes, b: Byte)
    requires RunOf(src, b) && |src| >= 14
    ensures |Compressed(src)| == 10 + if |src| < 25 then 0 else (|src| - 25) / 255 + 1
  {
    RunPlan(src, b);
    var s := Sequence([b], 1, |src| - LAST_LITERALS - 1);
    assert EmitAll([s]) == EmitAll([]) + Emit(s);
  }
}
