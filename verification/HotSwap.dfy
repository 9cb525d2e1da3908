/**
 The hot-swap and retirement protocol of a Map, as an interleaving of its atomic steps.

 Goroutines that read keep their own program counter (`Reader`). Every mapping has at most one goroutine
 that retires it, the publisher that swapped it out followed by `retire`, or `Close`, so the program
 counter of that goroutine is kept with the mapping (`Phase`). Each load, add or store of an atomic is
 one step; a critical section of `retireMu` is one step, because everything it guards is read and
 written under that mutex only, and its one access to `cur` is a single swap.
*/
module HotSwap {
  import opened Totals
  import opened Words

  const STRIPES := 32
  const MAX_RETIRED := 2

  /** One cache line of reader counters. */
  datatype Stripe = Stripe(enter: int, exit: int, miss: int)

  /** What a pinned goroutine does: one lookup, a batch of keys, or an operation that looks nothing up. */
  datatype Op = Lookup | Batch(keys: nat) | Other
  {
    function Keys(): nat {
      match this
      case Lookup => 1
      case Batch(k) => k
      case Other => 0
    }
  }

  datatype Reader =
    | Idle
    | Starting(stripe: nat, op: Op)              // about to load cur
    | Loaded(m: nat, stripe: nat, op: Op)        // holds a pointer, has touched nothing
    | Entered(m: nat, stripe: nat, op: Op)       // has raised enter, has not read retired
    | BackingOff(m: nat, stripe: nat, op: Op)    // has seen retired, has not lowered enter
    | Inside(m: nat, stripe: nat, op: Op, counted: bool, noted: nat)  // reads mapped bytes

  /** How far a mapping has come, and what its retiring goroutine does next. */
  datatype Phase =
    | Fresh                                      // opened and validated, not published
    | Refused                                    // publish found the Map closed; unmapped by its caller
    | Current
    | Swapped                                    // no longer current, retired not yet stored
    | Flagged                                    // retired stored
    | Counted                                    // retireWG raised, goroutine not yet running
    | ExitScan(i: nat, ex: int)                  // inFlight: exits of stripes [0, i) summed
    | EnterScan(i: nat, ex: int, en: int)        // inFlight: enters of stripes [0, i) summed
    | Drained                                    // inFlight returned false; grace period
    | SumExits(i: nat, n: int)                   // lookups(): exits of stripes [0, i) summed
    | PlusExtra(n: int)                          // lookups(): nonLookups subtracted
    | AddLookups(n: int)                         // lookups() returned n
    | SumMisses(i: nat, n: int)                  // misses(): stripes [0, i) summed
    | Settled                                    // both totals added to the Map
    | Unmapped
    | Released                                   // pending lowered
    | Done

  datatype Mapping = Mapping(phase: Phase, retired: bool, byClose: bool, unmaps: nat,
                             stripes: seq<Stripe>, nonLookups: int, batchExtra: int)

  datatype Closer = NotCalled | Closing(last: Option<nat>) | Returned

  /** `served` and `missed` are history: keys of finished operations, and keys reported absent. */
  datatype State = State(maps: seq<Mapping>, readers: seq<Reader>, cur: Option<nat>, closed: bool,
                         pending: int, wg: int, retiredLookups: int, retiredMisses: int,
                         closer: Closer, served: nat, missed: nat)

  // ------------------------------------------------------------ counters --

  function ExitOf(): Stripe -> int { (s: Stripe) => s.exit }
  function MissOf(): Stripe -> int { (s: Stripe) => s.miss }

  /** mapping.lookups() */
  function Lookups(p: Mapping): int {
    Total(p.stripes, ExitOf()) - p.nonLookups + p.batchExtra
  }

  /** mapping.misses() */
  function Misses(p: Mapping): int { Total(p.stripes, MissOf()) }

  predicate Mapped(p: Phase) {
    !(p.Refused? || p.Unmapped? || p.Released? || p.Done?)
  }

  // ---------------------------------------------------------------- steps --

  /** The steps of a reading goroutine (enter, the accessors, Scan, Len and GetMany). */
  datatype ReadAct = Begin(stripe: nat, op: Op) | Load | Enter | Check | Undo | Count | Miss | Exit

  /** The steps after a swap: the rest of publish, then retire, or the rest of Close. */
  datatype RetireAct =
    | Refuse | Flag | RaiseWait | Launch | ReadExit | ReadEnter | Decide | GraceOver
    | SumExit | LoadNon | LoadExtra | Account | SumMiss | AccountMiss | Unmap | Release | Finish

  datatype Step =
    | Spawn
    | Read(r: nat, read: ReadAct)
    | OpenFile
    | Publish(m: nat)
    | Retire(m: nat, retire: RetireAct)
    | CloseSwap
    | CloseReturn

  function NewMapping(): (p: Mapping) {
    Mapping(Fresh, false, false, 0, seq(STRIPES, _ => Stripe(0, 0, 0)), 0, 0)
  }

  predicate ReaderAt(s: State, r: nat) { r < |s.readers| && !s.readers[r].Idle? }

  /** A reader past Starting refers to a mapping and a stripe that exist. */
  predicate PinnedAt(s: State, r: nat) {
    && ReaderAt(s, r) && !s.readers[r].Starting?
    && s.readers[r].m < |s.maps| && s.readers[r].stripe < |s.maps[s.readers[r].m].stripes|
  }

  predicate CanRead(s: State, r: nat, act: ReadAct) {
    match act
    case Begin(stripe, op) =>
      // the stripe is h & 31; Scan and Len always enter stripe 0; GetMany([]) never enters
      && r < |s.readers| && s.readers[r].Idle? && stripe < STRIPES
      && (op.Other? ==> stripe == 0) && (op.Batch? ==> op.keys >= 1)
    case Load => ReaderAt(s, r) && s.readers[r].Starting?
    case Enter => PinnedAt(s, r) && s.readers[r].Loaded?
    case Check => PinnedAt(s, r) && s.readers[r].Entered?
    case Undo => PinnedAt(s, r) && s.readers[r].BackingOff?
    case Count => PinnedAt(s, r) && s.readers[r].Inside? && !s.readers[r].counted
    case Miss => PinnedAt(s, r) && s.readers[r].Inside? && s.readers[r].counted && s.readers[r].noted < s.readers[r].op.Keys()
    case Exit => PinnedAt(s, r) && s.readers[r].Inside? && s.readers[r].counted
  }

  predicate CanRetire(s: State, m: nat, act: RetireAct) {
    && m < |s.maps| && |s.maps[m].stripes| == STRIPES
    && var p, byClose := s.maps[m].phase, s.maps[m].byClose;
      match act
      case Refuse => p.Fresh? && s.closed
      case Flag => p.Swapped?
      case RaiseWait => p.Flagged? && !byClose
      case Launch => p.Counted? || (p.Flagged? && byClose)
      case ReadExit => p.ExitScan? && p.i < STRIPES
      case ReadEnter => p.EnterScan? && p.i < STRIPES
      case Decide => p.EnterScan? && p.i == STRIPES
      case GraceOver => p.Drained?
      case SumExit => p.SumExits? && p.i < STRIPES
      case LoadNon => p.SumExits? && p.i == STRIPES
      case LoadExtra => p.PlusExtra?
      case Account => p.AddLookups?
      case SumMiss => p.SumMisses? && p.i < STRIPES
      case AccountMiss => p.SumMisses? && p.i == STRIPES
      case Unmap => p.Settled?
      case Release => p.Unmapped? && !byClose
      case Finish => p.Released? || (p.Unmapped? && byClose)
  }

  /** publish gets past its wait: not closed, and fewer than maxRetired mappings pending. */
  predicate CanPublish(s: State, m: nat) {
    && m < |s.maps| && s.maps[m].phase.Fresh? && !s.closed && s.pending < MAX_RETIRED
    && (s.cur.Some? ==> s.cur.value < |s.maps|)
  }

  predicate Enabled(s: State, step: Step) {
    match step
    case Spawn => true
    case Read(r, act) => CanRead(s, r, act)
    case OpenFile => true
    case Publish(m) => CanPublish(s, m)
    case Retire(m, act) => CanRetire(s, m, act)
    case CloseSwap => s.closer.NotCalled? && (s.cur.Some? ==> s.cur.value < |s.maps|)
    case CloseReturn => CloseCanReturn(s)
  }

  /** Close has unmapped what it swapped out itself, and retireWG.Wait finds the count at zero. */
  predicate CloseCanReturn(s: State) {
    && s.closer.Closing? && s.wg == 0
    && (s.closer.last.Some? ==> s.closer.last.value < |s.maps| && s.maps[s.closer.last.value].phase.Done?)
  }

  function WithReader(s: State, r: nat, x: Reader): State
    requires r < |s.readers|
  {
    s.(readers := s.readers[r := x])
  }

  function WithPhase(s: State, m: nat, p: Phase): State
    requires m < |s.maps|
  {
    s.(maps := s.maps[m := s.maps[m].(phase := p)])
  }

  function WithStripe(s: State, m: nat, i: nat, x: Stripe): State
    requires m < |s.maps| && i < |s.maps[m].stripes|
  {
    s.(maps := s.maps[m := s.maps[m].(stripes := s.maps[m].stripes[i := x])])
  }

  function DoRead(s: State, r: nat, act: ReadAct): State
    requires CanRead(s, r, act)
  {
    match act
    case Begin(stripe, op) => WithReader(s, r, Starting(stripe, op))
    case Load =>
      var x := s.readers[r];
      WithReader(s, r, if s.cur.None? then Idle else Loaded(s.cur.value, x.stripe, x.op))
    case Enter =>
      var x := s.readers[r]; var c := s.maps[x.m].stripes[x.stripe];
      WithReader(WithStripe(s, x.m, x.stripe, c.(enter := c.enter + 1)), r, Entered(x.m, x.stripe, x.op))
    case Check =>
      var x := s.readers[r];
      WithReader(s, r, if s.maps[x.m].retired then BackingOff(x.m, x.stripe, x.op)
                       else Inside(x.m, x.stripe, x.op, x.op.Lookup?, 0))
    case Undo =>
      var x := s.readers[r]; var c := s.maps[x.m].stripes[x.stripe];
      WithReader(WithStripe(s, x.m, x.stripe, c.(enter := c.enter - 1)), r, Starting(x.stripe, x.op))
    case Count =>
      var x := s.readers[r]; var p := s.maps[x.m];
      WithReader(s.(maps := s.maps[x.m := if x.op.Other? then p.(nonLookups := p.nonLookups + 1)
                                          else p.(batchExtra := p.batchExtra + x.op.Keys() - 1)]),
                 r, x.(counted := true))
    case Miss =>
      var x := s.readers[r]; var c := s.maps[x.m].stripes[x.stripe];
      WithReader(WithStripe(s, x.m, x.stripe, c.(miss := c.miss + 1)), r, x.(noted := x.noted + 1)).(missed := s.missed + 1)
    case Exit =>
      var x := s.readers[r]; var c := s.maps[x.m].stripes[x.stripe];
      WithReader(WithStripe(s, x.m, x.stripe, c.(exit := c.exit + 1)), r, Idle).(served := s.served + x.op.Keys())
  }

  function DoRetire(s: State, m: nat, act: RetireAct): State
    requires CanRetire(s, m, act)
  {
    match act
    case Refuse => s.(maps := s.maps[m := s.maps[m].(phase := Refused, unmaps := s.maps[m].unmaps + 1)])
    case Flag => s.(maps := s.maps[m := s.maps[m].(phase := Flagged, retired := true)])
    case RaiseWait => WithPhase(s, m, Counted).(wg := s.wg + 1)
    case Launch => WithPhase(s, m, ExitScan(0, 0))
    case ReadExit =>
      var p := s.maps[m].phase; var ex := p.ex + s.maps[m].stripes[p.i].exit;
      WithPhase(s, m, if p.i + 1 == STRIPES then EnterScan(0, ex, 0) else ExitScan(p.i + 1, ex))
    case ReadEnter =>
      var p := s.maps[m].phase;
      WithPhase(s, m, EnterScan(p.i + 1, p.ex, p.en + s.maps[m].stripes[p.i].enter))
    case Decide =>
      var p := s.maps[m].phase;
      WithPhase(s, m, if p.en == p.ex then Drained else ExitScan(0, 0))
    case GraceOver => WithPhase(s, m, SumExits(0, 0))
    case SumExit =>
      var p := s.maps[m].phase;
      WithPhase(s, m, SumExits(p.i + 1, p.n + s.maps[m].stripes[p.i].exit))
    case LoadNon => WithPhase(s, m, PlusExtra(s.maps[m].phase.n - s.maps[m].nonLookups))
    case LoadExtra => WithPhase(s, m, AddLookups(s.maps[m].phase.n + s.maps[m].batchExtra))
    case Account => WithPhase(s, m, SumMisses(0, 0)).(retiredLookups := s.retiredLookups + s.maps[m].phase.n)
    case SumMiss =>
      var p := s.maps[m].phase;
      WithPhase(s, m, SumMisses(p.i + 1, p.n + s.maps[m].stripes[p.i].miss))
    case AccountMiss => WithPhase(s, m, Settled).(retiredMisses := s.retiredMisses + s.maps[m].phase.n)
    case Unmap => s.(maps := s.maps[m := s.maps[m].(phase := Unmapped, unmaps := s.maps[m].unmaps + 1)])
    case Release => WithPhase(s, m, Released).(pending := s.pending - 1)
    case Finish =>
      var t := WithPhase(s, m, Done);
      if s.maps[m].byClose then t else t.(wg := s.wg - 1)
  }

  function DoPublish(s: State, m: nat): State
    requires CanPublish(s, m)
  {
    var t := if s.cur.Some? then WithPhase(s, s.cur.value, Swapped).(pending := s.pending + 1) else s;
    WithPhase(t, m, Current).(cur := Some(m))
  }

  function DoCloseSwap(s: State): State
    requires Enabled(s, CloseSwap)
  {
    var t := s.(closed := true, cur := None, closer := Closing(s.cur));
    if s.cur.None? then t
    else t.(maps := t.maps[s.cur.value := t.maps[s.cur.value].(phase := Swapped, byClose := true)])
  }

  function Apply(s: State, step: Step): State
    requires Enabled(s, step)
  {
    match step
    case Spawn => s.(readers := s.readers + [Idle])
    case Read(r, act) => DoRead(s, r, act)
    case OpenFile => s.(maps := s.maps + [NewMapping()])
    case Publish(m) => DoPublish(s, m)
    case Retire(m, act) => DoRetire(s, m, act)
    case CloseSwap => DoCloseSwap(s)
    case CloseReturn => s.(closer := Returned)
  }

  ghost predicate Next(s: State, t: State) {
    exists step :: Enabled(s, step) && t == Apply(s, step)
  }

  /** A handle from newEmptyMap, or one from OpenWithConfig that already holds its first mapping. */
  ghost predicate Init(s: State) {
    || s == State([], [], None, false, 0, 0, 0, 0, NotCalled, 0, 0)
    || s == State([NewMapping().(phase := Current)], [], Some(0), false, 0, 0, 0, 0, NotCalled, 0, 0)
  }

  ghost predicate NextAt(run: seq<State>, k: nat)
    requires k + 1 < |run|
  {
    Next(run[k], run[k + 1])
  }

  ghost predicate IsRun(run: seq<State>) {
    && |run| > 0 && Init(run[0])
    && forall k: nat | k + 1 < |run| :: NextAt(run, k)
  }

  ghost predicate Reachable(s: State) {
    exists run: seq<State> :: IsRun(run) && run[|run| - 1] == s
  }
}
