/** The inductive invariant of the hot-swap protocol, one conjunct at a time. */
module HotSwapInvariant {
  import opened Totals
  import opened Words
  import opened HotSwap

  predicate Published(p: Phase) { !p.Fresh? && !p.Refused? }

  /** The phases in which a reader may still be reading the mapped bytes. */
  predicate Live(p: Phase) {
    p.Current? || p.Swapped? || p.Flagged? || p.Counted? || p.ExitScan? || p.EnterScan?
  }

  predicate Credited(p: Phase) {
    p.SumMisses? || p.Settled? || p.Unmapped? || p.Released? || p.Done?
  }

  predicate MissCredited(p: Phase) {
    p.Settled? || p.Unmapped? || p.Released? || p.Done?
  }

  // ------------------------------------------------------------- measures --

  predicate Pins(x: Reader, m: nat, i: nat) {
    (x.Entered? || x.BackingOff? || x.Inside?) && x.m == m && x.stripe == i
  }

  function PinAt(m: nat, i: nat): Reader -> int { (x: Reader) => if Pins(x, m, i) then 1 else 0 }

  function InsideBelow(m: nat, j: nat): Reader -> int {
    (x: Reader) => if x.Inside? && x.m == m && x.stripe < j then 1 else 0
  }

  /** What an unfinished operation has already contributed to lookups() beyond its own exit. */
  function Credit(): Reader -> int {
    (x: Reader) => if !x.Inside? || !x.counted then 0 else if x.op.Other? then -1 else x.op.Keys() - 1
  }

  function Noted(): Reader -> int { (x: Reader) => if x.Inside? then x.noted else 0 }

  function Uncredited(): Mapping -> int { (p: Mapping) => if Credited(p.phase) then 0 else Lookups(p) }
  function UncreditedMisses(): Mapping -> int { (p: Mapping) => if MissCredited(p.phase) then 0 else Misses(p) }

  /** Swapped out by publish and not yet released. */
  function PendingUnit(): Mapping -> int {
    (p: Mapping) => if p.byClose || !Published(p.phase) || p.phase.Current? || p.phase.Released? || p.phase.Done? then 0 else 1
  }

  /** Its retire goroutine is counted in retireWG. */
  function WaitUnit(): Mapping -> int {
    (p: Mapping) => if p.byClose || !Published(p.phase) || p.phase.Current? || p.phase.Swapped? || p.phase.Flagged? || p.phase.Done? then 0 else 1
  }

  // ------------------------------------------------------------ conjuncts --

  predicate RefOk(s: State, x: Reader) {
    && (x.Loaded? || x.Entered? || x.BackingOff? || x.Inside? ==>
          x.m < |s.maps| && x.stripe < STRIPES && Published(s.maps[x.m].phase))
    && (x.Starting? ==> x.stripe < STRIPES)
    && (!x.Idle? && x.op.Batch? ==> x.op.keys >= 1)
    && (x.Inside? ==> Live(s.maps[x.m].phase))
    && (x.Inside? && x.op.Lookup? ==> x.counted)
    && (x.Inside? ==> x.noted <= x.op.Keys())
  }

  predicate ReadersOk(s: State) {
    forall r | 0 <= r < |s.readers| :: RefOk(s, s.readers[r])
  }

  predicate PhaseOk(p: Mapping) {
    && |p.stripes| == STRIPES
    && (p.retired <==> Published(p.phase) && !p.phase.Current? && !p.phase.Swapped?)
    && p.unmaps == (if Mapped(p.phase) then 0 else 1)
    && (p.phase.ExitScan? ==> p.phase.i < STRIPES)
    && (p.phase.EnterScan? || p.phase.SumExits? || p.phase.SumMisses? ==> p.phase.i <= STRIPES)
    && (p.byClose ==> Published(p.phase) && !p.phase.Current? && !p.phase.Counted? && !p.phase.Released?)
  }

  predicate PhasesOk(s: State) {
    forall m | 0 <= m < |s.maps| :: PhaseOk(s.maps[m])
  }

  predicate CloserOk(s: State, m: nat)
    requires m < |s.maps|
  {
    s.maps[m].byClose ==>
      || s.closer == Closing(Some(m))
      || (s.closer.Returned? && s.maps[m].phase.Done?)
  }

  predicate CurrentOk(s: State) {
    && (s.cur.Some? ==> s.cur.value < |s.maps| && s.maps[s.cur.value].phase.Current?)
    && (s.closed ==> s.cur.None?)
    && (s.closed <==> !s.closer.NotCalled?)
    && (s.closer.Closing? && s.closer.last.Some? ==> s.closer.last.value < |s.maps|)
    && (forall m | 0 <= m < |s.maps| :: s.maps[m].phase.Current? ==> s.cur == Some(m))
    && (forall m: nat | m < |s.maps| :: CloserOk(s, m))
  }

  /** On each stripe, enter exceeds exit by the number of goroutines that have entered and not left. */
  predicate Balanced(s: State, m: nat, i: nat)
    requires m < |s.maps| && i < |s.maps[m].stripes|
  {
    s.maps[m].stripes[i].enter == s.maps[m].stripes[i].exit + Total(s.readers, PinAt(m, i))
  }

  predicate PinsOk(s: State)
    requires PhasesOk(s)
  {
    forall m: nat, i: nat | m < |s.maps| && i < STRIPES :: Balanced(s, m, i)
  }

  function ExitsBelow(p: Mapping, i: nat): int
    requires i <= |p.stripes|
  {
    Total(p.stripes[..i], ExitOf())
  }

  /**
   What the retiring goroutine knows. Its exit sum is at most the exits there are now, and once it reads
   enters, the difference so far plus the exits of the stripes still to read covers every reader inside
   one of the stripes already read.
   */
  predicate ScanOk(s: State, m: nat)
    requires m < |s.maps| && PhaseOk(s.maps[m])
  {
    var p := s.maps[m];
    match p.phase
    case ExitScan(i, ex) => ex <= ExitsBelow(p, i)
    case EnterScan(i, ex, en) =>
      en - ex + ExitsBelow(p, STRIPES) - ExitsBelow(p, i) >= Total(s.readers, InsideBelow(m, i))
    case SumExits(i, n) => n == ExitsBelow(p, i)
    case PlusExtra(n) => n == ExitsBelow(p, STRIPES) - p.nonLookups
    case AddLookups(n) => n == Lookups(p)
    case SumMisses(i, n) => n == Total(p.stripes[..i], MissOf())
    case _ => true
  }

  predicate ScansOk(s: State)
    requires PhasesOk(s)
  {
    forall m: nat | m < |s.maps| :: ScanOk(s, m)
  }

  predicate BoundsOk(s: State) {
    && s.pending == Total(s.maps, PendingUnit()) <= MAX_RETIRED
    && s.wg == Total(s.maps, WaitUnit())
  }

  predicate ConservationOk(s: State) {
    && s.retiredLookups + Total(s.maps, Uncredited()) == s.served + Total(s.readers, Credit())
    && s.retiredMisses + Total(s.maps, UncreditedMisses()) == s.missed
    && s.missed <= s.served + Total(s.readers, Noted())
  }

  /** No goroutine has touched a mapping that was never published. */
  predicate UntouchedOk(s: State) {
    forall m | 0 <= m < |s.maps| && !Published(s.maps[m].phase) :: Untouched(s.maps[m])
  }

  predicate Untouched(p: Mapping) {
    && |p.stripes| == STRIPES && p.nonLookups == 0 && p.batchExtra == 0
    && forall i | 0 <= i < STRIPES :: p.stripes[i] == Stripe(0, 0, 0)
  }

  ghost predicate Inv(s: State) {
    && PhasesOk(s) && ReadersOk(s) && CurrentOk(s) && PinsOk(s) && ScansOk(s) && BoundsOk(s) && ConservationOk(s)
    && UntouchedOk(s)
  }

  // --------------------------------------------------------------- frames --

  /** Two states of a mapping that differ in its counters only. */
  predicate SameProgress(p: Mapping, q: Mapping) {
    q == p.(stripes := q.stripes, nonLookups := q.nonLookups, batchExtra := q.batchExtra) && |q.stripes| == |p.stripes|
  }

  predicate SameCounters(p: Mapping, q: Mapping) {
    q.stripes == p.stripes && q.nonLookups == p.nonLookups && q.batchExtra == p.batchExtra
  }

  lemma ReadFrame(s: State, r: nat, act: ReadAct)
    requires CanRead(s, r, act)
    ensures var t := DoRead(s, r, act);
      && r < |s.readers| && |t.readers| == |s.readers| && t.readers == s.readers[r := t.readers[r]]
      && |t.maps| == |s.maps| && (forall m | 0 <= m < |s.maps| :: SameProgress(s.maps[m], t.maps[m]))
      && t == s.(readers := t.readers, maps := t.maps, served := t.served, missed := t.missed)
  {
  }

  lemma RetireFrame(s: State, m: nat, act: RetireAct)
    requires CanRetire(s, m, act)
    ensures var t := DoRetire(s, m, act);
      && |t.maps| == |s.maps| && t.maps == s.maps[m := t.maps[m]] && SameCounters(s.maps[m], t.maps[m])
      && t == s.(maps := t.maps, pending := t.pending, wg := t.wg, retiredLookups := t.retiredLookups, retiredMisses := t.retiredMisses)
  {
  }

  // --------------------------------------------------------------- phases --

  lemma RetirePhase(s: State, m: nat, act: RetireAct)
    requires CanRetire(s, m, act) && PhaseOk(s.maps[m])
    ensures PhaseOk(DoRetire(s, m, act).maps[m])
  {
  }

  /** Progress never leaves the published phases, and leaves the live ones only when a drain succeeds. */
  lemma RetireProgress(s: State, m: nat, act: RetireAct)
    requires CanRetire(s, m, act)
    ensures var p, q := s.maps[m].phase, DoRetire(s, m, act).maps[m].phase;
      && (Published(p) ==> Published(q))
      && (Live(p) && !Live(q) ==> p.EnterScan? && p.i == STRIPES && p.en == p.ex)
      && !p.Current? && !q.Current?
  {
  }

  lemma PhasesPreserved(s: State, step: Step)
    requires PhasesOk(s) && CurrentOk(s) && Enabled(s, step)
    ensures PhasesOk(Apply(s, step))
  {
    match step
    case Read(r, act) => ReadFrame(s, r, act);
    case Retire(m, act) => RetireFrame(s, m, act); RetirePhase(s, m, act);
    case _ =>
  }

  // -------------------------------------------------------------- readers --

  /** A drain that found exits equal to enters leaves no reader inside. */
  lemma NobodyInside(s: State, m: nat)
    requires Total(s.readers, InsideBelow(m, STRIPES)) <= 0
    requires ReadersOk(s)
    ensures forall r | 0 <= r < |s.readers| :: !(s.readers[r].Inside? && s.readers[r].m == m)
  {
    forall r: nat | r < |s.readers|
      ensures !(s.readers[r].Inside? && s.readers[r].m == m)
    {
      TotalMember(s.readers, r, InsideBelow(m, STRIPES));
      assert RefOk(s, s.readers[r]);
    }
  }

  lemma ReadersAfterRead(s: State, r: nat, act: ReadAct)
    requires PhasesOk(s) && ReadersOk(s) && CurrentOk(s) && CanRead(s, r, act)
    ensures ReadersOk(DoRead(s, r, act))
  {
    ReadFrame(s, r, act);
    var t := DoRead(s, r, act);
    assert RefOk(s, s.readers[r]);
    assert RefOk(t, t.readers[r]);
    forall k | 0 <= k < |t.readers| && k != r
      ensures RefOk(t, t.readers[k])
    {
      assert RefOk(s, s.readers[k]);
    }
  }

  lemma ReadersAfterRetire(s: State, m: nat, act: RetireAct)
    requires PhasesOk(s) && ReadersOk(s) && ScansOk(s) && CanRetire(s, m, act)
    ensures ReadersOk(DoRetire(s, m, act))
  {
    RetireFrame(s, m, act);
    RetireProgress(s, m, act);
    var t := DoRetire(s, m, act);
    if Live(s.maps[m].phase) && !Live(t.maps[m].phase) {
      assert ScanOk(s, m);
      NobodyInside(s, m);
    }
    forall k | 0 <= k < |t.readers|
      ensures RefOk(t, t.readers[k])
    {
      assert RefOk(s, s.readers[k]);
    }
  }

  lemma ReadersPreserved(s: State, step: Step)
    requires PhasesOk(s) && ReadersOk(s) && CurrentOk(s) && ScansOk(s) && Enabled(s, step)
    ensures ReadersOk(Apply(s, step))
  {
    match step
    case Read(r, act) => ReadersAfterRead(s, r, act);
    case Retire(m, act) => ReadersAfterRetire(s, m, act);
    case _ =>
      var t := Apply(s, step);
      forall k | 0 <= k < |t.readers|
        ensures RefOk(t, t.readers[k])
      {
        assert k < |s.readers| ==> RefOk(s, s.readers[k]);
      }
  }

  lemma CurrentPreserved(s: State, step: Step)
    requires PhasesOk(s) && CurrentOk(s) && Enabled(s, step)
    ensures CurrentOk(Apply(s, step))
  {
    var t := Apply(s, step);
    match step {
      case Read(r, act) => ReadFrame(s, r, act);
      case Retire(m, act) => RetireFrame(s, m, act); RetireProgress(s, m, act);
      case _ =>
    }
    forall m: nat | m < |t.maps|
      ensures CloserOk(t, m)
    {
      assert m < |s.maps| ==> CloserOk(s, m) && PhaseOk(s.maps[m]);
    }
  }

  // ----------------------------------------------------------------- pins --

  lemma PinsAfterRead(s: State, r: nat, act: ReadAct, m: nat, i: nat)
    requires m < |s.maps| && i < |s.maps[m].stripes| && Balanced(s, m, i) && CanRead(s, r, act)
    ensures var t := DoRead(s, r, act); m < |t.maps| && i < |t.maps[m].stripes| && Balanced(t, m, i)
  {
    ReadFrame(s, r, act);
    TotalUpdate(s.readers, r, DoRead(s, r, act).readers[r], PinAt(m, i));
  }

  lemma PinsPreserved(s: State, step: Step)
    requires PhasesOk(s) && PinsOk(s) && ReadersOk(s) && Enabled(s, step) && PhasesOk(Apply(s, step))
    ensures PinsOk(Apply(s, step))
  {
    var t := Apply(s, step);
    forall m: nat, i: nat | m < |t.maps| && i < STRIPES
      ensures Balanced(t, m, i)
    {
      assert m < |s.maps| ==> PhaseOk(s.maps[m]) && Balanced(s, m, i);
      match step {
        case Spawn => TotalAppend(s.readers, Idle, PinAt(m, i));
        case Read(r, act) =>
          ReadFrame(s, r, act);
          PinsAfterRead(s, r, act, m, i);
        case OpenFile =>
          if m == |s.maps| {
            NoPinsOnNew(s, i);
          }
        case Retire(k, act) => RetireFrame(s, k, act);
        case _ =>
      }
    }
  }

  lemma NoPinsOnNew(s: State, i: nat)
    requires ReadersOk(s)
    ensures Total(s.readers, PinAt(|s.maps|, i)) == 0
  {
    forall r | 0 <= r < |s.readers|
      ensures PinAt(|s.maps|, i)(s.readers[r]) == 0
    {
      assert RefOk(s, s.readers[r]);
    }
    TotalZero(s.readers, PinAt(|s.maps|, i));
  }

  // ---------------------------------------------------------------- scans --

  lemma StripeUpdate(stripes: seq<Stripe>, i: nat, c: Stripe, k: nat, f: Stripe -> int)
    requires i < |stripes| && k <= |stripes|
    ensures Total(stripes[i := c][..k], f) == Total(stripes[..k], f) + (if i < k then f(c) - f(stripes[i]) else 0)
  {
    if i < k {
      assert stripes[i := c][..k] == stripes[..k][i := c];
      TotalUpdate(stripes[..k], i, c, f);
    } else {
      assert stripes[i := c][..k] == stripes[..k];
    }
  }

  /** Every reader inside stripe j has raised its enter counter. */
  lemma {:induction false} InsideArePins(readers: seq<Reader>, m: nat, j: nat)
    ensures Total(readers, InsideBelow(m, j + 1)) <= Total(readers, InsideBelow(m, j)) + Total(readers, PinAt(m, j))
  {
    if |readers| > 0 {
      InsideArePins(readers[..|readers| - 1], m, j);
    }
  }

  /** How a reader's step moves the partial sums of the mapping it pins. */
  lemma SumsAfterRead(s: State, r: nat, act: ReadAct, k: nat)
    requires CanRead(s, r, act) && (act.Enter? || act.Undo? || act.Miss? || act.Exit?) && k <= |s.maps[s.readers[r].m].stripes|
    ensures var t, x := DoRead(s, r, act), s.readers[r]; var p, q := s.maps[x.m], t.maps[x.m];
      && |q.stripes| == |p.stripes|
      && ExitsBelow(q, k) == ExitsBelow(p, k) + (if act.Exit? && x.stripe < k then 1 else 0)
      && (!act.Miss? ==> Total(q.stripes[..k], MissOf()) == Total(p.stripes[..k], MissOf()))
  {
    var t, x := DoRead(s, r, act), s.readers[r];
    var p, q := s.maps[x.m], t.maps[x.m];
    StripeUpdate(p.stripes, x.stripe, q.stripes[x.stripe], k, ExitOf());
    StripeUpdate(p.stripes, x.stripe, q.stripes[x.stripe], k, MissOf());
  }

  lemma ScanAfterRead(s: State, r: nat, act: ReadAct, m: nat)
    requires m < |s.maps| && PhaseOk(s.maps[m]) && ScanOk(s, m) && CanRead(s, r, act) && RefOk(s, s.readers[r])
    ensures var t := DoRead(s, r, act); m < |t.maps| && PhaseOk(t.maps[m]) && ScanOk(t, m)
  {
    ReadFrame(s, r, act);
    var t, x := DoRead(s, r, act), s.readers[r];
    var p, q := s.maps[m], t.maps[m];
    if (act.Enter? || act.Undo? || act.Miss? || act.Exit?) && x.m == m {
      SumsAfterRead(s, r, act, STRIPES);
      assert p.stripes[..STRIPES] == p.stripes && q.stripes[..STRIPES] == q.stripes;
      if p.phase.ExitScan? || p.phase.EnterScan? || p.phase.SumExits? || p.phase.SumMisses? {
        SumsAfterRead(s, r, act, p.phase.i);
      }
    }
    if p.phase.EnterScan? {
      TotalUpdate(s.readers, r, t.readers[r], InsideBelow(m, p.phase.i));
    }
  }

  lemma ScanAfterReadExit(s: State, m: nat)
    requires CanRetire(s, m, ReadExit) && PhaseOk(s.maps[m]) && ScanOk(s, m)
    ensures PhaseOk(DoRetire(s, m, ReadExit).maps[m]) && ScanOk(DoRetire(s, m, ReadExit), m)
  {
    var p := s.maps[m];
    TotalPrefix(p.stripes, p.phase.i, ExitOf());
    NobodyBelowZero(s.readers, m);
  }

  lemma ScanAfterReadEnter(s: State, m: nat)
    requires CanRetire(s, m, ReadEnter) && PhaseOk(s.maps[m]) && ScanOk(s, m)
    requires forall i: nat | i < STRIPES :: Balanced(s, m, i)
    ensures PhaseOk(DoRetire(s, m, ReadEnter).maps[m]) && ScanOk(DoRetire(s, m, ReadEnter), m)
  {
    var p := s.maps[m];
    TotalPrefix(p.stripes, p.phase.i, ExitOf());
    InsideArePins(s.readers, m, p.phase.i);
    assert Balanced(s, m, p.phase.i);
  }

  lemma ScanAfterRetire(s: State, m: nat, act: RetireAct)
    requires CanRetire(s, m, act) && PhaseOk(s.maps[m]) && ScanOk(s, m)
    requires forall i: nat | i < STRIPES :: Balanced(s, m, i)
    ensures PhaseOk(DoRetire(s, m, act).maps[m]) && ScanOk(DoRetire(s, m, act), m)
  {
    if act.ReadExit? {
      ScanAfterReadExit(s, m);
    } else if act.ReadEnter? {
      ScanAfterReadEnter(s, m);
    } else {
      RetireFrame(s, m, act);
      RetirePhase(s, m, act);
      var p := s.maps[m];
      if act.SumExit? {
        TotalPrefix(p.stripes, p.phase.i, ExitOf());
      } else if act.SumMiss? {
        TotalPrefix(p.stripes, p.phase.i, MissOf());
      }
      assert p.stripes[..STRIPES] == p.stripes;
    }
  }

  lemma NobodyBelowZero(readers: seq<Reader>, m: nat)
    ensures Total(readers, InsideBelow(m, 0)) == 0
  {
    TotalZero(readers, InsideBelow(m, 0));
  }

  lemma ScanPreservedAt(s: State, step: Step, m: nat)
    requires PhasesOk(s) && ReadersOk(s) && PinsOk(s) && m < |s.maps| && ScanOk(s, m) && Enabled(s, step)
    ensures var t := Apply(s, step); m < |t.maps| && (PhaseOk(t.maps[m]) ==> ScanOk(t, m))
  {
    assert PhaseOk(s.maps[m]);
    match step
    case Spawn =>
      if s.maps[m].phase.EnterScan? {
        TotalAppend(s.readers, Idle, InsideBelow(m, s.maps[m].phase.i));
      }
    case Read(r, act) =>
      ScanAfterRead(s, r, act, m);
    case Retire(k, act) =>
      RetireFrame(s, k, act);
      if k == m {
        assert forall i: nat | i < STRIPES :: Balanced(s, m, i);
        ScanAfterRetire(s, m, act);
      }
    case _ =>
  }

  lemma ScansPreserved(s: State, step: Step)
    requires PhasesOk(s) && ReadersOk(s) && PinsOk(s) && ScansOk(s) && Enabled(s, step) && PhasesOk(Apply(s, step))
    ensures ScansOk(Apply(s, step))
  {
    var t := Apply(s, step);
    forall m: nat | m < |t.maps|
      ensures ScanOk(t, m)
    {
      assert PhaseOk(t.maps[m]);
      if m < |s.maps| {
        assert ScanOk(s, m);
        ScanPreservedAt(s, step, m);
      }
    }
  }

  // --------------------------------------------------------------- bounds --

  lemma BoundsAfterRetire(s: State, m: nat, act: RetireAct)
    requires CanRetire(s, m, act) && PhaseOk(s.maps[m]) && BoundsOk(s)
    ensures BoundsOk(DoRetire(s, m, act))
  {
    var t := DoRetire(s, m, act);
    RetireFrame(s, m, act);
    TotalUpdate(s.maps, m, t.maps[m], PendingUnit());
    TotalUpdate(s.maps, m, t.maps[m], WaitUnit());
  }

  lemma BoundsPreserved(s: State, step: Step)
    requires PhasesOk(s) && CurrentOk(s) && BoundsOk(s) && Enabled(s, step)
    ensures BoundsOk(Apply(s, step))
  {
    var t := Apply(s, step);
    match step {
      case Read(r, act) =>
        ReadFrame(s, r, act);
        TotalPointwise(s.maps, t.maps, PendingUnit());
        TotalPointwise(s.maps, t.maps, WaitUnit());
      case OpenFile =>
        TotalAppend(s.maps, NewMapping(), PendingUnit());
        TotalAppend(s.maps, NewMapping(), WaitUnit());
      case Retire(m, act) =>
        BoundsAfterRetire(s, m, act);
      case Publish(m) =>
        BoundsAfterPublish(s, m);
      case CloseSwap =>
        if s.cur.Some? {
          var c := s.cur.value;
          TotalUpdate(s.maps, c, t.maps[c], PendingUnit());
          TotalUpdate(s.maps, c, t.maps[c], WaitUnit());
        }
      case _ =>
    }
  }

  lemma BoundsAfterPublish(s: State, m: nat)
    requires PhasesOk(s) && CurrentOk(s) && BoundsOk(s) && CanPublish(s, m)
    ensures BoundsOk(DoPublish(s, m))
  {
    var mid, p := s.maps, s.maps[m].(phase := Current);
    if s.cur.Some? {
      var c := s.cur.value;
      var q := s.maps[c].(phase := Swapped);
      mid := s.maps[c := q];
      TotalUpdate(s.maps, c, q, PendingUnit());
      TotalUpdate(s.maps, c, q, WaitUnit());
    }
    TotalUpdate(mid, m, p, PendingUnit());
    TotalUpdate(mid, m, p, WaitUnit());
  }

  // --------------------------------------------------------- conservation --

  lemma CountersAfterRead(s: State, r: nat, act: ReadAct)
    requires CanRead(s, r, act) && (act.Enter? || act.Undo? || act.Miss? || act.Exit? || act.Count?)
    ensures var t, x := DoRead(s, r, act), s.readers[r]; var p, q := s.maps[x.m], t.maps[x.m];
      && t.maps == s.maps[x.m := q] && q.phase == p.phase
      && Lookups(q) == Lookups(p) + (if act.Exit? then 1 else if act.Count? then (if x.op.Other? then -1 else x.op.Keys() - 1) else 0)
      && Misses(q) == Misses(p) + (if act.Miss? then 1 else 0)
  {
    var t, x := DoRead(s, r, act), s.readers[r];
    var p, q := s.maps[x.m], t.maps[x.m];
    if !act.Count? {
      var c := q.stripes[x.stripe];
      TotalUpdate(p.stripes, x.stripe, c, ExitOf());
      TotalUpdate(p.stripes, x.stripe, c, MissOf());
    }
  }

  lemma ConservationAfterRead(s: State, r: nat, act: ReadAct)
    requires ConservationOk(s) && CanRead(s, r, act) && RefOk(s, s.readers[r])
    ensures ConservationOk(DoRead(s, r, act))
  {
    ReadFrame(s, r, act);
    var t, x := DoRead(s, r, act), s.readers[r];
    TotalUpdate(s.readers, r, t.readers[r], Credit());
    TotalUpdate(s.readers, r, t.readers[r], Noted());
    if act.Enter? || act.Undo? || act.Miss? || act.Exit? || act.Count? {
      CountersAfterRead(s, r, act);
      TotalUpdate(s.maps, x.m, t.maps[x.m], Uncredited());
      TotalUpdate(s.maps, x.m, t.maps[x.m], UncreditedMisses());
    }
  }

  /** What one retiring step adds to the retired counts, its mapping no longer owes. */
  lemma RetireCredits(s: State, m: nat, act: RetireAct)
    requires CanRetire(s, m, act) && PhaseOk(s.maps[m]) && ScanOk(s, m)
    ensures var t := DoRetire(s, m, act); var p, q := s.maps[m], t.maps[m];
      && t.retiredLookups + Uncredited()(q) == s.retiredLookups + Uncredited()(p)
      && t.retiredMisses + UncreditedMisses()(q) == s.retiredMisses + UncreditedMisses()(p)
  {
    RetireFrame(s, m, act);
    assert s.maps[m].stripes[..STRIPES] == s.maps[m].stripes;
  }

  lemma ConservationAfterRetire(s: State, m: nat, act: RetireAct)
    requires CanRetire(s, m, act) && PhaseOk(s.maps[m]) && ScanOk(s, m) && ConservationOk(s)
    ensures ConservationOk(DoRetire(s, m, act))
  {
    RetireFrame(s, m, act);
    RetireCredits(s, m, act);
    var t := DoRetire(s, m, act);
    TotalUpdate(s.maps, m, t.maps[m], Uncredited());
    TotalUpdate(s.maps, m, t.maps[m], UncreditedMisses());
  }

  lemma NothingOn(p: Mapping)
    requires Untouched(p)
    ensures Lookups(p) == 0 && Misses(p) == 0
  {
    TotalZero(p.stripes, ExitOf());
    TotalZero(p.stripes, MissOf());
  }

  lemma ConservationAfterOpen(s: State, p: Mapping)
    requires ConservationOk(s) && p.phase.Fresh? && Untouched(p)
    ensures ConservationOk(s.(maps := s.maps + [p]))
  {
    NothingOn(p);
    TotalAppend(s.maps, p, Uncredited());
    TotalAppend(s.maps, p, UncreditedMisses());
  }

  predicate SameCounts(p: Mapping, q: Mapping) {
    Uncredited()(p) == Uncredited()(q) && UncreditedMisses()(p) == UncreditedMisses()(q)
  }

  /** A swap credits nothing. */
  lemma SwapKeepsCounts(s: State, step: Step)
    requires CurrentOk(s) && Enabled(s, step) && (step.Publish? || step.CloseSwap?)
    ensures var t := Apply(s, step); |t.maps| == |s.maps| && forall i | 0 <= i < |s.maps| :: SameCounts(s.maps[i], t.maps[i])
  {
  }

  lemma ConservationAfterSwap(s: State, step: Step)
    requires CurrentOk(s) && ConservationOk(s) && Enabled(s, step) && (step.Publish? || step.CloseSwap?)
    ensures ConservationOk(Apply(s, step))
  {
    SwapKeepsCounts(s, step);
    var t := Apply(s, step);
    assert forall i | 0 <= i < |s.maps| :: SameCounts(s.maps[i], t.maps[i]);
    TotalPointwise(s.maps, t.maps, Uncredited());
    TotalPointwise(s.maps, t.maps, UncreditedMisses());
  }

  lemma ConservationPreserved(s: State, step: Step)
    requires Inv(s) && Enabled(s, step)
    ensures ConservationOk(Apply(s, step))
  {
    var t := Apply(s, step);
    match step {
      case Spawn =>
        TotalAppend(s.readers, Idle, Credit());
        TotalAppend(s.readers, Idle, Noted());
      case Read(r, act) =>
        assert RefOk(s, s.readers[r]);
        ConservationAfterRead(s, r, act);
      case Retire(m, act) =>
        assert ScanOk(s, m);
        ConservationAfterRetire(s, m, act);
      case OpenFile =>
        ConservationAfterOpen(s, NewMapping());
      case Publish(_) => ConservationAfterSwap(s, step);
      case CloseSwap => ConservationAfterSwap(s, step);
      case CloseReturn =>
    }
  }

  lemma UntouchedPreserved(s: State, step: Step)
    requires ReadersOk(s) && CurrentOk(s) && UntouchedOk(s) && Enabled(s, step)
    ensures UntouchedOk(Apply(s, step))
  {
    match step
    case Read(r, act) =>
      ReadFrame(s, r, act);
      assert RefOk(s, s.readers[r]);
      forall m | 0 <= m < |s.maps| && !Published(s.maps[m].phase)
        ensures DoRead(s, r, act).maps[m] == s.maps[m]
      {
      }
    case Retire(m, act) => RetireFrame(s, m, act); RetireProgress(s, m, act);
    case _ =>
  }

  // ------------------------------------------------------------ induction --

  /** The totals of a handle whose only mapping has just been opened. */
  lemma TotalsOfFirst(maps: seq<Mapping>)
    requires |maps| == 1 && maps[0].phase.Current? && Lookups(maps[0]) == 0 && Misses(maps[0]) == 0
    ensures Total(maps, PendingUnit()) == Total(maps, WaitUnit()) == 0
    ensures Total(maps, Uncredited()) == Total(maps, UncreditedMisses()) == 0
  {
    TotalZero(maps, PendingUnit());
    TotalZero(maps, WaitUnit());
    TotalZero(maps, Uncredited());
    TotalZero(maps, UncreditedMisses());
  }

  predicate FirstMapping(p: Mapping) {
    p.phase.Current? && Untouched(p) && !p.retired && !p.byClose && p.unmaps == 0
  }

  predicate AtStart(s: State) {
    && s.readers == [] && s.closer.NotCalled? && !s.closed
    && s.pending == s.wg == s.retiredLookups == s.retiredMisses == s.served == s.missed == 0
    && |s.maps| <= 1 && s.cur == (if |s.maps| == 1 then Some(0) else None)
    && (|s.maps| == 1 ==> FirstMapping(s.maps[0]))
  }

  lemma StartPins(s: State)
    requires AtStart(s) && PhasesOk(s)
    ensures PinsOk(s)
  {
    forall m: nat, i: nat | m < |s.maps| && i < STRIPES
      ensures Balanced(s, m, i)
    {
      assert s.maps[m].stripes[i] == Stripe(0, 0, 0);
    }
  }

  lemma StartTotals(s: State)
    requires AtStart(s)
    ensures BoundsOk(s) && ConservationOk(s)
  {
    if |s.maps| == 1 {
      NothingOn(s.maps[0]);
      TotalsOfFirst(s.maps);
    }
  }

  lemma StartInv(s: State)
    requires AtStart(s)
    ensures Inv(s)
  {
    StartPins(s);
    StartTotals(s);
  }

  lemma InvInitially(s: State)
    requires Init(s)
    ensures Inv(s)
  {
    StartInv(s);
  }

  lemma InvPreserved(s: State, step: Step)
    requires Inv(s) && Enabled(s, step)
    ensures Inv(Apply(s, step))
  {
    PhasesPreserved(s, step);
    ReadersPreserved(s, step);
    CurrentPreserved(s, step);
    PinsPreserved(s, step);
    ScansPreserved(s, step);
    BoundsPreserved(s, step);
    ConservationPreserved(s, step);
    UntouchedPreserved(s, step);
  }

  lemma {:induction false} InvAlongRun(run: seq<State>, k: nat)
    requires IsRun(run) && k < |run|
    ensures Inv(run[k])
  {
    if k == 0 {
      InvInitially(run[0]);
    } else {
      InvAlongRun(run, k - 1);
      assert NextAt(run, k - 1);
      var step :| Enabled(run[k - 1], step) && run[k] == Apply(run[k - 1], step);
      InvPreserved(run[k - 1], step);
    }
  }
}
