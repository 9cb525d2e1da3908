/**
 Progress of the hot-swap protocol: a retired mapping that nobody is inside of is drained, accounted, unmapped and
 released, alone or among other goroutines, and a reader that finds a current mapping is served.
*/
module HotSwapProgress {
  import opened Totals
  import opened Words
  import opened HotSwap
  import opened HotSwapInvariant
  import opened HotSwapSafety
  import opened HotSwapCounts

  /** A goroutine is retiring the mapping: the rest of publish and retire, or Close. */
  predicate Retiring(p: Phase) {
    Published(p) && !p.Current? && !p.Done?
  }

  /** What that goroutine does next. */
  function NextAct(p: Mapping): RetireAct
    requires Retiring(p.phase)
  {
    match p.phase
    case Swapped => Flag
    case Flagged => if p.byClose then Launch else RaiseWait
    case Counted => Launch
    case ExitScan(_, _) => ReadExit
    case EnterScan(i, _, _) => if i < STRIPES then ReadEnter else Decide
    case Drained => GraceOver
    case SumExits(i, _) => if i < STRIPES then SumExit else LoadNon
    case PlusExtra(_) => LoadExtra
    case AddLookups(_) => Account
    case SumMisses(i, _) => if i < STRIPES then SumMiss else AccountMiss
    case Settled => Unmap
    case Unmapped => if p.byClose then Finish else Release
    case Released => Finish
  }

  /** It is never stuck, and never has a choice. */
  lemma OneAct(s: State, m: nat, act: RetireAct)
    requires m < |s.maps| && PhaseOk(s.maps[m]) && Retiring(s.maps[m].phase)
    ensures CanRetire(s, m, act) <==> act == NextAct(s.maps[m])
  {
  }

  // ------------------------------------------------------------------ the ranking --

  /** No goroutine has raised enter without having left. */
  predicate Still(p: Mapping) {
    |p.stripes| == STRIPES && forall i | 0 <= i < STRIPES :: p.stripes[i].enter == p.stripes[i].exit
  }

  /** A scan that has seen exactly the exits there are will find enters equal to exits. */
  predicate Succeeding(p: Mapping)
    requires PhaseOk(p)
  {
    match p.phase
    case ExitScan(i, ex) => ex == ExitsBelow(p, i)
    case EnterScan(i, ex, en) => ex - en == ExitsBelow(p, STRIPES) - ExitsBelow(p, i)
    case _ => true
  }

  /** Exits and enters of all stripes, and the comparison. */
  const SCAN := 2 * STRIPES + 1

  /** From a successful drain to the end. */
  function TailSteps(p: Mapping): nat { 70 + ReleaseSteps(p) }

  /** unmap done: only a replaced mapping lowers pending. */
  function ReleaseSteps(p: Mapping): nat { if p.byClose then 1 else 2 }

  function ScanSteps(p: Mapping): nat
    requires PhaseOk(p) && (p.phase.ExitScan? || p.phase.EnterScan?)
  {
    (if p.phase.ExitScan? then SCAN - p.phase.i else STRIPES + 1 - p.phase.i) + if Succeeding(p) then 0 else SCAN
  }

  /** Being retired, or done. */
  predicate Underway(p: Mapping) {
    PhaseOk(p) && (Retiring(p.phase) || p.phase.Done?)
  }

  /** The steps still to be taken if nobody is inside: at most one scan fails. */
  function StepsLeft(p: Mapping): nat
    requires Underway(p)
  {
    match p.phase
    case Swapped => TailSteps(p) + SCAN + ReleaseSteps(p) + 1
    case Flagged => TailSteps(p) + SCAN + ReleaseSteps(p)
    case Counted => TailSteps(p) + SCAN + 1
    case ExitScan(_, _) => TailSteps(p) + ScanSteps(p)
    case EnterScan(_, _, _) => TailSteps(p) + ScanSteps(p)
    case Drained => TailSteps(p)
    case SumExits(i, _) => 37 + ReleaseSteps(p) + (STRIPES - i)
    case PlusExtra(_) => 36 + ReleaseSteps(p)
    case AddLookups(_) => 35 + ReleaseSteps(p)
    case SumMisses(i, _) => 2 + ReleaseSteps(p) + (STRIPES - i)
    case Settled => 1 + ReleaseSteps(p)
    case Unmapped => ReleaseSteps(p)
    case Released => 1
    case Done => 0
  }

  /** A drain takes at most two scans. */
  lemma RankBound(p: Mapping)
    requires PhaseOk(p) && Retiring(p.phase)
    ensures 0 < StepsLeft(p) <= TailSteps(p) + 2 * SCAN
    ensures Live(p.phase) <==> StepsLeft(p) > TailSteps(p)
    ensures p.phase.Drained? <==> StepsLeft(p) == TailSteps(p)
  {
  }

  lemma ScanFalls(s: State, m: nat)
    requires m < |s.maps| && PhaseOk(s.maps[m]) && Still(s.maps[m]) && (s.maps[m].phase.ExitScan? || s.maps[m].phase.EnterScan?)
    requires CanRetire(s, m, NextAct(s.maps[m])) && PhaseOk(DoRetire(s, m, NextAct(s.maps[m])).maps[m])
    ensures var q := DoRetire(s, m, NextAct(s.maps[m])).maps[m];
      Underway(q) && StepsLeft(q) == StepsLeft(s.maps[m]) - 1
  {
    var p := s.maps[m];
    assert p.stripes[..0] == [] && p.stripes[..STRIPES] == p.stripes;
    if p.phase.i < STRIPES {
      TotalPrefix(p.stripes, p.phase.i, ExitOf());
    }
  }

  predicate Summing(p: Phase) { p.SumExits? || p.PlusExtra? || p.AddLookups? || p.SumMisses? }

  lemma SumFalls(s: State, m: nat)
    requires m < |s.maps| && PhaseOk(s.maps[m]) && Summing(s.maps[m].phase)
    requires CanRetire(s, m, NextAct(s.maps[m])) && PhaseOk(DoRetire(s, m, NextAct(s.maps[m])).maps[m])
    ensures var q := DoRetire(s, m, NextAct(s.maps[m])).maps[m];
      Underway(q) && StepsLeft(q) == StepsLeft(s.maps[m]) - 1
  {
  }

  lemma OtherFalls(s: State, m: nat)
    requires m < |s.maps| && PhaseOk(s.maps[m]) && Retiring(s.maps[m].phase)
    requires !s.maps[m].phase.ExitScan? && !s.maps[m].phase.EnterScan? && !Summing(s.maps[m].phase)
    requires CanRetire(s, m, NextAct(s.maps[m])) && PhaseOk(DoRetire(s, m, NextAct(s.maps[m])).maps[m])
    ensures var q := DoRetire(s, m, NextAct(s.maps[m])).maps[m];
      Underway(q) && StepsLeft(q) == StepsLeft(s.maps[m]) - 1
  {
    assert s.maps[m].stripes[..0] == [];
  }

  /** What one step of the retiring goroutine does to the state besides its mapping. */
  ghost predicate Moves(s: State, m: nat, t: State) {
    && m < |s.maps| == |t.maps| && SameCounters(s.maps[m], t.maps[m]) && t.maps[m].byClose == s.maps[m].byClose
    && t == s.(maps := s.maps[m := t.maps[m]], pending := t.pending, wg := t.wg, retiredLookups := t.retiredLookups, retiredMisses := t.retiredMisses)
    && t.pending - PendingUnit()(t.maps[m]) == s.pending - PendingUnit()(s.maps[m])
    && t.wg - WaitUnit()(t.maps[m]) == s.wg - WaitUnit()(s.maps[m])
    && t.retiredLookups + Uncredited()(t.maps[m]) == s.retiredLookups + Uncredited()(s.maps[m])
    && t.retiredMisses + UncreditedMisses()(t.maps[m]) == s.retiredMisses + UncreditedMisses()(s.maps[m])
  }

  lemma MovesUnits(s: State, m: nat, act: RetireAct)
    requires CanRetire(s, m, act) && PhaseOk(s.maps[m]) && Retiring(s.maps[m].phase)
    ensures var t := DoRetire(s, m, act); var p, q := s.maps[m], t.maps[m];
      && q.byClose == p.byClose
      && t.pending - PendingUnit()(q) == s.pending - PendingUnit()(p) && t.wg - WaitUnit()(q) == s.wg - WaitUnit()(p)
  {
  }

  /** One step towards the end, if nobody is inside. */
  lemma StepFalls(s: State, m: nat)
    requires m < |s.maps| && PhaseOk(s.maps[m]) && ScanOk(s, m) && Still(s.maps[m]) && Retiring(s.maps[m].phase)
    ensures CanRetire(s, m, NextAct(s.maps[m]))
    ensures var t := DoRetire(s, m, NextAct(s.maps[m]));
      Moves(s, m, t) && Underway(t.maps[m]) && StepsLeft(t.maps[m]) == StepsLeft(s.maps[m]) - 1
  {
    var act := NextAct(s.maps[m]);
    OneAct(s, m, act);
    RetireFrame(s, m, act);
    RetirePhase(s, m, act);
    RetireCredits(s, m, act);
    MovesUnits(s, m, act);
    if s.maps[m].phase.ExitScan? || s.maps[m].phase.EnterScan? {
      ScanFalls(s, m);
    } else if Summing(s.maps[m].phase) {
      SumFalls(s, m);
    } else {
      OtherFalls(s, m);
    }
  }

  // ------------------------------------------------------------------------ alone --

  type Relation = (State, State) -> bool

  /** n steps of a kind lead from s to t. */
  ghost predicate Chain(step: Relation, s: State, n: nat, t: State)
    decreases n
  {
    if n == 0 then t == s else exists mid :: step(s, mid) && Chain(step, mid, n - 1, t)
  }

  /** The steps of the goroutine that retires m, and of nobody else. */
  ghost function OwnSteps(m: nat): Relation {
    (s: State, t: State) => m < |s.maps| && Retiring(s.maps[m].phase) && CanRetire(s, m, NextAct(s.maps[m])) && t == DoRetire(s, m, NextAct(s.maps[m]))
  }

  ghost predicate Alone(s: State, m: nat, n: nat, t: State) {
    Chain(OwnSteps(m), s, n, t)
  }

  /** A step that keeps the property and lowers the rank. */
  ghost predicate Advances(step: Relation, inv: State -> bool, rank: State -> int, u: State) {
    exists v :: step(u, v) && inv(v) && rank(v) == rank(u) - 1
  }

  lemma {:induction false} RunsDown(step: Relation, inv: State -> bool, rank: State -> int, s: State, n: nat) returns (t: State)
    requires inv(s) && n <= rank(s) && forall u | inv(u) && rank(u) > 0 :: Advances(step, inv, rank, u)
    ensures inv(t) && rank(t) == rank(s) - n && Chain(step, s, n, t)
    decreases n
  {
    t := s;
    if n > 0 {
      assert Advances(step, inv, rank, s);
      var mid :| step(s, mid) && inv(mid) && rank(mid) == rank(s) - 1;
      t := RunsDown(step, inv, rank, mid, n - 1);
    }
  }

  lemma MovesOn(s: State, m: nat, t: State, u: State)
    requires Moves(s, m, t) && Moves(t, m, u)
    ensures Moves(s, m, u)
  {
    assert u.maps == s.maps[m := u.maps[m]];
  }

  lemma ScanKnown(s: State, m: nat)
    requires Reachable(s) && m < |s.maps|
    ensures PhaseOk(s.maps[m]) && ScanOk(s, m)
  {
    ReachableInv(s);
  }

  lemma OneStepAlone(s: State, m: nat) returns (t: State)
    requires Reachable(s) && m < |s.maps| && Still(s.maps[m]) && Underway(s.maps[m]) && StepsLeft(s.maps[m]) > 0
    ensures OwnSteps(m)(s, t) && Reachable(t)
    ensures Moves(s, m, t) && Still(t.maps[m]) && Underway(t.maps[m]) && StepsLeft(t.maps[m]) == StepsLeft(s.maps[m]) - 1
  {
    ScanKnown(s, m);
    StepFalls(s, m);
    t := ReachRetire(s, m, NextAct(s.maps[m]));
  }

  /** Where the goroutine that retires m can get to from s. */
  ghost predicate Getting(s: State, m: nat, u: State) {
    Reachable(u) && Moves(s, m, u) && Still(u.maps[m]) && Underway(u.maps[m])
  }

  ghost function GettingFrom(s: State, m: nat): State -> bool { (u: State) => Getting(s, m, u) }

  ghost function RankOf(m: nat): State -> int {
    (u: State) => if m < |u.maps| && Underway(u.maps[m]) then StepsLeft(u.maps[m]) else 0
  }

  lemma GetsFurther(s: State, m: nat, u: State)
    requires Getting(s, m, u) && StepsLeft(u.maps[m]) > 0
    ensures Advances(OwnSteps(m), GettingFrom(s, m), RankOf(m), u)
  {
    var v := OneStepAlone(u, m);
    MovesOn(s, m, u, v);
    assert GettingFrom(s, m)(v) && RankOf(m)(v) == RankOf(m)(u) - 1;
  }

  /** The goroutine that retires m gets as far as it has steps. */
  lemma RunsAlone(s: State, m: nat, n: nat) returns (t: State)
    requires Reachable(s) && m < |s.maps| && Still(s.maps[m]) && Underway(s.maps[m]) && n <= StepsLeft(s.maps[m])
    ensures Reachable(t) && Alone(s, m, n, t) && Moves(s, m, t) && Underway(t.maps[m])
    ensures StepsLeft(t.maps[m]) == StepsLeft(s.maps[m]) - n
  {
    assert GettingFrom(s, m)(s) by {
      assert s.maps[m := s.maps[m]] == s.maps;
    }
    forall u | GettingFrom(s, m)(u) && RankOf(m)(u) > 0
      ensures Advances(OwnSteps(m), GettingFrom(s, m), RankOf(m), u)
    {
      GetsFurther(s, m, u);
    }
    t := RunsDown(OwnSteps(m), GettingFrom(s, m), RankOf(m), s, n);
    assert Getting(s, m, t);
  }

  /** No goroutine has entered m and not left. */
  predicate NobodyOn(s: State, m: nat) {
    forall r | 0 <= r < |s.readers| :: !On(s.readers[r], m)
  }

  predicate On(x: Reader, m: nat) {
    (x.Entered? || x.BackingOff? || x.Inside?) && x.m == m
  }

  lemma NobodyStill(s: State, m: nat)
    requires Inv(s) && m < |s.maps| && NobodyOn(s, m)
    ensures Still(s.maps[m])
  {
    forall i: nat | i < STRIPES
      ensures s.maps[m].stripes[i].enter == s.maps[m].stripes[i].exit
    {
      TotalZero(s.readers, PinAt(m, i));
      assert Balanced(s, m, i);
    }
  }

  lemma DrainedState(s: State, m: nat, t: State)
    requires Moves(s, m, t) && PhaseOk(s.maps[m]) && PhaseOk(t.maps[m])
    requires Live(s.maps[m].phase) && !s.maps[m].phase.Current? && t.maps[m].phase.Drained?
    ensures t == s.(maps := s.maps[m := s.maps[m].(phase := Drained, retired := true)], wg := t.wg)
  {
    assert t.maps[m] == s.maps[m].(phase := Drained, retired := true);
  }

  lemma DoneState(s: State, m: nat, t: State)
    requires Moves(s, m, t) && PhaseOk(s.maps[m]) && PhaseOk(t.maps[m]) && t.maps[m].phase.Done?
    ensures t.maps[m] == s.maps[m].(phase := Done, retired := true, unmaps := 1)
    ensures PendingUnit()(t.maps[m]) == WaitUnit()(t.maps[m]) == Uncredited()(t.maps[m]) == UncreditedMisses()(t.maps[m]) == 0
  {
  }

  /** With nobody on m, the goroutine that retires it drains it in at most two scans, whatever m has served. */
  lemma DrainsAlone(s: State, m: nat) returns (n: nat, t: State)
    requires Reachable(s) && m < |s.maps| && NobodyOn(s, m) && Live(s.maps[m].phase) && !s.maps[m].phase.Current?
    ensures n <= 2 * SCAN && Alone(s, m, n, t) && Reachable(t)
    ensures |t.maps| == |s.maps| && t == s.(maps := s.maps[m := s.maps[m].(phase := Drained, retired := true)], wg := t.wg)
    ensures t.wg == s.wg + WaitUnit()(t.maps[m]) - WaitUnit()(s.maps[m])
  {
    ReachableInv(s);
    NobodyStill(s, m);
    assert PhaseOk(s.maps[m]);
    RankBound(s.maps[m]);
    n := StepsLeft(s.maps[m]) - TailSteps(s.maps[m]);
    t := RunsAlone(s, m, n);
    DrainedAt(t.maps[m]);
    DrainedState(s, m, t);
  }

  /** Then it accounts what m has served, unmaps it once and, if a publish replaced it, lowers pending. */
  lemma FinishesAlone(s: State, m: nat) returns (n: nat, t: State)
    requires Reachable(s) && m < |s.maps| && NobodyOn(s, m) && Retiring(s.maps[m].phase)
    ensures n <= 72 + 2 * SCAN && Alone(s, m, n, t) && Reachable(t)
    ensures |t.maps| == |s.maps| && t.maps == s.maps[m := s.maps[m].(phase := Done, retired := true, unmaps := 1)]
    ensures t.readers == s.readers && t.cur == s.cur && t.closed == s.closed && t.closer == s.closer && t.served == s.served
    ensures t.pending == s.pending - PendingUnit()(s.maps[m]) && t.wg == s.wg - WaitUnit()(s.maps[m])
    ensures t.retiredLookups == s.retiredLookups + Uncredited()(s.maps[m])
    ensures t.retiredMisses == s.retiredMisses + UncreditedMisses()(s.maps[m])
  {
    ReachableInv(s);
    NobodyStill(s, m);
    assert PhaseOk(s.maps[m]);
    RankBound(s.maps[m]);
    n := StepsLeft(s.maps[m]);
    t := RunsAlone(s, m, n);
    DoneAtZero(t.maps[m]);
    DoneState(s, m, t);
  }

  lemma DrainedAt(p: Mapping)
    requires Underway(p) && StepsLeft(p) == TailSteps(p)
    ensures p.phase.Drained?
  {
  }

  lemma DoneAtZero(p: Mapping)
    requires Underway(p) && StepsLeft(p) == 0
    ensures p.phase.Done?
  {
    if Retiring(p.phase) {
      RankBound(p);
    }
  }

  // ---------------------------------------------------------------- among the others --

  /** A step that nobody on m takes leaves m alone, or is the retiring goroutine's next one. */
  lemma StepAmongOthers(s: State, step: Step, m: nat)
    requires Inv(s) && Enabled(s, step) && m < |s.maps| && NobodyOn(s, m) && NobodyOn(Apply(s, step), m)
    requires Retiring(s.maps[m].phase)
    ensures m < |Apply(s, step).maps|
    ensures var p, q := s.maps[m], Apply(s, step).maps[m]; if step == Retire(m, NextAct(p)) then StepsDown(p, q) else q == p
  {
    assert PhaseOk(s.maps[m]);
    match step
    case Read(r, act) => ReadElsewhere(s, r, act, m);
    case Retire(k, act) =>
      RetireFrame(s, k, act);
      if k == m {
        OneAct(s, m, act);
        NobodyStill(s, m);
        assert ScanOk(s, m);
        StepFalls(s, m);
      }
    case _ =>
  }

  predicate StepsDown(p: Mapping, q: Mapping)
    requires PhaseOk(p) && Retiring(p.phase)
  {
    Underway(q) && StepsLeft(q) == StepsLeft(p) - 1
  }

  lemma ReadElsewhere(s: State, r: nat, act: ReadAct, m: nat)
    requires ReadersOk(s) && CanRead(s, r, act) && m < |s.maps| && NobodyOn(s, m) && NobodyOn(DoRead(s, r, act), m)
    ensures m < |DoRead(s, r, act).maps| && DoRead(s, r, act).maps[m] == s.maps[m]
  {
    ReadFrame(s, r, act);
    assert !On(s.readers[r], m) && !On(DoRead(s, r, act).readers[r], m);
  }

  /** How often a mapping changes over a list of its states. */
  function Changes(ps: seq<Mapping>): nat {
    if |ps| <= 1 then 0 else Changes(ps[..|ps| - 1]) + if ps[|ps| - 2] != ps[|ps| - 1] then 1 else 0
  }

  /** It stays as it is or takes one of its steps. */
  predicate StaysOrSteps(p: Mapping, q: Mapping) {
    Underway(p) ==> q == p || (Underway(q) && StepsLeft(q) == StepsLeft(p) - 1)
  }

  lemma {:induction false} ChangesRank(ps: seq<Mapping>)
    requires |ps| > 0 && Underway(ps[0]) && forall j | 0 < j < |ps| :: StaysOrSteps(ps[j - 1], ps[j])
    ensures Underway(ps[|ps| - 1]) && Changes(ps) + StepsLeft(ps[|ps| - 1]) == StepsLeft(ps[0])
  {
    var n := |ps| - 1;
    if n > 0 {
      ChangesRank(ps[..n]);
      assert StaysOrSteps(ps[n - 1], ps[n]);
    }
  }

  /** What mapping m is in states k to l of a run. */
  function History(run: seq<State>, m: nat, k: nat, l: nat): (ps: seq<Mapping>)
    requires k <= l < |run| && forall j | k <= j <= l :: m < |run[j].maps|
    ensures |ps| == l - k + 1 && forall j | 0 <= j <= l - k :: ps[j] == run[k + j].maps[m]
  {
    seq(l - k + 1, j requires 0 <= j <= l - k => run[k + j].maps[m])
  }

  lemma DoneStays(s: State, step: Step, m: nat)
    requires Inv(s) && Enabled(s, step) && m < |s.maps| && s.maps[m].phase.Done? && NobodyOn(s, m) && NobodyOn(Apply(s, step), m)
    ensures m < |Apply(s, step).maps| && Apply(s, step).maps[m] == s.maps[m]
  {
    match step
    case Read(r, act) => ReadElsewhere(s, r, act, m);
    case Retire(k, act) => RetireFrame(s, k, act);
    case _ =>
  }

  /** From one state to the next, with nobody on m. */
  lemma NextMove(run: seq<State>, m: nat, k: nat)
    requires IsRun(run) && k + 1 < |run| && NobodyOn(run[k], m) && NobodyOn(run[k + 1], m)
    requires m < |run[k].maps|
    ensures m < |run[k + 1].maps| && StaysOrSteps(run[k].maps[m], run[k + 1].maps[m])
  {
    var step := StepAt(run, k);
    InvAlongRun(run, k);
    StepAmongOthersAny(run[k], step, m);
  }

  lemma StepAmongOthersAny(s: State, step: Step, m: nat)
    requires Inv(s) && Enabled(s, step) && m < |s.maps| && NobodyOn(s, m) && NobodyOn(Apply(s, step), m)
    ensures m < |Apply(s, step).maps| && StaysOrSteps(s.maps[m], Apply(s, step).maps[m])
  {
    if s.maps[m].phase.Done? {
      DoneStays(s, step, m);
    } else if Retiring(s.maps[m].phase) {
      StepAmongOthers(s, step, m);
    } else {
      MapsGrow(s, step);
    }
  }

  lemma MapsGrow(s: State, step: Step)
    requires Enabled(s, step)
    ensures |s.maps| <= |Apply(s, step).maps|
  {
    match step
    case Read(r, act) => ReadFrame(s, r, act);
    case Retire(k, act) => RetireFrame(s, k, act);
    case _ =>
  }

  lemma KnownPhase(run: seq<State>, m: nat, k: nat)
    requires IsRun(run) && k < |run| && m < |run[k].maps|
    ensures PhaseOk(run[k].maps[m])
  {
    InvAlongRun(run, k);
  }

  lemma {:induction false} MappingStays(run: seq<State>, m: nat, k: nat, l: nat)
    requires IsRun(run) && k <= l < |run| && m < |run[k].maps|
    ensures forall j | k <= j <= l :: m < |run[j].maps|
  {
    if k < l {
      MappingStays(run, m, k, l - 1);
      var step := StepAt(run, l - 1);
      MapsGrow(run[l - 1], step);
    }
  }

  lemma HistorySteps(run: seq<State>, m: nat, k: nat, l: nat)
    requires IsRun(run) && k <= l < |run| && (forall j | k <= j <= l :: NobodyOn(run[j], m)) && forall j | k <= j <= l :: m < |run[j].maps|
    ensures var ps := History(run, m, k, l); forall j | 0 < j < |ps| :: StaysOrSteps(ps[j - 1], ps[j])
  {
    var ps := History(run, m, k, l);
    forall j | 0 < j < |ps|
      ensures StaysOrSteps(ps[j - 1], ps[j])
    {
      var i := k + j - 1;
      assert NobodyOn(run[i], m) && NobodyOn(run[i + 1], m);
      NextMove(run, m, i);
    }
  }

  /**
   As long as nobody is on m, every step of any goroutine either leaves m as it is or is one of the at most
   72 + 2 * SCAN steps that lead to its end; with OneAct, only a goroutine that stops taking steps keeps m mapped.
  */
  lemma FinishesAmongOthers(run: seq<State>, m: nat, k: nat, l: nat)
    requires IsRun(run) && k <= l < |run| && m < |run[k].maps| && Retiring(run[k].maps[m].phase)
    requires forall j | k <= j <= l :: NobodyOn(run[j], m)
    ensures (forall j | k <= j <= l :: m < |run[j].maps|) && Underway(run[k].maps[m]) && Underway(run[l].maps[m])
    ensures Changes(History(run, m, k, l)) + StepsLeft(run[l].maps[m]) == StepsLeft(run[k].maps[m]) <= 72 + 2 * SCAN
  {
    KnownPhase(run, m, k);
    MappingStays(run, m, k, l);
    HistorySteps(run, m, k, l);
    ChangesRank(History(run, m, k, l));
    RankBound(run[k].maps[m]);
  }

  // ---------------------------------------------------------------------- stragglers --

  /** The steps a goroutine that refers to m can still take before it has left m for good. */
  function StepsOn(m: nat): Reader -> int {
    (x: Reader) =>
      match x
      case Idle => 0
      case Starting(_, _) => 0
      case Loaded(k, _, op) => if k == m then op.Keys() + 4 else 0
      case Entered(k, _, op) => if k == m then op.Keys() + 3 else 0
      case BackingOff(k, _, _) => if k == m then 1 else 0
      case Inside(k, _, op, counted, noted) => if k == m then op.Keys() - noted + (if counted then 1 else 2) else 0
  }

  predicate Refers(x: Reader, m: nat) {
    !x.Idle? && !x.Starting? && x.m == m
  }

  /** Nobody comes back to a mapping that is no longer current: its readers' steps run out. */
  lemma StragglersFall(s: State, step: Step, m: nat)
    requires Inv(s) && Enabled(s, step) && s.cur != Some(m)
    ensures Total(Apply(s, step).readers, StepsOn(m))
      == Total(s.readers, StepsOn(m)) - if step.Read? && Refers(s.readers[step.r], m) then StepsTaken(s, step.r, step.read, m) else 0
    ensures step.Read? && Refers(s.readers[step.r], m) ==> StepsTaken(s, step.r, step.read, m) >= 1
  {
    match step
    case Spawn => TotalAppend(s.readers, Idle, StepsOn(m));
    case Read(r, act) =>
      ReadFrame(s, r, act);
      TotalUpdate(s.readers, r, DoRead(s, r, act).readers[r], StepsOn(m));
      StepTaken(s, r, act, m);
    case Retire(k, act) => RetireFrame(s, k, act);
    case _ =>
  }

  function StepsTaken(s: State, r: nat, act: ReadAct, m: nat): int
    requires CanRead(s, r, act)
  {
    ReadFrame(s, r, act);
    StepsOn(m)(s.readers[r]) - StepsOn(m)(DoRead(s, r, act).readers[r])
  }

  lemma StepTaken(s: State, r: nat, act: ReadAct, m: nat)
    requires CanRead(s, r, act) && RefOk(s, s.readers[r]) && s.cur != Some(m)
    ensures if Refers(s.readers[r], m) then StepsTaken(s, r, act, m) >= 1 else StepsTaken(s, r, act, m) == 0
  {
  }

  // ------------------------------------------------------------------ what it unblocks --

  /** What Close waits for itself is what it swapped out. */
  predicate LastOk(s: State) {
    s.closer.Closing? && s.closer.last.Some? ==> s.closer.last.value < |s.maps| && s.maps[s.closer.last.value].byClose
  }

  lemma LastPreserved(s: State, step: Step)
    requires LastOk(s) && CurrentOk(s) && Enabled(s, step)
    ensures LastOk(Apply(s, step))
  {
    match step
    case Read(r, act) => ReadFrame(s, r, act);
    case Retire(k, act) => RetireFrame(s, k, act); ByCloseKept(s, k, act);
    case _ =>
  }

  lemma ByCloseKept(s: State, m: nat, act: RetireAct)
    requires CanRetire(s, m, act)
    ensures DoRetire(s, m, act).maps[m].byClose == s.maps[m].byClose
  {
  }

  lemma {:induction false} LastAlongRun(run: seq<State>, k: nat)
    requires IsRun(run) && k < |run|
    ensures LastOk(run[k])
  {
    if k > 0 {
      LastAlongRun(run, k - 1);
      var step := StepAt(run, k - 1);
      LastPreserved(run[k - 1], step);
    }
  }

  /** Once every mapping that was replaced or closed is done, Close returns. */
  lemma CloseMayReturn(s: State)
    requires Reachable(s) && s.closer.Closing? && forall m | 0 <= m < |s.maps| :: !Retiring(s.maps[m].phase)
    ensures CloseCanReturn(s)
  {
    ReachableInv(s);
    TotalZero(s.maps, WaitUnit());
    var run: seq<State> :| IsRun(run) && run[|run| - 1] == s;
    LastAlongRun(run, |run| - 1);
    if s.closer.last.Some? {
      assert PhaseOk(s.maps[s.closer.last.value]);
    }
  }

  /** A publish waits only while two replaced mappings await their release. */
  lemma PublishMayProceed(s: State, m: nat)
    requires Reachable(s) && m < |s.maps| && s.maps[m].phase.Fresh? && !s.closed
    ensures CanPublish(s, m) <==> forall a, b | 0 <= a < b < |s.maps| :: !(Awaiting(s.maps[a]) && Awaiting(s.maps[b]))
  {
    ReachableInv(s);
    if exists a: nat :: a < |s.maps| && Awaiting(s.maps[a]) {
      var a: nat :| a < |s.maps| && Awaiting(s.maps[a]);
      if forall b: nat | b < |s.maps| && b != a :: !Awaiting(s.maps[b]) {
        OneUnit(s.maps, a);
      } else {
        var b: nat :| b < |s.maps| && b != a && Awaiting(s.maps[b]);
        TwoUnits(s.maps, if a < b then a else b, if a < b then b else a);
      }
    } else {
      NoUnits(s.maps);
    }
  }

  lemma NoUnits(maps: seq<Mapping>)
    requires forall b: nat | b < |maps| :: !Awaiting(maps[b])
    ensures Total(maps, PendingUnit()) == 0
  {
    TotalZero(maps, PendingUnit());
  }

  lemma OneUnit(maps: seq<Mapping>, a: nat)
    requires a < |maps| && Awaiting(maps[a]) && forall b: nat | b < |maps| && b != a :: !Awaiting(maps[b])
    ensures Total(maps, PendingUnit()) == 1
  {
    TotalSingle(maps, a, PendingUnit());
  }

  lemma TwoUnits(maps: seq<Mapping>, a: nat, b: nat)
    requires a < b < |maps| && Awaiting(maps[a]) && Awaiting(maps[b])
    ensures Total(maps, PendingUnit()) >= 2
  {
    assert maps == maps[..b] + maps[b..];
    TotalConcat(maps[..b], maps[b..], PendingUnit());
    TotalMember(maps[..b], a, PendingUnit());
    TotalMember(maps[b..], 0, PendingUnit());
  }

  /** Goroutines can start and files can be opened at any time, and Close called whatever is going on. */
  lemma NothingBlocks(s: State)
    requires Reachable(s)
    ensures Enabled(s, Spawn) && Enabled(s, OpenFile) && (!s.closed ==> Enabled(s, CloseSwap))
    ensures Apply(s, Spawn).readers == s.readers + [Idle] && |Apply(s, OpenFile).maps| == |s.maps| + 1
  {
    ReachableInv(s);
  }

  /** On a closed Map a publish is refused at once, and its caller unmaps the new mapping. */
  lemma ClosedRefuses(s: State, m: nat)
    requires Reachable(s) && s.closed && m < |s.maps| && s.maps[m].phase.Fresh?
    ensures CanRetire(s, m, Refuse) && !CanPublish(s, m)
    ensures DoRetire(s, m, Refuse) == s.(maps := s.maps[m := s.maps[m].(phase := Refused, unmaps := 1)])
  {
    ReachableInv(s);
    assert PhaseOk(s.maps[m]);
  }

  /** Once the Map is closed, a goroutine that looks for the current mapping is turned away. */
  lemma ClosedTurnsAway(s: State, r: nat)
    requires Reachable(s) && s.closed && CanRead(s, r, Load)
    ensures DoRead(s, r, Load) == s.(readers := s.readers[r := Idle])
  {
    ReachableInv(s);
  }

  // ------------------------------------------------------------------------- readers --

  /** Check lets a reader in exactly if its mapping has not been retired; otherwise it backs off. */
  lemma CheckIff(s: State, r: nat)
    requires Reachable(s) && CanRead(s, r, Check)
    ensures var x, y := s.readers[r], DoRead(s, r, Check).readers[r]; var p := s.maps[x.m].phase;
      y == if p.Current? || p.Swapped? then Inside(x.m, x.stripe, x.op, x.op.Lookup?, 0) else BackingOff(x.m, x.stripe, x.op)
  {
    ReachableInv(s);
    assert RefOk(s, s.readers[r]) && PhaseOk(s.maps[s.readers[r].m]);
  }

  /** A reader whose load, enter and check meet no swap gets inside the current mapping. */
  lemma GetsInside(s: State, r: nat) returns (t: State)
    requires Reachable(s) && ReaderAt(s, r) && s.readers[r].Starting? && s.cur.Some?
    ensures var x, c := s.readers[r], s.cur.value;
      && Reachable(t) && c < |s.maps| && x.stripe < |s.maps[c].stripes|
      && var e := s.maps[c].stripes[x.stripe];
        t == WithReader(WithStripe(s, c, x.stripe, e.(enter := e.enter + 1)), r, Inside(c, x.stripe, x.op, x.op.Lookup?, 0))
  {
    ReachableInv(s);
    assert RefOk(s, s.readers[r]) && PhaseOk(s.maps[s.cur.value]);
    t := ReachRead(s, r, Load);
    t := ReachRead(t, r, Enter);
    t := ReachRead(t, r, Check);
  }

  /** From inside, an operation counts itself, if it does, */
  lemma CountsItself(s: State, r: nat) returns (t: State)
    requires Reachable(s) && ReaderAt(s, r) && s.readers[r].Inside? && s.readers[r].counted == s.readers[r].op.Lookup?
    ensures var x := s.readers[r]; Reachable(t) && x.m < |s.maps| && t == s.(readers := s.readers[r := x.(counted := true)], maps := t.maps)
    ensures var x := s.readers[r]; |t.maps| == |s.maps| && Lookups(t.maps[x.m]) == Lookups(s.maps[x.m]) + x.op.Keys() - 1
  {
    ReachableInv(s);
    var x := s.readers[r];
    assert RefOk(s, x) && PhaseOk(s.maps[x.m]);
    t := s;
    if !x.counted {
      CountersAfterRead(s, r, Count);
      t := ReachRead(s, r, Count);
    } else {
      assert s.readers[r := x] == s.readers;
    }
  }

  /** and ends. */
  lemma EndsCounted(s: State, r: nat) returns (t: State)
    requires Reachable(s) && ReaderAt(s, r) && s.readers[r].Inside? && s.readers[r].counted == s.readers[r].op.Lookup?
    ensures var x := s.readers[r];
      && Reachable(t) && |t.maps| == |s.maps| && x.m < |s.maps|
      && t == s.(readers := s.readers[r := Idle], maps := t.maps, served := s.served + x.op.Keys())
      && Lookups(t.maps[x.m]) == Lookups(s.maps[x.m]) + x.op.Keys()
  {
    t := CountsItself(s, r);
    ReachableInv(t);
    assert RefOk(t, t.readers[r]) && PhaseOk(t.maps[t.readers[r].m]);
    CountersAfterRead(t, r, Exit);
    t := ReachRead(t, r, Exit);
  }

  /** So an operation that begins while a mapping is current is served, and Lookups() grows by its keys. */
  lemma ServedAlone(s: State, r: nat) returns (t: State)
    requires Reachable(s) && ReaderAt(s, r) && s.readers[r].Starting? && s.cur.Some?
    ensures s.cur.value < |s.maps| && t.cur == s.cur && |t.maps| == |s.maps|
    ensures Reachable(t) && t.readers == s.readers[r := Idle] && t.served == s.served + s.readers[r].op.Keys()
    ensures ReportedLookups(t) == ReportedLookups(s) + s.readers[r].op.Keys()
  {
    var mid := GetsInside(s, r);
    var x, c := s.readers[r], s.cur.value;
    var e := s.maps[c].stripes[x.stripe];
    TotalUpdate(s.maps[c].stripes, x.stripe, e.(enter := e.enter + 1), ExitOf());
    t := EndsCounted(mid, r);
  }

  /** A lookup, a batch of at least one key on any stripe, or a scan on the first one. */
  predicate Offered(stripe: nat, op: Op) {
    stripe < 32 && (op.Batch? ==> op.keys > 0) && (op.Other? ==> stripe == 0)
  }

  /** So is every operation of an idle goroutine, from its beginning. */
  lemma OperationServed(s: State, r: nat, stripe: nat, op: Op) returns (t: State)
    requires Reachable(s) && r < |s.readers| && s.readers[r].Idle? && s.cur.Some? && Offered(stripe, op)
    ensures s.cur.value < |s.maps| && t.cur == s.cur && |t.maps| == |s.maps|
    ensures Reachable(t) && t.readers == s.readers && t.served == s.served + op.Keys()
    ensures ReportedLookups(t) == ReportedLookups(s) + op.Keys()
  {
    var mid := ReachRead(s, r, Begin(stripe, op));
    t := ServedAlone(mid, r);
    assert t.readers == s.readers;
  }
}
