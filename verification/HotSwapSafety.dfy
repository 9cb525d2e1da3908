/** What the hot-swap protocol guarantees on every run. */
module HotSwapSafety {
  import opened Totals
  import opened Words
  import opened HotSwap
  import opened HotSwapInvariant

  lemma ReachableInv(s: State)
    requires Reachable(s)
    ensures Inv(s)
  {
    var run: seq<State> :| IsRun(run) && run[|run| - 1] == s;
    InvAlongRun(run, |run| - 1);
  }

  // ----------------------------------------------------------- retirement --

  /** A goroutine between a successful enter and its exit reads a mapping that is still mapped. */
  lemma NoUseAfterUnmap(run: seq<State>, k: nat, r: nat)
    requires IsRun(run) && k < |run| && r < |run[k].readers| && run[k].readers[r].Inside?
    ensures var m := run[k].readers[r].m;
      m < |run[k].maps| && Mapped(run[k].maps[m].phase) && run[k].maps[m].unmaps == 0
  {
    InvAlongRun(run, k);
    assert RefOk(run[k], run[k].readers[r]);
  }

  /** Once retired is set and a drain has succeeded, nobody is inside, whatever readers still do. */
  lemma DrainedStaysEmpty(run: seq<State>, k: nat, m: nat)
    requires IsRun(run) && k < |run| && m < |run[k].maps| && !Live(run[k].maps[m].phase)
    ensures forall r | 0 <= r < |run[k].readers| :: !(run[k].readers[r].Inside? && run[k].readers[r].m == m)
  {
    InvAlongRun(run, k);
    forall r | 0 <= r < |run[k].readers|
      ensures !(run[k].readers[r].Inside? && run[k].readers[r].m == m)
    {
      assert RefOk(run[k], run[k].readers[r]);
    }
  }

  predicate Awaiting(p: Mapping) { PendingUnit()(p) == 1 }

  /** pending never exceeds maxRetired, so at most two replaced mappings await their release. */
  lemma AtMostTwoPending(s: State, a: nat, b: nat, c: nat)
    requires Reachable(s) && a < b < c < |s.maps|
    ensures 0 <= s.pending <= 2
    ensures !(Awaiting(s.maps[a]) && Awaiting(s.maps[b]) && Awaiting(s.maps[c]))
  {
    ReachableInv(s);
    TotalThree(s.maps, a, b, c, PendingUnit());
  }

  lemma StepAt(run: seq<State>, k: nat) returns (step: Step)
    requires IsRun(run) && k + 1 < |run|
    ensures CurrentOk(run[k]) && Enabled(run[k], step) && run[k + 1] == Apply(run[k], step)
  {
    InvAlongRun(run, k);
    assert NextAt(run, k);
    step :| Enabled(run[k], step) && run[k + 1] == Apply(run[k], step);
  }

  lemma UnmapsGrow(s: State, step: Step, m: nat)
    requires Enabled(s, step) && m < |s.maps|
    ensures var t := Apply(s, step); m < |t.maps| && s.maps[m].unmaps <= t.maps[m].unmaps
  {
    match step
    case Read(r, act) => ReadFrame(s, r, act);
    case Retire(i, act) => RetireFrame(s, i, act);
    case _ =>
  }

  /** A mapping is unmapped at most once, never while it is current, and stays unmapped. */
  lemma UnmappedOnce(run: seq<State>, k: nat, m: nat)
    requires IsRun(run) && k < |run| && m < |run[k].maps|
    ensures run[k].maps[m].unmaps == if Mapped(run[k].maps[m].phase) then 0 else 1
    ensures run[k].cur == Some(m) ==> Mapped(run[k].maps[m].phase)
    ensures k + 1 < |run| ==> m < |run[k + 1].maps| && run[k].maps[m].unmaps <= run[k + 1].maps[m].unmaps
  {
    InvAlongRun(run, k);
    assert PhaseOk(run[k].maps[m]);
    if k + 1 < |run| {
      var step := StepAt(run, k);
      UnmapsGrow(run[k], step, m);
    }
  }

  // --------------------------------------------------------- conservation --

  predicate Quiescent(s: State) {
    forall r | 0 <= r < |s.readers| :: !s.readers[r].Inside?
  }

  /**
   With nobody inside, what is already in retiredLookups plus the counts of the mappings not yet
   accounted is every key looked up; a batch of k keys counted k, Scan, Len and back-offs nothing.
   Misses balance in every state, and never exceed lookups.
   */
  lemma LookupConservation(s: State)
    requires Reachable(s)
    ensures Quiescent(s) ==> s.retiredLookups + Total(s.maps, Uncredited()) == s.served
    ensures s.retiredMisses + Total(s.maps, UncreditedMisses()) == s.missed
    ensures Quiescent(s) ==> s.missed <= s.served
  {
    ReachableInv(s);
    if Quiescent(s) {
      TotalZero(s.readers, Credit());
      TotalZero(s.readers, Noted());
    }
  }

  // ---------------------------------------------------------------- Close --

  /** A publish has swapped mapping m out but not yet reached retireWG.Add. */
  predicate InWindow(s: State, m: nat)
    requires m < |s.maps|
  {
    (s.maps[m].phase.Swapped? || s.maps[m].phase.Flagged?) && !s.maps[m].byClose
  }

  predicate AllUnmapped(s: State) {
    forall m | 0 <= m < |s.maps| :: Published(s.maps[m].phase) ==> !Mapped(s.maps[m].phase)
  }

  /** When Close returns, every published mapping is unmapped exactly if no publish is in its window. */
  lemma CloseUnmapsAllIff(s: State)
    requires Reachable(s) && CloseCanReturn(s)
    ensures AllUnmapped(s) <==> forall m: nat | m < |s.maps| :: !InWindow(s, m)
  {
    ReachableInv(s);
    forall m: nat | m < |s.maps|
      ensures Published(s.maps[m].phase) && Mapped(s.maps[m].phase) <==> InWindow(s, m)
    {
      TotalMember(s.maps, m, WaitUnit());
      assert CloserOk(s, m) && PhaseOk(s.maps[m]);
    }
  }

  predicate Finished(s: State) {
    s.closed && forall m | 0 <= m < |s.maps| :: s.maps[m].phase.Fresh? || s.maps[m].phase.Refused? || s.maps[m].phase.Done?
  }

  lemma FinishedAtReturn(s: State)
    requires Inv(s) && CloseCanReturn(s) && forall m: nat | m < |s.maps| :: !InWindow(s, m)
    ensures Finished(s)
  {
    forall m: nat | m < |s.maps|
      ensures s.maps[m].phase.Fresh? || s.maps[m].phase.Refused? || s.maps[m].phase.Done?
    {
      TotalMember(s.maps, m, WaitUnit());
      assert CloserOk(s, m) && PhaseOk(s.maps[m]) && !InWindow(s, m);
    }
  }

  lemma FinishedPreserved(s: State, step: Step)
    requires Finished(s) && CurrentOk(s) && Enabled(s, step)
    ensures Finished(Apply(s, step))
  {
    match step
    case Read(r, act) => ReadFrame(s, r, act);
    case Retire(i, act) => RetireFrame(s, i, act);
    case _ =>
  }

  lemma FinishedStep(run: seq<State>, k: nat)
    requires IsRun(run) && k + 1 < |run| && Finished(run[k])
    ensures Finished(run[k + 1])
  {
    var step := StepAt(run, k);
    FinishedPreserved(run[k], step);
  }

  lemma {:induction false} FinishedForever(run: seq<State>, k: nat, l: nat)
    requires IsRun(run) && k <= l < |run| && Finished(run[k])
    ensures Finished(run[l])
  {
    if k < l {
      FinishedForever(run, k, l - 1);
      FinishedStep(run, l - 1);
    }
  }

  /** If Close returned with no publish in its window, no published mapping is mapped ever after. */
  lemma NothingMappedAfterClose(run: seq<State>, k: nat, l: nat)
    requires IsRun(run) && k <= l < |run|
    requires CloseCanReturn(run[k]) && forall m: nat | m < |run[k].maps| :: !InWindow(run[k], m)
    ensures AllUnmapped(run[l])
  {
    InvAlongRun(run, k);
    FinishedAtReturn(run[k]);
    FinishedForever(run, k, l);
  }

  // ------------------------------------------- Close racing with a publish --

  lemma ReachStep(s: State, step: Step)
    requires Reachable(s) && Enabled(s, step)
    ensures Reachable(Apply(s, step))
  {
    var run: seq<State> :| IsRun(run) && run[|run| - 1] == s;
    var longer := run + [Apply(s, step)];
    forall k: nat | k + 1 < |longer|
      ensures NextAt(longer, k)
    {
      if k + 1 < |run| {
        assert NextAt(run, k);
      }
    }
    assert IsRun(longer) && longer[|longer| - 1] == Apply(s, step);
  }

  /** The retiring goroutine's phase when it has read i stripes of an untouched mapping. */
  predicate AtStripe(p: Phase, i: nat) {
    i < STRIPES && (p == ExitScan(i, 0) || p == EnterScan(i, 0, 0) || p == SumExits(i, 0) || p == SumMisses(i, 0))
  }

  function ReadOf(p: Phase): RetireAct {
    if p.ExitScan? then ReadExit else if p.EnterScan? then ReadEnter else if p.SumExits? then SumExit else SumMiss
  }

  function AfterAllStripes(p: Phase): Phase {
    if p.ExitScan? then EnterScan(0, 0, 0) else if p.EnterScan? then EnterScan(STRIPES, 0, 0)
    else if p.SumExits? then SumExits(STRIPES, 0) else SumMisses(STRIPES, 0)
  }

  function NextStripe(p: Phase, i: nat): Phase {
    if i + 1 == STRIPES && p.ExitScan? then EnterScan(0, 0, 0)
    else if p.ExitScan? then ExitScan(i + 1, 0) else if p.EnterScan? then EnterScan(i + 1, 0, 0)
    else if p.SumExits? then SumExits(i + 1, 0) else SumMisses(i + 1, 0)
  }

  lemma ReadOneStripe(s: State, m: nat, i: nat)
    requires m < |s.maps| && Untouched(s.maps[m]) && AtStripe(s.maps[m].phase, i)
    ensures CanRetire(s, m, ReadOf(s.maps[m].phase))
    ensures DoRetire(s, m, ReadOf(s.maps[m].phase)) == WithPhase(s, m, NextStripe(s.maps[m].phase, i))
  {
  }

  /** Reading all remaining stripes of an untouched mapping, one step at a time. */
  lemma {:induction false} ReadAllStripes(s: State, m: nat, i: nat) returns (t: State)
    requires Reachable(s) && m < |s.maps| && Untouched(s.maps[m]) && AtStripe(s.maps[m].phase, i)
    ensures Reachable(t) && t == WithPhase(s, m, AfterAllStripes(s.maps[m].phase))
    decreases STRIPES - i
  {
    ReadOneStripe(s, m, i);
    t := ReachRetire(s, m, ReadOf(s.maps[m].phase));
    if i + 1 < STRIPES {
      t := ReadAllStripes(t, m, i + 1);
    }
  }

  lemma ReachRetire(s: State, m: nat, act: RetireAct) returns (t: State)
    requires Reachable(s) && CanRetire(s, m, act)
    ensures Reachable(t) && t == DoRetire(s, m, act)
  {
    ReachStep(s, Retire(m, act));
    t := Apply(s, Retire(m, act));
  }

  /** Close drains the mapping it swapped out itself, which nobody has used. */
  lemma CloseDrains(s: State, m: nat) returns (t: State)
    requires Reachable(s) && m < |s.maps| && Untouched(s.maps[m]) && s.maps[m].phase.Swapped? && s.maps[m].byClose
    ensures Reachable(t) && t == s.(maps := s.maps[m := s.maps[m].(phase := Drained, retired := true)])
  {
    t := ReachRetire(s, m, Flag);
    t := ReachRetire(t, m, Launch);
    t := ReadAllStripes(t, m, 0);
    t := ReadAllStripes(t, m, 0);
    t := ReachRetire(t, m, Decide);
  }

  lemma CloseSumsLookups(s: State, m: nat) returns (t: State)
    requires Reachable(s) && m < |s.maps| && Untouched(s.maps[m]) && s.maps[m].phase.Drained?
    ensures Reachable(t) && t == WithPhase(s, m, AddLookups(0))
  {
    t := ReachRetire(s, m, GraceOver);
    t := ReadAllStripes(t, m, 0);
    t := ReachRetire(t, m, LoadNon);
    t := ReachRetire(t, m, LoadExtra);
  }

  lemma CloseSumsMisses(s: State, m: nat) returns (t: State)
    requires Reachable(s) && m < |s.maps| && Untouched(s.maps[m]) && s.maps[m].phase == AddLookups(0)
    ensures Reachable(t) && t == WithPhase(s, m, Settled)
  {
    t := ReachRetire(s, m, Account);
    t := ReadAllStripes(t, m, 0);
    t := ReachRetire(t, m, AccountMiss);
  }

  lemma CloseReturns(s: State, m: nat) returns (t: State)
    requires Reachable(s) && s.closer == Closing(Some(m)) && m < |s.maps| && Untouched(s.maps[m])
    requires s.maps[m].phase.Swapped? && s.maps[m].byClose && s.wg == 0
    ensures Reachable(t) && t.closer.Returned? && |t.maps| == |s.maps|
    ensures forall i | 0 <= i < |s.maps| && i != m :: t.maps[i] == s.maps[i]
  {
    t := CloseDrains(s, m);
    t := CloseSumsLookups(t, m);
    t := CloseSumsMisses(t, m);
    t := ReachRetire(t, m, Unmap);
    t := ReachRetire(t, m, Finish);
    ReachStep(t, CloseReturn);
    t := Apply(t, CloseReturn);
  }

  /** A reload that stops right after its swap, and Close right after it. */
  function ReloadThenClose(): State {
    var p := NewMapping();
    State([p.(phase := Swapped), p.(phase := Swapped, byClose := true)], [], None, true, 1, 0, 0, 0, Closing(Some(1)), 0, 0)
  }

  lemma ReachReloadThenClose()
    ensures Reachable(ReloadThenClose())
  {
    var s := State([NewMapping().(phase := Current)], [], Some(0), false, 0, 0, 0, 0, NotCalled, 0, 0);
    assert IsRun([s]) && [s][|[s]| - 1] == s;
    ReachStep(s, OpenFile);
    s := Apply(s, OpenFile);
    ReachStep(s, Publish(1));
    s := Apply(s, Publish(1));
    ReachStep(s, CloseSwap);
    assert Apply(s, CloseSwap) == ReloadThenClose();
  }

  /** So Close can return while the mapping a concurrent reload replaced is still mapped. */
  lemma CloseCanReturnTooEarly() returns (s: State)
    ensures Reachable(s) && s.closer.Returned? && !AllUnmapped(s)
  {
    ReachReloadThenClose();
    s := CloseReturns(ReloadThenClose(), 1);
    assert Mapped(s.maps[0].phase) && Published(s.maps[0].phase);
  }
}
