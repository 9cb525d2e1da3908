/** When Lookups() and Misses() report exactly what has been served. */
module HotSwapCounts {
  import opened Totals
  import opened Words
  import opened HotSwap
  import opened HotSwapInvariant
  import opened HotSwapSafety

  /** Map.Lookups() and Map.Misses() */
  function ReportedLookups(s: State): int
    requires s.cur.Some? ==> s.cur.value < |s.maps|
  {
    s.retiredLookups + if s.cur.Some? then Lookups(s.maps[s.cur.value]) else 0
  }

  function ReportedMisses(s: State): int
    requires s.cur.Some? ==> s.cur.value < |s.maps|
  {
    s.retiredMisses + if s.cur.Some? then Misses(s.maps[s.cur.value]) else 0
  }

  // ------------------------------------------------- what a mapping has counted --

  /** What the operations inside mapping m have contributed to its lookups() beyond their own exits. */
  function CreditOn(m: nat): Reader -> int {
    (x: Reader) => if !x.Inside? || x.m != m || !x.counted then 0 else if x.op.Other? then -1 else x.op.Keys() - 1
  }

  /** The finished operations of a mapping never add up to less than nothing, nor do its misses. */
  predicate CountedAt(s: State, m: nat)
    requires m < |s.maps|
  {
    Lookups(s.maps[m]) >= Total(s.readers, CreditOn(m)) && Misses(s.maps[m]) >= 0
  }

  predicate CountedOk(s: State) {
    forall m: nat | m < |s.maps| :: CountedAt(s, m)
  }

  predicate CountsSomething(act: ReadAct) {
    act.Enter? || act.Undo? || act.Miss? || act.Exit? || act.Count?
  }

  /** How a reader's step moves its own credit. */
  lemma CreditAfterRead(s: State, r: nat, act: ReadAct, m: nat)
    requires CanRead(s, r, act) && RefOk(s, s.readers[r])
    ensures var x, y, f := s.readers[r], DoRead(s, r, act).readers[r], CreditOn(m);
      && (!CountsSomething(act) ==> f(y) == f(x))
      && (CountsSomething(act) && x.m != m ==> f(y) == f(x) == 0)
      && (act.Exit? && x.m == m ==> f(y) <= f(x) + 1)
      && (act.Count? && x.m == m ==> f(y) == f(x) + if x.op.Other? then -1 else x.op.Keys() - 1)
      && (act.Enter? || act.Undo? || act.Miss? ==> f(y) == f(x))
  {
  }

  lemma CountedAfterRead(s: State, r: nat, act: ReadAct, m: nat)
    requires CanRead(s, r, act) && RefOk(s, s.readers[r]) && m < |s.maps| && CountedAt(s, m)
    ensures m < |DoRead(s, r, act).maps| && CountedAt(DoRead(s, r, act), m)
  {
    ReadFrame(s, r, act);
    var t := DoRead(s, r, act);
    CreditAfterRead(s, r, act, m);
    TotalUpdate(s.readers, r, t.readers[r], CreditOn(m));
    if CountsSomething(act) {
      CountersAfterRead(s, r, act);
    } else {
      assert t.maps == s.maps;
    }
  }

  /** Nobody is inside a mapping that does not exist yet. */
  lemma NoCreditOnNew(s: State)
    requires ReadersOk(s)
    ensures Total(s.readers, CreditOn(|s.maps|)) == 0
  {
    forall r | 0 <= r < |s.readers|
      ensures CreditOn(|s.maps|)(s.readers[r]) == 0
    {
      assert RefOk(s, s.readers[r]);
    }
    TotalZero(s.readers, CreditOn(|s.maps|));
  }

  lemma CountedAfterOther(s: State, step: Step, m: nat)
    requires CurrentOk(s) && Enabled(s, step) && m < |s.maps| && CountedAt(s, m) && !step.Spawn? && !step.Read?
    ensures m < |Apply(s, step).maps| && CountedAt(Apply(s, step), m)
  {
    match step
    case Retire(k, act) => RetireFrame(s, k, act);
    case _ =>
  }

  lemma CountedPreservedAt(s: State, step: Step, m: nat)
    requires ReadersOk(s) && CurrentOk(s) && CountedOk(s) && Enabled(s, step) && m < |s.maps|
    ensures m < |Apply(s, step).maps| && CountedAt(Apply(s, step), m)
  {
    assert CountedAt(s, m);
    match step
    case Spawn => TotalAppend(s.readers, Idle, CreditOn(m));
    case Read(r, act) =>
      assert RefOk(s, s.readers[r]);
      CountedAfterRead(s, r, act, m);
    case _ => CountedAfterOther(s, step, m);
  }

  /** A mapping that has just been opened has counted nothing. */
  lemma CountedOnNew(s: State, step: Step, m: nat)
    requires ReadersOk(s) && Enabled(s, step) && |s.maps| <= m < |Apply(s, step).maps|
    ensures CountedAt(Apply(s, step), m)
  {
    NoCreditOnNew(s);
    NewMappingsSize(s, step);
    NothingOn(Apply(s, step).maps[m]);
  }

  lemma CountedPreserved(s: State, step: Step)
    requires ReadersOk(s) && CurrentOk(s) && CountedOk(s) && Enabled(s, step)
    ensures CountedOk(Apply(s, step))
  {
    forall m: nat | m < |Apply(s, step).maps|
      ensures CountedAt(Apply(s, step), m)
    {
      if m < |s.maps| {
        CountedPreservedAt(s, step, m);
      } else {
        CountedOnNew(s, step, m);
      }
    }
  }

  /** Only OpenFile adds a mapping, a new one. */
  lemma NewMappingsSize(s: State, step: Step)
    requires Enabled(s, step) && |Apply(s, step).maps| > |s.maps|
    ensures step.OpenFile? && |Apply(s, step).maps| == |s.maps| + 1 && Untouched(Apply(s, step).maps[|s.maps|])
  {
    match step
    case Read(r, act) => ReadFrame(s, r, act);
    case Retire(m, act) => RetireFrame(s, m, act);
    case _ =>
  }

  lemma {:induction false} CountedAlongRun(run: seq<State>, k: nat)
    requires IsRun(run) && k < |run|
    ensures CountedOk(run[k])
  {
    if k == 0 {
      forall m: nat | m < |run[0].maps|
        ensures CountedAt(run[0], m)
      {
        NothingOn(run[0].maps[m]);
      }
    } else {
      CountedAlongRun(run, k - 1);
      InvAlongRun(run, k - 1);
      var step := StepAt(run, k - 1);
      CountedPreserved(run[k - 1], step);
    }
  }

  // ------------------------------------------------------------------- exactness --

  /** A replaced mapping that is not yet accounted has counted a lookup. */
  predicate OwesLookups(s: State, m: nat) {
    m < |s.maps| && s.cur != Some(m) && Published(s.maps[m].phase) && !Credited(s.maps[m].phase) && Lookups(s.maps[m]) > 0
  }

  /** A replaced mapping whose misses are not yet accounted has counted a miss. */
  predicate OwesMisses(s: State, m: nat) {
    m < |s.maps| && s.cur != Some(m) && Published(s.maps[m].phase) && !MissCredited(s.maps[m].phase) && Misses(s.maps[m]) > 0
  }

  /** With nobody inside, no mapping has counted less than nothing. */
  lemma CountsNonNegative(s: State, m: nat)
    requires Reachable(s) && m < |s.maps|
    ensures Quiescent(s) ==> Lookups(s.maps[m]) >= 0
    ensures Misses(s.maps[m]) >= 0
  {
    var run: seq<State> :| IsRun(run) && run[|run| - 1] == s;
    CountedAlongRun(run, |run| - 1);
    assert CountedAt(s, m);
    if Quiescent(s) {
      TotalZero(s.readers, CreditOn(m));
    }
  }

  /** A measure that is zero on what does not owe, and positive on what does, sums to zero beside `cur` exactly if nothing owes. */
  lemma SumBesides(maps: seq<Mapping>, cur: Option<nat>, f: Mapping -> int)
    requires cur.Some? ==> cur.value < |maps|
    requires forall m: nat | m < |maps| && cur != Some(m) :: f(maps[m]) >= 0
    ensures (Total(maps, f) == if cur.Some? then f(maps[cur.value]) else 0)
      <==> forall m: nat | m < |maps| && cur != Some(m) :: f(maps[m]) == 0
  {
    if forall m: nat | m < |maps| && cur != Some(m) :: f(maps[m]) == 0 {
      if cur.Some? {
        TotalSingle(maps, cur.value, f);
      } else {
        TotalZero(maps, f);
      }
    } else {
      var m: nat :| m < |maps| && cur != Some(m) && f(maps[m]) != 0;
      SumPositive(maps, cur, f, m);
    }
  }

  lemma {:induction false} SumPositive(maps: seq<Mapping>, cur: Option<nat>, f: Mapping -> int, m: nat)
    requires cur.Some? ==> cur.value < |maps|
    requires forall k: nat | k < |maps| && cur != Some(k) :: f(maps[k]) >= 0
    requires m < |maps| && cur != Some(m) && f(maps[m]) > 0
    ensures Total(maps, f) > if cur.Some? then f(maps[cur.value]) else 0
  {
    var n := |maps| - 1;
    if m == n {
      SumAtLeast(maps[..n], cur, f);
    } else if cur == Some(n) {
      TotalNonNegative(maps[..n], f);
      TotalMember(maps[..n], m, f);
    } else {
      SumPositive(maps[..n], cur, f, m);
    }
  }

  lemma {:induction false} SumAtLeast(maps: seq<Mapping>, cur: Option<nat>, f: Mapping -> int)
    requires cur.Some? ==> cur.value < |maps|
    requires forall k: nat | k < |maps| && cur != Some(k) :: f(maps[k]) >= 0
    ensures Total(maps, f) >= if cur.Some? then f(maps[cur.value]) else 0
  {
    if |maps| > 0 {
      var n := |maps| - 1;
      if cur == Some(n) {
        TotalNonNegative(maps[..n], f);
      } else {
        SumAtLeast(maps[..n], cur, f);
      }
    }
  }

  lemma NothingUnpublished(s: State, m: nat)
    requires Inv(s) && m < |s.maps| && !Published(s.maps[m].phase)
    ensures Lookups(s.maps[m]) == 0 && Misses(s.maps[m]) == 0
  {
    NothingOn(s.maps[m]);
  }

  /** With nobody inside, Lookups() is every key served if and only if no replaced, unaccounted mapping has counted a lookup. */
  lemma LookupsExactIff(s: State)
    requires Reachable(s) && Quiescent(s)
    ensures s.cur.Some? ==> s.cur.value < |s.maps|
    ensures ReportedLookups(s) == s.served <==> forall m :: !OwesLookups(s, m)
    ensures ReportedLookups(s) <= s.served
  {
    ReachableInv(s);
    LookupConservation(s);
    forall m: nat | m < |s.maps|
      ensures Uncredited()(s.maps[m]) >= 0 && (s.cur != Some(m) ==> (Uncredited()(s.maps[m]) == 0 <==> !OwesLookups(s, m)))
    {
      CountsNonNegative(s, m);
      if !Published(s.maps[m].phase) {
        NothingUnpublished(s, m);
      }
    }
    SumBesides(s.maps, s.cur, Uncredited());
    SumAtLeast(s.maps, s.cur, Uncredited());
  }

  /** In every state, Misses() is every key reported absent if and only if no replaced, unaccounted mapping has counted a miss. */
  lemma MissesExactIff(s: State)
    requires Reachable(s)
    ensures s.cur.Some? ==> s.cur.value < |s.maps|
    ensures ReportedMisses(s) == s.missed <==> forall m :: !OwesMisses(s, m)
    ensures ReportedMisses(s) <= s.missed
  {
    ReachableInv(s);
    LookupConservation(s);
    forall m: nat | m < |s.maps|
      ensures UncreditedMisses()(s.maps[m]) >= 0 && (s.cur != Some(m) ==> (UncreditedMisses()(s.maps[m]) == 0 <==> !OwesMisses(s, m)))
    {
      CountsNonNegative(s, m);
      if !Published(s.maps[m].phase) {
        NothingUnpublished(s, m);
      }
    }
    SumBesides(s.maps, s.cur, UncreditedMisses());
    SumAtLeast(s.maps, s.cur, UncreditedMisses());
  }

  // ------------------------------------------------------- a run that is short --

  lemma ReachRead(s: State, r: nat, act: ReadAct) returns (t: State)
    requires Reachable(s) && CanRead(s, r, act)
    ensures Reachable(t) && t == DoRead(s, r, act)
  {
    ReachStep(s, Read(r, act));
    t := Apply(s, Read(r, act));
  }

  /** The counters of a mapping's first stripe. */
  function Touched(c: Stripe): Mapping {
    var p := NewMapping();
    p.(phase := Current, stripes := p.stripes[0 := c])
  }

  /** One reader on the first mapping. */
  function OneReader(c: Stripe, x: Reader, served: nat, missed: nat): State {
    State([Touched(c)], [x], Some(0), false, 0, 0, 0, 0, NotCalled, served, missed)
  }

  lemma ReadsAre(c: Stripe, x: Reader, d: Stripe, y: Reader, act: ReadAct, n: nat, n2: nat, k: nat, k2: nat)
    requires CanRead(OneReader(c, x, n, k), 0, act) && DoRead(OneReader(c, x, n, k), 0, act).readers == [y]
    requires DoRead(OneReader(c, x, n, k), 0, act).served == n2 && DoRead(OneReader(c, x, n, k), 0, act).missed == k2
    requires DoRead(OneReader(c, x, n, k), 0, act).maps == [Touched(d)] && Reachable(OneReader(c, x, n, k))
    ensures Reachable(OneReader(d, y, n2, k2))
  {
    var t := ReachRead(OneReader(c, x, n, k), 0, act);
    ReadFrame(OneReader(c, x, n, k), 0, act);
    assert t == OneReader(d, y, n2, k2);
  }

  lemma ReachSpawned()
    ensures Reachable(OneReader(Stripe(0, 0, 0), Idle, 0, 0))
  {
    var s := State([NewMapping().(phase := Current)], [], Some(0), false, 0, 0, 0, 0, NotCalled, 0, 0);
    assert IsRun([s]) && [s][|[s]| - 1] == s;
    ReachStep(s, Spawn);
    assert Touched(Stripe(0, 0, 0)).stripes == NewMapping().stripes;
    assert Apply(s, Spawn) == OneReader(Stripe(0, 0, 0), Idle, 0, 0);
  }

  lemma TouchedUpdate(c: Stripe, d: Stripe)
    ensures |Touched(c).stripes| == STRIPES && Touched(c).stripes[0] == c && !Touched(c).retired
    ensures Touched(c).(stripes := Touched(c).stripes[0 := d]) == Touched(d)
  {
  }

  /** The first half of a lookup: enter. */
  lemma ReachInside()
    ensures Reachable(OneReader(Stripe(1, 0, 0), Inside(0, 0, Lookup, true, 0), 0, 0))
  {
    var z, e := Stripe(0, 0, 0), Stripe(1, 0, 0);
    ReachSpawned();
    TouchedUpdate(z, e);
    TouchedUpdate(e, e);
    ReadsAre(z, Idle, z, Starting(0, Lookup), Begin(0, Lookup), 0, 0, 0, 0);
    ReadsAre(z, Starting(0, Lookup), z, Loaded(0, 0, Lookup), Load, 0, 0, 0, 0);
    ReadsAre(z, Loaded(0, 0, Lookup), e, Entered(0, 0, Lookup), Enter, 0, 0, 0, 0);
    ReadsAre(e, Entered(0, 0, Lookup), e, Inside(0, 0, Lookup, true, 0), Check, 0, 0, 0, 0);
  }

  /** A finished lookup of an absent key. */
  lemma ReachOneLookup()
    ensures Reachable(OneReader(Stripe(1, 1, 1), Idle, 1, 1))
  {
    var e, n, x := Stripe(1, 0, 0), Stripe(1, 0, 1), Stripe(1, 1, 1);
    ReachInside();
    TouchedUpdate(e, n);
    TouchedUpdate(n, x);
    ReadsAre(e, Inside(0, 0, Lookup, true, 0), n, Inside(0, 0, Lookup, true, 1), Miss, 0, 0, 0, 1);
    ReadsAre(n, Inside(0, 0, Lookup, true, 1), x, Idle, Exit, 0, 1, 1, 1);
  }

  /** A reload of a Map with one mapping. */
  lemma Reloads(s: State) returns (t: State, p: Mapping)
    requires Reachable(s) && |s.maps| == 1 && s.cur == Some(0) && !s.closed && s.pending == 0
    ensures Reachable(t) && Untouched(p)
    ensures t == s.(maps := [s.maps[0].(phase := Swapped), p], cur := Some(1), pending := 1)
  {
    ReachStep(s, OpenFile);
    var mid := Apply(s, OpenFile);
    ReachStep(mid, Publish(1));
    t, p := Apply(mid, Publish(1)), mid.maps[1].(phase := Current);
  }

  /** One lookup of an absent key, then a reload: both counts fall back to zero until the replaced mapping is accounted. */
  lemma CountsCanFallShort() returns (s: State)
    ensures Reachable(s) && Quiescent(s) && s.cur == Some(1) && |s.maps| == 2
    ensures s.served == 1 && s.missed == 1 && ReportedLookups(s) == 0 && ReportedMisses(s) == 0
  {
    ReachOneLookup();
    s := ForgetsAfterReload(OneReader(Stripe(1, 1, 1), Idle, 1, 1));
  }

  /** What an idle handle has served is not reported after a reload, until the replaced mapping is accounted. */
  lemma ForgetsAfterReload(s: State) returns (t: State)
    requires Reachable(s) && |s.maps| == 1 && s.cur == Some(0) && !s.closed && s.pending == 0 && s.readers == [Idle]
    requires s.retiredLookups == 0 && s.retiredMisses == 0
    ensures Reachable(t) && Quiescent(t) && t.cur == Some(1) && |t.maps| == 2 && t.served == s.served && t.missed == s.missed
    ensures ReportedLookups(t) == 0 && ReportedMisses(t) == 0
  {
    var p;
    t, p := Reloads(s);
    NothingOn(p);
  }
}
