/** The search loops both builders run: occupancy bits, one bucket's displacement, then all buckets. */
module SlotSearch {
  import opened BitPacking
  import opened Greedy

  // --------------------------------------------------------- occupancy bits --

  /** The bitset marks exactly the slots of s. */
  ghost predicate Marks(words: seq<Word>, s: set<nat>) {
    && (forall q: nat {:trigger IsSet(words, q)} | q < 64 * |words| :: IsSet(words, q) <==> q in s)
    && (forall q | q in s :: q < 64 * |words|)
  }

  /** taken[q>>6]>>(q&63)&1 != 0 */
  predicate IsSet(words: seq<Word>, q: nat)
    requires q < 64 * |words|
  {
    Shr(words[q / 64], q % 64)[0]
  }

  method Test(words: array<Word>, q: nat, ghost s: set<nat>) returns (b: bool)
    requires q < 64 * words.Length && Marks(words[..], s)
    ensures b <==> q in s
  {
    b := IsSet(words[..], q);
  }

  /** taken[q>>6] |= 1 << (q&63) */
  function SetBit(words: seq<Word>, q: nat): (r: seq<Word>)
    requires q < 64 * |words|
    ensures |r| == |words|
  {
    words[q / 64 := Or(words[q / 64], Shl(Mask(1), q % 64))]
  }

  lemma SetBitMarks(words: seq<Word>, q: nat, s: set<nat>)
    requires q < 64 * |words| && Marks(words, s)
    ensures Marks(SetBit(words, q), s + {q})
  {
    forall p: nat | p < 64 * |words|
      ensures IsSet(SetBit(words, q), p) <==> p in s || p == q
    {
      assert IsSet(words, p) <==> p in s;
      if p / 64 == q / 64 && p % 64 == q % 64 {
        assert p == q;
      }
    }
  }

  function Empty(m: nat): (r: seq<Word>)
    ensures |r| == (m + 63) / 64 && 64 * |r| >= m
  {
    seq((m + 63) / 64, _ => Zeros(64))
  }

  lemma EmptyMarks(m: nat)
    ensures Marks(Empty(m), {})
  {
  }

  function SlotsOf(slots: seq<nat>): set<nat> { set q | q in slots }

  method MarkAll(words: array<Word>, slots: seq<nat>, ghost s: set<nat>)
    requires Marks(words[..], s) && forall i | 0 <= i < |slots| :: slots[i] < 64 * words.Length
    modifies words
    ensures Marks(words[..], s + SlotsOf(slots))
  {
    for i := 0 to |slots|
      invariant Marks(words[..], s + SlotsOf(slots[..i]))
    {
      ghost var was := words[..];
      var q := slots[i];
      SetBitMarks(was, q, s + SlotsOf(slots[..i]));
      words[q / 64] := Or(words[q / 64], Shl(Mask(1), q % 64));
      assert words[..] == SetBit(was, q);
      assert SlotsOf(slots[..i + 1]) == SlotsOf(slots[..i]) + {q};
    }
    assert slots[..|slots|] == slots;
  }

  // -------------------------------------------------------------- one bucket --

  ghost predicate Bounded(pos: Pos, m: nat) {
    forall x: nat, d: nat :: pos(x, d) < m
  }

  /** Does displacement d fit? The slots it uses are collected on the way. */
  method TryDisplacement(ks: seq<nat>, d: nat, words: array<Word>, ghost taken: set<nat>, pos: Pos) returns (ok: bool, slots: seq<nat>)
    requires Bounded(pos, 64 * words.Length) && Marks(words[..], taken)
    ensures ok <==> Fits(ks, d, taken, pos)
    ensures ok ==> |slots| == |ks| && forall i | 0 <= i < |ks| :: slots[i] == pos(ks[i], d)
  {
    slots := [];
    for i := 0 to |ks|
      invariant |slots| == i
      invariant forall k | 0 <= k < i :: slots[k] == pos(ks[k], d) && slots[k] !in taken
      invariant forall k, l | 0 <= k < l < i :: slots[k] != slots[l]
    {
      var q := pos(ks[i], d);
      var occupied := Test(words, q, taken);
      if occupied {
        return false, slots;
      }
      for e := 0 to |slots|
        invariant forall k | 0 <= k < e :: slots[k] != q
      {
        if slots[e] == q {
          return false, slots;
        }
      }
      slots := slots + [q];
    }
    ok := true;
  }

  /** The search loop over displacements. */
  method LeastDisplacement(ks: seq<nat>, words: array<Word>, ghost taken: set<nat>, pos: Pos) returns (found: bool, d: nat, slots: seq<nat>)
    requires Bounded(pos, 64 * words.Length) && Marks(words[..], taken)
    ensures found ==> Least(ks, d, taken, pos) && |slots| == |ks| && forall i | 0 <= i < |ks| :: slots[i] == pos(ks[i], d)
    ensures !found ==> forall e: nat | e < 0x1_0000_0000 :: !Fits(ks, e, taken, pos)
  {
    d, found, slots := 0, false, [];
    while d <= LIMIT
      invariant d <= LIMIT + 1
      invariant forall e: nat | e < d :: !Fits(ks, e, taken, pos)
      decreases LIMIT + 1 - d
    {
      found, slots := TryDisplacement(ks, d, words, taken, pos);
      if found {
        return;
      }
      d := d + 1;
    }
    found := false;
  }

  /** The pairwise comparison that rejects equal keys of one bucket. */
  method CheckDistinct(ks: seq<nat>) returns (distinct: bool)
    ensures distinct <==> Distinct(ks)
  {
    for i := 0 to |ks|
      invariant Distinct(ks[..i])
    {
      for j := 0 to i
        invariant forall k | 0 <= k < j :: ks[k] != ks[i]
      {
        if ks[i] == ks[j] {
          return false;
        }
      }
    }
    assert ks[..|ks|] == ks;
    distinct := true;
  }

  // ------------------------------------------------------------- all buckets --

  datatype Outcome = Done | DuplicateKey(bucket: nat) | Exhausted(bucket: nat)

  ghost predicate Placeable(groups: seq<seq<nat>>, order: seq<nat>, pos: Pos)
    requires InRange(order, |groups|)
  {
    exists disp: seq<nat> :: |disp| == |groups| && Placed(groups, order, disp, pos)
  }

  lemma FitsDistinct(ks: seq<nat>, d: nat, taken: set<nat>, pos: Pos)
    requires Fits(ks, d, taken, pos)
    ensures Distinct(ks)
  {
    forall i, j | 0 <= i < j < |ks|
      ensures ks[i] != ks[j]
    {
      assert pos(ks[i], d) != pos(ks[j], d);
    }
  }

  /** Any placement of the whole order fits the next bucket after the ones placed so far. */
  lemma NextFits(groups: seq<seq<nat>>, order: seq<nat>, disp: seq<nat>, e: seq<nat>, pos: Pos, n: nat)
    requires |disp| == |e| == |groups| && InRange(order, |groups|) && n < |order|
    requires Placed(groups, order[..n], disp, pos) && Placed(groups, order, e, pos)
    ensures e[order[n]] <= LIMIT && Fits(groups[order[n]], e[order[n]], TakenBy(groups, order[..n], disp, pos), pos)
  {
    PlacedPrefix(groups, order, e, pos, n);
    PlacedUnique(groups, order[..n], disp, e, pos, n);
    TakenAgree(groups, order[..n], disp, e, pos);
    assert LeastAt(groups, order, e, pos, n);
  }

  /** The buckets before order[n] are placed, and no displacement fits that one. */
  ghost predicate Stuck(groups: seq<seq<nat>>, order: seq<nat>, disp: seq<nat>, pos: Pos, n: nat)
    requires |disp| == |groups| && InRange(order, |groups|)
  {
    && n < |order| && Placed(groups, order[..n], disp, pos)
    && forall e: nat | e <= LIMIT :: !Fits(groups[order[n]], e, TakenBy(groups, order[..n], disp, pos), pos)
  }

  /** If the next bucket has no fitting displacement, no placement of the whole order exists. */
  lemma StuckForever(groups: seq<seq<nat>>, order: seq<nat>, disp: seq<nat>, pos: Pos, n: nat)
    requires |disp| == |groups| && InRange(order, |groups|) && Stuck(groups, order, disp, pos, n)
    ensures !Placeable(groups, order, pos)
  {
    if e: seq<nat> :| |e| == |groups| && Placed(groups, order, e, pos) {
      NextFits(groups, order, disp, e, pos, n);
    }
  }

  lemma TakenNext(groups: seq<seq<nat>>, order: seq<nat>, disp: seq<nat>, pos: Pos, n: nat, d: nat)
    requires |disp| == |groups| && InRange(order, |groups|) && n < |order| && Distinct(order)
    ensures var e := disp[order[n] := d];
      && (forall i | 0 <= i <= n :: TakenBy(groups, order[..i], e, pos) == TakenBy(groups, order[..i], disp, pos))
      && TakenBy(groups, order[..n + 1], e, pos) == TakenBy(groups, order[..n], disp, pos) + Slots(groups[order[n]], d, pos)
  {
    var e := disp[order[n] := d];
    forall i | 0 <= i <= n
      ensures TakenBy(groups, order[..i], e, pos) == TakenBy(groups, order[..i], disp, pos)
    {
      TakenAgree(groups, order[..i], disp, e, pos);
    }
    assert order[..n + 1][..n] == order[..n];
  }

  /** Placing one more bucket extends the placement. */
  lemma PlaceNext(groups: seq<seq<nat>>, order: seq<nat>, disp: seq<nat>, pos: Pos, n: nat, d: nat)
    requires |disp| == |groups| && InRange(order, |groups|) && n < |order|
    requires Distinct(order) && Placed(groups, order[..n], disp, pos)
    requires Least(groups[order[n]], d, TakenBy(groups, order[..n], disp, pos), pos)
    ensures Placed(groups, order[..n + 1], disp[order[n] := d], pos)
  {
    var o, e := order[..n + 1], disp[order[n] := d];
    TakenNext(groups, order, disp, pos, n, d);
    forall i | 0 <= i < |o|
      ensures LeastAt(groups, o, e, pos, i)
    {
      assert o[..i] == order[..i];
      if i < n {
        assert order[..n][..i] == order[..i];
        assert LeastAt(groups, order[..n], disp, pos, i);
      }
    }
  }

  /** The state of the placement loop after n buckets. */
  ghost predicate PlacedSoFar(groups: seq<seq<nat>>, order: seq<nat>, disp: seq<nat>, words: seq<Word>, pos: Pos, n: nat)
    requires InRange(order, |groups|) && n <= |order|
  {
    && |disp| == |groups| && Placed(groups, order[..n], disp, pos) && Untouched(order[..n], disp)
    && Marks(words, TakenBy(groups, order[..n], disp, pos))
  }

  method PlaceOne(groups: seq<seq<nat>>, order: seq<nat>, n: nat, pos: Pos, disp: array<nat>, words: array<Word>) returns (r: Outcome, slots: seq<nat>)
    requires InRange(order, |groups|) && Distinct(order) && n < |order| && Bounded(pos, 64 * words.Length)
    requires PlacedSoFar(groups, order, disp[..], words[..], pos, n)
    modifies disp, words
    ensures r.Done? ==> PlacedSoFar(groups, order, disp[..], words[..], pos, n + 1)
    ensures r.Done? ==> disp[..] == old(disp[..])[order[n] := disp[order[n]]]
    ensures r.Done? ==> |slots| == |groups[order[n]]| && forall i | 0 <= i < |slots| :: slots[i] == pos(groups[order[n]][i], disp[order[n]])
    ensures !r.Done? ==> r.bucket == order[n] && disp[..] == old(disp[..]) && Stuck(groups, order, disp[..], pos, n)
    ensures r.DuplicateKey? <==> !Distinct(groups[order[n]])
  {
    var b := order[n];
    ghost var before := disp[..];
    ghost var taken := TakenBy(groups, order[..n], before, pos);
    var distinct := CheckDistinct(groups[b]);
    if !distinct {
      forall e: nat | e <= LIMIT
        ensures !Fits(groups[b], e, taken, pos)
      {
        if Fits(groups[b], e, taken, pos) {
          FitsDistinct(groups[b], e, taken, pos);
        }
      }
      return DuplicateKey(b), [];
    }
    var found, d, s := LeastDisplacement(groups[b], words, taken, pos);
    if !found {
      return Exhausted(b), [];
    }
    PlaceNext(groups, order, before, pos, n, d);
    TakenNext(groups, order, before, pos, n, d);
    MarkAll(words, s, taken);
    disp[b] := d;
    slots := s;
    assert disp[..] == before[b := d];
    assert SlotsOf(s) == Slots(groups[b], d, pos);
    assert order[..n + 1] == order[..n] + [b];
    r := Done;
  }

  /** The outcome of placing the buckets in turn: which one is the first to fail, and why. */
  ghost predicate Judged(r: Outcome, groups: seq<seq<nat>>, order: seq<nat>, disp: seq<nat>, pos: Pos, n: nat)
    requires |disp| == |groups| && InRange(order, |groups|)
  {
    && (!r.Done? ==> n < |order| && r.bucket == order[n] && Stuck(groups, order, disp, pos, n))
    && (r.DuplicateKey? <==> !r.Done? && !Distinct(groups[r.bucket]))
  }

  /** The outer loop over buckets. */
  method PlaceAll(groups: seq<seq<nat>>, order: seq<nat>, m: nat, pos: Pos) returns (r: Outcome, disp: array<nat>, words: array<Word>, ghost n: nat)
    requires InRange(order, |groups|) && Distinct(order) && Bounded(pos, m)
    ensures fresh(disp) && fresh(words) && 64 * words.Length >= m && disp.Length == |groups|
    ensures r.Done? <==> Placeable(groups, order, pos)
    ensures r.Done? ==> PlacedSoFar(groups, order, disp[..], words[..], pos, |order|)
    ensures Judged(r, groups, order, disp[..], pos, n)
  {
    disp := new nat[|groups|](_ => 0);
    words := new Word[(m + 63) / 64](_ => Zeros(64));
    assert words[..] == Empty(m);
    EmptyMarks(m);
    assert disp.Length == |groups|;
    BoundedMore(pos, m, 64 * words.Length);
    for i := 0 to |order|
      invariant PlacedSoFar(groups, order, disp[..], words[..], pos, i)
    {
      var one, slots := PlaceOne(groups, order, i, pos, disp, words);
      if !one.Done? {
        StuckForever(groups, order, disp[..], pos, i);
        return one, disp, words, i;
      }
    }
    n := |order|;
    assert order[..|order|] == order;
    r := Done;
  }

  lemma BoundedMore(pos: Pos, m: nat, n: nat)
    requires Bounded(pos, m) && m <= n
    ensures Bounded(pos, n)
  {
  }
}
