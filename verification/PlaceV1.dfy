/** place: the hash-and-displace placement of version 1. */
module PlaceV1 {
  import opened Words
  import opened BitPacking
  import opened Grouping
  import opened BucketOrder
  import opened Greedy
  import opened SlotSearch
  import opened Placement

  /** emptySlot */
  const EMPTY := 0xFFFF_FFFF

  /** What tableSizes returns. */
  datatype Sizes = Sizes(slots: nat, buckets: nat)

  predicate ValidSizes(z: Sizes) { z.slots > 0 && z.buckets > 0 }

  function Xor(a: nat, b: nat): nat
    decreases a + b
  {
    if a == 0 && b == 0 then 0 else (a + b) % 2 + 2 * Xor(a / 2, b / 2)
  }

  lemma XorStep(a: nat, b: nat)
    ensures Xor(a, b) % 2 == (a + b) % 2 && Xor(a, b) / 2 == Xor(a / 2, b / 2)
  {
    if a != 0 || b != 0 {
      DivMod((a + b) % 2, 2, Xor(a / 2, b / 2));
    }
  }

  lemma OddSum(a: nat, b: nat)
    ensures (a + b) % 2 == 1 <==> (a % 2 == 1) != (b % 2 == 1)
  {
  }

  /** Exclusive or, bit by bit. */
  lemma {:induction false} XorBits(a: nat, b: nat, k: nat)
    ensures Bit(Xor(a, b), k) <==> Bit(a, k) != Bit(b, k)
  {
    XorStep(a, b);
    OddSum(a, b);
    if k > 0 {
      XorBits(a / 2, b / 2, k - 1);
    }
  }

  ghost predicate SameBits(a: nat, b: nat) {
    forall k: nat :: Bit(a, k) == Bit(b, k)
  }

  /** A number is determined by its bits. */
  lemma {:induction false} BitsDetermine(a: nat, b: nat)
    requires SameBits(a, b)
    ensures a == b
    decreases a + b
  {
    if a + b > 0 {
      assert Bit(a, 0) == Bit(b, 0);
      forall k: nat
        ensures Bit(a / 2, k) == Bit(b / 2, k)
      {
        assert Bit(a, k + 1) == Bit(b, k + 1);
      }
      BitsDetermine(a / 2, b / 2);
    }
  }

  /** The reader undoes a displacement with the same operation, */
  lemma XorTwice(a: nat, d: nat)
    ensures Xor(Xor(a, d), d) == a && Xor(a, d) == Xor(d, a)
  {
    forall k: nat
      ensures Bit(Xor(Xor(a, d), d), k) == Bit(a, k) && Bit(Xor(a, d), k) == Bit(Xor(d, a), k)
    {
      XorBits(a, d, k);
      XorBits(Xor(a, d), d, k);
      XorBits(d, a, k);
    }
    BitsDetermine(Xor(Xor(a, d), d), a);
    BitsDetermine(Xor(a, d), Xor(d, a));
  }

  /** different displacements send a hash to different places, and different hashes go to different places, before the remainder. */
  lemma XorInjective(a: nat, b: nat, d: nat)
    ensures Xor(a, d) == Xor(b, d) <==> a == b
    ensures Xor(d, a) == Xor(d, b) <==> a == b
  {
    XorTwice(a, d);
    XorTwice(b, d);
  }

  lemma {:induction false} XorBelow(a: nat, b: nat, n: nat)
    requires a < Pow2(n) && b < Pow2(n)
    ensures Xor(a, b) < Pow2(n)
  {
    if n > 0 && (a != 0 || b != 0) {
      XorBelow(a / 2, b / 2, n - 1);
    }
  }

  /** It stays within 32 bits. */
  lemma XorBounded(a: nat, b: nat)
    requires a < TWO32 && b < TWO32
    ensures Xor(a, b) < TWO32
  {
    Pow2Values();
    XorBelow(a, b, 32);
  }

  /** The low and the high half of a 64-bit hash. */
  lemma Halves(h: U64)
    ensures Lo(h) < TWO32 && Hi(h) < TWO32 && h == Hi(h) * TWO32 + Lo(h)
  {
  }

  function Lo(h: nat): nat { h % TWO32 }
  function Hi(h: nat): nat { h / TWO32 % TWO32 }

  /** (lo ^ d) % S */
  function Pos1(slots: nat): Pos
    requires slots > 0
  {
    (lo: nat, d: nat) => Xor(lo, d) % slots
  }

  function Los(hs: seq<nat>): (r: seq<nat>)
    ensures |r| == |hs| && forall i | 0 <= i < |hs| :: r[i] == Lo(hs[i])
  {
    if |hs| == 0 then [] else Los(hs[..|hs| - 1]) + [Lo(hs[|hs| - 1])]
  }

  function Buckets1(hs: seq<nat>, nb: nat): (r: seq<nat>)
    requires nb > 0
    ensures |r| == |hs| && forall i | 0 <= i < |hs| :: r[i] == Hi(hs[i]) % nb && r[i] < nb
  {
    if |hs| == 0 then [] else Buckets1(hs[..|hs| - 1], nb) + [Hi(hs[|hs| - 1]) % nb]
  }

  ghost predicate PlanFor1(hs: seq<nat>, z: Sizes, pl: Plan)
    requires ValidSizes(z)
  {
    Solves(Los(hs), Buckets1(hs, z.buckets), z.buckets, Pos1(z.slots), pl)
  }

  /** The slot a key hash is looked up in. */
  function SlotOf1(h: nat, z: Sizes, disp: seq<nat>): (s: nat)
    requires ValidSizes(z) && |disp| == z.buckets
    ensures s < z.slots
  {
    Pos1(z.slots)(Lo(h), disp[Hi(h) % z.buckets])
  }

  /** Row r is found in the slot of its hash. */
  predicate AtHome(hs: seq<nat>, z: Sizes, disp: seq<nat>, slotRow: seq<nat>, r: nat)
    requires ValidSizes(z) && |disp| == z.buckets && |slotRow| == z.slots && r < |hs|
  {
    slotRow[SlotOf1(hs[r], z, disp)] == r
  }

  /** Slot s is empty or holds a row whose slot it is. */
  predicate Honest(hs: seq<nat>, z: Sizes, disp: seq<nat>, slotRow: seq<nat>, s: nat)
    requires ValidSizes(z) && |disp| == z.buckets && |slotRow| == z.slots && s < z.slots
  {
    slotRow[s] != EMPTY ==> slotRow[s] < |hs| && SlotOf1(hs[slotRow[s]], z, disp) == s
  }

  /** slotRow is the inverse of SlotOf1 on the rows, and empty elsewhere. */
  ghost predicate Inverse(hs: seq<nat>, z: Sizes, disp: seq<nat>, slotRow: seq<nat>) {
    && ValidSizes(z) && |disp| == z.buckets && |slotRow| == z.slots
    && (forall r | 0 <= r < |hs| :: AtHome(hs, z, disp, slotRow, r))
    && (forall s | 0 <= s < z.slots :: Honest(hs, z, disp, slotRow, s))
  }

  /** What place computes. */
  ghost predicate IsPlacement(hs: seq<nat>, z: Sizes, disp: seq<nat>, slotRow: seq<nat>) {
    && ValidSizes(z) && (exists pl :: PlanFor1(hs, z, pl) && pl.disp == disp)
    && Inverse(hs, z, disp, slotRow)
  }

  ghost predicate Placeable1(hs: seq<nat>, z: Sizes)
    requires ValidSizes(z)
  {
    exists pl :: PlanFor1(hs, z, pl)
  }

  // ------------------------------------------------------------------ row lists --

  function Indices(n: nat): (r: seq<nat>)
    ensures |r| == n && forall i | 0 <= i < n :: r[i] == i
  {
    if n == 0 then [] else Indices(n - 1) + [n - 1]
  }

  /** Selecting rows and selecting their hashes go hand in hand. */
  lemma {:induction false} SelectTogether(hs: seq<nat>, bk: seq<nat>, b: nat)
    requires |hs| == |bk|
    ensures var m, l := Select<nat>(Indices(|hs|), bk, b), Select<nat>(Los(hs), bk, b);
      |m| == |l| && forall k | 0 <= k < |m| :: m[k] < |hs| && l[k] == Lo(hs[m[k]]) && bk[m[k]] == b
  {
    if |hs| > 0 {
      SelectTogether(hs[..|hs| - 1], bk[..|bk| - 1], b);
    }
  }

  /** los of one bucket's members */
  method LosOf(hs: seq<nat>, mem: seq<nat>) returns (los: seq<nat>)
    requires forall k | 0 <= k < |mem| :: mem[k] < |hs|
    ensures |los| == |mem| && forall k | 0 <= k < |mem| :: los[k] == Lo(hs[mem[k]])
  {
    los := [];
    for k := 0 to |mem|
      invariant |los| == k && forall q | 0 <= q < k :: los[q] == Lo(hs[mem[q]])
    {
      los := los + [Lo(hs[mem[k]])];
    }
  }

  /** Rows grouped by bucket, and next to each group the low hashes of its rows. */
  ghost predicate RowGroups(hs: seq<nat>, bk: seq<nat>, nb: nat, mems: seq<seq<nat>>, groups: seq<seq<nat>>)
    requires |hs| == |bk|
  {
    IsGrouping(mems, Indices(|hs|), bk, nb) && IsGrouping(groups, Los(hs), bk, nb)
  }

  method GroupRows(hs: seq<nat>, nb: nat) returns (mems: seq<seq<nat>>, groups: seq<seq<nat>>)
    requires nb > 0
    ensures RowGroups(hs, Buckets1(hs, nb), nb, mems, groups)
  {
    var bk := Buckets1(hs, nb);
    mems := GroupKeys(Indices(|hs|), bk, nb);
    groups := [];
    for b := 0 to nb
      invariant |groups| == b && forall c: nat | c < b :: groups[c] == Select<nat>(Los(hs), bk, c)
    {
      SelectTogether(hs, bk, b);
      var los := LosOf(hs, mems[b]);
      assert los == Select<nat>(Los(hs), bk, b);
      groups := groups + [los];
    }
  }

  // -------------------------------------------------------------------- slotRow --

  /** Bucket b's rows sit in slotRow where its displacement sends them. */
  ghost predicate Sits(mems: seq<seq<nat>>, groups: seq<seq<nat>>, disp: seq<nat>, pos: Pos, slotRow: seq<nat>, b: nat) {
    b < |mems| && b < |groups| && b < |disp| && |mems[b]| == |groups[b]|
    && forall k | 0 <= k < |mems[b]| :: pos(groups[b][k], disp[b]) < |slotRow| && slotRow[pos(groups[b][k], disp[b])] == mems[b][k]
  }

  /** slotRow after the first n buckets of order. */
  ghost predicate RowsPlaced(mems: seq<seq<nat>>, groups: seq<seq<nat>>, order: seq<nat>, disp: seq<nat>, pos: Pos, slotRow: seq<nat>, n: nat)
    requires n <= |order|
  {
    && InRange(order, |groups|) && |disp| == |groups|
    && (forall i | 0 <= i < n :: Sits(mems, groups, disp, pos, slotRow, order[i]))
    && (forall s: nat | s < |slotRow| && s !in TakenBy(groups, order[..n], disp, pos) :: slotRow[s] == EMPTY)
  }

  /** slotRow with rows written to their slots. */
  ghost predicate RowsWritten(was: seq<nat>, now: seq<nat>, slots: seq<nat>, mem: seq<nat>, n: nat)
    requires n <= |slots| == |mem|
  {
    && |now| == |was|
    && (forall k | 0 <= k < n :: slots[k] < |now| && now[slots[k]] == mem[k])
    && (forall s: nat | s < |was| && s !in slots[..n] :: now[s] == was[s])
  }

  method WriteRows(slotRow: array<nat>, slots: seq<nat>, mem: seq<nat>)
    requires |slots| == |mem| && Distinct(slots) && forall k | 0 <= k < |slots| :: slots[k] < slotRow.Length
    modifies slotRow
    ensures RowsWritten(old(slotRow[..]), slotRow[..], slots, mem, |slots|)
  {
    for k := 0 to |slots|
      invariant RowsWritten(old(slotRow[..]), slotRow[..], slots, mem, k)
    {
      ghost var was := slotRow[..];
      slotRow[slots[k]] := mem[k];
      assert slotRow[..] == was[slots[k] := mem[k]];
      assert slots[..k + 1] == slots[..k] + [slots[k]];
    }
  }

  /** The bucket placed last sits, the others still sit, and what is not taken is still empty. */
  lemma BucketWritten(mems: seq<seq<nat>>, groups: seq<seq<nat>>, order: seq<nat>, disp: seq<nat>, disp2: seq<nat>, pos: Pos,
                      was: seq<nat>, now: seq<nat>, slots: seq<nat>, n: nat)
    requires |mems| == |groups| && n < |order| && InRange(order, |groups|) && Distinct(order)
    requires RowsPlaced(mems, groups, order, disp, pos, was, n)
    requires |disp2| == |disp| && disp2 == disp[order[n] := disp2[order[n]]]
    requires Placed(groups, order[..n + 1], disp2, pos)
    requires |slots| == |groups[order[n]]| == |mems[order[n]]|
    requires forall k | 0 <= k < |slots| :: slots[k] == pos(groups[order[n]][k], disp2[order[n]])
    requires RowsWritten(was, now, slots, mems[order[n]], |slots|)
    ensures RowsPlaced(mems, groups, order, disp2, pos, now, n + 1)
  {
    var b := order[n];
    assert slots[..|slots|] == slots;
    var o := order[..n + 1];
    assert o[..n] == order[..n];
    TakenAgree(groups, order[..n], disp, disp2, pos);
    forall i | 0 <= i < n
      ensures Sits(mems, groups, disp2, pos, now, order[i])
    {
      var c := order[i];
      assert Sits(mems, groups, disp, pos, was, c);
      forall k | 0 <= k < |mems[c]|
        ensures now[pos(groups[c][k], disp2[c])] == mems[c][k]
      {
        NotAmong(groups, o, disp2, pos, i, k, n, slots);
      }
    }
    assert Sits(mems, groups, disp2, pos, now, b);
    forall k | 0 <= k < |slots|
      ensures slots[k] in TakenBy(groups, o, disp2, pos)
    {
      assert groups[b][k] in groups[b];
    }
  }

  /** A slot of an earlier bucket is none of the last bucket's. */
  lemma NotAmong(groups: seq<seq<nat>>, o: seq<nat>, disp: seq<nat>, pos: Pos, i: nat, k: nat, n: nat, slots: seq<nat>)
    requires |disp| == |groups| && InRange(o, |groups|) && Placed(groups, o, disp, pos) && i < n < |o|
    requires k < |groups[o[i]]| && |slots| == |groups[o[n]]|
    requires forall q | 0 <= q < |slots| :: slots[q] == pos(groups[o[n]][q], disp[o[n]])
    ensures pos(groups[o[i]][k], disp[o[i]]) !in slots
  {
    if pos(groups[o[i]][k], disp[o[i]]) in slots {
      var q :| 0 <= q < |slots| && slots[q] == pos(groups[o[i]][k], disp[o[i]]);
      PlacedInjective(groups, o, disp, pos, i, k, n, q);
    }
  }

  lemma SlotsDistinct(groups: seq<seq<nat>>, order: seq<nat>, disp: seq<nat>, pos: Pos, n: nat, slots: seq<nat>)
    requires |disp| == |groups| && n < |order| && InRange(order, |groups|) && Placed(groups, order[..n + 1], disp, pos)
    requires |slots| == |groups[order[n]]|
    requires forall k | 0 <= k < |slots| :: slots[k] == pos(groups[order[n]][k], disp[order[n]])
    ensures Distinct(slots)
  {
    assert LeastAt(groups, order[..n + 1], disp, pos, n);
  }

  method PlaceRows(mems: seq<seq<nat>>, groups: seq<seq<nat>>, order: seq<nat>, z: Sizes) returns (r: Outcome, disp: array<nat>, slotRow: array<nat>, ghost words: seq<Word>, ghost n: nat)
    requires ValidSizes(z) && |mems| == |groups| == z.buckets && forall b: nat | b < |groups| :: |mems[b]| == |groups[b]|
    requires InRange(order, |groups|) && Distinct(order)
    ensures fresh(disp) && fresh(slotRow) && slotRow.Length == z.slots && disp.Length == |groups|
    ensures r.Done? <==> Placeable(groups, order, Pos1(z.slots))
    ensures r.Done? ==> PlacedSoFar(groups, order, disp[..], words, Pos1(z.slots), |order|)
    ensures r.Done? ==> RowsPlaced(mems, groups, order, disp[..], Pos1(z.slots), slotRow[..], |order|)
    ensures Judged(r, groups, order, disp[..], Pos1(z.slots), n)
  {
    var pos := Pos1(z.slots);
    disp := new nat[z.buckets](_ => 0);
    slotRow := new nat[z.slots](_ => EMPTY);
    var occupied := new Word[(z.slots + 63) / 64](_ => Zeros(64));
    assert occupied[..] == Empty(z.slots);
    EmptyMarks(z.slots);
    for i := 0 to |order|
      invariant PlacedSoFar(groups, order, disp[..], occupied[..], pos, i)
      invariant RowsPlaced(mems, groups, order, disp[..], pos, slotRow[..], i)
    {
      ghost var before := disp[..];
      var one, slots := PlaceOne(groups, order, i, pos, disp, occupied);
      if !one.Done? {
        StuckForever(groups, order, disp[..], pos, i);
        return one, disp, slotRow, occupied[..], i;
      }
      SlotsDistinct(groups, order, disp[..], pos, i, slots);
      ghost var was := slotRow[..];
      WriteRows(slotRow, slots, mems[order[i]]);
      BucketWritten(mems, groups, order, before, disp[..], pos, was, slotRow[..], slots, i);
    }
    assert order[..|order|] == order;
    r, words, n := Done, occupied[..], |order|;
  }

  /** The finished slotRow inverts the slots of the rows. */
  lemma PlacedInverse(hs: seq<nat>, z: Sizes, mems: seq<seq<nat>>, pl: Plan, slotRow: seq<nat>)
    requires ValidSizes(z) && PlanFor1(hs, z, pl) && |slotRow| == z.slots
    requires RowGroups(hs, Buckets1(hs, z.buckets), z.buckets, mems, pl.groups)
    requires RowsPlaced(mems, pl.groups, pl.order, pl.disp, Pos1(z.slots), slotRow, |pl.order|)
    ensures Inverse(hs, z, pl.disp, slotRow)
  {
    var bk, pos := Buckets1(hs, z.buckets), Pos1(z.slots);
    forall r: nat | r < |hs|
      ensures AtHome(hs, z, pl.disp, slotRow, r)
    {
      var j, k := Locate(Los(hs), bk, z.buckets, pos, pl, r);
      SelectAt<nat>(Indices(|hs|), bk, r);
      assert mems[bk[r]] == Select<nat>(Indices(|hs|), bk, bk[r]);
      assert Sits(mems, pl.groups, pl.disp, pos, slotRow, pl.order[j]);
    }
    assert pl.order[..|pl.order|] == pl.order;
    forall s: nat | s < z.slots
      ensures Honest(hs, z, pl.disp, slotRow, s)
    {
      if slotRow[s] != EMPTY {
        var r := TakenHasKey(Los(hs), bk, z.buckets, pos, pl, s);
        assert AtHome(hs, z, pl.disp, slotRow, r);
      }
    }
  }

  /** Two rows of one bucket with equal low hashes. */
  predicate Clash(hs: seq<nat>, nb: nat, i: nat, j: nat) {
    nb > 0 && i < |hs| && j < |hs| && i != j && Lo(hs[i]) == Lo(hs[j]) && Hi(hs[i]) % nb == Hi(hs[j]) % nb
  }

  lemma SameLow(hs: seq<nat>, nb: nat, groups: seq<seq<nat>>, b: nat)
    requires nb > 0 && IsGrouping(groups, Los(hs), Buckets1(hs, nb), nb) && b < nb && !Distinct(groups[b])
    ensures exists i, j :: Clash(hs, nb, i, j)
  {
    var bk := Buckets1(hs, nb);
    var m, l := Select<nat>(Indices(|hs|), bk, b), Select<nat>(Los(hs), bk, b);
    assert groups[b] == l;
    SelectTogether(hs, bk, b);
    SelectDistinct(Indices(|hs|), bk, b);
    var p: nat, q: nat :| p < q < |l| && l[p] == l[q];
    assert Clash(hs, nb, m[p], m[q]);
  }

  /** In the order of size and index, bucket b, with these low hashes, is the first that no displacement up to 2^32-1 places. */
  ghost predicate FirstUnplaced1(hs: seq<nat>, z: Sizes, b: nat, los: seq<nat>)
    requires ValidSizes(z)
  {
    exists pl, n: nat :: StuckPlan(Los(hs), Buckets1(hs, z.buckets), z.buckets, Pos1(z.slots), pl, n) && pl.order[n] == b && pl.groups[b] == los
  }

  lemma UnplacedUnique1(hs: seq<nat>, z: Sizes, b: nat, los: seq<nat>)
    requires ValidSizes(z) && FirstUnplaced1(hs, z, b, los)
    ensures !Placeable1(hs, z) && forall c, ls :: FirstUnplaced1(hs, z, c, ls) ==> ls == los
  {
    var bk, pos := Buckets1(hs, z.buckets), Pos1(z.slots);
    assert FirstStuck(Los(hs), bk, z.buckets, pos, los);
    if Placeable1(hs, z) {
      var pl :| PlanFor1(hs, z, pl);
      SolvedNotStuck(Los(hs), bk, z.buckets, pos, pl, los);
    }
    forall c, ls | FirstUnplaced1(hs, z, c, ls)
      ensures ls == los
    {
      StuckUnique(Los(hs), bk, z.buckets, pos, los, ls);
    }
  }

  lemma PlacedNotUnplaced(hs: seq<nat>, z: Sizes)
    requires ValidSizes(z) && Placeable1(hs, z)
    ensures forall b, los :: !FirstUnplaced1(hs, z, b, los)
  {
    forall b, los | FirstUnplaced1(hs, z, b, los)
      ensures false
    {
      UnplacedUnique1(hs, z, b, los);
    }
  }

  /** A failure names the first bucket that cannot be placed, and says whether two of its low hashes are equal. */
  ghost predicate PlaceVerdict(hs: seq<nat>, z: Sizes, r: Outcome)
    requires ValidSizes(z)
  {
    && (!r.Done? ==> exists los :: FirstUnplaced1(hs, z, r.bucket, los))
    && (r.DuplicateKey? <==> exists b, los :: FirstUnplaced1(hs, z, b, los) && !Distinct(los))
    && (r.Exhausted? <==> exists b, los :: FirstUnplaced1(hs, z, b, los) && Distinct(los))
  }

  lemma FailedVerdict(hs: seq<nat>, z: Sizes, r: Outcome, groups: seq<seq<nat>>, order: seq<nat>, disp: seq<nat>, n: nat)
    requires ValidSizes(z) && !r.Done? && |disp| == |groups| && InRange(order, |groups|) && Judged(r, groups, order, disp, Pos1(z.slots), n)
    requires IsGrouping(groups, Los(hs), Buckets1(hs, z.buckets), z.buckets) && IsOrder(order, SizesOf(groups))
    ensures PlaceVerdict(hs, z, r) && !Placeable1(hs, z)
  {
    JudgedUnplaced(hs, z, r, groups, order, disp, n);
    UnplacedUnique1(hs, z, r.bucket, groups[r.bucket]);
  }

  lemma JudgedUnplaced(hs: seq<nat>, z: Sizes, r: Outcome, groups: seq<seq<nat>>, order: seq<nat>, disp: seq<nat>, n: nat)
    requires ValidSizes(z) && !r.Done? && |disp| == |groups| && InRange(order, |groups|) && Judged(r, groups, order, disp, Pos1(z.slots), n)
    requires IsGrouping(groups, Los(hs), Buckets1(hs, z.buckets), z.buckets) && IsOrder(order, SizesOf(groups))
    ensures FirstUnplaced1(hs, z, r.bucket, groups[r.bucket])
  {
    assert StuckPlan(Los(hs), Buckets1(hs, z.buckets), z.buckets, Pos1(z.slots), Plan(groups, order, disp), n);
  }

  /** place, for fewer than 2^32 - 1 rows */
  method Place(hs: seq<nat>, z: Sizes) returns (r: Outcome, disp: seq<nat>, slotRow: seq<nat>)
    requires ValidSizes(z) && |hs| < EMPTY
    ensures r.Done? <==> Placeable1(hs, z)
    ensures r.Done? ==> IsPlacement(hs, z, disp, slotRow)
    ensures PlaceVerdict(hs, z, r)
    ensures r.DuplicateKey? ==> exists i, j :: Clash(hs, z.buckets, i, j)
  {
    var mems, groups := GroupRows(hs, z.buckets);
    var order := OrderByCounting(SizesOf(groups));
    OrderDistinct(order, SizesOf(groups));
    ghost var bk, pos := Buckets1(hs, z.buckets), Pos1(z.slots);
    forall b: nat | b < z.buckets
      ensures |mems[b]| == |groups[b]|
    {
      SelectTogether(hs, bk, b);
    }
    ghost var words, n;
    var d, sr;
    r, d, sr, words, n := PlaceRows(mems, groups, order, z);
    disp, slotRow := d[..], sr[..];
    if r.Done? {
      ghost var pl := Plan(groups, order, disp);
      PlacementSolves(Los(hs), bk, z.buckets, pos, groups, order, disp, words);
      assert PlanFor1(hs, z, pl);
      PlacedInverse(hs, z, mems, pl, slotRow);
      PlacedNotUnplaced(hs, z);
    } else {
      FailedVerdict(hs, z, r, groups, order, disp, n);
      if r.DuplicateKey? {
        SameLow(hs, z.buckets, groups, r.bucket);
      }
    }
  }
}
