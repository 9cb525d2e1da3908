/** BuildWith itself, and the independence of its result from the order of the keys. */
module PtHashBuild {
  import opened Words
  import opened BitPacking
  import opened BucketOrder
  import opened Greedy
  import opened SlotSearch
  import opened FreeSlots
  import opened Placement
  import opened PtHash

  datatype BuildResult = Built(t: Table) | NoKeys | DuplicateHash | NoPilot

  ghost predicate Buildable(xs: seq<nat>, z: Sizing, mixer: Mixer) {
    exists t :: IsTable(t, xs, z, mixer)
  }

  /** In the order of size and index, these are the keys of the first bucket that no pilot up to 2^32-1 places. */
  ghost predicate FirstUnplaced(xs: seq<nat>, z: Sizing, mixer: Mixer, ks: seq<nat>) {
    ValidSizing(|xs|, z) && FirstStuck(xs, Buckets(xs, z), z.nb, Position(mixer, z.m), ks)
  }

  lemma UnplacedUnique(xs: seq<nat>, z: Sizing, mixer: Mixer, ks: seq<nat>)
    requires FirstUnplaced(xs, z, mixer, ks)
    ensures !Buildable(xs, z, mixer) && forall ls :: FirstUnplaced(xs, z, mixer, ls) ==> ls == ks
  {
    if Buildable(xs, z, mixer) {
      var t :| IsTable(t, xs, z, mixer);
      var pl :| PlanFor(xs, z, mixer, pl) && t == Encode(|xs|, z, pl.disp, Taken(Position(mixer, z.m), pl));
      SolvedNotStuck(xs, Buckets(xs, z), z.nb, Position(mixer, z.m), pl, ks);
    }
    forall ls | FirstUnplaced(xs, z, mixer, ls)
      ensures ls == ks
    {
      StuckUnique(xs, Buckets(xs, z), z.nb, Position(mixer, z.m), ks, ls);
    }
  }

  method PackSection(ps: seq<nat>) returns (w: nat, bytes: Bytes)
    requires forall b | 0 <= b < |ps| :: ps[b] <= LIMIT
    ensures w == WidthFor(MaxOf(ps)) && bytes == PackedBytes(ps, w)
  {
    var mx := Largest(ps);
    WidthsFit(ps);
    w := WidthFor(mx);
    var data := Pack(ps, w);
    bytes := data[..];
  }

  /** pthash.BuildWith, its float sizing given. */
  method BuildWith(xs: seq<nat>, z: Sizing, mixer: Mixer) returns (r: BuildResult)
    requires |xs| > 0 ==> ValidSizing(|xs|, z)
    ensures r.NoKeys? <==> |xs| == 0
    ensures r.Built? <==> |xs| > 0 && Buildable(xs, z, mixer)
    ensures r.Built? ==> IsTable(r.t, xs, z, mixer)
    ensures r.DuplicateHash? <==> |xs| > 0 && exists ks :: FirstUnplaced(xs, z, mixer, ks) && !Distinct(ks)
    ensures r.NoPilot? <==> |xs| > 0 && exists ks :: FirstUnplaced(xs, z, mixer, ks) && Distinct(ks)
    ensures r.DuplicateHash? ==> !Distinct(xs)
  {
    if |xs| == 0 {
      return NoKeys;
    }
    var bk, pos := Buckets(xs, z), Position(mixer, z.m);
    var groups := GroupKeys(xs, bk, z.nb);
    var order := OrderBySize(SizesOf(groups));
    OrderDistinct(order, SizesOf(groups));
    PositionBounded(mixer, z.m);
    ghost var n;
    var o, pilots, words;
    o, pilots, words, n := PlaceAll(groups, order, z.m, pos);
    if !o.Done? {
      assert StuckPlan(xs, bk, z.nb, pos, Plan(groups, order, pilots[..]), n);
      UnplacedUnique(xs, z, mixer, groups[o.bucket]);
      if o.DuplicateKey? {
        DuplicateInBucket(xs, bk, z.nb, groups, o.bucket);
        return DuplicateHash;
      }
      return NoPilot;
    }
    PlacementSolves(xs, bk, z.nb, pos, groups, order, pilots[..], words[..]);
    r := Finish(xs, z, mixer, Plan(groups, order, pilots[..]), pilots[..], words);
    BuiltNotUnplaced(xs, z, mixer);
  }

  lemma BuiltNotUnplaced(xs: seq<nat>, z: Sizing, mixer: Mixer)
    requires Buildable(xs, z, mixer)
    ensures forall ks :: !FirstUnplaced(xs, z, mixer, ks)
  {
    forall ks | FirstUnplaced(xs, z, mixer, ks)
      ensures false
    {
      UnplacedUnique(xs, z, mixer, ks);
    }
  }

  /** Widths, packed sections and the remap table. */
  method Finish(xs: seq<nat>, z: Sizing, mixer: Mixer, ghost pl: Plan, pilots: seq<nat>, words: array<Word>) returns (r: BuildResult)
    requires ValidSizing(|xs|, z) && PlanFor(xs, z, mixer, pl) && pilots == pl.disp
    requires Marks(words[..], Taken(Position(mixer, z.m), pl)) && z.m <= 64 * words.Length
    ensures r.Built? && IsTable(r.t, xs, z, mixer)
  {
    DispBounded(xs, Buckets(xs, z), z.nb, Position(mixer, z.m), pl);
    TakenIsFull(xs, z, mixer, pl);
    var free := FillFree(words, |xs|, z.m, Taken(Position(mixer, z.m), pl));
    var fw, front := PackSection(pilots[..z.p2]);
    var bw, back := PackSection(pilots[z.p2..]);
    var t := Table(|xs|, z.m, z.nb, z.p2, z.p1thr, fw, bw, front, back, free[..]);
    assert t == Encode(|xs|, z, pilots, Taken(Position(mixer, z.m), pl));
    r := Built(t);
  }

  // ------------------------------------------------ independence of key order --

  lemma {:induction false} PairsCount(xs: seq<nat>, bk: seq<nat>, x: nat, bx: nat, b: nat)
    requires |xs| == |bk| && forall i | 0 <= i < |xs| && xs[i] == x :: bk[i] == bx
    ensures multiset(Pairs(xs, bk))[(x, b)] == if b == bx then multiset(xs)[x] else 0
  {
    if |xs| > 0 {
      var n := |xs| - 1;
      PairsCount(xs[..n], bk[..n], x, bx, b);
      assert xs == xs[..n] + [xs[n]];
    }
  }

  lemma PairsPermuted(xs: seq<nat>, ys: seq<nat>, z: Sizing)
    requires 1 <= z.p2 < z.nb && multiset(xs) == multiset(ys)
    ensures multiset(Pairs(xs, Buckets(xs, z))) == multiset(Pairs(ys, Buckets(ys, z)))
  {
    forall p: (nat, nat)
      ensures multiset(Pairs(xs, Buckets(xs, z)))[p] == multiset(Pairs(ys, Buckets(ys, z)))[p]
    {
      PairsCount(xs, Buckets(xs, z), p.0, BucketOf(p.0, z), p.1);
      PairsCount(ys, Buckets(ys, z), p.0, BucketOf(p.0, z), p.1);
    }
  }

  /** Permuting the keys changes nothing: the same table bytes, or failure both times. */
  lemma OrderIndependent(xs: seq<nat>, ys: seq<nat>, z: Sizing, mixer: Mixer, t: Table)
    requires multiset(xs) == multiset(ys) && IsTable(t, xs, z, mixer)
    ensures IsTable(t, ys, z, mixer)
  {
    assert |xs| == |multiset(xs)| == |multiset(ys)| == |ys|;
    var pl :| PlanFor(xs, z, mixer, pl) && t == Encode(|xs|, z, pl.disp, Taken(Position(mixer, z.m), pl));
    PairsPermuted(xs, ys, z);
    PlanPermuted(xs, Buckets(xs, z), ys, Buckets(ys, z), z.nb, Position(mixer, z.m), pl);
    assert PlanFor(ys, z, mixer, pl.(groups := Regroup(ys, Buckets(ys, z), z.nb)));
  }

  /** and failure for the same reason: the first bucket without a pilot holds the same keys. */
  lemma FailureIndependent(xs: seq<nat>, ys: seq<nat>, z: Sizing, mixer: Mixer, ks: seq<nat>) returns (ls: seq<nat>)
    requires multiset(xs) == multiset(ys) && FirstUnplaced(xs, z, mixer, ks)
    ensures FirstUnplaced(ys, z, mixer, ls) && multiset(ls) == multiset(ks) && (Distinct(ls) <==> Distinct(ks))
  {
    assert |xs| == |multiset(xs)| == |multiset(ys)| == |ys|;
    PairsPermuted(xs, ys, z);
    ls := FirstStuckPermuted(xs, Buckets(xs, z), ys, Buckets(ys, z), z.nb, Position(mixer, z.m), ks);
    if Distinct(ks) {
      DistinctPermuted(ks, ls);
    }
    if Distinct(ls) {
      DistinctPermuted(ls, ks);
    }
  }

  /** There is at most one table for a set of keys. */
  lemma TableUnique(xs: seq<nat>, z: Sizing, mixer: Mixer, t: Table, u: Table)
    requires IsTable(t, xs, z, mixer) && IsTable(u, xs, z, mixer)
    ensures t == u
  {
    var pl :| PlanFor(xs, z, mixer, pl) && t == Encode(|xs|, z, pl.disp, Taken(Position(mixer, z.m), pl));
    var ql :| PlanFor(xs, z, mixer, ql) && u == Encode(|xs|, z, ql.disp, Taken(Position(mixer, z.m), ql));
    PlanUnique(xs, Buckets(xs, z), z.nb, Position(mixer, z.m), pl, ql);
  }
}
