/**
 The plan both builders compute: keys grouped into buckets, the order the buckets are placed in, and the
 displacement (pilot) of each. Key i lies in bucket bk[i].
*/
module Placement {
  import opened Grouping
  import opened BucketOrder
  import opened Greedy
  import opened SlotSearch
  import opened BitPacking

  datatype Plan = Plan(groups: seq<seq<nat>>, order: seq<nat>, disp: seq<nat>)

  predicate InBuckets(keys: seq<nat>, bk: seq<nat>, nb: nat) {
    |keys| == |bk| && forall i | 0 <= i < |bk| :: bk[i] < nb
  }

  /** The keys of each bucket, in input order. */
  ghost predicate IsGrouping(groups: seq<seq<nat>>, keys: seq<nat>, bk: seq<nat>, nb: nat)
    requires |keys| == |bk|
  {
    |groups| == nb && forall b: nat | b < nb :: groups[b] == Select<nat>(keys, bk, b)
  }

  function SizesOf(groups: seq<seq<nat>>): (r: seq<nat>)
    ensures |r| == |groups| && forall b | 0 <= b < |groups| :: r[b] == |groups[b]|
  {
    if |groups| == 0 then [] else SizesOf(groups[..|groups| - 1]) + [|groups[|groups| - 1]|]
  }

  /** The plan is the greedy placement of the keys. */
  ghost predicate Solves(keys: seq<nat>, bk: seq<nat>, nb: nat, pos: Pos, pl: Plan)
    requires |keys| == |bk|
  {
    && IsGrouping(pl.groups, keys, bk, nb) && IsOrder(pl.order, SizesOf(pl.groups)) && InRange(pl.order, nb) && |pl.disp| == nb
    && Placed(pl.groups, pl.order, pl.disp, pos) && Untouched(pl.order, pl.disp)
  }

  /** The positions the plan takes. */
  function Taken(pos: Pos, pl: Plan): set<nat>
    requires |pl.disp| == |pl.groups| && forall i | 0 <= i < |pl.order| :: pl.order[i] < |pl.groups|
  {
    TakenBy(pl.groups, pl.order, pl.disp, pos)
  }

  function PosOf(keys: seq<nat>, bk: seq<nat>, pos: Pos, disp: seq<nat>, i: nat): nat
    requires InBuckets(keys, bk, |disp|) && i < |keys|
  {
    pos(keys[i], disp[bk[i]])
  }

  // ------------------------------------------------------------- injectivity --

  /** Key i of the input is element k of bucket order[j]. */
  lemma Locate(keys: seq<nat>, bk: seq<nat>, nb: nat, pos: Pos, pl: Plan, i: nat) returns (j: nat, k: nat)
    requires InBuckets(keys, bk, nb) && Solves(keys, bk, nb, pos, pl) && i < |keys|
    ensures j < |pl.order| && pl.order[j] == bk[i]
    ensures k == Count(bk[..i], bk[i]) && k < |pl.groups[bk[i]]| && pl.groups[bk[i]][k] == keys[i]
  {
    var b := bk[i];
    SelectAt<nat>(keys, bk, i);
    assert pl.groups[b] == Select<nat>(keys, bk, b);
    k := Count(bk[..i], b);
    assert SizesOf(pl.groups)[b] > 0;
    j :| 0 <= j < |pl.order| && pl.order[j] == b;
  }

  lemma OrderDistinct(order: seq<nat>, sizes: seq<nat>)
    requires IsOrder(order, sizes)
    ensures Distinct(order)
  {
    forall i, j | 0 <= i < j < |order|
      ensures order[i] != order[j]
    {
      assert Before(sizes, order[i], order[j]);
    }
  }

  /** No two keys of the input get the same position; equal keys of one bucket could not have been placed. */
  lemma PlanInjective(keys: seq<nat>, bk: seq<nat>, nb: nat, pos: Pos, pl: Plan, i: nat, j: nat)
    requires InBuckets(keys, bk, nb) && Solves(keys, bk, nb, pos, pl) && i < j < |keys|
    ensures PosOf(keys, bk, pos, pl.disp, i) != PosOf(keys, bk, pos, pl.disp, j)
  {
    var a, k := Locate(keys, bk, nb, pos, pl, i);
    var b, l := Locate(keys, bk, nb, pos, pl, j);
    if PosOf(keys, bk, pos, pl.disp, i) == PosOf(keys, bk, pos, pl.disp, j) {
      if a <= b {
        PlacedInjective(pl.groups, pl.order, pl.disp, pos, a, k, b, l);
      } else {
        PlacedInjective(pl.groups, pl.order, pl.disp, pos, b, l, a, k);
      }
      CountStrict(bk, i, j);
    }
  }

  function PosAll(keys: seq<nat>, bk: seq<nat>, pos: Pos, disp: seq<nat>): (r: seq<nat>)
    requires InBuckets(keys, bk, |disp|)
    ensures |r| == |keys| && forall i: nat | i < |keys| :: r[i] == PosOf(keys, bk, pos, disp, i)
  {
    seq(|keys|, i requires 0 <= i < |keys| => PosOf(keys, bk, pos, disp, i))
  }

  lemma PositionTaken(keys: seq<nat>, bk: seq<nat>, nb: nat, pos: Pos, pl: Plan, i: nat)
    requires InBuckets(keys, bk, nb) && Solves(keys, bk, nb, pos, pl) && i < |keys|
    ensures PosOf(keys, bk, pos, pl.disp, i) in Taken(pos, pl)
  {
    var j, k := Locate(keys, bk, nb, pos, pl, i);
    TakenMember(pl.groups, pl.order, pl.disp, pos, j, k);
  }

  /** Every taken position is the position of some key. */
  lemma TakenHasKey(keys: seq<nat>, bk: seq<nat>, nb: nat, pos: Pos, pl: Plan, s: nat) returns (i: nat)
    requires InBuckets(keys, bk, nb) && Solves(keys, bk, nb, pos, pl) && s in Taken(pos, pl)
    ensures i < |keys| && PosOf(keys, bk, pos, pl.disp, i) == s
  {
    var j, k := TakenOrigin(pl.groups, pl.order, pl.disp, pos, s);
    var b := pl.order[j];
    assert pl.groups[b] == Select<nat>(keys, bk, b);
    SelectMembers<nat>(keys, bk, b, pl.groups[b][k]);
    i :| 0 <= i < |keys| && keys[i] == pl.groups[b][k] && bk[i] == b;
  }

  /** The taken positions are exactly the positions of the keys. */
  lemma TakenIsPositions(keys: seq<nat>, bk: seq<nat>, nb: nat, pos: Pos, pl: Plan)
    requires InBuckets(keys, bk, nb) && Solves(keys, bk, nb, pos, pl)
    ensures Taken(pos, pl) == SlotsOf(PosAll(keys, bk, pos, pl.disp))
  {
    var ps := PosAll(keys, bk, pos, pl.disp);
    forall s | s in Taken(pos, pl)
      ensures s in SlotsOf(ps)
    {
      var i := TakenHasKey(keys, bk, nb, pos, pl, s);
      assert ps[i] == s;
    }
    forall s | s in SlotsOf(ps)
      ensures s in Taken(pos, pl)
    {
      var i: nat :| i < |ps| && ps[i] == s;
      PositionTaken(keys, bk, nb, pos, pl, i);
    }
  }

  lemma DispBounded(keys: seq<nat>, bk: seq<nat>, nb: nat, pos: Pos, pl: Plan)
    requires |keys| == |bk| && Solves(keys, bk, nb, pos, pl)
    ensures forall b | 0 <= b < |pl.disp| :: pl.disp[b] <= LIMIT
  {
    forall b | 0 <= b < |pl.disp|
      ensures pl.disp[b] <= LIMIT
    {
      if b in pl.order {
        var i :| 0 <= i < |pl.order| && pl.order[i] == b;
        assert LeastAt(pl.groups, pl.order, pl.disp, pos, i);
      }
    }
  }

  // -------------------------------------------------------------- uniqueness --

  /** The grouping, the placing order and the displacements are determined by the keys. */
  lemma PlanUnique(keys: seq<nat>, bk: seq<nat>, nb: nat, pos: Pos, pl: Plan, ql: Plan)
    requires |keys| == |bk| && Solves(keys, bk, nb, pos, pl) && Solves(keys, bk, nb, pos, ql)
    ensures pl == ql
  {
    assert pl.groups == ql.groups;
    SameOrder(pl.order, ql.order, SizesOf(pl.groups));
    PlacementUnique(pl.groups, pl.order, pl.disp, ql.disp, pos);
  }

  lemma PlacementSolves(keys: seq<nat>, bk: seq<nat>, nb: nat, pos: Pos, groups: seq<seq<nat>>, order: seq<nat>, disp: seq<nat>, words: seq<Word>)
    requires |keys| == |bk| && IsGrouping(groups, keys, bk, nb) && IsOrder(order, SizesOf(groups)) && InRange(order, nb)
    requires PlacedSoFar(groups, order, disp, words, pos, |order|)
    ensures Solves(keys, bk, nb, pos, Plan(groups, order, disp)) && Marks(words, Taken(pos, Plan(groups, order, disp)))
  {
    assert order[..|order|] == order;
  }

  // --------------------------------------------------------------------- failure --

  /** Groups and order are those the builder computes. */
  ghost predicate Arranges(keys: seq<nat>, bk: seq<nat>, nb: nat, pl: Plan)
    requires |keys| == |bk|
  {
    IsGrouping(pl.groups, keys, bk, nb) && IsOrder(pl.order, SizesOf(pl.groups)) && InRange(pl.order, nb) && |pl.disp| == nb
  }

  /** In the order of the plan, bucket order[n] is the first that no displacement places. */
  ghost predicate StuckPlan(keys: seq<nat>, bk: seq<nat>, nb: nat, pos: Pos, pl: Plan, n: nat)
    requires |keys| == |bk|
  {
    Arranges(keys, bk, nb, pl) && Stuck(pl.groups, pl.order, pl.disp, pos, n)
  }

  /** The keys of the first bucket that cannot be placed. */
  ghost predicate FirstStuck(keys: seq<nat>, bk: seq<nat>, nb: nat, pos: Pos, ks: seq<nat>)
    requires |keys| == |bk|
  {
    exists pl, n: nat :: StuckPlan(keys, bk, nb, pos, pl, n) && pl.groups[pl.order[n]] == ks
  }

  lemma SameArrangement(keys: seq<nat>, bk: seq<nat>, nb: nat, pl: Plan, ql: Plan)
    requires |keys| == |bk| && Arranges(keys, bk, nb, pl) && Arranges(keys, bk, nb, ql)
    ensures pl.groups == ql.groups && pl.order == ql.order
  {
    assert pl.groups == ql.groups;
    SameOrder(pl.order, ql.order, SizesOf(pl.groups));
  }

  /** A placement gets no further than to the bucket where any other is stuck. */
  lemma NotStuckBefore(groups: seq<seq<nat>>, order: seq<nat>, disp: seq<nat>, pos: Pos, n: nat, e: seq<nat>, k: nat)
    requires |disp| == |e| == |groups| && InRange(order, |groups|) && Stuck(groups, order, disp, pos, n)
    requires k <= |order| && Placed(groups, order[..k], e, pos)
    ensures k <= n
  {
    if n < k {
      var o := order[..k];
      assert o[..n] == order[..n] && o[..n + 1][..n] == order[..n];
      PlacedPrefix(groups, o, e, pos, n + 1);
      NextFits(groups, o[..n + 1], disp, e, pos, n);
      assert false;
    }
  }

  lemma SameStuck(keys: seq<nat>, bk: seq<nat>, nb: nat, pos: Pos, pl: Plan, n: nat, ql: Plan, k: nat)
    requires |keys| == |bk| && StuckPlan(keys, bk, nb, pos, pl, n) && StuckPlan(keys, bk, nb, pos, ql, k)
    ensures pl.groups == ql.groups && pl.order == ql.order && n == k
  {
    SameArrangement(keys, bk, nb, pl, ql);
    NotStuckBefore(pl.groups, pl.order, pl.disp, pos, n, ql.disp, k);
    NotStuckBefore(pl.groups, pl.order, ql.disp, pos, k, pl.disp, n);
  }

  /** There is only one such bucket, */
  lemma StuckUnique(keys: seq<nat>, bk: seq<nat>, nb: nat, pos: Pos, ks: seq<nat>, ls: seq<nat>)
    requires |keys| == |bk| && FirstStuck(keys, bk, nb, pos, ks) && FirstStuck(keys, bk, nb, pos, ls)
    ensures ks == ls
  {
    var pl, n: nat :| StuckPlan(keys, bk, nb, pos, pl, n) && pl.groups[pl.order[n]] == ks;
    var ql, k: nat :| StuckPlan(keys, bk, nb, pos, ql, k) && ql.groups[ql.order[k]] == ls;
    SameStuck(keys, bk, nb, pos, pl, n, ql, k);
  }

  lemma StuckNotSolved(keys: seq<nat>, bk: seq<nat>, nb: nat, pos: Pos, pl: Plan, n: nat, ql: Plan)
    requires |keys| == |bk| && StuckPlan(keys, bk, nb, pos, pl, n)
    ensures !Solves(keys, bk, nb, pos, ql)
  {
    if Solves(keys, bk, nb, pos, ql) {
      SameArrangement(keys, bk, nb, pl, ql);
      assert ql.order[..|ql.order|] == ql.order;
      NotStuckBefore(pl.groups, pl.order, pl.disp, pos, n, ql.disp, |ql.order|);
    }
  }

  /** and none if there is a plan. */
  lemma SolvedNotStuck(keys: seq<nat>, bk: seq<nat>, nb: nat, pos: Pos, ql: Plan, ks: seq<nat>)
    requires |keys| == |bk| && FirstStuck(keys, bk, nb, pos, ks)
    ensures !Solves(keys, bk, nb, pos, ql)
  {
    var pl, n: nat :| StuckPlan(keys, bk, nb, pos, pl, n) && pl.groups[pl.order[n]] == ks;
    StuckNotSolved(keys, bk, nb, pos, pl, n, ql);
  }

  // ------------------------------------------------------- independence of order --

  lemma {:induction false} SelectDistinct(keys: seq<nat>, bk: seq<nat>, b: nat)
    requires |keys| == |bk| && Distinct(keys)
    ensures Distinct(Select<nat>(keys, bk, b))
  {
    if |keys| > 0 {
      var n := |keys| - 1;
      SelectDistinct(keys[..n], bk[..n], b);
      SelectMembers<nat>(keys[..n], bk[..n], b, keys[n]);
    }
  }

  function Pairs(keys: seq<nat>, bk: seq<nat>): (r: seq<(nat, nat)>)
    requires |keys| == |bk|
    ensures |r| == |keys|
  {
    if |keys| == 0 then [] else Pairs(keys[..|keys| - 1], bk[..|bk| - 1]) + [(keys[|keys| - 1], bk[|bk| - 1])]
  }

  lemma {:induction false} SelectCount(keys: seq<nat>, bk: seq<nat>, b: nat, x: nat)
    requires |keys| == |bk|
    ensures multiset(Select<nat>(keys, bk, b))[x] == multiset(Pairs(keys, bk))[(x, b)]
  {
    if |keys| > 0 {
      SelectCount(keys[..|keys| - 1], bk[..|bk| - 1], b, x);
    }
  }

  lemma GroupsPermuted(keys: seq<nat>, bk: seq<nat>, keys2: seq<nat>, bk2: seq<nat>, nb: nat, g: seq<seq<nat>>, h: seq<seq<nat>>)
    requires |keys| == |bk| && |keys2| == |bk2| && multiset(Pairs(keys, bk)) == multiset(Pairs(keys2, bk2))
    requires IsGrouping(g, keys, bk, nb) && IsGrouping(h, keys2, bk2, nb)
    ensures SameGroups(g, h) && SizesOf(g) == SizesOf(h)
  {
    forall b: nat | b < nb
      ensures multiset(g[b]) == multiset(h[b]) && |g[b]| == |h[b]|
    {
      forall x: nat
        ensures multiset(g[b])[x] == multiset(h[b])[x]
      {
        SelectCount(keys, bk, b, x);
        SelectCount(keys2, bk2, b, x);
      }
      assert multiset(g[b]) == multiset(h[b]);
      assert |g[b]| == |multiset(g[b])| && |h[b]| == |multiset(h[b])|;
    }
  }

  function Regroup(keys: seq<nat>, bk: seq<nat>, nb: nat): (h: seq<seq<nat>>)
    requires |keys| == |bk|
    ensures IsGrouping(h, keys, bk, nb)
  {
    seq(nb, b requires 0 <= b < nb => Select<nat>(keys, bk, b))
  }

  /** A plan for the keys in one order is, with the groups reordered, a plan for them in any other. */
  lemma PlanPermuted(keys: seq<nat>, bk: seq<nat>, keys2: seq<nat>, bk2: seq<nat>, nb: nat, pos: Pos, pl: Plan)
    requires |keys| == |bk| && |keys2| == |bk2| && multiset(Pairs(keys, bk)) == multiset(Pairs(keys2, bk2))
    requires Solves(keys, bk, nb, pos, pl)
    ensures var ql := pl.(groups := Regroup(keys2, bk2, nb)); Solves(keys2, bk2, nb, pos, ql) && Taken(pos, ql) == Taken(pos, pl)
  {
    var h := Regroup(keys2, bk2, nb);
    GroupsPermuted(keys, bk, keys2, bk2, nb, pl.groups, h);
    PlacedPermuted(pl.groups, h, pl.order, pl.disp, pos);
    TakenPermuted(pl.groups, h, pl.order, pl.disp, pos);
  }

  lemma StuckPermuted(g: seq<seq<nat>>, h: seq<seq<nat>>, order: seq<nat>, disp: seq<nat>, pos: Pos, n: nat)
    requires SameGroups(g, h) && |disp| == |g| && InRange(order, |g|) && Stuck(g, order, disp, pos, n)
    ensures Stuck(h, order, disp, pos, n)
  {
    PlacedPermuted(g, h, order[..n], disp, pos);
    TakenPermuted(g, h, order[..n], disp, pos);
    forall e: nat | e <= LIMIT
      ensures !Fits(h[order[n]], e, TakenBy(h, order[..n], disp, pos), pos)
    {
      if Fits(h[order[n]], e, TakenBy(h, order[..n], disp, pos), pos) {
        FitsPermuted(h[order[n]], g[order[n]], e, TakenBy(h, order[..n], disp, pos), pos);
      }
    }
  }

  lemma StuckPlanPermuted(keys: seq<nat>, bk: seq<nat>, keys2: seq<nat>, bk2: seq<nat>, nb: nat, pos: Pos, pl: Plan, n: nat)
    requires |keys| == |bk| && |keys2| == |bk2| && multiset(Pairs(keys, bk)) == multiset(Pairs(keys2, bk2))
    requires StuckPlan(keys, bk, nb, pos, pl, n)
    ensures var ql := pl.(groups := Regroup(keys2, bk2, nb)); StuckPlan(keys2, bk2, nb, pos, ql, n) && SameGroups(pl.groups, ql.groups)
  {
    var h := Regroup(keys2, bk2, nb);
    GroupsPermuted(keys, bk, keys2, bk2, nb, pl.groups, h);
    StuckPermuted(pl.groups, h, pl.order, pl.disp, pos, n);
  }

  /** The first bucket that cannot be placed is the same one for the keys in any order. */
  lemma FirstStuckPermuted(keys: seq<nat>, bk: seq<nat>, keys2: seq<nat>, bk2: seq<nat>, nb: nat, pos: Pos, ks: seq<nat>) returns (ls: seq<nat>)
    requires |keys| == |bk| && |keys2| == |bk2| && multiset(Pairs(keys, bk)) == multiset(Pairs(keys2, bk2))
    requires FirstStuck(keys, bk, nb, pos, ks)
    ensures multiset(ls) == multiset(ks) && FirstStuck(keys2, bk2, nb, pos, ls)
  {
    var pl, n: nat :| StuckPlan(keys, bk, nb, pos, pl, n) && pl.groups[pl.order[n]] == ks;
    StuckPlanPermuted(keys, bk, keys2, bk2, nb, pos, pl, n);
    ls := Regroup(keys2, bk2, nb)[pl.order[n]];
  }

  // ----------------------------------------------------------------- grouping --

  /** The subslices between consecutive starts. */
  method Slices(start: array<nat>, grp: array<nat>, nb: nat, ghost keys: seq<nat>, ghost bk: seq<nat>) returns (groups: seq<seq<nat>>)
    requires |keys| == |bk| && start.Length == nb + 1
    requires forall b | 0 <= b < nb :: InPlace<nat>(keys, bk, start[..], grp[..], b)
    ensures IsGrouping(groups, keys, bk, nb)
  {
    groups := [];
    for b := 0 to nb
      invariant |groups| == b && forall k: nat | k < b :: groups[k] == Select<nat>(keys, bk, k)
    {
      assert InPlace<nat>(keys, bk, start[..], grp[..], b);
      groups := groups + [grp[start[b]..start[b + 1]]];
    }
  }

  method GroupKeys(keys: seq<nat>, bk: seq<nat>, nb: nat) returns (groups: seq<seq<nat>>)
    requires InBuckets(keys, bk, nb)
    ensures IsGrouping(groups, keys, bk, nb)
  {
    var start, grp := Group<nat>(keys, bk, nb);
    groups := Slices(start, grp, nb, keys, bk);
  }

  lemma DuplicateInBucket(keys: seq<nat>, bk: seq<nat>, nb: nat, groups: seq<seq<nat>>, b: nat)
    requires |keys| == |bk| && IsGrouping(groups, keys, bk, nb) && b < nb && !Distinct(groups[b])
    ensures !Distinct(keys)
  {
    assert groups[b] == Select<nat>(keys, bk, b);
    if Distinct(keys) {
      SelectDistinct(keys, bk, b);
    }
  }

  // ------------------------------------------------------------------ largest --

  function MaxOf(ps: seq<nat>): (m: nat)
    ensures forall i | 0 <= i < |ps| :: ps[i] <= m
    ensures m == 0 || m in ps
  {
    if |ps| == 0 then 0 else
      var r := MaxOf(ps[..|ps| - 1]);
      if ps[|ps| - 1] > r then ps[|ps| - 1] else r
  }

  method Largest(ps: seq<nat>) returns (m: nat)
    ensures m == MaxOf(ps)
  {
    m := 0;
    for i := 0 to |ps|
      invariant m == MaxOf(ps[..i])
    {
      assert ps[..i + 1][..i] == ps[..i];
      if ps[i] > m {
        m := ps[i];
      }
    }
    assert ps[..|ps|] == ps;
  }
}
