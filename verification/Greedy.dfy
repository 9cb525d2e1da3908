/**
 Greedy placement, the search both builders share: each bucket in turn takes the least displacement that
 sends its keys to slots that are free and pairwise different. `pos(x, d)` is the slot of key x under
 displacement d; nothing is assumed about it.
*/
module Greedy {

  type Pos = (nat, nat) -> nat

  const LIMIT := 0xFFFF_FFFF

  // ---------------------------------------------------------- specification --

  predicate Distinct(ks: seq<nat>) {
    forall i, j | 0 <= i < j < |ks| :: ks[i] != ks[j]
  }

  function Slots(ks: seq<nat>, d: nat, pos: Pos): set<nat> {
    set x | x in ks :: pos(x, d)
  }

  /** Displacement d sends the keys to free slots, no two to the same one. */
  ghost predicate Fits(ks: seq<nat>, d: nat, taken: set<nat>, pos: Pos) {
    && (forall i | 0 <= i < |ks| :: pos(ks[i], d) !in taken)
    && (forall i, j | 0 <= i < j < |ks| :: pos(ks[i], d) != pos(ks[j], d))
  }

  ghost predicate Least(ks: seq<nat>, d: nat, taken: set<nat>, pos: Pos) {
    d <= LIMIT && Fits(ks, d, taken, pos) && forall e: nat | e < d :: !Fits(ks, e, taken, pos)
  }

  /** The slots taken by the buckets of order. */
  function TakenBy(groups: seq<seq<nat>>, order: seq<nat>, disp: seq<nat>, pos: Pos): set<nat>
    requires |disp| == |groups| && forall i | 0 <= i < |order| :: order[i] < |groups|
  {
    if |order| == 0 then {} else
      var n := |order| - 1;
      TakenBy(groups, order[..n], disp, pos) + Slots(groups[order[n]], disp[order[n]], pos)
  }

  ghost predicate InRange(order: seq<nat>, n: nat) {
    forall i | 0 <= i < |order| :: order[i] < n
  }

  ghost predicate LeastAt(groups: seq<seq<nat>>, order: seq<nat>, disp: seq<nat>, pos: Pos, i: nat)
    requires |disp| == |groups| && InRange(order, |groups|) && i < |order|
  {
    Least(groups[order[i]], disp[order[i]], TakenBy(groups, order[..i], disp, pos), pos)
  }

  /** Every bucket of order has the least displacement that fits after the buckets before it. */
  ghost predicate Placed(groups: seq<seq<nat>>, order: seq<nat>, disp: seq<nat>, pos: Pos)
    requires |disp| == |groups| && InRange(order, |groups|)
  {
    forall i | 0 <= i < |order| :: LeastAt(groups, order, disp, pos, i)
  }

  /** Buckets that are not in order keep displacement zero. */
  ghost predicate Untouched(order: seq<nat>, disp: seq<nat>) {
    forall b | 0 <= b < |disp| && b !in order :: disp[b] == 0
  }

  // ------------------------------------------------------------- injectivity --

  lemma {:induction false} TakenMember(groups: seq<seq<nat>>, order: seq<nat>, disp: seq<nat>, pos: Pos, i: nat, k: nat)
    requires |disp| == |groups| && InRange(order, |groups|) && i < |order| && k < |groups[order[i]]|
    ensures pos(groups[order[i]][k], disp[order[i]]) in TakenBy(groups, order, disp, pos)
  {
    var n := |order| - 1;
    if i < n {
      TakenMember(groups, order[..n], disp, pos, i, k);
    }
  }

  lemma {:induction false} TakenOrigin(groups: seq<seq<nat>>, order: seq<nat>, disp: seq<nat>, pos: Pos, s: nat) returns (i: nat, k: nat)
    requires |disp| == |groups| && InRange(order, |groups|) && s in TakenBy(groups, order, disp, pos)
    ensures i < |order| && k < |groups[order[i]]| && s == pos(groups[order[i]][k], disp[order[i]])
  {
    var n := |order| - 1;
    if s in TakenBy(groups, order[..n], disp, pos) {
      i, k := TakenOrigin(groups, order[..n], disp, pos, s);
    } else {
      i := n;
      var x :| x in groups[order[n]] && s == pos(x, disp[order[n]]);
      k :| 0 <= k < |groups[order[n]]| && groups[order[n]][k] == x;
    }
  }

  /** Two keys of a placement share a slot only if they are the same key of the same bucket. */
  lemma PlacedInjective(groups: seq<seq<nat>>, order: seq<nat>, disp: seq<nat>, pos: Pos, i: nat, k: nat, j: nat, l: nat)
    requires |disp| == |groups| && InRange(order, |groups|) && Placed(groups, order, disp, pos)
    requires i <= j < |order| && k < |groups[order[i]]| && l < |groups[order[j]]|
    requires pos(groups[order[i]][k], disp[order[i]]) == pos(groups[order[j]][l], disp[order[j]])
    ensures i == j && k == l
  {
    assert LeastAt(groups, order, disp, pos, j);
    if i < j {
      TakenMember(groups, order[..j], disp, pos, i, k);
    }
  }

  lemma PlacedPrefix(groups: seq<seq<nat>>, order: seq<nat>, disp: seq<nat>, pos: Pos, n: nat)
    requires |disp| == |groups| && InRange(order, |groups|) && Placed(groups, order, disp, pos) && n <= |order|
    ensures Placed(groups, order[..n], disp, pos)
  {
    forall i | 0 <= i < n
      ensures LeastAt(groups, order[..n], disp, pos, i)
    {
      assert order[..n][..i] == order[..i];
      assert LeastAt(groups, order, disp, pos, i);
    }
  }

  // ------------------------------------------------ independence of row order --

  lemma {:induction false} DistinctCount(ks: seq<nat>, x: nat)
    requires Distinct(ks)
    ensures multiset(ks)[x] <= 1
  {
    if |ks| > 0 {
      var n := |ks| - 1;
      DistinctCount(ks[..n], x);
      assert ks == ks[..n] + [ks[n]];
      if x == ks[n] {
        assert x !in ks[..n];
      }
    }
  }

  /** A permutation of distinct keys is distinct. */
  lemma DistinctPermuted(ks: seq<nat>, ls: seq<nat>)
    requires multiset(ks) == multiset(ls) && Distinct(ks)
    ensures Distinct(ls)
  {
    forall i, j | 0 <= i < j < |ls|
      ensures ls[i] != ls[j]
    {
      DistinctCount(ks, ls[i]);
      assert ls == ls[..j] + [ls[j]] + ls[j + 1..];
      assert ls[i] in multiset(ls[..j]);
    }
  }

  /** Whether a displacement fits does not depend on the order of the keys. */
  lemma FitsPermuted(ks: seq<nat>, ls: seq<nat>, d: nat, taken: set<nat>, pos: Pos)
    requires multiset(ks) == multiset(ls) && Fits(ks, d, taken, pos)
    ensures Fits(ls, d, taken, pos)
  {
    assert Distinct(ks) by {
      forall i, j | 0 <= i < j < |ks|
        ensures ks[i] != ks[j]
      {
        assert pos(ks[i], d) != pos(ks[j], d);
      }
    }
    DistinctPermuted(ks, ls);
    forall i | 0 <= i < |ls|
      ensures ls[i] in ks
    {
      assert ls[i] in multiset(ls);
    }
  }

  lemma LeastPermuted(ks: seq<nat>, ls: seq<nat>, d: nat, taken: set<nat>, pos: Pos)
    requires multiset(ks) == multiset(ls) && Least(ks, d, taken, pos)
    ensures Least(ls, d, taken, pos)
  {
    FitsPermuted(ks, ls, d, taken, pos);
    forall e: nat | e < d
      ensures !Fits(ls, e, taken, pos)
    {
      if Fits(ls, e, taken, pos) {
        FitsPermuted(ls, ks, e, taken, pos);
      }
    }
  }

  lemma SlotsPermuted(ks: seq<nat>, ls: seq<nat>, d: nat, pos: Pos)
    requires multiset(ks) == multiset(ls)
    ensures Slots(ks, d, pos) == Slots(ls, d, pos)
  {
    forall x
      ensures x in ks <==> x in ls
    {
      assert x in multiset(ks) <==> x in multiset(ls);
    }
  }

  /** Two groupings that hold the same keys in every bucket. */
  ghost predicate SameGroups(g: seq<seq<nat>>, h: seq<seq<nat>>) {
    |g| == |h| && forall b | 0 <= b < |g| :: multiset(g[b]) == multiset(h[b])
  }

  lemma {:induction false} TakenPermuted(g: seq<seq<nat>>, h: seq<seq<nat>>, order: seq<nat>, disp: seq<nat>, pos: Pos)
    requires SameGroups(g, h) && |disp| == |g| && InRange(order, |g|)
    ensures TakenBy(g, order, disp, pos) == TakenBy(h, order, disp, pos)
  {
    if |order| > 0 {
      var n := |order| - 1;
      TakenPermuted(g, h, order[..n], disp, pos);
      SlotsPermuted(g[order[n]], h[order[n]], disp[order[n]], pos);
    }
  }

  /** The same displacements place the same keys given in any order. */
  lemma PlacedPermuted(g: seq<seq<nat>>, h: seq<seq<nat>>, order: seq<nat>, disp: seq<nat>, pos: Pos)
    requires SameGroups(g, h) && |disp| == |g| && InRange(order, |g|) && Placed(g, order, disp, pos)
    ensures Placed(h, order, disp, pos)
  {
    forall i | 0 <= i < |order|
      ensures LeastAt(h, order, disp, pos, i)
    {
      assert LeastAt(g, order, disp, pos, i);
      TakenPermuted(g, h, order[..i], disp, pos);
      LeastPermuted(g[order[i]], h[order[i]], disp[order[i]], TakenBy(g, order[..i], disp, pos), pos);
    }
  }

  lemma {:induction false} TakenAgree(groups: seq<seq<nat>>, order: seq<nat>, d: seq<nat>, e: seq<nat>, pos: Pos)
    requires |d| == |e| == |groups| && InRange(order, |groups|)
    requires forall i | 0 <= i < |order| :: d[order[i]] == e[order[i]]
    ensures TakenBy(groups, order, d, pos) == TakenBy(groups, order, e, pos)
  {
    if |order| > 0 {
      TakenAgree(groups, order[..|order| - 1], d, e, pos);
    }
  }

  lemma LeastUnique(ks: seq<nat>, d: nat, e: nat, taken: set<nat>, pos: Pos)
    requires Least(ks, d, taken, pos) && Least(ks, e, taken, pos)
    ensures d == e
  {
  }

  /** The placement of a grouping in a given order is unique. */
  lemma {:induction false} PlacedUnique(groups: seq<seq<nat>>, order: seq<nat>, d: seq<nat>, e: seq<nat>, pos: Pos, n: nat)
    requires |d| == |e| == |groups| && InRange(order, |groups|) && n <= |order|
    requires Placed(groups, order, d, pos) && Placed(groups, order, e, pos)
    ensures forall i | 0 <= i < n :: d[order[i]] == e[order[i]]
  {
    if n > 0 {
      PlacedUnique(groups, order, d, e, pos, n - 1);
      TakenAgree(groups, order[..n - 1], d, e, pos);
      assert LeastAt(groups, order, d, pos, n - 1) && LeastAt(groups, order, e, pos, n - 1);
      LeastUnique(groups[order[n - 1]], d[order[n - 1]], e[order[n - 1]], TakenBy(groups, order[..n - 1], d, pos), pos);
    }
  }

  lemma PlacementUnique(groups: seq<seq<nat>>, order: seq<nat>, d: seq<nat>, e: seq<nat>, pos: Pos)
    requires |d| == |e| == |groups| && InRange(order, |groups|)
    requires Placed(groups, order, d, pos) && Untouched(order, d)
    requires Placed(groups, order, e, pos) && Untouched(order, e)
    ensures d == e
  {
    PlacedUnique(groups, order, d, e, pos, |order|);
    forall b | 0 <= b < |d|
      ensures d[b] == e[b]
    {
      if b in order {
        var i :| 0 <= i < |order| && order[i] == b;
      }
    }
  }
}
