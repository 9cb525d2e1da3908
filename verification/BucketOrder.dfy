/** The order in which both builders place buckets: by size descending, then by index ascending. */
module BucketOrder {
  import opened Grouping

  predicate Before(sizes: seq<nat>, a: nat, b: nat)
    requires a < |sizes| && b < |sizes|
  {
    sizes[a] > sizes[b] || (sizes[a] == sizes[b] && a < b)
  }

  /** order lists every non-empty bucket exactly once, each before the ones it precedes. */
  ghost predicate IsOrder(order: seq<nat>, sizes: seq<nat>) {
    && (forall i | 0 <= i < |order| :: order[i] < |sizes| && sizes[order[i]] > 0)
    && (forall i, j | 0 <= i < j < |order| :: Before(sizes, order[i], order[j]))
    && (forall b: nat | b < |sizes| && sizes[b] > 0 :: b in order)
  }

  /** There is one such order. */
  lemma {:induction false} OrderUnique(o: seq<nat>, p: seq<nat>, sizes: seq<nat>, k: nat)
    requires IsOrder(o, sizes) && IsOrder(p, sizes) && k <= |o|
    ensures k <= |p| && o[..k] == p[..k]
  {
    if k > 0 {
      OrderUnique(o, p, sizes, k - 1);
      var i := IndexAfter(o, p, sizes, k - 1);
      assert k - 1 < |p|;
      var j := IndexAfter(p, o, sizes, k - 1);
      assert o[k - 1] == p[k - 1];
    }
  }

  /** The next element of one order occurs in the other at or after the common prefix. */
  lemma IndexAfter(o: seq<nat>, p: seq<nat>, sizes: seq<nat>, k: nat) returns (i: nat)
    requires IsOrder(o, sizes) && IsOrder(p, sizes) && k < |o| && k <= |p| && o[..k] == p[..k]
    ensures k <= i < |p| && p[i] == o[k]
  {
    i :| 0 <= i < |p| && p[i] == o[k];
    if i < k {
      assert Before(sizes, p[..k][i], o[k]) by {
        assert o[..k][i] == o[i];
      }
      assert false;
    }
  }

  lemma SameOrder(o: seq<nat>, p: seq<nat>, sizes: seq<nat>)
    requires IsOrder(o, sizes) && IsOrder(p, sizes)
    ensures o == p
  {
    OrderUnique(o, p, sizes, |o|);
    OrderUnique(p, o, sizes, |p|);
    assert o[..|o|] == o && p[..|p|] == p;
  }

  // -------------------------------------------------- v2: one list per size --

  /** The buckets of one size, ascending: bySize[s]. */
  ghost predicate OfSize(list: seq<nat>, sizes: seq<nat>, limit: nat, s: nat) {
    && (forall i | 0 <= i < |list| :: list[i] < limit <= |sizes| && sizes[list[i]] == s)
    && (forall i, j | 0 <= i < j < |list| :: list[i] < list[j])
    && (forall b: nat | b < limit <= |sizes| && sizes[b] == s :: b in list)
  }

  method MaxSize(sizes: seq<nat>) returns (maxSz: nat)
    ensures forall b | 0 <= b < |sizes| :: sizes[b] <= maxSz
    ensures maxSz == 0 || maxSz in sizes
  {
    maxSz := 0;
    for b := 0 to |sizes|
      invariant forall k | 0 <= k < b :: sizes[k] <= maxSz
      invariant maxSz == 0 || maxSz in sizes
    {
      if sizes[b] > maxSz {
        maxSz := sizes[b];
      }
    }
  }

  method ListBySize(sizes: seq<nat>, maxSz: nat) returns (bySize: array<seq<nat>>)
    requires forall b | 0 <= b < |sizes| :: sizes[b] <= maxSz
    ensures fresh(bySize) && bySize.Length == maxSz + 1
    ensures forall s | 0 <= s <= maxSz :: OfSize(bySize[s], sizes, |sizes|, s)
  {
    bySize := new seq<nat>[maxSz + 1](_ => []);
    for b := 0 to |sizes|
      invariant forall s | 0 <= s <= maxSz :: OfSize(bySize[s], sizes, b, s)
    {
      var s := sizes[b];
      ghost var was := bySize[..];
      assert OfSize(was[s], sizes, b, s);
      bySize[s] := bySize[s] + [b];
      forall t | 0 <= t <= maxSz
        ensures OfSize(bySize[t], sizes, b + 1, t)
      {
        assert OfSize(was[t], sizes, b, t);
      }
    }
  }

  /** What the outer loop over sizes has visited once it is down to size s. */
  ghost predicate VisitedDownTo(order: seq<nat>, sizes: seq<nat>, s: nat) {
    && (forall i | 0 <= i < |order| :: order[i] < |sizes| && sizes[order[i]] > s)
    && (forall i, j | 0 <= i < j < |order| :: Before(sizes, order[i], order[j]))
    && (forall b: nat | b < |sizes| && sizes[b] > s :: b in order)
  }

  /** The nested loops of BuildWith over bySize, from the largest size down to 1. */
  method OrderBySize(sizes: seq<nat>) returns (order: seq<nat>)
    ensures IsOrder(order, sizes)
  {
    var maxSz := MaxSize(sizes);
    var bySize := ListBySize(sizes, maxSz);
    order := [];
    ghost var lists := bySize[..];
    assert forall k | 0 <= k <= maxSz :: OfSize(lists[k], sizes, |sizes|, k);
    var s: nat := maxSz;
    while s >= 1
      invariant s <= maxSz && bySize[..] == lists
      invariant VisitedDownTo(order, sizes, s)
    {
      assert OfSize(lists[s], sizes, |sizes|, s);
      VisitSize(order, bySize[s], sizes, s);
      order := order + bySize[s];
      s := s - 1;
    }
  }

  lemma VisitSize(order: seq<nat>, list: seq<nat>, sizes: seq<nat>, s: nat)
    requires s >= 1 && VisitedDownTo(order, sizes, s) && OfSize(list, sizes, |sizes|, s)
    ensures VisitedDownTo(order + list, sizes, s - 1)
  {
  }

  // ------------------------------------------------ v1: counting sort by size --

  /** The non-empty buckets, and for each how far its size is below the largest. */
  method NonEmpty(sizes: seq<nat>, maxSz: nat) returns (ids: seq<nat>, gap: seq<nat>)
    requires forall b | 0 <= b < |sizes| :: sizes[b] <= maxSz
    ensures |ids| == |gap|
    ensures forall i | 0 <= i < |ids| :: ids[i] < |sizes| && sizes[ids[i]] > 0 && gap[i] == maxSz - sizes[ids[i]]
    ensures forall i, j | 0 <= i < j < |ids| :: ids[i] < ids[j]
    ensures forall b: nat | b < |sizes| && sizes[b] > 0 :: b in ids
  {
    ids, gap := [], [];
    for b := 0 to |sizes|
      invariant |ids| == |gap|
      invariant forall i | 0 <= i < |ids| :: ids[i] < b && sizes[ids[i]] > 0 && gap[i] == maxSz - sizes[ids[i]]
      invariant forall i, j | 0 <= i < j < |ids| :: ids[i] < ids[j]
      invariant forall k: nat | k < b && sizes[k] > 0 :: k in ids
    {
      if sizes[b] > 0 {
        ids, gap := ids + [b], gap + [maxSz - sizes[b]];
      }
    }
  }

  predicate Ascending(r: seq<nat>) {
    forall i, j | 0 <= i < j < |r| :: r[i] < r[j]
  }

  /** An ascending list stays ascending under selection. */
  lemma {:induction false} SelectAscending(ids: seq<nat>, gap: seq<nat>, g: nat)
    requires |ids| == |gap| && Ascending(ids)
    ensures Ascending(Select<nat>(ids, gap, g))
  {
    if |ids| > 0 {
      var n := |ids| - 1;
      var r := Select<nat>(ids[..n], gap[..n], g);
      SelectAscending(ids[..n], gap[..n], g);
      forall i | 0 <= i < |r|
        ensures r[i] < ids[n]
      {
        SelectMembers<nat>(ids[..n], gap[..n], g, r[i]);
      }
    }
  }

  /** The bucket of the layout that holds position p. */
  lemma {:induction false} HolderOf(start: seq<nat>, p: nat, nb: nat) returns (b: nat)
    requires |start| > nb && start[0] == 0 && p < start[nb]
    ensures b < nb && start[b] <= p < start[b + 1]
  {
    b := nb - 1;
    if p < start[b] {
      b := HolderOf(start, p, b);
    }
  }

  lemma {:induction false} StartsAscend(items: seq<nat>, bk: seq<nat>, start: seq<nat>, grp: seq<nat>, a: nat, b: nat)
    requires |items| == |bk| && a <= b < |start|
    requires forall k | 0 <= k < |start| - 1 :: InPlace<nat>(items, bk, start, grp, k)
    ensures start[a] <= start[b]
  {
    if a < b {
      StartsAscend(items, bk, start, grp, a, b - 1);
      assert InPlace<nat>(items, bk, start, grp, b - 1);
    }
  }

  /** The gap of the bucket that lies at position p of the layout. */
  lemma EntryAt(ids: seq<nat>, gap: seq<nat>, start: seq<nat>, grp: seq<nat>, g: nat, p: nat)
    requires |ids| == |gap| && InPlace<nat>(ids, gap, start, grp, g) && start[g] <= p < start[g + 1]
    ensures exists i :: 0 <= i < |ids| && ids[i] == grp[p] && gap[i] == g
  {
    var r := Select<nat>(ids, gap, g);
    assert r[p - start[g]] == grp[p];
    SelectMembers<nat>(ids, gap, g, grp[p]);
  }

  /** Two positions of the sorted layout are in placing order. */
  lemma LayoutBefore(sizes: seq<nat>, maxSz: nat, ids: seq<nat>, gap: seq<nat>, start: seq<nat>, grp: seq<nat>, p: nat, q: nat)
    requires |ids| == |gap| && Ascending(ids) && |start| == maxSz + 2 && start[0] == 0
    requires forall i | 0 <= i < |ids| :: ids[i] < |sizes| && 0 < sizes[ids[i]] <= maxSz && gap[i] == maxSz - sizes[ids[i]]
    requires forall g | 0 <= g < |start| - 1 :: InPlace<nat>(ids, gap, start, grp, g)
    requires p < q < start[maxSz + 1]
    ensures q < |grp| && grp[p] < |sizes| && grp[q] < |sizes| && Before(sizes, grp[p], grp[q])
  {
    var g := HolderOf(start, p, maxSz + 1);
    var h := HolderOf(start, q, maxSz + 1);
    assert InPlace<nat>(ids, gap, start, grp, g) && InPlace<nat>(ids, gap, start, grp, h);
    EntryAt(ids, gap, start, grp, g, p);
    EntryAt(ids, gap, start, grp, h, q);
    if h < g {
      StartsAscend(ids, gap, start, grp, h + 1, g);
    }
    if g == h {
      var r := Select<nat>(ids, gap, g);
      SelectAscending(ids, gap, g);
      assert r[p - start[g]] == grp[p] && r[q - start[g]] == grp[q];
    }
  }

  lemma LayoutComplete(ids: seq<nat>, gap: seq<nat>, start: seq<nat>, grp: seq<nat>, i: nat)
    requires |ids| == |gap| && i < |ids| && InPlace<nat>(ids, gap, start, grp, gap[i])
    ensures ids[i] in grp
  {
    SelectMembers<nat>(ids, gap, gap[i], ids[i]);
    var r := Select<nat>(ids, gap, gap[i]);
    assert ids[i] in r && forall k | 0 <= k < |r| :: r[k] == grp[start[gap[i]] + k];
  }

  /** The counting sort of place over the non-empty buckets. */
  method OrderByCounting(sizes: seq<nat>) returns (order: seq<nat>)
    ensures IsOrder(order, sizes)
  {
    var maxSz := MaxSize(sizes);
    var ids, gap := NonEmpty(sizes, maxSz);
    var start, grp := Group<nat>(ids, gap, maxSz + 1);
    order := grp[..];
    ghost var st := start[..];
    forall p | 0 <= p < |order|
      ensures order[p] < |sizes| && sizes[order[p]] > 0
    {
      var g := HolderOf(st, p, maxSz + 1);
      assert InPlace<nat>(ids, gap, st, order, g);
      EntryAt(ids, gap, st, order, g, p);
    }
    forall p, q | 0 <= p < q < |order|
      ensures Before(sizes, order[p], order[q])
    {
      LayoutBefore(sizes, maxSz, ids, gap, st, order, p, q);
    }
    forall b: nat | b < |sizes| && sizes[b] > 0
      ensures b in order
    {
      var i :| 0 <= i < |ids| && ids[i] == b;
      assert InPlace<nat>(ids, gap, st, order, gap[i]);
      LayoutComplete(ids, gap, st, order, i);
    }
  }
}
