/**
 Bucket grouping: the counting sort that lays rows out bucket by bucket, and the order in which buckets
 are placed (size descending, index ascending).
*/
module Grouping {

  // ---------------------------------------------------------- specification --

  /** The items whose bucket is b, in their original order. */
  function Select<T>(items: seq<T>, bk: seq<nat>, b: nat): (r: seq<T>)
    requires |items| == |bk|
  {
    if |items| == 0 then [] else
      var n := |items| - 1;
      Select(items[..n], bk[..n], b) + if bk[n] == b then [items[n]] else []
  }

  /** How many entries of bk equal b. */
  function Count(bk: seq<nat>, b: nat): nat {
    if |bk| == 0 then 0 else Count(bk[..|bk| - 1], b) + if bk[|bk| - 1] == b then 1 else 0
  }

  /** How many entries of bk are below b: where bucket b starts. */
  function Below(bk: seq<nat>, b: nat): nat {
    if b == 0 then 0 else Below(bk, b - 1) + Count(bk, b - 1)
  }

  lemma {:induction false} SelectLength<T>(items: seq<T>, bk: seq<nat>, b: nat)
    requires |items| == |bk|
    ensures |Select(items, bk, b)| == Count(bk, b)
  {
    if |items| > 0 {
      SelectLength(items[..|items| - 1], bk[..|bk| - 1], b);
    }
  }

  lemma {:induction false} SelectMembers<T>(items: seq<T>, bk: seq<nat>, b: nat, x: T)
    requires |items| == |bk|
    ensures x in Select(items, bk, b) <==> exists i :: 0 <= i < |items| && items[i] == x && bk[i] == b
  {
    var n := |items| - 1;
    if n >= 0 {
      SelectMembers(items[..n], bk[..n], b, x);
      if x in Select(items[..n], bk[..n], b) {
        var i :| 0 <= i < n && items[..n][i] == x && bk[..n][i] == b;
        assert items[i] == x && bk[i] == b;
      }
      if i :| 0 <= i < |items| && items[i] == x && bk[i] == b {
        if i < n {
          assert items[..n][i] == x && bk[..n][i] == b;
        }
      }
    }
  }

  lemma {:induction false} BelowMonotone(bk: seq<nat>, a: nat, b: nat)
    requires a <= b
    ensures Below(bk, a) <= Below(bk, b)
    ensures a < b ==> Below(bk, a) + Count(bk, a) <= Below(bk, b)
  {
    if a < b {
      BelowMonotone(bk, a, b - 1);
    }
  }

  lemma {:induction false} BelowNext(bk: seq<nat>, x: nat, b: nat)
    ensures Below(bk + [x], b) == Below(bk, b) + if x < b then 1 else 0
  {
    if b > 0 {
      BelowNext(bk, x, b - 1);
      assert (bk + [x])[..|bk|] == bk;
    }
  }

  /** When every entry is a bucket below nb, the buckets hold everything. */
  lemma {:induction false} BelowAll(bk: seq<nat>, nb: nat)
    requires forall i | 0 <= i < |bk| :: bk[i] < nb
    ensures Below(bk, nb) == |bk|
  {
    if |bk| == 0 {
      BelowEmpty(nb);
    } else {
      var n := |bk| - 1;
      BelowAll(bk[..n], nb);
      BelowNext(bk[..n], bk[n], nb);
      assert bk == bk[..n] + [bk[n]];
    }
  }

  lemma {:induction false} BelowEmpty(nb: nat)
    ensures Below([], nb) == 0
  {
    if nb > 0 {
      BelowEmpty(nb - 1);
    }
  }

  lemma CountPrefix(bk: seq<nat>, i: nat, b: nat)
    requires i < |bk|
    ensures Count(bk[..i + 1], b) == Count(bk[..i], b) + if bk[i] == b then 1 else 0
  {
    assert bk[..i + 1][..i] == bk[..i];
  }

  lemma SelectPrefix<T>(items: seq<T>, bk: seq<nat>, i: nat, b: nat)
    requires |items| == |bk| && i < |items|
    ensures Select(items[..i + 1], bk[..i + 1], b) == Select(items[..i], bk[..i], b) + if bk[i] == b then [items[i]] else []
  {
    assert items[..i + 1][..i] == items[..i] && bk[..i + 1][..i] == bk[..i];
  }

  lemma {:induction false} CountGrows(bk: seq<nat>, i: nat, b: nat)
    requires i <= |bk|
    ensures Count(bk[..i], b) <= Count(bk, b)
    decreases |bk| - i
  {
    if i < |bk| {
      CountPrefix(bk, i, b);
      CountGrows(bk, i + 1, b);
    } else {
      assert bk[..i] == bk;
    }
  }

  /** Where item i lies within its bucket. */
  lemma {:induction false} SelectAt<T>(items: seq<T>, bk: seq<nat>, i: nat)
    requires |items| == |bk| && i < |items|
    ensures var r, k := Select(items, bk, bk[i]), Count(bk[..i], bk[i]); k < |r| && r[k] == items[i]
  {
    var n := |items| - 1;
    if i == n {
      SelectLength(items[..n], bk[..n], bk[n]);
    } else {
      SelectAt(items[..n], bk[..n], i);
      assert bk[..n][..i] == bk[..i];
    }
  }

  /** Items of one bucket lie in it in input order. */
  lemma CountStrict(bk: seq<nat>, i: nat, j: nat)
    requires i < j < |bk| && bk[i] == bk[j]
    ensures Count(bk[..i], bk[i]) < Count(bk[..j], bk[j])
  {
    CountPrefix(bk, i, bk[i]);
    CountGrows(bk[..j], i + 1, bk[i]);
    assert bk[..j][..i + 1] == bk[..i + 1];
  }

  // ---------------------------------------------------------- counting sort --

  /** `cnt[bucket + 1]++` for every item. */
  method Tally(bk: seq<nat>, nb: nat) returns (cnt: array<nat>)
    requires forall i | 0 <= i < |bk| :: bk[i] < nb
    ensures fresh(cnt) && cnt.Length == nb + 1 && cnt[0] == 0
    ensures forall k | 1 <= k <= nb :: cnt[k] == Count(bk, k - 1)
  {
    cnt := new nat[nb + 1](_ => 0);
    for i := 0 to |bk|
      invariant cnt[0] == 0
      invariant forall k | 1 <= k <= nb :: cnt[k] == Count(bk[..i], k - 1)
    {
      ghost var was := cnt[..];
      cnt[bk[i] + 1] := cnt[bk[i] + 1] + 1;
      forall k | 1 <= k <= nb
        ensures cnt[k] == Count(bk[..i + 1], k - 1)
      {
        assert was[k] == Count(bk[..i], k - 1);
        CountPrefix(bk, i, k - 1);
      }
    }
    assert bk[..|bk|] == bk;
  }

  method CountBuckets(bk: seq<nat>, nb: nat) returns (cnt: array<nat>)
    requires forall i | 0 <= i < |bk| :: bk[i] < nb
    ensures fresh(cnt) && cnt.Length == nb + 1
    ensures forall b | 0 <= b <= nb :: cnt[b] == Below(bk, b)
  {
    cnt := Tally(bk, nb);
    for i := 0 to nb
      invariant forall b | 0 <= b <= i :: cnt[b] == Below(bk, b)
      invariant forall k | i < k <= nb :: cnt[k] == Count(bk, k - 1)
    {
      cnt[i + 1] := cnt[i + 1] + cnt[i];
    }
  }

  /** Bucket b after the first i items: its places up to p hold its items so far. */
  ghost predicate Filled<T>(items: seq<T>, bk: seq<nat>, i: nat, b: nat, grp: seq<T>, p: nat)
    requires |items| == |bk| && i <= |items|
  {
    && p == Below(bk, b) + Count(bk[..i], b)
    && p <= Below(bk, b + 1) <= |grp|
    && grp[Below(bk, b)..p] == Select(items[..i], bk[..i], b)
  }

  /** Item i goes to the next free place p of its bucket c; every other bucket keeps its contents. */
  lemma FillStep<T>(items: seq<T>, bk: seq<nat>, i: nat, grp: seq<T>, c: nat, p: nat, b: nat, pb: nat)
    requires |items| == |bk| && i < |items| && c == bk[i]
    requires Filled(items, bk, i, c, grp, p) && Filled(items, bk, i, b, grp, pb)
    ensures p < Below(bk, c + 1) && p < |grp|
    ensures Filled(items, bk, i + 1, b, grp[p := items[i]], if b == c then p + 1 else pb)
  {
    CountPrefix(bk, i, c);
    CountGrows(bk, i + 1, c);
    CountPrefix(bk, i, b);
    SelectPrefix(items, bk, i, b);
    if b < c {
      BelowMonotone(bk, b + 1, c);
    } else if b > c {
      BelowMonotone(bk, c + 1, b);
    }
  }

  ghost predicate AllFilled<T>(items: seq<T>, bk: seq<nat>, i: nat, nb: nat, grp: seq<T>, pos: seq<nat>)
    requires |items| == |bk| && i <= |items|
  {
    |pos| == nb && forall b | 0 <= b < nb :: Filled(items, bk, i, b, grp, pos[b])
  }

  lemma AllFilledStep<T>(items: seq<T>, bk: seq<nat>, i: nat, nb: nat, grp: seq<T>, pos: seq<nat>)
    requires |items| == |bk| && i < |items| && bk[i] < nb && AllFilled(items, bk, i, nb, grp, pos)
    ensures var c := bk[i]; pos[c] < |grp| && AllFilled(items, bk, i + 1, nb, grp[pos[c] := items[i]], pos[c := pos[c] + 1])
  {
    var c := bk[i];
    FillStep(items, bk, i, grp, c, pos[c], c, pos[c]);
    var g, p := grp[pos[c] := items[i]], pos[c := pos[c] + 1];
    forall b | 0 <= b < nb
      ensures Filled(items, bk, i + 1, b, g, p[b])
    {
      FillStep(items, bk, i, grp, c, pos[c], b, pos[b]);
    }
  }

  lemma NothingFilled<T>(items: seq<T>, bk: seq<nat>, nb: nat, grp: seq<T>, pos: seq<nat>)
    requires |items| == |bk| == |grp| && |pos| == nb && forall i | 0 <= i < |bk| :: bk[i] < nb
    requires forall b | 0 <= b < nb :: pos[b] == Below(bk, b)
    ensures AllFilled(items, bk, 0, nb, grp, pos)
  {
    forall b | 0 <= b < nb
      ensures Filled(items, bk, 0, b, grp, pos[b])
    {
      BelowAll(bk, nb);
      BelowMonotone(bk, b + 1, nb);
    }
  }

  /** Where a bucket lies once all items are in. */
  lemma BucketFilled<T>(items: seq<T>, bk: seq<nat>, b: nat, grp: seq<T>, p: nat)
    requires |items| == |bk| && Filled(items, bk, |items|, b, grp, p)
    ensures Below(bk, b) <= Below(bk, b + 1) <= |grp|
    ensures grp[Below(bk, b)..Below(bk, b + 1)] == Select(items, bk, b)
  {
    assert items[..|items|] == items && bk[..|bk|] == bk;
  }

  /** Bucket b of the layout holds the items of bucket b, in their original order. */
  ghost predicate InPlace<T>(items: seq<T>, bk: seq<nat>, start: seq<nat>, grp: seq<T>, b: nat)
    requires |items| == |bk|
  {
    && b + 1 < |start| && start[b] <= start[b + 1] <= |grp|
    && grp[start[b]..start[b + 1]] == Select(items, bk, b)
  }

  lemma EverythingFilled<T>(items: seq<T>, bk: seq<nat>, nb: nat, grp: seq<T>, pos: seq<nat>, start: seq<nat>)
    requires |items| == |bk| == |grp| && |start| == nb + 1
    requires forall b | 0 <= b <= nb :: start[b] == Below(bk, b)
    requires AllFilled(items, bk, |items|, nb, grp, pos)
    ensures forall b | 0 <= b < nb :: InPlace(items, bk, start, grp, b)
  {
    forall b | 0 <= b < nb
      ensures InPlace(items, bk, start, grp, b)
    {
      BucketFilled(items, bk, b, grp, pos[b]);
    }
  }

  /** A copy of the bucket starts, the write position of each bucket. */
  method CopyStarts(start: array<nat>, nb: nat) returns (pos: array<nat>)
    requires start.Length == nb + 1
    ensures fresh(pos) && pos[..] == start[..nb]
  {
    pos := new nat[nb];
    for b := 0 to nb
      invariant start[..] == old(start[..])
      invariant forall k | 0 <= k < b :: pos[k] == old(start[k])
    {
      pos[b] := start[b];
    }
  }

  method Fill<T(0)>(items: seq<T>, bk: seq<nat>, nb: nat, pos: array<nat>) returns (grp: array<T>)
    requires |items| == |bk| && forall i | 0 <= i < |bk| :: bk[i] < nb
    requires pos.Length == nb && forall b | 0 <= b < nb :: pos[b] == Below(bk, b)
    modifies pos
    ensures fresh(grp) && grp.Length == |items| && AllFilled(items, bk, |items|, nb, grp[..], pos[..])
  {
    grp := new T[|items|];
    NothingFilled(items, bk, nb, grp[..], pos[..]);
    for i := 0 to |items|
      invariant AllFilled(items, bk, i, nb, grp[..], pos[..])
    {
      var c := bk[i];
      ghost var g, p := grp[..], pos[..];
      AllFilledStep(items, bk, i, nb, g, p);
      grp[pos[c]] := items[i];
      pos[c] := pos[c] + 1;
      assert grp[..] == g[p[c] := items[i]] && pos[..] == p[c := p[c] + 1];
    }
  }

  /**
   The grouping pass shared by both formats. Bucket b of the result is
   grp[start[b]..start[b + 1]] and keeps the input order.
  */
  method Group<T(0)>(items: seq<T>, bk: seq<nat>, nb: nat) returns (start: array<nat>, grp: array<T>)
    requires |items| == |bk| && forall i | 0 <= i < |bk| :: bk[i] < nb
    ensures fresh(start) && fresh(grp) && start.Length == nb + 1 && grp.Length == |items|
    ensures start[0] == 0 && start[nb] == |items|
    ensures forall b | 0 <= b < nb :: InPlace(items, bk, start[..], grp[..], b)
  {
    start := CountBuckets(bk, nb);
    BelowAll(bk, nb);
    ghost var counted := start[..];
    var pos := CopyStarts(start, nb);
    assert forall b | 0 <= b < nb :: pos[b] == pos[..][b] == start[b];
    grp := Fill(items, bk, nb, pos);
    assert start[..] == counted;
    EverythingFilled(items, bk, nb, grp[..], pos[..], counted);
  }
}
