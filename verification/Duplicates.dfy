/** firstDuplicate: the lowest row that repeats an earlier key, found by sorting rows by hash. */
module Duplicates {
  import opened Words

  // ------------------------------------------------------------- specification --

  /** Row r has the key of the earlier row q. */
  predicate Repeats(keys: seq<Bytes>, q: nat, r: nat) {
    q < r < |keys| && keys[q] == keys[r]
  }

  ghost predicate IsRepeat(keys: seq<Bytes>, r: nat) {
    exists q :: Repeats(keys, q, r)
  }

  /** first is the earliest row with r's key. */
  ghost predicate EarliestEqual(keys: seq<Bytes>, first: nat, r: nat) {
    Repeats(keys, first, r) && forall q: nat | q < first :: !Repeats(keys, q, r)
  }

  /** r is the lowest row from `from` on that repeats an earlier key. */
  ghost predicate LowestRepeat(keys: seq<Bytes>, from: nat, r: nat) {
    from <= r && IsRepeat(keys, r) && forall p: nat | from <= p < r :: !IsRepeat(keys, p)
  }

  ghost predicate NoRepeat(keys: seq<Bytes>, from: nat) {
    forall p: nat | from <= p :: !IsRepeat(keys, p)
  }

  // ------------------------------------------------------------------- sorting --

  /** The comparison by hash, then by row. */
  predicate Less(hs: seq<nat>, a: nat, b: nat)
    requires a < |hs| && b < |hs|
  {
    hs[a] < hs[b] || (hs[a] == hs[b] && a < b)
  }

  ghost predicate Sorted(hs: seq<nat>, idx: seq<nat>) {
    && (forall p | 0 <= p < |idx| :: idx[p] < |hs|)
    && (forall p, q | 0 <= p < q < |idx| :: Less(hs, idx[p], idx[q]))
  }

  /** The rows below n, sorted. */
  ghost predicate SortedRows(hs: seq<nat>, idx: seq<nat>, n: nat) {
    Sorted(hs, idx) && forall r: nat :: r in idx <==> r < n
  }

  /** Where row r belongs in the sorted rows before it. */
  function Rank(hs: seq<nat>, idx: seq<nat>, r: nat): (p: nat)
    requires r < |hs| && Sorted(hs, idx)
    ensures p <= |idx|
    ensures forall q | 0 <= q < p :: Less(hs, idx[q], r) || idx[q] == r
    ensures p < |idx| ==> Less(hs, r, idx[p])
  {
    if |idx| == 0 then 0
    else if Less(hs, r, idx[|idx| - 1]) then
      var p := Rank(hs, idx[..|idx| - 1], r);
      p
    else |idx|
  }

  method SortRows(hs: seq<nat>) returns (idx: seq<nat>)
    ensures SortedRows(hs, idx, |hs|)
  {
    idx := [];
    for r := 0 to |hs|
      invariant SortedRows(hs, idx, r)
    {
      var p := Rank(hs, idx, r);
      ghost var was := idx;
      idx := idx[..p] + [r] + idx[p..];
      Inserted(hs, was, r, p, idx);
    }
  }

  lemma Inserted(hs: seq<nat>, was: seq<nat>, r: nat, p: nat, now: seq<nat>)
    requires r < |hs| && SortedRows(hs, was, r) && p == Rank(hs, was, r) && now == was[..p] + [r] + was[p..]
    ensures SortedRows(hs, now, r + 1)
  {
    InsertedMembers(was, r, p, now);
    forall q | 0 <= q < p
      ensures Less(hs, was[q], r)
    {
      assert was[q] in was;
    }
    forall q | p <= q < |was|
      ensures Less(hs, r, was[q])
    {
      assert q > p ==> Less(hs, was[p], was[q]);
    }
    InsertedSorted(hs, was, r, p, now);
  }

  lemma InsertedMembers(was: seq<nat>, r: nat, p: nat, now: seq<nat>)
    requires p <= |was| && now == was[..p] + [r] + was[p..]
    ensures forall x: nat :: x in now <==> x in was || x == r
  {
    assert was == was[..p] + was[p..];
  }

  lemma InsertedSorted(hs: seq<nat>, was: seq<nat>, r: nat, p: nat, now: seq<nat>)
    requires r < |hs| && Sorted(hs, was) && p <= |was| && now == was[..p] + [r] + was[p..]
    requires (forall q | 0 <= q < p :: Less(hs, was[q], r)) && forall q | p <= q < |was| :: Less(hs, r, was[q])
    ensures Sorted(hs, now)
  {
  }

  /** Positions are ordered as the rows they hold. */
  lemma Ordered(hs: seq<nat>, idx: seq<nat>, a: nat, b: nat)
    requires Sorted(hs, idx) && a < |idx| && b < |idx| && Less(hs, idx[a], idx[b])
    ensures a < b
  {
  }

  // -------------------------------------------------------------------- search --

  datatype Best = Nobody | Best(row: nat, first: nat)

  /** The outcome for the rows in idx[..p]. */
  ghost predicate BestSoFar(keys: seq<Bytes>, from: nat, idx: seq<nat>, p: nat, best: Best)
    requires p <= |idx|
  {
    && (best.Best? ==> from <= best.row && EarliestEqual(keys, best.first, best.row))
    && (forall k | 0 <= k < p && from <= idx[k] && IsRepeat(keys, idx[k]) :: best.Best? && best.row <= idx[k])
  }

  /** A run of equal hashes: idx[i..j] and nothing else. */
  ghost predicate Run(hs: seq<nat>, idx: seq<nat>, i: nat, j: nat)
    requires forall p | 0 <= p < |idx| :: idx[p] < |hs|
  {
    && i < j <= |idx|
    && (forall p | i <= p < j :: hs[idx[p]] == hs[idx[i]])
    && (forall p | 0 <= p < i :: hs[idx[p]] != hs[idx[i]])
    && (forall p | j <= p < |idx| :: hs[idx[p]] != hs[idx[i]])
  }

  /** An earlier row with the same key lies in the same run, before it. */
  lemma InRun(keys: seq<Bytes>, hs: seq<nat>, idx: seq<nat>, i: nat, j: nat, p: nat, q: nat) returns (k: nat)
    requires |hs| == |keys| && SortedRows(hs, idx, |hs|) && Run(hs, idx, i, j) && i <= p < j
    requires Repeats(keys, q, idx[p]) && hs[q] == hs[idx[p]]
    ensures i <= k < p && idx[k] == q
  {
    assert q in idx;
    k :| 0 <= k < |idx| && idx[k] == q;
    Ordered(hs, idx, k, p);
  }

  /** The scan for the earliest row with row r's key, over the rows before position p of the run. */
  method FindEarliest(keys: seq<Bytes>, hs: seq<nat>, idx: seq<nat>, i: nat, j: nat, p: nat) returns (found: bool, first: nat)
    requires |hs| == |keys| && SortedRows(hs, idx, |hs|) && Run(hs, idx, i, j) && i <= p < j
    requires forall q: nat, r: nat | Repeats(keys, q, r) :: hs[q] == hs[r]
    ensures found ==> EarliestEqual(keys, first, idx[p])
    ensures !found ==> !IsRepeat(keys, idx[p])
  {
    var r := idx[p];
    first := 0;
    for q := i to p
      invariant forall k | i <= k < q :: keys[idx[k]] != keys[r]
    {
      if keys[idx[q]] == keys[r] {
        assert Less(hs, idx[q], idx[p]);
        forall x: nat | x < idx[q]
          ensures !Repeats(keys, x, r)
        {
          if Repeats(keys, x, r) {
            var k := InRun(keys, hs, idx, i, j, p, x);
            Ordered(hs, idx, k, q);
          }
        }
        return true, idx[q];
      }
    }
    if x :| Repeats(keys, x, r) {
      var k := InRun(keys, hs, idx, i, j, p, x);
    }
    found := false;
  }

  method SearchRun(keys: seq<Bytes>, hs: seq<nat>, idx: seq<nat>, from: nat, i: nat, j: nat, best0: Best) returns (best: Best)
    requires |hs| == |keys| && SortedRows(hs, idx, |hs|) && Run(hs, idx, i, j)
    requires forall q: nat, r: nat | Repeats(keys, q, r) :: hs[q] == hs[r]
    requires BestSoFar(keys, from, idx, i, best0)
    ensures BestSoFar(keys, from, idx, j, best)
  {
    best := best0;
    if j - i > 1 {
      FirstOfRun(keys, hs, idx, i, j);
      var p := i + 1;
      while p < j
        invariant i < p <= j && BestSoFar(keys, from, idx, p, best)
      {
        var r := idx[p];
        if !(r < from || (best.Best? && r >= best.row)) {
          var found, first := FindEarliest(keys, hs, idx, i, j, p);
          if found {
            best := Best(r, first);
          }
        }
        p := p + 1;
      }
    } else {
      FirstOfRun(keys, hs, idx, i, j);
    }
  }

  /** The first row of a run repeats nothing. */
  lemma FirstOfRun(keys: seq<Bytes>, hs: seq<nat>, idx: seq<nat>, i: nat, j: nat)
    requires |hs| == |keys| && SortedRows(hs, idx, |hs|) && Run(hs, idx, i, j)
    requires forall q: nat, r: nat | Repeats(keys, q, r) :: hs[q] == hs[r]
    ensures !IsRepeat(keys, idx[i])
  {
    if x :| Repeats(keys, x, idx[i]) {
      var k := InRun(keys, hs, idx, i, j, i, x);
    }
  }

  method RunEnd(hs: seq<nat>, idx: seq<nat>, i: nat) returns (j: nat)
    requires Sorted(hs, idx) && i < |idx| && forall p | 0 <= p < i :: hs[idx[p]] < hs[idx[i]]
    ensures Run(hs, idx, i, j) && (j < |idx| ==> forall p | 0 <= p < j :: hs[idx[p]] < hs[idx[j]])
  {
    j := i + 1;
    while j < |idx| && hs[idx[j]] == hs[idx[i]]
      invariant i < j <= |idx| && forall p | i <= p < j :: hs[idx[p]] == hs[idx[i]]
    {
      j := j + 1;
    }
    if j < |idx| {
      assert Less(hs, idx[i], idx[j]);
      forall p | j <= p < |idx|
        ensures hs[idx[p]] > hs[idx[i]]
      {
        assert p > j ==> Less(hs, idx[j], idx[p]);
      }
    }
  }

  /** firstDuplicate, on row numbers */
  method FindDuplicate(keys: seq<Bytes>, hs: seq<nat>, from: nat) returns (best: Best)
    requires |hs| == |keys| && forall q: nat, r: nat | Repeats(keys, q, r) :: hs[q] == hs[r]
    ensures best.Nobody? <==> NoRepeat(keys, from)
    ensures best.Best? ==> LowestRepeat(keys, from, best.row) && EarliestEqual(keys, best.first, best.row)
  {
    var n := |keys|;
    if n <= from || n < 2 {
      return Nobody;
    }
    var idx := SortRows(hs);
    best := Nobody;
    var i := 0;
    while i < |idx|
      invariant 0 <= i <= |idx| && BestSoFar(keys, from, idx, i, best)
      invariant i < |idx| ==> forall p | 0 <= p < i :: hs[idx[p]] < hs[idx[i]]
    {
      var j := RunEnd(hs, idx, i);
      best := SearchRun(keys, hs, idx, from, i, j, best);
      i := j;
    }
    Everyone(keys, hs, idx, from, best);
  }

  lemma Everyone(keys: seq<Bytes>, hs: seq<nat>, idx: seq<nat>, from: nat, best: Best)
    requires |hs| == |keys| && SortedRows(hs, idx, |hs|) && BestSoFar(keys, from, idx, |idx|, best)
    ensures best.Nobody? <==> NoRepeat(keys, from)
    ensures best.Best? ==> LowestRepeat(keys, from, best.row) && EarliestEqual(keys, best.first, best.row)
  {
    forall r: nat | from <= r && IsRepeat(keys, r)
      ensures best.Best? && best.row <= r
    {
      var q :| Repeats(keys, q, r);
      assert r in idx;
    }
    if best.Best? {
      assert IsRepeat(keys, best.row);
    }
  }
}
