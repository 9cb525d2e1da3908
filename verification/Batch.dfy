/** GetMany: a batch of keys, looked up in groups, agrees with looking each of them up alone. */
module Batch {
  import opened Words
  import opened Rows

  const GROUP := 32

  /** entry on the pinned mapping, hash included */
  type Lookup = Bytes -> Answer

  datatype Outcome = OutTooSmall | Done(found: nat) | Stopped(found: nat)

  function Hits(keys: seq<Bytes>, lookup: Lookup): nat {
    if |keys| == 0 then 0 else Hits(keys[..|keys| - 1], lookup) + if lookup(keys[|keys| - 1]).Found? then 1 else 0
  }

  function Absent(keys: seq<Bytes>, lookup: Lookup): nat {
    if |keys| == 0 then 0 else Absent(keys[..|keys| - 1], lookup) + if lookup(keys[|keys| - 1]).NotFound? then 1 else 0
  }

  function ValueOf(a: Answer): Option<Bytes> {
    if a.Found? then Some(a.value) else None
  }

  /** The first k keys are resolved: their answers are in out, and the rest of out is as it was. */
  ghost predicate Resolved(keys: seq<Bytes>, lookup: Lookup, was: seq<Option<Bytes>>, now: seq<Option<Bytes>>, k: nat) {
    && k <= |keys| <= |was| == |now|
    && (forall i | 0 <= i < k :: !lookup(keys[i]).Corrupted? && now[i] == ValueOf(lookup(keys[i])))
    && (forall i | k <= i < |now| :: now[i] == was[i])
  }

  /** Key k was the first with a corrupted record. */
  ghost predicate StoppedAt(keys: seq<Bytes>, lookup: Lookup, was: seq<Option<Bytes>>, now: seq<Option<Bytes>>, k: nat, found: nat, misses: nat) {
    && k < |keys| && lookup(keys[k]).Corrupted? && Resolved(keys, lookup, was, now, k)
    && found == Hits(keys[..k], lookup) && misses == Absent(keys[..k], lookup)
  }

  lemma Next(keys: seq<Bytes>, lookup: Lookup, k: nat)
    requires k < |keys|
    ensures Hits(keys[..k + 1], lookup) == Hits(keys[..k], lookup) + if lookup(keys[k]).Found? then 1 else 0
    ensures Absent(keys[..k + 1], lookup) == Absent(keys[..k], lookup) + if lookup(keys[k]).NotFound? then 1 else 0
  {
    assert keys[..k + 1][..k] == keys[..k];
  }

  /** Every resolved key was a hit or a miss. */
  lemma {:induction false} HitsAndMisses(keys: seq<Bytes>, lookup: Lookup)
    requires forall i | 0 <= i < |keys| :: !lookup(keys[i]).Corrupted?
    ensures Hits(keys, lookup) + Absent(keys, lookup) == |keys|
  {
    if |keys| > 0 {
      HitsAndMisses(keys[..|keys| - 1], lookup);
    }
  }

  /** One group: keys from base up to the next multiple of the group size. */
  method ResolveGroup(keys: seq<Bytes>, base: nat, end: nat, lookup: Lookup, out: array<Option<Bytes>>, ghost was: seq<Option<Bytes>>)
      returns (ok: bool, k: nat, found: nat, misses: nat)
    requires base <= end <= |keys| && Resolved(keys, lookup, was, out[..], base)
    modifies out
    ensures base <= k <= end && Resolved(keys, lookup, was, out[..], k)
    ensures ok <==> k == end
    ensures !ok ==> lookup(keys[k]).Corrupted?
    ensures found == Hits(keys[..k], lookup) - Hits(keys[..base], lookup) && misses == Absent(keys[..k], lookup) - Absent(keys[..base], lookup)
  {
    k, found, misses := base, 0, 0;
    while k < end
      invariant base <= k <= end && Resolved(keys, lookup, was, out[..], k)
      invariant found == Hits(keys[..k], lookup) - Hits(keys[..base], lookup)
      invariant misses == Absent(keys[..k], lookup) - Absent(keys[..base], lookup)
    {
      Next(keys, lookup, k);
      match lookup(keys[k]) {
        case Found(v) =>
          out[k] := Some(v);
          found := found + 1;
        case NotFound =>
          out[k] := None;
          misses := misses + 1;
        case Corrupted =>
          return false, k, found, misses;
      }
      k := k + 1;
    }
    ok := true;
  }

  /**
   GetMany: out[i] is what looking keys[i] up alone gives, up to the first corrupted record, where it stops;
   it reports the keys found and counts the ones that are absent.
  */
  method GetMany(keys: seq<Bytes>, lookup: Lookup, out: array<Option<Bytes>>) returns (r: Outcome, misses: nat)
    modifies out
    ensures r.OutTooSmall? <==> out.Length < |keys|
    ensures r.OutTooSmall? ==> out[..] == old(out[..]) && misses == 0
    ensures r.Done? <==> |keys| <= out.Length && forall i | 0 <= i < |keys| :: !lookup(keys[i]).Corrupted?
    ensures r.Done? ==> Resolved(keys, lookup, old(out[..]), out[..], |keys|)
    ensures r.Done? ==> r.found == Hits(keys, lookup) && misses == Absent(keys, lookup) && r.found + misses == |keys|
    ensures r.Stopped? ==> exists k :: StoppedAt(keys, lookup, old(out[..]), out[..], k, r.found, misses)
  {
    misses := 0;
    if out.Length < |keys| {
      return OutTooSmall, 0;
    }
    if |keys| == 0 {
      return Done(0), 0;
    }
    ghost var was := out[..];
    var base, found: nat := 0, 0;
    while base < |keys|
      invariant 0 <= base <= |keys| && Resolved(keys, lookup, was, out[..], base)
      invariant found == Hits(keys[..base], lookup) && misses == Absent(keys[..base], lookup)
      decreases |keys| - base
    {
      var end := if base + GROUP < |keys| then base + GROUP else |keys|;
      var ok, k, f, n := ResolveGroup(keys, base, end, lookup, out, was);
      found, misses := found + f, misses + n;
      if !ok {
        assert StoppedAt(keys, lookup, was, out[..], k, found, misses);
        return Stopped(found), misses;
      }
      base := end;
    }
    assert keys[..base] == keys;
    HitsAndMisses(keys, lookup);
    r := Done(found);
  }
}
