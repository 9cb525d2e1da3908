/**
 Decompress: the in-place decoder with its fast copies. `full` is the destination up to its capacity and
 `n` its length, so `full[n..]` is the scratch space behind it.
*/
module Lz4Decode {
  import opened Words
  import opened Lz4Format

  const SLACK := 40

  // ------------------------------------------------------------------ copying --

  /** PutUint64(full[di:], v) for a word v read beforehand. */
  method Put8(full: array<Byte>, di: nat, word: Bytes)
    requires |word| == 8 && di + 8 <= full.Length
    modifies full
    ensures full[..] == old(full[..di]) + word + old(full[di + 8..])
  {
    forall k | 0 <= k < 8 {
      full[di + k] := word[k];
    }
  }

  /** copy(full[di:], bytes) */
  method PutBytes(full: array<Byte>, di: nat, bytes: Bytes)
    requires di + |bytes| <= full.Length
    modifies full
    ensures full[..] == old(full[..di]) + bytes + old(full[di + |bytes|..])
  {
    forall k | 0 <= k < |bytes| {
      full[di + k] := bytes[k];
    }
  }

  /** Nothing from position p on has changed. */
  twostate predicate SameFrom(full: array<Byte>, p: nat)
    reads full
  {
    forall k | p <= k < full.Length :: full[k] == old(full[k])
  }

  /** Two words, one behind the other. */
  method Put16(full: array<Byte>, di: nat, words: Bytes)
    requires |words| == 16 && di + 16 <= full.Length
    modifies full
    ensures full[..] == old(full[..di]) + words + old(full[di + 16..])
  {
    ghost var was := full[..];
    Put8(full, di, words[..8]);
    ghost var now := full[..];
    assert now == was[..di] + words[..8] + was[di + 8..];
    Put8(full, di + 8, words[8..]);
    Splice(was, now, di, words);
  }

  lemma Splice(was: Bytes, now: Bytes, di: nat, words: Bytes)
    requires |words| == 16 && di + 16 <= |was| && now == was[..di] + words[..8] + was[di + 8..]
    ensures now[..di + 8] + words[8..] + now[di + 16..] == was[..di] + words + was[di + 16..]
  {
  }

  /** The two ways literals are copied; the first may write past the literals. */
  method CopyLiterals(full: array<Byte>, n: nat, di: nat, src: Bytes, si: nat, lit: nat)
    requires n <= full.Length && di + lit <= n && si + lit <= |src|
    modifies full
    ensures full[..di + lit] == old(full[..di]) + src[si..si + lit]
    ensures SameFrom(full, n + SLACK)
  {
    if lit <= 16 && si + 16 <= |src| && di + 16 <= full.Length {
      Put16(full, di, src[si..si + 16]);
      assert src[si..si + lit] == src[si..si + 16][..lit];
    } else {
      PutBytes(full, di, src[si..si + lit]);
    }
  }

  // ------------------------------------------------------------------ matches --

  /** b lies a whole number of offsets after a. */
  predicate Steps(a: nat, b: nat, offset: nat)
    requires offset > 0
    decreases b
  {
    a == b || (b >= a + offset && Steps(a, b - offset, offset))
  }

  lemma {:induction false} StepsAdd(a: nat, b: nat, c: nat, offset: nat)
    requires offset > 0 && Steps(a, b, offset) && Steps(b, c, offset)
    ensures Steps(a, c, offset) && a <= c
    decreases c
  {
    StepsLe(a, b, offset);
    if b < c {
      StepsAdd(a, b, c - offset, offset);
    }
  }

  lemma {:induction false} StepsLe(a: nat, b: nat, offset: nat)
    requires offset > 0 && Steps(a, b, offset)
    ensures a <= b
    decreases b
  {
  }

  lemma {:induction false} StepsShift(a: nat, b: nat, x: nat, offset: nat)
    requires offset > 0 && Steps(a, b, offset)
    ensures Steps(a + x, b + x, offset)
    decreases b
  {
    if a < b {
      StepsShift(a, b - offset, x, offset);
    }
  }

  /** In a periodic stretch, bytes a whole number of offsets apart are equal. */
  lemma {:induction false} PeriodicSteps(s: Bytes, from: nat, to: nat, offset: nat, a: nat, b: nat)
    requires Periodic(s, from, to, offset) && Steps(a, b, offset) && from - offset <= a && b < to
    ensures b < |s| && a < |s| && s[a] == s[b]
    decreases b
  {
    StepsLe(a, b, offset);
    if a < b {
      StepsLe(a, b - offset, offset);
      PeriodicSteps(s, from, to, offset, a, b - offset);
    }
  }

  /** Copying a stretch of whole periods keeps the period. */
  lemma DoublePeriod(s: Bytes, t: Bytes, start: nat, d: nat, m: nat, offset: nat)
    requires Periodic(s, start, d, offset) && start <= d && Steps(start - offset, d, offset)
    requires m <= d - (start - offset) && d + m <= |t| && |t| == |s| && t[..d] == s[..d]
    requires t[d..d + m] == s[start - offset..start - offset + m]
    ensures Periodic(t, start, d + m, offset)
  {
    var from := start - offset;
    forall j | start <= j < d + m
      ensures t[j] == t[j - offset]
    {
      if j < d {
        assert t[j] == t[..d][j] == s[j] && t[j - offset] == t[..d][j - offset] == s[j - offset];
      } else {
        var u := j - d;
        assert t[j] == t[d..d + m][u] == s[from + u];
        if u >= offset {
          assert t[j - offset] == t[d..d + m][u - offset] == s[from + u - offset];
        } else {
          StepsBack(from, d, offset);
          StepsShift(from, d - offset, u, offset);
          PeriodicSteps(s, start, d, offset, from + u, d - offset + u);
          assert t[j - offset] == t[..d][j - offset] == s[j - offset];
        }
      }
    }
  }

  lemma StepsBack(a: nat, b: nat, offset: nat)
    requires offset > 0 && Steps(a, b, offset) && a < b
    ensures b >= offset && Steps(a, b - offset, offset)
  {
  }

  /** Eight-byte chunks; the last may write up to seven bytes past the match. */
  method CopyChunks(full: array<Byte>, n: nat, di: nat, offset: nat, ml: nat)
    requires 8 <= offset <= di && ml <= 32 && di + ml <= n && di + ml + SLACK <= full.Length
    modifies full
    ensures full[..di] == old(full[..di]) && Periodic(full[..], di, di + ml, offset)
    ensures SameFrom(full, n + SLACK)
  {
    var k := 0;
    while k < ml
      invariant 0 <= k <= ml + 7
      invariant full[..di] == old(full[..di])
      invariant Periodic(full[..], di, di + k, offset)
      invariant SameFrom(full, n + SLACK)
      decreases ml - k
    {
      ghost var was := full[..];
      var from := di - offset + k;
      Put8(full, di + k, full[from..from + 8]);
      ghost var now := full[..];
      forall j | di <= j < di + k + 8
        ensures now[j] == now[j - offset]
      {
        if j < di + k {
          assert now[j] == was[j] && now[j - offset] == was[j - offset];
        } else {
          assert now[j] == was[j - offset] == now[j - offset];
        }
      }
      k := k + 8;
    }
  }

  /** Overlapping match: copy everything since the match source, doubling each time. */
  method CopyDoubling(full: array<Byte>, di: nat, offset: nat, ml: nat)
    requires 1 <= offset <= di && di + ml <= full.Length
    modifies full
    ensures full[..di] == old(full[..di]) && Periodic(full[..], di, di + ml, offset)
    ensures SameFrom(full, di + ml)
  {
    var from, end := di - offset, di + ml;
    var d := di;
    StepsOne(from, offset);
    while d < end
      invariant di <= d <= end
      invariant full[..di] == old(full[..di])
      invariant Periodic(full[..], di, d, offset)
      invariant d < end ==> Steps(from, d, offset)
      invariant SameFrom(full, end)
      decreases end - d
    {
      ghost var was := full[..];
      var m := if end - d < d - from then end - d else d - from;
      PutBytes(full, d, full[from..from + m]);
      DoublePeriod(was, full[..], di, d, m, offset);
      if m == d - from {
        StepsShift(from, d, m, offset);
        StepsAdd(from, d, d + m, offset);
      }
      d := d + m;
    }
  }

  lemma StepsOne(a: nat, offset: nat)
    requires offset > 0
    ensures Steps(a, a + offset, offset)
  {
    assert Steps(a, a, offset);
  }

  /** The three ways a match is copied agree with copying it byte by byte. */
  method CopyMatchBytes(full: array<Byte>, n: nat, di: nat, offset: nat, ml: nat)
    requires n <= full.Length && 1 <= offset <= di && di + ml <= n
    modifies full
    ensures full[..di + ml] == CopyMatch(old(full[..di]), offset, ml)
    ensures SameFrom(full, n + SLACK)
  {
    ghost var out := full[..di];
    var from := di - offset;
    if offset >= 8 && ml <= 32 && di + ml + SLACK <= full.Length {
      CopyChunks(full, n, di, offset, ml);
    } else if offset >= ml {
      PutBytes(full, di, full[from..from + ml]);
    } else {
      CopyDoubling(full, di, offset, ml);
    }
    ghost var t := full[..di + ml];
    assert t[..di] == out;
    assert Periodic(t, di, di + ml, offset);
    CopyMatchIff(out, offset, ml, t);
  }

  // ------------------------------------------------------------------ lengths --

  /** The loop that reads a continued length, with its early exit on lengths beyond the destination. */
  method ReadLength(src: Bytes, si: nat, base: nat, n: nat) returns (ok: bool, v: nat, next: nat)
    requires si <= |src|
    ensures ok ==> si < next <= |src| && ReadLen(src[si..], base) == Some((v, src[next..]))
    ensures !ok ==> ReadLen(src[si..], base).None? || ReadLen(src[si..], base).value.0 > n
  {
    v, next := base, si;
    while true
      invariant si <= next <= |src|
      invariant ReadLen(src[si..], base) == ReadLen(src[next..], v)
      decreases |src| - next
    {
      if next >= |src| {
        return false, v, next;
      }
      var b := src[next];
      assert src[next..][1..] == src[next + 1..];
      next := next + 1;
      v := v + b;
      if b != 255 {
        return true, v, next;
      }
      if v > n {
        ReadLenShrinks(src[next..], v);
        return false, v, next;
      }
    }
  }

  /** A nibble and its continuation. */
  method ReadNibble(nibble: nat, src: Bytes, si: nat, n: nat) returns (ok: bool, v: nat, next: nat)
    requires si <= |src|
    ensures ok ==> si <= next <= |src| && Extended(nibble, src[si..]) == Some((v, src[next..]))
    ensures !ok ==> Extended(nibble, src[si..]).None? || Extended(nibble, src[si..]).value.0 > n
  {
    if nibble == 15 {
      ok, v, next := ReadLength(src, si, 15, n);
    } else {
      ok, v, next := true, nibble, si;
    }
  }

  // ------------------------------------------------------------- whole blocks --

  /** The token at si has been read and its literal length is lit, continuing at s1. */
  predicate LitAt(src: Bytes, si: nat, s1: nat, lit: nat) {
    si < s1 <= |src| && Extended(src[si] / 16, src[si + 1..]) == Some((lit, src[s1..]))
  }

  lemma ReadsLit(src: Bytes, si: nat, s1: nat, lit: nat, out: Bytes, n: nat)
    requires LitAt(src, si, s1, lit) && |out| <= n
    ensures Decode(src[si..], out, n) == AfterLength(src[si..], src[s1..], lit, out, n)
  {
    assert src[si..][1..] == src[si + 1..];
  }

  lemma NoLit(src: Bytes, si: nat, out: Bytes, n: nat)
    requires si <= |src| && |out| <= n
    requires si < |src| ==> var e := Extended(src[si] / 16, src[si + 1..]); e.None? || e.value.0 > n - |out|
    ensures Decode(src[si..], out, n).None?
  {
    if si < |src| {
      assert src[si..][1..] == src[si + 1..];
    }
  }

  /** Past the literals: what is left is either the end or a match. */
  function Rest(src: Bytes, si: nat, s2: nat, o1: Bytes, n: nat): Option<Bytes>
    requires si < s2 <= |src| && |o1| <= n
  {
    if s2 == |src| then (if |o1| == n then Some(o1) else None)
    else if s2 + 2 > |src| || Offset(src[s2..]) == 0 || Offset(src[s2..]) > |o1| then None
    else
      match Extended(src[si] % 16, src[s2 + 2..])
      case None => None
      case Some((m, s4)) =>
        if m + 4 > n - |o1| || |s4| >= |src| - si then None else Decode(s4, CopyMatch(o1, Offset(src[s2..]), m + 4), n)
  }

  lemma CopiesLit(src: Bytes, si: nat, s1: nat, lit: nat, out: Bytes, n: nat)
    requires si < s1 && s1 + lit <= |src| && |out| + lit <= n
    ensures AfterLength(src[si..], src[s1..], lit, out, n) == Rest(src, si, s1 + lit, out + src[s1..s1 + lit], n)
  {
    assert src[s1..][..lit] == src[s1..s1 + lit] && src[s1..][lit..] == src[s1 + lit..];
    if s1 + lit + 2 <= |src| {
      assert src[s1 + lit..][2..] == src[s1 + lit + 2..];
    }
  }

  /** The half of an iteration after the literals, when src goes on. */
  method MatchHalf(full: array<Byte>, n: nat, src: Bytes, si: nat, s2: nat, di: nat) returns (ok: bool, next: nat, end: nat)
    requires si < s2 < |src| && di <= n <= full.Length
    modifies full
    ensures !ok ==> Rest(src, si, s2, old(full[..di]), n).None?
    ensures ok ==> s2 < next <= |src| && end <= n
    ensures ok ==> Rest(src, si, s2, old(full[..di]), n) == Decode(src[next..], full[..end], n)
    ensures SameFrom(full, n + SLACK)
  {
    next, end := si, di;
    if s2 + 2 > |src| {
      return false, next, end;
    }
    var offset := Offset(src[s2..]);
    if offset == 0 || offset > di {
      return false, next, end;
    }
    var readMatch, m, s4 := ReadNibble(src[si] % 16, src, s2 + 2, n);
    if !readMatch || m + 4 > n - di {
      return false, next, end;
    }
    CopyMatchBytes(full, n, di, offset, m + 4);
    return true, s4, di + m + 4;
  }

  /** The half of an iteration up to and including the literals. */
  method LiteralHalf(full: array<Byte>, n: nat, src: Bytes, si: nat, di: nat) returns (ok: bool, s2: nat, end: nat)
    requires si <= |src| && di <= n <= full.Length
    modifies full
    ensures !ok ==> Decode(src[si..], old(full[..di]), n).None?
    ensures ok ==> si < s2 <= |src| && end <= n
    ensures ok ==> Decode(src[si..], old(full[..di]), n) == Rest(src, si, s2, full[..end], n)
    ensures SameFrom(full, n + SLACK)
  {
    ghost var out := full[..di];
    s2, end := si, di;
    if si >= |src| {
      NoLit(src, si, out, n);
      return false, s2, end;
    }
    var readLit, lit, s1 := ReadNibble(src[si] / 16, src, si + 1, n);
    if !readLit || lit > n - di {
      NoLit(src, si, out, n);
      return false, s2, end;
    }
    ReadsLit(src, si, s1, lit, out, n);
    if lit > |src| - s1 {
      return false, s2, end;
    }
    CopyLiterals(full, n, di, src, s1, lit);
    CopiesLit(src, si, s1, lit, out, n);
    return true, s1 + lit, di + lit;
  }

  /** Decompress: whatever the capacity behind n, it succeeds with exactly what the format prescribes. */
  method Decompress(full: array<Byte>, n: nat, src: Bytes) returns (ok: bool)
    requires n <= full.Length
    modifies full
    ensures ok <==> Decode(src, [], n).Some?
    ensures ok ==> full[..n] == Decode(src, [], n).value
    ensures SameFrom(full, n + SLACK)
  {
    var si: nat, di: nat := 0, 0;
    while true
      invariant si <= |src| && di <= n
      invariant Decode(src[si..], full[..di], n) == Decode(src, [], n)
      invariant SameFrom(full, n + SLACK)
      decreases |src| - si
    {
      var literals, s2, d1 := LiteralHalf(full, n, src, si, di);
      if !literals {
        return false;
      }
      if s2 == |src| {
        return d1 == n;
      }
      var matched, next, d2 := MatchHalf(full, n, src, si, s2, d1);
      if !matched {
        return false;
      }
      si, di := next, d2;
    }
  }

  /** Two destinations of one length but different capacities: the fast copies change nothing that can be seen. */
  method DecompressTwice(a: array<Byte>, b: array<Byte>, n: nat, src: Bytes) returns (okA: bool, okB: bool)
    requires a != b && n <= a.Length && n <= b.Length
    modifies a, b
    ensures okA == okB
    ensures okA ==> a[..n] == b[..n]
  {
    okA := Decompress(a, n, src);
    okB := Decompress(b, n, src);
  }
}
