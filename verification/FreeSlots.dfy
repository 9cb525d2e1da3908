/** The remap table of pthash: positions past n that are taken go to the positions below n that are not. */
module FreeSlots {
  import opened Words
  import opened BitPacking
  import opened SlotSearch

  // ---------------------------------------------------------- specification --

  /** The free positions below n, ascending. */
  function Free(taken: set<nat>, n: nat): seq<nat> {
    if n == 0 then [] else Free(taken, n - 1) + if n - 1 in taken then [] else [n - 1]
  }

  /** How many positions of [n, q) are taken. */
  function Overflow(taken: set<nat>, n: nat, q: nat): nat {
    if q <= n then 0 else Overflow(taken, n, q - 1) + if q - 1 in taken then 1 else 0
  }

  function Remap(taken: set<nat>, n: nat, q: nat): nat
    requires q >= n ==> Overflow(taken, n, q) < |Free(taken, n)|
  {
    if q < n then q else Free(taken, n)[Overflow(taken, n, q)]
  }

  /** Entry q - n of the table, for q in [n, m): the k-th taken position gets the k-th free slot. */
  function Entry(taken: set<nat>, n: nat, q: nat): nat {
    if q in taken && Overflow(taken, n, q) < |Free(taken, n)| then Free(taken, n)[Overflow(taken, n, q)] else 0
  }

  function Entries(taken: set<nat>, n: nat, m: nat): (r: seq<nat>)
    requires n <= m
    ensures |r| == m - n && forall i | 0 <= i < m - n :: r[i] == Entry(taken, n, n + i)
  {
    if m == n then [] else Entries(taken, n, m - 1) + [Entry(taken, n, m - 1)]
  }

  /** Little-endian 32-bit words one after another. */
  function Words32(vs: seq<nat>): (s: Bytes)
    ensures |s| == 4 * |vs|
  {
    if |vs| == 0 then [] else Words32(vs[..|vs| - 1]) + ToLE(vs[|vs| - 1], 4)
  }

  function FreeSize(n: nat, m: nat): nat
    requires n <= m
  {
    ((m - n) * 4 + 7) / 8 * 8
  }

  /** The bytes of the section: the entries, zero-padded to a multiple of eight. */
  function FreeBytes(taken: set<nat>, n: nat, m: nat): (s: Bytes)
    requires n <= m
    ensures |s| == FreeSize(n, m)
  {
    Words32(Entries(taken, n, m)) + seq(FreeSize(n, m) - 4 * (m - n), _ => 0)
  }

  lemma {:induction false} WordAt(vs: seq<nat>, i: nat)
    requires i < |vs|
    ensures Words32(vs)[4 * i..4 * i + 4] == ToLE(vs[i], 4)
  {
    var n := |vs| - 1;
    if i < n {
      WordAt(vs[..n], i);
      assert Words32(vs)[4 * i..4 * i + 4] == Words32(vs[..n])[4 * i..4 * i + 4];
    }
  }

  // --------------------------------------------------------------- counting --

  function UpTo(taken: set<nat>, k: nat): set<nat> { set q | q in taken && q < k }

  lemma UpToNext(taken: set<nat>, k: nat)
    ensures |UpTo(taken, k + 1)| == |UpTo(taken, k)| + if k in taken then 1 else 0
  {
    if k in taken {
      assert UpTo(taken, k + 1) == UpTo(taken, k) + {k};
    } else {
      assert UpTo(taken, k + 1) == UpTo(taken, k);
    }
  }

  lemma {:induction false} FreeCount(taken: set<nat>, n: nat)
    ensures |Free(taken, n)| == n - |UpTo(taken, n)|
  {
    if n == 0 {
      assert UpTo(taken, 0) == {};
    } else {
      FreeCount(taken, n - 1);
      UpToNext(taken, n - 1);
    }
  }

  lemma {:induction false} OverflowCount(taken: set<nat>, n: nat, q: nat)
    requires n <= q
    ensures Overflow(taken, n, q) == |UpTo(taken, q)| - |UpTo(taken, n)|
  {
    if q > n {
      OverflowCount(taken, n, q - 1);
      UpToNext(taken, q - 1);
    }
  }

  /** As many positions overflow as are free below n: the remap table never runs out of free slots. */
  lemma OverflowMatchesFree(taken: set<nat>, n: nat, m: nat)
    requires n <= m && |taken| == n && forall q | q in taken :: q < m
    ensures Overflow(taken, n, m) == |Free(taken, n)|
  {
    FreeCount(taken, n);
    OverflowCount(taken, n, m);
    assert UpTo(taken, m) == taken;
  }

  lemma {:induction false} OverflowMonotone(taken: set<nat>, n: nat, p: nat, q: nat)
    requires n <= p < q && p in taken
    ensures Overflow(taken, n, p) < Overflow(taken, n, q)
  {
    if p < q - 1 {
      OverflowMonotone(taken, n, p, q - 1);
    }
  }

  lemma {:induction false} FreeElements(taken: set<nat>, n: nat)
    ensures forall i | 0 <= i < |Free(taken, n)| :: Free(taken, n)[i] < n && Free(taken, n)[i] !in taken
    ensures forall i, j | 0 <= i < j < |Free(taken, n)| :: Free(taken, n)[i] < Free(taken, n)[j]
    ensures forall s: nat | s < n && s !in taken :: s in Free(taken, n)
  {
    if n > 0 {
      FreeElements(taken, n - 1);
    }
  }

  lemma {:induction false} OverflowHits(taken: set<nat>, n: nat, m: nat, k: nat) returns (q: nat)
    requires k < Overflow(taken, n, m)
    ensures n <= q < m && q in taken && Overflow(taken, n, q) == k
  {
    q := m - 1;
    if !(q in taken && Overflow(taken, n, q) == k) {
      q := OverflowHits(taken, n, m - 1, k);
    }
  }

  ghost predicate FullTable(taken: set<nat>, n: nat, m: nat) {
    n <= m && |taken| == n && forall q | q in taken :: q < m
  }

  lemma RemapDefined(taken: set<nat>, n: nat, m: nat, q: nat)
    requires FullTable(taken, n, m) && q in taken
    ensures q >= n ==> Overflow(taken, n, q) < |Free(taken, n)|
    ensures Remap(taken, n, q) < n
  {
    if q >= n {
      OverflowMatchesFree(taken, n, m);
      OverflowMonotone(taken, n, q, m);
      FreeElements(taken, n);
    }
  }

  /** Remapping is one to one on the taken positions. */
  lemma RemapInjective(taken: set<nat>, n: nat, m: nat, p: nat, q: nat)
    requires FullTable(taken, n, m) && p in taken && q in taken && p != q
    ensures p >= n ==> Overflow(taken, n, p) < |Free(taken, n)|
    ensures q >= n ==> Overflow(taken, n, q) < |Free(taken, n)|
    ensures Remap(taken, n, p) != Remap(taken, n, q)
  {
    RemapDefined(taken, n, m, p);
    RemapDefined(taken, n, m, q);
    FreeElements(taken, n);
    if n <= p < q {
      OverflowMonotone(taken, n, p, q);
    } else if n <= q < p {
      OverflowMonotone(taken, n, q, p);
    }
  }

  /** Every slot below n is reached. */
  lemma RemapOnto(taken: set<nat>, n: nat, m: nat, s: nat) returns (q: nat)
    requires FullTable(taken, n, m) && s < n
    ensures q in taken && (q >= n ==> Overflow(taken, n, q) < |Free(taken, n)|) && Remap(taken, n, q) == s
  {
    if s in taken {
      q := s;
    } else {
      FreeElements(taken, n);
      var k :| 0 <= k < |Free(taken, n)| && Free(taken, n)[k] == s;
      OverflowMatchesFree(taken, n, m);
      q := OverflowHits(taken, n, m, k);
    }
  }

  // ------------------------------------------------------------ construction --

  method ListFree(words: array<Word>, n: nat, ghost taken: set<nat>) returns (free: seq<nat>)
    requires Marks(words[..], taken) && n <= 64 * words.Length
    ensures free == Free(taken, n)
  {
    free := [];
    for q := 0 to n
      invariant free == Free(taken, q)
    {
      var occupied := Test(words, q, taken);
      if !occupied {
        free := free + [q];
      }
    }
  }

  /** binary.LittleEndian.PutUint32(data[4*i:], v) */
  method PutWord(data: array<Byte>, i: nat, v: nat)
    requires 4 * i + 4 <= data.Length
    modifies data
    ensures data[..] == old(data[..4 * i]) + ToLE(v, 4) + old(data[4 * i + 4..])
  {
    var bytes := ToLE(v, 4);
    forall k | 0 <= k < 4 {
      data[4 * i + k] := bytes[k];
    }
  }

  function Blank(n: nat): (s: Bytes)
    ensures |s| == n
  {
    seq(n, _ => 0)
  }

  lemma BlankWord()
    ensures Blank(4) == ToLE(0, 4)
  {
    assert ToLE(0, 1) == [0] + ToLE(0, 0);
    assert ToLE(0, 2) == [0] + ToLE(0, 1);
    assert ToLE(0, 3) == [0] + ToLE(0, 2);
    assert ToLE(0, 4) == [0] + ToLE(0, 3);
  }

  /** The section with the entries of positions [n, q) written. */
  function WrittenTo(taken: set<nat>, n: nat, q: nat, size: nat): (s: Bytes)
    requires n <= q && 4 * (q - n) <= size
    ensures |s| == size
  {
    Words32(Entries(taken, n, q)) + Blank(size - 4 * (q - n))
  }

  lemma WriteNext(taken: set<nat>, n: nat, q: nat, size: nat)
    requires n <= q && 4 * (q - n) + 4 <= size
    ensures var s, i := WrittenTo(taken, n, q, size), q - n;
      && WrittenTo(taken, n, q + 1, size) == s[..4 * i] + ToLE(Entry(taken, n, q), 4) + s[4 * i + 4..]
      && (Entry(taken, n, q) == 0 ==> WrittenTo(taken, n, q + 1, size) == s)
  {
    var es := Entries(taken, n, q + 1);
    assert es[..|es| - 1] == Entries(taken, n, q);
    assert Words32(es) == Words32(Entries(taken, n, q)) + ToLE(Entry(taken, n, q), 4);
    assert Blank(size - 4 * (q - n)) == Blank(4) + Blank(size - 4 * (q - n) - 4);
    BlankWord();
  }

  /** The state of the fill loop when position q is next. */
  ghost predicate FilledTo(taken: set<nat>, n: nat, m: nat, q: nat, data: Bytes, fi: nat) {
    && FullTable(taken, n, m) && n <= q <= m && |data| == FreeSize(n, m)
    && fi == Overflow(taken, n, q) && data == WrittenTo(taken, n, q, FreeSize(n, m))
  }

  lemma FilledNext(taken: set<nat>, n: nat, m: nat, q: nat, data: Bytes, fi: nat)
    requires FilledTo(taken, n, m, q, data, fi) && q < m
    ensures 4 * (q - n) + 4 <= |data|
    ensures q in taken ==> fi < |Free(taken, n)|
    ensures var d := if q in taken then data[..4 * (q - n)] + ToLE(Free(taken, n)[fi], 4) + data[4 * (q - n) + 4..] else data;
      FilledTo(taken, n, m, q + 1, d, if q in taken then fi + 1 else fi)
  {
    WriteNext(taken, n, q, FreeSize(n, m));
    OverflowMatchesFree(taken, n, m);
    if q in taken {
      OverflowMonotone(taken, n, q, m);
    }
  }

  lemma FilledStart(taken: set<nat>, n: nat, m: nat)
    requires FullTable(taken, n, m)
    ensures FilledTo(taken, n, m, n, Blank(FreeSize(n, m)), 0)
  {
    assert Words32(Entries(taken, n, n)) == [];
  }

  method FillOne(words: array<Word>, data: array<Byte>, free: seq<nat>, fi: nat, q: nat, n: nat, ghost m: nat, ghost taken: set<nat>) returns (next: nat)
    requires Marks(words[..], taken) && q < m <= 64 * words.Length && free == Free(taken, n)
    requires FilledTo(taken, n, m, q, data[..], fi)
    modifies data
    ensures FilledTo(taken, n, m, q + 1, data[..], next)
  {
    FilledNext(taken, n, m, q, data[..], fi);
    var occupied := Test(words, q, taken);
    next := fi;
    if occupied {
      PutWord(data, q - n, free[fi]);
      next := fi + 1;
    }
  }

  /** The loop of BuildWith that fills the remap table: free[fi] is always there when it is read. */
  method FillFree(words: array<Word>, n: nat, m: nat, ghost taken: set<nat>) returns (data: array<Byte>)
    requires Marks(words[..], taken) && m <= 64 * words.Length && FullTable(taken, n, m)
    ensures fresh(data) && data[..] == FreeBytes(taken, n, m)
  {
    data := new Byte[FreeSize(n, m)](_ => 0);
    assert data[..] == Blank(FreeSize(n, m));
    var free := ListFree(words, n, taken);
    FilledStart(taken, n, m);
    var fi: nat := 0;
    ghost var bits := words[..];
    for q := n to m
      invariant words[..] == bits
      invariant FilledTo(taken, n, m, q, data[..], fi)
    {
      fi := FillOne(words, data, free, fi, q, n, m, taken);
    }
    FilledBytes(taken, n, m, data[..], fi);
  }

  lemma FilledBytes(taken: set<nat>, n: nat, m: nat, data: Bytes, fi: nat)
    requires FilledTo(taken, n, m, m, data, fi)
    ensures data == FreeBytes(taken, n, m)
  {
  }
}
