/** Rows, their records, and the plain map a compiled file has to agree with. */
module Rows {
  import opened Words

  datatype Row = Row(key: Bytes, value: Bytes)

  const MAX_KEY := 65535
  const MAX_VALUE := 0x10_0000

  /** XXH64 of a key: any function. */
  type Hash = Bytes -> U64

  /** CRC32 of a file: any function. */
  type Crc = Bytes -> U32

  datatype Answer = Found(value: Bytes) | NotFound | Corrupted

  predicate Storable(r: Row) {
    |r.key| <= MAX_KEY && |r.value| <= MAX_VALUE
  }

  predicate AllStorable(rows: seq<Row>) {
    forall i | 0 <= i < |rows| :: Storable(rows[i])
  }

  predicate DistinctKeys(rows: seq<Row>) {
    forall i, j | 0 <= i < j < |rows| :: rows[i].key != rows[j].key
  }

  function Keys(rows: seq<Row>): (ks: seq<Bytes>)
    ensures |ks| == |rows| && forall i | 0 <= i < |rows| :: ks[i] == rows[i].key
  {
    if |rows| == 0 then [] else Keys(rows[..|rows| - 1]) + [rows[|rows| - 1].key]
  }

  function AsMap(rows: seq<Row>): map<Bytes, Bytes> {
    if |rows| == 0 then map[] else AsMap(rows[..|rows| - 1])[rows[|rows| - 1].key := rows[|rows| - 1].value]
  }

  /** What a lookup has to answer. */
  function Expected(rows: seq<Row>, key: Bytes): Answer {
    if key in AsMap(rows) then Found(AsMap(rows)[key]) else NotFound
  }

  lemma {:induction false} AsMapKeys(rows: seq<Row>, key: Bytes)
    ensures key in AsMap(rows) <==> exists i :: 0 <= i < |rows| && rows[i].key == key
  {
    if |rows| > 0 {
      var n := |rows| - 1;
      AsMapKeys(rows[..n], key);
      if i :| 0 <= i < |rows| && rows[i].key == key {
        assert i < n ==> rows[..n][i].key == key;
      }
    }
  }

  /** With distinct keys every row is in the map. */
  lemma {:induction false} ExpectedRow(rows: seq<Row>, i: nat)
    requires DistinctKeys(rows) && i < |rows|
    ensures Expected(rows, rows[i].key) == Found(rows[i].value)
  {
    var n := |rows| - 1;
    if i < n {
      ExpectedRow(rows[..n], i);
    }
  }

  lemma ExpectedAbsent(rows: seq<Row>, key: Bytes)
    requires forall i | 0 <= i < |rows| :: rows[i].key != key
    ensures Expected(rows, key) == NotFound
  {
    AsMapKeys(rows, key);
  }

  function Hashes(rows: seq<Row>, hash: Hash): (hs: seq<nat>)
    ensures |hs| == |rows| && forall i | 0 <= i < |rows| :: hs[i] == hash(rows[i].key) < TWO64
  {
    if |rows| == 0 then [] else Hashes(rows[..|rows| - 1], hash) + [hash(rows[|rows| - 1].key)]
  }

  function Mapped<T, U>(s: seq<T>, f: T -> U): (r: seq<U>)
    ensures |r| == |s| && forall i | 0 <= i < |s| :: r[i] == f(s[i])
  {
    if |s| == 0 then [] else Mapped(s[..|s| - 1], f) + [f(s[|s| - 1])]
  }

  lemma {:induction false} MappedConcat<T, U>(s: seq<T>, t: seq<T>, f: T -> U)
    ensures Mapped(s + t, f) == Mapped(s, f) + Mapped(t, f)
  {
    if |t| == 0 {
      assert s + t == s;
    } else {
      assert (s + t)[..|s + t| - 1] == s + t[..|t| - 1];
      MappedConcat(s, t[..|t| - 1], f);
    }
  }

  lemma MappedRemove<T, U>(a: seq<T>, x: T, b: seq<T>, f: T -> U)
    ensures multiset(Mapped(a + [x] + b, f)) == multiset(Mapped(a + b, f)) + multiset{f(x)}
  {
    MappedConcat(a + [x], b, f);
    MappedConcat(a, [x], f);
    MappedConcat(a, b, f);
    assert Mapped([x], f) == [f(x)];
  }

  /** Mapping a permutation gives a permutation. */
  lemma {:induction false} MappedPermuted<T, U>(s: seq<T>, t: seq<T>, f: T -> U)
    requires multiset(s) == multiset(t)
    ensures multiset(Mapped(s, f)) == multiset(Mapped(t, f))
  {
    if |s| == 0 {
      assert |multiset(t)| == 0;
    } else {
      var n := |s| - 1;
      assert s[n] in multiset(t);
      var k :| 0 <= k < |t| && t[k] == s[n];
      var a, b := t[..k], t[k + 1..];
      assert s == s[..n] + [s[n]] + [] && t == a + [t[k]] + b;
      MultisetRemove(s[..n], [], a, b, s[n]);
      assert s[..n] + [] == s[..n];
      MappedPermuted(s[..n], a + b, f);
      MappedRemove(a, t[k], b, f);
      MappedRemove(s[..n], s[n], [], f);
    }
  }

  lemma MultisetRemove<T>(a: seq<T>, b: seq<T>, c: seq<T>, d: seq<T>, x: T)
    requires multiset(a + [x] + b) == multiset(c + [x] + d)
    ensures multiset(a + b) == multiset(c + d)
  {
    assert multiset(a + b) == multiset(a + [x] + b) - multiset{x};
    assert multiset(c + d) == multiset(c + [x] + d) - multiset{x};
  }

  // -------------------------------------------------------------------- records --

  /** key length | key | value */
  function Record(r: Row): (e: Bytes)
    ensures |e| == 2 + |r.key| + |r.value|
  {
    ToBE(|r.key|, 2) + r.key + r.value
  }

  /** The key comparison at the end of every lookup with full keys. */
  function MatchRecord(e: Bytes, key: Bytes): Answer {
    if |e| < 2 then Corrupted else
      var kl := BE(e[..2]);
      if 2 + kl > |e| then Corrupted
      else if e[2..2 + kl] != key then NotFound
      else Found(e[2 + kl..])
  }

  /** A record answers for its own key and for no other. */
  lemma RecordMatches(r: Row, key: Bytes)
    requires Storable(r)
    ensures MatchRecord(Record(r), key) == if key == r.key then Found(r.value) else NotFound
  {
    var e, kl := Record(r), |r.key|;
    Pow2Values();
    BEToBE(kl, 2);
    assert e[..2] == ToBE(kl, 2);
    assert e[2..2 + kl] == r.key;
    assert e[2 + kl..] == r.value;
  }

  /** dataBytes: the record bytes of all rows. */
  function RowBytes(rows: seq<Row>): nat {
    if |rows| == 0 then 0 else RowBytes(rows[..|rows| - 1]) + |Record(rows[|rows| - 1])|
  }
}
