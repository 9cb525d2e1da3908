/** The latency histogram: eight buckets per power of two. */
module Histogram {
  import opened Words
  import opened Totals

  const BUCKETS := 512

  /** The highest bucket that a 64-bit value can lie in. */
  const HIGHEST := 495

  /** time.Duration: nanoseconds in 64 bits */
  type Duration = x: int | -0x8000_0000_0000_0000 <= x < 0x8000_0000_0000_0000

  /** 63 - LeadingZeros64(ns): the exponent of the highest set bit */
  function Log2(ns: nat): (e: nat)
    requires ns > 0
  {
    if ns == 1 then 0 else 1 + Log2(ns / 2)
  }

  /** histIndex */
  function Index(ns: nat): nat {
    if ns < 8 then ns else
      Log2AtLeast(ns, 3);
      (Log2(ns) - 2) * 8 + HighBits(ns, Log2(ns) - 3) % 8
  }

  /** c*p - 1 in 64-bit arithmetic */
  function Below64(c: nat, p: nat): U64 {
    (c * p % TWO64 - 1) % TWO64
  }

  /** histUpper */
  function Upper(i: nat): U64 {
    if i < 8 then i else Below64(8 + i % 8 + 1, Pow2(i / 8 - 1))
  }

  // ---------------------------------------------------------------------- bounds --

  lemma {:induction false} Log2Bounds(ns: nat)
    requires ns > 0
    ensures Pow2(Log2(ns)) <= ns < 2 * Pow2(Log2(ns))
  {
    if ns > 1 {
      Log2Bounds(ns / 2);
    }
  }

  lemma Log2AtLeast(ns: nat, k: nat)
    requires ns >= Pow2(k) && ns > 0
    ensures Log2(ns) >= k
  {
    Log2Bounds(ns);
    if Log2(ns) < k {
      Pow2Monotone(Log2(ns) + 1, k);
    }
  }

  lemma Log2AtMost(ns: nat, k: nat)
    requires 0 < ns < Pow2(k)
    ensures Log2(ns) < k
  {
    Log2Bounds(ns);
    if Log2(ns) >= k {
      Pow2Monotone(k, Log2(ns));
    }
  }

  /** ns lies in bucket 8k + q: its four leading bits are q. */
  predicate Leads(ns: nat, k: nat, q: nat) {
    k <= 60 && 8 <= q < 16 && q * Pow2(k) <= ns < (q + 1) * Pow2(k)
  }

  lemma LeadingDigits(ns: nat, q: nat, r: nat, p: nat)
    requires ns == q * p + r && r < p && 8 * p <= ns < 16 * p
    ensures 8 <= q < 16 && q * p <= ns < (q + 1) * p
  {
    if q < 8 {
      MulMonotone(p, q + 1, 8);
    }
    if q >= 16 {
      MulMonotone(p, 16, q);
    }
    assert (q + 1) * p == q * p + p;
  }

  lemma Mod8(k: nat, q: nat)
    requires 8 <= q < 16
    ensures q % 8 == q - 8 && (8 * k + q) / 8 == k + 1 && (8 * k + q) % 8 == q - 8
  {
  }

  lemma Log2Range(ns: nat)
    requires 8 <= ns < TWO64
    ensures 3 <= Log2(ns) < 64 && Pow2(Log2(ns)) <= ns < 2 * Pow2(Log2(ns))
  {
    Pow2Values();
    assert Pow2(3) == 8;
    Log2AtLeast(ns, 3);
    Log2AtMost(ns, 64);
    Log2Bounds(ns);
  }

  lemma IndexForm(ns: nat) returns (k: nat, q: nat)
    requires 8 <= ns < TWO64
    ensures Leads(ns, k, q) && Index(ns) == 8 * k + q
  {
    Log2Range(ns);
    var e := Log2(ns);
    k := e - 3;
    assert Pow2(3) == 8;
    Pow2Add(3, k);
    SplitBits(ns, k);
    q := HighBits(ns, k);
    LeadingDigits(ns, q, LowBits(ns, k), Pow2(k));
    Mod8(k, q);
  }

  lemma PowBound(k: nat)
    requires k <= 60
    ensures 16 * Pow2(k) <= TWO64
  {
    Pow2Add(k, 4);
    assert Pow2(4) == 16;
    Pow2Monotone(k + 4, 64);
    Pow2Values();
  }

  /** The upper bound of bucket 8k + q; that of the last bucket, 495, wraps to 2^64 - 1 as it should. */
  lemma UpperForm(k: nat, q: nat)
    requires k <= 60 && 8 <= q < 16
    ensures Upper(8 * k + q) == (q + 1) * Pow2(k) - 1
  {
    Mod8(k, q);
    PowBound(k);
    assert Upper(8 * k + q) == Below64(q + 1, Pow2(k));
    TopWrap(q + 1, Pow2(k));
  }

  lemma TopWrap(c: nat, p: nat)
    requires 0 < c <= 16 && 0 < p && 16 * p <= TWO64
    ensures Below64(c, p) == c * p - 1
  {
    MulMonotone(p, 1, c);
    MulMonotone(p, c, 16);
    if c * p == TWO64 {
      assert c * p % TWO64 == 0;
    }
  }

  // ------------------------------------------------------------------ properties --

  /** The counter record adds to: negative durations count as zero, and the index is clamped to the table. */
  function Counter(d: Duration): (i: nat)
    ensures i < BUCKETS && (d <= 0 ==> i == 0)
  {
    var i := Index(if d > 0 then d else 0);
    if i >= BUCKETS then BUCKETS - 1 else i
  }

  /** There are 496 buckets in use, so the clamp in record never applies. */
  lemma IndexBound(ns: nat)
    requires ns < TWO64
    ensures Index(ns) <= HIGHEST
    ensures ns < 0x8000_0000_0000_0000 ==> Counter(ns) == Index(ns)
  {
    if ns >= 8 {
      var k, q := IndexForm(ns);
    }
  }

  /** Bounds strictly increase from bucket to bucket. */
  lemma UpperStep(i: nat)
    requires i < 495
    ensures Upper(i) < Upper(i + 1)
  {
    if i >= 8 {
      var k, q := i / 8 - 1, 8 + i % 8;
      UpperForm(k, q);
      if q < 15 {
        UpperForm(k, q + 1);
        MulMonotone(Pow2(k), q + 1, q + 2);
        assert (q + 2) * Pow2(k) == (q + 1) * Pow2(k) + Pow2(k);
      } else {
        UpperForm(k + 1, 8);
      }
    } else if i == 7 {
      UpperForm(0, 8);
    }
  }

  lemma {:induction false} UpperMonotone(i: nat, j: nat)
    requires i <= j <= 495
    ensures Upper(i) <= Upper(j)
  {
    if i < j {
      UpperMonotone(i, j - 1);
      UpperStep(j - 1);
    }
  }

  /** Every value lies above its bucket's predecessor and not above its own bound. */
  lemma InBucket(ns: nat)
    requires ns < TWO64
    ensures ns <= Upper(Index(ns))
    ensures Index(ns) > 0 ==> Upper(Index(ns) - 1) < ns
  {
    if ns >= 8 {
      var k, q := IndexForm(ns);
      UpperForm(k, q);
      if q > 8 {
        UpperForm(k, q - 1);
      } else if k > 0 {
        UpperForm(k - 1, 15);
      }
    }
  }

  /** The buckets partition the values: no other bucket's bounds enclose ns. */
  lemma BucketUnique(ns: nat, i: nat)
    requires ns < TWO64 && i <= 495 && ns <= Upper(i) && (i > 0 ==> Upper(i - 1) < ns)
    ensures i == Index(ns)
  {
    var j := Index(ns);
    InBucket(ns);
    IndexBound(ns);
    if i < j {
      UpperMonotone(i, j - 1);
    } else if j < i {
      UpperMonotone(j, i - 1);
    }
  }

  /** Larger values never lie in lower buckets. */
  lemma IndexMonotone(a: nat, b: nat)
    requires a <= b < TWO64
    ensures Index(a) <= Index(b)
  {
    InBucket(a);
    InBucket(b);
    IndexBound(a);
    if Index(b) < Index(a) {
      UpperMonotone(Index(b), Index(a) - 1);
    }
  }

  lemma WithinEighth(ns: nat, q: nat, p: nat)
    requires 8 <= q && p > 0 && q * p <= ns
    ensures 8 * ((q + 1) * p - 1 - ns) < ns
  {
    MulMonotone(p, 8, q);
    assert (q + 1) * p == q * p + p;
  }

  /** A bucket's bound exceeds its values by less than an eighth. */
  lemma RelativeError(ns: nat)
    requires 0 < ns < TWO64
    ensures 8 * (Upper(Index(ns)) - ns) < ns
  {
    if ns >= 8 {
      var k, q := IndexForm(ns);
      UpperForm(k, q);
      WithinEighth(ns, q, Pow2(k));
    }
  }

  // --------------------------------------------------------------------- counters --

  function Itself(n: nat): int { n }

  /** Samples in the first k buckets. */
  function Samples(c: seq<nat>, k: nat): int
    requires k <= |c|
  {
    Total(c[..k], Itself)
  }

  datatype Snapshot = Snapshot(samples: nat, p50: nat, p95: nat, p99: nat, max: nat)

  datatype Bucket = Bucket(upper: nat, count: nat)

  /** The non-empty buckets in ascending order. */
  function NonEmpty(c: seq<nat>): seq<Bucket> {
    if |c| == 0 then []
    else if c[|c| - 1] > 0 then NonEmpty(c[..|c| - 1]) + [Bucket(Upper(|c| - 1), c[|c| - 1])]
    else NonEmpty(c[..|c| - 1])
  }

  ghost predicate Exported(c: seq<nat>, b: Bucket) {
    exists i :: 0 <= i < |c| && c[i] > 0 && b == Bucket(Upper(i), c[i])
  }

  /** One bucket for every counter that is not zero, with its bound and its count, and no other. */
  ghost predicate Exports(c: seq<nat>, out: seq<Bucket>) {
    && (forall b: Bucket :: b in out <==> Exported(c, b))
    && (forall i, j | 0 <= i < j < |out| :: out[i].upper < out[j].upper)
  }

  predicate InRange(c: seq<nat>) {
    forall i | HIGHEST < i < |c| :: c[i] == 0
  }

  lemma ExportedNext(c: seq<nat>, n: nat, b: Bucket)
    ensures Exported(c + [n], b) <==> Exported(c, b) || (n > 0 && b == Bucket(Upper(|c|), n))
  {
    var d := c + [n];
    if Exported(c, b) {
      var i :| 0 <= i < |c| && c[i] > 0 && b == Bucket(Upper(i), c[i]);
      assert d[i] == c[i];
    }
    if n > 0 && b == Bucket(Upper(|c|), n) {
      assert d[|c|] == n;
    }
  }

  /** The exported buckets are those in use, in ascending order of their bounds. */
  lemma {:induction false} NonEmptyExports(c: seq<nat>)
    requires InRange(c)
    ensures Exports(c, NonEmpty(c))
  {
    if |c| > 0 {
      var n := |c| - 1;
      var front, out := c[..n], NonEmpty(c[..n]);
      NonEmptyExports(front);
      assert c == front + [c[n]];
      forall b: Bucket
        ensures b in NonEmpty(c) <==> Exported(c, b)
      {
        ExportedNext(front, c[n], b);
        assert b in out <==> Exported(front, b);
      }
      if c[n] > 0 {
        forall i | 0 <= i < |out|
          ensures out[i].upper < Upper(n)
        {
          LowerBucket(front, out[i], n);
        }
      }
    }
  }

  lemma LowerBucket(c: seq<nat>, b: Bucket, n: nat)
    requires Exported(c, b) && |c| == n <= HIGHEST
    ensures b.upper < Upper(n)
  {
    var i :| 0 <= i < |c| && c[i] > 0 && b == Bucket(Upper(i), c[i]);
    UpperMonotone(i, n - 1);
    UpperStep(n - 1);
  }

  /** Bucket i holds the sample of that rank. */
  ghost predicate RankAt(c: seq<nat>, rank: nat, i: nat) {
    i < |c| && Samples(c, i) < rank <= Samples(c, i + 1)
  }

  /** The bound of the bucket that holds the sample of that rank. */
  ghost predicate IsQuantile(c: seq<nat>, rank: nat, v: nat) {
    exists i :: RankAt(c, rank, i) && v == Upper(i)
  }

  ghost predicate HighestAt(c: seq<nat>, i: nat) {
    i < |c| && c[i] > 0 && forall j | i < j < |c| :: c[j] == 0
  }

  /** The bound of the highest non-empty bucket. */
  ghost predicate IsMax(c: seq<nat>, v: nat) {
    exists i :: HighestAt(c, i) && v == Upper(i)
  }

  /** A rank of zero counts as one; no sample has a rank beyond their number. */
  ghost predicate QuantileAt(c: seq<nat>, rank: nat, v: nat) {
    if rank <= Total(c, Itself) then IsQuantile(c, if rank < 1 then 1 else rank, v) else v == Upper(BUCKETS - 1)
  }

  /** s summarises the counters c, its quantiles taken at the given ranks. */
  ghost predicate Summarises(c: seq<nat>, ranks: (nat, nat, nat), s: Snapshot) {
    && s.samples == Total(c, Itself)
    && (s.samples == 0 ==> s == Snapshot(0, 0, 0, 0, 0))
    && (s.samples > 0 ==> QuantileAt(c, ranks.0, s.p50) && QuantileAt(c, ranks.1, s.p95) && QuantileAt(c, ranks.2, s.p99))
    && (s.samples > 0 ==> IsMax(c, s.max))
  }

  method Quantile(c: seq<nat>, rank0: nat) returns (v: nat)
    requires |c| == BUCKETS && Total(c, Itself) > 0
    ensures QuantileAt(c, rank0, v)
  {
    var rank := if rank0 < 1 then 1 else rank0;
    var acc: int := 0;
    for i := 0 to |c|
      invariant acc == Samples(c, i) && acc < rank
    {
      TotalPrefix(c, i, Itself);
      acc := acc + c[i];
      if acc >= rank {
        assert RankAt(c, rank, i);
        SamplesGrow(c, i + 1);
        return Upper(i);
      }
    }
    assert c[..|c|] == c;
    v := Upper(|c| - 1);
  }

  lemma {:induction false} SamplesGrow(c: seq<nat>, k: nat)
    requires k <= |c|
    ensures Samples(c, k) <= Total(c, Itself)
    decreases |c| - k
  {
    if k < |c| {
      TotalPrefix(c, k, Itself);
      SamplesGrow(c, k + 1);
    } else {
      assert c[..k] == c;
    }
  }

  method Highest(c: seq<nat>) returns (v: nat)
    requires |c| == BUCKETS && exists i :: 0 <= i < |c| && c[i] > 0
    ensures IsMax(c, v)
  {
    var i := |c| - 1;
    while c[i] == 0
      invariant 0 <= i < |c| && forall j | i < j < |c| :: c[j] == 0
      decreases i
    {
      i := i - 1;
    }
    assert HighestAt(c, i);
    v := Upper(i);
  }

  method Summarise(c: seq<nat>, samples: nat, ranks: (nat, nat, nat)) returns (s: Snapshot)
    requires |c| == BUCKETS && samples == Total(c, Itself)
    ensures Summarises(c, ranks, s)
  {
    if samples == 0 {
      return Snapshot(0, 0, 0, 0, 0);
    }
    SomeSample(c);
    var p50 := Quantile(c, ranks.0);
    var p95 := Quantile(c, ranks.1);
    var p99 := Quantile(c, ranks.2);
    var max := Highest(c);
    s := Snapshot(samples, p50, p95, p99, max);
  }

  lemma SomeSample(c: seq<nat>)
    requires Total(c, Itself) > 0
    ensures exists i :: 0 <= i < |c| && c[i] > 0
  {
    if forall i | 0 <= i < |c| :: c[i] == 0 {
      TotalZero(c, Itself);
    }
  }

  class LatencyHistogram {
    const counts: array<nat>
    const total: array<nat>  // what has been drained

    ghost predicate Valid()
      reads this, counts, total
    {
      && counts != total && counts.Length == BUCKETS && total.Length == BUCKETS
      && InRange(counts[..]) && InRange(total[..])
    }

    /** All samples ever recorded, by bucket. */
    ghost function Recorded(): (c: seq<nat>)
      reads this, counts, total
      requires Valid()
      ensures |c| == BUCKETS && forall i | 0 <= i < BUCKETS :: c[i] == counts[i] + total[i]
    {
      seq(BUCKETS, i requires 0 <= i < BUCKETS reads this, counts, total => counts[i] + total[i])
    }

    constructor ()
      ensures Valid() && fresh(counts) && fresh(total)
      ensures forall i | 0 <= i < BUCKETS :: Recorded()[i] == 0
    {
      counts := new nat[BUCKETS](_ => 0);
      total := new nat[BUCKETS](_ => 0);
    }

    /** record */
    method Record(d: Duration)
      requires Valid()
      modifies counts
      ensures Valid() && Recorded() == old(Recorded())[Counter(d) := old(Recorded())[Counter(d)] + 1]
    {
      var i := Counter(d);
      IndexBound(if d > 0 then d else 0);
      counts[i] := counts[i] + 1;
    }

    /** The loop of drain that takes the counters one by one. */
    method TakeCounts() returns (c: seq<nat>, samples: nat)
      requires Valid()
      modifies counts, total
      ensures Valid() && Recorded() == old(Recorded()) && c == old(counts[..]) && samples == Total(c, Itself)
      ensures forall i | 0 <= i < BUCKETS :: counts[i] == 0
    {
      c, samples := [], 0;
      ghost var was := counts[..];
      for i := 0 to counts.Length
        invariant c == was[..i] && samples == Total(c, Itself)
        invariant forall j | 0 <= j < i :: counts[j] == 0
        invariant forall j | i <= j < BUCKETS :: counts[j] == was[j]
        invariant forall j | 0 <= j < BUCKETS :: counts[j] + total[j] == old(counts[j] + total[j])
      {
        var n := counts[i];
        counts[i] := 0;
        if n != 0 {
          total[i] := total[i] + n;
        }
        TotalAppend(c, n, Itself);
        c := c + [n];
        samples := samples + n;
      }
      assert was[..|was|] == was;
    }

    /** drain; the three ranks are what the source rounds p * samples to */
    method Drain(ranks: (nat, nat, nat)) returns (s: Snapshot)
      requires Valid()
      modifies counts, total
      ensures Valid() && Recorded() == old(Recorded()) && forall i | 0 <= i < BUCKETS :: counts[i] == 0
      ensures Summarises(old(counts[..]), ranks, s)
    {
      var c, samples := TakeCounts();
      s := Summarise(c, samples, ranks);
    }

    /** LatencyBuckets: the buckets in use, ascending; they depend only on what has been recorded, so draining never changes them. */
    method LatencyBuckets() returns (out: seq<Bucket>)
      requires Valid()
      ensures out == NonEmpty(Recorded()) && Exports(Recorded(), out)
    {
      out := [];
      ghost var c := Recorded();
      for i := 0 to counts.Length
        invariant out == NonEmpty(c[..i])
      {
        assert c[..i + 1][..i] == c[..i];
        var n := total[i] + counts[i];
        if n > 0 {
          out := out + [Bucket(Upper(i), n)];
        }
      }
      assert c[..BUCKETS] == c;
      NonEmptyExports(c);
    }
  }
}
