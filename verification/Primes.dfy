/** tableSizes: trial division over 6k±1, and the least prime that is large enough. */
module Primes {
  import opened Words

  predicate Divides(d: nat, n: nat) {
    d > 0 && n % d == 0
  }

  ghost predicate Prime(n: nat) {
    n >= 2 && forall d | 2 <= d < n :: !Divides(d, n)
  }

  // --------------------------------------------------------------- divisibility --

  lemma Multiple(d: nat, k: nat)
    requires d > 0
    ensures Divides(d, d * k)
  {
    DivMod(0, d, k);
  }

  lemma Factor(d: nat, n: nat) returns (k: nat)
    requires Divides(d, n)
    ensures n == d * k
  {
    k := n / d;
  }

  lemma DividesTransitive(a: nat, b: nat, c: nat)
    requires Divides(a, b) && Divides(b, c)
    ensures Divides(a, c)
  {
    var x := Factor(a, b);
    var y := Factor(b, c);
    assert c == a * (x * y);
    Multiple(a, x * y);
  }

  lemma DividesDifference(d: nat, a: nat, b: nat)
    requires Divides(d, a) && Divides(d, a + b)
    ensures Divides(d, b)
  {
    var x := Factor(d, a);
    var y := Factor(d, a + b);
    if y < x {
      MulMonotone(d, y, x);
      assert b == 0;
    } else {
      assert b == d * (y - x);
      Multiple(d, y - x);
    }
  }

  lemma DividesLe(d: nat, n: nat)
    requires Divides(d, n) && n > 0
    ensures d <= n
  {
    var k := Factor(d, n);
    MulMonotone(d, 1, k);
  }

  /** A composite number has a divisor whose square is not larger. */
  lemma SmallDivisor(n: nat, d: nat) returns (e: nat)
    requires 2 <= d < n && Divides(d, n)
    ensures 2 <= e <= d && Divides(e, n) && e * e <= n
  {
    var k := Factor(d, n);
    if d <= k {
      e := d;
      MulMonotone(d, d, k);
    } else {
      e := k;
      assert n == k * d;
      Multiple(k, d);
      MulMonotone(k, k, d);
      if k < 2 {
        assert false;
      }
    }
  }

  // -------------------------------------------------------------------- isPrime --

  /** Every d below b that could divide a number prime to 6 has been tried. */
  ghost predicate Tried(n: nat, b: nat) {
    forall d | 2 <= d < b :: !Divides(d, n)
  }

  lemma Residues(i: nat)
    requires i % 6 == 5
    ensures (i + 1) % 2 == 0 && (i + 3) % 2 == 0 && (i + 5) % 2 == 0 && (i + 4) % 3 == 0
  {
    var q := i / 6;
    assert i + 1 == 0 + 2 * (3 * q + 3) && i + 3 == 0 + 2 * (3 * q + 4) && i + 5 == 0 + 2 * (3 * q + 5) && i + 4 == 0 + 3 * (2 * q + 3);
    DivMod(0, 2, 3 * q + 3);
    DivMod(0, 2, 3 * q + 4);
    DivMod(0, 2, 3 * q + 5);
    DivMod(0, 3, 2 * q + 3);
  }

  lemma NotPrimeToSix(n: nat, i: nat, d: nat)
    requires i % 6 == 5 && !Divides(2, n) && !Divides(3, n) && (d == i + 1 || d == i + 3 || d == i + 4 || d == i + 5)
    ensures !Divides(d, n)
  {
    Residues(i);
    if Divides(d, n) {
      if d == i + 4 {
        ThreeDivides(d);
        DividesTransitive(3, d, n);
      } else {
        EvenDivides(d);
        DividesTransitive(2, d, n);
      }
    }
  }

  /** Six consecutive candidates: only i and i + 2 are prime to 6. */
  lemma TriedSix(n: nat, i: nat)
    requires i % 6 == 5 && Tried(n, i) && !Divides(i, n) && !Divides(i + 2, n) && !Divides(2, n) && !Divides(3, n)
    ensures Tried(n, i + 6)
  {
    forall d | 2 <= d < i + 6
      ensures !Divides(d, n)
    {
      if d > i && d != i + 2 {
        NotPrimeToSix(n, i, d);
      }
    }
  }

  lemma EvenDivides(d: nat)
    requires d % 2 == 0
    ensures Divides(2, d)
  {
  }

  lemma ThreeDivides(d: nat)
    requires d % 3 == 0
    ensures Divides(3, d)
  {
  }

  lemma TriedEnough(n: nat, b: nat)
    requires n >= 2 && Tried(n, b) && b * b > n
    ensures Prime(n)
  {
    forall d | 2 <= d < n
      ensures !Divides(d, n)
    {
      if Divides(d, n) {
        var e := SmallDivisor(n, d);
        if e >= b {
          MulMonotone(b, b, e);
          MulMonotone(e, b, e);
        }
      }
    }
  }

  /** isPrime */
  method IsPrime(n: nat) returns (p: bool)
    ensures p <==> Prime(n)
  {
    if n < 2 {
      return false;
    }
    if n < 4 {
      SmallPrimes(n);
      return true;
    }
    if n % 2 == 0 || n % 3 == 0 {
      assert Divides(2, n) || Divides(3, n);
      return false;
    }
    var i: nat := 5;
    FirstTried(n);
    while i * i <= n
      invariant i % 6 == 5 && Tried(n, i)
      decreases n - i
    {
      BelowSquare(i, n);
      if n % i == 0 || n % (i + 2) == 0 {
        assert Divides(i, n) || Divides(i + 2, n);
        return false;
      }
      TriedSix(n, i);
      i := i + 6;
    }
    TriedEnough(n, i);
    p := true;
  }

  lemma SmallPrimes(n: nat)
    requires 2 <= n < 4
    ensures Prime(n)
  {
    forall d | 2 <= d < n
      ensures !Divides(d, n)
    {
      assert d == 2 && n == 3;
    }
  }

  lemma FirstTried(n: nat)
    requires n % 2 != 0 && n % 3 != 0
    ensures Tried(n, 5)
  {
    forall d | 2 <= d < 5
      ensures !Divides(d, n)
    {
      assert d == 2 || d == 3 || d == 4;
      if d == 4 && Divides(4, n) {
        EvenDivides(4);
        DividesTransitive(2, 4, n);
      }
    }
  }

  lemma BelowSquare(i: nat, n: nat)
    requires i >= 5 && i * i <= n
    ensures i + 2 < n
  {
    MulMonotone(i, 5, i);
  }

  // ------------------------------------------------------- a prime above any number --

  function Factorial(n: nat): (f: nat)
    ensures f >= 1
  {
    if n == 0 then 1 else
      MulMonotone(n, 1, Factorial(n - 1));
      n * Factorial(n - 1)
  }

  lemma {:induction false} DividesFactorial(d: nat, n: nat)
    requires 1 <= d <= n
    ensures Divides(d, Factorial(n))
  {
    if d == n {
      Multiple(n, Factorial(n - 1));
    } else {
      DividesFactorial(d, n - 1);
      Multiple(Factorial(n - 1), n);
      assert Factorial(n) == Factorial(n - 1) * n;
      DividesTransitive(d, Factorial(n - 1), Factorial(n));
    }
  }

  /** Every number from 2 on has a prime divisor. */
  lemma {:induction false} PrimeDivisor(n: nat, b: nat) returns (p: nat)
    requires 2 <= b <= n && Divides(n, n) && forall d | 2 <= d < b :: !Divides(d, n)
    ensures Prime(p) && Divides(p, n)
    decreases n - b
  {
    if Divides(b, n) {
      p := b;
      forall d | 2 <= d < b
        ensures !Divides(d, b)
      {
        if Divides(d, b) {
          DividesTransitive(d, b, n);
        }
      }
    } else {
      p := PrimeDivisor(n, b + 1);
    }
  }

  /** Euclid: there is a prime not below s. */
  lemma PrimeAbove(s: nat) returns (p: nat)
    ensures Prime(p) && p >= s
  {
    var f := Factorial(s);
    Multiple(f + 1, 1);
    p := PrimeDivisor(f + 1, 2);
    if p < s {
      DividesFactorial(p, s);
      DividesDifference(p, f, 1);
      DividesLe(p, 1);
    }
  }

  // ----------------------------------------------------------------- tableSizes --

  ghost predicate LeastPrimeFrom(s: nat, p: nat) {
    p >= s && Prime(p) && forall q | s <= q < p :: !Prime(q)
  }

  function FirstCandidate(n: nat): nat {
    if n * 12 / 10 < 3 then 3 else n * 12 / 10
  }

  /** tableSizes: S is the least prime from max(3, 12n/10) on, and B is 6S/5. */
  method TableSizes(n: nat) returns (s: nat, b: nat)
    ensures LeastPrimeFrom(FirstCandidate(n), s) && b == s * 6 / 5
    ensures s >= n && s >= 3 && b >= 3 && 5 * s + 4 >= 6 * n
  {
    s := n * 12 / 10;
    if s < 3 {
      s := 3;
    }
    ghost var p := PrimeAbove(s);
    var prime := IsPrime(s);
    while !prime
      invariant FirstCandidate(n) <= s <= p && (prime <==> Prime(s))
      invariant forall q | FirstCandidate(n) <= q < s :: !Prime(q)
      decreases p - s
    {
      s := s + 1;
      prime := IsPrime(s);
    }
    var buckets: int := s * 6 / 5;
    if buckets < 1 {
      buckets := 1;
    }
    b := buckets;
  }

  /** The search starts at the least number from three on that leaves a sixth of the slots free, rounded down. */
  lemma CandidateIs(n: nat)
    ensures var c := FirstCandidate(n); c >= 3 && 5 * c + 5 > 6 * n && forall k: nat | k >= 3 && 5 * k + 5 > 6 * n :: c <= k
  {
  }

  lemma LeastPrimeUnique(s: nat, p: nat, q: nat)
    requires LeastPrimeFrom(s, p) && LeastPrimeFrom(s, q)
    ensures p == q
  {
  }
}
