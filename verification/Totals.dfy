/** Sums of a measure over the elements of a sequence. */
module Totals {

  function Total<T>(s: seq<T>, f: T -> int): int
  {
    if |s| == 0 then 0 else Total(s[..|s| - 1], f) + f(s[|s| - 1])
  }

  lemma {:induction false} TotalUpdate<T>(s: seq<T>, i: nat, x: T, f: T -> int)
    requires i < |s|
    ensures Total(s[i := x], f) == Total(s, f) - f(s[i]) + f(x)
  {
    var t, n := s[i := x], |s| - 1;
    if i == n {
      assert t[..n] == s[..n];
    } else {
      assert t[..n] == s[..n][i := x];
      TotalUpdate(s[..n], i, x, f);
    }
  }

  lemma TotalAppend<T>(s: seq<T>, x: T, f: T -> int)
    ensures Total(s + [x], f) == Total(s, f) + f(x)
  {
    assert (s + [x])[..|s|] == s;
  }

  /** Extending a prefix by one element adds that element's measure. */
  lemma TotalPrefix<T>(s: seq<T>, i: nat, f: T -> int)
    requires i < |s|
    ensures Total(s[..i + 1], f) == Total(s[..i], f) + f(s[i])
  {
    assert s[..i + 1][..i] == s[..i];
  }

  lemma {:induction false} TotalConcat<T>(s: seq<T>, t: seq<T>, f: T -> int)
    ensures Total(s + t, f) == Total(s, f) + Total(t, f)
  {
    if |t| == 0 {
      assert s + t == s;
    } else {
      var n := |t| - 1;
      TotalConcat(s, t[..n], f);
      assert (s + t)[..|s + t| - 1] == s + t[..n];
    }
  }

  lemma {:induction false} TotalPointwise<T>(s: seq<T>, t: seq<T>, f: T -> int)
    requires |s| == |t| && forall i | 0 <= i < |s| :: f(s[i]) == f(t[i])
    ensures Total(s, f) == Total(t, f)
  {
    if |s| > 0 {
      TotalPointwise(s[..|s| - 1], t[..|t| - 1], f);
    }
  }

  lemma {:induction false} TotalZero<T>(s: seq<T>, f: T -> int)
    requires forall i | 0 <= i < |s| :: f(s[i]) == 0
    ensures Total(s, f) == 0
  {
    if |s| > 0 {
      TotalZero(s[..|s| - 1], f);
    }
  }

  /** A sum of non-negative terms is at least each of its terms. */
  lemma {:induction false} TotalMember<T>(s: seq<T>, i: nat, f: T -> int)
    requires i < |s|
    requires forall j | 0 <= j < |s| :: f(s[j]) >= 0
    ensures Total(s, f) >= f(s[i])
  {
    var n := |s| - 1;
    if i == n {
      TotalNonNegative(s[..n], f);
    } else {
      TotalMember(s[..n], i, f);
    }
  }

  lemma {:induction false} TotalNonNegative<T>(s: seq<T>, f: T -> int)
    requires forall j | 0 <= j < |s| :: f(s[j]) >= 0
    ensures Total(s, f) >= 0
  {
    if |s| > 0 {
      TotalNonNegative(s[..|s| - 1], f);
    }
  }

  /** Only one element contributes. */
  lemma TotalSingle<T>(s: seq<T>, i: nat, f: T -> int)
    requires i < |s| && forall j | 0 <= j < |s| && j != i :: f(s[j]) == 0
    ensures Total(s, f) == f(s[i])
  {
    assert s == s[..i] + [s[i]] + s[i + 1..];
    TotalZero(s[..i], f);
    TotalZero(s[i + 1..], f);
    TotalAppend(s[..i], s[i], f);
    TotalConcat(s[..i] + [s[i]], s[i + 1..], f);
  }

  /** Three different elements contribute at least their own measures. */
  lemma TotalThree<T>(s: seq<T>, a: nat, b: nat, c: nat, f: T -> int)
    requires a < b < c < |s| && forall j | 0 <= j < |s| :: f(s[j]) >= 0
    ensures Total(s, f) >= f(s[a]) + f(s[b]) + f(s[c])
  {
    var s0, s1 := s[..c], s[..b];
    assert s == s0 + s[c..] && s0 == s1 + s0[b..];
    TotalConcat(s0, s[c..], f);
    TotalConcat(s1, s0[b..], f);
    TotalMember(s[c..], 0, f);
    TotalMember(s0[b..], 0, f);
    TotalMember(s1, a, f);
  }

  lemma {:induction false} TotalAgree<T>(s: seq<T>, f: T -> int, g: T -> int)
    requires forall i | 0 <= i < |s| :: f(s[i]) == g(s[i])
    ensures Total(s, f) == Total(s, g)
  {
    if |s| > 0 {
      TotalAgree(s[..|s| - 1], f, g);
    }
  }

  // ------------------------------------------------------------ scattered sums --

  function SumTo(n: nat, g: nat -> int): int {
    if n == 0 then 0 else SumTo(n - 1, g) + g(n - 1)
  }

  /** g below n, zero from n on. */
  function Below(g: nat -> int, n: nat): nat -> int {
    (i: nat) => if i < n then g(i) else 0
  }

  /** Numbers below n scattered over slots, each exactly once, sum to the sum of all of them. */
  lemma {:induction false} ScatterTotal(slots: seq<nat>, at: seq<nat>, n: nat, g: nat -> int)
    requires n <= |at| && forall i | 0 <= i < n :: at[i] < |slots| && slots[at[i]] == i
    requires forall s | 0 <= s < |slots| && slots[s] < n :: at[slots[s]] == s
    ensures Total(slots, Below(g, n)) == SumTo(n, g)
  {
    if n == 0 {
      TotalZero(slots, Below(g, 0));
    } else {
      var k := at[n - 1];
      var rest := slots[k := n];
      ScatterTotal(slots, at, n - 1, g);
      TotalUpdate(slots, k, n, Below(g, n));
      TotalUpdate(slots, k, n, Below(g, n - 1));
      TotalAgree(rest, Below(g, n), Below(g, n - 1));
    }
  }
}
