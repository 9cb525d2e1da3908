/** Sections: byte strings put one behind another. */
module Flatten {
  import opened Words

  function Flat<T>(s: seq<T>, enc: T -> Bytes): Bytes {
    if |s| == 0 then [] else Flat(s[..|s| - 1], enc) + enc(s[|s| - 1])
  }

  /** Extending a prefix by one element appends that element's bytes. */
  lemma FlatPrefix<T>(s: seq<T>, i: nat, enc: T -> Bytes)
    requires i < |s|
    ensures Flat(s[..i + 1], enc) == Flat(s[..i], enc) + enc(s[i])
  {
    assert s[..i + 1][..i] == s[..i];
  }

  lemma {:induction false} FlatGrows<T>(s: seq<T>, i: nat, enc: T -> Bytes)
    requires i <= |s|
    ensures |Flat(s[..i], enc)| <= |Flat(s, enc)| && Flat(s, enc)[..|Flat(s[..i], enc)|] == Flat(s[..i], enc)
  {
    if i == |s| {
      assert s[..i] == s;
    } else {
      var n := |s| - 1;
      assert s[..n][..i] == s[..i];
      FlatGrows(s[..n], i, enc);
    }
  }

  /** Element i occupies the bytes between the ends of the two prefixes around it. */
  lemma FlatAt<T>(s: seq<T>, i: nat, enc: T -> Bytes)
    requires i < |s|
    ensures |Flat(s[..i], enc)| + |enc(s[i])| == |Flat(s[..i + 1], enc)| <= |Flat(s, enc)|
    ensures Flat(s, enc)[|Flat(s[..i], enc)|..|Flat(s[..i + 1], enc)|] == enc(s[i])
  {
    FlatPrefix(s, i, enc);
    FlatGrows(s, i + 1, enc);
    var a, b, f := |Flat(s[..i], enc)|, |Flat(s[..i + 1], enc)|, Flat(s, enc);
    assert f[a..b] == f[..b][a..];
  }

  lemma {:induction false} FlatUniform<T>(s: seq<T>, w: nat, enc: T -> Bytes)
    requires forall x | x in s :: |enc(x)| == w
    ensures |Flat(s, enc)| == |s| * w
  {
    if |s| > 0 {
      FlatUniform(s[..|s| - 1], w, enc);
      assert |s| * w == (|s| - 1) * w + w;
    }
  }

  /** Elements of one width lie at multiples of it. */
  lemma FlatCell<T>(s: seq<T>, i: nat, w: nat, enc: T -> Bytes)
    requires i < |s| && forall x | x in s :: |enc(x)| == w
    ensures 0 <= i * w && i * w + w <= |s| * w == |Flat(s, enc)|
    ensures Flat(s, enc)[i * w..i * w + w] == enc(s[i])
  {
    FlatAt(s, i, enc);
    FlatUniform(s, w, enc);
    FlatUniform(s[..i], w, enc);
    assert |Flat(s[..i + 1], enc)| == i * w + w;
  }

  /** Where the inner of five sections lie. */
  lemma FiveSections(a: Bytes, b: Bytes, c: Bytes, d: Bytes, e: Bytes)
    ensures var f, i, j, k := a + b + c + d + e, |a| + |b|, |a| + |b| + |c|, |a| + |b| + |c| + |d|;
      f[..|a|] == a && f[|a|..i] == b && f[i..j] == c && f[j..k] == d && f[k..] == e && |f| == k + |e|
  {
  }

  /** Where the inner of seven sections lie. */
  lemma SevenSections(a: Bytes, b: Bytes, c: Bytes, d: Bytes, e: Bytes, f: Bytes, g: Bytes)
    ensures var s, i, j, k, l, m := a + b + c + d + e + f + g, |a|, |a| + |b|, |a| + |b| + |c|, |a| + |b| + |c| + |d|, |a| + |b| + |c| + |d| + |e|;
      && s[i..j] == b && s[j..k] == c && s[k..l] == d && s[l..m] == e && s[m..m + |f|] == f && |s| == m + |f| + |g|
  {
    var s, i, j, k, l, m := a + b + c + d + e + f + g, |a|, |a| + |b|, |a| + |b| + |c|, |a| + |b| + |c| + |d|, |a| + |b| + |c| + |d| + |e|;
    assert s == a + b + c + d + (e + f + g);
    FiveSections(a, b, c, d, e + f + g);
    assert s == (a + b + c + d) + e + f + g + [];
    FiveSections(a + b + c + d, e, f, g, []);
  }

  /** A part of a section. */
  lemma PartOf(f: Bytes, from: nat, to: nat, i: nat, j: nat)
    requires from <= to <= |f| && i <= j <= to - from
    ensures f[from + i..from + j] == f[from..to][i..j]
  {
    var a, b := f[from + i..from + j], f[from..to][i..j];
    forall k | 0 <= k < j - i
      ensures a[k] == b[k]
    {
    }
    assert a == b;
  }
}
