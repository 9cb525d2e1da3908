/** Bytes, and the integers that byte sequences stand for. */
module Words {

  datatype Option<+T> = None | Some(value: T)

  type Byte = x: int | 0 <= x < 256
  type Bytes = seq<Byte>

  const TWO16 := 0x1_0000
  const TWO32 := 0x1_0000_0000
  const TWO40 := 0x100_0000_0000
  const TWO64 := 0x1_0000_0000_0000_0000

  type U32 = x: int | 0 <= x < TWO32
  type U64 = x: int | 0 <= x < TWO64

  function Pow2(n: nat): (p: nat)
    ensures p > 0
  {
    if n == 0 then 1 else 2 * Pow2(n - 1)
  }

  lemma {:induction false} Pow2Add(a: nat, b: nat)
    ensures Pow2(a + b) == Pow2(a) * Pow2(b)
  {
    if b > 0 {
      Pow2Add(a, b - 1);
      assert Pow2(a + b) == 2 * (Pow2(a) * Pow2(b - 1)) == Pow2(a) * (2 * Pow2(b - 1));
    }
  }

  lemma {:induction false} Pow2Monotone(a: nat, b: nat)
    requires a <= b
    ensures Pow2(a) <= Pow2(b)
  {
    if a < b {
      Pow2Monotone(a, b - 1);
    }
  }

  lemma Pow2Values()
    ensures Pow2(8) == 256 && Pow2(16) == TWO16 && Pow2(32) == TWO32 && Pow2(40) == TWO40 && Pow2(64) == TWO64
  {
    assert Pow2(8) == 256;
    Pow2Add(8, 8);
    Pow2Add(16, 16);
    Pow2Add(32, 8);
    Pow2Add(32, 32);
  }

  /** Quotient and remainder of a number given in base p. */
  lemma DivMod(a: nat, p: nat, r: nat)
    requires a < p
    ensures (a + p * r) / p == r && (a + p * r) % p == a
  {
    var v := a + p * r;
    var q, m := v / p, v % p;
    assert v == p * q + m && 0 <= m < p;
    if q < r {
      assert p * q + p <= p * r by { MulMonotone(p, q + 1, r); }
      assert false;
    }
    if q > r {
      assert p * r + p <= p * q by { MulMonotone(p, r + 1, q); }
      assert false;
    }
  }

  lemma MulMonotone(p: nat, a: int, b: int)
    requires a <= b
    ensures p * a <= p * b
  {
    assert p * (b - a) >= 0;
  }

  /** v >> k */
  function HighBits(v: nat, k: nat): nat {
    if k == 0 then v else HighBits(v / 2, k - 1)
  }

  /** v & (1<<k - 1) */
  function LowBits(v: nat, k: nat): nat {
    if k == 0 then 0 else v % 2 + 2 * LowBits(v / 2, k - 1)
  }

  lemma Doubled(a: nat, b: nat)
    ensures a * (2 * b) == 2 * (a * b)
  {
  }

  lemma {:induction false} SplitBits(v: nat, k: nat)
    ensures v == HighBits(v, k) * Pow2(k) + LowBits(v, k) && LowBits(v, k) < Pow2(k)
  {
    if k > 0 {
      SplitBits(v / 2, k - 1);
      Doubled(HighBits(v / 2, k - 1), Pow2(k - 1));
    }
  }

  // -------------------------------------------------------- little endian --

  function LE(s: Bytes): nat {
    if |s| == 0 then 0 else s[0] + 256 * LE(s[1..])
  }

  function ToLE(v: nat, n: nat): (s: Bytes)
    ensures |s| == n
    decreases n, v
  {
    if n == 0 then [] else [v % 256] + ToLE(v / 256, n - 1)
  }

  lemma {:induction false} LEConcat(a: Bytes, b: Bytes)
    ensures LE(a + b) == LE(a) + Pow2(8 * |a|) * LE(b)
  {
    if |a| == 0 {
      assert a + b == b;
    } else {
      var r := a[1..];
      LEConcat(r, b);
      Pow2Add(8, 8 * |r|);
      assert (a + b)[1..] == r + b;
      assert 256 * (Pow2(8 * |r|) * LE(b)) == Pow2(8 * |a|) * LE(b);
    }
  }

  lemma {:induction false} LEToLE(v: nat, n: nat)
    requires v < Pow2(8 * n)
    ensures LE(ToLE(v, n)) == v
  {
    if n > 0 {
      Pow2Add(8, 8 * (n - 1));
      assert v / 256 < Pow2(8 * (n - 1));
      LEToLE(v / 256, n - 1);
      assert ToLE(v, n)[1..] == ToLE(v / 256, n - 1);
    }
  }

  lemma {:induction false} ToLELE(s: Bytes)
    ensures ToLE(LE(s), |s|) == s
  {
    if |s| > 0 {
      ToLELE(s[1..]);
      DivMod(s[0], 256, LE(s[1..]));
    }
  }

  /** Equal words have equal bytes. */
  lemma LEInjective(a: Bytes, b: Bytes)
    requires |a| == |b| && LE(a) == LE(b)
    ensures a == b
  {
    ToLELE(a);
    ToLELE(b);
  }

  // ----------------------------------------------------------- big endian --

  function BE(s: Bytes): nat {
    if |s| == 0 then 0 else 256 * BE(s[..|s| - 1]) + s[|s| - 1]
  }

  function ToBE(v: nat, n: nat): (s: Bytes)
    ensures |s| == n
    decreases n, v
  {
    if n == 0 then [] else ToBE(v / 256, n - 1) + [v % 256]
  }

  lemma {:induction false} BEBound(s: Bytes)
    ensures BE(s) < Pow2(8 * |s|)
  {
    if |s| > 0 {
      BEBound(s[..|s| - 1]);
      Pow2Add(8, 8 * (|s| - 1));
    }
  }

  lemma {:induction false} BEToBE(v: nat, n: nat)
    requires v < Pow2(8 * n)
    ensures BE(ToBE(v, n)) == v
  {
    if n > 0 {
      Pow2Add(8, 8 * (n - 1));
      assert v / 256 < Pow2(8 * (n - 1));
      BEToBE(v / 256, n - 1);
      assert ToBE(v, n)[..n - 1] == ToBE(v / 256, n - 1);
    }
  }
}
