/** Bytes and little-endian numbers. */
module Bytes {
  const TWO63 := 0x8000_0000_0000_0000
  const TWO64 := 0x1_0000_0000_0000_0000

  type byte = x: nat | x < 256
  type u16 = x: nat | x < 0x1_0000
  type u64 = x: nat | x < TWO64

  function Pow256(n: nat): (r: nat)
    ensures r > 0
  {
    if n == 0 then 1 else 256 * Pow256(n - 1)
  }

  /** The low n bytes of v, lowest first; what does not fit is cut off. */
  function Le(v: nat, n: nat): (r: seq<byte>)
    ensures |r| == n
  {
    if n == 0 then [] else [v % 256] + Le(v / 256, n - 1)
  }

  function FromLe(b: seq<byte>): nat
  {
    if b == [] then 0 else b[0] + 256 * FromLe(b[1..])
  }

  lemma {:induction false} FromLeLe(v: nat, n: nat)
    requires v < Pow256(n)
    ensures FromLe(Le(v, n)) == v
  {
    if n > 0 {
      FromLeLe(v / 256, n - 1);
      assert Le(v, n)[1..] == Le(v / 256, n - 1);
    }
  }

  lemma {:induction false} LeFromLe(b: seq<byte>)
    ensures FromLe(b) < Pow256(|b|)
    ensures Le(FromLe(b), |b|) == b
  {
    if b != [] {
      LeFromLe(b[1..]);
      OneByteMore(b[0], FromLe(b[1..]), Pow256(|b| - 1));
    }
  }

  lemma OneByteMore(x: byte, v: nat, p: nat)
    requires v < p
    ensures x + 256 * v < 256 * p && (x + 256 * v) % 256 == x && (x + 256 * v) / 256 == v
  {}

  /** Byte i is the digit of 256^i. */
  lemma {:induction false} LeDigit(v: nat, n: nat, i: nat)
    requires i < n
    ensures Le(v, n)[i] == v / Pow256(i) % 256
  {
    if i == 0 {
      assert Pow256(0) == 1;
    } else {
      LeDigit(v / 256, n - 1, i - 1);
      DivideTwice(v, Pow256(i - 1));
    }
  }

  lemma DivideTwice(v: nat, p: nat)
    requires p > 0
    ensures v / 256 / p == v / (256 * p)
  {
    var q, r := v / 256 / p, v / 256 % p;
    assert v / 256 == p * q + r;
    var low := 256 * r + v % 256;
    assert v == 256 * (p * q) + low && 0 <= low < 256 * p;
    assert 256 * (p * q) == (256 * p) * q;
    QuotientUnique(v, 256 * p, q, low);
  }

  lemma QuotientUnique(v: int, m: int, q: int, r: int)
    requires 0 <= r < m && v == m * q + r
    ensures v / m == q
  {
    var d: int := v / m - q;
    assert m * (v / m) + v % m == v;
    assert m * d == r - v % m;
    assert d >= 1 ==> m * d >= m;
    assert d <= -1 ==> m * d <= -m;
  }

  /** What does not fit the width is cut off. */
  lemma {:induction false} FromLeTruncates(v: nat, n: nat)
    ensures FromLe(Le(v, n)) == v % Pow256(n)
  {
    if n > 0 {
      FromLeTruncates(v / 256, n - 1);
      assert Le(v, n)[1..] == Le(v / 256, n - 1);
      SplitModulus(v, Pow256(n - 1));
    }
  }

  lemma SplitModulus(v: nat, p: nat)
    requires p > 0
    ensures v % (256 * p) == 256 * ((v / 256) % p) + v % 256
  {
    var q, r := v / 256 / p, v / 256 % p;
    var low := 256 * r + v % 256;
    assert v / 256 == q * p + r;
    assert v == q * (256 * p) + low;
    assert 0 <= low < 256 * p;
    ModulusUnique(v, 256 * p, q, low);
  }

  lemma ModulusUnique(v: int, m: int, q: int, r: int)
    requires 0 <= r < m && v == q * m + r
    ensures v % m == r
  {
    var d: int := v / m - q;
    assert d * m == r - v % m;
    assert d >= 1 ==> d * m >= m;
    assert d <= -1 ==> d * m <= -m;
  }

  lemma Widths()
    ensures Pow256(2) == 0x1_0000
    ensures Pow256(4) == 0x1_0000_0000
    ensures Pow256(8) == 0x1_0000_0000_0000_0000
  {
    assert Pow256(3) == 0x100_0000;
    assert Pow256(5) == 0x100_0000_0000;
    assert Pow256(6) == 0x1_0000_0000_0000;
  }

  /** A slice of something that is itself found in s. */
  lemma SubSlice<T>(s: seq<T>, pos: nat, b: seq<T>, i: nat, j: nat)
    requires i <= j <= |b| && pos + |b| <= |s| && s[pos..pos + |b|] == b
    ensures s[pos + i..pos + j] == b[i..j]
  {
    var t := s[pos..pos + |b|];
    var u := s[pos + i..pos + j];
    forall k | 0 <= k < j - i ensures u[k] == b[i..j][k] {
      assert t[i + k] == s[pos + (i + k)];
    }
  }

  /** Two things found end to end are each found. */
  lemma TwoSlices<T>(s: seq<T>, pos: nat, a: seq<T>, b: seq<T>)
    requires pos + |a + b| <= |s| && s[pos..pos + |a + b|] == a + b
    ensures s[pos..pos + |a|] == a && s[pos + |a|..pos + |a| + |b|] == b
  {
    SubSlice(s, pos, a + b, 0, |a|);
    SubSlice(s, pos, a + b, |a|, |a + b|);
    assert (a + b)[0..|a|] == a && (a + b)[|a|..|a + b|] == b;
  }
}
