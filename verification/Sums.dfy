/** Powers of two and sums over sequences. */
module Sums {
  function Pow2(n: nat): (r: nat)
    ensures r > 0
  {
    if n == 0 then 1 else 2 * Pow2(n - 1)
  }

  lemma {:induction false} Pow2Add(m: nat, n: nat)
    ensures Pow2(m + n) == Pow2(m) * Pow2(n)
  {
    if m > 0 {
      assert Pow2(m) == 2 * Pow2(m - 1) && Pow2(m + n) == 2 * Pow2(m - 1 + n);
      Pow2Add(m - 1, n);
      hide Pow2;
      DoubleLeft(Pow2(m - 1), Pow2(n));
    }
  }

  lemma Pow8()
    ensures Pow2(8) == 0x100
  {}

  lemma Pow64()
    ensures Pow2(32) == 0x1_0000_0000
    ensures Pow2(64) == 0x1_0000_0000_0000_0000
  {
    hide Pow2;
    Pow8();
    Pow2Add(8, 8);
    Pow2Add(16, 16);
    Pow2Add(32, 32);
  }

  lemma DoubleLeft(a: nat, p: nat)
    ensures (2 * a) * p == 2 * (a * p)
  {}

  lemma DoubleFactor(a: nat, p: nat)
    ensures (2 * a) * p == a * (2 * p)
  {}

  lemma {:induction false} Pow2Monotone(m: nat, n: nat)
    requires m <= n
    ensures Pow2(m) <= Pow2(n)
  {
    if m < n { Pow2Monotone(m, n - 1); }
  }

  lemma {:induction false} MulStep(p: nat, a: nat, b: nat)
    requires a < b
    ensures p * a + p <= p * b
    decreases b
  {
    assert p * b == p * (b - 1) + p;
    if a < b - 1 { MulStep(p, a, b - 1); }
  }

  lemma Distribute2(a: nat, b: nat, p: nat)
    ensures (a + b) * p == a * p + b * p
  {}

  lemma DivUnique(v: nat, p: nat, q: nat, r: nat)
    requires v == p * q + r && r < p
    ensures v / p == q && v % p == r
  {
    var d := v / p;
    assert v == p * d + v % p;
    if d < q { MulStep(p, d, q); }
    if d > q { MulStep(p, q, d); }
  }

  lemma DivTwice(v: nat, p: nat)
    requires p > 0
    ensures v / (2 * p) == (v / 2) / p
  {
    var half := v / 2;
    var q, r := QuotientOf(half, p);
    DoubleProduct(p, q);
    DivUnique(v, 2 * p, q, 2 * r + v % 2);
    DivUnique(half, p, q, r);
  }

  lemma QuotientOf(v: nat, p: nat) returns (q: nat, r: nat)
    requires p > 0
    ensures v == p * q + r && r < p
  {
    q, r := v / p, v % p;
  }

  lemma DoubleProduct(p: nat, q: nat)
    ensures (2 * p) * q == 2 * (p * q)
  {}

  lemma CancelFactor(a: nat, b: nat, p: nat)
    requires p > 0 && a * p <= b * p
    ensures a <= b
  {
    if a > b { MulStep(p, b, a); }
  }

  lemma QuotientAtLeast(v: nat, a: nat, p: nat)
    requires p > 0 && v >= a * p
    ensures v / p >= a
  {
    var q := v / p;
    assert v == p * q + v % p;
    if q < a { MulStep(p, q, a); }
  }

  lemma QuotientBelow(v: nat, a: nat, p: nat)
    requires p > 0 && v < a * p
    ensures v / p < a
  {
    var q := v / p;
    assert v == p * q + v % p;
    if q > a { MulStep(p, a, q); }
  }

  function Sum(s: seq<nat>): nat
  {
    if s == [] then 0 else s[0] + Sum(s[1..])
  }

  lemma SumOne(t: nat)
    ensures Sum([t]) == t
  {
    assert [t][1..] == [];
  }

  lemma {:induction false} SumConcat(s: seq<nat>, t: seq<nat>)
    ensures Sum(s + t) == Sum(s) + Sum(t)
  {
    if s == [] {
      assert s + t == t;
    } else {
      assert (s + t)[1..] == s[1..] + t;
      SumConcat(s[1..], t);
    }
  }

  function RemoveAt<T>(s: seq<T>, i: nat): (r: seq<T>)
    requires i < |s|
    ensures |r| == |s| - 1
  {
    s[..i] + s[i + 1..]
  }

  lemma SplitAt<T>(s: seq<T>, i: nat)
    requires i < |s|
    ensures s == s[..i] + ([s[i]] + s[i + 1..])
  {}

  lemma SumRemove(s: seq<nat>, i: nat)
    requires i < |s|
    ensures Sum(s) == Sum(RemoveAt(s, i)) + s[i]
  {
    assert s == s[..i] + s[i..];
    SumConcat(s[..i], s[i..]);
    assert s[i..][1..] == s[i + 1..];
    SumConcat(s[..i], s[i + 1..]);
  }

  lemma SumUpdate(s: seq<nat>, i: nat, x: nat)
    requires i < |s|
    ensures Sum(s[i := x]) == Sum(s) - s[i] + x
  {
    SumRemove(s, i);
    SumRemove(s[i := x], i);
    assert RemoveAt(s[i := x], i) == RemoveAt(s, i);
  }

  lemma {:induction false} SumElement(s: seq<nat>, i: nat)
    requires i < |s|
    ensures s[i] <= Sum(s)
  {
    if i > 0 { SumElement(s[1..], i - 1); }
  }
}
