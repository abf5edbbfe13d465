/**
 The linear congruential generator behind the fountain code. Its multiplier is one more than a
 multiple of four and its increment odd, so it runs through every 64-bit word before it repeats,
 from wherever it starts.
 */
module Generator {
  import opened Bytes
  import opened Sums

  const MULTIPLIER := 6364136223846793005
  const INCREMENT := 1442695040888963407
  const SEED_MULTIPLIER := 0x9E37_79B9_7F4A_7C15

  function Seeded(seed: u64): u64
  {
    (seed * SEED_MULTIPLIER + 1) % TWO64
  }

  function Next(x: u64): u64
  {
    (x * MULTIPLIER + INCREMENT) % TWO64
  }

  /** The word after n steps. */
  function After(x: u64, n: nat): u64
  {
    if n == 0 then x else Next(After(x, n - 1))
  }

  lemma {:induction false} AfterFirst(x: u64, n: nat)
    ensures After(x, n + 1) == After(Next(x), n)
  {
    hide Next;
    if n > 0 { AfterFirst(x, n - 1); }
  }

  // ---- Without the modulus ----

  /** n steps of v -> a * v + c. */
  function Iterate(a: nat, c: nat, v: nat, n: nat): nat
  {
    if n == 0 then v else a * Iterate(a, c, v, n - 1) + c
  }

  /** 1 + a + ... + a^(n - 1). */
  function Geometric(a: nat, n: nat): nat
  {
    if n == 0 then 0 else a * Geometric(a, n - 1) + 1
  }

  lemma {:induction false} IterateTwice(a: nat, c: nat, v: nat, m: nat, n: nat)
    ensures Iterate(a, c, v, m + n) == Iterate(a, c, Iterate(a, c, v, m), n)
  {
    if n > 0 { IterateTwice(a, c, v, m, n - 1); }
  }

  /** n steps add a multiple of the first step. */
  lemma {:induction false} IterateClosed(a: nat, c: nat, v: nat, n: nat)
    requires a > 0
    ensures Iterate(a, c, v, n) == v + Geometric(a, n) * ((a - 1) * v + c)
  {
    if n > 0 {
      IterateClosed(a, c, v, n - 1);
      ClosedStep(a, c, v, Geometric(a, n - 1));
    }
  }

  lemma ClosedStep(a: nat, c: nat, v: nat, g: nat)
    requires a > 0
    ensures a * (v + g * ((a - 1) * v + c)) + c == v + (a * g + 1) * ((a - 1) * v + c)
  {
    var k := (a - 1) * v + c;
    assert a * (v + g * k) == a * v + a * (g * k);
    assert (a * g + 1) * k == a * (g * k) + k;
    assert a * v == (a - 1) * v + v;
  }

  lemma {:induction false} GeometricSum(a: nat, m: nat, n: nat)
    requires a > 0
    ensures Geometric(a, m + n) == Geometric(a, m) + Geometric(a, n) + (a - 1) * (Geometric(a, m) * Geometric(a, n))
  {
    if n > 0 {
      GeometricSum(a, m, n - 1);
      SumStep(a, Geometric(a, m), Geometric(a, n - 1));
    }
  }

  lemma SumStep(a: nat, g: nat, h: nat)
    requires a > 0
    ensures a * (g + h + (a - 1) * (g * h)) + 1 == g + (a * h + 1) + (a - 1) * (g * (a * h + 1))
  {
    var p := g * h;
    assert g * (a * h + 1) == a * p + g;
    assert (a - 1) * (a * p + g) == (a - 1) * (a * p) + (a - 1) * g;
    assert a * (g + h + (a - 1) * p) == a * g + a * h + a * ((a - 1) * p);
    assert a * ((a - 1) * p) == (a - 1) * (a * p);
    assert a * g == (a - 1) * g + g;
  }

  /** Over a power of two steps the sum is that power and an odd factor. */
  lemma {:induction false} GeometricOfPower(a: nat, n: nat) returns (q: nat)
    requires a % 4 == 1
    ensures q % 2 == 1 && Geometric(a, Pow2(n)) == Pow2(n) * q
  {
    if n == 0 {
      q := 1;
      assert Geometric(a, 1) == 1;
    } else {
      var p := Pow2(n - 1);
      var half := GeometricOfPower(a, n - 1);
      assert Pow2(n) == p + p;
      GeometricSum(a, p, p);
      q := OddFactor(a, p, half);
    }
  }

  lemma OddFactor(a: nat, p: nat, half: nat) returns (q: nat)
    requires a % 4 == 1 && half % 2 == 1
    ensures q % 2 == 1
    ensures var g := p * half; g + g + (a - 1) * (g * g) == 2 * p * q
  {
    var g, e := p * half, a / 4;
    q := half * (1 + 2 * (e * g));
    assert a - 1 == 4 * e;
    OddTimesOdd(half, 1 + 2 * (e * g));
    assert (a - 1) * (g * g) == 4 * (e * g) * g;
    assert 2 * p * q == 2 * g * (1 + 2 * (e * g));
  }

  lemma OddTimesOdd(x: nat, y: nat)
    requires x % 2 == 1 && y % 2 == 1
    ensures (x * y) % 2 == 1
  {
    var i, j := x / 2, y / 2;
    assert x * y == 2 * (2 * (i * j) + i + j) + 1;
  }

  /** After a power of two steps exactly the bit of that power has changed. */
  lemma PowerFlips(a: nat, c: nat, v: nat, n: nat) returns (r: nat)
    requires a % 4 == 1 && c % 2 == 1
    ensures r % 2 == 1 && Iterate(a, c, v, Pow2(n)) == v + Pow2(n) * r
  {
    hide Geometric, Iterate, Pow2;
    var p := Pow2(n);
    var q := GeometricOfPower(a, n);
    IterateClosed(a, c, v, p);
    var k := (a - 1) * v + c;
    FirstStepIsOdd(a, c, v);
    OddTimesOdd(q, k);
    r := q * k;
    Regroup(p, q, k);
  }

  lemma Regroup(p: nat, q: nat, k: nat)
    ensures p * q * k == p * (q * k)
  {}

  lemma FirstStepIsOdd(a: nat, c: nat, v: nat)
    requires a % 4 == 1 && c % 2 == 1
    ensures ((a - 1) * v + c) % 2 == 1
  {
    var e := a / 4;
    assert (a - 1) * v == 2 * (2 * e * v);
  }

  // ---- Every word comes ----

  function Rest(v: nat, p: nat): nat
    requires p > 0
  {
    v % p
  }

  function Bit(v: nat, p: nat): (r: nat)
    requires p > 0
    ensures r == 0 || r == 1
  {
    v / p % 2
  }

  /** A residue modulo 2p is one modulo p and one bit. */
  lemma Halves(v: nat, p: nat)
    requires p > 0
    ensures Rest(v, 2 * p) == Bit(v, p) * p + Rest(v, p)
  {
    var q, b, z := v / p / 2, v / p % 2, v % p;
    assert v / p == 2 * q + b;
    assert v == (v / p) * p + z;
    assert (2 * q + b) * p == q * (2 * p) + b * p;
    assert 0 <= b * p + z < 2 * p;
    ModulusUnique(v, 2 * p, q, b * p + z);
  }

  lemma Flipped(w: nat, p: nat, r: nat)
    requires p > 0 && r % 2 == 1
    ensures Rest(w + p * r, p) == Rest(w, p) && Bit(w + p * r, p) != Bit(w, p)
  {
    var i, z := w / p, w % p;
    assert w == p * i + z;
    assert p * (i + r) == p * i + p * r;
    DivUnique(w + p * r, p, i + r, z);
  }

  lemma OtherHalf(w: nat, y: nat, p: nat, r: nat)
    requires p > 0 && Rest(w, p) == Rest(y, p) && Rest(w, 2 * p) != Rest(y, 2 * p) && r % 2 == 1
    ensures Rest(w + p * r, 2 * p) == Rest(y, 2 * p)
  {
    hide Rest, Bit;
    Halves(w, p);
    Halves(y, p);
    Halves(w + p * r, p);
    Flipped(w, p, r);
  }

  /** Within 2^n steps the low n bits take every value. */
  lemma {:induction false} LowBitsCome(a: nat, c: nat, v: nat, y: nat, n: nat) returns (m: nat)
    requires a % 4 == 1 && c % 2 == 1
    ensures m < Pow2(n) && Rest(Iterate(a, c, v, m), Pow2(n)) == Rest(y, Pow2(n))
  {
    if n == 0 {
      m := 0;
    } else {
      var p := Pow2(n - 1);
      assert Pow2(n) == 2 * p;
      m := LowBitsCome(a, c, v, y, n - 1);
      hide Rest, Iterate, Pow2;
      var w := Iterate(a, c, v, m);
      if Rest(w, 2 * p) != Rest(y, 2 * p) {
        var r := PowerFlips(a, c, w, n - 1);
        IterateTwice(a, c, v, m, p);
        OtherHalf(w, y, p, r);
        m := m + p;
      }
    }
  }

  lemma NextModulus(v: nat, a: nat, c: nat, m: nat)
    requires m > 0
    ensures (v % m * a + c) % m == (v * a + c) % m
  {
    var q, r := v / m, v % m;
    var t := r * a + c;
    assert v == q * m + r;
    assert v * a + c == q * a * m + t by { assert (q * m + r) * a == q * a * m + r * a; }
    assert t == (t / m) * m + t % m;
    assert v * a + c == (q * a + t / m) * m + t % m by { assert (q * a + t / m) * m == q * a * m + (t / m) * m; }
    ModulusUnique(v * a + c, m, q * a + t / m, t % m);
  }

  lemma {:induction false} AfterIsIterate(x: u64, n: nat)
    ensures After(x, n) == Iterate(MULTIPLIER, INCREMENT, x, n) % TWO64
  {
    if n > 0 {
      AfterIsIterate(x, n - 1);
      NextModulus(Iterate(MULTIPLIER, INCREMENT, x, n - 1), MULTIPLIER, INCREMENT, TWO64);
    }
  }

  /** The word after n steps, in closed form. */
  lemma AfterClosed(x: u64, n: nat)
    ensures After(x, n) ==
            (x + Geometric(6364136223846793005, n) * (6364136223846793004 * x + 1442695040888963407)) % 0x1_0000_0000_0000_0000
  {
    hide After, Iterate, Geometric;
    AfterIsIterate(x, n);
    IterateClosed(6364136223846793005, 1442695040888963407, x, n);
  }

  /** From every word every word is reached. */
  lemma EveryWordComes(x: u64, y: u64) returns (m: nat)
    ensures m < TWO64 && After(x, m) == y
  {
    hide Iterate, Pow2, After;
    Pow64();
    m := LowBitsCome(MULTIPLIER, INCREMENT, x, y, 64);
    AfterIsIterate(x, m);
  }

  lemma SomeWordComes(x: u64, y: u64)
    ensures exists m: nat :: After(x, m) == y
  {
    hide After;
    var m := EveryWordComes(x, y);
  }

  ghost function Earliest(x: u64, y: u64, m: nat): (r: nat)
    requires After(x, m) == y
    ensures r <= m && After(x, r) == y && forall j: nat :: j < r ==> After(x, j) != y
    decreases m
  {
    if exists j: nat :: j < m && After(x, j) == y then
      var j: nat :| j < m && After(x, j) == y;
      Earliest(x, y, j)
    else m
  }

  /** How many steps it is from x to y. */
  ghost function Distance(x: u64, y: u64): (r: nat)
    ensures After(x, r) == y && forall j: nat :: j < r ==> After(x, j) != y
  {
    SomeWordComes(x, y);
    var m: nat :| After(x, m) == y;
    Earliest(x, y, m)
  }

  lemma StepIsNearer(x: u64, y: u64)
    requires x != y
    ensures Distance(Next(x), y) < Distance(x, y)
  {
    hide Next;
    var m := Distance(x, y);
    assert After(x, 0) == x;
    AfterFirst(x, m - 1);
  }
}
