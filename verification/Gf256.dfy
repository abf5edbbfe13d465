/**
 The field GF(2^8) modulo 0x11D on machine bytes.

 `Mul` is polynomial multiplication by shift and add. The ring laws are proved for it by
 induction on the bits of one operand, and the order of the generator x is shown to be 255,
 which is what makes the log and exp tables of the coder a division table as well.
 */
module Gf256 {
  import opened Options
  import opened Collections

  function Add(a: bv8, b: bv8): bv8
  {
    a ^ b
  }

  /** Multiplication by x: shift left, and reduce by 0x11D when the top bit falls out. */
  function Xtime(a: bv8): bv8
  {
    (a << 1) ^ ((0 - (a >> 7)) & 0x1D)
  }

  /** The term the lowest bit of b selects. */
  function Pick(a: bv8, b: bv8): bv8
  {
    if b & 1 != 0 then a else 0
  }

  /** The product by shift and add. */
  function Mul(a: bv8, b: bv8): bv8
    decreases b
  {
    if b == 0 then 0 else Add(Pick(a, b), Mul(Xtime(a), b >> 1))
  }

  // ---- Addition ----

  lemma AddAssoc(p: bv8, q: bv8, r: bv8)
    ensures Add(Add(p, q), r) == Add(p, Add(q, r))
  {}

  lemma AddComm(p: bv8, q: bv8)
    ensures Add(p, q) == Add(q, p)
  {}

  lemma AddSwap(p: bv8, q: bv8, r: bv8, s: bv8)
    ensures Add(Add(p, q), Add(r, s)) == Add(Add(p, r), Add(q, s))
  {
    hide Add;
    AddAssoc(p, q, Add(r, s));
    AddAssoc(q, r, s);
    AddComm(q, r);
    AddAssoc(r, q, s);
    AddAssoc(p, r, Add(q, s));
  }

  lemma AddZero(p: bv8)
    ensures Add(p, p) == 0 && Add(p, 0) == p && Add(0, p) == p
  {}

  lemma AddCancel(p: bv8, q: bv8)
    ensures Add(p, q) == 0 <==> p == q
  {}

  lemma XtimeLinear(a: bv8, b: bv8)
    ensures Xtime(Add(a, b)) == Add(Xtime(a), Xtime(b))
  {}

  lemma HalfLinear(a: bv8, b: bv8)
    ensures Add(a, b) >> 1 == Add(a >> 1, b >> 1)
  {}

  lemma PickLinearLeft(a: bv8, b: bv8, c: bv8)
    ensures Pick(Add(a, b), c) == Add(Pick(a, c), Pick(b, c))
  {}

  lemma PickLinearRight(a: bv8, b: bv8, c: bv8)
    ensures Pick(a, Add(b, c)) == Add(Pick(a, b), Pick(a, c))
  {
    assert (b ^ c) & 1 == (b & 1) ^ (c & 1);
    assert b & 1 == 0 || b & 1 == 1;
    assert c & 1 == 0 || c & 1 == 1;
  }

  /** Every byte is its lowest bit plus x times the rest. */
  lemma Horner(a: bv8)
    ensures a == Add(a & 1, Xtime(a >> 1))
    ensures a & 1 == 0 || a & 1 == 1
    ensures a != 0 ==> (a >> 1) < a
  {}

  lemma XtimeNonzero(a: bv8)
    ensures Xtime(a) == 0 <==> a == 0
  {}

  // ---- The product is bilinear ----

  lemma {:induction false} MulLinearLeft(a: bv8, b: bv8, c: bv8)
    ensures Mul(Add(a, b), c) == Add(Mul(a, c), Mul(b, c))
    decreases c
  {
    hide Add, Xtime, Pick;
    if c == 0 {
      AddZero(0);
    } else {
      XtimeLinear(a, b);
      MulLinearLeft(Xtime(a), Xtime(b), c >> 1);
      PickLinearLeft(a, b, c);
      AddSwap(Pick(a, c), Pick(b, c), Mul(Xtime(a), c >> 1), Mul(Xtime(b), c >> 1));
    }
  }

  lemma {:induction false} MulUnfold(a: bv8, b: bv8)
    ensures Mul(a, b) == Add(Pick(a, b), Mul(Xtime(a), b >> 1))
  {
    if b == 0 { AddZero(0); }
  }

  lemma {:induction false} MulLinearRight(a: bv8, b: bv8, c: bv8)
    ensures Mul(a, Add(b, c)) == Add(Mul(a, b), Mul(a, c))
    decreases b
  {
    hide Add, Xtime, Pick;
    if b == 0 {
      AddZero(c);
      AddZero(Mul(a, c));
    } else {
      HalfLinear(b, c);
      PickLinearRight(a, b, c);
      MulLinearRight(Xtime(a), b >> 1, c >> 1);
      MulUnfold(a, b);
      MulUnfold(a, c);
      MulUnfold(a, Add(b, c));
      AddSwap(Pick(a, b), Pick(a, c), Mul(Xtime(a), b >> 1), Mul(Xtime(a), c >> 1));
    }
  }

  /** Four steps of the product, followed by what the remaining steps contribute. */
  function Mul4(a: bv8, b: bv8, rest: bv8): bv8
  {
    var a1 := Xtime(a);
    var a2 := Xtime(a1);
    var a3 := Xtime(a2);
    Add(Pick(a, b), Add(Pick(a1, b >> 1), Add(Pick(a2, b >> 2), Add(Pick(a3, b >> 3), rest))))
  }

  function Xtime4(a: bv8): bv8
  {
    Xtime(Xtime(Xtime(Xtime(a))))
  }

  /** The product with its eight steps written out, which the solver evaluates on constants. */
  function Mul8(a: bv8, b: bv8): bv8
  {
    Mul4(a, b, Mul4(Xtime4(a), b >> 4, 0))
  }

  lemma MulBy4(a: bv8, b: bv8)
    ensures Mul(a, b) == Mul4(a, b, Mul(Xtime4(a), b >> 4))
  {
    hide Add, Xtime, Mul, Pick;
    var a1 := Xtime(a);
    var a2 := Xtime(a1);
    var a3 := Xtime(a2);
    assert (b >> 1) >> 1 == b >> 2 && (b >> 2) >> 1 == b >> 3 && (b >> 3) >> 1 == b >> 4;
    MulUnfold(a, b);
    MulUnfold(a1, b >> 1);
    MulUnfold(a2, b >> 2);
    MulUnfold(a3, b >> 3);
  }

  lemma MulSteps(a: bv8, b: bv8)
    ensures Mul(a, b) == Mul8(a, b)
  {
    hide Xtime4, Mul4;
    MulBy4(a, b);
    MulBy4(Xtime4(a), b >> 4);
    assert (b >> 4) >> 4 == 0;
  }

  // ---- The ring laws, by induction on the bits of a byte ----

  lemma {:induction false} MulXtimeLeft(a: bv8, b: bv8)
    ensures Mul(Xtime(a), b) == Xtime(Mul(a, b))
    decreases b
  {
    hide Add, Xtime;
    if b == 0 {
      XtimeNonzero(0);
    } else {
      XtimeNonzero(0);
      MulXtimeLeft(Xtime(a), b >> 1);
      XtimeLinear(Pick(a, b), Mul(Xtime(a), b >> 1));
    }
  }

  lemma MulOne(a: bv8)
    ensures Mul(a, 1) == a && Mul(a, 0) == 0
  {
    hide Add;
    AddZero(a);
  }

  lemma {:induction false} ZeroMul(b: bv8)
    ensures Mul(0, b) == 0
    decreases b
  {
    hide Add, Xtime;
    if b != 0 {
      XtimeNonzero(0);
      ZeroMul(b >> 1);
      AddZero(0);
    }
  }


  /** The reduction x^8 = x^4 + x^3 + x^2 + 1 under any factor. */
  lemma {:induction false} MulReduction(a: bv8)
    ensures Mul(a, 0x1D) == Xtime(Mul(a, 0x80))
    decreases a
  {
    hide Add, Xtime, Mul;
    if a == 0 {
      ZeroMul(0x1D);
      ZeroMul(0x80);
      XtimeNonzero(0);
    } else {
      Horner(a);
      var r := Xtime(a >> 1);
      MulReduction(a >> 1);
      MulXtimeLeft(a >> 1, 0x1D);
      MulXtimeLeft(a >> 1, 0x80);
      MulReductionBit(a & 1);
      MulLinearLeft(a & 1, r, 0x1D);
      MulLinearLeft(a & 1, r, 0x80);
      XtimeLinear(Mul(a & 1, 0x80), Mul(r, 0x80));
    }
  }

  lemma MulReductionBit(a: bv8)
    requires a == 0 || a == 1
    ensures Mul(a, 0x1D) == Xtime(Mul(a, 0x80))
  {
    if a == 0 {
      ZeroMul(0x1D);
      ZeroMul(0x80);
    } else {
      MulSteps(1, 0x1D);
      MulSteps(1, 0x80);
    }
  }

  lemma DoubleFacts(b: bv8)
    requires b & 0x80 == 0
    ensures Xtime(b) >> 1 == b
    ensures Xtime(b) & 1 == 0
  {}

  lemma TopFacts(b: bv8)
    requires b & 0x80 != 0
    ensures b == Add(b ^ 0x80, 0x80)
    ensures (b ^ 0x80) & 0x80 == 0
    ensures Xtime(0x80) == 0x1D
  {}

  lemma MulDouble(a: bv8, b: bv8)
    requires b & 0x80 == 0
    ensures Mul(a, Xtime(b)) == Xtime(Mul(a, b))
  {
    hide Add, Xtime, Mul;
    DoubleFacts(b);
    MulUnfold(a, Xtime(b));
    AddZero(Mul(Xtime(a), b));
    MulXtimeLeft(a, b);
  }

  lemma MulXtimeRight(a: bv8, b: bv8)
    ensures Mul(a, Xtime(b)) == Xtime(Mul(a, b))
  {
    hide Add, Xtime, Mul;
    if b & 0x80 == 0 {
      MulDouble(a, b);
    } else {
      var c := b ^ 0x80;
      TopFacts(b);
      MulDouble(a, c);
      XtimeLinear(c, 0x80);
      MulLinearRight(a, Xtime(c), 0x1D);
      MulReduction(a);
      MulLinearRight(a, c, 0x80);
      XtimeLinear(Mul(a, c), Mul(a, 0x80));
    }
  }

  lemma {:induction false} MulComm(a: bv8, b: bv8)
    ensures Mul(a, b) == Mul(b, a)
    decreases a
  {
    hide Add, Xtime, Mul;
    if a == 0 {
      ZeroMul(b);
      MulOne(b);
    } else {
      var low, rest := a & 1, a >> 1;
      Horner(a);
      MulComm(rest, b);
      MulXtimeLeft(rest, b);
      MulXtimeRight(b, rest);
      MulLinearLeft(low, Xtime(rest), b);
      MulLinearRight(b, low, Xtime(rest));
      BitComm(low, b);
    }
  }

  lemma {:induction false} BitComm(a: bv8, b: bv8)
    requires a == 0 || a == 1
    ensures Mul(a, b) == Mul(b, a)
    decreases b
  {
    hide Add, Xtime, Mul;
    MulOne(b);
    if a == 0 {
      ZeroMul(b);
    } else if b == 0 {
      MulOne(a);
    } else {
      Horner(b);
      BitComm(1, b >> 1);
      MulOne(b >> 1);
      MulXtimeRight(1, b >> 1);
      MulLinearRight(1, b & 1, Xtime(b >> 1));
      MulOne(1);
    }
  }

  lemma {:induction false} MulAssoc(a: bv8, b: bv8, c: bv8)
    ensures Mul(Mul(a, b), c) == Mul(a, Mul(b, c))
    decreases c
  {
    hide Add, Xtime, Mul;
    MulOne(a);
    MulOne(b);
    MulOne(Mul(a, b));
    if c != 0 {
      var low, rest := c & 1, c >> 1;
      Horner(c);
      MulAssoc(a, b, rest);
      MulLinearRight(Mul(a, b), low, Xtime(rest));
      MulXtimeRight(Mul(a, b), rest);
      MulLinearRight(b, low, Xtime(rest));
      MulXtimeRight(b, rest);
      MulLinearRight(a, Mul(b, low), Xtime(Mul(b, rest)));
      MulXtimeRight(a, Mul(b, rest));
    }
  }

  // ---- The generator has order 255 ----

  /** The n-th power of the generator x. */
  function Alpha(n: nat): bv8
  {
    if n == 0 then 1 else Xtime(Alpha(n - 1))
  }

  lemma {:induction false} AlphaAdd(m: nat, n: nat)
    ensures Alpha(m + n) == Mul(Alpha(m), Alpha(n))
  {
    hide Xtime, Mul;
    MulOne(Alpha(m));
    if n > 0 {
      AlphaAdd(m, n - 1);
      MulXtimeRight(Alpha(m), Alpha(n - 1));
    }
  }

  lemma {:induction false} AlphaNonzero(n: nat)
    ensures Alpha(n) != 0
  {
    hide Xtime;
    if n > 0 {
      AlphaNonzero(n - 1);
      XtimeNonzero(Alpha(n - 1));
    }
  }

  lemma AlphaValues()
    ensures Alpha(255) == 1
    ensures Alpha(15) != 1 && Alpha(51) != 1 && Alpha(85) != 1
  {
    hide Mul;
    assert Alpha(1) == 2 && Alpha(2) == 4;
    AlphaDouble(2, 4);
    AlphaAdd(4, 1);
    MulSteps(0x10, 2);
    assert Alpha(5) == 0x20;
    AlphaDouble(5, 0x20);
    AlphaAdd(10, 5);
    MulSteps(0x74, 0x20);
    assert Alpha(15) == 0x26;
    AlphaAdd(15, 2);
    MulSteps(0x26, 4);
    assert Alpha(17) == 0x98;
    AlphaDouble(17, 0x98);
    assert Alpha(34) == 0x4E;
    AlphaAdd(34, 17);
    MulSteps(0x4E, 0x98);
    assert Alpha(51) == 0x0A;
    AlphaAdd(51, 34);
    MulSteps(0x0A, 0x4E);
    assert Alpha(85) == 0xD6;
    AlphaDouble(85, 0xD6);
    AlphaAdd(170, 85);
    MulSteps(Mul8(0xD6, 0xD6), 0xD6);
  }

  lemma AlphaDouble(n: nat, a: bv8)
    requires Alpha(n) == a
    ensures Alpha(2 * n) == Mul8(a, a)
  {
    AlphaAdd(n, n);
    MulSteps(a, a);
  }

  /** No smaller power of the generator is 1: the proper divisors of 255 divide 15, 51 or 85. */
  lemma {:induction false} AlphaOrder(d: nat)
    requires 0 < d < 255
    ensures Alpha(d) != 1
    decreases d
  {
    hide Alpha, Mul;
    if Alpha(d) == 1 {
      AlphaValues();
      var q, r := 255 / d, 255 % d;
      AlphaMultiple(d, q);
      AlphaAdd(d * q, r);
      OneMul(Alpha(r));
      if r > 0 {
        AlphaOrder(r);
      } else {
        ProperDivisor(d, q);
        AlphaMultiple(d, 15 / d);
        AlphaMultiple(d, 51 / d);
        AlphaMultiple(d, 85 / d);
      }
    }
  }

  // ---- The product is that of polynomials modulo 0x11D ----

  function Add16(a: bv16, b: bv16): bv16 { a ^ b }
  function Double16(a: bv16): bv16 { a << 1 }

  /** The term the lowest coefficient of b selects. */
  function Pick16(a: bv16, b: bv8): bv16
  {
    if b & 1 != 0 then a else 0
  }

  /** The product of two polynomials over GF(2), without a reduction. */
  function CarryLess(a: bv16, b: bv8): bv16
    decreases b
  {
    if b == 0 then 0 else Add16(Pick16(a, b), CarryLess(Double16(a), b >> 1))
  }

  const MODULUS: bv16 := 0x11D

  lemma Add16Swap(p: bv16, q: bv16, r: bv16, s: bv16)
    ensures Add16(Add16(p, q), Add16(r, s)) == Add16(Add16(p, r), Add16(q, s))
  {
    hide Add16;
    Add16Assoc(p, q, Add16(r, s));
    Add16Assoc(q, r, s);
    Add16Comm(q, r);
    Add16Assoc(r, q, s);
    Add16Assoc(p, r, Add16(q, s));
  }

  lemma Add16Assoc(p: bv16, q: bv16, r: bv16)
    ensures Add16(Add16(p, q), r) == Add16(p, Add16(q, r))
  {}

  lemma Add16Comm(p: bv16, q: bv16)
    ensures Add16(p, q) == Add16(q, p)
  {}

  lemma Add16Zero(p: bv16)
    ensures Add16(p, 0) == p && Add16(0, p) == p && Add16(p, p) == 0
  {}

  lemma Double16Linear(a: bv16, b: bv16)
    ensures Double16(Add16(a, b)) == Add16(Double16(a), Double16(b))
  {}

  lemma Pick16LinearLeft(a: bv16, b: bv16, c: bv8)
    ensures Pick16(Add16(a, b), c) == Add16(Pick16(a, c), Pick16(b, c))
  {}

  lemma Pick16LinearRight(a: bv16, b: bv8, c: bv8)
    ensures Pick16(a, Add(b, c)) == Add16(Pick16(a, b), Pick16(a, c))
  {
    assert (b ^ c) & 1 == (b & 1) ^ (c & 1);
    assert b & 1 == 0 || b & 1 == 1;
    assert c & 1 == 0 || c & 1 == 1;
  }

  lemma {:induction false} CarryLessLeft(a: bv16, b: bv16, c: bv8)
    ensures CarryLess(Add16(a, b), c) == Add16(CarryLess(a, c), CarryLess(b, c))
    decreases c
  {
    hide Add16, Double16, Pick16;
    if c == 0 {
      Add16Zero(0);
    } else {
      CarryLessLeft(Double16(a), Double16(b), c >> 1);
      Double16Linear(a, b);
      Pick16LinearLeft(a, b, c);
      Add16Swap(Pick16(a, c), Pick16(b, c), CarryLess(Double16(a), c >> 1), CarryLess(Double16(b), c >> 1));
    }
  }

  lemma CarryLessStep(a: bv16, b: bv8)
    ensures CarryLess(a, b) == Add16(Pick16(a, b), CarryLess(Double16(a), b >> 1))
  {
    if b == 0 { Add16Zero(0); }
  }

  lemma NothingToMultiply(a: bv16)
    ensures CarryLess(a, 0) == 0
  {}

  lemma {:induction false} CarryLessRight(a: bv16, b: bv8, c: bv8, n: nat)
    requires BitLength(b) <= n && BitLength(c) <= n
    ensures CarryLess(a, Add(b, c)) == Add16(CarryLess(a, b), CarryLess(a, c))
    decreases n
  {
    hide Add, Add16, Double16, Pick16, CarryLess, BitLength;
    if n == 0 {
      NoBits(b);
      NoBits(c);
      AddZero(0);
      NothingToMultiply(a);
      Add16Zero(0);
    } else {
      OneBitLess(b);
      OneBitLess(c);
      CarryLessRight(Double16(a), b >> 1, c >> 1, n - 1);
      CarryLessStep(a, b);
      CarryLessStep(a, c);
      CarryLessStep(a, Add(b, c));
      HalfLinear(b, c);
      Pick16LinearRight(a, b, c);
      Add16Swap(Pick16(a, b), Pick16(a, c), CarryLess(Double16(a), b >> 1), CarryLess(Double16(a), c >> 1));
    }
  }

  function BitLength(b: bv8): (r: nat)
    ensures r <= 8
  {
    if b == 0 then 0 else if b < 2 then 1 else if b < 4 then 2 else if b < 8 then 3 else if b < 16 then 4
    else if b < 32 then 5 else if b < 64 then 6 else if b < 128 then 7 else 8
  }

  lemma NoBits(b: bv8)
    requires BitLength(b) <= 0
    ensures b == 0
  {}

  lemma OneBitLess(b: bv8)
    ensures BitLength(b >> 1) == if b == 0 then 0 else BitLength(b) - 1
  {}

  lemma XtimeIsDoubling(a: bv8)
    ensures Double16(a as bv16) == Add16(Xtime(a) as bv16, if a >= 0x80 then MODULUS else 0)
  {}

  lemma MulStep(a: bv8, b: bv8)
    requires b != 0
    ensures Mul(a, b) as bv16 == Add16(Pick16(a as bv16, b), Mul(Xtime(a), b >> 1) as bv16)
  {
    hide Mul, Add, Add16, Pick, Pick16, Xtime;
    MulUnfold(a, b);
    Widened(Pick(a, b), Mul(Xtime(a), b >> 1));
    PickWidened(a, b);
  }

  lemma Widened(a: bv8, b: bv8)
    ensures Add(a, b) as bv16 == Add16(a as bv16, b as bv16)
  {}

  lemma PickWidened(a: bv8, b: bv8)
    ensures Pick(a, b) as bv16 == Pick16(a as bv16, b)
  {}

  /** The product differs from that of the polynomials by a multiple of 0x11D. */
  lemma {:induction false} MulIsPolynomial(a: bv8, b: bv8) returns (q: bv8)
    ensures CarryLess(a as bv16, b) == Add16(Mul(a, b) as bv16, CarryLess(MODULUS, q))
    decreases b
  {
    if b == 0 {
      q := 0;
      Add16Zero(0);
    } else {
      var half := b >> 1;
      var rest := MulIsPolynomial(Xtime(a), half);
      q := OneMoreCoefficient(a, b, rest);
    }
  }

  lemma OneMoreCoefficient(a: bv8, b: bv8, rest: bv8) returns (q: bv8)
    requires b != 0 && CarryLess(Xtime(a) as bv16, b >> 1) == Add16(Mul(Xtime(a), b >> 1) as bv16, CarryLess(MODULUS, rest))
    ensures CarryLess(a as bv16, b) == Add16(Mul(a, b) as bv16, CarryLess(MODULUS, q))
  {
    hide Add, Xtime, Mul, CarryLess, Add16, Double16, Pick16;
    var half := b >> 1;
    var m, t, pick := Mul(Xtime(a), half) as bv16, Xtime(a) as bv16, Pick16(a as bv16, b);
    XtimeIsDoubling(a);
    CarryLessStep(a as bv16, b);
    MulStep(a, b);
    if a >= 0x80 {
      q := Add(rest, half);
      CarryLessLeft(t, MODULUS, half);
      CarryLessRight(MODULUS, rest, half, 8);
      Add16Assoc(m, CarryLess(MODULUS, rest), CarryLess(MODULUS, half));
    } else {
      q := rest;
      Add16Zero(t);
    }
    Add16Assoc(pick, m, CarryLess(MODULUS, q));
  }

  lemma OneMul(a: bv8)
    ensures Mul(1, a) == a
  {
    MulComm(1, a);
    MulOne(a);
  }

  lemma {:induction false} AlphaMultiple(d: nat, q: nat)
    requires Alpha(d) == 1
    ensures Alpha(d * q) == 1
  {
    hide Mul;
    if q > 0 {
      AlphaMultiple(d, q - 1);
      assert d * q == d * (q - 1) + d;
      AlphaAdd(d * (q - 1), d);
      MulOne(1);
    }
  }

  lemma MulAtLeast(d: nat, q: nat)
    requires d >= 16
    ensures q >= 16 ==> d * q >= 256
  {}

  lemma ProperDivisor(d: nat, q: nat)
    requires 0 < d < 255 && d * q == 255
    ensures d * (15 / d) == 15 || d * (51 / d) == 51 || d * (85 / d) == 85
  {
    if d <= 15 {
      assert d == 1 || d == 2 || d == 3 || d == 4 || d == 5 || d == 6 || d == 7 || d == 8 || d == 9 || d == 10
          || d == 11 || d == 12 || d == 13 || d == 14 || d == 15;
    } else {
      MulAtLeast(d, q);
      assert q == 0 || q == 1 || q == 2 || q == 3 || q == 4 || q == 5 || q == 6 || q == 7 || q == 8 || q == 9
          || q == 10 || q == 11 || q == 12 || q == 13 || q == 14 || q == 15;
    }
  }

  lemma AlphaDistinct(i: nat, j: nat)
    requires i < j < 255
    ensures Alpha(i) != Alpha(j)
  {
    hide Alpha, Mul;
    if Alpha(i) == Alpha(j) {
      AlphaAdd(255 - j, i);
      AlphaAdd(255 - j, j);
      AlphaValues();
      AlphaOrder(255 - j + i);
    }
  }

  // ---- Every nonzero element is a power of the generator ----

  lemma {:induction false} DistinctCount(s: seq<int>)
    requires forall i, j :: 0 <= i < j < |s| ==> s[i] != s[j]
    ensures |set x | x in s| == |s|
  {
    if s != [] {
      var last := |s| - 1;
      DistinctCount(s[..last]);
      assert (set x | x in s) == (set x | x in s[..last]) + {s[last]};
    }
  }

  ghost function UpTo(n: nat): (r: set<int>)
    ensures |r| == n
    ensures forall x :: x in r <==> 1 <= x <= n
  {
    if n == 0 then {} else UpTo(n - 1) + {n}
  }

  lemma AlphaOnto(a: bv8)
    requires a != 0
    ensures exists i: nat :: i < 255 && Alpha(i) == a
  {
    hide Alpha, UpTo;
    var s := seq(255, (i: nat) => Alpha(i) as int);
    forall i, j | 0 <= i < j < |s|
      ensures s[i] != s[j]
    {
      AlphaDistinct(i, j);
      SameInt(Alpha(i), Alpha(j));
    }
    DistinctCount(s);
    var image, all := (set x | x in s), UpTo(255);
    forall x | x in image
      ensures x in all
    {
      var i :| 0 <= i < |s| && s[i] == x;
      AlphaNonzero(i);
      IntRange(Alpha(i));
    }
    SubsetOfEqualSize(image, all);
    IntRange(a);
    assert a as int in image;
    var i :| 0 <= i < |s| && s[i] == a as int;
    SameInt(Alpha(i), a);
  }

  lemma SameInt(a: bv8, b: bv8)
    ensures a as int == b as int <==> a == b
  {}

  lemma IntRange(a: bv8)
    ensures 0 <= a as int < 256
    ensures a as int == 0 <==> a == 0
  {}

  /** The multiplicative inverse. */
  ghost function Inv(a: bv8): (r: bv8)
    requires a != 0
    ensures Mul(a, r) == 1
  {
    AlphaOnto(a);
    var i: nat :| i < 255 && Alpha(i) == a;
    AlphaAdd(i, 255 - i);
    AlphaValues();
    Alpha(255 - i)
  }

  lemma MulNonzero(a: bv8, b: bv8)
    ensures Mul(a, b) == 0 <==> a == 0 || b == 0
  {
    hide Mul;
    ZeroMul(b);
    MulOne(a);
    if a != 0 && Mul(a, b) == 0 {
      MulAssoc(Inv(a), a, b);
      MulComm(Inv(a), a);
      OneMul(b);
      MulOne(Inv(a));
    }
  }

  lemma InvUnique(a: bv8, b: bv8)
    requires a != 0 && Mul(a, b) == 1
    ensures b == Inv(a)
  {
    hide Mul, Inv;
    MulAssoc(Inv(a), a, b);
    MulComm(Inv(a), a);
    OneMul(b);
    MulOne(Inv(a));
  }

  // ---- The log and exp tables ----

  /** The tables; the unused entries are zero. */
  datatype Gf8 = Gf8(log: seq<int>, exp: seq<bv8>)
  {
    function LogAt(a: bv8): int
      requires |log| == 256
    {
      log[a as int]
    }

    /** What `Build` establishes: the tables list the powers of x and their exponents. */
    ghost predicate Valid()
    {
      && |log| == 256 && |exp| == 512
      && (forall i :: 0 <= i < 510 ==> exp[i] == Alpha(i))
      && (forall a: bv8 :: a != 0 ==> 0 <= LogAt(a) < 255 && Alpha(LogAt(a)) == a)
    }

    /** The table product is the polynomial product. */
    function Product(a: bv8, b: bv8): (r: bv8)
      requires Valid()
      ensures r == Mul(a, b)
    {
      hide Alpha, Mul, LogAt;
      MulNonzero(a, b);
      if a == 0 || b == 0 then 0 else
        AlphaAdd(LogAt(a), LogAt(b));
        exp[LogAt(a) + LogAt(b)]
    }

    /** The table inverse is refused for zero only. */
    function Inverse(a: bv8): (r: Option<bv8>)
      requires Valid()
      ensures r == if a == 0 then None else Some(Inv(a))
    {
      hide Alpha, Mul, LogAt;
      if a == 0 then None else
        AlphaAdd(LogAt(a), 255 - LogAt(a));
        AlphaValues();
        InvUnique(a, exp[255 - LogAt(a)]);
        Some(exp[255 - LogAt(a)])
    }
  }

  /** One step of the table loop, on the 16-bit word the loop carries. */
  function NextWord(x: bv16): bv16
  {
    ((x << 1) ^ (if x & 0x80 != 0 then 0x11D else 0)) & 0xFF
  }

  lemma NextWordIsXtime(x: bv16)
    requires x <= 0xFF
    ensures NextWord(x) <= 0xFF
    ensures NextWord(x) as bv8 == Xtime(x as bv8)
  {}

  lemma AlphaPeriod(i: nat)
    ensures Alpha(i + 255) == Alpha(i)
  {
    hide Alpha, Mul;
    AlphaAdd(i, 255);
    AlphaValues();
    MulOne(Alpha(i));
  }

  ghost predicate Powers(exp: seq<bv8>, n: nat)
    requires n <= |exp|
  {
    forall i :: 0 <= i < n ==> exp[i] == Alpha(i)
  }

  ghost predicate Exponents(log: seq<int>, n: nat)
    requires |log| == 256
  {
    forall i :: 0 <= i < n ==> log[Alpha(i) as int] == i
  }

  /** The first loop: each power of x and its exponent. */
  method FillPowers(log: array<int>, exp: array<bv8>)
    requires log.Length == 256 && exp.Length == 512
    modifies log, exp
    ensures Powers(exp[..], 255) && Exponents(log[..], 255)
  {
    var x: bv16 := 1;
    var i := 0;
    while i < 255
      invariant 0 <= i <= 255
      invariant x <= 0xFF && x as bv8 == Alpha(i)
      invariant Powers(exp[..], i)
      invariant Exponents(log[..], i)
    {
      hide Alpha, Xtime, NextWord;
      exp[i] := x as bv8;
      ExponentsExtend(log[..], i, x as bv8);
      log[x as int] := i;
      NextWordIsXtime(x);
      AlphaNext(i);
      x := NextWord(x);
      i := i + 1;
    }
  }

  lemma ExponentsExtend(log: seq<int>, n: nat, a: bv8)
    requires |log| == 256 && n < 255
    requires Exponents(log, n) && a == Alpha(n)
    ensures Exponents(log[a as int := n], n + 1)
  {
    hide Alpha;
    forall i | 0 <= i < n
      ensures Alpha(i) as int != a as int
    {
      AlphaDistinct(i, n);
      SameInt(Alpha(i), a);
    }
  }

  /** The second loop: the powers once more, so that a sum of two exponents needs no reduction. */
  method Unwrap(exp: array<bv8>)
    requires exp.Length == 512 && Powers(exp[..], 255)
    modifies exp
    ensures Powers(exp[..], 510)
  {
    hide Alpha;
    var j := 255;
    while j < 510
      invariant 255 <= j <= 510
      invariant Powers(exp[..], j)
    {
      AlphaPeriod(j - 255);
      exp[j] := exp[j - 255];
      j := j + 1;
    }
  }

  method Build() returns (gf: Gf8)
    ensures gf.Valid()
  {
    hide Alpha;
    var log := new int[256](_ => 0);
    var exp := new bv8[512](_ => 0);
    FillPowers(log, exp);
    Unwrap(exp);
    gf := Gf8(log[..], exp[..]);
    forall a: bv8 | a != 0
      ensures 0 <= gf.LogAt(a) < 255 && Alpha(gf.LogAt(a)) == a
    {
      AlphaOnto(a);
      var n: nat :| n < 255 && Alpha(n) == a;
    }
  }

  lemma AlphaNext(i: nat)
    ensures Alpha(i + 1) == Xtime(Alpha(i))
  {}
}
