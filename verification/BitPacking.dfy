/** Bits packed into bytes, most significant bit first, through a 64-bit buffer. */
module BitPacking {
  import opened Bytes
  import opened Sums
  import opened PrefixCodes
  import opened Canonical

  function Unpack(bytes: seq<byte>): (r: Bits)
    ensures |r| == 8 * |bytes|
  {
    if bytes == [] then [] else Unpack(bytes[..|bytes| - 1]) + ToBits(bytes[|bytes| - 1], 8)
  }

  function Padding(n: nat): (r: Bits)
    ensures |r| == n
  {
    seq(n, _ => false)
  }

  /** The bytes of a bit string, the last one filled up with zeros. */
  ghost predicate IsPacked(bits: Bits, bytes: seq<byte>)
  {
    |bits| <= 8 * |bytes| < |bits| + 8 && Unpack(bytes) == bits + Padding(8 * |bytes| - |bits|)
  }

  lemma {:induction false} UnpackAppend(bytes: seq<byte>, b: byte)
    ensures Unpack(bytes + [b]) == Unpack(bytes) + ToBits(b, 8)
  {
    assert (bytes + [b])[..|bytes|] == bytes;
  }

  /** Bit k of the packed bytes. */
  lemma {:induction false} UnpackBit(bytes: seq<byte>, k: nat)
    requires k < 8 * |bytes|
    ensures Unpack(bytes)[k] == ToBits(bytes[k / 8], 8)[k % 8]
  {
    var last := |bytes| - 1;
    if k < 8 * last {
      UnpackBit(bytes[..last], k);
      assert bytes[..last][k / 8] == bytes[k / 8];
    } else {
      assert k / 8 == last;
    }
  }

  lemma {:induction false} BitAt(v: nat, n: nat, i: nat)
    requires i < n
    ensures ToBits(v, n)[i] == ((v / Pow2(n - 1 - i)) % 2 == 1)
  {
    if i == n - 1 {
      assert Pow2(0) == 1;
    } else {
      BitAt(v / 2, n - 1, i);
      DivTwice(v, Pow2(n - 2 - i));
      assert Pow2(n - 1 - i) == 2 * Pow2(n - 2 - i);
    }
  }

  /** The first bit of a byte is its highest. */
  lemma PackedBit(bits: Bits, bytes: seq<byte>, k: nat)
    requires IsPacked(bits, bytes) && k < |bits|
    ensures bits[k] <==> bytes[k / 8] / Pow2(7 - k % 8) % 2 == 1
  {
    hide ToBits, Unpack, Pow2;
    UnpackBit(bytes, k);
    BitAt(bytes[k / 8], 8, k % 8);
    assert Unpack(bytes)[k] == bits[k];
  }

  // ---- The bit buffer ----

  /** Bits above the low k do not show in the low n. */
  lemma {:induction false} LowBits(a: nat, k: nat, v: nat, n: nat)
    requires n <= k
    ensures ToBits(a * Pow2(k) + v, n) == ToBits(v, n)
  {
    if n > 0 {
      var p := Pow2(k - 1);
      LowBits(a, k - 1, v / 2, n - 1);
      assert Pow2(k) == 2 * p;
      HalfOfSum(a, p, v);
    }
  }

  lemma HalfOfSum(a: nat, p: nat, v: nat)
    ensures (a * (2 * p) + v) / 2 == a * p + v / 2
    ensures (a * (2 * p) + v) % 2 == v % 2
  {
    assert a * (2 * p) == 2 * (a * p);
  }

  lemma {:induction false} JoinBits(v: nat, n: nat, c: nat, k: nat)
    requires c < Pow2(k)
    ensures ToBits(v * Pow2(k) + c, n + k) == ToBits(v, n) + ToBits(c, k)
  {
    if k == 0 {
      assert Pow2(0) == 1;
    } else {
      JoinBits(v, n, c / 2, k - 1);
      assert Pow2(k) == 2 * Pow2(k - 1);
      hide Pow2;
      HalfOfSum(v, Pow2(k - 1), c);
    }
  }

  lemma {:induction false} TrailingBits(v: nat, n: nat, k: nat)
    requires k <= n
    ensures ToBits(v, n)[n - k..] == ToBits(v, k)
  {
    if k > 0 {
      TrailingBits(v / 2, n - 1, k - 1);
    }
  }

  /** The first eight of the buffered bits leave as a byte. */
  lemma EmitByte(v: nat, n: nat)
    requires n >= 8
    ensures ToBits((v / Pow2(n - 8)) % 256, 8) + ToBits(v, n - 8) == ToBits(v, n)
  {
    hide ToBits, Pow2;
    LeadingBits(v, 8, n - 8);
    TrailingBits(v, n, n - 8);
    LowByte(v / Pow2(n - 8));
    assert ToBits(v, n) == ToBits(v, n)[..8] + ToBits(v, n)[8..];
  }

  lemma LowByte(u: nat)
    ensures ToBits(u % 256, 8) == ToBits(u, 8)
  {
    hide ToBits, Pow2;
    Pow8();
    LowBits(u / 256, 8, u % 256, 8);
    assert u == (u / 256) * 256 + u % 256;
  }

  /** A 64-bit word shifted left, the distance taken modulo 64. */
  function ShiftLeft(v: nat, k: nat): nat
  {
    (v * Pow2(k % 64)) % TWO64
  }

  function ShiftRight(v: nat, k: nat): nat
  {
    Quotient(v, Pow2(k % 64))
  }

  function Quotient(v: nat, p: nat): nat
    requires p > 0
  {
    v / p
  }

  function Or(a: nat, b: nat): nat
  {
    if a == 0 then b else 2 * Or(a / 2, b / 2) + if a % 2 == 1 || b % 2 == 1 then 1 else 0
  }

  /** Or is a sum when the bits do not meet. */
  lemma {:induction false} OrApart(a: nat, b: nat, k: nat)
    requires b < Pow2(k)
    ensures Or(a * Pow2(k), b) == a * Pow2(k) + b
  {
    if a > 0 {
      if k == 0 {
        OrZero(a);
      } else {
        OrApart(a, b / 2, k - 1);
        OrStep(a, b, Pow2(k - 1));
      }
    }
  }

  lemma OrStep(a: nat, b: nat, p: nat)
    requires a > 0 && p > 0 && Or(a * p, b / 2) == a * p + b / 2
    ensures Or(a * (2 * p), b) == a * (2 * p) + b
  {
    HalfOfSum(a, p, 0);
    var c := a * (2 * p);
    assert c > 0 && c / 2 == a * p && c % 2 == 0;
  }

  lemma {:induction false} OrZero(a: nat)
    ensures Or(a, 0) == a
  {
    if a > 0 { OrZero(a / 2); }
  }

  /** What is shifted left has zeros at its end. */
  lemma ShiftedEnds(v: nat, k: nat)
    requires k < 64
    ensures ShiftLeft(v, k) == (v % Pow2(64 - k)) * Pow2(k)
  {
    hide Pow2;
    Pow64();
    Pow2Add(64 - k, k);
    assert k % 64 == k;
    ScaledModulus(v, Pow2(64 - k), Pow2(k));
  }

  lemma ScaledModulus(v: nat, p: nat, q: nat)
    requires p > 0 && q > 0
    ensures (v * q) % (p * q) == (v % p) * q
  {
    var d, r := v / p, v % p;
    assert v == d * p + r;
    ScaledSum(d, r, p, q);
    MulStep(q, r, p);
    ModulusUnique(v * q, p * q, d, r * q);
  }

  lemma ScaledSum(d: nat, r: nat, p: nat, q: nat)
    ensures (d * p + r) * q == d * (p * q) + r * q
  {}

  /** A code pushed into the 64-bit buffer, as long as the buffered bits fit. */
  lemma PushCode(v: nat, n: nat, c: nat, k: nat)
    requires c < Pow2(k) && n + k <= 64 && k < 64
    ensures ToBits(Or(ShiftLeft(v, k), c), n + k) == ToBits(v, n) + ToBits(c, k)
  {
    hide ToBits, Pow2, Or;
    Pow64();
    var w := v * Pow2(k);
    ShiftedEnds(v, k);
    OrApart(v % Pow2(64 - k), c, k);
    LowBits(w / TWO64, 64, w % TWO64 + c, n + k);
    assert (w / TWO64) * TWO64 + (w % TWO64 + c) == w + c;
    JoinBits(v, n, c, k);
  }
}
