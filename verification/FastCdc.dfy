/**
 Content-defined chunking: a rolling hash decides where chunks end, so that the cuts follow the
 content and not its position.
 */
module FastCdc {
  import opened Options
  import opened Bytes
  import opened Collections
  import opened Sums
  import opened Hashing
  import opened Chunks

  const GEAR: seq<nat> := [
    0x4d5d_72f9_a9e3_a8e1, 0x1b5e_6f3c_9d2a_7b45, 0x8f3a_6c2e_5d9b_4f71, 0x3c7d_9e1a_5b2f_4c86,
    0xa9e3_b7c5_d1f2_a4e8, 0x6f2c_4d8a_1e5b_7f93, 0xd5a8_c2f6_e9b3_d175, 0x2e4b_7a9c_5f1d_8e36,
    0x7d9a_3c6e_8f2b_5d41, 0xc5f1_a7d3_b9e2_c684, 0x3a6e_8b5d_2f7c_9a15, 0x9b2d_4f7a_8c6e_3f52,
    0x5f8a_2c6e_9b3d_7f14, 0xe1b4_c8a5_f2d9_6703, 0x8c3a_7f5b_2e9d_6c41, 0x6e2f_5a9c_3b7d_8e52,
    0xa4c8_e2f6_b3d9_a75c, 0x3f7b_9d5a_2c6e_8f14, 0xd9a3_e7b5_c1f2_a86d, 0x2c6e_8a5f_3b9d_7e41,
    0x7a9c_3e5f_2b8d_6a53, 0xc2f6_a9d4_b8e3_c751, 0x5b8d_2f7a_4c6e_9f13, 0x9e3c_6f2a_5b8d_7c14,
    0x4a7c_9e2f_5b3d_8a16, 0xe8b2_d6f4_a9c3_e715, 0x6c9e_3a7f_5b2d_8c51, 0xf3a5_c7e9_b2d6_f41a,
    0x8d2f_6a4c_8e3b_7d15, 0x3e7b_9d2f_5a6c_8e41, 0xb5c9_e3f7_a2d6_b84c, 0x7f2a_5c8e_3b6d_9a41,
    0x5a9c_3e7f_2b6d_8c13, 0xd4b8_e2f6_a9c3_d751, 0x2f6a_8c3e_5b7d_9a14, 0x9c3e_7b5d_2f8a_6c41,
    0x6e8b_2d5f_7a9c_3e15, 0xc7e9_b3d5_f2a8_c641, 0x3b6d_9a2f_5c8e_7f14, 0x8e2f_5b7d_3a6c_9e51,
    0xf6a9_c3e7_b2d5_f84a, 0x4c8e_2f7a_5b3d_6c91, 0xa5c7_e9b3_f2d6_a84c, 0x7d2f_6a8c_3e5b_9a41,
    0x2e5a_9c3f_7b6d_8e13, 0x9b3d_7f2a_6c8e_5f14, 0x6f2b_5d8a_3e7c_9a51, 0xc3e7_f9a5_b2d6_c84d,
    0x5a7c_9e2f_3b6d_8a15, 0xe9b3_d7f2_a5c8_e641, 0x8c3e_6f2b_5d9a_7f14, 0x3f7a_9c2e_5b8d_6a41,
    0xd6a8_c2e5_f9b3_d715, 0x2b5d_7a9c_3e6f_8a14, 0x7e9c_3a5f_2b8d_6c51, 0xa9c5_e7b3_f2d6_a84c,
    0x4f8a_2c6e_3b7d_9a15, 0xc5e9_b3d7_f2a8_c641, 0x6a9c_2e5f_7b3d_8a13, 0x3e7f_9b2d_5a6c_8e41,
    0x8d3b_6f2a_5c9e_7f14, 0xf2a6_c8e3_b5d9_a741, 0x5c8e_2f7a_3b6d_9a15, 0x9e3a_5c7f_2b8d_6a41,
    0x7b9d_2f5a_6c8e_3f14, 0x2e8a_3c6f_5b7d_9a51, 0xc9e3_f7b2_d6a8_c415, 0x4a6c_9e2f_5b8d_3a71,
    0xa8c2_e6f3_b9d5_a74c, 0x6e3a_7c9f_2b5d_8e14, 0x3f5b_9d2a_6c8e_7f41, 0x8c2e_5f7b_3d9a_6c51,
    0x5a8c_3e6f_2b7d_9a13, 0xd7a9_c3e5_f2b8_d641, 0x2f6b_9d3a_5c8e_7f14, 0x9e2c_5f7a_3b6d_8a41,
    0x6c8e_2a5f_3b7d_9a15, 0xc7e5_b3d9_f2a8_c641, 0x3b6d_8a2f_5c9e_7f14, 0x8f2a_6c3e_5b7d_9a51,
    0xf5a9_c3e7_b2d6_f84a, 0x4c8e_3f7a_5b2d_6c91, 0xa7c9_e5b3_f2d8_a64c, 0x7e2f_5a8c_3b6d_9a41,
    0x2b6d_9a3e_5f7c_8e13, 0x9c3e_7f5b_2d8a_6c14, 0x6f2a_5c8e_3b7d_9a51, 0xc3e9_f7b5_a2d6_c84d,
    0x5a7c_9e3f_2b6d_8a15, 0xe9b5_d7f2_a3c8_e641, 0x8c3e_6f5b_2d9a_7f14, 0x3f7a_9c2e_5b8d_6a41,
    0xd6a8_c2e5_f9b3_d715, 0x2b5d_7a9c_3e6f_8a14, 0x7e9c_3a5f_2b8d_6c51, 0xa9c5_e7b3_f2d6_a84c,
    0x4f8a_2c6e_3b7d_9a15, 0xc5e9_b3d7_f2a8_c641, 0x6a9c_2e5f_7b3d_8a13, 0x3e7f_9b2d_5a6c_8e41,
    0x8d3b_6f2a_5c9e_7f14, 0xf2a6_c8e3_b5d9_a741, 0x5c8e_2f7a_3b6d_9a15, 0x9e3a_5c7f_2b8d_6a41,
    0x7b9d_2f5a_6c8e_3f14, 0x2e8a_3c6f_5b7d_9a51, 0xc9e3_f7b2_d6a8_c415, 0x4a6c_9e2f_5b8d_3a71,
    0xa8c2_e6f3_b9d5_a74c, 0x6e3a_7c9f_2b5d_8e14, 0x3f5b_9d2a_6c8e_7f41, 0x8c2e_5f7b_3d9a_6c51,
    0x5a8c_3e6f_2b7d_9a13, 0xd7a9_c3e5_f2b8_d641, 0x2f6b_9d3a_5c8e_7f14, 0x9e2c_5f7a_3b6d_8a41,
    0x6c8e_2a5f_3b7d_9a15, 0xc7e5_b3d9_f2a8_c641, 0x3b6d_8a2f_5c9e_7f14, 0x8f2a_6c3e_5b7d_9a51,
    0xf5a9_c3e7_b2d6_f84a, 0x4c8e_3f7a_5b2d_6c91, 0xa7c9_e5b3_f2d8_a64c, 0x7e2f_5a8c_3b6d_9a41,
    0x2b6d_9a3e_5f7c_8e13, 0x9c3e_7f5b_2d8a_6c14, 0x6f2a_5c8e_3b7d_9a51, 0xc3e9_f7b5_a2d6_c84d
  ]

  /** The constant of a byte: there are as many as it has values below its top bit. */
  function Gear(b: byte): nat
  {
    GEAR[b % 128]
  }

  /** One step of the rolling hash: rotate left by one, multiply by the byte's constant, add the byte. */
  function Roll(hash: nat, b: byte): nat
  {
    var rotated := 2 * hash % TWO64 + hash / TWO63;
    (rotated * Gear(b) % TWO64 + b) % TWO64
  }

  function Log2(n: nat): nat
    requires n > 0
  {
    if n == 1 then 0 else 1 + Log2(n / 2)
  }

  /** The low bits of the hash, as many as the average size has, are all zero. */
  predicate Masked(hash: nat, avg: nat)
    requires avg > 0
  {
    var bits := if Log2(avg) < 1 then 1 else Log2(avg);
    if bits >= 63 then hash == 0 else hash % Pow2(bits) == 0
  }

  datatype Sizes = Sizes(min: nat, avg: nat, max: nat) {
    predicate Valid()
    {
      0 < min <= avg <= max
    }
  }

  // ---- Where the next chunk ends ----

  /** The end of the chunk that starts d, once the hash has been rolled over the bytes before i. */
  function NextEnd(d: seq<byte>, i: nat, hash: nat, z: Sizes): (r: nat)
    requires z.Valid()
    ensures i <= |d| ==> i <= r <= |d|
    decreases |d| - i
  {
    if i >= |d| then |d|
    else
      var next := Roll(hash, d[i]);
      if (Masked(next, z.avg) && i >= z.min) || i >= z.max then i else NextEnd(d, i + 1, next, z)
  }

  /** The chunks of what follows a cut: the byte at the cut is not hashed. */
  function After(d: seq<byte>, z: Sizes): seq<seq<byte>>
    requires z.Valid()
    decreases |d|
  {
    if d == [] then []
    else
      var end := NextEnd(d, 1, 0, z);
      [d[..end]] + After(d[end..], z)
  }

  /** The first chunk is not looked at before its least size. */
  function Pieces(d: seq<byte>, z: Sizes): seq<seq<byte>>
    requires z.Valid() && d != []
  {
    var end := NextEnd(d, if z.min < |d| then z.min else |d|, 0, z);
    [d[..end]] + After(d[end..], z)
  }

  lemma {:induction false} EndInBounds(d: seq<byte>, i: nat, hash: nat, z: Sizes)
    requires z.Valid() && i <= |d| && i <= z.max
    ensures NextEnd(d, i, hash, z) <= z.max
    ensures NextEnd(d, i, hash, z) < |d| ==> NextEnd(d, i, hash, z) >= z.min
    decreases |d| - i
  {
    hide Roll, Masked;
    if i < |d| {
      var next := Roll(hash, d[i]);
      if (Masked(next, z.avg) && i >= z.min) || i >= z.max {
      } else {
        EndInBounds(d, i + 1, next, z);
      }
    }
  }

  /** Chunks within bounds: none above the maximum, none but the last below the minimum. */
  ghost predicate Bounded(ps: seq<seq<byte>>, z: Sizes)
  {
    forall i :: 0 <= i < |ps| ==> 0 < |ps[i]| <= z.max && (i < |ps| - 1 ==> |ps[i]| >= z.min)
  }

  lemma AfterStep(d: seq<byte>, z: Sizes)
    requires z.Valid() && d != []
    ensures var end := NextEnd(d, 1, 0, z); 0 < end <= |d| && After(d, z) == [d[..end]] + After(d[end..], z)
  {}

  lemma BoundedCons(p: seq<byte>, ps: seq<seq<byte>>, z: Sizes)
    requires Bounded(ps, z) && 0 < |p| <= z.max && (ps != [] ==> |p| >= z.min)
    ensures Bounded([p] + ps, z)
  {
    var all := [p] + ps;
    assert forall i :: 0 < i < |all| ==> all[i] == ps[i - 1];
  }

  lemma {:induction false} AfterIsWhole(d: seq<byte>, z: Sizes)
    requires z.Valid()
    ensures Concat(After(d, z)) == d && Bounded(After(d, z), z) && (d == [] <==> After(d, z) == [])
    decreases |d|
  {
    hide NextEnd, After, Concat, Bounded;
    if d == [] {
      NothingAfter(z);
    } else {
      var end := NextEnd(d, 1, 0, z);
      AfterStep(d, z);
      EndInBounds(d, 1, 0, z);
      AfterIsWhole(d[end..], z);
      BoundedCons(d[..end], After(d[end..], z), z);
      ConcatFirst(d[..end], After(d[end..], z));
      assert d[..end] + d[end..] == d;
    }
  }

  lemma NothingAfter(z: Sizes)
    requires z.Valid()
    ensures After([], z) == [] && Concat(After([], z)) == [] && Bounded([], z)
  {}

  /** The chunks are the input, end to end, and keep the bounds. */
  lemma PiecesAreWhole(d: seq<byte>, z: Sizes)
    requires z.Valid() && d != []
    ensures Concat(Pieces(d, z)) == d && Bounded(Pieces(d, z), z)
  {
    hide NextEnd, After, Concat, Bounded;
    var first := if z.min < |d| then z.min else |d|;
    var end := NextEnd(d, first, 0, z);
    EndInBounds(d, first, 0, z);
    AfterIsWhole(d[end..], z);
    BoundedCons(d[..end], After(d[end..], z), z);
    ConcatFirst(d[..end], After(d[end..], z));
    assert d[..end] + d[end..] == d;
  }

  // ---- The cuts, by the hash of the content ----

  /** The hash of a run of bytes: each rotates what came before by one bit, multiplies it by the byte's constant and is added. */
  ghost function GearHash(s: seq<byte>): (r: nat)
    ensures r < 0x1_0000_0000_0000_0000
  {
    if s == [] then 0
    else
      var h, b := GearHash(s[..|s| - 1]), s[|s| - 1];
      var rotated := if h < 0x8000_0000_0000_0000 then 2 * h else 2 * h - 0xFFFF_FFFF_FFFF_FFFF;
      (rotated * Gear(b) + b) % 0x1_0000_0000_0000_0000
  }

  /** The number ends in as many zero bits as the average has after its first, at least one; from 63 on it is zero. */
  ghost predicate EndsInZeros(hash: nat, avg: nat)
  {
    exists bits: nat :: Pow2(bits) <= avg < Pow2(bits + 1) && if bits >= 63 then hash == 0 else hash % Pow2(if bits < 1 then 1 else bits) == 0
  }

  /** The bytes of t from m to l, the last included, have a hash that ends in zeros. */
  ghost predicate ZerosAt(t: seq<byte>, m: nat, l: nat, avg: nat)
    requires m <= l < |t|
  {
    EndsInZeros(GearHash(t[m..l + 1]), avg)
  }

  /**
   The first n bytes of d are a chunk that ends where the content says: not before the least size,
   there at the first place where the hash of the bytes from m on, with the byte at the place, ends
   in zeros, and no later than the greatest size.
   */
  ghost predicate CutByHash(d: seq<byte>, n: nat, m: nat, z: Sizes)
  {
    && n <= |d| && n <= z.max
    && (forall l: nat :: z.min <= l < n && m <= l ==> !ZerosAt(d, m, l, z.avg))
    && (n < |d| ==> z.min <= n && m <= n && (n == z.max || ZerosAt(d, m, n, z.avg)))
  }

  /** Every chunk is cut by its hash, the first one hashed from m on and the others from their second byte. */
  ghost predicate AllCutByHash(ps: seq<seq<byte>>, m: nat, z: Sizes)
  {
    forall i :: 0 <= i < |ps| ==> ps[i] != [] && CutByHash(Concat(ps[i..]), |ps[i]|, if i == 0 then m else 1, z)
  }

  lemma {:induction false} Log2Bounds(n: nat)
    requires n > 0
    ensures Pow2(Log2(n)) <= n < Pow2(Log2(n) + 1)
  {
    if n == 1 {
      assert Pow2(0) == 1 && Pow2(1) == 2;
    } else {
      Log2Bounds(n / 2);
    }
  }

  lemma Log2Unique(n: nat, bits: nat)
    requires n > 0 && Pow2(bits) <= n < Pow2(bits + 1)
    ensures bits == Log2(n)
  {
    hide Pow2, Log2;
    Log2Bounds(n);
    if bits < Log2(n) { Pow2Monotone(bits + 1, Log2(n)); }
    if bits > Log2(n) { Pow2Monotone(Log2(n) + 1, bits); }
  }

  lemma MaskedExactly(hash: nat, avg: nat)
    requires avg > 0
    ensures Masked(hash, avg) <==> EndsInZeros(hash, avg)
  {
    hide Pow2, Log2;
    Log2Bounds(avg);
    if EndsInZeros(hash, avg) {
      var bits: nat :| Pow2(bits) <= avg < Pow2(bits + 1) && if bits >= 63 then hash == 0 else hash % Pow2(if bits < 1 then 1 else bits) == 0;
      Log2Unique(avg, bits);
    }
  }

  lemma RollExactly(s: seq<byte>, b: byte)
    ensures Roll(GearHash(s), b) == GearHash(s + [b])
  {
    hide Gear;
    var h, t := GearHash(s), s + [b];
    assert t[..|s|] == s && t[|s|] == b;
    HashLast(t);
    hide GearHash;
    MixExactly(h, b, Gear(b));
  }

  lemma HashLast(t: seq<byte>)
    requires t != []
    ensures var h, b := GearHash(t[..|t| - 1]), t[|t| - 1];
            var rotated := if h < TWO63 then 2 * h else 2 * h - 0xFFFF_FFFF_FFFF_FFFF;
            GearHash(t) == (rotated * Gear(b) + b) % TWO64
  {
    hide Gear;
  }

  lemma MixExactly(h: nat, b: byte, g: nat)
    requires h < TWO64
    ensures var rotated := if h < TWO63 then 2 * h else 2 * h - 0xFFFF_FFFF_FFFF_FFFF;
            ((2 * h % TWO64 + h / TWO63) * g % TWO64 + b) % TWO64 == (rotated * g + b) % TWO64
  {
    Rotation(h);
    InnerModulus((2 * h % TWO64 + h / TWO63) * g, b);
  }

  lemma Rotation(h: nat)
    requires h < TWO64
    ensures 2 * h % TWO64 + h / TWO63 == if h < TWO63 then 2 * h else 2 * h - 0xFFFF_FFFF_FFFF_FFFF
  {
    if h >= TWO63 {
      ModulusUnique(2 * h, TWO64, 1, 2 * h - TWO64);
    }
  }

  lemma InnerModulus(v: nat, b: nat)
    ensures (v % TWO64 + b) % TWO64 == (v + b) % TWO64
  {
    var q, r := v / TWO64, v % TWO64 + b;
    assert v + b == q * TWO64 + r;
    assert r == (r / TWO64) * TWO64 + r % TWO64;
    ModulusUnique(v + b, TWO64, q + r / TWO64, r % TWO64);
  }

  /** The scan from m on, written with the hash of the bytes: it goes on while there is no cut. */
  lemma ScanStep(d: seq<byte>, m: nat, i: nat, z: Sizes)
    requires z.Valid() && m <= i < |d|
    ensures NextEnd(d, i, GearHash(d[m..i]), z) ==
            if (ZerosAt(d, m, i, z.avg) && i >= z.min) || i >= z.max then i else NextEnd(d, i + 1, GearHash(d[m..i + 1]), z)
  {
    hide Roll, Masked, EndsInZeros, GearHash;
    RollExactly(d[m..i], d[i]);
    assert d[m..i] + [d[i]] == d[m..i + 1];
    MaskedExactly(GearHash(d[m..i + 1]), z.avg);
  }

  lemma {:induction false} EndExactly(d: seq<byte>, m: nat, i: nat, z: Sizes)
    requires z.Valid() && m <= i <= |d| && i <= z.max
    ensures var e := NextEnd(d, i, GearHash(d[m..i]), z);
            && (forall l: nat :: i <= l < e && z.min <= l ==> !ZerosAt(d, m, l, z.avg))
            && e <= z.max && (e < |d| ==> z.min <= e && (e == z.max || ZerosAt(d, m, e, z.avg)))
    decreases |d| - i
  {
    hide ZerosAt, GearHash, NextEnd;
    EndInBounds(d, i, GearHash(d[m..i]), z);
    if i == |d| {
      EndOfData(d, GearHash(d[m..i]), z);
    } else {
      ScanStep(d, m, i, z);
      if (ZerosAt(d, m, i, z.avg) && i >= z.min) || i >= z.max {
      } else {
        EndExactly(d, m, i + 1, z);
      }
    }
  }

  lemma NothingHashed()
    ensures GearHash([]) == 0
  {}

  lemma ChunkIsCut(d: seq<byte>, m: nat, z: Sizes)
    requires z.Valid() && d != [] && m <= |d| && 0 < m <= z.min
    ensures var e := NextEnd(d, m, 0, z); 0 < e <= |d| && CutByHash(d, e, m, z)
  {
    hide EndsInZeros, GearHash, NextEnd;
    NothingHashed();
    assert d[m..m] == [];
    EndExactly(d, m, m, z);
  }

  lemma CutCons(p: seq<byte>, ps: seq<seq<byte>>, m: nat, z: Sizes)
    requires p != [] && CutByHash(p + Concat(ps), |p|, m, z) && AllCutByHash(ps, 1, z)
    ensures AllCutByHash([p] + ps, m, z)
  {
    hide CutByHash, Concat;
    var all := [p] + ps;
    ConcatFirst(p, ps);
    forall i | 0 <= i < |all| ensures all[i] != [] && CutByHash(Concat(all[i..]), |all[i]|, if i == 0 then m else 1, z) {
      if i == 0 {
        assert all[0..] == all;
      } else {
        assert all[i] == ps[i - 1] && all[i..] == ps[i - 1..];
      }
    }
  }

  lemma {:induction false} AfterIsCut(d: seq<byte>, z: Sizes)
    requires z.Valid()
    ensures AllCutByHash(After(d, z), 1, z)
    decreases |d|
  {
    hide NextEnd, Concat, CutByHash;
    if d != [] {
      var end := NextEnd(d, 1, 0, z);
      AfterStep(d, z);
      ChunkIsCut(d, 1, z);
      hide After, AllCutByHash;
      AfterIsCut(d[end..], z);
      AfterIsWhole(d[end..], z);
      assert d[..end] + d[end..] == d;
      CutCons(d[..end], After(d[end..], z), 1, z);
      assert AllCutByHash(After(d, z), 1, z);
    }
  }

  lemma PiecesAreCut(d: seq<byte>, z: Sizes)
    requires z.Valid() && d != []
    ensures AllCutByHash(Pieces(d, z), z.min, z)
  {
    hide NextEnd, Concat, CutByHash, After, AllCutByHash;
    if z.min < |d| {
      var end := NextEnd(d, z.min, 0, z);
      ChunkIsCut(d, z.min, z);
      AfterIsCut(d[end..], z);
      AfterIsWhole(d[end..], z);
      assert d[..end] + d[end..] == d;
      CutCons(d[..end], After(d[end..], z), z.min, z);
    } else {
      WholePiece(d, z);
      WholeIsCut(d, z);
    }
  }

  lemma WholeIsCut(d: seq<byte>, z: Sizes)
    requires z.Valid() && 0 < |d| <= z.min
    ensures AllCutByHash([d], z.min, z)
  {
    hide ZerosAt, Concat;
    ConcatOne(d);
    assert [d][0..] == [d];
  }

  // ---- and no other pieces are cut so ----

  lemma {:induction false} EndIsForced(d: seq<byte>, m: nat, i: nat, n: nat, z: Sizes)
    requires z.Valid() && m <= i <= n <= |d| && CutByHash(d, n, m, z)
    ensures NextEnd(d, i, GearHash(d[m..i]), z) == n
    decreases n - i
  {
    hide EndsInZeros, GearHash, NextEnd;
    if i == |d| {
      EndOfData(d, GearHash(d[m..n]), z);
    } else {
      ScanStep(d, m, i, z);
      if i < n { EndIsForced(d, m, i + 1, n, z); }
    }
  }

  lemma EndOfData(d: seq<byte>, hash: nat, z: Sizes)
    requires z.Valid()
    ensures NextEnd(d, |d|, hash, z) == |d|
  {}

  lemma CutUncons(ps: seq<seq<byte>>, m: nat, z: Sizes)
    requires ps != [] && AllCutByHash(ps, m, z)
    ensures var rest := ps[1..];
            ps[0] != [] && CutByHash(Concat(ps), |ps[0]|, m, z) && AllCutByHash(rest, 1, z) && Concat(ps) == ps[0] + Concat(rest)
  {
    hide CutByHash, Concat;
    var rest := ps[1..];
    forall i | 0 <= i < |rest| ensures rest[i] != [] && CutByHash(Concat(rest[i..]), |rest[i]|, if i == 0 then 1 else 1, z) {
      assert rest[i] == ps[i + 1] && rest[i..] == ps[i + 1..];
    }
    ConcatFirst(ps[0], rest);
    assert [ps[0]] + rest == ps && ps[0..] == ps;
  }

  lemma FirstIsForced(ps: seq<seq<byte>>, m: nat, z: Sizes)
    requires z.Valid() && ps != [] && AllCutByHash(ps, m, z) && m <= |ps[0]|
    ensures var d, n := Concat(ps), |ps[0]|;
            0 < n <= |d| && NextEnd(d, m, 0, z) == n && d[..n] == ps[0] && d[n..] == Concat(ps[1..])
  {
    hide CutByHash, Concat, NextEnd, AllCutByHash;
    CutUncons(ps, m, z);
    var d, n := Concat(ps), |ps[0]|;
    NothingHashed();
    assert d[m..m] == [];
    EndIsForced(d, m, m, n, z);
  }

  lemma {:induction false} AfterIsForced(ps: seq<seq<byte>>, z: Sizes)
    requires z.Valid() && AllCutByHash(ps, 1, z)
    ensures ps == After(Concat(ps), z)
    decreases |ps|
  {
    if ps == [] {
      ConcatNone<byte>();
    } else {
      hide Concat, AllCutByHash;
      CutUncons(ps, 1, z);
      AfterIsForced(ps[1..], z);
      FirstIsForced(ps, 1, z);
      AfterStep(Concat(ps), z);
      hide After, NextEnd;
      assert ps == [ps[0]] + ps[1..];
      assert ps == After(Concat(ps), z);
    }
  }

  /** The pieces are exactly the sequence of chunks, none empty, that join to the input and are cut by their hashes. */
  lemma PiecesExactly(d: seq<byte>, ps: seq<seq<byte>>, z: Sizes)
    requires z.Valid() && d != []
    ensures ps == Pieces(d, z) <==> Concat(ps) == d && AllCutByHash(ps, z.min, z)
  {
    hide Concat, AllCutByHash, After, NextEnd, CutByHash;
    PiecesAreWhole(d, z);
    PiecesAreCut(d, z);
    if Concat(ps) == d && AllCutByHash(ps, z.min, z) {
      if ps == [] { ConcatNone<byte>(); assert false; }
      CutUncons(ps, z.min, z);
      LeastFirst(ps, z);
      AfterIsForced(ps[1..], z);
      if z.min < |d| {
        FirstIsForced(ps, z.min, z);
        assert ps == [ps[0]] + ps[1..];
      } else {
        WholePiece(d, z);
        NothingAfter(z);
        assert Concat(ps[1..]) == [];
        assert ps == [ps[0]] + ps[1..] && ps[0] + [] == ps[0];
      }
    }
  }

  /** Only a last chunk is shorter than the least size. */
  lemma LeastFirst(ps: seq<seq<byte>>, z: Sizes)
    requires ps != [] && AllCutByHash(ps, z.min, z)
    ensures |ps[0]| >= z.min || Concat(ps[1..]) == []
  {
    hide Concat, ZerosAt, AllCutByHash;
    CutUncons(ps, z.min, z);
  }

  // ---- Editing ----

  /** From a place on, the chunks are those of the bytes that follow it. */
  ghost predicate Resumes(d: seq<byte>, ps: seq<seq<byte>>, n: nat, z: Sizes)
    requires z.Valid() && n <= |ps|
  {
    |Concat(ps[..n])| <= |d| && ps[n..] == After(d[|Concat(ps[..n])|..], z)
  }

  lemma ResumesLater(d: seq<byte>, end: nat, ps: seq<seq<byte>>, n: nat, z: Sizes)
    requires z.Valid() && end <= |d| && n <= |ps| && Resumes(d[end..], ps, n, z)
    ensures Resumes(d, [d[..end]] + ps, n + 1, z)
  {
    hide After, Concat;
    var all := [d[..end]] + ps;
    var m := |Concat(ps[..n])|;
    ConcatFirst(d[..end], ps[..n]);
    assert all[..n + 1] == [d[..end]] + ps[..n] && all[n + 1..] == ps[n..];
    assert d[end..][m..] == d[end + m..];
  }

  lemma {:induction false} AfterACut(d: seq<byte>, z: Sizes, n: nat)
    requires z.Valid() && n <= |After(d, z)|
    ensures Resumes(d, After(d, z), n, z)
    decreases n
  {
    if n == 0 {
      ConcatNone<byte>();
      assert After(d, z)[..0] == [] && After(d, z)[0..] == After(d, z) && d[0..] == d;
    } else {
      hide Resumes, Concat;
      assert d != [];
      AfterStep(d, z);
      var end := NextEnd(d, 1, 0, z);
      hide After, NextEnd;
      AfterACut(d[end..], z, n - 1);
      ResumesLater(d, end, After(d[end..], z), n - 1, z);
      assert Resumes(d, After(d, z), n, z);
    }
  }

  /** From the first cut on, the cuts depend on nothing but the bytes that follow. */
  lemma CutsFollowContent(d: seq<byte>, z: Sizes, n: nat)
    requires z.Valid() && d != [] && 0 < n <= |Pieces(d, z)|
    ensures |Concat(Pieces(d, z)[..n])| <= |d|
    ensures Pieces(d, z)[n..] == After(d[|Concat(Pieces(d, z)[..n])|..], z)
  {
    hide NextEnd, After, Concat;
    var end := NextEnd(d, if z.min < |d| then z.min else |d|, 0, z);
    AfterACut(d[end..], z, n - 1);
    ResumesLater(d, end, After(d[end..], z), n - 1, z);
    assert Resumes(d, Pieces(d, z), n, z);
  }

  /** Two inputs that end alike from a cut of each are chunked alike from there. */
  lemma EditsStayLocal(a: seq<byte>, b: seq<byte>, z: Sizes, m: nat, n: nat)
    requires z.Valid() && a != [] && b != []
    requires 0 < m <= |Pieces(a, z)| && 0 < n <= |Pieces(b, z)|
    requires |Concat(Pieces(a, z)[..m])| <= |a| && |Concat(Pieces(b, z)[..n])| <= |b|
    requires a[|Concat(Pieces(a, z)[..m])|..] == b[|Concat(Pieces(b, z)[..n])|..]
    ensures Pieces(a, z)[m..] == Pieces(b, z)[n..]
  {
    hide Pieces, After, Concat;
    CutsFollowContent(a, z, m);
    CutsFollowContent(b, z, n);
  }

  // ---- The splitter ----

  ghost function NamedAll(h: Hash, ps: seq<seq<byte>>): (r: seq<Chunk>)
    ensures |r| == |ps|
  {
    seq(|ps|, i requires 0 <= i < |ps| => Named(h, ps[i]))
  }

  lemma NamedJoin(h: Hash, ps: seq<seq<byte>>)
    ensures Joined(NamedAll(h, ps)) == Concat(ps) && WellNamed(h, NamedAll(h, ps)) && DataOf(NamedAll(h, ps)) == ps
  {
    assert DataOf(NamedAll(h, ps)) == ps;
  }

  ghost function Spec(h: Hash, d: seq<byte>, z: Sizes): Option<seq<Chunk>>
  {
    if d == [] || !z.Valid() then None else Some(NamedAll(h, Pieces(d, z)))
  }

  /** What is still to come when the open chunk began at `start` and the hash stands before i. */
  ghost function ToCome(d: seq<byte>, start: nat, i: nat, hash: nat, z: Sizes): seq<seq<byte>>
    requires z.Valid() && start <= i <= |d|
  {
    var end := NextEnd(d[start..], i - start, hash, z);
    [d[start..][..end]] + After(d[start..][end..], z)
  }

  lemma CutHere(d: seq<byte>, start: nat, i: nat, hash: nat, z: Sizes)
    requires z.Valid() && start < i < |d|
    requires (Masked(Roll(hash, d[i]), z.avg) && i - start >= z.min) || i - start >= z.max
    ensures ToCome(d, start, i, hash, z) == [d[start..i]] + ToCome(d, i, i + 1, 0, z)
  {
    hide Roll, Masked;
    var s := d[start..];
    assert s[i - start] == d[i] && NextEnd(s, i - start, hash, z) == i - start;
    assert s[..i - start] == d[start..i] && s[i - start..] == d[i..];
  }

  lemma NoCutHere(d: seq<byte>, start: nat, i: nat, hash: nat, z: Sizes)
    requires z.Valid() && start <= i < |d|
    requires !((Masked(Roll(hash, d[i]), z.avg) && i - start >= z.min) || i - start >= z.max)
    ensures ToCome(d, start, i, hash, z) == ToCome(d, start, i + 1, Roll(hash, d[i]), z)
  {
    hide Roll, Masked, After;
    assert d[start..][i - start] == d[i];
  }

  lemma NothingMore(d: seq<byte>, start: nat, hash: nat, z: Sizes)
    requires z.Valid() && start <= |d|
    ensures ToCome(d, start, |d|, hash, z) == [d[start..]]
  {
    var s := d[start..];
    assert s[..|s|] == s && s[|s|..] == [];
  }

  method Scan(d: seq<byte>, z: Sizes) returns (ps: seq<seq<byte>>)
    requires z.Valid() && z.min < |d|
    ensures ps == Pieces(d, z)
  {
    hide Roll, Masked, NextEnd, After;
    ps := [];
    var start, hash, i := 0, 0, z.min;
    assert d[0..] == d;
    while i < |d|
      invariant start < i <= |d|
      invariant ps + ToCome(d, start, i, hash, z) == Pieces(d, z)
    {
      hide ToCome, Pieces;
      var next := Roll(hash, d[i]);
      if (Masked(next, z.avg) && i - start >= z.min) || i - start >= z.max {
        CutHere(d, start, i, hash, z);
        ps := ps + [d[start..i]];
        start, hash := i, 0;
      } else {
        NoCutHere(d, start, i, hash, z);
        hash := next;
      }
      i := i + 1;
    }
    NothingMore(d, start, hash, z);
    ps := ps + [d[start..]];
  }

  method Name(h: Hash, ps: seq<seq<byte>>) returns (chunks: seq<Chunk>)
    ensures chunks == NamedAll(h, ps)
  {
    chunks := [];
    for i := 0 to |ps|
      invariant chunks == NamedAll(h, ps)[..i]
    {
      chunks := chunks + [Named(h, ps[i])];
    }
  }

  method Split(h: Hash, d: seq<byte>, z: Sizes) returns (r: Option<seq<Chunk>>)
    ensures r == Spec(h, d, z)
    ensures r.Some? <==> d != [] && 0 < z.min <= z.avg <= z.max
    ensures r.Some? ==> Joined(r.value) == d && WellNamed(h, r.value) && AllCutByHash(DataOf(r.value), z.min, z)
  {
    if d == [] || !z.Valid() { return None; }
    hide Roll, Masked, After, Joined, ContentId, AllCutByHash;
    var ps;
    if z.min >= |d| {
      ps := [d];
      WholePiece(d, z);
    } else {
      ps := Scan(d, z);
    }
    var chunks := Name(h, ps);
    PiecesAreWhole(d, z);
    PiecesAreCut(d, z);
    NamedJoin(h, ps);
    r := Some(chunks);
  }

  lemma WholePiece(d: seq<byte>, z: Sizes)
    requires z.Valid() && 0 < |d| <= z.min
    ensures Pieces(d, z) == [d]
  {
    assert d[..|d|] == d && d[|d|..] == [];
  }
}
