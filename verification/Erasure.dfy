/**
 The systematic Cauchy code over GF(2^8): k data shards pass through unchanged and p parity
 shards are Cauchy combinations of them, so that any k of the k + p shards restore the data.
 */
module Erasure {
  import opened Options
  import opened Collections
  import opened Gf256
  import opened Linear
  import opened GaussJordan

  const MAX_SHARDS := 256
  const MAX_SHARD_BYTES := 64 * 1024 * 1024

  type Shard = seq<bv8>

  /** The parameters the constructor accepts. */
  predicate ValidCode(k: nat, p: nat)
  {
    k > 0 && p > 0 && k + p < 256
  }

  /** A counter cut down to a byte. */
  function ToByte(n: nat): bv8
  {
    (n % 256) as bv8
  }

  lemma ToByteDistinct(i: nat, j: nat)
    requires i < 256 && j < 256
    ensures ToByte(i) == ToByte(j) <==> i == j
  {
    ToByteValue(i);
    ToByteValue(j);
  }

  lemma ToByteValue(i: nat)
    requires i < 256
    ensures ToByte(i) as int == i
  {
    assert i % 256 == i;
  }

  /** The evaluation points: x_i = i for parity row i, y_j = p + j for data shard j. */
  function PointY(p: nat, j: nat): bv8
  {
    ToByte(p + j)
  }

  /** A Cauchy element 1 / (x_i + y_j); the caller reads a missing inverse as zero. */
  ghost function Cauchy(p: nat, i: nat, j: nat): bv8
  {
    var d := Add(ToByte(i), PointY(p, j));
    if d == 0 then 0 else Inv(d)
  }

  ghost function CauchyRow(k: nat, p: nat, i: nat): (r: Vector)
    ensures |r| == k
  {
    seq(k, (j: nat) => Cauchy(p, i, j))
  }

  /** The coefficients of shard `index` over the data shards. */
  ghost function ShardRow(k: nat, p: nat, index: nat): (r: Vector)
    ensures |r| == k
  {
    if index < k then Unit(k, index) else CauchyRow(k, p, index - k)
  }

  /** Byte b of every shard. */
  function Column(shards: seq<Shard>, b: nat): (r: Vector)
    requires forall i :: 0 <= i < |shards| ==> b < |shards[i]|
    ensures |r| == |shards|
  {
    seq(|shards|, i requires 0 <= i < |shards| => shards[i][b])
  }

  ghost predicate EqualSizes(shards: seq<Shard>, len: nat)
  {
    forall i :: 0 <= i < |shards| ==> |shards[i]| == len
  }

  // ---- Every mixed identity and Cauchy submatrix is nonsingular ----

  /** The elimination step of the Cauchy system, one term of the sum. */
  lemma CauchyTerm(x: bv8, e: bv8, t: bv8, y: bv8)
    requires Add(x, y) != 0 && Add(e, y) != 0
    ensures var p, q := Inv(Add(x, y)), Inv(Add(e, y));
            Add(Mul(Add(x, t), p), Mul(Add(e, t), q)) == Mul(Add(x, e), Mul(Mul(Add(t, y), q), p))
  {
    hide Add, Mul, Inv;
    var p, q := Inv(Add(x, y)), Inv(Add(e, y));
    var s := Add(t, y);
    CauchySplit(x, t, y);
    CauchySplit(e, t, y);
    AddSwap(1, Mul(s, p), 1, Mul(s, q));
    AddZero(1);
    AddZero(Add(Mul(s, p), Mul(s, q)));
    MulLinearRight(s, p, q);
    PartialFractions(x, e, y);
    var pq := Mul(p, q);
    MulAssoc(s, pq, Add(x, e));
    MulComm(Mul(s, pq), Add(x, e));
    MulComm(p, q);
    MulAssoc(s, q, p);
  }

  /** (x + t) / (x + y) = 1 + (t + y) / (x + y) */
  lemma CauchySplit(x: bv8, t: bv8, y: bv8)
    requires Add(x, y) != 0
    ensures Mul(Add(x, t), Inv(Add(x, y))) == Add(1, Mul(Add(t, y), Inv(Add(x, y))))
  {
    hide Add, Mul, Inv;
    var p := Inv(Add(x, y));
    assert Add(x, t) == Add(Add(x, y), Add(t, y)) by {
      AddComm(t, y);
      AddAssoc(x, y, Add(y, t));
      AddAssoc(y, y, t);
      AddZero(y);
      AddZero(t);
    }
    MulLinearLeft(Add(x, y), Add(t, y), p);
  }

  /** 1 / (x + y) + 1 / (e + y) = (x + e) / ((x + y)(e + y)) */
  lemma PartialFractions(x: bv8, e: bv8, y: bv8)
    requires Add(x, y) != 0 && Add(e, y) != 0
    ensures var p, q := Inv(Add(x, y)), Inv(Add(e, y));
            Add(p, q) == Mul(Mul(p, q), Add(x, e))
  {
    hide Add, Mul, Inv;
    var p, q := Inv(Add(x, y)), Inv(Add(e, y));
    var u, v := Add(x, y), Add(e, y);
    assert Add(x, e) == Add(u, v) by {
      AddSwap(x, y, e, y);
      AddZero(y);
      AddZero(Add(x, e));
    }
    MulLinearRight(Mul(p, q), u, v);
    MulAssoc(p, q, v);
    MulComm(q, v);
    MulOne(p);
    MulComm(p, q);
    MulAssoc(q, p, u);
    MulComm(p, u);
    MulOne(q);
    AddComm(p, q);
  }

  /** The row of the Cauchy matrix at point x over the points ys. */
  ghost function PointRow(x: bv8, ys: seq<bv8>): (r: Vector)
    requires forall j :: 0 <= j < |ys| ==> Add(x, ys[j]) != 0
    ensures |r| == |ys|
  {
    seq(|ys|, j requires 0 <= j < |ys| => Inv(Add(x, ys[j])))
  }

  /** The unknowns left after the equation at point e removed the one at point t. */
  ghost function Shrink(v: Vector, ys: seq<bv8>, e: bv8, t: bv8): (r: Vector)
    requires |v| == |ys|
    requires forall j :: 0 <= j < |ys| ==> Add(e, ys[j]) != 0
    ensures |r| == |v|
  {
    seq(|v|, j requires 0 <= j < |v| => Mul(v[j], Mul(Add(t, ys[j]), Inv(Add(e, ys[j])))))
  }

  lemma {:induction false} ShrinkSystem(v: Vector, ys: seq<bv8>, x: bv8, e: bv8, t: bv8)
    requires |v| == |ys|
    requires forall j :: 0 <= j < |ys| ==> Add(x, ys[j]) != 0 && Add(e, ys[j]) != 0
    ensures Mul(Add(x, e), Dot(PointRow(x, ys), Shrink(v, ys, e, t)))
            == Add(Mul(Add(x, t), Dot(PointRow(x, ys), v)), Mul(Add(e, t), Dot(PointRow(e, ys), v)))
  {
    hide Add, Mul, Inv;
    if |v| == 0 {
      MulOne(Add(x, e));
      MulOne(Add(x, t));
      MulOne(Add(e, t));
      AddZero(0);
    } else {
      var v', ys' := v[1..], ys[1..];
      var px, pe, w := PointRow(x, ys), PointRow(e, ys), Shrink(v, ys, e, t);
      assert px[1..] == PointRow(x, ys') && pe[1..] == PointRow(e, ys') && w[1..] == Shrink(v', ys', e, t);
      ShrinkSystem(v', ys', x, e, t);
      ShrinkTerm(v[0], ys[0], x, e, t);
      MulLinearRight(Add(x, e), Mul(px[0], w[0]), Dot(px[1..], w[1..]));
      MulLinearRight(Add(x, t), Mul(px[0], v[0]), Dot(px[1..], v'));
      MulLinearRight(Add(e, t), Mul(pe[0], v[0]), Dot(pe[1..], v'));
      AddSwap(Mul(Add(x, t), Mul(px[0], v[0])), Mul(Add(e, t), Mul(pe[0], v[0])),
              Mul(Add(x, t), Dot(px[1..], v')), Mul(Add(e, t), Dot(pe[1..], v')));
    }
  }

  lemma ShrinkTerm(c: bv8, y: bv8, x: bv8, e: bv8, t: bv8)
    requires Add(x, y) != 0 && Add(e, y) != 0
    ensures var p, q := Inv(Add(x, y)), Inv(Add(e, y));
            Mul(Add(x, e), Mul(p, Mul(c, Mul(Add(t, y), q))))
            == Add(Mul(Add(x, t), Mul(p, c)), Mul(Add(e, t), Mul(q, c)))
  {
    hide Add, Mul, Inv;
    var p, q := Inv(Add(x, y)), Inv(Add(e, y));
    var s := Mul(Add(t, y), q);
    CauchyTerm(x, e, t, y);
    MulAssoc(Add(x, t), p, c);
    MulAssoc(Add(e, t), q, c);
    MulLinearLeft(Mul(Add(x, t), p), Mul(Add(e, t), q), c);
    MulAssoc(Add(x, e), Mul(s, p), c);
    MulComm(s, p);
    MulAssoc(p, s, c);
    MulComm(s, c);
  }

  ghost function Support(v: Vector): set<int>
  {
    set j | 0 <= j < |v| && v[j] != 0
  }

  ghost predicate Points(xs: seq<bv8>, ys: seq<bv8>)
  {
    && Distinct(xs) && Distinct(ys)
    && (forall i, j :: 0 <= i < |xs| && 0 <= j < |ys| ==> Add(xs[i], ys[j]) != 0)
  }

  /** As many Cauchy equations as nonzero unknowns have only the zero solution. */
  lemma {:induction false} CauchyKernel(xs: seq<bv8>, ys: seq<bv8>, v: Vector)
    requires Points(xs, ys) && |v| == |ys|
    requires |Support(v)| <= |xs|
    requires forall i :: 0 <= i < |xs| ==> Dot(PointRow(xs[i], ys), v) == 0
    ensures v == Zeros(|v|)
    decreases |xs|
  {
    hide Add, Mul, Inv, Dot;
    if Support(v) == {} {
      forall j | 0 <= j < |v|
        ensures v[j] == 0
      {
        assert j !in Support(v);
      }
    } else {
      var t: int :| t in Support(v);
      var last := |xs| - 1;
      assert |xs| > 0;
      var e := xs[last];
      var w := Shrink(v, ys, e, ys[t]);
      ShrinkSupport(v, ys, e, t);
      forall i | 0 <= i < last
        ensures Dot(PointRow(xs[..last][i], ys), w) == 0
      {
        var x := xs[i];
        ShrinkSystem(v, ys, x, e, ys[t]);
        MulOne(Add(x, ys[t]));
        MulOne(Add(e, ys[t]));
        AddZero(0);
        AddCancel(x, e);
        MulNonzero(Add(x, e), Dot(PointRow(x, ys), w));
      }
      CauchyKernel(xs[..last], ys, w);
      forall j | 0 <= j < |v| && j != t
        ensures v[j] == 0
      {
        assert j !in Support(w);
      }
      DotSingle(PointRow(e, ys), v, t);
      InvNonzero(Add(e, ys[t]));
      MulNonzero(PointRow(e, ys)[t], v[t]);
      assert false;
    }
  }

  lemma InvNonzero(a: bv8)
    requires a != 0
    ensures Inv(a) != 0
  {
    hide Mul, Inv;
    MulOne(a);
  }

  lemma ShrinkSupport(v: Vector, ys: seq<bv8>, e: bv8, t: int)
    requires |v| == |ys| && t in Support(v)
    requires forall i, j :: 0 <= i < j < |ys| ==> ys[i] != ys[j]
    requires forall j :: 0 <= j < |ys| ==> Add(e, ys[j]) != 0
    ensures Support(Shrink(v, ys, e, ys[t])) == Support(v) - {t}
  {
    hide Add, Mul, Inv;
    var w := Shrink(v, ys, e, ys[t]);
    forall j | 0 <= j < |v|
      ensures w[j] != 0 <==> v[j] != 0 && j != t
    {
      var s := Add(ys[t], ys[j]);
      AddCancel(ys[t], ys[j]);
      InvNonzero(Add(e, ys[j]));
      MulNonzero(s, Inv(Add(e, ys[j])));
      MulNonzero(v[j], Mul(s, Inv(Add(e, ys[j]))));
    }
  }

  // ---- The surviving rows ----

  /** The parity points among the chosen shard indices. */
  function ParityPoints(k: nat, chosen: seq<nat>): seq<bv8>
  {
    if chosen == [] then []
    else (if chosen[0] < k then [] else [ToByte(chosen[0] - k)]) + ParityPoints(k, chosen[1..])
  }

  ghost function DataIndices(k: nat, chosen: seq<nat>): set<int>
  {
    set i | i in chosen && i < k
  }

  lemma {:induction false} ChosenCount(k: nat, chosen: seq<nat>)
    requires Distinct(chosen)
    ensures |DataIndices(k, chosen)| + |ParityPoints(k, chosen)| == |chosen|
  {
    if chosen == [] {
      assert DataIndices(k, chosen) == {};
    } else {
      var rest := chosen[1..];
      ChosenCount(k, rest);
      assert chosen == [chosen[0]] + rest;
      if chosen[0] < k {
        assert DataIndices(k, chosen) == DataIndices(k, rest) + {chosen[0] as int};
        assert chosen[0] as int !in DataIndices(k, rest);
      } else {
        assert DataIndices(k, chosen) == DataIndices(k, rest);
      }
    }
  }

  /** Every parity point belongs to a chosen parity shard. */
  lemma {:induction false} ParityPointOrigin(k: nat, chosen: seq<nat>, i: nat) returns (r: nat)
    requires i < |ParityPoints(k, chosen)|
    ensures r < |chosen| && chosen[r] >= k && ParityPoints(k, chosen)[i] == ToByte(chosen[r] - k)
  {
    if chosen[0] < k {
      r := ParityPointOrigin(k, chosen[1..], i);
      r := r + 1;
    } else if i == 0 {
      r := 0;
    } else {
      r := ParityPointOrigin(k, chosen[1..], i - 1);
      r := r + 1;
    }
  }

  lemma {:induction false} ParityPointsDistinct(k: nat, p: nat, chosen: seq<nat>)
    requires ValidCode(k, p) && Distinct(chosen)
    requires forall r :: 0 <= r < |chosen| ==> chosen[r] < k + p
    ensures Distinct(ParityPoints(k, chosen))
  {
    if chosen != [] {
      var rest := chosen[1..];
      ParityPointsDistinct(k, p, rest);
      if chosen[0] >= k {
        NewParityPoint(k, p, chosen);
        hide ToByte;
        DistinctCons(ToByte(chosen[0] - k), ParityPoints(k, rest));
      }
    }
  }

  lemma NewParityPoint(k: nat, p: nat, chosen: seq<nat>)
    requires ValidCode(k, p) && Distinct(chosen) && chosen != [] && chosen[0] >= k
    requires forall r :: 0 <= r < |chosen| ==> chosen[r] < k + p
    ensures var xs := ParityPoints(k, chosen[1..]); forall j :: 0 <= j < |xs| ==> xs[j] != ToByte(chosen[0] - k)
  {
    hide ToByte, ParityPoints;
    var rest := chosen[1..];
    var xs := ParityPoints(k, rest);
    forall j | 0 <= j < |xs| ensures xs[j] != ToByte(chosen[0] - k) {
      var r := ParityPointOrigin(k, rest, j);
      assert rest[r] == chosen[r + 1];
      ToByteDistinct(chosen[0] - k, rest[r] - k);
    }
  }

  ghost function DataPoints(k: nat, p: nat): (r: seq<bv8>)
    ensures |r| == k
  {
    seq(k, (j: nat) => PointY(p, j))
  }

  lemma CauchyRowIsPointRow(k: nat, p: nat, i: nat)
    requires ValidCode(k, p) && i < p
    ensures forall j :: 0 <= j < k ==> Add(ToByte(i), DataPoints(k, p)[j]) != 0
    ensures CauchyRow(k, p, i) == PointRow(ToByte(i), DataPoints(k, p))
  {
    hide Add, Inv, ToByte;
    forall j: nat | j < k
      ensures Add(ToByte(i), DataPoints(k, p)[j]) != 0
    {
      ToByteDistinct(i, p + j);
      AddCancel(ToByte(i), ToByte(p + j));
    }
  }

  /** The coefficient matrix of the chosen shards. */
  ghost function ShardMatrix(k: nat, p: nat, chosen: seq<nat>): (r: Matrix)
    ensures IsMatrix(r, |chosen|, k)
  {
    seq(|chosen|, r requires 0 <= r < |chosen| => ShardRow(k, p, chosen[r]))
  }

  /** Any k distinct shards of a valid code determine the data: the MDS property. */
  lemma AnyKShardsSuffice(k: nat, p: nat, chosen: seq<nat>)
    requires ValidCode(k, p) && |chosen| == k && Distinct(chosen)
    requires forall r :: 0 <= r < k ==> chosen[r] < k + p
    ensures Nonsingular(ShardMatrix(k, p, chosen))
  {
    hide Add, Mul, Inv, Dot, ToByte, CauchyRow;
    var a := ShardMatrix(k, p, chosen);
    var xs, ys := ParityPoints(k, chosen), DataPoints(k, p);
    forall v: Vector | |v| == k && Kills(a, v)
      ensures v == Zeros(k)
    {
      SupportBound(k, p, chosen, v);
      PointsOfCode(k, p, chosen);
      forall i | 0 <= i < |xs|
        ensures Dot(PointRow(xs[i], ys), v) == 0
      {
        var r := ParityPointOrigin(k, chosen, i);
        CauchyRowIsPointRow(k, p, chosen[r] - k);
        assert Dot(a[r], v) == 0;
      }
      CauchyKernel(xs, ys, v);
    }
  }

  lemma PointsOfCode(k: nat, p: nat, chosen: seq<nat>)
    requires ValidCode(k, p) && Distinct(chosen)
    requires forall r :: 0 <= r < |chosen| ==> chosen[r] < k + p
    ensures Points(ParityPoints(k, chosen), DataPoints(k, p))
  {
    hide Add, ToByte;
    var xs, ys := ParityPoints(k, chosen), DataPoints(k, p);
    ParityPointsDistinct(k, p, chosen);
    forall i, j | 0 <= i < j < |ys|
      ensures ys[i] != ys[j]
    {
      ToByteDistinct(p + i, p + j);
    }
    forall i, j | 0 <= i < |xs| && 0 <= j < |ys|
      ensures Add(xs[i], ys[j]) != 0
    {
      var r := ParityPointOrigin(k, chosen, i);
      ToByteDistinct(chosen[r] - k, p + j);
      AddCancel(xs[i], ys[j]);
    }
  }

  /** A data shard among the chosen ones fixes its own unknown. */
  lemma SupportBound(k: nat, p: nat, chosen: seq<nat>, v: Vector)
    requires ValidCode(k, p) && |chosen| == k == |v| && Distinct(chosen)
    requires Kills(ShardMatrix(k, p, chosen), v)
    ensures |Support(v)| <= |ParityPoints(k, chosen)|
  {
    hide Add, Mul, Dot, CauchyRow;
    var a, d := ShardMatrix(k, p, chosen), DataIndices(k, chosen);
    forall i | i in d
      ensures v[i] == 0
    {
      var r :| 0 <= r < |chosen| && chosen[r] == i;
      assert Dot(a[r], v) == 0;
      DotSingle(Unit(k, i), v, i);
      OneMul(v[i]);
    }
    ChosenCount(k, chosen);
    var free := Below(k) - d;
    assert d <= Below(k);
    SubsetSize(Support(v), free);
  }

  ghost function Below(n: nat): (r: set<int>)
    ensures |r| == n
    ensures forall x :: x in r <==> 0 <= x < n
  {
    if n == 0 then {} else Below(n - 1) + {n - 1}
  }

  // ---- Encoding ----

  ghost function ParityShard(k: nat, p: nat, i: nat, data: seq<Shard>, len: nat): (r: Shard)
    requires |data| == k && EqualSizes(data, len)
    ensures |r| == len
  {
    seq(len, b requires 0 <= b < len => Dot(CauchyRow(k, p, i), Column(data, b)))
  }

  /** The shards the encoder emits: the data, then p Cauchy combinations of it. */
  ghost function AllShards(k: nat, p: nat, data: seq<Shard>, len: nat): (r: seq<Shard>)
    requires |data| == k && EqualSizes(data, len)
    ensures |r| == k + p
  {
    data + seq(p, (i: nat) => ParityShard(k, p, i, data, len))
  }

  ghost predicate Encodable(k: nat, data: seq<Shard>)
    requires k > 0
  {
    |data| == k && 0 < |data[0]| <= 0x400_0000 && EqualSizes(data, |data[0]|)
  }

  ghost function Encoding(k: nat, p: nat, data: seq<Shard>): Option<seq<Shard>>
    requires ValidCode(k, p)
  {
    if Encodable(k, data) then Some(AllShards(k, p, data, |data[0]|)) else None
  }

  // ---- The parity bytes ----

  /** The coefficients of parity shard i: the inverses of the sums of i and p + j. */
  ghost predicate Inverts(c: Vector, k: nat, p: nat, i: nat)
    requires ValidCode(k, p) && i < p
  {
    |c| == k && forall j :: 0 <= j < k ==> Mul(c[j], (i as bv8) ^ ((p + j) as bv8)) == 1
  }

  /** The sum of the first n coefficients times the bytes. */
  ghost function Combination(c: Vector, v: Vector, n: nat): bv8
    requires n <= |c| == |v|
  {
    if n == 0 then 0 else Combination(c, v, n - 1) ^ Mul(c[n - 1], v[n - 1])
  }

  /** The data unchanged, and in each byte of parity shard i the combination of the data's bytes. */
  ghost predicate IsCoded(k: nat, p: nat, data: seq<Shard>, r: seq<Shard>)
    requires ValidCode(k, p) && Encodable(k, data)
  {
    && |r| == k + p && r[..k] == data && EqualSizes(r, |data[0]|)
    && forall i: nat, b: nat, c: Vector :: i < p && b < |data[0]| && |c| == k && Inverts(c, k, p, i) ==>
         r[k + i][b] == Combination(c, Column(data, b), k)
  }

  lemma {:induction false} CombinationIsDot(c: Vector, v: Vector, n: nat)
    requires n <= |c| == |v|
    ensures Combination(c, v, n) == Dot(c[..n], v[..n])
  {
    hide Mul, Dot;
    if n == 0 {
      EmptyDot();
      assert c[..0] == [] && v[..0] == [];
    } else {
      CombinationIsDot(c, v, n - 1);
      assert c[..n] == c[..n - 1] + [c[n - 1]] && v[..n] == v[..n - 1] + [v[n - 1]];
      DotConcat(c[..n - 1], [c[n - 1]], v[..n - 1], [v[n - 1]]);
      OneDot(c[n - 1], v[n - 1]);
    }
  }

  lemma OneDot(a: bv8, b: bv8)
    ensures Dot([a], [b]) == Mul(a, b)
  {
    hide Mul, Add;
    EmptyDot();
    AddZero(Mul(a, b));
    assert [a][1..] == [] && [b][1..] == [];
  }

  lemma PointsMeet(p: nat, i: nat, j: nat)
    requires i < p && p + j < 256
    ensures ToByte(i) == i as bv8 && PointY(p, j) == (p + j) as bv8 && Add(ToByte(i), PointY(p, j)) != 0
  {
    ToByteDistinct(i, p + j);
    AddCancel(ToByte(i), PointY(p, j));
  }

  lemma InvertsIsCauchy(c: Vector, k: nat, p: nat, i: nat, j: nat)
    requires ValidCode(k, p) && i < p && j < k && Inverts(c, k, p, i)
    ensures c[j] == Cauchy(p, i, j)
  {
    hide Mul, Inv, ToByte, PointY;
    PointsMeet(p, i, j);
    var d := Add(ToByte(i), PointY(p, j));
    assert Mul(c[j], d) == 1;
    MulComm(c[j], d);
    InvUnique(d, c[j]);
  }

  lemma InvertsIsRow(c: Vector, k: nat, p: nat, i: nat)
    requires ValidCode(k, p) && i < p && Inverts(c, k, p, i)
    ensures c == CauchyRow(k, p, i)
  {
    hide Inverts, Cauchy;
    InvertsSize(c, k, p, i);
    forall j: nat | j < k ensures c[j] == Cauchy(p, i, j) { InvertsIsCauchy(c, k, p, i, j); }
  }

  lemma InvertsSize(c: Vector, k: nat, p: nat, i: nat)
    requires ValidCode(k, p) && i < p && Inverts(c, k, p, i)
    ensures |c| == k
  {}

  lemma RowInverts(k: nat, p: nat, i: nat)
    requires ValidCode(k, p) && i < p
    ensures Inverts(CauchyRow(k, p, i), k, p, i)
  {
    hide Mul, Inv, ToByte, PointY;
    forall j: nat | j < k ensures Mul(CauchyRow(k, p, i)[j], (i as bv8) ^ ((p + j) as bv8)) == 1 {
      PointsMeet(p, i, j);
      MulComm(Inv(Add(ToByte(i), PointY(p, j))), Add(ToByte(i), PointY(p, j)));
    }
  }

  /** What the encoder emits, for all data. */
  lemma EncodingIsCoded(k: nat, p: nat, data: seq<Shard>)
    requires ValidCode(k, p) && Encodable(k, data)
    ensures Encoding(k, p, data).Some? && IsCoded(k, p, data, Encoding(k, p, data).value)
  {
    hide Inverts, Dot, CauchyRow, Combination;
    var len := |data[0]|;
    var r := AllShards(k, p, data, len);
    forall i: nat, b: nat, c: Vector | i < p && b < len && |c| == k && Inverts(c, k, p, i)
      ensures r[k + i][b] == Combination(c, Column(data, b), k)
    {
      InvertsIsRow(c, k, p, i);
      var v := Column(data, b);
      CombinationIsDot(c, v, k);
      assert c[..k] == c && v[..k] == v;
    }
  }

  /** Data shard j is one, the others are zero. */
  function UnitData(k: nat, j: nat): (r: seq<Shard>)
    ensures |r| == k
  {
    seq<Shard>(k, (m: nat) => [if m == j then 1 else 0])
  }

  /** The parity of unit data shows the coefficient: the inverse of i + (p + j). */
  lemma ParityOfUnit(k: nat, p: nat, i: nat, j: nat)
    requires ValidCode(k, p) && i < p && j < k
    ensures Encoding(k, p, UnitData(k, j)).Some? && |Encoding(k, p, UnitData(k, j)).value| == k + p
    ensures |Encoding(k, p, UnitData(k, j)).value[k + i]| == 1
    ensures Mul(Encoding(k, p, UnitData(k, j)).value[k + i][0], (i as bv8) ^ ((p + j) as bv8)) == 1
  {
    hide Mul, Dot, Cauchy;
    var data := UnitData(k, j);
    assert Encodable(k, data);
    var row, v := CauchyRow(k, p, i), Column(data, 0);
    DotSingle(row, v, j);
    MulOne(row[j]);
    RowInverts(k, p, i);
    assert AllShards(k, p, data, 1)[k + i] == ParityShard(k, p, i, data, 1);
  }

  // ---- Decoding ----

  type Survivor = (nat, Shard)

  function Chosen(survivors: seq<Survivor>, k: nat): (r: seq<nat>)
    requires k <= |survivors|
    ensures |r| == k
  {
    seq(k, r requires 0 <= r < k => survivors[r].0)
  }

  ghost predicate SameLength(survivors: seq<Survivor>)
  {
    forall i :: 0 <= i < |survivors| ==> |survivors[i].1| == |survivors[0].1|
  }

  /** The data shards whose coded shards are the first k survivors. */
  ghost predicate Explains(k: nat, p: nat, survivors: seq<Survivor>, data: seq<Shard>)
    requires 0 < k <= |survivors| && SameLength(survivors)
  {
    var len := |survivors[0].1|;
    && |data| == k && EqualSizes(data, len)
    && forall r, b :: 0 <= r < k && 0 <= b < len ==>
                        Dot(ShardRow(k, p, survivors[r].0), Column(data, b)) == survivors[r].1[b]
  }

  /** The decoder's answer: the unique data that explains the first k survivors, if their rows determine it. */
  ghost predicate Decodes(k: nat, p: nat, survivors: seq<Survivor>, result: Option<seq<Shard>>)
    requires ValidCode(k, p)
  {
    if |survivors| < k || !SameLength(survivors) || !Nonsingular(ShardMatrix(k, p, Chosen(survivors, k)))
    then result.None?
    else result.Some? && Explains(k, p, survivors, result.value)
  }

  lemma ColumnsDetermine(a: seq<Shard>, b: seq<Shard>, len: nat)
    requires |a| == |b| && EqualSizes(a, len) && EqualSizes(b, len)
    requires forall i :: 0 <= i < len ==> Column(a, i) == Column(b, i)
    ensures a == b
  {
    forall r | 0 <= r < |a|
      ensures a[r] == b[r]
    {
      forall i | 0 <= i < len
        ensures a[r][i] == b[r][i]
      {
        assert Column(a, i)[r] == Column(b, i)[r];
      }
    }
  }

  lemma DecodesUnique(k: nat, p: nat, survivors: seq<Survivor>, a: Option<seq<Shard>>, b: Option<seq<Shard>>)
    requires ValidCode(k, p)
    requires Decodes(k, p, survivors, a) && Decodes(k, p, survivors, b)
    ensures a == b
  {
    hide Add, Mul, Dot, ShardRow, Nonsingular;
    if a.Some? {
      var m := ShardMatrix(k, p, Chosen(survivors, k));
      var len := |survivors[0].1|;
      var inv := NonsingularHasInverse(m);
      forall i | 0 <= i < len
        ensures Column(a.value, i) == Column(b.value, i)
      {
        var x, y := Column(a.value, i), Column(b.value, i);
        assert Apply(m, x) == Apply(m, y);
        assert Apply(inv, Apply(m, x)) == x && Apply(inv, Apply(m, y)) == y;
      }
      ColumnsDetermine(a.value, b.value, len);
    }
  }

  /** A survivor that an encoding produced is consistent with the encoded data. */
  lemma ShardIsItsRow(k: nat, p: nat, data: seq<Shard>, len: nat, index: nat, b: nat)
    requires |data| == k && EqualSizes(data, len) && index < k + p && b < len
    ensures |AllShards(k, p, data, len)[index]| == len
    ensures AllShards(k, p, data, len)[index][b] == Dot(ShardRow(k, p, index), Column(data, b))
  {
    hide Add, Mul, Dot, CauchyRow;
    if index < k {
      DotSingle(Unit(k, index), Column(data, b), index);
      OneMul(data[index][b]);
    }
  }

  ghost predicate SurvivorsOf(shards: seq<Shard>, survivors: seq<Survivor>)
  {
    forall r :: 0 <= r < |survivors| ==> survivors[r].0 < |shards| && survivors[r].1 == shards[survivors[r].0]
  }

  /** Any k or more survivors with distinct indices give back exactly the data. */
  lemma RecoverFromAnyK(k: nat, p: nat, data: seq<Shard>, survivors: seq<Survivor>, result: Option<seq<Shard>>)
    requires ValidCode(k, p)
    requires Encoding(k, p, data).Some?
    requires SurvivorsOf(Encoding(k, p, data).value, survivors)
    requires |survivors| >= k && Distinct(Chosen(survivors, k))
    requires Decodes(k, p, survivors, result)
    ensures result == Some(data)
  {
    hide Add, Mul, Dot, ShardRow, AllShards, Nonsingular;
    var len := |data[0]|;
    var shards := AllShards(k, p, data, len);
    forall r | 0 <= r < |survivors|
      ensures |survivors[r].1| == len
    {
      ShardIsItsRow(k, p, data, len, survivors[r].0, 0);
    }
    AnyKShardsSuffice(k, p, Chosen(survivors, k));
    forall r, b | 0 <= r < k && 0 <= b < len
      ensures Dot(ShardRow(k, p, survivors[r].0), Column(data, b)) == survivors[r].1[b]
    {
      ShardIsItsRow(k, p, data, len, survivors[r].0, b);
    }
    assert Explains(k, p, survivors, data);
    DecodesUnique(k, p, survivors, result, Some(data));
  }

  /** A shard index repeated among the first k survivors is refused. */
  lemma RepeatedIndexRefused(k: nat, p: nat, survivors: seq<Survivor>, result: Option<seq<Shard>>)
    requires ValidCode(k, p) && Decodes(k, p, survivors, result)
    requires |survivors| >= k && !Distinct(Chosen(survivors, k))
    ensures result.None?
  {
    hide Add, Mul, Dot, ShardRow, Nonsingular;
    var chosen := Chosen(survivors, k);
    var i, j :| 0 <= i < j < k && chosen[i] == chosen[j];
    RepeatedRowIsSingular(ShardMatrix(k, p, chosen), i, j);
  }

  // ---- The coder ----

  /** acc[b] ^= c * shard[b], in place. */
  method AddScaled(gf: Gf8, acc: array<bv8>, c: bv8, shard: Shard)
    requires gf.Valid() && acc.Length == |shard|
    modifies acc
    ensures forall b :: 0 <= b < |shard| ==> acc[b] == Add(old(acc[b]), Mul(c, shard[b]))
  {
    hide Mul;
    for b := 0 to |shard|
      invariant forall i :: 0 <= i < b ==> acc[i] == Add(old(acc[i]), Mul(c, shard[i]))
      invariant forall i :: b <= i < |shard| ==> acc[i] == old(acc[i])
    {
      acc[b] := acc[b] ^ gf.Product(c, shard[b]);
    }
  }

  /** acc holds the combination of the first n shards. */
  ghost predicate Partial(acc: seq<bv8>, row: Vector, shards: seq<Shard>, n: nat, len: nat)
    requires |row| == |shards| && n <= |row| && EqualSizes(shards, len) && |acc| == len
  {
    forall b :: 0 <= b < len ==> acc[b] == Dot(row[..n], Column(shards, b)[..n])
  }

  lemma DotGrow(u: Vector, v: Vector, n: nat)
    requires |u| == |v| && n < |u|
    ensures Dot(u[..n + 1], v[..n + 1]) == Add(Dot(u[..n], v[..n]), Mul(u[n], v[n]))
  {
    hide Add, Mul;
    assert u[..n + 1] == u[..n] + [u[n]] && v[..n + 1] == v[..n] + [v[n]];
    DotConcat(u[..n], [u[n]], v[..n], [v[n]]);
    DotSingle([u[n]], [v[n]], 0);
  }

  lemma PartialGrow(acc: seq<bv8>, next: seq<bv8>, row: Vector, shards: seq<Shard>, n: nat, len: nat)
    requires |row| == |shards| && n < |row| && EqualSizes(shards, len) && |acc| == len == |next|
    requires Partial(acc, row, shards, n, len)
    requires forall b :: 0 <= b < len ==> next[b] == Add(acc[b], Mul(row[n], shards[n][b]))
    ensures Partial(next, row, shards, n + 1, len)
  {
    hide Add, Mul, Dot;
    forall b | 0 <= b < len
      ensures next[b] == Dot(row[..n + 1], Column(shards, b)[..n + 1])
    {
      DotGrow(row, Column(shards, b), n);
    }
  }

  lemma PartialSkip(acc: seq<bv8>, row: Vector, shards: seq<Shard>, n: nat, len: nat)
    requires |row| == |shards| && n < |row| && EqualSizes(shards, len) && |acc| == len
    requires Partial(acc, row, shards, n, len) && row[n] == 0
    ensures Partial(acc, row, shards, n + 1, len)
  {
    hide Add, Mul, Dot;
    forall b | 0 <= b < len
      ensures acc[b] == Add(acc[b], Mul(row[n], shards[n][b]))
    {
      ZeroMul(shards[n][b]);
      AddZero(acc[b]);
    }
    PartialGrow(acc, acc, row, shards, n, len);
  }

  lemma PartialDone(acc: seq<bv8>, row: Vector, shards: seq<Shard>, len: nat)
    requires |row| == |shards| && EqualSizes(shards, len) && |acc| == len
    requires Partial(acc, row, shards, |row|, len)
    ensures forall b :: 0 <= b < len ==> acc[b] == Dot(row, Column(shards, b))
  {
    hide Dot;
    forall b | 0 <= b < len
      ensures acc[b] == Dot(row, Column(shards, b))
    {
      assert row[..|row|] == row && Column(shards, b)[..|row|] == Column(shards, b);
    }
  }

  datatype CauchyMds = CauchyMds(k: nat, p: nat, gf: Gf8)
  {
    ghost predicate Valid()
    {
      ValidCode(k, p) && gf.Valid()
    }

    function Element(i: nat, j: nat): (r: Option<bv8>)
      requires Valid()
      ensures r.Some? <==> ToByte(i) != PointY(p, j)
      ensures r.Some? ==> r.value == Cauchy(p, i, j)
      ensures r.None? ==> Cauchy(p, i, j) == 0
    {
      AddCancel(ToByte(i), PointY(p, j));
      gf.Inverse(ToByte(i) ^ PointY(p, j))
    }

    /** One parity shard, summed up data shard by data shard. */
    method Parity(i: nat, data: seq<Shard>, len: nat) returns (r: Option<Shard>)
      requires Valid() && i < p
      requires |data| == k && EqualSizes(data, len)
      ensures r == Some(ParityShard(k, p, i, data, len))
    {
      hide Add, Mul, Dot, Cauchy, ToByte;
      var acc := new bv8[len](_ => 0);
      ghost var row := CauchyRow(k, p, i);
      assert Partial(acc[..], row, data, 0, len) by { EmptyDot(); }
      for j := 0 to k
        invariant Partial(acc[..], row, data, j, len)
      {
        ToByteDistinct(i, p + j);
        var c := Element(i, j);
        if c.None? {
          return None;
        }
        ghost var before := acc[..];
        if c.value != 0 {
          AddScaled(gf, acc, c.value, data[j]);
          PartialGrow(before, acc[..], row, data, j, len);
        } else {
          PartialSkip(before, row, data, j, len);
        }
      }
      PartialDone(acc[..], row, data, len);
      assert acc[..] == ParityShard(k, p, i, data, len);
      return Some(acc[..]);
    }

    method Encode(data: seq<Shard>) returns (r: Option<seq<Shard>>)
      requires Valid()
      ensures r == Encoding(k, p, data)
      ensures r.Some? <==> Encodable(k, data)
      ensures r.Some? ==> IsCoded(k, p, data, r.value)
    {
      hide Dot, CauchyRow;
      if |data| != k {
        return None;
      }
      var len := |data[0]|;
      if len == 0 || len > MAX_SHARD_BYTES {
        return None;
      }
      for i := 0 to k
        invariant forall j :: 0 <= j < i ==> |data[j]| == len
      {
        if |data[i]| != len {
          return None;
        }
      }
      var out := data;
      for i := 0 to p
        invariant |out| == k + i
        invariant out[..k] == data
        invariant forall j :: 0 <= j < i ==> out[k + j] == ParityShard(k, p, j, data, len)
      {
        var parity := Parity(i, data, len);
        out := out + [parity.value];
      }
      assert out == AllShards(k, p, data, len);
      hide IsCoded;
      EncodingIsCoded(k, p, data);
      return Some(out);
    }

    /** The coefficient matrix of the first k survivors, entry by entry. */
    method Coefficients(chosen: seq<nat>) returns (a: Matrix)
      requires Valid() && |chosen| == k
      ensures a == ShardMatrix(k, p, chosen)
    {
      hide Cauchy, ToByte;
      a := [];
      for r := 0 to k
        invariant |a| == r
        invariant forall i :: 0 <= i < r ==> a[i] == ShardRow(k, p, chosen[i])
      {
        var row: Vector := [];
        var si := chosen[r];
        for c := 0 to k
          invariant |row| == c
          invariant forall j :: 0 <= j < c ==> row[j] == ShardRow(k, p, si)[j]
        {
          var e := if si < k then None else Element(si - k, c);
          row := row + [if si < k then (if si == c then 1 else 0) else if e.Some? then e.value else 0];
        }
        assert row == ShardRow(k, p, si);
        a := a + [row];
      }
    }

    method Combine(row: Vector, shards: seq<Shard>, len: nat) returns (out: Shard)
      requires Valid() && |row| == |shards| == k && EqualSizes(shards, len)
      ensures |out| == len
      ensures forall b :: 0 <= b < len ==> out[b] == Dot(row, Column(shards, b))
    {
      hide Add, Mul, Dot;
      var acc := new bv8[len](_ => 0);
      assert Partial(acc[..], row, shards, 0, len) by { EmptyDot(); }
      for r := 0 to k
        invariant Partial(acc[..], row, shards, r, len)
      {
        ghost var before := acc[..];
        if row[r] != 0 {
          AddScaled(gf, acc, row[r], shards[r]);
          PartialGrow(before, acc[..], row, shards, r, len);
        } else {
          PartialSkip(before, row, shards, r, len);
        }
      }
      PartialDone(acc[..], row, shards, len);
      out := acc[..];
    }

    /** data[c] is row c of the inverse applied to the surviving shards. */
    method Rebuild(inv: Matrix, shards: seq<Shard>, len: nat) returns (data: seq<Shard>)
      requires Valid() && IsMatrix(inv, k, k) && |shards| == k && EqualSizes(shards, len)
      ensures |data| == k && EqualSizes(data, len)
      ensures forall i, b :: 0 <= i < k && 0 <= b < len ==> data[i][b] == Dot(inv[i], Column(shards, b))
    {
      hide Dot;
      data := [];
      for c := 0 to k
        invariant |data| == c && EqualSizes(data, len)
        invariant forall i, b :: 0 <= i < c && 0 <= b < len ==> data[i][b] == Dot(inv[i], Column(shards, b))
      {
        var shard := Combine(inv[c], shards, len);
        data := data + [shard];
      }
    }

    method Decode(survivors: seq<Survivor>) returns (result: Option<seq<Shard>>)
      requires Valid()
      ensures Decodes(k, p, survivors, result)
    {
      hide Add, Mul, Dot, ShardRow, Nonsingular, Inverse, Column;
      if |survivors| < k {
        return None;
      }
      var len := |survivors[0].1|;
      for i := 0 to |survivors|
        invariant forall j :: 0 <= j < i ==> |survivors[j].1| == len
      {
        if |survivors[i].1| != len {
          return None;
        }
      }
      var shards := seq(k, r requires 0 <= r < k => survivors[r].1);
      var a := Coefficients(Chosen(survivors, k));
      var inv := InvertMatrix(gf, a);
      if inv.None? {
        return None;
      }
      var data := Rebuild(inv.value, shards, len);
      InverseExplains(a, inv.value, shards, data, len);
      forall r, b | 0 <= r < k && 0 <= b < len
        ensures Dot(ShardRow(k, p, survivors[r].0), Column(data, b)) == survivors[r].1[b]
      {
        assert a[r] == ShardRow(k, p, survivors[r].0);
        assert Dot(a[r], Column(data, b)) == shards[r][b];
      }
      return Some(data);
    }
  }

  lemma EmptyDot()
    ensures Dot([], []) == 0
  {}

  lemma InverseExplains(a: Matrix, inv: Matrix, shards: seq<Shard>, data: seq<Shard>, len: nat)
    requires IsMatrix(a, |a|, |a|) && IsMatrix(inv, |a|, |a|) && Inverse(inv, a)
    requires |shards| == |data| == |a| && EqualSizes(shards, len) && EqualSizes(data, len)
    requires forall i, b :: 0 <= i < |a| && 0 <= b < len ==> data[i][b] == Dot(inv[i], Column(shards, b))
    ensures forall r, b :: 0 <= r < |a| && 0 <= b < len ==> Dot(a[r], Column(data, b)) == shards[r][b]
  {
    hide Dot, Inverse;
    forall r, b | 0 <= r < |a| && 0 <= b < len
      ensures Dot(a[r], Column(data, b)) == shards[r][b]
    {
      var s := Column(shards, b);
      assert Column(data, b) == Apply(inv, s);
      Undoes(inv, a, s);
      assert Apply(a, Column(data, b))[r] == s[r];
    }
  }

  method New(k: nat, p: nat) returns (r: Option<CauchyMds>)
    ensures r.Some? <==> ValidCode(k, p)
    ensures r.Some? ==> r.value.Valid() && r.value.k == k && r.value.p == p
  {
    if k == 0 || p == 0 || k + p >= MAX_SHARDS {
      return None;
    }
    var gf := Build();
    return Some(CauchyMds(k, p, gf));
  }
}
