/**
 Vectors and linear systems over GF(2^8).

 A matrix is a sequence of rows. The row operations of Gauss-Jordan elimination are described
 by what they preserve: the vectors that every row annihilates.
 */
module Linear {
  import opened Gf256

  type Vector = seq<bv8>
  type Matrix = seq<seq<bv8>>

  function Dot(u: Vector, v: Vector): bv8
    requires |u| == |v|
  {
    if |u| == 0 then 0 else Add(Mul(u[0], v[0]), Dot(u[1..], v[1..]))
  }

  function Scale(c: bv8, u: Vector): (r: Vector)
    ensures |r| == |u|
  {
    seq(|u|, i requires 0 <= i < |u| => Mul(u[i], c))
  }

  function Plus(u: Vector, v: Vector): (r: Vector)
    requires |u| == |v|
    ensures |r| == |u|
  {
    seq(|u|, i requires 0 <= i < |u| => Add(u[i], v[i]))
  }

  function Zeros(n: nat): (r: Vector)
    ensures |r| == n
  {
    seq(n, _ => 0)
  }

  function Unit(n: nat, k: nat): (r: Vector)
    ensures |r| == n
  {
    seq(n, i => if i == k then 1 else 0)
  }

  predicate IsMatrix(m: Matrix, rows: nat, cols: nat)
  {
    |m| == rows && forall i :: 0 <= i < rows ==> |m[i]| == cols
  }

  function Apply(m: Matrix, v: Vector): (r: Vector)
    requires IsMatrix(m, |m|, |v|)
    ensures |r| == |m|
  {
    seq(|m|, i requires 0 <= i < |m| => Dot(m[i], v))
  }

  // ---- Bilinearity ----

  lemma {:induction false} DotPlus(u: Vector, v: Vector, w: Vector)
    requires |u| == |v| == |w|
    ensures Dot(Plus(u, v), w) == Add(Dot(u, w), Dot(v, w))
  {
    hide Add, Mul;
    if |u| == 0 {
      AddZero(0);
    } else {
      assert Plus(u, v)[1..] == Plus(u[1..], v[1..]);
      DotPlus(u[1..], v[1..], w[1..]);
      MulLinearLeft(u[0], v[0], w[0]);
      AddSwap(Mul(u[0], w[0]), Mul(v[0], w[0]), Dot(u[1..], w[1..]), Dot(v[1..], w[1..]));
    }
  }

  lemma {:induction false} DotScale(c: bv8, u: Vector, v: Vector)
    requires |u| == |v|
    ensures Dot(Scale(c, u), v) == Mul(c, Dot(u, v))
  {
    hide Add, Mul;
    if |u| == 0 {
      MulOne(c);
    } else {
      assert Scale(c, u)[1..] == Scale(c, u[1..]);
      DotScale(c, u[1..], v[1..]);
      MulComm(u[0], c);
      MulAssoc(c, u[0], v[0]);
      MulLinearRight(c, Mul(u[0], v[0]), Dot(u[1..], v[1..]));
    }
  }

  lemma {:induction false} DotConcat(u: Vector, v: Vector, x: Vector, y: Vector)
    requires |u| == |x| && |v| == |y|
    ensures Dot(u + v, x + y) == Add(Dot(u, x), Dot(v, y))
  {
    hide Add, Mul;
    if |u| == 0 {
      assert u + v == v && x + y == y;
      AddZero(Dot(v, y));
    } else {
      assert (u + v)[1..] == u[1..] + v && (x + y)[1..] == x[1..] + y;
      DotConcat(u[1..], v, x[1..], y);
      AddAssoc(Mul(u[0], x[0]), Dot(u[1..], x[1..]), Dot(v, y));
    }
  }

  lemma {:induction false} DotZeros(u: Vector, v: Vector)
    requires |u| == |v|
    requires forall i :: 0 <= i < |u| ==> u[i] == 0 || v[i] == 0
    ensures Dot(u, v) == 0
  {
    hide Add, Mul;
    if |u| > 0 {
      DotZeros(u[1..], v[1..]);
      MulNonzero(u[0], v[0]);
      AddZero(0);
    }
  }

  /** A vector that is zero apart from one place. */
  lemma {:induction false} DotSingle(u: Vector, v: Vector, k: nat)
    requires k < |u| == |v|
    requires forall i :: 0 <= i < |u| && i != k ==> u[i] == 0 || v[i] == 0
    ensures Dot(u, v) == Mul(u[k], v[k])
  {
    hide Add, Mul;
    if k == 0 {
      DotZeros(u[1..], v[1..]);
      AddZero(Mul(u[0], v[0]));
    } else {
      DotSingle(u[1..], v[1..], k - 1);
      MulNonzero(u[0], v[0]);
      AddZero(Mul(u[k], v[k]));
    }
  }

  /** A vector that is zero apart from two places. */
  lemma DotTwo(u: Vector, v: Vector, j: nat, k: nat)
    requires j < k < |u| == |v|
    requires forall i :: 0 <= i < |u| && i != j && i != k ==> u[i] == 0 || v[i] == 0
    ensures Dot(u, v) == Add(Mul(u[j], v[j]), Mul(u[k], v[k]))
  {
    hide Add, Mul;
    assert u == u[..k] + u[k..] && v == v[..k] + v[k..];
    DotConcat(u[..k], u[k..], v[..k], v[k..]);
    DotSingle(u[..k], v[..k], j);
    DotSingle(u[k..], v[k..], 0);
  }

  // ---- Linear systems ----

  /** w is annihilated by every row of a. */
  ghost predicate Kills(a: Matrix, w: Vector)
    requires IsMatrix(a, |a|, |w|)
  {
    forall i :: 0 <= i < |a| ==> Dot(a[i], w) == 0
  }

  ghost predicate SameSolutions(a: Matrix, b: Matrix, n: nat)
    requires IsMatrix(a, |a|, n) && IsMatrix(b, |b|, n)
  {
    forall w: Vector :: |w| == n ==> (Kills(a, w) <==> Kills(b, w))
  }

  ghost predicate Nonsingular(m: Matrix)
    requires IsMatrix(m, |m|, |m|)
  {
    forall v: Vector :: |v| == |m| && Kills(m, v) ==> v == Zeros(|m|)
  }

  /** inv undoes m on both sides. */
  ghost predicate Inverse(inv: Matrix, m: Matrix)
    requires IsMatrix(m, |m|, |m|) && IsMatrix(inv, |m|, |m|)
  {
    forall v: Vector :: |v| == |m| ==> Apply(inv, Apply(m, v)) == v && Apply(m, Apply(inv, v)) == v
  }

  lemma Undoes(inv: Matrix, m: Matrix, v: Vector)
    requires IsMatrix(m, |m|, |m|) && IsMatrix(inv, |m|, |m|) && Inverse(inv, m) && |v| == |m|
    ensures Apply(inv, Apply(m, v)) == v && Apply(m, Apply(inv, v)) == v
  {
    hide Apply;
  }

  lemma SwapRows(a: Matrix, n: nat, i: nat, j: nat)
    requires IsMatrix(a, |a|, n) && i < |a| && j < |a|
    ensures SameSolutions(a, a[i := a[j]][j := a[i]], n)
  {
    var b := a[i := a[j]][j := a[i]];
    forall w: Vector | |w| == n
      ensures Kills(a, w) <==> Kills(b, w)
    {
      if Kills(b, w) {
        assert Dot(b[i], w) == 0 && Dot(b[j], w) == 0;
        forall r | 0 <= r < |a|
          ensures Dot(a[r], w) == 0
        {
          assert Dot(b[r], w) == 0;
        }
      }
    }
  }

  lemma ScaleRow(a: Matrix, n: nat, i: nat, c: bv8)
    requires IsMatrix(a, |a|, n) && i < |a| && c != 0
    ensures SameSolutions(a, a[i := Scale(c, a[i])], n)
  {
    hide Add, Mul, Dot, Scale;
    var b := a[i := Scale(c, a[i])];
    forall w: Vector | |w| == n
      ensures Kills(a, w) <==> Kills(b, w)
    {
      DotScale(c, a[i], w);
      MulNonzero(c, Dot(a[i], w));
      if Kills(b, w) {
        assert Dot(b[i], w) == 0;
        forall r | 0 <= r < |a|
          ensures Dot(a[r], w) == 0
        {
          assert Dot(b[r], w) == 0;
        }
      }
    }
  }

  lemma AddRow(a: Matrix, n: nat, r: nat, f: bv8, p: nat)
    requires IsMatrix(a, |a|, n) && r < |a| && p < |a| && r != p
    ensures SameSolutions(a, a[r := Plus(a[r], Scale(f, a[p]))], n)
  {
    hide Add, Mul, Dot, Scale, Plus;
    var b := a[r := Plus(a[r], Scale(f, a[p]))];
    forall w: Vector | |w| == n
      ensures Kills(a, w) <==> Kills(b, w)
    {
      DotPlus(a[r], Scale(f, a[p]), w);
      DotScale(f, a[p], w);
      MulOne(f);
      AddZero(Dot(a[r], w));
      if Kills(b, w) {
        assert Dot(b[p], w) == 0 && Dot(b[r], w) == 0;
        forall i | 0 <= i < |a|
          ensures Dot(a[i], w) == 0
        {
          assert Dot(b[i], w) == 0;
        }
      }
    }
  }
}
