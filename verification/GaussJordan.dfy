/** Inversion of a square matrix over GF(2^8) by Gauss-Jordan elimination of [m | I]. */
module GaussJordan {
  import opened Options
  import opened Gf256
  import opened Linear

  /** The augmented matrix elimination starts from. */
  function Augment(m: Matrix): (r: Matrix)
    requires IsMatrix(m, |m|, |m|)
    ensures IsMatrix(r, |m|, 2 * |m|)
  {
    seq(|m|, i requires 0 <= i < |m| => m[i] + Unit(|m|, i))
  }

  /** The first `done` columns are those of the identity. */
  ghost predicate Reduced(a: Matrix, n: nat, done: nat)
    requires IsMatrix(a, n, 2 * n) && done <= n
  {
    forall i, c :: 0 <= i < n && 0 <= c < done ==> a[i][c] == if i == c then 1 else 0
  }

  // ---- What the finished and the failed elimination mean ----

  lemma AugmentKills(m: Matrix, x: Vector, y: Vector)
    requires IsMatrix(m, |m|, |m|) && |x| == |y| == |m|
    ensures Kills(Augment(m), x + y) <==> y == Apply(m, x)
  {
    hide Add, Mul, Dot;
    var a := Augment(m);
    forall i | 0 <= i < |m|
      ensures Dot(a[i], x + y) == Add(Dot(m[i], x), y[i])
    {
      DotConcat(m[i], Unit(|m|, i), x, y);
      DotSingle(Unit(|m|, i), y, i);
      OneMul(y[i]);
    }
    forall i | 0 <= i < |m|
      ensures Dot(a[i], x + y) == 0 <==> y[i] == Apply(m, x)[i]
    {
      AddCancel(Dot(m[i], x), y[i]);
    }
  }

  /** The right half of a matrix whose left half is the identity inverts m. */
  lemma FinishedInverts(m: Matrix, a: Matrix, inv: Matrix)
    requires IsMatrix(m, |m|, |m|) && IsMatrix(a, |m|, 2 * |m|) && IsMatrix(inv, |m|, |m|)
    requires Reduced(a, |m|, |m|)
    requires SameSolutions(Augment(m), a, 2 * |m|)
    requires forall i :: 0 <= i < |m| ==> inv[i] == a[i][|m|..]
    ensures Inverse(inv, m)
  {
    hide Dot, Augment, Reduced;
    forall v: Vector | |v| == |m|
      ensures Apply(inv, Apply(m, v)) == v && Apply(m, Apply(inv, v)) == v
    {
      hide Apply;
      FinishedPair(m, a, inv, v, Apply(m, v));
      FinishedPair(m, a, inv, Apply(inv, v), v);
    }
  }

  lemma FinishedPair(m: Matrix, a: Matrix, inv: Matrix, x: Vector, y: Vector)
    requires IsMatrix(m, |m|, |m|) && IsMatrix(a, |m|, 2 * |m|) && IsMatrix(inv, |m|, |m|)
    requires Reduced(a, |m|, |m|)
    requires SameSolutions(Augment(m), a, 2 * |m|)
    requires forall i :: 0 <= i < |m| ==> inv[i] == a[i][|m|..]
    requires |x| == |y| == |m|
    ensures y == Apply(m, x) <==> x == Apply(inv, y)
  {
    hide Dot, Augment, Apply, Kills, Reduced;
    AugmentKills(m, x, y);
    FinishedKills(|m|, a, inv, x, y);
    assert Kills(Augment(m), x + y) <==> Kills(a, x + y);
  }

  lemma FinishedKills(n: nat, a: Matrix, inv: Matrix, x: Vector, y: Vector)
    requires IsMatrix(a, n, 2 * n) && IsMatrix(inv, n, n) && |x| == |y| == n
    requires Reduced(a, n, n)
    requires forall i :: 0 <= i < n ==> inv[i] == a[i][n..]
    ensures Kills(a, x + y) <==> x == Apply(inv, y)
  {
    hide Add, Mul, Dot;
    forall i | 0 <= i < n
      ensures Dot(a[i], x + y) == 0 <==> x[i] == Apply(inv, y)[i]
    {
      assert a[i] == a[i][..n] + inv[i];
      DotConcat(a[i][..n], inv[i], x, y);
      DotSingle(a[i][..n], x, i);
      OneMul(x[i]);
      AddCancel(x[i], Dot(inv[i], y));
    }
  }

  /** A column without a pivot gives a nonzero vector that m annihilates. */
  lemma StuckIsSingular(m: Matrix, a: Matrix, col: nat)
    requires IsMatrix(m, |m|, |m|) && IsMatrix(a, |m|, 2 * |m|)
    requires col < |m| && Reduced(a, |m|, col)
    requires SameSolutions(Augment(m), a, 2 * |m|)
    requires forall r :: col <= r < |m| ==> a[r][col] == 0
    ensures !Nonsingular(m)
  {
    hide Add, Mul, Dot, Augment;
    var n := |m|;
    var v := seq(n, i requires 0 <= i < n => if i < col then a[i][col] else if i == col then 1 else 0);
    var w := v + Zeros(n);
    forall i | 0 <= i < n
      ensures Dot(a[i], w) == 0
    {
      MulOne(a[i][col]);
      if i < col {
        DotTwo(a[i], w, i, col);
        OneMul(a[i][col]);
        AddZero(a[i][col]);
      } else {
        DotSingle(a[i], w, col);
        MulNonzero(a[i][col], 1);
      }
    }
    AugmentKills(m, v, Zeros(n));
    assert Kills(a, w);
    assert Apply(m, v) == Zeros(n);
    forall i | 0 <= i < n
      ensures Dot(m[i], v) == 0
    {
      assert Apply(m, v)[i] == 0;
    }
    assert v[col] != Zeros(n)[col];
  }

  lemma InverseIsNonsingular(m: Matrix, inv: Matrix)
    requires IsMatrix(m, |m|, |m|) && IsMatrix(inv, |m|, |m|)
    requires Inverse(inv, m)
    ensures Nonsingular(m)
  {
    hide Dot, Inverse;
    var z := Zeros(|m|);
    ZeroKilled(m);
    forall v: Vector | |v| == |m| && Kills(m, v)
      ensures v == z
    {
      KilledIsZero(m, v);
      KilledIsZero(m, z);
      Undoes(inv, m, v);
      Undoes(inv, m, z);
    }
  }

  lemma ZeroKilled(m: Matrix)
    requires IsMatrix(m, |m|, |m|)
    ensures Kills(m, Zeros(|m|))
  {
    hide Dot;
    forall i | 0 <= i < |m| ensures Dot(m[i], Zeros(|m|)) == 0 { DotZeros(m[i], Zeros(|m|)); }
  }

  lemma KilledIsZero(m: Matrix, v: Vector)
    requires IsMatrix(m, |m|, |m|) && |v| == |m| && Kills(m, v)
    ensures Apply(m, v) == Zeros(|m|)
  {
    hide Dot;
  }

  // ---- The elimination ----

  method ScaledRow(gf: Gf8, row: Vector, c: bv8) returns (out: Vector)
    requires gf.Valid()
    ensures out == Scale(c, row)
  {
    hide Add, Mul;
    out := [];
    for j := 0 to |row|
      invariant |out| == j
      invariant forall i :: 0 <= i < j ==> out[i] == Mul(row[i], c)
    {
      out := out + [gf.Product(row[j], c)];
    }
  }

  method AddedRow(gf: Gf8, row: Vector, f: bv8, pivot: Vector) returns (out: Vector)
    requires gf.Valid() && |row| == |pivot|
    ensures out == Plus(row, Scale(f, pivot))
  {
    hide Mul;
    out := [];
    for j := 0 to |row|
      invariant |out| == j
      invariant forall i :: 0 <= i < j ==> out[i] == Add(row[i], Mul(pivot[i], f))
    {
      MulComm(f, pivot[j]);
      out := out + [row[j] ^ gf.Product(f, pivot[j])];
    }
  }

  lemma ReducedSwap(a: Matrix, n: nat, col: nat, p: nat)
    requires IsMatrix(a, n, 2 * n) && col <= p < n && Reduced(a, n, col)
    ensures Reduced(a[col := a[p]][p := a[col]], n, col)
  {}

  lemma ReducedScale(a: Matrix, n: nat, col: nat, c: bv8)
    requires IsMatrix(a, n, 2 * n) && col < n && Reduced(a, n, col)
    ensures Reduced(a[col := Scale(c, a[col])], n, col)
  {
    hide Mul;
    ZeroMul(c);
  }

  /** Rows below `done` are clear of column `col`, except the pivot row. */
  ghost predicate Cleared(a: Matrix, n: nat, col: nat, done: nat)
    requires IsMatrix(a, n, 2 * n) && col < n && done <= n
  {
    a[col][col] == 1 && forall i :: 0 <= i < done && i != col ==> a[i][col] == 0
  }

  lemma ClearStep(a: Matrix, n: nat, col: nat, r: nat)
    requires IsMatrix(a, n, 2 * n) && col < n && r < n && r != col
    requires Reduced(a, n, col) && Cleared(a, n, col, r)
    ensures var b := a[r := Plus(a[r], Scale(a[r][col], a[col]))];
            Reduced(b, n, col) && Cleared(b, n, col, r + 1)
  {
    hide Add, Mul;
    var f := a[r][col];
    OneMul(f);
    AddZero(f);
    ZeroMul(f);
    forall c | 0 <= c < col
      ensures Add(a[r][c], Mul(a[col][c], f)) == a[r][c]
    {
      AddZero(a[r][c]);
    }
  }

  /** Halfway through a column: the solutions are kept, and the rows below `done` are clear. */
  ghost predicate Clearing(start: Matrix, a: Matrix, n: nat, col: nat, done: nat)
  {
    && IsMatrix(start, n, 2 * n) && IsMatrix(a, n, 2 * n) && col < n && done <= n
    && Reduced(a, n, col) && Cleared(a, n, col, done) && SameSolutions(start, a, 2 * n)
  }

  lemma ClearingStarts(start: Matrix, n: nat, col: nat)
    requires IsMatrix(start, n, 2 * n) && col < n && Reduced(start, n, col) && start[col][col] == 1
    ensures Clearing(start, start, n, col, 0)
  {
    hide Kills, Reduced;
  }

  lemma SameThrough(a: Matrix, b: Matrix, c: Matrix, n: nat)
    requires IsMatrix(a, |a|, n) && IsMatrix(b, |b|, n) && IsMatrix(c, |c|, n)
    requires SameSolutions(a, b, n) && SameSolutions(b, c, n)
    ensures SameSolutions(a, c, n)
  {
    hide Kills;
  }

  lemma ClearNext(start: Matrix, a: Matrix, n: nat, col: nat, r: nat)
    requires Clearing(start, a, n, col, r) && r < n && r != col
    ensures Clearing(start, a[r := Plus(a[r], Scale(a[r][col], a[col]))], n, col, r + 1)
  {
    hide Plus, Scale, Reduced, Cleared, SameSolutions;
    ClearStep(a, n, col, r);
    AddRow(a, 2 * n, r, a[r][col], col);
    SameThrough(start, a, a[r := Plus(a[r], Scale(a[r][col], a[col]))], 2 * n);
  }

  lemma ClearAlready(start: Matrix, a: Matrix, n: nat, col: nat, r: nat)
    requires Clearing(start, a, n, col, r) && r < n && (r == col || a[r][col] == 0)
    ensures Clearing(start, a, n, col, r + 1)
  {
    hide SameSolutions, Reduced;
  }

  lemma ClearingEnds(start: Matrix, a: Matrix, n: nat, col: nat)
    requires Clearing(start, a, n, col, n)
    ensures IsMatrix(a, n, 2 * n) && Reduced(a, n, col + 1) && SameSolutions(start, a, 2 * n)
  {
    hide SameSolutions;
  }

  /** Clear column col from every row but the pivot row. */
  method ClearColumn(gf: Gf8, start: Matrix, n: nat, col: nat) returns (a: Matrix)
    requires gf.Valid()
    requires IsMatrix(start, n, 2 * n) && col < n
    requires Reduced(start, n, col) && start[col][col] == 1
    ensures IsMatrix(a, n, 2 * n)
    ensures Reduced(a, n, col + 1)
    ensures SameSolutions(start, a, 2 * n)
  {
    hide Plus, Scale, Reduced, SameSolutions, Dot;
    a := start;
    ClearingStarts(start, n, col);
    for r := 0 to n
      invariant Clearing(start, a, n, col, r)
    {
      if r != col && a[r][col] != 0 {
        var row := AddedRow(gf, a[r], a[r][col], a[col]);
        ClearNext(start, a, n, col, r);
        a := a[r := row];
      } else {
        ClearAlready(start, a, n, col, r);
      }
    }
    ClearingEnds(start, a, n, col);
  }

  method FindPivot(a: Matrix, n: nat, col: nat) returns (pivot: Option<nat>)
    requires IsMatrix(a, n, 2 * n) && col < n
    ensures pivot.Some? ==> col <= pivot.value < n && a[pivot.value][col] != 0
    ensures pivot.None? ==> forall r :: col <= r < n ==> a[r][col] == 0
  {
    for r := col to n
      invariant forall i :: col <= i < r ==> a[i][col] == 0
    {
      if a[r][col] != 0 {
        return Some(r);
      }
    }
    return None;
  }

  /** Bring a nonzero pivot to row col and scale it to one; None when the column has none. */
  method NormalizePivot(gf: Gf8, start: Matrix, n: nat, col: nat) returns (r: Option<Matrix>)
    requires gf.Valid()
    requires IsMatrix(start, n, 2 * n) && col < n && Reduced(start, n, col)
    ensures r.None? ==> forall i :: col <= i < n ==> start[i][col] == 0
    ensures r.Some? ==>
              && IsMatrix(r.value, n, 2 * n)
              && Reduced(r.value, n, col)
              && r.value[col][col] == 1
              && SameSolutions(start, r.value, 2 * n)
  {
    hide Add, Mul, Dot;
    var pivot := FindPivot(start, n, col);
    if pivot.None? {
      return None;
    }
    var p := pivot.value;
    var a := start[col := start[p]][p := start[col]];
    ReducedSwap(start, n, col, p);
    SwapRows(start, 2 * n, col, p);
    var c := gf.Inverse(a[col][col]);
    if c.None? {
      return None;
    }
    MulNonzero(a[col][col], c.value);
    var row := ScaledRow(gf, a[col], c.value);
    ReducedScale(a, n, col, c.value);
    ScaleRow(a, 2 * n, col, c.value);
    return Some(a[col := row]);
  }

  method InvertMatrix(gf: Gf8, m: Matrix) returns (r: Option<Matrix>)
    requires gf.Valid()
    requires IsMatrix(m, |m|, |m|)
    ensures r.Some? <==> Nonsingular(m)
    ensures r.Some? ==> IsMatrix(r.value, |m|, |m|) && Inverse(r.value, m)
  {
    hide Add, Mul, Dot, Nonsingular;
    var n := |m|;
    var a := Augment(m);
    for col := 0 to n
      invariant IsMatrix(a, n, 2 * n)
      invariant Reduced(a, n, col)
      invariant SameSolutions(Augment(m), a, 2 * n)
    {
      var b := NormalizePivot(gf, a, n, col);
      if b.None? {
        StuckIsSingular(m, a, col);
        return None;
      }
      a := ClearColumn(gf, b.value, n, col);
    }
    var inv := seq(n, i requires 0 <= i < n => a[i][n..]);
    FinishedInverts(m, a, inv);
    InverseIsNonsingular(m, inv);
    return Some(inv);
  }

  // ---- Nonsingular matrices are the invertible ones ----

  /** The elimination carried out on a nonsingular matrix, one row at a time. */
  lemma ClearRows(start: Matrix, n: nat, col: nat) returns (a: Matrix)
    requires IsMatrix(start, n, 2 * n) && col < n
    requires Reduced(start, n, col) && start[col][col] == 1
    ensures IsMatrix(a, n, 2 * n)
    ensures Reduced(a, n, col + 1)
    ensures SameSolutions(start, a, 2 * n)
  {
    hide Plus, Scale, Reduced, SameSolutions, Dot;
    a := start;
    ClearingStarts(start, n, col);
    for r := 0 to n
      invariant Clearing(start, a, n, col, r)
    {
      if r == col {
        ClearAlready(start, a, n, col, r);
      } else {
        ClearNext(start, a, n, col, r);
        a := a[r := Plus(a[r], Scale(a[r][col], a[col]))];
      }
    }
    ClearingEnds(start, a, n, col);
  }

  lemma PivotRow(start: Matrix, n: nat, col: nat, p: nat) returns (a: Matrix)
    requires IsMatrix(start, n, 2 * n) && col <= p < n
    requires Reduced(start, n, col) && start[p][col] != 0
    ensures IsMatrix(a, n, 2 * n)
    ensures Reduced(a, n, col) && a[col][col] == 1
    ensures SameSolutions(start, a, 2 * n)
  {
    hide Add, Mul, Dot, Inv;
    var b := start[col := start[p]][p := start[col]];
    var c := Inv(b[col][col]);
    ReducedSwap(start, n, col, p);
    SwapRows(start, 2 * n, col, p);
    MulNonzero(b[col][col], c);
    ReducedScale(b, n, col, c);
    ScaleRow(b, 2 * n, col, c);
    a := b[col := Scale(c, b[col])];
  }

  lemma NonsingularHasInverse(m: Matrix) returns (inv: Matrix)
    requires IsMatrix(m, |m|, |m|) && Nonsingular(m)
    ensures IsMatrix(inv, |m|, |m|) && Inverse(inv, m)
  {
    hide Add, Mul, Dot, Nonsingular;
    var n := |m|;
    var a := Augment(m);
    for col := 0 to n
      invariant IsMatrix(a, n, 2 * n)
      invariant Reduced(a, n, col)
      invariant SameSolutions(Augment(m), a, 2 * n)
    {
      if forall r :: col <= r < n ==> a[r][col] == 0 {
        StuckIsSingular(m, a, col);
      }
      var p: nat :| col <= p < n && a[p][col] != 0;
      var b := PivotRow(a, n, col, p);
      a := ClearRows(b, n, col);
    }
    inv := seq(n, i requires 0 <= i < n => a[i][n..]);
    FinishedInverts(m, a, inv);
  }

  lemma InverseSeparatesRows(m: Matrix, inv: Matrix, i: nat, j: nat)
    requires IsMatrix(m, |m|, |m|) && IsMatrix(inv, |m|, |m|) && Inverse(inv, m)
    requires i < j < |m|
    ensures m[i] != m[j]
  {
    hide Dot, Inverse;
    var x := Apply(inv, Unit(|m|, i));
    Undoes(inv, m, Unit(|m|, i));
    assert Dot(m[i], x) == Apply(m, x)[i] && Dot(m[j], x) == Apply(m, x)[j];
  }

  /** A repeated row makes a matrix singular. */
  lemma RepeatedRowIsSingular(m: Matrix, i: nat, j: nat)
    requires IsMatrix(m, |m|, |m|) && i < j < |m| && m[i] == m[j]
    ensures !Nonsingular(m)
  {
    hide Add, Mul, Dot, Nonsingular, Inverse;
    if Nonsingular(m) {
      var inv := NonsingularHasInverse(m);
      InverseSeparatesRows(m, inv, i, j);
    }
  }
}
