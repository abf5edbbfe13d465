/**
 Fountain codes over GF(2): a symbol is the exclusive or of some blocks, and the decoder solves
 for the blocks by Gaussian elimination on 64-bit masks.
 */
module Fountain {
  import opened Options
  import opened Bytes
  import opened Collections
  import opened Generator
  import opened BlockPicks

  const MAX_BLOCKS := 16
  const WORD := 64

  type Block = seq<bv8>

  /** A 64-bit mask, bit by bit. */
  type Mask = seq<bool>

  /** The data of a symbol, and the block indices it was built from. */
  type Symbol = (Block, seq<nat>)

  datatype Row = Row(mask: Mask, data: Block)

  function XorBlock(a: Block, b: Block): (r: Block)
    requires |a| == |b|
    ensures |r| == |a|
  {
    seq(|a|, i requires 0 <= i < |a| => a[i] ^ b[i])
  }

  function XorMask(a: Mask, b: Mask): (r: Mask)
    requires |a| == |b|
    ensures |r| == |a|
  {
    seq(|a|, i requires 0 <= i < |a| => a[i] != b[i])
  }

  function ZeroBlock(n: nat): (r: Block)
    ensures |r| == n
  {
    seq(n, _ => 0)
  }

  ghost predicate SameSizes(blocks: seq<Block>, len: nat)
  {
    forall i :: 0 <= i < |blocks| ==> |blocks[i]| == len
  }

  /** The exclusive or of the blocks the mask selects. */
  function Combine(mask: Mask, blocks: seq<Block>, len: nat): (r: Block)
    requires |blocks| <= |mask| && SameSizes(blocks, len)
    ensures |r| == len
  {
    if blocks == [] then ZeroBlock(len)
    else
      var last := |blocks| - 1;
      var front := Combine(mask, blocks[..last], len);
      if mask[last] then XorBlock(front, blocks[last]) else front
  }

  /** The parity of the bits that the mask and v share. */
  function Dot(mask: Mask, v: seq<bool>): bool
    requires |v| <= |mask|
  {
    if v == [] then false
    else
      var last := |v| - 1;
      Dot(mask, v[..last]) != (mask[last] && v[last])
  }

  // ---- Exclusive or of blocks and masks ----

  lemma ByteXor(a: bv8, b: bv8, c: bv8)
    ensures (a ^ b) ^ c == a ^ (b ^ c) && a ^ b == b ^ a && a ^ a == 0 && a ^ 0 == a && 0 ^ a == a
  {}

  lemma XorBlockLaws(a: Block, b: Block, c: Block)
    requires |a| == |b| == |c|
    ensures XorBlock(XorBlock(a, b), c) == XorBlock(a, XorBlock(b, c))
    ensures XorBlock(a, b) == XorBlock(b, a)
    ensures XorBlock(a, a) == ZeroBlock(|a|)
    ensures XorBlock(a, ZeroBlock(|a|)) == a
  {
    forall i | 0 <= i < |a|
      ensures (a[i] ^ b[i]) ^ c[i] == a[i] ^ (b[i] ^ c[i]) && a[i] ^ b[i] == b[i] ^ a[i]
      ensures a[i] ^ a[i] == 0 && a[i] ^ 0 == a[i]
    {
      ByteXor(a[i], b[i], c[i]);
    }
  }

  lemma XorBlockSwap(a: Block, b: Block, c: Block, d: Block)
    requires |a| == |b| == |c| == |d|
    ensures XorBlock(XorBlock(a, b), XorBlock(c, d)) == XorBlock(XorBlock(a, c), XorBlock(b, d))
  {
    hide XorBlock, ZeroBlock;
    XorBlockLaws(a, b, XorBlock(c, d));
    XorBlockLaws(b, c, d);
    XorBlockLaws(c, b, d);
    XorBlockLaws(a, c, XorBlock(b, d));
  }

  lemma XorZeros(n: nat)
    ensures XorBlock(ZeroBlock(n), ZeroBlock(n)) == ZeroBlock(n)
  {
    XorBlockLaws(ZeroBlock(n), ZeroBlock(n), ZeroBlock(n));
  }

  /** Combining is linear in the mask. */
  lemma {:induction false} CombineXor(a: Mask, b: Mask, blocks: seq<Block>, len: nat)
    requires |a| == |b| >= |blocks| && SameSizes(blocks, len)
    ensures Combine(XorMask(a, b), blocks, len) == XorBlock(Combine(a, blocks, len), Combine(b, blocks, len))
  {
    hide XorBlock, ZeroBlock;
    if blocks == [] {
      XorZeros(len);
    } else {
      var last := |blocks| - 1;
      var front, x := blocks[..last], blocks[last];
      var p, q := Combine(a, front, len), Combine(b, front, len);
      CombineXor(a, b, front, len);
      XorBlockLaws(p, q, x);
      XorBlockLaws(p, x, q);
      XorBlockLaws(q, x, x);
      XorBlockSwap(p, x, q, x);
      XorBlockLaws(x, x, x);
      XorBlockLaws(XorBlock(p, q), x, x);
    }
  }

  lemma {:induction false} DotXor(a: Mask, b: Mask, v: seq<bool>)
    requires |a| == |b| >= |v|
    ensures Dot(XorMask(a, b), v) == (Dot(a, v) != Dot(b, v))
  {
    if v != [] { DotXor(a, b, v[..|v| - 1]); }
  }

  lemma {:induction false} CombineNone(mask: Mask, blocks: seq<Block>, len: nat)
    requires |blocks| <= |mask| && SameSizes(blocks, len)
    requires forall i :: 0 <= i < |blocks| ==> !mask[i]
    ensures Combine(mask, blocks, len) == ZeroBlock(len)
  {
    if blocks != [] { CombineNone(mask, blocks[..|blocks| - 1], len); }
  }

  /** A mask with a single bit selects a single block. */
  lemma {:induction false} CombineOne(mask: Mask, blocks: seq<Block>, len: nat, c: nat)
    requires c < |blocks| <= |mask| && SameSizes(blocks, len)
    requires forall i :: 0 <= i < |blocks| ==> (mask[i] <==> i == c)
    ensures Combine(mask, blocks, len) == blocks[c]
  {
    var last := |blocks| - 1;
    if c == last {
      CombineNone(mask, blocks[..last], len);
      XorBlockLaws(blocks[c], ZeroBlock(len), blocks[c]);
    } else {
      CombineOne(mask, blocks[..last], len, c);
    }
  }

  // ---- Masks of symbols ----

  function EmptyMask(): (r: Mask)
    ensures |r| == WORD
  {
    seq(WORD, _ => false)
  }

  /** The mask of a list of block indices; an index that does not fit is ignored. */
  function MaskOf(chosen: seq<nat>): (r: Mask)
    ensures |r| == WORD
    ensures forall i :: 0 <= i < WORD ==> (r[i] <==> i in chosen)
  {
    seq(WORD, i => i in chosen)
  }

  /** The exclusive or of the blocks at the given indices, one after the other. */
  function XorAll(blocks: seq<Block>, chosen: seq<nat>, len: nat): (r: Block)
    requires SameSizes(blocks, len) && forall i :: 0 <= i < |chosen| ==> chosen[i] < |blocks|
    ensures |r| == len
  {
    if chosen == [] then ZeroBlock(len)
    else
      var last := |chosen| - 1;
      XorBlock(XorAll(blocks, chosen[..last], len), blocks[chosen[last]])
  }

  /** A symbol over distinct blocks is the combination its mask stands for. */
  lemma {:induction false} SymbolIsCombination(blocks: seq<Block>, chosen: seq<nat>, len: nat)
    requires |blocks| <= WORD && SameSizes(blocks, len)
    requires Distinct(chosen) && forall i :: 0 <= i < |chosen| ==> chosen[i] < |blocks|
    ensures XorAll(blocks, chosen, len) == Combine(MaskOf(chosen), blocks, len)
  {
    if chosen == [] {
      CombineNone(MaskOf(chosen), blocks, len);
    } else {
      var last := |chosen| - 1;
      var front, c := chosen[..last], chosen[last];
      SymbolIsCombination(blocks, front, len);
      assert chosen == front + [c];
      assert c !in front;
      assert MaskOf(chosen) == XorMask(MaskOf(front), MaskOf([c]));
      hide XorBlock;
      CombineXor(MaskOf(front), MaskOf([c]), blocks, len);
      CombineOne(MaskOf([c]), blocks, len, c);
    }
  }

  // ---- What the symbols say about the blocks ----

  /** The blocks give exactly these symbols. */
  ghost predicate Explains(symbols: seq<Symbol>, blocks: seq<Block>, k: nat, len: nat)
  {
    && |blocks| == k <= WORD && SameSizes(blocks, len)
    && forall i :: 0 <= i < |symbols| ==> symbols[i].0 == Combine(MaskOf(symbols[i].1), blocks, len)
  }

  /** Every assignment of blocks that explains the symbols satisfies the row. */
  ghost predicate Follows(symbols: seq<Symbol>, k: nat, len: nat, row: Row)
    requires |row.mask| == WORD
  {
    forall blocks: seq<Block> :: Explains(symbols, blocks, k, len) ==> row.data == Combine(row.mask, blocks, len)
  }

  /** v is orthogonal to every mask. */
  ghost predicate Kills(masks: seq<Mask>, v: seq<bool>)
    requires forall i :: 0 <= i < |masks| ==> |v| <= |masks[i]|
  {
    forall i :: 0 <= i < |masks| ==> !Dot(masks[i], v)
  }

  ghost predicate Words(masks: seq<Mask>)
  {
    forall i :: 0 <= i < |masks| ==> |masks[i]| == WORD
  }

  function Masks(symbols: seq<Symbol>): (r: seq<Mask>)
    ensures |r| == |symbols|
    ensures forall i :: 0 <= i < |r| ==> |r[i]| == WORD
  {
    seq(|symbols|, i requires 0 <= i < |symbols| => MaskOf(symbols[i].1))
  }

  function Falses(n: nat): (r: seq<bool>)
    ensures |r| == n
  {
    seq(n, _ => false)
  }

  /** The masks have rank k over GF(2): only the zero vector is orthogonal to all of them. */
  ghost predicate FullRank(masks: seq<Mask>, k: nat)
    requires k <= WORD && Words(masks)
  {
    forall v: seq<bool> :: |v| == k && Kills(masks, v) ==> v == Falses(k)
  }

  // ---- Forward elimination ----

  datatype Pivot = Pivot(col: nat, row: Row)

  ghost predicate Sized(row: Row, len: nat)
  {
    |row.mask| == WORD && |row.data| == len
  }

  ghost predicate AllSized(rows: seq<Row>, len: nat)
  {
    forall i :: 0 <= i < |rows| ==> Sized(rows[i], len)
  }

  /** The rows no longer mention the columns below col. */
  ghost predicate ClearBelow(rows: seq<Row>, col: nat)
    requires col <= WORD && forall i :: 0 <= i < |rows| ==> |rows[i].mask| == WORD
  {
    forall i, c :: 0 <= i < |rows| && 0 <= c < col ==> !rows[i].mask[c]
  }

  /** A pivot row starts at its column. */
  ghost predicate Leads(p: Pivot)
  {
    && p.col < WORD && |p.row.mask| == WORD && p.row.mask[p.col]
    && forall c :: 0 <= c < p.col ==> !p.row.mask[c]
  }

  ghost predicate Echelon(pivots: seq<Pivot>, col: nat)
  {
    && (forall i :: 0 <= i < |pivots| ==> Leads(pivots[i]) && pivots[i].col < col)
    && (forall i, j :: 0 <= i < j < |pivots| ==> pivots[i].col < pivots[j].col)
  }

  /** v is orthogonal to every remaining row and every pivot. */
  ghost predicate Killed(rows: seq<Row>, pivots: seq<Pivot>, v: seq<bool>)
    requires |v| <= WORD
    requires forall i :: 0 <= i < |rows| ==> |rows[i].mask| == WORD
    requires forall i :: 0 <= i < |pivots| ==> |pivots[i].row.mask| == WORD
  {
    && (forall i :: 0 <= i < |rows| ==> !Dot(rows[i].mask, v))
    && (forall i :: 0 <= i < |pivots| ==> !Dot(pivots[i].row.mask, v))
  }

  /** One step of the elimination has the invariant for column col. */
  ghost predicate Eliminated(symbols: seq<Symbol>, k: nat, len: nat, rows: seq<Row>, pivots: seq<Pivot>, col: nat)
    requires col <= k <= WORD
  {
    && AllSized(rows, len) && ClearBelow(rows, col)
    && Echelon(pivots, col) && (forall i :: 0 <= i < |pivots| ==> |pivots[i].row.data| == len)
    && (forall i :: 0 <= i < |rows| ==> Follows(symbols, k, len, rows[i]))
    && (forall i :: 0 <= i < |pivots| ==> Follows(symbols, k, len, pivots[i].row))
    && (forall v: seq<bool> :: |v| == k ==> (Kills(Masks(symbols), v) <==> Killed(rows, pivots, v)))
  }

  function XorRow(a: Row, b: Row): Row
    requires |a.mask| == |b.mask| && |a.data| == |b.data|
  {
    Row(XorMask(a.mask, b.mask), XorBlock(a.data, b.data))
  }

  /** A row after the pivot row has been taken out of column col. */
  function ReduceRow(row: Row, p: Row, col: nat): Row
    requires |row.mask| == |p.mask| && |row.data| == |p.data| && col < |p.mask|
  {
    if row.mask[col] then XorRow(row, p) else row
  }

  lemma FollowsReduce(symbols: seq<Symbol>, k: nat, len: nat, row: Row, p: Row, col: nat)
    requires Sized(row, len) && Sized(p, len) && col < WORD
    requires Follows(symbols, k, len, row) && Follows(symbols, k, len, p)
    ensures Sized(ReduceRow(row, p, col), len) && Follows(symbols, k, len, ReduceRow(row, p, col))
  {
    hide XorBlock, XorMask, Combine;
    var r := ReduceRow(row, p, col);
    forall blocks: seq<Block> | Explains(symbols, blocks, k, len)
      ensures r.data == Combine(r.mask, blocks, len)
    {
      CombineXor(row.mask, p.mask, blocks, len);
    }
  }

  function Without(rows: seq<Row>, i: nat): (r: seq<Row>)
    requires i < |rows|
    ensures |r| == |rows| - 1
  {
    rows[..i] + rows[i + 1..]
  }

  function Reduce(rows: seq<Row>, p: Row, col: nat, len: nat): (r: seq<Row>)
    requires AllSized(rows, len) && Sized(p, len) && col < WORD
    ensures |r| == |rows|
  {
    seq(|rows|, i requires 0 <= i < |rows| => ReduceRow(rows[i], p, col))
  }

  lemma DotReduce(row: Row, p: Row, col: nat, len: nat, v: seq<bool>)
    requires Sized(row, len) && Sized(p, len) && col < WORD && |v| <= WORD && !Dot(p.mask, v)
    ensures |ReduceRow(row, p, col).mask| == WORD
    ensures Dot(ReduceRow(row, p, col).mask, v) == Dot(row.mask, v)
  {
    DotXor(row.mask, p.mask, v);
  }

  lemma KilledStep(rows: seq<Row>, pivots: seq<Pivot>, col: nat, ri: nat, len: nat, v: seq<bool>)
    requires AllSized(rows, len) && ri < |rows| && col < WORD && |v| <= WORD
    requires forall i :: 0 <= i < |pivots| ==> |pivots[i].row.mask| == WORD
    ensures var p, rest := rows[ri], Without(rows, ri);
            var next := Reduce(rest, p, col, len);
            && (forall i :: 0 <= i < |next| ==> |next[i].mask| == WORD)
            && (Killed(rows, pivots, v) <==> Killed(next, pivots + [Pivot(col, p)], v))
  {
    hide Dot, ReduceRow;
    var p, rest := rows[ri], Without(rows, ri);
    var next, more := Reduce(rest, p, col, len), pivots + [Pivot(col, p)];
    assert forall i :: 0 <= i < |rest| ==> rest[i] == rows[if i < ri then i else i + 1];
    forall i | 0 <= i < |next|
      ensures |next[i].mask| == WORD
      ensures !Dot(p.mask, v) ==> Dot(next[i].mask, v) == Dot(rest[i].mask, v)
    {
      ReducedSize(rest[i], p, col);
      if !Dot(p.mask, v) { DotReduce(rest[i], p, col, len, v); }
    }
    if Killed(next, more, v) {
      assert more[|pivots|].row == p;
      forall i | 0 <= i < |rows|
        ensures !Dot(rows[i].mask, v)
      {
        if i != ri { assert rest[if i < ri then i else i - 1] == rows[i]; }
      }
      forall i | 0 <= i < |pivots|
        ensures !Dot(pivots[i].row.mask, v)
      {
        assert more[i] == pivots[i];
      }
    }
  }

  lemma ReducedSize(row: Row, p: Row, col: nat)
    requires |row.mask| == |p.mask| && |row.data| == |p.data| && col < |p.mask|
    ensures |ReduceRow(row, p, col).mask| == |row.mask| && |ReduceRow(row, p, col).data| == |row.data|
  {}

  /** Taking row ri as the pivot of column col. */
  lemma PivotStep(symbols: seq<Symbol>, k: nat, len: nat, rows: seq<Row>, pivots: seq<Pivot>, col: nat, ri: nat)
    requires col < k <= WORD && Eliminated(symbols, k, len, rows, pivots, col)
    requires ri < |rows| && rows[ri].mask[col]
    ensures var p := rows[ri];
            Eliminated(symbols, k, len, Reduce(Without(rows, ri), p, col, len), pivots + [Pivot(col, p)], col + 1)
  {
    hide Dot, Follows, Kills, Masks;
    var p, rest := rows[ri], Without(rows, ri);
    assert forall i :: 0 <= i < |rest| ==> rest[i] == rows[if i < ri then i else i + 1];
    var next, more := Reduce(rest, p, col, len), pivots + [Pivot(col, p)];
    forall i | 0 <= i < |next|
      ensures Sized(next[i], len) && Follows(symbols, k, len, next[i])
    {
      FollowsReduce(symbols, k, len, rest[i], p, col);
    }
    forall v: seq<bool> | |v| == k
      ensures Kills(Masks(symbols), v) <==> Killed(next, more, v)
    {
      KilledStep(rows, pivots, col, ri, len, v);
    }
    hide Killed;
    assert ClearBelow(next, col + 1);
  }

  // ---- Too few pivots: a nonzero vector is orthogonal to all masks ----

  lemma {:induction false} DotFlip(mask: Mask, v: seq<bool>, c: nat)
    requires c < |v| <= |mask|
    ensures Dot(mask, v[c := !v[c]]) == (Dot(mask, v) != mask[c])
  {
    var last := |v| - 1;
    var u := v[c := !v[c]];
    if c < last {
      DotFlip(mask, v[..last], c);
      assert u[..last] == v[..last][c := !v[c]];
    } else {
      assert u[..last] == v[..last];
    }
  }

  lemma {:induction false} DotDisjoint(mask: Mask, v: seq<bool>)
    requires |v| <= |mask| && forall c :: 0 <= c < |v| ==> !(mask[c] && v[c])
    ensures !Dot(mask, v)
  {
    if v != [] { DotDisjoint(mask, v[..|v| - 1]); }
  }

  /** The first column that has no pivot. */
  lemma MissingColumn(pivots: seq<Pivot>, k: nat) returns (f: nat)
    requires Echelon(pivots, k) && |pivots| < k
    ensures f <= |pivots| && f < k
    ensures forall i :: 0 <= i < f ==> pivots[i].col == i
    ensures forall i :: f <= i < |pivots| ==> pivots[i].col > f
  {
    f := 0;
    while f < |pivots| && pivots[f].col == f
      invariant f <= |pivots|
      invariant forall i :: 0 <= i < f ==> pivots[i].col == i
    {
      f := f + 1;
    }
    if f < |pivots| {
      if f > 0 { assert pivots[f - 1].col < pivots[f].col; }
      assert pivots[f].col > f;
    }
  }

  /** Solve for the columns below f by back substitution, with column f set to one. */
  lemma {:induction false} Orthogonal(pivots: seq<Pivot>, k: nat, f: nat, c: nat, v: seq<bool>) returns (r: seq<bool>)
    requires Echelon(pivots, k) && c <= f <= |pivots| && f < k <= WORD && |v| == k
    requires forall i :: 0 <= i < f ==> pivots[i].col == i
    requires forall i :: f <= i < |pivots| ==> pivots[i].col > f
    requires v[f] && forall i :: c <= i < |pivots| ==> !Dot(pivots[i].row.mask, v)
    ensures |r| == k && r[f] && forall i :: 0 <= i < |pivots| ==> !Dot(pivots[i].row.mask, r)
    decreases c
  {
    if c == 0 {
      r := v;
    } else {
      var p := pivots[c - 1];
      assert Leads(p);
      var u := if Dot(p.row.mask, v) then v[c - 1 := !v[c - 1]] else v;
      forall i | c - 1 <= i < |pivots|
        ensures !Dot(pivots[i].row.mask, u)
      {
        assert Leads(pivots[i]);
        DotFlip(pivots[i].row.mask, v, c - 1);
      }
      r := Orthogonal(pivots, k, f, c - 1, u);
    }
  }

  lemma TooFewPivots(symbols: seq<Symbol>, k: nat, len: nat, rows: seq<Row>, pivots: seq<Pivot>)
    requires k <= WORD && Eliminated(symbols, k, len, rows, pivots, k) && |pivots| < k
    ensures !FullRank(Masks(symbols), k)
  {
    hide Dot, Follows, Masks, Kills;
    var f := MissingColumn(pivots, k);
    var unit := Falses(k)[f := true];
    forall i | f <= i < |pivots|
      ensures !Dot(pivots[i].row.mask, unit)
    {
      assert Leads(pivots[i]);
      DotDisjoint(pivots[i].row.mask, unit);
    }
    var v := Orthogonal(pivots, k, f, f, unit);
    forall i | 0 <= i < |rows|
      ensures !Dot(rows[i].mask, v)
    {
      DotDisjoint(rows[i].mask, v);
    }
    assert Killed(rows, pivots, v);
    assert v[f] != Falses(k)[f];
  }

  // ---- Enough pivots: full rank ----

  lemma {:induction false} PivotAtLeast(pivots: seq<Pivot>, k: nat, i: nat)
    requires Echelon(pivots, k) && i < |pivots|
    ensures pivots[i].col >= i
  {
    if i > 0 { PivotAtLeast(pivots, k, i - 1); }
  }

  lemma FullColumns(pivots: seq<Pivot>, k: nat)
    requires Echelon(pivots, k) && |pivots| >= k
    ensures |pivots| == k && forall i :: 0 <= i < k ==> pivots[i].col == i
  {
    if |pivots| > k { PivotAtLeast(pivots, k, k); }
    var i := k;
    while i > 0
      invariant 0 <= i <= k
      invariant forall j :: i <= j < k ==> pivots[j].col == j
    {
      i := i - 1;
      PivotAtLeast(pivots, k, i);
      if i + 1 < k { assert pivots[i].col < pivots[i + 1].col; }
    }
  }

  /** In a triangular system only the zero vector is orthogonal to every pivot. */
  lemma {:induction false} TriangularKernel(pivots: seq<Pivot>, k: nat, v: seq<bool>, c: nat)
    requires Echelon(pivots, k) && |pivots| == k <= WORD && |v| == k && c <= k
    requires forall i :: 0 <= i < k ==> pivots[i].col == i
    requires forall i :: 0 <= i < k ==> !Dot(pivots[i].row.mask, v)
    requires forall i :: c <= i < k ==> !v[i]
    ensures v == Falses(k)
    decreases c
  {
    if c > 0 {
      var p := pivots[c - 1].row;
      assert Leads(pivots[c - 1]);
      if v[c - 1] {
        var u := v[c - 1 := !v[c - 1]];
        DotDisjoint(p.mask, u);
        DotFlip(p.mask, v, c - 1);
      }
      TriangularKernel(pivots, k, v, c - 1);
    }
  }

  lemma EnoughPivots(symbols: seq<Symbol>, k: nat, len: nat, rows: seq<Row>, pivots: seq<Pivot>)
    requires k <= WORD && Eliminated(symbols, k, len, rows, pivots, k) && |pivots| >= k
    ensures |pivots| == k && forall i :: 0 <= i < k ==> pivots[i].col == i
    ensures FullRank(Masks(symbols), k)
  {
    hide Dot, Follows, Masks, Kills;
    FullColumns(pivots, k);
    forall v: seq<bool> | |v| == k && Kills(Masks(symbols), v)
      ensures v == Falses(k)
    {
      assert Killed(rows, pivots, v);
      TriangularKernel(pivots, k, v, k);
    }
  }

  // ---- Back substitution ----

  /** Every assignment of blocks that explains the symbols has this block at c. */
  ghost predicate IsBlock(symbols: seq<Symbol>, k: nat, len: nat, c: nat, data: Block)
  {
    forall blocks: seq<Block> :: Explains(symbols, blocks, k, len) ==> c < k && blocks[c] == data
  }

  lemma FollowsXorBlock(symbols: seq<Symbol>, k: nat, len: nat, row: Row, c: nat, s: Block)
    requires Sized(row, len) && |s| == len && c < k <= WORD && row.mask[c]
    requires Follows(symbols, k, len, row) && IsBlock(symbols, k, len, c, s)
    ensures Follows(symbols, k, len, Row(row.mask[c := false], XorBlock(row.data, s)))
  {
    hide XorBlock, Combine;
    var one := EmptyMask()[c := true];
    assert row.mask[c := false] == XorMask(row.mask, one);
    forall blocks: seq<Block> | Explains(symbols, blocks, k, len)
      ensures XorBlock(row.data, s) == Combine(row.mask[c := false], blocks, len)
    {
      CombineXor(row.mask, one, blocks, len);
      CombineOne(one, blocks, len, c);
    }
  }

  lemma SingleBitIsBlock(symbols: seq<Symbol>, k: nat, len: nat, row: Row, c: nat)
    requires Sized(row, len) && c < k <= WORD && Follows(symbols, k, len, row)
    requires forall i :: 0 <= i < k ==> (row.mask[i] <==> i == c)
    ensures IsBlock(symbols, k, len, c, row.data)
  {
    forall blocks: seq<Block> | Explains(symbols, blocks, k, len)
      ensures blocks[c] == row.data
    {
      CombineOne(row.mask, blocks, len, c);
    }
  }

  // ---- The decoder ----

  ghost predicate SymbolSizes(symbols: seq<Symbol>)
  {
    forall i :: 0 <= i < |symbols| ==> |symbols[i].0| == |symbols[0].0|
  }

  /** The answer of the decoder: the blocks, exactly when the masks have full rank. */
  ghost predicate Decodes(symbols: seq<Symbol>, k: nat, r: Option<seq<Block>>)
  {
    if k == 0 || k > 16 || symbols == [] || !SymbolSizes(symbols) then r.None?
    else
      var len := |symbols[0].0|;
      && (r.Some? <==> FullRank(Masks(symbols), k))
      && (r.Some? ==>
            && |r.value| == k && SameSizes(r.value, len)
            && forall c :: 0 <= c < k ==> IsBlock(symbols, k, len, c, r.value[c]))
  }

  method BuildMask(chosen: seq<nat>) returns (mask: Mask)
    ensures mask == MaskOf(chosen)
  {
    mask := EmptyMask();
    for j := 0 to |chosen|
      invariant mask == MaskOf(chosen[..j])
    {
      var i := chosen[j];
      assert chosen[..j + 1] == chosen[..j] + [i];
      if i < WORD {
        mask := mask[i := true];
      }
    }
    assert chosen[..|chosen|] == chosen;
  }

  method XorBytes(a: Block, b: Block) returns (r: Block)
    requires |a| == |b|
    ensures r == XorBlock(a, b)
  {
    r := a;
    for i := 0 to |a|
      invariant |r| == |a|
      invariant forall j :: 0 <= j < i ==> r[j] == a[j] ^ b[j]
      invariant forall j :: i <= j < |a| ==> r[j] == a[j]
    {
      r := r[i := r[i] ^ b[i]];
    }
  }

  method BuildRows(symbols: seq<Symbol>, k: nat) returns (r: Option<seq<Row>>)
    requires 0 < k <= WORD && symbols != []
    ensures r.Some? <==> SymbolSizes(symbols)
    ensures r.Some? ==> Eliminated(symbols, k, |symbols[0].0|, r.value, [], 0)
  {
    var len := |symbols[0].0|;
    var rows: seq<Row> := [];
    for i := 0 to |symbols|
      invariant |rows| == i
      invariant forall j :: 0 <= j < i ==> rows[j] == Row(MaskOf(symbols[j].1), symbols[j].0) && |symbols[j].0| == len
    {
      if |symbols[i].0| != len {
        return None;
      }
      var mask := BuildMask(symbols[i].1);
      rows := rows + [Row(mask, symbols[i].0)];
    }
    InitialRows(symbols, k, len, rows);
    return Some(rows);
  }

  lemma InitialRows(symbols: seq<Symbol>, k: nat, len: nat, rows: seq<Row>)
    requires k <= WORD && |rows| == |symbols|
    requires forall j :: 0 <= j < |rows| ==> rows[j] == Row(MaskOf(symbols[j].1), symbols[j].0) && |symbols[j].0| == len
    ensures Eliminated(symbols, k, len, rows, [], 0)
  {
    hide Dot, Combine;
    forall v: seq<bool> | |v| == k
      ensures Kills(Masks(symbols), v) <==> Killed(rows, [], v)
    {
      assert forall i :: 0 <= i < |rows| ==> rows[i].mask == Masks(symbols)[i];
    }
  }

  method FindRow(rows: seq<Row>, col: nat) returns (ri: Option<nat>)
    requires col < WORD && forall i :: 0 <= i < |rows| ==> |rows[i].mask| == WORD
    ensures ri.Some? ==> ri.value < |rows| && rows[ri.value].mask[col]
    ensures ri.None? ==> forall i :: 0 <= i < |rows| ==> !rows[i].mask[col]
  {
    for i := 0 to |rows|
      invariant forall j :: 0 <= j < i ==> !rows[j].mask[col]
    {
      if rows[i].mask[col] {
        return Some(i);
      }
    }
    return None;
  }

  method ReduceRows(start: seq<Row>, p: Row, col: nat, len: nat) returns (rows: seq<Row>)
    requires AllSized(start, len) && Sized(p, len) && col < WORD
    ensures rows == Reduce(start, p, col, len)
  {
    rows := start;
    for i := 0 to |start|
      invariant |rows| == |start|
      invariant forall j :: 0 <= j < i ==> rows[j] == ReduceRow(start[j], p, col)
      invariant forall j :: i <= j < |start| ==> rows[j] == start[j]
    {
      if rows[i].mask[col] {
        var data := XorBytes(rows[i].data, p.data);
        rows := rows[i := Row(XorMask(rows[i].mask, p.mask), data)];
      }
    }
  }

  lemma SkipStep(symbols: seq<Symbol>, k: nat, len: nat, rows: seq<Row>, pivots: seq<Pivot>, col: nat)
    requires col < k <= WORD && Eliminated(symbols, k, len, rows, pivots, col)
    requires forall i :: 0 <= i < |rows| ==> !rows[i].mask[col]
    ensures Eliminated(symbols, k, len, rows, pivots, col + 1)
  {
    hide Dot, Follows, Kills, Killed, Masks;
  }

  method Forward(ghost symbols: seq<Symbol>, k: nat, start: seq<Row>, len: nat) returns (ghost rows: seq<Row>, pivots: seq<Pivot>)
    requires k <= WORD && Eliminated(symbols, k, len, start, [], 0)
    ensures Eliminated(symbols, k, len, rows, pivots, k)
  {
    pivots := [];
    var rest := start;
    for col := 0 to k
      invariant Eliminated(symbols, k, len, rest, pivots, col)
    {
      hide Follows, Kills, Killed, Masks;
      var sel := FindRow(rest, col);
      if sel.None? {
        SkipStep(symbols, k, len, rest, pivots, col);
      } else {
        var ri := sel.value;
        PivotStep(symbols, k, len, rest, pivots, col, ri);
        var p := rest[ri];
        var others := Without(rest, ri);
        WithoutSized(rest, ri, len);
        rest := ReduceRows(others, p, col, len);
        pivots := pivots + [Pivot(col, p)];
      }
    }
    rows := rest;
  }

  lemma WithoutSized(rows: seq<Row>, i: nat, len: nat)
    requires i < |rows| && AllSized(rows, len)
    ensures AllSized(Without(rows, i), len)
  {}

  /** Take the solved blocks above column col out of a pivot row. */
  method Substitute(ghost symbols: seq<Symbol>, k: nat, len: nat, p: Pivot, solved: seq<Option<Block>>) returns (data: Block)
    requires k <= WORD && Leads(p) && p.col < k && Sized(p.row, len) && |solved| == k
    requires Follows(symbols, k, len, p.row)
    requires forall c :: p.col < c < k ==> solved[c].Some? && |solved[c].value| == len
    requires forall c :: p.col < c < k ==> IsBlock(symbols, k, len, c, solved[c].value)
    ensures |data| == len && IsBlock(symbols, k, len, p.col, data)
  {
    hide Follows, IsBlock;
    data := p.row.data;
    ghost var mask := p.row.mask;
    for c := p.col + 1 to k
      invariant Sized(Row(mask, data), len) && Follows(symbols, k, len, Row(mask, data))
      invariant forall i :: 0 <= i < k ==> mask[i] == if p.col < i < c then false else p.row.mask[i]
    {
      if p.row.mask[c] && solved[c].Some? {
        FollowsXorBlock(symbols, k, len, Row(mask, data), c, solved[c].value);
        data := XorBytes(data, solved[c].value);
        mask := mask[c := false];
      }
    }
    SingleBitIsBlock(symbols, k, len, Row(mask, data), p.col);
  }

  method Back(ghost symbols: seq<Symbol>, k: nat, len: nat, pivots: seq<Pivot>) returns (result: seq<Block>)
    requires 0 < k <= WORD && |pivots| == k && Echelon(pivots, k)
    requires forall i :: 0 <= i < k ==> pivots[i].col == i && |pivots[i].row.data| == len
    requires forall i :: 0 <= i < k ==> Follows(symbols, k, len, pivots[i].row)
    ensures |result| == k && SameSizes(result, len)
    ensures forall c :: 0 <= c < k ==> IsBlock(symbols, k, len, c, result[c])
  {
    hide Follows, IsBlock;
    var solved: seq<Option<Block>> := seq(k, _ => None);
    var i := k;
    while i > 0
      invariant 0 <= i <= k && |solved| == k
      invariant forall c :: i <= c < k ==> solved[c].Some? && |solved[c].value| == len
      invariant forall c :: i <= c < k ==> IsBlock(symbols, k, len, c, solved[c].value)
    {
      i := i - 1;
      assert Leads(pivots[i]);
      var data := Substitute(symbols, k, len, pivots[i], solved);
      solved := solved[i := Some(data)];
    }
    result := seq(k, c requires 0 <= c < k => solved[c].value);
  }

  method Decode(symbols: seq<Symbol>, k: nat) returns (r: Option<seq<Block>>)
    ensures Decodes(symbols, k, r)
  {
    hide FullRank, Follows, IsBlock, Masks;
    if k == 0 || k > MAX_BLOCKS || symbols == [] {
      return None;
    }
    var start := BuildRows(symbols, k);
    if start.None? {
      return None;
    }
    var len := |symbols[0].0|;
    ghost var rows;
    var pivots;
    rows, pivots := Forward(symbols, k, start.value, len);
    if |pivots| < k {
      TooFewPivots(symbols, k, len, rows, pivots);
      return None;
    }
    EnoughPivots(symbols, k, len, rows, pivots);
    var result := Back(symbols, k, len, pivots);
    return Some(result);
  }

  // ---- Recovery ----

  /** Symbols of these blocks, each over distinct block indices. */
  ghost predicate SymbolsOf(symbols: seq<Symbol>, blocks: seq<Block>, len: nat)
  {
    && SameSizes(blocks, len)
    && forall i :: 0 <= i < |symbols| ==>
                     && Distinct(symbols[i].1)
                     && (forall j :: 0 <= j < |symbols[i].1| ==> symbols[i].1[j] < |blocks|)
                     && symbols[i].0 == XorAll(blocks, symbols[i].1, len)
  }

  lemma SymbolsExplain(symbols: seq<Symbol>, blocks: seq<Block>, len: nat)
    requires |blocks| <= WORD && SymbolsOf(symbols, blocks, len)
    ensures Explains(symbols, blocks, |blocks|, len)
  {
    forall i | 0 <= i < |symbols|
      ensures symbols[i].0 == Combine(MaskOf(symbols[i].1), blocks, len)
    {
      SymbolIsCombination(blocks, symbols[i].1, len);
    }
  }

  /** Any symbols of the blocks, in any order, give back the blocks exactly when their masks have full rank. */
  lemma RecoverBlocks(symbols: seq<Symbol>, blocks: seq<Block>, len: nat, r: Option<seq<Block>>)
    requires 0 < |blocks| <= MAX_BLOCKS && symbols != []
    requires SymbolsOf(symbols, blocks, len) && Decodes(symbols, |blocks|, r)
    ensures r == if FullRank(Masks(symbols), |blocks|) then Some(blocks) else None
  {
    hide XorAll, FullRank, Masks;
    SymbolsExplain(symbols, blocks, len);
    assert |symbols[0].0| == len;
    assert SymbolSizes(symbols);
    if r.Some? {
      forall c | 0 <= c < |blocks|
        ensures r.value[c] == blocks[c]
      {
        assert IsBlock(symbols, |blocks|, len, c, r.value[c]);
      }
      assert r.value == blocks;
    }
  }

  // ---- Refusing is right ----

  function Flip(blocks: seq<Block>, v: seq<bool>, delta: Block): (r: seq<Block>)
    requires |v| == |blocks| && SameLength(blocks, delta)
    ensures |r| == |blocks|
  {
    seq(|blocks|, i requires 0 <= i < |blocks| => if v[i] then XorBlock(blocks[i], delta) else blocks[i])
  }

  predicate SameLength(blocks: seq<Block>, delta: Block)
  {
    forall i :: 0 <= i < |blocks| ==> |blocks[i]| == |delta|
  }

  /** Changing the blocks along v changes a combination by the parity it shares with v. */
  lemma {:induction false} CombineFlip(mask: Mask, blocks: seq<Block>, v: seq<bool>, delta: Block)
    requires |v| == |blocks| <= |mask| && SameLength(blocks, delta)
    ensures SameSizes(Flip(blocks, v, delta), |delta|)
    ensures var before := Combine(mask, blocks, |delta|);
            Combine(mask, Flip(blocks, v, delta), |delta|) == if Dot(mask, v) then XorBlock(before, delta) else before
  {
    hide XorBlock, ZeroBlock;
    if blocks != [] {
      var last := |blocks| - 1;
      var front, x := blocks[..last], blocks[last];
      var p := Combine(mask, front, |delta|);
      CombineFlip(mask, front, v[..last], delta);
      assert Flip(blocks, v, delta)[..last] == Flip(front, v[..last], delta);
      XorBlockLaws(p, x, delta);
      XorBlockLaws(p, delta, x);
      XorBlockLaws(x, delta, delta);
      XorBlockSwap(p, delta, x, delta);
      XorBlockLaws(delta, delta, delta);
      XorBlockLaws(XorBlock(p, x), delta, delta);
    }
  }

  /** Without full rank, other blocks give the same symbols: no decoder could tell them apart. */
  lemma RefusalIsRight(symbols: seq<Symbol>, blocks: seq<Block>, k: nat, len: nat) returns (other: seq<Block>)
    requires Explains(symbols, blocks, k, len) && len > 0 && !FullRank(Masks(symbols), k)
    ensures other != blocks && Explains(symbols, other, k, len)
  {
    hide Dot, Combine;
    var v: seq<bool> :| |v| == k && Kills(Masks(symbols), v) && v != Falses(k);
    var delta: Block := seq(len, _ => 1);
    other := Flip(blocks, v, delta);
    forall i | 0 <= i < |symbols|
      ensures symbols[i].0 == Combine(MaskOf(symbols[i].1), other, len)
    {
      CombineFlip(MaskOf(symbols[i].1), blocks, v, delta);
      assert !Dot(Masks(symbols)[i], v);
    }
    CombineFlip(EmptyMask(), blocks, v, delta);
    var c :| 0 <= c < k && v[c] != Falses(k)[c];
    OneChanges(blocks[c][0]);
    assert other[c][0] == blocks[c][0] ^ 1;
  }

  lemma OneChanges(b: bv8)
    ensures b ^ 1 != b
  {}

  // ---- The encoder ----

  method MakeSymbol(blocks: seq<Block>, chosen: seq<nat>, len: nat) returns (sym: Block)
    requires SameSizes(blocks, len) && forall i :: 0 <= i < |chosen| ==> chosen[i] < |blocks|
    ensures sym == XorAll(blocks, chosen, len)
  {
    sym := ZeroBlock(len);
    for j := 0 to |chosen|
      invariant sym == XorAll(blocks, chosen[..j], len)
    {
      assert chosen[..j + 1][..j] == chosen[..j];
      sym := XorBytes(sym, blocks[chosen[j]]);
    }
    assert chosen[..|chosen|] == chosen;
  }

  /** The blocks can be coded: some, not too many, of one size that is not zero. */
  ghost predicate Codable(blocks: seq<Block>)
  {
    0 < |blocks| <= 16 && |blocks[0]| > 0 && SameSizes(blocks, |blocks[0]|)
  }

  /** Symbols over the blocks that the generator draws from x on, each with its picks in ascending order. */
  ghost predicate Drawn(symbols: seq<Symbol>, blocks: seq<Block>, x: u64)
    requires Codable(blocks)
  {
    var picks := Draws(x, |blocks|, |symbols|).0;
    forall i :: 0 <= i < |symbols| ==> Arranges(symbols[i].1, picks[i])
  }

  method IsCodable(blocks: seq<Block>) returns (ok: bool)
    ensures ok <==> Codable(blocks)
  {
    if blocks == [] || |blocks| > MAX_BLOCKS || |blocks[0]| == 0 {
      return false;
    }
    for i := 0 to |blocks|
      invariant forall j :: 0 <= j < i ==> |blocks[j]| == |blocks[0]|
    {
      if |blocks[i]| != |blocks[0]| {
        return false;
      }
    }
    return true;
  }

  /** The picks of the symbols, word by word of the generator: each draw starts where the one before stopped. */
  ghost predicate ChosenInTurn(symbols: seq<Symbol>, k: nat, x: u64, ends: seq<nat>)
  {
    && |ends| == |symbols| + 1 && ends[0] == 0
    && forall i :: 0 <= i < |symbols| ==> ChosenBy(symbols[i].1, x, k, ends[i], ends[i + 1])
  }

  ghost predicate ChosenFrom(symbols: seq<Symbol>, k: nat, x: u64)
  {
    exists ends :: ChosenInTurn(symbols, k, x, ends)
  }

  lemma {:induction false} DrawnInTurn(symbols: seq<Symbol>, blocks: seq<Block>, x: u64) returns (ends: seq<nat>)
    requires Codable(blocks) && Drawn(symbols, blocks, x)
    ensures ChosenInTurn(symbols, |blocks|, x, ends)
    ensures Draws(x, |blocks|, |symbols|).1 == After(x, ends[|symbols|])
  {
    hide Draw, Arranges, ChosenBy, Codable;
    ends := [0];
    if symbols != [] {
      var n := |symbols| - 1;
      var k := |blocks|;
      BlockCount(blocks);
      DrawsUnfold(x, k, n + 1);
      ends := DrawnInTurn(symbols[..n], blocks, x);
      var end := DrawExactly(x, k, ends[n], symbols[n].1);
      ends := ends + [end];
    }
  }

  lemma BlockCount(blocks: seq<Block>)
    requires Codable(blocks)
    ensures 0 < |blocks| <= MAX_BLOCKS
  {}

  lemma DrawsUnfold(x: u64, k: nat, n: nat)
    requires 0 < k <= MAX_PICKS && n > 0
    ensures var (picks, y) := Draws(x, k, n - 1);
            Draws(x, k, n) == (picks + [Draw(y, k).0], Draw(y, k).1)
  {
    hide Draw;
  }

  lemma DrawnMore(symbols: seq<Symbol>, blocks: seq<Block>, x: u64, symbol: Symbol)
    requires Codable(blocks) && Drawn(symbols, blocks, x)
    requires Arranges(symbol.1, Draw(Draws(x, |blocks|, |symbols|).1, |blocks|).0)
    ensures Drawn(symbols + [symbol], blocks, x)
  {
    hide Draw, Arranges, Codable;
  }

  lemma SeededExactly(seed: u64)
    ensures Seeded(seed) == (seed * 0x9E37_79B9_7F4A_7C15 + 1) % TWO64
  {}

  /** The symbols of a seed. */
  method Encode(blocks: seq<Block>, n: nat, seed: u64) returns (r: Option<seq<Symbol>>)
    ensures r.Some? <==> Codable(blocks) && n > 0
    ensures r.Some? ==> |r.value| == n && SymbolsOf(r.value, blocks, |blocks[0]|) && Drawn(r.value, blocks, Seeded(seed))
    ensures r.Some? ==> ChosenFrom(r.value, |blocks|, (seed * 0x9E37_79B9_7F4A_7C15 + 1) % TWO64)
  {
    var ok := IsCodable(blocks);
    if !ok || n == 0 {
      return None;
    }
    var k, len := |blocks|, |blocks[0]|;
    hide XorAll, Draw, Arranges, Distinct, Seeded;
    var x := Seeded(seed);
    var out: seq<Symbol> := [];
    for i := 0 to n
      invariant |out| == i && SymbolsOf(out, blocks, len)
      invariant Drawn(out, blocks, Seeded(seed)) && x == Draws(Seeded(seed), k, i).1
    {
      var chosen, next := DrawBlocks(x, k);
      ArrangedIsDistinct(chosen, Draw(x, k).0, k);
      var sym := MakeSymbol(blocks, chosen, len);
      DrawnMore(out, blocks, Seeded(seed), (sym, chosen));
      out := out + [(sym, chosen)];
      x := next;
    }
    ghost var ends := DrawnInTurn(out, blocks, Seeded(seed));
    SeededExactly(seed);
    return Some(out);
  }
}
