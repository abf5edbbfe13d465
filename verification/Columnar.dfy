/**
 The columnar transform of an array of JSON records: one typed column per key, the blob the
 columns are stored as, and the array that is put together again.
 */
module Columnar {
  import opened Options
  import opened Bytes
  import opened Collections
  import opened Hashing
  import opened Utf8
  import opened Lists
  import opened Json

  const MAX_RECORDS := 10_000_000
  const MAX_COLUMNS := 256
  const MAX_VALUE_BYTES := 1024 * 1024
  const MAX_KEY_BYTES := 1024
  const MAX_TEXT_BYTES := 0x4000_0000

  datatype ColType = StrCol | U64Col | I64Col | F64Col | BoolCol

  function TypeCode(t: ColType): byte
  {
    match t case StrCol => 0 case U64Col => 1 case I64Col => 2 case F64Col => 3 case BoolCol => 4
  }

  function TypeOfCode(v: byte): Option<ColType>
  {
    if v == 0 then Some(StrCol) else if v == 1 then Some(U64Col) else if v == 2 then Some(I64Col)
    else if v == 3 then Some(F64Col) else if v == 4 then Some(BoolCol) else None
  }

  datatype Mode = Exact | OrderFree

  type Column = seq<Value>

  datatype Table = Table(mode: Mode, keys: seq<Text>, types: seq<ColType>, columns: seq<Column>)

  // ---- Cells ----

  /** The type a value asks of its column. */
  function CellType(v: Value): ColType
  {
    match v
    case Num(PosInt(_)) => U64Col
    case Num(NegInt(_)) => I64Col
    case Num(Float(_)) => F64Col
    case Bool(_) => BoolCol
    case _ => StrCol
  }

  /** The text of a value in a text column. */
  function CellText(lib: Lib, v: Value): Text
  {
    if v.Str? then v.s else lib.show(v)
  }

  function TextCell(lib: Lib, v: Value): seq<byte>
  {
    [if v.Str? then 0 else 1] + Le(|CellText(lib, v)|, 4) + CellText(lib, v)
  }

  /** Whether a column of a type can carry a value. */
  predicate Carries(t: ColType, v: Value)
  {
    match t
    case U64Col => v.Num? && v.num.PosInt?
    case I64Col => v.Num? && (v.num.NegInt? || (v.num.PosInt? && v.num.n < TWO63))
    case F64Col => v.Num?
    case BoolCol => v.Bool?
    case StrCol => true
  }

  function CellBytes(lib: Lib, t: ColType, v: Value): seq<byte>
  {
    if !Carries(t, v) then []
    else match t
      case U64Col => Le(v.num.n, 8)
      case I64Col => Le(if v.num.NegInt? then v.num.m + TWO64 else v.num.n, 8)
      case F64Col => Le(if v.num.Float? then v.num.bits else lib.nearest(v.num), 8)
      case BoolCol => [if v.b then 1 else 0]
      case StrCol => TextCell(lib, v)
  }

  /** A number read from eight bytes. */
  function NumberOf(t: ColType, n: u64): Value
  {
    match t
    case I64Col => if n < TWO63 then Num(PosInt(n)) else Num(NegInt(n - TWO64))
    case F64Col => if Finite(n) then Num(Float(n)) else Null
    case _ => Num(PosInt(n))
  }

  function Word(b: seq<byte>, pos: nat): u64
    requires pos + 8 <= |b|
  {
    Widths();
    LeFromLe(b[pos..pos + 8]);
    FromLe(b[pos..pos + 8])
  }

  function ReadTextCell(lib: Lib, b: seq<byte>, pos: nat): Option<(Value, nat)>
  {
    if |b| < pos + 5 then None
    else
      var len := FromLe(b[pos + 1..pos + 5]);
      if len > MAX_VALUE_BYTES || |b| < pos + 5 + len then None
      else
        var text := b[pos + 5..pos + 5 + len];
        if !IsUtf8(text) then None
        else if b[pos] == 0 then Some((Str(text), pos + 5 + len))
        else if b[pos] != 1 then None
        else match lib.parse(text)
          case None => None
          case Some(v) => if v.Str? then None else Some((v, pos + 5 + len))
  }

  function ReadCell(lib: Lib, b: seq<byte>, t: ColType, pos: nat): Option<(Value, nat)>
  {
    match t
    case StrCol => ReadTextCell(lib, b, pos)
    case BoolCol => if |b| < pos + 1 then None else Some((Bool(b[pos] != 0), pos + 1))
    case _ => if |b| < pos + 8 then None else Some((NumberOf(t, Word(b, pos)), pos + 8))
  }

  function CellReader(lib: Lib, b: seq<byte>, t: ColType): nat -> Option<(Value, nat)>
  {
    p => ReadCell(lib, b, t, p)
  }

  function CellWriter(lib: Lib, t: ColType): Value -> seq<byte>
  {
    v => CellBytes(lib, t, v)
  }

  /** A value that a column of the type gives back as it was. */
  ghost predicate Keeps(lib: Lib, t: ColType, v: Value)
  {
    if t == StrCol then |CellText(lib, v)| <= MAX_VALUE_BYTES && (v.Str? || ComesBack(lib, v)) else CellType(v) == t
  }

  lemma WordReads(b: seq<byte>, pos: nat, n: u64)
    requires pos + 8 <= |b| && b[pos..pos + 8] == Le(n, 8)
    ensures Word(b, pos) == n
  {
    hide Le, FromLe;
    Widths();
    FromLeLe(n, 8);
  }

  lemma TextCellReads(lib: Lib, b: seq<byte>, v: Value, pos: nat)
    requires |CellText(lib, v)| <= MAX_VALUE_BYTES && (v.Str? || ComesBack(lib, v))
    requires pos + |TextCell(lib, v)| <= |b| && b[pos..pos + |TextCell(lib, v)|] == TextCell(lib, v)
    ensures ReadTextCell(lib, b, pos) == Some((v, pos + |TextCell(lib, v)|))
  {
    hide Le, FromLe, IsUtf8;
    var t, text := TextCell(lib, v), CellText(lib, v);
    assert t[0..1] == [if v.Str? then 0 else 1] && t[1..5] == Le(|text|, 4) && t[5..] == text;
    SubSlice(b, pos, t, 0, 1);
    SubSlice(b, pos, t, 1, 5);
    SubSlice(b, pos, t, 5, |t|);
    assert b[pos] == b[pos + 0..pos + 1][0];
    Widths();
    FromLeLe(|text|, 4);
  }

  lemma CellReads(lib: Lib, b: seq<byte>, t: ColType, v: Value, pos: nat)
    requires Keeps(lib, t, v)
    requires pos + |CellBytes(lib, t, v)| <= |b| && b[pos..pos + |CellBytes(lib, t, v)|] == CellBytes(lib, t, v)
    ensures ReadCell(lib, b, t, pos) == Some((v, pos + |CellBytes(lib, t, v)|))
  {
    hide TextCell, ReadTextCell, Word, Finite, ComesBack;
    match t
    case StrCol => TextCellReads(lib, b, v, pos);
    case BoolCol => assert b[pos] == b[pos..pos + 1][0];
    case U64Col => WordReads(b, pos, v.num.n);
    case I64Col => WordReads(b, pos, v.num.m + TWO64);
    case F64Col => WordReads(b, pos, v.num.bits);
  }

  /** The bytes are read, to their end, as the value: they are one way to write it. */
  predicate SpellsCell(lib: Lib, t: ColType, part: seq<byte>, v: Value)
  {
    ReadCell(lib, part, t, 0) == Some((v, |part|))
  }

  function CellSpelling(lib: Lib, t: ColType): (seq<byte>, Value) -> bool
  {
    (part, v) => SpellsCell(lib, t, part, v)
  }

  lemma WindowSlice(b: seq<byte>, p: nat, e: nat, i: nat, j: nat)
    requires p <= e <= |b| && i <= j <= e - p
    ensures b[p..e][i..j] == b[p + i..p + j]
  {
    SubSlice(b, p, b[p..e], i, j);
  }

  lemma TextCellWindow(lib: Lib, b: seq<byte>, p: nat, e: nat)
    requires p <= e <= |b|
    ensures var r := ReadTextCell(lib, b, p);
            && (r.Some? ==> p < r.value.1 <= |b|)
            && ReadTextCell(lib, b[p..e], 0) == if r.Some? && r.value.1 <= e then Some((r.value.0, r.value.1 - p)) else None
  {
    hide FromLe, IsUtf8;
    var w := b[p..e];
    if |w| >= 5 {
      WindowSlice(b, p, e, 1, 5);
      var len := FromLe(w[1..5]);
      if 5 + len <= |w| { WindowSlice(b, p, e, 5, 5 + len); }
    }
  }

  /** A cell is read from the bytes it takes, whatever stands around them. */
  lemma CellWindow(lib: Lib, b: seq<byte>, t: ColType, p: nat, e: nat)
    requires p <= e <= |b|
    ensures var r := ReadCell(lib, b, t, p);
            && (r.Some? ==> p < r.value.1 <= |b|)
            && ReadCell(lib, b[p..e], t, 0) == if r.Some? && r.value.1 <= e then Some((r.value.0, r.value.1 - p)) else None
  {
    hide ReadTextCell, NumberOf, FromLe;
    TextCellWindow(lib, b, p, e);
    if p + 8 <= e { WindowSlice(b, p, e, 0, 8); }
  }

  lemma CellsAreSpelled(lib: Lib, b: seq<byte>, t: ColType)
    ensures ReadsSpellings(CellReader(lib, b, t), CellSpelling(lib, t), b)
  {
    hide ReadCell;
    var read, spells := CellReader(lib, b, t), CellSpelling(lib, t);
    forall p: nat | read(p).Some? ensures p <= read(p).value.1 <= |b| {
      PastTheEnd(lib, b, t, p);
      CellWindow(lib, b, t, p, |b|);
    }
    forall p: nat, next: nat, v | p <= next <= |b| ensures spells(b[p..next], v) <==> read(p) == Some((v, next)) {
      CellWindow(lib, b, t, p, next);
    }
  }

  lemma PastTheEnd(lib: Lib, b: seq<byte>, t: ColType, p: nat)
    ensures ReadCell(lib, b, t, p).Some? ==> p < |b|
  {
    hide FromLe, IsUtf8, NumberOf;
  }

  // ---- Keys and types ----

  function KeyBytes(k: Text): seq<byte> { Le(|k|, 4) + k }

  function ReadKey(b: seq<byte>, pos: nat): Option<(Text, nat)>
  {
    if |b| < pos + 4 then None
    else
      var len := FromLe(b[pos..pos + 4]);
      if len > MAX_KEY_BYTES || |b| < pos + 4 + len || !IsUtf8(b[pos + 4..pos + 4 + len]) then None
      else Some((b[pos + 4..pos + 4 + len], pos + 4 + len))
  }

  function KeyReader(b: seq<byte>): nat -> Option<(Text, nat)> { p => ReadKey(b, p) }
  function KeyWriter(): Text -> seq<byte> { k => KeyBytes(k) }

  lemma KeyReadsBack(b: seq<byte>, k: Text)
    requires |k| <= MAX_KEY_BYTES
    ensures Lists.ReadsBack(KeyReader(b), KeyWriter(), b, k)
  {
    hide Le, FromLe, IsUtf8;
    forall p: nat | p + |KeyBytes(k)| <= |b| && b[p..p + |KeyBytes(k)|] == KeyBytes(k)
      ensures ReadKey(b, p) == Some((k, p + |KeyBytes(k)|))
    {
      TwoSlices(b, p, Le(|k|, 4), k);
      Widths();
      FromLeLe(|k|, 4);
    }
  }

  lemma KeyWritesBack(b: seq<byte>)
    ensures Lists.WritesBack(KeyReader(b), KeyWriter(), b)
  {
    hide Le, FromLe, IsUtf8;
    forall p: nat | ReadKey(b, p).Some?
      ensures var (k, next) := ReadKey(b, p).value; next == p + |KeyBytes(k)| <= |b| && b[p..next] == KeyBytes(k)
    {
      LeFromLe(b[p..p + 4]);
      ThreeEnds(b, p, p + 4, ReadKey(b, p).value.1);
    }
  }

  function ReadType(b: seq<byte>, pos: nat): Option<(ColType, nat)>
  {
    if |b| < pos + 1 then None
    else match TypeOfCode(b[pos]) case None => None case Some(t) => Some((t, pos + 1))
  }

  function TypeReader(b: seq<byte>): nat -> Option<(ColType, nat)> { p => ReadType(b, p) }
  function TypeWriter(): ColType -> seq<byte> { t => [TypeCode(t)] }

  lemma TypeReadsBack(b: seq<byte>, t: ColType)
    ensures Lists.ReadsBack(TypeReader(b), TypeWriter(), b, t)
  {
    forall p: nat | p + 1 <= |b| && b[p..p + 1] == [TypeCode(t)]
      ensures ReadType(b, p) == Some((t, p + 1))
    {
      assert b[p] == b[p..p + 1][0];
    }
  }

  lemma TypeWritesBack(b: seq<byte>)
    ensures Lists.WritesBack(TypeReader(b), TypeWriter(), b)
  {
    forall p: nat | ReadType(b, p).Some?
      ensures var (t, next) := ReadType(b, p).value; next == p + 1 <= |b| && b[p..next] == [TypeCode(t)]
    {
      assert b[p..p + 1] == [b[p]];
    }
  }

  lemma {:induction false} TypesLength(types: seq<ColType>)
    ensures |WriteList(TypeWriter(), types)| == |types|
  {
    if types != [] {
      TypesLength(types[..|types| - 1]);
      WriteLast(TypeWriter(), types);
    }
  }

  // ---- Columns ----

  function ColumnBytes(lib: Lib, t: ColType, col: Column): seq<byte>
  {
    WriteList(CellWriter(lib, t), col)
  }

  function ColumnsBytes(lib: Lib, types: seq<ColType>, columns: seq<Column>, k: nat): seq<byte>
    requires k <= |types| == |columns|
  {
    if k == 0 then [] else ColumnsBytes(lib, types, columns, k - 1) + ColumnBytes(lib, types[k - 1], columns[k - 1])
  }

  function ReadColumns(lib: Lib, b: seq<byte>, types: seq<ColType>, n: nat, pos: nat, k: nat): Option<(seq<Column>, nat)>
    requires k <= |types|
  {
    if k == 0 then Some(([], pos))
    else match ReadColumns(lib, b, types, n, pos, k - 1)
      case None => None
      case Some((cols, at)) =>
        match ReadList(CellReader(lib, b, types[k - 1]), at, n)
        case None => None
        case Some((col, next)) => Some((cols + [col], next))
  }

  /** Every column gives back what it holds. */
  ghost predicate KeepsAll(lib: Lib, types: seq<ColType>, columns: seq<Column>)
  {
    && |types| == |columns|
    && forall k, i :: 0 <= k < |columns| && 0 <= i < |columns[k]| ==> Keeps(lib, types[k], columns[k][i])
  }

  /** The parts, column by column, are spellings of the cells. */
  ghost predicate SpellsColumns(lib: Lib, types: seq<ColType>, parts: seq<seq<seq<byte>>>, columns: seq<Column>)
  {
    && |types| == |parts| == |columns|
    && forall k :: 0 <= k < |columns| ==> Spelled(CellSpelling(lib, types[k]), parts[k], columns[k])
  }

  /** The bytes of all the parts. */
  function Flat(parts: seq<seq<seq<byte>>>): seq<byte>
  {
    Concat(Concat(parts))
  }

  lemma FlatMore(parts: seq<seq<seq<byte>>>, column: seq<seq<byte>>)
    ensures Flat(parts + [column]) == Flat(parts) + Concat(column)
  {
    hide Concat;
    ConcatMore(parts, column);
    ConcatTwo(Concat(parts), column);
  }

  lemma {:induction false} ColumnsRead(lib: Lib, b: seq<byte>, types: seq<ColType>, parts: seq<seq<seq<byte>>>, columns: seq<Column>, n: nat, pos: nat, k: nat)
    requires SpellsColumns(lib, types, parts, columns) && k <= |columns|
    requires forall i :: 0 <= i < |columns| ==> |columns[i]| == n
    requires var w := Flat(parts[..k]); pos + |w| <= |b| && b[pos..pos + |w|] == w
    ensures ReadColumns(lib, b, types, n, pos, k) == Some((columns[..k], pos + |Flat(parts[..k])|))
  {
    hide ReadList, CellReader, CellSpelling, ReadsSpellings, Spelled, Concat;
    if k == 0 {
      ConcatNone<seq<byte>>();
      ConcatNone<byte>();
    } else {
      var w, c := Flat(parts[..k - 1]), Concat(parts[k - 1]);
      FlatMore(parts[..k - 1], parts[k - 1]);
      assert parts[..k - 1] + [parts[k - 1]] == parts[..k] && columns[..k - 1] + [columns[k - 1]] == columns[..k];
      hide Flat;
      TwoSlices(b, pos, w, c);
      ColumnsRead(lib, b, types, parts, columns, n, pos, k - 1);
      CellsAreSpelled(lib, b, types[k - 1]);
      SpelledReads(CellReader(lib, b, types[k - 1]), CellSpelling(lib, types[k - 1]), b, pos + |w|, parts[k - 1], columns[k - 1]);
    }
  }

  /** Every column read is made of cells as long as the column. */
  lemma {:induction false} ColumnsAreSpelled(lib: Lib, b: seq<byte>, types: seq<ColType>, n: nat, pos: nat, k: nat)
    returns (parts: seq<seq<seq<byte>>>)
    requires k <= |types| && pos <= |b| && ReadColumns(lib, b, types, n, pos, k).Some?
    ensures var (columns, at) := ReadColumns(lib, b, types, n, pos, k).value;
            && SpellsColumns(lib, types[..k], parts, columns) && (forall i :: 0 <= i < k ==> |columns[i]| == n)
            && pos <= at <= |b| && b[pos..at] == Flat(parts)
  {
    parts := [];
    if k > 0 {
      hide ReadList, CellReader, CellSpelling, ReadsSpellings, Spelled, Concat;
      var (columns, at) := ReadColumns(lib, b, types, n, pos, k - 1).value;
      var (column, next) := ReadList(CellReader(lib, b, types[k - 1]), at, n).value;
      assert ReadColumns(lib, b, types, n, pos, k) == Some((columns + [column], next));
      hide ReadColumns, Flat;
      var front := ColumnsAreSpelled(lib, b, types, n, pos, k - 1);
      CellsAreSpelled(lib, b, types[k - 1]);
      var last := ReadIsSpelled(CellReader(lib, b, types[k - 1]), CellSpelling(lib, types[k - 1]), b, at, n);
      parts := front + [last];
      FlatMore(front, last);
      ThreeEnds(b, pos, at, next);
      assert types[..k] == types[..k - 1] + [types[k - 1]];
    }
  }

  lemma {:induction false} SpelledLength(lib: Lib, t: ColType, parts: seq<seq<byte>>, col: Column)
    requires Spelled(CellSpelling(lib, t), parts, col)
    ensures |Concat(parts)| >= |col|
  {
    hide ReadCell;
    if col != [] {
      var n := |col| - 1;
      SpelledLength(lib, t, parts[..n], col[..n]);
      assert SpellsCell(lib, t, parts[n], col[n]);
      CellWindow(lib, parts[n], t, 0, |parts[n]|);
    }
  }

  // ---- The blob ----

  function Magic(): (r: seq<byte>)
    ensures |r| == 9
  {
    [0xB5, 0x43, 0x4F, 0x4C, 0, 0, 0, 0] + [3]
  }

  /** The checks on the shape of a table before anything is written. */
  ghost predicate Shaped(c: Table)
  {
    && 0 < |c.keys| <= 256 && |c.types| == |c.columns| == |c.keys|
    && 0 < |c.columns[0]| <= 10_000_000
    && (forall k :: 0 <= k < |c.columns| ==> |c.columns[k]| == |c.columns[0]|)
    && (forall k :: 0 <= k < |c.keys| ==> |c.keys[k]| <= 1024)
  }

  predicate Writable(lib: Lib, t: ColType, v: Value)
  {
    Carries(t, v) && (t == StrCol ==> |CellText(lib, v)| <= 0x10_0000)
  }

  ghost predicate AllWritable(lib: Lib, c: Table)
    requires |c.types| == |c.columns|
  {
    forall k, i :: 0 <= k < |c.columns| && 0 <= i < |c.columns[k]| ==> Writable(lib, c.types[k], c.columns[k][i])
  }

  function Front(c: Table): seq<byte>
  {
    Magic() + [if c.mode == Exact then 0 else 1] + Le(|c.keys|, 2)
  }

  /** The number of records, the types, and then the bytes of the cells. */
  function Body(c: Table, cells: seq<byte>): seq<byte>
    requires |c.columns| > 0
  {
    Le(|c.columns[0]|, 4) + WriteList(TypeWriter(), c.types) + cells
  }

  function Payload(lib: Lib, c: Table): seq<byte>
    requires |c.types| == |c.columns| > 0
  {
    Front(c) + WriteList(KeyWriter(), c.keys) + Body(c, ColumnsBytes(lib, c.types, c.columns, |c.columns|))
  }

  function BlobInput(payload: seq<byte>): seq<byte>
  {
    Ascii("BDLM_BUD_COLUMNAR_V1") + payload
  }

  ghost function Blob(lib: Lib, h: Hash, c: Table): Option<seq<byte>>
  {
    if Shaped(c) && AllWritable(lib, c) then Some(Payload(lib, c) + h(BlobInput(Payload(lib, c)))) else None
  }

  function ReadMode(v: byte): Option<Mode>
  {
    if v == 0 then Some(Exact) else if v == 1 then Some(OrderFree) else None
  }

  /** The part of the blob after the keys. */
  function ReadBody(lib: Lib, h: Hash, b: seq<byte>, mode: Mode, keys: seq<Text>, pos: nat): Option<Table>
  {
    if |b| < pos + 4 then None
    else
      var n := FromLe(b[pos..pos + 4]);
      var left := if |b| > pos + 4 + 32 then |b| - (pos + 4 + 32) else 0;
      if n > MAX_RECORDS || n == 0 || n > left then None
      else match ReadList(TypeReader(b), pos + 4, |keys|)
        case None => None
        case Some((types, at)) =>
          if |types| != |keys| then None
          else match ReadColumns(lib, b, types, n, at, |keys|)
            case None => None
            case Some((columns, end)) =>
              if end + 32 != |b| || h(BlobInput(b[..end])) != b[end..] then None
              else Some(Table(mode, keys, types, columns))
  }

  function FromBlob(lib: Lib, h: Hash, b: seq<byte>): Option<Table>
  {
    if |b| < 12 || b[..9] != Magic() then None
    else
      var mode, n := ReadMode(b[9]), FromLe(b[10..12]);
      if mode.None? || n == 0 || n > MAX_COLUMNS then None
      else match ReadList(KeyReader(b), 12, n)
        case None => None
        case Some((keys, pos)) => ReadBody(lib, h, b, mode.value, keys, pos)
  }

  lemma KeysRead(b: seq<byte>, pos: nat, keys: seq<Text>)
    requires forall k :: 0 <= k < |keys| ==> |keys[k]| <= MAX_KEY_BYTES
    requires var w := WriteList(KeyWriter(), keys); pos + |w| <= |b| && b[pos..pos + |w|] == w
    ensures ReadList(KeyReader(b), pos, |keys|) == Some((keys, pos + |WriteList(KeyWriter(), keys)|))
  {
    hide Lists.ReadsBack, WriteList, ReadList, KeyReader, KeyWriter;
    forall i | 0 <= i < |keys| ensures Lists.ReadsBack(KeyReader(b), KeyWriter(), b, keys[i]) { KeyReadsBack(b, keys[i]); }
    ListReads(KeyReader(b), KeyWriter(), b, pos, keys);
  }

  lemma TypesRead(b: seq<byte>, pos: nat, types: seq<ColType>)
    requires pos + |types| <= |b| && b[pos..pos + |types|] == WriteList(TypeWriter(), types)
    ensures ReadList(TypeReader(b), pos, |types|) == Some((types, pos + |types|))
  {
    TypesLength(types);
    hide Lists.ReadsBack, WriteList, ReadList, TypeReader, TypeWriter;
    forall i | 0 <= i < |types| ensures Lists.ReadsBack(TypeReader(b), TypeWriter(), b, types[i]) { TypeReadsBack(b, types[i]); }
    ListReads(TypeReader(b), TypeWriter(), b, pos, types);
  }

  lemma KeptIsWritable(lib: Lib, c: Table)
    requires Shaped(c) && KeepsAll(lib, c.types, c.columns)
    ensures AllWritable(lib, c)
  {
    hide CellText;
    forall k, i | 0 <= k < |c.columns| && 0 <= i < |c.columns[k]| ensures Writable(lib, c.types[k], c.columns[k][i]) {
      assert Keeps(lib, c.types[k], c.columns[k][i]);
    }
  }

  /** A blob of the table: its front and its keys, cells spelled in any way, and the digest of all that. */
  ghost predicate Spelling(lib: Lib, h: Hash, b: seq<byte>, c: Table, parts: seq<seq<seq<byte>>>)
  {
    && Shaped(c) && SpellsColumns(lib, c.types, parts, c.columns)
    && var p := Front(c) + WriteList(KeyWriter(), c.keys) + Body(c, Flat(parts));
       b == p + h(BlobInput(p))
  }

  lemma BodyLongEnough(lib: Lib, c: Table, parts: seq<seq<seq<byte>>>)
    requires Shaped(c) && SpellsColumns(lib, c.types, parts, c.columns)
    ensures |Flat(parts)| >= |c.columns[0]|
  {
    hide Concat, CellSpelling, Spelled;
    var last := |c.columns| - 1;
    SpelledLength(lib, c.types[last], parts[last], c.columns[last]);
    FlatMore(parts[..last], parts[last]);
    assert parts[..last] + [parts[last]] == parts;
  }

  lemma BodyReads(lib: Lib, h: Hash, c: Table, parts: seq<seq<seq<byte>>>, b: seq<byte>, pos: nat)
    requires Shaped(c) && SpellsColumns(lib, c.types, parts, c.columns)
    requires var w := Body(c, Flat(parts));
             && pos + |w| + 32 == |b| && b[pos..pos + |w|] == w && b[pos + |w|..] == h(BlobInput(b[..pos + |w|]))
    ensures ReadBody(lib, h, b, c.mode, c.keys, pos) == Some(c)
  {
    hide Le, FromLe, WriteList, ReadList, TypeReader, TypeWriter, Flat, ReadColumns, BlobInput, SpellsColumns;
    var n := |c.columns[0]|;
    var ts, cs := WriteList(TypeWriter(), c.types), Flat(parts);
    TypesLength(c.types);
    TwoSlices(b, pos, Le(n, 4) + ts, cs);
    TwoSlices(b, pos, Le(n, 4), ts);
    Widths();
    FromLeLe(n, 4);
    BodyLongEnough(lib, c, parts);
    TypesRead(b, pos + 4, c.types);
    WholeColumnsRead(lib, b, c, parts, pos + 4 + |ts|);
  }

  lemma WholeColumnsRead(lib: Lib, b: seq<byte>, c: Table, parts: seq<seq<seq<byte>>>, pos: nat)
    requires Shaped(c) && SpellsColumns(lib, c.types, parts, c.columns)
    requires pos + |Flat(parts)| <= |b| && b[pos..pos + |Flat(parts)|] == Flat(parts)
    ensures ReadColumns(lib, b, c.types, |c.columns[0]|, pos, |c.keys|) == Some((c.columns, pos + |Flat(parts)|))
  {
    hide Flat, ReadColumns;
    var k := |c.columns|;
    assert |parts| == k && parts[..k] == parts && c.columns[..k] == c.columns;
    ColumnsRead(lib, b, c.types, parts, c.columns, |c.columns[0]|, pos, k);
  }

  lemma SpellingReads(lib: Lib, h: Hash, b: seq<byte>, c: Table, parts: seq<seq<seq<byte>>>)
    requires Spelling(lib, h, b, c, parts)
    ensures FromBlob(lib, h, b) == Some(c)
  {
    hide Le, FromLe, WriteList, ReadList, KeyReader, KeyWriter, Body, ReadBody, BlobInput, SpellsColumns;
    var keys, w := WriteList(KeyWriter(), c.keys), Body(c, Flat(parts));
    var p := Front(c) + keys + w;
    var end := |p|;
    assert b[..12] == Front(c) && b[12..12 + |keys|] == keys && b[12 + |keys|..end] == w;
    assert b[..end] == p && b[end..] == h(BlobInput(p));
    assert b[..9] == Magic() && b[9] == (if c.mode == Exact then 0 else 1) && b[10..12] == Le(|c.keys|, 2);
    Widths();
    FromLeLe(|c.keys|, 2);
    KeysRead(b, 12, c.keys);
    BodyReads(lib, h, c, parts, b, 12 + |keys|);
  }

  lemma BodySpelled(lib: Lib, h: Hash, b: seq<byte>, mode: Mode, keys: seq<Text>, pos: nat, c: Table)
    returns (parts: seq<seq<seq<byte>>>)
    requires 0 < |keys| && ReadBody(lib, h, b, mode, keys, pos) == Some(c)
    ensures c.mode == mode && c.keys == keys && |keys| == |c.columns| && 0 < |c.columns[0]| <= MAX_RECORDS
    ensures forall k :: 0 <= k < |c.columns| ==> |c.columns[k]| == |c.columns[0]|
    ensures SpellsColumns(lib, c.types, parts, c.columns) && pos <= |b|
    ensures b[pos..] == Body(c, Flat(parts)) + h(BlobInput(b[..pos] + Body(c, Flat(parts))))
  {
    hide Le, FromLe, WriteList, ReadList, TypeReader, TypeWriter, Flat, ReadColumns, BlobInput, SpellsColumns;
    var n := FromLe(b[pos..pos + 4]);
    var (types, at) := ReadList(TypeReader(b), pos + 4, |keys|).value;
    var (columns, end) := ReadColumns(lib, b, types, n, at, |keys|).value;
    TypeWritesBack(b);
    ListWritten(TypeReader(b), TypeWriter(), b, pos + 4, |keys|);
    parts := ColumnsAreSpelled(lib, b, types, n, at, |keys|);
    assert types[..|keys|] == types;
    ColumnsCounted(lib, types, parts, columns);
    LeFromLe(b[pos..pos + 4]);
    ThreeEnds(b, pos, pos + 4, at);
    ThreeEnds(b, pos, at, end);
    ThreeEnds(b, pos, end, |b|);
    assert b[..end] == b[..pos] + b[pos..end] && b[pos..] == b[pos..|b|];
  }

  lemma ColumnsCounted(lib: Lib, types: seq<ColType>, parts: seq<seq<seq<byte>>>, columns: seq<Column>)
    requires SpellsColumns(lib, types, parts, columns)
    ensures |types| == |parts| == |columns|
  {}

  lemma KeysSpelled(b: seq<byte>, pos: nat, n: nat)
    requires pos <= |b| && ReadList(KeyReader(b), pos, n).Some?
    ensures var (keys, at) := ReadList(KeyReader(b), pos, n).value;
            && |keys| == n && pos <= at <= |b| && b[pos..at] == WriteList(KeyWriter(), keys)
            && forall k :: 0 <= k < n ==> |keys[k]| <= MAX_KEY_BYTES
  {
    hide ReadList, WriteList, IsUtf8, FromLe;
    KeyWritesBack(b);
    ListWritten(KeyReader(b), KeyWriter(), b, pos, n);
    ListAll(KeyReader(b), (k: Text) => |k| <= MAX_KEY_BYTES, pos, n);
  }

  lemma BlobSpelled(lib: Lib, h: Hash, b: seq<byte>, c: Table) returns (parts: seq<seq<seq<byte>>>)
    requires FromBlob(lib, h, b) == Some(c)
    ensures Spelling(lib, h, b, c, parts)
  {
    hide Le, FromLe, WriteList, ReadList, KeyReader, KeyWriter, Body, Flat, ReadBody, BlobInput, SpellsColumns;
    var mode, n := ReadMode(b[9]), FromLe(b[10..12]);
    var (keys, pos) := ReadList(KeyReader(b), 12, n).value;
    KeysSpelled(b, 12, n);
    parts := BodySpelled(lib, h, b, mode.value, keys, pos, c);
    ColumnsCounted(lib, c.types, parts, c.columns);
    LeFromLe(b[10..12]);
    assert b[..12] == b[..9] + [b[9]] + b[10..12] == Front(c);
    assert b[..pos] == b[..12] + b[12..pos] && b == b[..pos] + b[pos..];
  }

  /**
   Read as a table are exactly its spellings: nothing else is accepted, and of a table's cells only
   the way they are written is free.
   */
  lemma BlobExactly(lib: Lib, h: Hash, b: seq<byte>, c: Table)
    ensures FromBlob(lib, h, b) == Some(c) <==> exists parts :: Spelling(lib, h, b, c, parts)
  {
    hide FromBlob, Spelling;
    if FromBlob(lib, h, b) == Some(c) { var parts := BlobSpelled(lib, h, b, c); }
    if parts :| Spelling(lib, h, b, c, parts) { SpellingReads(lib, h, b, c, parts); }
  }

  // ---- The blob that is written ----

  /** The cells as the writer spells them. */
  function CellParts(lib: Lib, types: seq<ColType>, columns: seq<Column>): seq<seq<seq<byte>>>
    requires |types| == |columns|
  {
    seq(|columns|, k requires 0 <= k < |columns| => Written(CellWriter(lib, types[k]), columns[k]))
  }

  lemma {:induction false} WrittenParts(lib: Lib, types: seq<ColType>, columns: seq<Column>, k: nat)
    requires k <= |types| == |columns|
    ensures Flat(CellParts(lib, types, columns)[..k]) == ColumnsBytes(lib, types, columns, k)
  {
    hide Concat, Written, CellWriter;
    var parts := CellParts(lib, types, columns);
    if k == 0 {
      ConcatNone<seq<byte>>();
      ConcatNone<byte>();
    } else {
      WrittenParts(lib, types, columns, k - 1);
      FlatMore(parts[..k - 1], parts[k - 1]);
      assert parts[..k - 1] + [parts[k - 1]] == parts[..k];
    }
  }

  lemma KeptIsSpelled(lib: Lib, types: seq<ColType>, columns: seq<Column>)
    requires KeepsAll(lib, types, columns)
    ensures SpellsColumns(lib, types, CellParts(lib, types, columns), columns)
  {
    hide Keeps, CellBytes, ReadCell;
    forall k, i | 0 <= k < |columns| && 0 <= i < |columns[k]|
      ensures CellSpelling(lib, types[k])(CellBytes(lib, types[k], columns[k][i]), columns[k][i])
    {
      CellReads(lib, CellBytes(lib, types[k], columns[k][i]), types[k], columns[k][i], 0);
    }
  }

  /** A table whose columns keep their values is written, and read back as it was. */
  lemma BlobReads(lib: Lib, h: Hash, c: Table)
    requires Shaped(c) && KeepsAll(lib, c.types, c.columns)
    ensures Blob(lib, h, c).Some? && FromBlob(lib, h, Blob(lib, h, c).value) == Some(c)
  {
    hide Front, WriteList, KeyWriter, Body, Flat, ColumnsBytes, BlobInput, FromBlob, KeepsAll, AllWritable, SpellsColumns;
    KeptIsWritable(lib, c);
    KeptIsSpelled(lib, c.types, c.columns);
    var parts := CellParts(lib, c.types, c.columns);
    WrittenParts(lib, c.types, c.columns, |c.columns|);
    assert parts[..|c.columns|] == parts;
    SpellingReads(lib, h, Blob(lib, h, c).value, c, parts);
  }

  /** However a written cell is read, it is read to its end. */
  lemma WrittenExtent(lib: Lib, b: seq<byte>, t: ColType, v: Value, pos: nat)
    requires Writable(lib, t, v)
    requires pos + |CellBytes(lib, t, v)| <= |b| && b[pos..pos + |CellBytes(lib, t, v)|] == CellBytes(lib, t, v)
    ensures ReadCell(lib, b, t, pos).Some? ==> ReadCell(lib, b, t, pos).value.1 == pos + |CellBytes(lib, t, v)|
  {
    hide Le, FromLe, IsUtf8, NumberOf;
    if t == StrCol {
      var c, text := TextCell(lib, v), CellText(lib, v);
      assert c[1..5] == Le(|text|, 4);
      SubSlice(b, pos, c, 1, 5);
      Widths();
      FromLeLe(|text|, 4);
    }
  }

  /** The writer's own bytes are a spelling of every cell. */
  ghost predicate OwnSpelling(lib: Lib, t: ColType, col: Column)
  {
    forall i :: 0 <= i < |col| ==> SpellsCell(lib, t, CellBytes(lib, t, col[i]), col[i])
  }

  lemma {:induction false} OwnColumn(lib: Lib, b: seq<byte>, t: ColType, col: Column, pos: nat)
    requires forall i :: 0 <= i < |col| ==> Writable(lib, t, col[i])
    requires pos + |ColumnBytes(lib, t, col)| <= |b| && b[pos..pos + |ColumnBytes(lib, t, col)|] == ColumnBytes(lib, t, col)
    requires ReadList(CellReader(lib, b, t), pos, |col|).Some? && ReadList(CellReader(lib, b, t), pos, |col|).value.0 == col
    ensures ReadList(CellReader(lib, b, t), pos, |col|).value.1 == pos + |ColumnBytes(lib, t, col)|
    ensures OwnSpelling(lib, t, col)
  {
    hide WriteList, ReadCell, Writable, CellBytes;
    if col == [] {
      NothingRead(CellReader(lib, b, t), CellWriter(lib, t), pos);
    } else {
      var n := |col| - 1;
      var front, last := col[..n], CellBytes(lib, t, col[n]);
      var (items, at) := ReadList(CellReader(lib, b, t), pos, n).value;
      WriteLast(CellWriter(lib, t), col);
      TwoSlices(b, pos, ColumnBytes(lib, t, front), last);
      ListCount(CellReader(lib, b, t), pos, n);
      assert items == (items + [col[n]])[..n] == front;
      OwnColumn(lib, b, t, front, pos);
      WrittenExtent(lib, b, t, col[n], at);
      CellWindow(lib, b, t, at, at + |last|);
      forall i | 0 <= i < |col| ensures SpellsCell(lib, t, CellBytes(lib, t, col[i]), col[i]) {
        if i < n { assert front[i] == col[i]; }
      }
    }
  }

  lemma ColumnsLast(lib: Lib, b: seq<byte>, c: Table, pos: nat, k: nat)
    requires Shaped(c) && 0 < k <= |c.columns|
    requires var r := ReadColumns(lib, b, c.types, |c.columns[0]|, pos, k); r.Some? && r.value.0 == c.columns[..k]
    ensures var n := |c.columns[0]|;
            var r := ReadColumns(lib, b, c.types, n, pos, k - 1);
            && r.Some? && r.value.0 == c.columns[..k - 1]
            && var l := ReadList(CellReader(lib, b, c.types[k - 1]), r.value.1, n);
               l.Some? && l.value.0 == c.columns[k - 1] && ReadColumns(lib, b, c.types, n, pos, k).value.1 == l.value.1
  {
    hide ReadList, CellReader;
    var n := |c.columns[0]|;
    var (columns, at) := ReadColumns(lib, b, c.types, n, pos, k - 1).value;
    var (column, _) := ReadList(CellReader(lib, b, c.types[k - 1]), at, n).value;
    ColumnsCount(lib, b, c.types, n, pos, k - 1);
    assert columns == (columns + [column])[..k - 1] == c.columns[..k][..k - 1] == c.columns[..k - 1];
    assert column == (columns + [column])[k - 1] == c.columns[..k][k - 1];
  }

  lemma ColumnWritable(lib: Lib, c: Table, k: nat)
    requires |c.types| == |c.columns| && AllWritable(lib, c) && k < |c.columns|
    ensures forall i :: 0 <= i < |c.columns[k]| ==> Writable(lib, c.types[k], c.columns[k][i])
  {
    hide Writable;
  }

  lemma {:induction false} OwnColumns(lib: Lib, b: seq<byte>, c: Table, pos: nat, k: nat)
    requires Shaped(c) && AllWritable(lib, c) && k <= |c.columns|
    requires var w := ColumnsBytes(lib, c.types, c.columns, k); pos + |w| <= |b| && b[pos..pos + |w|] == w
    requires var r := ReadColumns(lib, b, c.types, |c.columns[0]|, pos, k); r.Some? && r.value.0 == c.columns[..k]
    ensures ReadColumns(lib, b, c.types, |c.columns[0]|, pos, k).value.1 == pos + |ColumnsBytes(lib, c.types, c.columns, k)|
    ensures forall j :: 0 <= j < k ==> OwnSpelling(lib, c.types[j], c.columns[j])
  {
    hide ColumnBytes, ReadList, CellReader, AllWritable, OwnSpelling;
    if k > 0 {
      TwoSlices(b, pos, ColumnsBytes(lib, c.types, c.columns, k - 1), ColumnBytes(lib, c.types[k - 1], c.columns[k - 1]));
      ColumnsLast(lib, b, c, pos, k);
      hide ReadColumns;
      OwnColumns(lib, b, c, pos, k - 1);
      ColumnWritable(lib, c, k - 1);
      hide Writable;
      OwnColumn(lib, b, c.types[k - 1], c.columns[k - 1], pos + |ColumnsBytes(lib, c.types, c.columns, k - 1)|);
    }
  }

  lemma OwnText(lib: Lib, v: Value)
    requires Writable(lib, StrCol, v) && SpellsCell(lib, StrCol, CellBytes(lib, StrCol, v), v)
    ensures v.Str? || ComesBack(lib, v)
  {
    hide Le, FromLe, IsUtf8;
    var c, text := TextCell(lib, v), CellText(lib, v);
    assert c[1..5] == Le(|text|, 4) && c[5..] == text;
    Widths();
    FromLeLe(|text|, 4);
    assert c[5..5 + |text|] == text;
  }

  lemma OwnBody(lib: Lib, h: Hash, c: Table, b: seq<byte>, pos: nat)
    requires Shaped(c) && AllWritable(lib, c) && ReadBody(lib, h, b, c.mode, c.keys, pos) == Some(c)
    requires var w := Body(c, ColumnsBytes(lib, c.types, c.columns, |c.columns|)); pos + |w| <= |b| && b[pos..pos + |w|] == w
    ensures TextsComeBack(lib, c)
  {
    hide Le, FromLe, WriteList, ReadList, TypeReader, TypeWriter, ReadColumns, ColumnsBytes, BlobInput, AllWritable, SpellsCell, CellBytes;
    var n, k := |c.columns[0]|, |c.columns|;
    var ts, cs := WriteList(TypeWriter(), c.types), ColumnsBytes(lib, c.types, c.columns, k);
    TypesLength(c.types);
    TwoSlices(b, pos, Le(n, 4) + ts, cs);
    TwoSlices(b, pos, Le(n, 4), ts);
    Widths();
    FromLeLe(n, 4);
    TypesRead(b, pos + 4, c.types);
    assert c.columns[..k] == c.columns;
    OwnColumns(lib, b, c, pos + 4 + |ts|, k);
    forall j, i | 0 <= j < |c.columns| && 0 <= i < |c.columns[j]| && c.types[j] == StrCol
      ensures c.columns[j][i].Str? || ComesBack(lib, c.columns[j][i])
    {
      ColumnWritable(lib, c, j);
      assert OwnSpelling(lib, c.types[j], c.columns[j]);
      OwnText(lib, c.columns[j][i]);
    }
  }

  /** A table that comes back from its own blob holds only texts that come back. */
  lemma OwnBlob(lib: Lib, h: Hash, c: Table)
    requires Blob(lib, h, c).Some? && FromBlob(lib, h, Blob(lib, h, c).value) == Some(c)
    ensures TextsComeBack(lib, c)
  {
    hide Le, FromLe, WriteList, ReadList, KeyReader, KeyWriter, Body, ReadBody, BlobInput, AllWritable, TextsComeBack;
    var b := Blob(lib, h, c).value;
    var keys, w := WriteList(KeyWriter(), c.keys), Body(c, ColumnsBytes(lib, c.types, c.columns, |c.columns|));
    assert b[12..12 + |keys|] == keys && b[12 + |keys|..12 + |keys| + |w|] == w;
    assert b[..9] == Magic() && b[9] == (if c.mode == Exact then 0 else 1) && b[10..12] == Le(|c.keys|, 2);
    Widths();
    FromLeLe(|c.keys|, 2);
    KeysRead(b, 12, c.keys);
    OwnBody(lib, h, c, b, 12 + |keys|);
  }

  // ---- From records to columns ----

  /** The order the records are taken in: as they stand, or as they were sorted. */
  ghost predicate IsOrder(order: seq<nat>, n: nat)
  {
    |order| == n && Distinct(order) && forall i :: 0 <= i < n ==> order[i] < n
  }

  /** The records of an array that can be made into columns: objects with one set of keys. */
  ghost predicate Regular(records: seq<Value>)
  {
    && 0 < |records| <= MAX_RECORDS
    && (forall i :: 0 <= i < |records| ==> records[i].Obj?)
    && var keys := Keys(records[0].entries);
       && 0 < |keys| <= MAX_COLUMNS
       && (forall k :: 0 <= k < |keys| ==> |keys[k]| <= MAX_KEY_BYTES)
       && forall i :: 0 <= i < |records| ==> multiset(Keys(records[i].entries)) == multiset(keys)
  }

  lemma KeyInEvery(records: seq<Value>, i: nat, k: Text)
    requires Regular(records) && i < |records|
    ensures k in Keys(records[i].entries) <==> k in Keys(records[0].entries)
  {
    var a, b := Keys(records[i].entries), Keys(records[0].entries);
    assert k in a <==> k in multiset(a);
    assert k in b <==> k in multiset(b);
  }

  /** The value of a record under a key of the first. */
  ghost function CellOf(records: seq<Value>, i: nat, k: nat): Value
    requires Regular(records) && i < |records| && k < |records[0].entries|
  {
    var key := Keys(records[0].entries)[k];
    KeyInEvery(records, i, key);
    Get(records[i].entries, key).value
  }

  ghost function ColumnOf(records: seq<Value>, order: seq<nat>, k: nat): (r: Column)
    requires Regular(records) && IsOrder(order, |records|) && k < |records[0].entries|
    ensures |r| == |order|
  {
    seq(|order|, i requires 0 <= i < |order| => CellOf(records, order[i], k))
  }

  /** The type of a column: the type all of its values ask for, or text. */
  ghost function TypeOf(col: Column): ColType
    requires col != []
  {
    if forall i :: 0 <= i < |col| ==> CellType(col[i]) == CellType(col[0]) then CellType(col[0]) else StrCol
  }

  ghost function TableOf(mode: Mode, records: seq<Value>, order: seq<nat>): (c: Table)
    requires Regular(records) && IsOrder(order, |records|)
    ensures |c.types| == |c.columns| == |c.keys| == |records[0].entries|
  {
    var n := |records[0].entries|;
    Table(mode, Keys(records[0].entries),
          seq(n, k requires 0 <= k < n => TypeOf(ColumnOf(records, order, k))),
          seq(n, k requires 0 <= k < n => ColumnOf(records, order, k)))
  }

  ghost predicate SmallCells(lib: Lib, c: Table)
  {
    forall k, i :: 0 <= k < |c.columns| && 0 <= i < |c.columns[k]| ==> |CellText(lib, c.columns[k][i])| <= MAX_VALUE_BYTES
  }

  /** What the encoder makes of a text, with the records taken in a given order. */
  ghost function Encoding(lib: Lib, d: seq<byte>, mode: Mode, order: seq<nat>): Option<Table>
  {
    if |d| > MAX_TEXT_BYTES then None
    else match lib.parse(d)
      case Some(Arr(records)) =>
        if Regular(records) && IsOrder(order, |records|) && SmallCells(lib, TableOf(mode, records, order))
        then Some(TableOf(mode, records, order)) else None
      case _ => None
  }

  /** The values in text columns that are not strings come back from the library's text. */
  ghost predicate TextsComeBack(lib: Lib, c: Table)
    requires |c.types| == |c.columns|
  {
    forall k, i :: 0 <= k < |c.columns| && 0 <= i < |c.columns[k]| && c.types[k] == StrCol ==>
      c.columns[k][i].Str? || ComesBack(lib, c.columns[k][i])
  }

  lemma TableKeeps(lib: Lib, mode: Mode, records: seq<Value>, order: seq<nat>)
    requires Regular(records) && IsOrder(order, |records|) && SmallCells(lib, TableOf(mode, records, order))
    ensures var c := TableOf(mode, records, order);
            Shaped(c) && (TextsComeBack(lib, c) <==> KeepsAll(lib, c.types, c.columns))
  {
    hide CellText, CellOf, CellType, ComesBack;
    var c := TableOf(mode, records, order);
    forall k, i | 0 <= k < |c.columns| && 0 <= i < |c.columns[k]|
      ensures c.types[k] != StrCol ==> CellType(c.columns[k][i]) == c.types[k]
    {
      assert c.types[k] == TypeOf(c.columns[k]);
    }
  }

  /**
   Whatever the encoder accepts is stored, and it is read back unchanged just when the library
   reads back what it writes for the values in text columns that are not strings.
   */
  lemma EncodedIsStored(lib: Lib, h: Hash, d: seq<byte>, mode: Mode, order: seq<nat>)
    requires Encoding(lib, d, mode, order).Some?
    ensures var c := Encoding(lib, d, mode, order).value;
            Blob(lib, h, c).Some? && (FromBlob(lib, h, Blob(lib, h, c).value) == Some(c) <==> TextsComeBack(lib, c))
  {
    hide FromBlob, TableOf, SmallCells, TextsComeBack, KeepsAll, Shaped, AllWritable;
    var records := lib.parse(d).value.items;
    var c := TableOf(mode, records, order);
    TableKeeps(lib, mode, records, order);
    TableIsWritable(lib, mode, records, order);
    if TextsComeBack(lib, c) { BlobReads(lib, h, c); }
    if FromBlob(lib, h, Blob(lib, h, c).value) == Some(c) { OwnBlob(lib, h, c); }
  }

  lemma TableIsWritable(lib: Lib, mode: Mode, records: seq<Value>, order: seq<nat>)
    requires Regular(records) && IsOrder(order, |records|) && SmallCells(lib, TableOf(mode, records, order))
    ensures AllWritable(lib, TableOf(mode, records, order))
  {
    hide CellText, CellOf, Regular, IsOrder;
    var c := TableOf(mode, records, order);
    forall k, i | 0 <= k < |c.columns| && 0 <= i < |c.columns[k]| ensures Writable(lib, c.types[k], c.columns[k][i]) {
      assert c.types[k] == TypeOf(c.columns[k]);
    }
  }

  // ---- From columns to records ----

  /** The first k entries of a row, written key by key. */
  function RowOf(c: Table, r: nat, k: nat): seq<Entry>
    requires k <= |c.keys| <= |c.columns| && forall i :: 0 <= i < |c.columns| ==> r < |c.columns[i]|
  {
    if k == 0 then [] else Insert(RowOf(c, r, k - 1), c.keys[k - 1], c.columns[k - 1][r])
  }

  lemma {:induction false} RowIsUnique(c: Table, r: nat, k: nat)
    requires k <= |c.keys| <= |c.columns| && forall i :: 0 <= i < |c.columns| ==> r < |c.columns[i]|
    ensures Distinct(Keys(RowOf(c, r, k)))
  {
    hide Insert, RowOf, Distinct, Keys;
    if k == 0 {
      NoEntries(c, r);
    } else {
      RowIsUnique(c, r, k - 1);
      RowMore(c, r, k);
      InsertKeepsUnique(RowOf(c, r, k - 1), c.keys[k - 1], c.columns[k - 1][r]);
    }
  }

  lemma NoEntries(c: Table, r: nat)
    requires |c.keys| <= |c.columns| && forall i :: 0 <= i < |c.columns| ==> r < |c.columns[i]|
    ensures RowOf(c, r, 0) == [] && Distinct(Keys(RowOf(c, r, 0)))
  {}

  lemma RowMore(c: Table, r: nat, k: nat)
    requires 0 < k <= |c.keys| <= |c.columns| && forall i :: 0 <= i < |c.columns| ==> r < |c.columns[i]|
    ensures RowOf(c, r, k) == Insert(RowOf(c, r, k - 1), c.keys[k - 1], c.columns[k - 1][r])
  {
    hide Insert;
  }

  function RowsOf(c: Table, n: nat): (r: seq<Value>)
    requires |c.keys| <= |c.columns| && forall i :: 0 <= i < |c.columns| ==> n <= |c.columns[i]|
    ensures |r| == n
  {
    seq(n, r requires 0 <= r < n =>
      RowIsUnique(c, r, |c.keys|);
      Obj(RowOf(c, r, |c.keys|)))
  }

  /** There are rows: columns, not empty and of one length. */
  predicate HasRows(c: Table)
  {
    c.columns != [] && c.columns[0] != [] && forall i :: 0 <= i < |c.columns| ==> |c.columns[i]| == |c.columns[0]|
  }

  function Decoding(lib: Lib, c: Table): Option<seq<byte>>
    requires HasRows(c) ==> |c.keys| <= |c.columns|
  {
    if !HasRows(c) then None
    else
      var out := lib.show(Arr(RowsOf(c, |c.columns[0]|)));
      if |out| > MAX_TEXT_BYTES then None else Some(out)
  }

  /** A record with its entries in the order of the first record's keys. */
  ghost function Arranged(records: seq<Value>, i: nat): (r: Unique<Value>)
    requires Regular(records) && i < |records|
    ensures |r| == |records[0].entries|
  {
    var r := seq(|records[0].entries|, k requires 0 <= k < |records[0].entries| =>
      Entry(Keys(records[0].entries)[k], CellOf(records, i, k)));
    assert Keys(r) == Keys(records[0].entries);
    r
  }

  ghost function Rebuilt(records: seq<Value>, order: seq<nat>): (r: seq<Value>)
    requires Regular(records) && IsOrder(order, |records|)
    ensures |r| == |records|
  {
    seq(|order|, i requires 0 <= i < |order| => Obj(Arranged(records, order[i])))
  }

  /** The first k entries of a row of the table are those of the arranged record. */
  ghost predicate RowArranged(mode: Mode, records: seq<Value>, order: seq<nat>, r: nat, k: nat)
    requires Regular(records) && IsOrder(order, |records|) && r < |order| && k <= |records[0].entries|
  {
    TableShape(mode, records, order);
    RowOf(TableOf(mode, records, order), r, k) == Arranged(records, order[r])[..k]
  }

  lemma RowStep(mode: Mode, records: seq<Value>, order: seq<nat>, r: nat, k: nat)
    requires Regular(records) && IsOrder(order, |records|) && r < |order| && k < |records[0].entries|
    requires RowArranged(mode, records, order, r, k)
    ensures RowArranged(mode, records, order, r, k + 1)
  {
    TableShape(mode, records, order);
    NextKeyIsNew(records, order[r], k);
    CellInTable(mode, records, order, r, k);
    hide CellOf, Regular, TableOf, Arranged, Insert, IsOrder, Distinct, Keys, RowOf;
    var c, a := TableOf(mode, records, order), Arranged(records, order[r]);
    RowMore(c, r, k + 1);
    InsertNew(a[..k], c.keys[k], c.columns[k][r]);
    assert a[..k + 1] == a[..k] + [a[k]];
  }

  lemma RowStarts(mode: Mode, records: seq<Value>, order: seq<nat>, r: nat)
    requires Regular(records) && IsOrder(order, |records|) && r < |order|
    ensures RowArranged(mode, records, order, r, 0)
  {
    TableShape(mode, records, order);
    hide Regular, TableOf, IsOrder;
    NoEntries(TableOf(mode, records, order), r);
  }

  lemma {:induction false} RowIsArranged(mode: Mode, records: seq<Value>, order: seq<nat>, r: nat, k: nat)
    requires Regular(records) && IsOrder(order, |records|) && r < |order| && k <= |records[0].entries|
    ensures RowArranged(mode, records, order, r, k)
  {
    hide Regular, IsOrder, RowArranged;
    if k == 0 {
      RowStarts(mode, records, order, r);
    } else {
      RowIsArranged(mode, records, order, r, k - 1);
      RowStep(mode, records, order, r, k - 1);
    }
  }

  lemma TableShape(mode: Mode, records: seq<Value>, order: seq<nat>)
    requires Regular(records) && IsOrder(order, |records|)
    ensures var c := TableOf(mode, records, order);
            && c.keys == Keys(records[0].entries) && |c.columns| == |c.keys|
            && forall k :: 0 <= k < |c.columns| ==> |c.columns[k]| == |order|
  {
    hide CellOf, TypeOf, Regular;
  }

  lemma CellInTable(mode: Mode, records: seq<Value>, order: seq<nat>, r: nat, k: nat)
    requires Regular(records) && IsOrder(order, |records|) && r < |order| && k < |records[0].entries|
    ensures var c := TableOf(mode, records, order);
            && c.columns[k][r] == CellOf(records, order[r], k)
            && Arranged(records, order[r])[k] == Entry(c.keys[k], c.columns[k][r])
  {
    hide CellOf, TypeOf, Regular;
  }

  lemma NextKeyIsNew(records: seq<Value>, i: nat, k: nat)
    requires Regular(records) && i < |records| && k < |records[0].entries|
    ensures Keys(records[0].entries)[k] !in Keys(Arranged(records, i)[..k])
  {
    hide CellOf;
    var a, keys := Arranged(records, i), Keys(records[0].entries);
    assert forall j :: 0 <= j < k ==> Keys(a[..k])[j] == keys[j];
  }

  /** The rebuilt record is the same map as the original one. */
  lemma SameRecord(records: seq<Value>, i: nat, key: Text)
    requires Regular(records) && i < |records|
    ensures Get(Arranged(records, i), key) == Get(records[i].entries, key)
  {
    var a, keys := Arranged(records, i), Keys(records[0].entries);
    assert Keys(a) == keys;
    KeyInEvery(records, i, key);
    if key in keys {
      var k :| 0 <= k < |keys| && keys[k] == key;
      GetAt(a, k);
    }
  }

  /** What comes back is the array of the same records, in the order they were taken in, written compactly. */
  lemma RecordsComeBack(lib: Lib, d: seq<byte>, mode: Mode, order: seq<nat>)
    requires Encoding(lib, d, mode, order).Some?
    ensures var records := lib.parse(d).value.items;
            var out := lib.show(Arr(Rebuilt(records, order)));
            Decoding(lib, Encoding(lib, d, mode, order).value) == if |out| > MAX_TEXT_BYTES then None else Some(out)
  {
    hide CellOf, TypeOf, SmallCells, Regular;
    var records := lib.parse(d).value.items;
    var c := TableOf(mode, records, order);
    RegularShape(records);
    forall r | 0 <= r < |order| ensures RowsOf(c, |order|)[r] == Rebuilt(records, order)[r] {
      var a := Arranged(records, order[r]);
      RowIsArranged(mode, records, order, r, |c.keys|);
      assert a[..|c.keys|] == a;
    }
    assert RowsOf(c, |order|) == Rebuilt(records, order);
  }

  lemma RegularShape(records: seq<Value>)
    requires Regular(records)
    ensures |records| > 0 && records[0].Obj? && |records[0].entries| > 0
  {}

  function AsTheyStand(n: nat): (r: seq<nat>)
    ensures IsOrder(r, n)
  {
    seq<nat>(n, (i: nat) => i)
  }

  /** The first record's keys, in its order, in every record. */
  ghost predicate UniformKeys(records: seq<Value>)
  {
    forall i :: 0 <= i < |records| ==> records[0].Obj? && records[i].Obj? && Keys(records[i].entries) == Keys(records[0].entries)
  }

  lemma UniformIsRebuilt(records: seq<Value>)
    requires Regular(records)
    ensures Rebuilt(records, AsTheyStand(|records|)) == records <==> UniformKeys(records)
  {
    var all := Rebuilt(records, AsTheyStand(|records|));
    if all == records {
      forall i | 0 <= i < |records| ensures Keys(records[i].entries) == Keys(records[0].entries) {
        assert records[i] == Obj(Arranged(records, i));
        assert Keys(Arranged(records, i)) == Keys(records[0].entries);
      }
    }
    if UniformKeys(records) {
      forall i | 0 <= i < |records| ensures all[i] == records[i] {
        UniformRecord(records, i);
      }
    }
  }

  lemma UniformRecord(records: seq<Value>, i: nat)
    requires Regular(records) && UniformKeys(records) && i < |records|
    ensures Arranged(records, i) == records[i].entries
  {
    var e := records[i].entries;
    forall k | 0 <= k < |e| ensures Arranged(records, i)[k] == e[k] {
      assert Keys(e)[k] == Keys(records[0].entries)[k];
      GetAt(e, k);
    }
  }

  /** The array that is written when a text is decoded again. */
  ghost function Again(lib: Lib, d: seq<byte>): Value
  {
    match lib.parse(d)
    case Some(Arr(records)) => if Regular(records) then Arr(Rebuilt(records, AsTheyStand(|records|))) else Null
    case _ => Null
  }

  /** Compact text of an array all of whose records list their keys in one order. */
  ghost predicate Plain(lib: Lib, d: seq<byte>)
  {
    match lib.parse(d)
    case Some(Arr(records)) => d == lib.show(Arr(records)) && UniformKeys(records)
    case _ => false
  }

  /** The table of a text in exact mode. */
  ghost function ExactTable(lib: Lib, d: seq<byte>): Option<Table>
  {
    match lib.parse(d)
    case Some(Arr(records)) => Encoding(lib, d, Exact, AsTheyStand(|records|))
    case _ => None
  }

  // ---- The table of a text, written out ----

  /** Records that can be made into columns: objects, with the same few and short keys, and no oversized value. */
  ghost predicate CanBeTable(lib: Lib, records: seq<Value>)
  {
    && 0 < |records| <= 10_000_000 && (forall i :: 0 <= i < |records| ==> records[i].Obj?)
    && 0 < |records[0].entries| <= 256
    && (forall k :: 0 <= k < |records[0].entries| ==> |records[0].entries[k].key| <= 1024)
    && (forall i :: 0 <= i < |records| ==> SameKeys(records[i].entries, records[0].entries))
    && forall i :: 0 <= i < |records| ==> SmallValues(lib, records[i].entries)
  }

  ghost predicate SameKeys(a: seq<Entry>, b: seq<Entry>)
  {
    forall key: Text :: Get(a, key).Some? <==> Get(b, key).Some?
  }

  ghost predicate SmallValues(lib: Lib, a: seq<Entry>)
  {
    forall key: Text :: Get(a, key).Some? ==> |CellText(lib, Get(a, key).value)| <= 1024 * 1024
  }

  /** A column for every key of the first record, with each record's value under it; of one type, or of text. */
  ghost predicate HoldsRecords(c: Table, records: seq<Value>)
    requires 0 < |records| && forall i :: 0 <= i < |records| ==> records[i].Obj?
  {
    && |c.keys| == |c.types| == |c.columns| == |records[0].entries|
    && forall k :: 0 <= k < |c.keys| ==>
         && c.keys[k] == records[0].entries[k].key && |c.columns[k]| == |records|
         && (forall i :: 0 <= i < |records| ==> Get(records[i].entries, c.keys[k]) == Some(c.columns[k][i]))
         && if forall i :: 0 <= i < |records| ==> CellType(c.columns[k][i]) == CellType(c.columns[k][0])
            then c.types[k] == CellType(c.columns[k][0]) else c.types[k] == StrCol
  }

  lemma KeyFound(entries: seq<Entry>, k: Text)
    ensures k in Keys(entries) <==> Get(entries, k).Some?
  {}

  lemma RegularExactly(lib: Lib, records: seq<Value>)
    ensures CanBeTable(lib, records) ==> Regular(records)
    ensures Regular(records) ==> (CanBeTable(lib, records) <==> SmallCells(lib, TableOf(Exact, records, AsTheyStand(|records|))))
  {
    if 0 < |records| && forall i :: 0 <= i < |records| ==> records[i].Obj? {
      forall i | 0 <= i < |records|
        ensures multiset(Keys(records[i].entries)) == multiset(Keys(records[0].entries)) <==> SameKeys(records[i].entries, records[0].entries)
      {
        SameKeysOf(records[i].entries, records[0].entries);
      }
      hide SmallValues, SmallCells, Distinct, SameKeys, TableOf;
      var entries := records[0].entries;
      assert forall k :: 0 <= k < |entries| ==> Keys(entries)[k] == entries[k].key;
      if Regular(records) { SmallExactly(lib, records); }
    }
  }

  lemma SameKeysOf(a: Unique<Value>, b: Unique<Value>)
    ensures multiset(Keys(a)) == multiset(Keys(b)) <==> SameKeys(a, b)
  {
    SameElements(Keys(a), Keys(b));
    hide Get, Distinct, Keys;
    if multiset(Keys(a)) == multiset(Keys(b)) {
      forall key: Text ensures Get(a, key).Some? <==> Get(b, key).Some? {
        assert key in Keys(a) <==> key in Keys(b);
      }
    }
    if SameKeys(a, b) {
      forall key | key in Keys(a) || key in Keys(b) ensures key in Keys(a) && key in Keys(b) {
        assert Get(a, key).Some? <==> Get(b, key).Some?;
      }
    }
  }

  /** No value of a record is oversized exactly when no cell of the table is. */
  lemma SmallExactly(lib: Lib, records: seq<Value>)
    requires Regular(records)
    ensures SmallCells(lib, TableOf(Exact, records, AsTheyStand(|records|))) <==>
            forall i :: 0 <= i < |records| ==> SmallValues(lib, records[i].entries)
  {
    RecordsAreObjects(records);
    hide Regular, SmallValues, SmallCells, TableOf;
    var c := TableOf(Exact, records, AsTheyStand(|records|));
    if SmallCells(lib, c) {
      forall i | 0 <= i < |records| ensures SmallValues(lib, records[i].entries) { CellsSmall(lib, records, i); }
    }
    if forall i :: 0 <= i < |records| ==> SmallValues(lib, records[i].entries) { ValuesSmall(lib, records); }
  }

  lemma CellsSmall(lib: Lib, records: seq<Value>, i: nat)
    requires Regular(records) && i < |records| && SmallCells(lib, TableOf(Exact, records, AsTheyStand(|records|)))
    ensures SmallValues(lib, records[i].entries)
  {
    hide Get, CellText, Distinct, Keys, Regular, CellOf;
    RecordsAreObjects(records);
    var order := AsTheyStand(|records|);
    var c := TableOf(Exact, records, order);
    TableShape(Exact, records, order);
    forall key: Text | Get(records[i].entries, key).Some?
      ensures |CellText(lib, Get(records[i].entries, key).value)| <= 1024 * 1024
    {
      var k := ColumnUnder(records, i, key);
      assert c.columns[k][i] == CellOf(records, i, k);
    }
  }

  lemma ValuesSmall(lib: Lib, records: seq<Value>)
    requires Regular(records) && forall i :: 0 <= i < |records| ==> records[i].Obj? && SmallValues(lib, records[i].entries)
    ensures SmallCells(lib, TableOf(Exact, records, AsTheyStand(|records|)))
  {
    hide Get, CellText, Distinct, Keys, Regular, CellOf;
    var order := AsTheyStand(|records|);
    var c := TableOf(Exact, records, order);
    TableShape(Exact, records, order);
    forall k, i | 0 <= k < |c.columns| && 0 <= i < |c.columns[k]| ensures |CellText(lib, c.columns[k][i])| <= MAX_VALUE_BYTES {
      var key := CellUnder(records, i, k);
      assert c.columns[k][i] == CellOf(records, i, k);
    }
  }

  lemma ColumnUnder(records: seq<Value>, i: nat, key: Text) returns (k: nat)
    requires Regular(records) && i < |records| && Get(records[i].entries, key).Some?
    ensures k < |records[0].entries| && CellOf(records, i, k) == Get(records[i].entries, key).value
  {
    KeyFound(records[i].entries, key);
    KeyInEvery(records, i, key);
    hide Get, Regular;
    var keys := Keys(records[0].entries);
    k :| 0 <= k < |keys| && keys[k] == key;
  }

  lemma CellUnder(records: seq<Value>, i: nat, k: nat) returns (key: Text)
    requires Regular(records) && i < |records| && k < |records[0].entries|
    ensures key == records[0].entries[k].key && Get(records[i].entries, key) == Some(CellOf(records, i, k))
  {
    key := Keys(records[0].entries)[k];
    KeyInEvery(records, i, key);
    KeyFound(records[i].entries, key);
  }

  lemma TableHolds(records: seq<Value>, c: Table)
    requires Regular(records)
    ensures c == TableOf(Exact, records, AsTheyStand(|records|)) <==> c.mode == Exact && HoldsRecords(c, records)
  {
    hide Get, Distinct, Regular, CellType, CellOf;
    RecordsAreObjects(records);
    var order := AsTheyStand(|records|);
    var t := TableOf(Exact, records, order);
    TableShape(Exact, records, order);
    assert HoldsRecords(t, records) by {
      forall k | 0 <= k < |t.keys|
        ensures t.keys[k] == records[0].entries[k].key && forall i :: 0 <= i < |records| ==> Get(records[i].entries, t.keys[k]) == Some(t.columns[k][i])
      {
        forall i | 0 <= i < |records| ensures Get(records[i].entries, t.keys[k]) == Some(t.columns[k][i]) {
          var key := CellUnder(records, i, k);
        }
      }
    }
    if c.mode == Exact && HoldsRecords(c, records) { HeldIsTable(records, c, t); }
  }

  lemma RecordsAreObjects(records: seq<Value>)
    requires Regular(records)
    ensures 0 < |records| && forall i :: 0 <= i < |records| ==> records[i].Obj?
  {}

  lemma HeldIsTable(records: seq<Value>, c: Table, t: Table)
    requires 0 < |records| && forall i :: 0 <= i < |records| ==> records[i].Obj?
    requires c.mode == t.mode && HoldsRecords(c, records) && HoldsRecords(t, records)
    ensures c == t
  {
    hide Get, Distinct, CellType;
    assert c.keys == t.keys;
    forall k | 0 <= k < |c.keys| ensures c.columns[k] == t.columns[k] && c.types[k] == t.types[k] {
      forall i | 0 <= i < |records| ensures c.columns[k][i] == t.columns[k][i] {
        assert Get(records[i].entries, c.keys[k]) == Some(c.columns[k][i]);
        assert Get(records[i].entries, t.keys[k]) == Some(t.columns[k][i]);
      }
      assert c.columns[k] == t.columns[k];
    }
    assert c.columns == t.columns && c.types == t.types;
  }

  lemma TableHeld(lib: Lib, records: seq<Value>) returns (c: Table)
    requires CanBeTable(lib, records)
    ensures c.mode == Exact && HoldsRecords(c, records)
  {
    RegularExactly(lib, records);
    StandingOrder(|records|);
    hide Regular, TableOf, HoldsRecords, IsOrder;
    c := TableOf(Exact, records, AsTheyStand(|records|));
    TableHolds(records, c);
  }

  /** The table of a text in exact mode, and which texts have one. */
  lemma ExactTableExactly(lib: Lib, d: seq<byte>, c: Table)
    ensures ExactTable(lib, d) == Some(c) <==>
            && |d| <= 0x4000_0000 && lib.parse(d).Some? && lib.parse(d).value.Arr?
            && CanBeTable(lib, lib.parse(d).value.items)
            && c.mode == Exact && HoldsRecords(c, lib.parse(d).value.items)
  {
    hide CanBeTable, Regular, TableOf, SmallCells, HoldsRecords;
    if lib.parse(d).Some? && lib.parse(d).value.Arr? {
      var records := lib.parse(d).value.items;
      RegularExactly(lib, records);
      StandingOrder(|records|);
      if Regular(records) { TableHolds(records, c); }
    }
  }

  lemma StandingOrder(n: nat)
    ensures IsOrder(AsTheyStand(n), n)
  {}

  /**
   A plain text comes back byte for byte; and if the library reads back the array that is
   written, no other text does.
   */
  lemma ExactWhenPlain(lib: Lib, d: seq<byte>)
    requires ExactTable(lib, d).Some?
    ensures Plain(lib, d) ==> Decoding(lib, ExactTable(lib, d).value) == Some(d)
    ensures ComesBack(lib, Again(lib, d)) ==> (Decoding(lib, ExactTable(lib, d).value) == Some(d) <==> Plain(lib, d))
  {
    hide Decoding, TableOf, SmallCells, Regular, Rebuilt, UniformKeys, IsOrder;
    var records := lib.parse(d).value.items;
    RecordsComeBack(lib, d, Exact, AsTheyStand(|records|));
    UniformIsRebuilt(records);
  }

  // ---- A text that does not come back ----

  function Letter(c: char): (r: Text)
    requires c as int < 128
    ensures |r| == 1 && r[0] == c as int
  {
    OneLetter([c as int]);
    [c as int]
  }

  /** The same fields, written in two orders. */
  function Forward(): (r: Unique<Value>)
    ensures |r| == 2
  {
    [Entry(Letter('a'), Str(Letter('x'))), Entry(Letter('b'), Str(Letter('y')))]
  }

  function Backward(): (r: Unique<Value>)
    ensures |r| == 2
  {
    [Entry(Letter('b'), Str(Letter('y'))), Entry(Letter('a'), Str(Letter('x')))]
  }

  function Mixed(): (r: seq<Value>)
    ensures |r| == 2
  {
    [Obj(Forward()), Obj(Backward())]
  }

  function Straight(): Value { Arr([Obj(Forward()), Obj(Forward())]) }

  function MixedText(): seq<byte> { Ascii("[{\"a\":\"x\",\"b\":\"y\"},{\"b\":\"y\",\"a\":\"x\"}]") }

  function StraightText(): seq<byte> { Ascii("[{\"a\":\"x\",\"b\":\"y\"},{\"a\":\"x\",\"b\":\"y\"}]") }

  lemma MixedKeys()
    ensures Keys(Forward()) == [Letter('a'), Letter('b')] && Keys(Backward()) == [Letter('b'), Letter('a')]
  {
    hide Letter;
  }

  lemma MixedIsRegular()
    ensures Regular(Mixed())
  {
    hide Letter, Forward, Backward;
    var records := Mixed();
    var a, b := Letter('a'), Letter('b');
    MixedKeys();
    hide Keys, Distinct;
    assert multiset([b, a]) == multiset([a, b]);
    forall i | 0 <= i < |records|
      ensures records[i].Obj? && multiset(Keys(records[i].entries)) == multiset([a, b])
    {
      assert i == 0 || i == 1;
    }
  }

  lemma MixedFields(forward: bool)
    ensures var e := if forward then Forward() else Backward();
            Get(e, Letter('a')) == Some(Str(Letter('x'))) && Get(e, Letter('b')) == Some(Str(Letter('y')))
  {
    hide Letter, Get;
    GetAt(Forward(), 0);
    GetAt(Forward(), 1);
    GetAt(Backward(), 0);
    GetAt(Backward(), 1);
  }

  lemma MixedCells(i: nat)
    requires i < 2
    ensures Regular(Mixed())
    ensures CellOf(Mixed(), i, 0) == Str(Letter('x')) && CellOf(Mixed(), i, 1) == Str(Letter('y'))
  {
    hide Letter, Regular, Forward, Backward, Get;
    MixedIsRegular();
    MixedKeys();
    MixedFields(i == 0);
  }

  lemma MixedRebuilt(i: nat)
    requires i < 2
    ensures Regular(Mixed()) && Obj(Arranged(Mixed(), i)) == Obj(Forward())
  {
    hide Letter, CellOf, Backward;
    MixedCells(i);
    MixedKeys();
    assert Arranged(Mixed(), i) == Forward();
  }

  lemma TextsDiffer()
    ensures MixedText() != StraightText()
  {
    assert "[{\"a\":\"x\",\"b\":\"y\"},{\"b\":\"y\",\"a\":\"x\"}]"[21] == 'b';
    assert "[{\"a\":\"x\",\"b\":\"y\"},{\"a\":\"x\",\"b\":\"y\"}]"[21] == 'a';
    assert MixedText()[21] == 'b' as int && StraightText()[21] == 'a' as int;
  }

  /**
   A text that does not come back: compact, but with the keys of its second record in another
   order. All that is used of the library is what it reads here and what it writes there.
   */
  lemma KeyOrderIsLost(lib: Lib)
    requires lib.parse(MixedText()) == Some(Arr(Mixed())) && lib.show(Straight()) == StraightText()
    ensures ExactTable(lib, MixedText()).Some?
    ensures Decoding(lib, ExactTable(lib, MixedText()).value) == Some(StraightText()) != Some(MixedText())
  {
    hide Decoding, CellOf, Regular, Arranged, Mixed, Letter;
    var d, records := MixedText(), Mixed();
    TextsDiffer();
    MixedHasTable(lib);
    RecordsComeBack(lib, d, Exact, AsTheyStand(2));
    MixedRebuilt(0);
    MixedRebuilt(1);
    assert Rebuilt(records, AsTheyStand(2)) == Straight().items;
  }

  lemma TextIsShort()
    ensures |MixedText()| <= MAX_TEXT_BYTES
  {}

  lemma MixedHasTable(lib: Lib)
    requires lib.parse(MixedText()) == Some(Arr(Mixed()))
    ensures |Mixed()| == 2 && Encoding(lib, MixedText(), Exact, AsTheyStand(2)).Some?
  {
    hide CellOf, Regular, TypeOf, Letter, MixedText, Distinct, Keys, Forward, Backward;
    MixedCells(0);
    MixedCells(1);
    TextIsShort();
    var c := TableOf(Exact, Mixed(), AsTheyStand(2));
    forall k, i | 0 <= k < |c.columns| && 0 <= i < |c.columns[k]| ensures |CellText(lib, c.columns[k][i])| <= MAX_VALUE_BYTES {
      assert c.columns[k][i] == CellOf(Mixed(), i, k);
    }
  }

  lemma {:induction false} ColumnsCount(lib: Lib, b: seq<byte>, types: seq<ColType>, n: nat, pos: nat, k: nat)
    requires k <= |types| && ReadColumns(lib, b, types, n, pos, k).Some?
    ensures |ReadColumns(lib, b, types, n, pos, k).value.0| == k
  {
    hide ReadList, CellReader;
    if k > 0 { ColumnsCount(lib, b, types, n, pos, k - 1); }
  }

  /** A table that was read has a column for every key. */
  lemma ReadShape(lib: Lib, h: Hash, b: seq<byte>)
    requires FromBlob(lib, h, b).Some?
    ensures |FromBlob(lib, h, b).value.columns| == |FromBlob(lib, h, b).value.keys|
  {
    hide ReadList, KeyReader, TypeReader, FromLe, ReadColumns, BlobInput;
    var (keys, pos) := ReadList(KeyReader(b), 12, FromLe(b[10..12])).value;
    var n := FromLe(b[pos..pos + 4]);
    var (types, at) := ReadList(TypeReader(b), pos + 4, |keys|).value;
    ColumnsCount(lib, b, types, n, at, |keys|);
  }

  // ---- Encoding, record by record ----

  /** The columns hold the first n records; each type is the one its values share so far, or text. */
  ghost predicate Filled(records: seq<Value>, order: seq<nat>, n: nat, types: seq<ColType>, columns: seq<Column>)
    requires Regular(records) && IsOrder(order, |records|)
  {
    && 0 < n <= |order| && |types| == |columns| == |records[0].entries|
    && forall k :: 0 <= k < |columns| ==>
         columns[k] == ColumnOf(records, order, k)[..n] && types[k] == TypeOf(columns[k])
  }

  lemma TypeGrows(col: Column, v: Value)
    requires col != []
    ensures TypeOf(col + [v]) == if CellType(v) == TypeOf(col) then TypeOf(col) else StrCol
  {
    hide CellType;
    var all := col + [v];
    assert all[|col|] == v && forall i :: 0 <= i < |col| ==> all[i] == col[i];
  }

  lemma TypeOfOne(v: Value)
    ensures TypeOf([v]) == CellType(v)
  {}

  /** Add one record to the columns: a value of another type turns its column into text. */
  method AddRecord(lib: Lib, records: seq<Value>, ghost order: seq<nat>, n: nat, idx: nat, types: seq<ColType>, columns: seq<Column>)
      returns (ok: bool, types': seq<ColType>, columns': seq<Column>)
    requires Regular(records) && IsOrder(order, |records|)
    requires n < |order| && idx == order[n] && Filled(records, order, n, types, columns)
    ensures ok <==> forall k :: 0 <= k < |columns| ==> |CellText(lib, CellOf(records, idx, k))| <= MAX_VALUE_BYTES
    ensures ok ==> Filled(records, order, n + 1, types', columns')
  {
    hide Regular, CellType, CellText, CellOf, IsOrder, TypeOf;
    RegularShape(records);
    OrderSize(order, |records|);
    var keys := Keys(records[0].entries);
    types', columns' := types, columns;
    for k := 0 to |keys|
      invariant |types'| == |columns'| == |keys|
      invariant forall i :: 0 <= i < k ==> |CellText(lib, CellOf(records, idx, i))| <= MAX_VALUE_BYTES
      invariant forall i :: 0 <= i < k ==> columns'[i] == columns[i] + [CellOf(records, idx, i)]
      invariant forall i :: 0 <= i < k ==> types'[i] == TypeOf(columns'[i])
      invariant forall i :: k <= i < |keys| ==> columns'[i] == columns[i] && types'[i] == types[i]
    {
      var v := Lookup(records, idx, k);
      TypeGrows(columns[k], v);
      if CellType(v) != types'[k] {
        types' := types'[k := StrCol];
      }
      if |CellText(lib, v)| > MAX_VALUE_BYTES {
        ok := false;
        return;
      }
      columns' := columns'[k := columns'[k] + [v]];
    }
    ok := true;
    forall k | 0 <= k < |keys| ensures columns'[k] == ColumnOf(records, order, k)[..n + 1] {
      var col := ColumnOf(records, order, k);
      assert col[..n + 1] == col[..n] + [col[n]];
    }
  }

  method Lookup(records: seq<Value>, idx: nat, k: nat) returns (v: Value)
    requires Regular(records) && idx < |records| && k < |records[0].entries|
    ensures v == CellOf(records, idx, k)
  {
    var key := Keys(records[0].entries)[k];
    KeyInEvery(records, idx, key);
    v := Get(records[idx].entries, key).value;
  }

  method IsRegular(records: seq<Value>) returns (ok: bool)
    ensures ok <==> Regular(records)
  {
    if |records| == 0 || |records| > MAX_RECORDS || !records[0].Obj? { return false; }
    var keys := Keys(records[0].entries);
    if |keys| == 0 || |keys| > MAX_COLUMNS { return false; }
    for k := 0 to |keys|
      invariant forall i :: 0 <= i < k ==> |keys[i]| <= MAX_KEY_BYTES
    {
      if |keys[k]| > MAX_KEY_BYTES { return false; }
    }
    for i := 0 to |records|
      invariant forall j :: 0 <= j < i ==> records[j].Obj? && multiset(Keys(records[j].entries)) == multiset(keys)
    {
      if !records[i].Obj? || multiset(Keys(records[i].entries)) != multiset(keys) { return false; }
    }
    ok := true;
  }

  /** The first record fixes the types. */
  method FirstRecord(lib: Lib, records: seq<Value>, ghost order: seq<nat>, idx: nat)
      returns (ok: bool, types: seq<ColType>, columns: seq<Column>)
    requires Regular(records) && IsOrder(order, |records|) && order != [] && idx == order[0]
    ensures ok <==> forall k :: 0 <= k < |records[0].entries| ==> |CellText(lib, CellOf(records, idx, k))| <= MAX_VALUE_BYTES
    ensures ok ==> Filled(records, order, 1, types, columns)
  {
    hide Regular, CellText, CellOf, IsOrder, TypeOf, CellType;
    RegularShape(records);
    OrderSize(order, |records|);
    types, columns := [], [];
    var n := |records[0].entries|;
    for k := 0 to n
      invariant |types| == |columns| == k
      invariant forall i :: 0 <= i < k ==> |CellText(lib, CellOf(records, idx, i))| <= MAX_VALUE_BYTES
      invariant forall i :: 0 <= i < k ==> columns[i] == [CellOf(records, idx, i)] && types[i] == TypeOf(columns[i])
    {
      var v := Lookup(records, idx, k);
      TypeOfOne(v);
      if |CellText(lib, v)| > MAX_VALUE_BYTES {
        ok := false;
        return;
      }
      types, columns := types + [CellType(v)], columns + [[v]];
    }
    ok := true;
    forall k | 0 <= k < n ensures columns[k] == ColumnOf(records, order, k)[..1] {
    }
  }

  lemma LargeCell(lib: Lib, mode: Mode, records: seq<Value>, order: seq<nat>, n: nat)
    requires Regular(records) && IsOrder(order, |records|) && n < |order|
    requires exists k :: 0 <= k < |records[0].entries| && |CellText(lib, CellOf(records, order[n], k))| > MAX_VALUE_BYTES
    ensures !SmallCells(lib, TableOf(mode, records, order))
  {
    hide CellText, CellOf, TypeOf, Regular;
    RegularShape(records);
    var k :| 0 <= k < |records[0].entries| && |CellText(lib, CellOf(records, order[n], k))| > MAX_VALUE_BYTES;
    assert TableOf(mode, records, order).columns[k][n] == CellOf(records, order[n], k);
  }

  lemma AllFilled(lib: Lib, mode: Mode, records: seq<Value>, order: seq<nat>, types: seq<ColType>, columns: seq<Column>)
    requires Regular(records) && IsOrder(order, |records|) && Filled(records, order, |order|, types, columns)
    ensures Table(mode, Keys(records[0].entries), types, columns) == TableOf(mode, records, order)
  {
    hide CellOf, TypeOf, Regular;
    forall k | 0 <= k < |columns| ensures columns[k] == ColumnOf(records, order, k) {
      var col := ColumnOf(records, order, k);
      assert col[..|order|] == col;
    }
  }

  method EncodeRecords(lib: Lib, mode: Mode, records: seq<Value>, order: seq<nat>) returns (r: Option<Table>)
    requires Regular(records) && IsOrder(order, |records|)
    ensures r == if SmallCells(lib, TableOf(mode, records, order)) then Some(TableOf(mode, records, order)) else None
  {
    hide Regular, CellText, CellOf, IsOrder, TypeOf, TableOf, SmallCells, Filled;
    RegularShape(records);
    OrderSize(order, |records|);
    var ok, types, columns := FirstRecord(lib, records, order, order[0]);
    if !ok {
      LargeCell(lib, mode, records, order, 0);
      return None;
    }
    for n := 1 to |order|
      invariant Filled(records, order, n, types, columns)
      invariant forall i, k :: 0 <= i < n && 0 <= k < |records[0].entries| ==> |CellText(lib, CellOf(records, order[i], k))| <= MAX_VALUE_BYTES
    {
      FilledShape(records, order, n, types, columns);
      ok, types, columns := AddRecord(lib, records, order, n, order[n], types, columns);
      if !ok {
        LargeCell(lib, mode, records, order, n);
        return None;
      }
    }
    AllFilled(lib, mode, records, order, types, columns);
    AllSmall(lib, mode, records, order);
    r := Some(Table(mode, Keys(records[0].entries), types, columns));
  }

  lemma OrderSize(order: seq<nat>, n: nat)
    requires IsOrder(order, n)
    ensures |order| == n && forall i :: 0 <= i < n ==> order[i] < n
  {}

  lemma FilledShape(records: seq<Value>, order: seq<nat>, n: nat, types: seq<ColType>, columns: seq<Column>)
    requires Regular(records) && IsOrder(order, |records|) && Filled(records, order, n, types, columns)
    ensures |types| == |columns| == |records[0].entries|
  {}

  lemma AllSmall(lib: Lib, mode: Mode, records: seq<Value>, order: seq<nat>)
    requires Regular(records) && IsOrder(order, |records|)
    requires forall i, k :: 0 <= i < |order| && 0 <= k < |records[0].entries| ==> |CellText(lib, CellOf(records, order[i], k))| <= MAX_VALUE_BYTES
    ensures SmallCells(lib, TableOf(mode, records, order))
  {
    hide CellText, CellOf, TypeOf, Regular;
  }

  // ---- The order of the records ----

  function CompareText(a: seq<byte>, b: seq<byte>): int
  {
    if a == [] then (if b == [] then 0 else -1)
    else if b == [] then 1
    else if a[0] != b[0] then (if a[0] < b[0] then -1 else 1)
    else CompareText(a[1..], b[1..])
  }

  /** Numbers by number, booleans by truth, everything else by its text. */
  function CompareValue(lib: Lib, a: Value, b: Value): int
  {
    if a.Num? && b.Num? then lib.compare(a.num, b.num)
    else if a.Bool? && b.Bool? then (if a.b == b.b then 0 else if b.b then -1 else 1)
    else if a.Null? && b.Null? then 0
    else CompareText(lib.show(a), lib.show(b))
  }

  /** By the first key under which the values differ. */
  function CompareRecords(lib: Lib, keys: seq<Text>, a: seq<Entry>, b: seq<Entry>): int
  {
    if keys == [] then 0
    else
      var x, y := Get(a, keys[0]), Get(b, keys[0]);
      var c := if x.Some? && y.Some? then CompareValue(lib, x.value, y.value) else 0;
      if c != 0 then c else CompareRecords(lib, keys[1..], a, b)
  }

  predicate Precedes(lib: Lib, records: seq<Value>, i: nat, j: nat)
    requires i < |records| && j < |records| && records[0].Obj? && records[i].Obj? && records[j].Obj?
  {
    var c := CompareRecords(lib, Keys(records[0].entries), records[i].entries, records[j].entries);
    c < 0 || (c == 0 && i < j)
  }

  /** How two records compare under a key that both have. */
  function Under(lib: Lib, k: Text, a: seq<Entry>, b: seq<Entry>): int
  {
    if k in Keys(a) && k in Keys(b) then CompareValue(lib, Get(a, k).value, Get(b, k).value) else 0
  }

  /** The first key under which the records differ decides. */
  ghost predicate Decides(lib: Lib, keys: seq<Text>, a: seq<Entry>, b: seq<Entry>, k: nat)
  {
    k < |keys| && Under(lib, keys[k], a, b) != 0 && forall j :: 0 <= j < k ==> Under(lib, keys[j], a, b) == 0
  }

  lemma {:induction false} RecordOrder(lib: Lib, keys: seq<Text>, a: seq<Entry>, b: seq<Entry>) returns (k: nat)
    ensures if CompareRecords(lib, keys, a, b) != 0
            then Decides(lib, keys, a, b, k) && CompareRecords(lib, keys, a, b) == Under(lib, keys[k], a, b)
            else forall j :: 0 <= j < |keys| ==> Under(lib, keys[j], a, b) == 0
  {
    hide CompareValue, Get;
    k := 0;
    if keys != [] && Under(lib, keys[0], a, b) == 0 {
      var rest := RecordOrder(lib, keys[1..], a, b);
      forall j | 0 < j < |keys| ensures keys[j] == keys[1..][j - 1] {}
      k := rest + 1;
    }
  }

  /** As in a dictionary: a proper prefix, or smaller in the first byte that differs. */
  ghost predicate Before(a: seq<byte>, b: seq<byte>)
  {
    a < b || exists i: nat :: i < |a| && i < |b| && a[..i] == b[..i] && a[i] < b[i]
  }

  lemma SameHeadBefore(a: seq<byte>, b: seq<byte>)
    requires a != [] && b != [] && a[0] == b[0]
    ensures Before(a, b) <==> Before(a[1..], b[1..])
  {
    assert a == [a[0]] + a[1..] && b == [b[0]] + b[1..];
    assert a < b <==> a[1..] < b[1..];
    if i: nat :| i < |a| && i < |b| && a[..i] == b[..i] && a[i] < b[i] {
      assert a[1..][..i - 1] == a[..i][1..] && b[1..][..i - 1] == b[..i][1..] && a[1..][i - 1] < b[1..][i - 1];
    }
    if i: nat :| i < |a[1..]| && i < |b[1..]| && a[1..][..i] == b[1..][..i] && a[1..][i] < b[1..][i] {
      assert a[..i + 1] == [a[0]] + a[1..][..i] && b[..i + 1] == [b[0]] + b[1..][..i] && a[i + 1] < b[i + 1];
    }
  }

  lemma OtherHeadBefore(a: seq<byte>, b: seq<byte>)
    requires a != [] && b != [] && a[0] != b[0]
    ensures Before(a, b) <==> a[0] < b[0]
  {
    if a[0] < b[0] { assert a[..0] == b[..0]; }
    forall i: nat | 0 < i < |a| && i < |b| ensures a[..i] != b[..i] {
      assert a[..i][0] != b[..i][0];
    }
  }

  lemma {:induction false} TextOrder(a: seq<byte>, b: seq<byte>)
    ensures CompareText(a, b) < 0 <==> Before(a, b)
    ensures CompareText(a, b) == 0 <==> a == b
  {
    if a != [] && b != [] {
      hide Before;
      if a[0] == b[0] {
        SameHeadBefore(a, b);
        TextOrder(a[1..], b[1..]);
        assert a == [a[0]] + a[1..] && b == [b[0]] + b[1..];
      } else {
        OtherHeadBefore(a, b);
      }
    }
  }

  ghost predicate AllObjects(records: seq<Value>)
  {
    forall i :: 0 <= i < |records| ==> records[i].Obj?
  }

  /** The comparison is a total order of these records. */
  ghost predicate Orders(lib: Lib, records: seq<Value>)
    requires AllObjects(records)
  {
    && (forall i: nat, j: nat :: i < |records| && j < |records| && i != j ==>
          Precedes(lib, records, i, j) || Precedes(lib, records, j, i))
    && (forall i: nat, j: nat, k: nat :: i < |records| && j < |records| && k < |records| ==>
          Precedes(lib, records, i, j) && Precedes(lib, records, j, k) ==> Precedes(lib, records, i, k))
  }

  ghost predicate Sorted(lib: Lib, records: seq<Value>, order: seq<nat>)
    requires AllObjects(records) && forall i :: 0 <= i < |order| ==> order[i] < |records|
  {
    forall i, j :: 0 <= i < j < |order| ==> Precedes(lib, records, order[i], order[j])
  }

  lemma InsertedOrder(order: seq<nat>, n: nat, p: nat)
    requires IsOrder(order, n) && p <= n
    ensures IsOrder(order[..p] + [n] + order[p..], n + 1)
  {
    var all := order[..p] + [n] + order[p..];
    forall i | 0 <= i < |all| ensures all[i] == if i < p then order[i] else if i == p then n else order[i - 1] {
      InsertedAt(order, p, n, i);
    }
  }

  lemma InsertedSorts(lib: Lib, records: seq<Value>, order: seq<nat>, n: nat, p: nat)
    requires AllObjects(records) && Orders(lib, records) && n < |records| && IsOrder(order, n) && p <= n
    requires Sorted(lib, records, order)
    requires forall q :: p <= q < n ==> Precedes(lib, records, n, order[q])
    requires p > 0 ==> !Precedes(lib, records, n, order[p - 1])
    ensures forall i :: 0 <= i <= n ==> (order[..p] + [n] + order[p..])[i] < |records|
    ensures Sorted(lib, records, order[..p] + [n] + order[p..])
  {
    hide Precedes, Distinct;
    var all := order[..p] + [n] + order[p..];
    forall i | 0 <= i < |all| ensures all[i] == if i < p then order[i] else if i == p then n else order[i - 1] {
      InsertedAt(order, p, n, i);
    }
    forall q | 0 <= q < p ensures Precedes(lib, records, order[q], n) {
      assert Precedes(lib, records, order[p - 1], n);
      assert q == p - 1 || Precedes(lib, records, order[q], order[p - 1]);
    }
  }

  /** Sorting by insertion: equal records keep the order they came in. */
  method SortRecords(lib: Lib, records: seq<Value>) returns (order: seq<nat>)
    requires AllObjects(records)
    ensures IsOrder(order, |records|)
    ensures Orders(lib, records) ==> Sorted(lib, records, order)
  {
    hide Precedes, Orders, Sorted;
    order := [];
    NothingToSort(lib, records);
    for n := 0 to |records|
      invariant IsOrder(order, n)
      invariant Orders(lib, records) ==> Sorted(lib, records, order)
    {
      var p := n;
      while p > 0 && Precedes(lib, records, n, order[p - 1])
        invariant 0 <= p <= n
        invariant forall q :: p <= q < n ==> Precedes(lib, records, n, order[q])
      {
        p := p - 1;
      }
      InsertedOrder(order, n, p);
      if Orders(lib, records) { InsertedSorts(lib, records, order, n, p); }
      order := order[..p] + [n] + order[p..];
    }
  }

  lemma NothingToSort(lib: Lib, records: seq<Value>)
    requires AllObjects(records)
    ensures Sorted(lib, records, [])
  {}

  /** The order the records are taken in: as they stand, or sorted as far as the comparison sorts. */
  ghost predicate OrderFor(lib: Lib, mode: Mode, records: seq<Value>, order: seq<nat>)
    requires AllObjects(records)
  {
    && IsOrder(order, |records|) && (mode == Exact ==> order == AsTheyStand(|records|))
    && (mode == OrderFree && Orders(lib, records) ==> Sorted(lib, records, order))
  }

  /** The table of a text: of its records in the order of the mode, or a refusal. */
  ghost predicate Encodes(lib: Lib, d: seq<byte>, mode: Mode, r: Option<Table>)
  {
    if |d| > MAX_TEXT_BYTES then r == None
    else match lib.parse(d)
    case Some(Arr(records)) =>
      if !Regular(records) then r == None
      else exists order :: OrderFor(lib, mode, records, order) && r == Encoding(lib, d, mode, order)
    case _ => r == None
  }

  lemma EncodesExactly(lib: Lib, d: seq<byte>, r: Option<Table>)
    requires Encodes(lib, d, Exact, r)
    ensures r == ExactTable(lib, d)
  {
    hide Regular, TableOf, SmallCells, Orders, Sorted;
  }

  method Encode(lib: Lib, d: seq<byte>, mode: Mode) returns (r: Option<Table>)
    ensures Encodes(lib, d, mode, r)
  {
    hide Regular, TableOf, SmallCells, Orders, Sorted;
    if |d| > MAX_TEXT_BYTES { return None; }
    var value := lib.parse(d);
    if value.None? || !value.value.Arr? { return None; }
    var records := value.value.items;
    var regular := IsRegular(records);
    if !regular { return None; }
    ObjectsOnly(records);
    var order := AsTheyStand(|records|);
    if mode == OrderFree { order := SortRecords(lib, records); }
    assert OrderFor(lib, mode, records, order);
    r := EncodeRecords(lib, mode, records, order);
  }

  lemma ObjectsOnly(records: seq<Value>)
    requires Regular(records)
    ensures AllObjects(records)
  {}

  // ---- Writing and reading the blob ----

  method IsShaped(c: Table) returns (ok: bool)
    ensures ok <==> Shaped(c)
  {
    if |c.keys| == 0 || |c.keys| > MAX_COLUMNS || |c.keys| != |c.types| || |c.keys| != |c.columns| { return false; }
    var n := |c.columns[0]|;
    if n == 0 || n > MAX_RECORDS { return false; }
    for k := 0 to |c.keys|
      invariant forall i :: 0 <= i < k ==> |c.columns[i]| == n && |c.keys[i]| <= MAX_KEY_BYTES
    {
      if |c.columns[k]| != n || |c.keys[k]| > MAX_KEY_BYTES { return false; }
    }
    ok := true;
  }

  method WriteColumn(lib: Lib, t: ColType, col: Column) returns (r: Option<seq<byte>>)
    ensures r.Some? <==> forall i :: 0 <= i < |col| ==> Writable(lib, t, col[i])
    ensures r.Some? ==> r.value == ColumnBytes(lib, t, col)
  {
    hide Writable, CellBytes, WriteList;
    for i := 0 to |col|
      invariant forall j :: 0 <= j < i ==> Writable(lib, t, col[j])
    {
      if !Writable(lib, t, col[i]) { return None; }
    }
    var out := Lists.Write(CellWriter(lib, t), col);
    r := Some(out);
  }

  method ToBlob(lib: Lib, h: Hash, c: Table) returns (r: Option<seq<byte>>)
    ensures r == Blob(lib, h, c)
  {
    hide Writable, ColumnBytes, WriteList, Le, BlobInput, KeyWriter, TypeWriter;
    var shaped := IsShaped(c);
    if !shaped { return None; }
    var keys := Lists.Write(KeyWriter(), c.keys);
    var types := Lists.Write(TypeWriter(), c.types);
    var out := Magic() + [if c.mode == Exact then 0 else 1] + Le(|c.keys|, 2) + keys + Le(|c.columns[0]|, 4) + types;
    ghost var start := out;
    for k := 0 to |c.columns|
      invariant out == start + ColumnsBytes(lib, c.types, c.columns, k)
      invariant forall j, i :: 0 <= j < k && 0 <= i < |c.columns[j]| ==> Writable(lib, c.types[j], c.columns[j][i])
    {
      var column := WriteColumn(lib, c.types[k], c.columns[k]);
      if column.None? { return None; }
      out := out + column.value;
    }
    assert out == Payload(lib, c);
    r := Some(out + h(BlobInput(out)));
  }

  lemma {:induction false} ColumnsBroken(lib: Lib, b: seq<byte>, types: seq<ColType>, n: nat, pos: nat, i: nat, k: nat)
    requires i <= k <= |types| && ReadColumns(lib, b, types, n, pos, i) == None
    ensures ReadColumns(lib, b, types, n, pos, k) == None
    decreases k
  {
    hide ReadList, CellReader;
    if i < k { ColumnsBroken(lib, b, types, n, pos, i, k - 1); }
  }

  method TakeColumns(lib: Lib, b: seq<byte>, types: seq<ColType>, n: nat, start: nat) returns (r: Option<(seq<Column>, nat)>)
    ensures r == ReadColumns(lib, b, types, n, start, |types|)
  {
    hide ReadList, CellReader;
    var columns, pos := [], start;
    for k := 0 to |types|
      invariant ReadColumns(lib, b, types, n, start, k) == Some((columns, pos))
    {
      var next := Lists.Read(CellReader(lib, b, types[k]), pos, n);
      if next.None? {
        ColumnsBroken(lib, b, types, n, start, k + 1, |types|);
        return None;
      }
      columns := columns + [next.value.0];
      pos := next.value.1;
    }
    r := Some((columns, pos));
  }

  method ParseBody(lib: Lib, h: Hash, b: seq<byte>, mode: Mode, keys: seq<Text>, start: nat) returns (r: Option<Table>)
    ensures r == ReadBody(lib, h, b, mode, keys, start)
  {
    hide ReadList, TypeReader, ReadColumns, FromLe, BlobInput;
    if |b| < start + 4 { return None; }
    var n := FromLe(b[start..start + 4]);
    var left := if |b| > start + 4 + 32 then |b| - (start + 4 + 32) else 0;
    if n > MAX_RECORDS || n == 0 || n > left { return None; }
    var types := Lists.Read(TypeReader(b), start + 4, |keys|);
    if types.None? || |types.value.0| != |keys| { return None; }
    var columns := TakeColumns(lib, b, types.value.0, n, types.value.1);
    if columns.None? { return None; }
    var end := columns.value.1;
    if end + 32 != |b| || h(BlobInput(b[..end])) != b[end..] { return None; }
    r := Some(Table(mode, keys, types.value.0, columns.value.0));
  }

  method ParseBlob(lib: Lib, h: Hash, b: seq<byte>) returns (r: Option<Table>)
    ensures r == FromBlob(lib, h, b)
  {
    hide ReadList, KeyReader, ReadBody, FromLe;
    if |b| < 12 || b[..9] != Magic() { return None; }
    var mode, n := ReadMode(b[9]), FromLe(b[10..12]);
    if mode.None? || n == 0 || n > MAX_COLUMNS { return None; }
    var keys := Lists.Read(KeyReader(b), 12, n);
    if keys.None? { return None; }
    r := ParseBody(lib, h, b, mode.value, keys.value.0, keys.value.1);
  }

  method Decode(lib: Lib, c: Table) returns (r: Option<seq<byte>>)
    requires HasRows(c) ==> |c.keys| <= |c.columns|
    ensures r == Decoding(lib, c)
  {
    hide RowOf;
    if c.columns == [] || c.columns[0] == [] { return None; }
    var n := |c.columns[0]|;
    for i := 0 to |c.columns|
      invariant forall j :: 0 <= j < i ==> |c.columns[j]| == n
    {
      if |c.columns[i]| != n { return None; }
    }
    var records := BuildRows(c);
    var out := lib.show(Arr(records));
    r := if |out| > MAX_TEXT_BYTES then None else Some(out);
  }

  method BuildRows(c: Table) returns (records: seq<Value>)
    requires HasRows(c) && |c.keys| <= |c.columns|
    ensures records == RowsOf(c, |c.columns[0]|)
  {
    hide RowOf;
    var n := |c.columns[0]|;
    records := [];
    for i := 0 to n
      invariant records == RowsOf(c, n)[..i]
    {
      var row := BuildRow(c, i);
      RowIsUnique(c, i, |c.keys|);
      records := records + [Obj(row)];
    }
    assert records == RowsOf(c, n);
  }

  method BuildRow(c: Table, r: nat) returns (row: seq<Entry>)
    requires |c.keys| <= |c.columns| && forall i :: 0 <= i < |c.columns| ==> r < |c.columns[i]|
    ensures row == RowOf(c, r, |c.keys|)
  {
    hide Insert;
    row := [];
    for k := 0 to |c.keys|
      invariant row == RowOf(c, r, k)
    {
      row := Insert(row, c.keys[k], c.columns[k][r]);
    }
  }
}
