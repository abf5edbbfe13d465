/**
 The field-aware log transform: lines taken apart into seven columns with the numbers in
 binary, the columns put back into lines, and the blob they are stored as.
 */
module LogField {
  import opened Options
  import opened Bytes
  import opened Collections
  import opened Hashing
  import opened Lists
  import opened LogText
  import opened LogLine
  import opened Utf8

  const MAX_LINES := 10_000_000

  type Cell = seq<byte>
  type Column = seq<Cell>

  datatype Columnar = Columnar(lines: nat, template: seq<byte>, columns: seq<Column>)

  // ---- Lines ----

  /** The lines of the data, each with its newline. */
  function Lines(d: seq<byte>): seq<seq<byte>>
    decreases |d|
  {
    if d == [] then []
    else match Find(d, NEWLINE)
      case None => [d]
      case Some(i) => [d[..i + 1]] + Lines(d[i + 1..])
  }

  lemma {:induction false} LinesConcat(d: seq<byte>)
    ensures Concat(Lines(d)) == d && (d == [] <==> Lines(d) == [])
    decreases |d|
  {
    hide Find, Concat;
    if d == [] {
      ConcatNone<byte>();
    } else if Find(d, NEWLINE).None? {
      ConcatFirst(d, []);
      ConcatNone<byte>();
      assert [d] + [] == [d] && d + [] == d;
    } else {
      var i := Find(d, NEWLINE).value;
      LinesConcat(d[i + 1..]);
      ConcatFirst(d[..i + 1], Lines(d[i + 1..]));
      assert d[..i + 1] + d[i + 1..] == d;
    }
  }

  // ---- Columns ----

  function Cells(f: Fields): (r: seq<Cell>)
    ensures |r| == 7
  {
    [f.remote, f.time, f.verb, f.path, f.proto, Le(f.status, 2), Le(f.size, 8)]
  }

  /** The fixed text of a line, without its fields. */
  function Template(): seq<byte>
  {
    [SPACE, DASH, SPACE, DASH, SPACE, OPEN] + [CLOSE, SPACE, QUOTE] + [SPACE] + [SPACE] + [QUOTE, SPACE] + [SPACE] + [NEWLINE]
  }

  ghost function ColumnOf(fs: seq<Fields>, k: nat): (r: Column)
    requires k < 7
    ensures |r| == |fs|
  {
    seq(|fs|, i requires 0 <= i < |fs| => Cells(fs[i])[k])
  }

  ghost function ColumnsOf(fs: seq<Fields>): (r: seq<Column>)
    ensures |r| == 7
  {
    seq(7, k requires 0 <= k < 7 => ColumnOf(fs, k))
  }

  function ParsedAll(lines: seq<seq<byte>>): Option<seq<Fields>>
  {
    if lines == [] then Some([])
    else
      var rest, last := ParsedAll(lines[..|lines| - 1]), Parsed(lines[|lines| - 1]);
      if rest.None? || last.None? then None else Some(rest.value + [last.value])
  }

  ghost function Encoding(d: seq<byte>): Option<Columnar>
  {
    var lines := Lines(d);
    if lines == [] || |lines| > MAX_LINES then None
    else match ParsedAll(lines)
      case None => None
      case Some(fs) => Some(Columnar(|lines|, Template(), ColumnsOf(fs)))
  }

  predicate HasLines(c: Columnar)
  {
    c.columns != [] && c.columns[0] != []
  }

  /** Seven columns, none shorter than the first: what the decoder indexes. */
  ghost predicate Indexable(c: Columnar)
  {
    |c.columns| >= 7 && forall k :: 0 <= k < 7 ==> |c.columns[k]| >= |c.columns[0]|
  }

  function Row(c: Columnar, r: nat): (row: seq<Cell>)
    requires Indexable(c) && r < |c.columns[0]|
    ensures |row| == 7
  {
    seq<Cell>(7, k requires 0 <= k < 7 => c.columns[k][r])
  }

  /** The line of a row of cells: five texts and two numbers of the right width. */
  function RowText(row: seq<Cell>): Option<seq<byte>>
    requires |row| == 7
  {
    if !IsUtf8(row[0]) || !IsUtf8(row[1]) || !IsUtf8(row[2]) || !IsUtf8(row[3]) || !IsUtf8(row[4]) then None
    else if |row[5]| != 2 || |row[6]| != 8 then None
    else Some(Rendered(Fields(row[0], row[1], row[2], row[3], row[4], FromLe(row[5]), FromLe(row[6]))))
  }

  function RowTexts(c: Columnar, n: nat): Option<seq<byte>>
    requires Indexable(c) && n <= |c.columns[0]|
  {
    if n == 0 then Some([])
    else
      var rest, last := RowTexts(c, n - 1), RowText(Row(c, n - 1));
      if rest.None? || last.None? then None else Some(rest.value + last.value)
  }

  function Decoding(c: Columnar): Option<seq<byte>>
    requires HasLines(c) ==> Indexable(c)
  {
    if !HasLines(c) then None else RowTexts(c, |c.columns[0]|)
  }

  // ---- Lossless ----

  lemma {:induction false} ParsedAllRows(lines: seq<seq<byte>>)
    requires ParsedAll(lines).Some?
    ensures var fs := ParsedAll(lines).value;
            |fs| == |lines| && forall i :: 0 <= i < |fs| ==> Parsed(lines[i]) == Some(fs[i])
  {
    hide Parsed;
    if lines != [] {
      ParsedAllRows(lines[..|lines| - 1]);
    }
  }

  lemma LineComesBack(line: seq<byte>, f: Fields)
    requires Parsed(line) == Some(f)
    ensures RowText(Cells(f)) == Some(line)
  {
    hide Parsed, Le, FromLe, IsUtf8, Rendered;
    ParsedExactly(line, f);
    FieldsAreText(f);
    Widths();
    FromLeLe(f.status, 2);
    FromLeLe(f.size, 8);
    assert Fields(f.remote, f.time, f.verb, f.path, f.proto, f.status, f.size) == f;
  }

  lemma RowOfColumns(fs: seq<Fields>, c: Columnar, i: nat)
    requires c.columns == ColumnsOf(fs)
    ensures Indexable(c) && |c.columns[0]| == |fs|
    ensures i < |fs| ==> Row(c, i) == Cells(fs[i])
  {
    hide Cells;
  }

  lemma {:induction false} RowsComeBack(lines: seq<seq<byte>>, fs: seq<Fields>, c: Columnar, n: nat)
    requires |fs| == |lines| && Indexable(c) && c.columns == ColumnsOf(fs) && |c.columns[0]| == |fs| && n <= |fs|
    requires forall i :: 0 <= i < |fs| ==> Parsed(lines[i]) == Some(fs[i])
    ensures RowTexts(c, n) == Some(Concat(lines[..n]))
  {
    hide Parsed, RowText, RowTexts, Cells, Row, ColumnsOf, Indexable, Concat;
    if n == 0 {
      NoRows(c);
      ConcatNone<byte>();
    } else {
      RowsComeBack(lines, fs, c, n - 1);
      RowOfColumns(fs, c, n - 1);
      LineComesBack(lines[n - 1], fs[n - 1]);
      OneRowMore(c, n - 1);
      ConcatMore(lines[..n - 1], lines[n - 1]);
      assert lines[..n - 1] + [lines[n - 1]] == lines[..n];
    }
  }

  lemma NoRows(c: Columnar)
    requires Indexable(c)
    ensures RowTexts(c, 0) == Some([])
  {}

  lemma OneRowMore(c: Columnar, n: nat)
    requires Indexable(c) && n < |c.columns[0]| && RowTexts(c, n).Some? && RowText(Row(c, n)).Some?
    ensures RowTexts(c, n + 1) == Some(RowTexts(c, n).value + RowText(Row(c, n)).value)
  {
    hide RowText, Row;
  }

  /** Whatever the transform accepts, it gives back byte for byte. */
  lemma TransformIsLossless(d: seq<byte>)
    requires Encoding(d).Some?
    ensures Indexable(Encoding(d).value) && Decoding(Encoding(d).value) == Some(d)
  {
    hide Parsed, Lines, RowTexts, ParsedAll, Concat;
    var c, lines := Encoding(d).value, Lines(d);
    var fs := ParsedAll(lines).value;
    ParsedAllRows(lines);
    RowOfColumns(fs, c, 0);
    RowsComeBack(lines, fs, c, |fs|);
    assert lines[..|fs|] == lines;
    LinesConcat(d);
  }

  lemma {:induction false} ParsedAllExactly(lines: seq<seq<byte>>)
    ensures ParsedAll(lines).Some? <==> forall i :: 0 <= i < |lines| ==> Parsed(lines[i]).Some?
  {
    hide Parsed;
    if lines != [] { ParsedAllExactly(lines[..|lines| - 1]); }
  }

  ghost predicate IsLogLine(line: seq<byte>)
  {
    IsUtf8(line) && exists f :: WellFormed(f) && line == Rendered(f)
  }

  /** It accepts exactly the texts, not empty and not too long, all of whose lines are well-formed log lines. */
  lemma AcceptedExactly(d: seq<byte>)
    ensures Encoding(d).Some? <==>
            d != [] && |Lines(d)| <= MAX_LINES && forall i :: 0 <= i < |Lines(d)| ==> IsLogLine(Lines(d)[i])
  {
    hide Parsed, Lines, ParsedAll, WellFormed, Rendered, IsUtf8;
    var lines := Lines(d);
    LinesConcat(d);
    ConcatNone<byte>();
    ParsedAllExactly(lines);
    forall i | 0 <= i < |lines| ensures Parsed(lines[i]).Some? <==> IsLogLine(lines[i]) {
      LogLineExactly(lines[i]);
    }
  }

  lemma LogLineExactly(line: seq<byte>)
    ensures Parsed(line).Some? <==> IsLogLine(line)
  {
    hide Parsed, WellFormed, Rendered, IsUtf8;
    if Parsed(line).Some? {
      ParsedExactly(line, Parsed(line).value);
    }
    if IsLogLine(line) {
      var f :| WellFormed(f) && line == Rendered(f);
      ParsedExactly(line, f);
    }
  }

  // ---- The columns of a text ----

  /** A log line, written out. */
  ghost function LineText(f: Fields): seq<byte>
  {
    f.remote + Ascii(" - - [") + f.time + Ascii("] \"") + f.verb + Ascii(" ") + f.path + Ascii(" ") + f.proto + Ascii("\" ")
    + Decimal(f.status) + Ascii(" ") + Decimal(f.size) + Ascii("\n")
  }

  /** Fields that can be a line: each without the character that ends it, the newline at the end only, and text throughout. */
  ghost predicate CanBeLine(f: Fields)
  {
    && 0x20 !in f.remote && 0x5D !in f.time && 0x20 !in f.verb && 0x22 !in f.verb && 0x20 !in f.path && 0x22 !in f.path && 0x22 !in f.proto
    && f.status < 0x1_0000 && f.size < 0x1_0000_0000_0000_0000
    && IsUtf8(LineText(f)) && 0x0A !in LineText(f)[..|LineText(f)| - 1]
  }

  /** The data is a log: some lines, not too many, one after the other. */
  ghost predicate IsLog(d: seq<byte>, fs: seq<Fields>)
  {
    && 0 < |fs| <= 10_000_000 && (forall i :: 0 <= i < |fs| ==> CanBeLine(fs[i]))
    && d == Concat(seq(|fs|, i requires 0 <= i < |fs| => LineText(fs[i])))
  }

  /** The columns of the fields: one for each, the two numbers as little-endian bytes. */
  ghost predicate HoldsFields(c: Columnar, fs: seq<Fields>)
  {
    && c.lines == |fs| && c.template == Ascii(" - - [] \"  \"  \n")
    && |c.columns| == 7 && (forall k :: 0 <= k < 7 ==> |c.columns[k]| == |fs|)
    && forall i :: 0 <= i < |fs| ==>
         && c.columns[0][i] == fs[i].remote && c.columns[1][i] == fs[i].time && c.columns[2][i] == fs[i].verb
         && c.columns[3][i] == fs[i].path && c.columns[4][i] == fs[i].proto
         && c.columns[5][i] == Le(fs[i].status, 2) && c.columns[6][i] == Le(fs[i].size, 8)
  }

  lemma RenderedIsText(f: Fields)
    ensures Rendered(f) == LineText(f)
  {
    hide Decimal;
    PunctuationText();
    var a, b := Decimal(f.status), Decimal(f.size);
    assert [SPACE, QUOTE] == [SPACE] + [QUOTE];
    assert Ascii("] \"") == [CLOSE] + [SPACE, QUOTE] && Ascii("\" ") == [QUOTE] + [SPACE];
  }

  lemma PunctuationText()
    ensures Ascii(" - - [") == [SPACE, DASH, SPACE, DASH, SPACE, OPEN] && Ascii("] \"") == [CLOSE, SPACE, QUOTE]
    ensures Ascii(" ") == [SPACE] && Ascii("\" ") == [QUOTE, SPACE] && Ascii("\n") == [NEWLINE]
  {}

  lemma TemplateIsText()
    ensures Template() == Ascii(" - - [] \"  \"  \n")
  {
    assert Template() == [SPACE, DASH, SPACE, DASH, SPACE, OPEN, CLOSE, SPACE, QUOTE, SPACE, SPACE, QUOTE, SPACE, SPACE, NEWLINE];
  }

  /** A run of bytes with one newline, at its end. */
  ghost predicate OneLine(s: seq<byte>)
  {
    s != [] && s[|s| - 1] == NEWLINE && NEWLINE !in s[..|s| - 1]
  }

  lemma {:induction false} LinesOfConcat(ls: seq<seq<byte>>)
    requires forall i :: 0 <= i < |ls| ==> OneLine(ls[i])
    ensures Lines(Concat(ls)) == ls
    decreases |ls|
  {
    if ls == [] {
      ConcatNone<byte>();
    } else {
      var first, rest := ls[0], ls[1..];
      var d := Concat(ls);
      ConcatFirst(first, rest);
      assert ls == [first] + rest;
      LinesOfConcat(rest);
      hide Concat;
      var head := first[..|first| - 1];
      assert OneLine(first);
      assert first == head + [NEWLINE] && d == head + [NEWLINE] + Concat(rest);
      FindIn(head, NEWLINE, Concat(rest));
      assert d[..|first|] == first && d[|first|..] == Concat(rest);
    }
  }

  lemma {:induction false} LinesAreLines(d: seq<byte>, i: nat)
    requires i < |Lines(d)|
    ensures Lines(d)[i] != [] && NEWLINE !in Lines(d)[i][..|Lines(d)[i]| - 1]
    decreases |d|
  {
    if Find(d, NEWLINE).Some? {
      var n := Find(d, NEWLINE).value;
      if i > 0 { LinesAreLines(d[n + 1..], i - 1); } else { assert d[..n + 1][..n] == d[..n]; }
    } else {
      assert NEWLINE !in d;
    }
  }

  lemma LineIsOne(f: Fields)
    ensures |LineText(f)| > 0 && LineText(f)[|LineText(f)| - 1] == NEWLINE
  {
    hide Decimal;
    PunctuationText();
  }

  lemma {:induction false} ParsedAllIs(lines: seq<seq<byte>>, fs: seq<Fields>)
    requires |lines| == |fs| && forall i :: 0 <= i < |fs| ==> Parsed(lines[i]) == Some(fs[i])
    ensures ParsedAll(lines) == Some(fs)
  {
    hide Parsed;
    if lines != [] {
      var n := |fs| - 1;
      ParsedAllIs(lines[..n], fs[..n]);
      assert fs[..n] + [fs[n]] == fs;
    }
  }

  lemma OneLineParsed(f: Fields, line: seq<byte>)
    requires line != [] && NEWLINE !in line[..|line| - 1]
    ensures Parsed(line) == Some(f) <==> CanBeLine(f) && line == LineText(f)
  {
    hide Parsed, LineText, Rendered, IsUtf8;
    ParsedExactly(line, f);
    RenderedIsText(f);
  }

  /** The columns of a text are those of the fields that its lines are written from, and only a log has any. */
  lemma EncodingExactly(d: seq<byte>, c: Columnar)
    ensures Encoding(d) == Some(c) <==> exists fs :: IsLog(d, fs) && HoldsFields(c, fs)
  {
    hide Encoding, IsLog, HoldsFields;
    if Encoding(d) == Some(c) { var fs := EncodedIsLog(d, c); }
    if fs :| IsLog(d, fs) && HoldsFields(c, fs) { LogIsEncoded(d, fs, c); }
  }

  lemma EncodedIsLog(d: seq<byte>, c: Columnar) returns (fs: seq<Fields>)
    requires Encoding(d) == Some(c)
    ensures IsLog(d, fs) && HoldsFields(c, fs)
  {
    hide Parsed, Lines, ParsedAll, CanBeLine, LineText, Concat;
    var lines := Lines(d);
    fs := ParsedAll(lines).value;
    LinesConcat(d);
    ParsedAllRows(lines);
    TemplateIsText();
    forall i | 0 <= i < |fs| ensures CanBeLine(fs[i]) && lines[i] == LineText(fs[i]) {
      LinesAreLines(d, i);
      OneLineParsed(fs[i], lines[i]);
    }
    assert lines == seq(|fs|, i requires 0 <= i < |fs| => LineText(fs[i]));
    ColumnsHold(fs, c);
  }

  lemma ColumnsHold(fs: seq<Fields>, c: Columnar)
    requires c == Columnar(|fs|, Template(), ColumnsOf(fs))
    ensures HoldsFields(c, fs)
  {
    hide Le, Template;
    TemplateIsText();
  }

  lemma HeldIsColumns(fs: seq<Fields>, c: Columnar)
    requires HoldsFields(c, fs)
    ensures c == Columnar(|fs|, Template(), ColumnsOf(fs))
  {
    hide Le, Template;
    TemplateIsText();
    forall k | 0 <= k < 7 ensures c.columns[k] == ColumnOf(fs, k) {
      forall i | 0 <= i < |fs| ensures c.columns[k][i] == Cells(fs[i])[k] {
        assert k == 0 || k == 1 || k == 2 || k == 3 || k == 4 || k == 5 || k == 6;
      }
    }
    assert c.columns == ColumnsOf(fs);
  }

  lemma LogIsEncoded(d: seq<byte>, fs: seq<Fields>, c: Columnar)
    requires IsLog(d, fs) && HoldsFields(c, fs)
    ensures Encoding(d) == Some(c)
  {
    hide Parsed, Lines, ParsedAll, LineText, Concat, HoldsFields, IsUtf8;
    var lines := seq(|fs|, i requires 0 <= i < |fs| => LineText(fs[i]));
    forall i | 0 <= i < |fs| ensures OneLine(lines[i]) && Parsed(lines[i]) == Some(fs[i]) {
      LineIsOne(fs[i]);
      OneLineParsed(fs[i], lines[i]);
    }
    LinesOfConcat(lines);
    ParsedAllIs(lines, fs);
    HeldIsColumns(fs, c);
  }

  // ---- The blob ----

  function Magic(): (r: seq<byte>)
    ensures |r| == 9
  {
    [0xB5, 0x4C, 0x47, 0x46, 0x44, 0, 0, 0] + [1]
  }

  function CellBytes(v: Cell): (r: seq<byte>)
    ensures |r| == 4 + |v|
  {
    Le(|v|, 4) + v
  }

  function CellWriter(): Cell -> seq<byte> { v => CellBytes(v) }

  function CellsBytes(col: Column): seq<byte> { WriteList(CellWriter(), col) }

  function ColumnBytes(col: Column): seq<byte>
  {
    Le(|col|, 4) + CellsBytes(col)
  }

  function ColumnsBytes(cols: seq<Column>): seq<byte>
  {
    if cols == [] then [] else ColumnsBytes(cols[..|cols| - 1]) + ColumnBytes(cols[|cols| - 1])
  }

  function Front(c: Columnar): seq<byte>
  {
    Magic() + Le(c.lines, 4) + CellBytes(c.template)
  }

  function Payload(c: Columnar): seq<byte>
  {
    Front(c) + ColumnsBytes(c.columns)
  }

  function BlobInput(payload: seq<byte>): seq<byte>
  {
    Ascii("BDLM_BUD_LOGFIELD_V1") + payload
  }

  function Blob(h: Hash, c: Columnar): seq<byte>
  {
    Payload(c) + h(BlobInput(Payload(c)))
  }

  function ReadCell(b: seq<byte>, pos: nat): Option<(Cell, nat)>
  {
    if |b| < pos + 4 then None
    else
      var len := FromLe(b[pos..pos + 4]);
      if |b| < pos + 4 + len then None else Some((b[pos + 4..pos + 4 + len], pos + 4 + len))
  }

  function CellReader(b: seq<byte>): nat -> Option<(Cell, nat)> { p => ReadCell(b, p) }

  /** A column of as many cells as there are lines, in what is left before `end`. */
  function ReadColumn(b: seq<byte>, pos: nat, lines: nat, end: nat): Option<(Column, nat)>
  {
    if |b| < pos + 4 then None
    else
      var n := FromLe(b[pos..pos + 4]);
      var left := if end > pos + 4 then end - (pos + 4) else 0;
      if n != lines || n > left / 4 then None else ReadList(CellReader(b), pos + 4, n)
  }

  function ReadColumns(b: seq<byte>, pos: nat, lines: nat, end: nat, k: nat): Option<(seq<Column>, nat)>
  {
    if k == 0 then Some(([], pos))
    else match ReadColumns(b, pos, lines, end, k - 1)
      case None => None
      case Some((cols, at)) =>
        match ReadColumn(b, at, lines, end)
        case None => None
        case Some((col, next)) => Some((cols + [col], next))
  }

  function FromBlob(h: Hash, b: seq<byte>): Option<Columnar>
  {
    if |b| < 45 || b[..9] != Magic() then None
    else
      var end := |b| - 32;
      var lines := FromLe(b[9..13]);
      if h(BlobInput(b[..end])) != b[end..] || lines == 0 || lines > MAX_LINES then None
      else match ReadCell(b, 13)
        case None => None
        case Some((template, pos)) =>
          match ReadColumns(b, pos, lines, end, 7)
          case None => None
          case Some((cols, at)) => if at != end then None else Some(Columnar(lines, template, cols))
  }

  // ---- What is written is read ----

  ghost predicate SmallCells(col: Column)
  {
    forall i :: 0 <= i < |col| ==> |col[i]| < 0x1_0000_0000
  }

  /** What the blob format can carry. */
  ghost predicate Storable(c: Columnar)
  {
    && 0 < c.lines <= 10_000_000 && |c.template| < 0x1_0000_0000 && |c.columns| == 7
    && forall k :: 0 <= k < 7 ==> |c.columns[k]| == c.lines && SmallCells(c.columns[k])
  }

  lemma CellReads(b: seq<byte>, pos: nat, v: Cell)
    requires |v| < 0x1_0000_0000 && pos + |CellBytes(v)| <= |b| && b[pos..pos + |CellBytes(v)|] == CellBytes(v)
    ensures ReadCell(b, pos) == Some((v, pos + |CellBytes(v)|))
  {
    hide Le, FromLe;
    var t := CellBytes(v);
    assert t[0..4] == Le(|v|, 4) && t[4..] == v;
    SubSlice(b, pos, t, 0, 4);
    SubSlice(b, pos, t, 4, |t|);
    Widths();
    FromLeLe(|v|, 4);
  }

  lemma CellsMore(col: Column, v: Cell)
    ensures CellsBytes(col + [v]) == CellsBytes(col) + CellBytes(v)
  {
    WriteMore(CellWriter(), col, v);
  }

  lemma {:induction false} CellsLength(col: Column)
    ensures |CellsBytes(col)| >= 4 * |col|
  {
    if col != [] {
      CellsLength(col[..|col| - 1]);
      WriteLast(CellWriter(), col);
    }
  }

  lemma CellReadsBack(b: seq<byte>, v: Cell)
    requires |v| < 0x1_0000_0000
    ensures ReadsBack(CellReader(b), CellWriter(), b, v)
  {
    hide ReadCell, CellBytes;
    forall p: nat | p + |CellBytes(v)| <= |b| && b[p..p + |CellBytes(v)|] == CellBytes(v)
      ensures ReadCell(b, p) == Some((v, p + |CellBytes(v)|))
    {
      CellReads(b, p, v);
    }
  }

  lemma CellsRead(b: seq<byte>, pos: nat, col: Column)
    requires SmallCells(col) && pos + |CellsBytes(col)| <= |b| && b[pos..pos + |CellsBytes(col)|] == CellsBytes(col)
    ensures ReadList(CellReader(b), pos, |col|) == Some((col, pos + |CellsBytes(col)|))
  {
    hide ReadsBack, WriteList, ReadList, CellReader, CellWriter;
    forall i | 0 <= i < |col| ensures ReadsBack(CellReader(b), CellWriter(), b, col[i]) { CellReadsBack(b, col[i]); }
    ListReads(CellReader(b), CellWriter(), b, pos, col);
  }

  lemma ColumnReads(b: seq<byte>, pos: nat, col: Column, end: nat)
    requires SmallCells(col) && |col| <= MAX_LINES && pos + |ColumnBytes(col)| <= end <= |b|
    requires b[pos..pos + |ColumnBytes(col)|] == ColumnBytes(col)
    ensures ReadColumn(b, pos, |col|, end) == Some((col, pos + |ColumnBytes(col)|))
  {
    hide Le, FromLe, CellsBytes, ReadList, CellReader;
    CellsLength(col);
    var t := ColumnBytes(col);
    assert t[0..4] == Le(|col|, 4) && t[4..] == CellsBytes(col);
    SubSlice(b, pos, t, 0, 4);
    SubSlice(b, pos, t, 4, |t|);
    Widths();
    FromLeLe(|col|, 4);
    CellsRead(b, pos + 4, col);
  }

  lemma ColumnsMore(cols: seq<Column>, col: Column)
    ensures ColumnsBytes(cols + [col]) == ColumnsBytes(cols) + ColumnBytes(col)
  {
    assert (cols + [col])[..|cols|] == cols;
  }

  lemma OneColumnMore(b: seq<byte>, pos: nat, cols: seq<Column>, at: nat, col: Column, lines: nat, end: nat)
    requires ReadColumns(b, pos, lines, end, |cols|) == Some((cols, at))
    requires SmallCells(col) && |col| == lines <= MAX_LINES && at + |ColumnBytes(col)| <= end <= |b|
    requires b[at..at + |ColumnBytes(col)|] == ColumnBytes(col)
    ensures ReadColumns(b, pos, lines, end, |cols| + 1) == Some((cols + [col], at + |ColumnBytes(col)|))
  {
    hide ColumnBytes, ReadColumn, SmallCells;
    ColumnReads(b, at, col, end);
  }

  lemma {:induction false} ColumnsRead(b: seq<byte>, pos: nat, cols: seq<Column>, lines: nat, end: nat)
    requires lines <= MAX_LINES && forall k :: 0 <= k < |cols| ==> |cols[k]| == lines && SmallCells(cols[k])
    requires pos + |ColumnsBytes(cols)| <= end <= |b| && b[pos..pos + |ColumnsBytes(cols)|] == ColumnsBytes(cols)
    ensures ReadColumns(b, pos, lines, end, |cols|) == Some((cols, pos + |ColumnsBytes(cols)|))
  {
    hide ColumnsBytes, ColumnBytes, ReadColumns, SmallCells;
    if cols == [] {
      NoColumns(b, pos, lines, end);
    } else {
      var rest, last := cols[..|cols| - 1], cols[|cols| - 1];
      assert rest + [last] == cols;
      ColumnsMore(rest, last);
      TwoSlices(b, pos, ColumnsBytes(rest), ColumnBytes(last));
      ColumnsRead(b, pos, rest, lines, end);
      OneColumnMore(b, pos, rest, pos + |ColumnsBytes(rest)|, last, lines, end);
    }
  }

  lemma NoColumns(b: seq<byte>, pos: nat, lines: nat, end: nat)
    ensures ReadColumns(b, pos, lines, end, 0) == Some(([], pos)) && ColumnsBytes([]) == []
  {}

  lemma BlobReads(h: Hash, c: Columnar)
    requires Storable(c)
    ensures FromBlob(h, Blob(h, c)) == Some(c)
  {
    hide Le, FromLe, CellBytes, ColumnsBytes, ReadCell, ReadColumns, BlobInput, SmallCells;
    var b := Blob(h, c);
    var end := |b| - 32;
    assert b[..end] == Payload(c) && b[end..] == h(BlobInput(Payload(c)));
    assert b[..9] == Magic() && b[9..13] == Le(c.lines, 4);
    Widths();
    FromLeLe(c.lines, 4);
    var at := |Front(c)|;
    assert b[13..at] == CellBytes(c.template) && b[at..end] == ColumnsBytes(c.columns);
    CellReads(b, 13, c.template);
    ColumnsRead(b, at, c.columns, c.lines, end);
  }

  // ---- What is read was written ----

  lemma CellWritten(b: seq<byte>, pos: nat)
    requires ReadCell(b, pos).Some?
    ensures var (v, next) := ReadCell(b, pos).value;
            && next == pos + |CellBytes(v)| <= |b| && b[pos..next] == CellBytes(v) && |v| < 0x1_0000_0000
  {
    hide Le, FromLe;
    var (v, next) := ReadCell(b, pos).value;
    LeFromLe(b[pos..pos + 4]);
    Widths();
    assert b[pos..next] == b[pos..pos + 4] + v;
  }

  lemma CellsWritten(b: seq<byte>, pos: nat, n: nat)
    requires pos <= |b| && ReadList(CellReader(b), pos, n).Some?
    ensures var (col, at) := ReadList(CellReader(b), pos, n).value;
            && |col| == n && SmallCells(col) && at == pos + |CellsBytes(col)| <= |b| && b[pos..at] == CellsBytes(col)
  {
    hide ReadCell, CellBytes, ReadList, WriteList;
    var small := (v: Cell) => |v| < 0x1_0000_0000;
    forall p: nat | ReadCell(b, p).Some?
      ensures var (v, next) := ReadCell(b, p).value;
              small(v) && next == p + |CellBytes(v)| <= |b| && b[p..next] == CellBytes(v)
    {
      CellWritten(b, p);
    }
    ListWritten(CellReader(b), CellWriter(), b, pos, n);
    ListAll(CellReader(b), small, pos, n);
  }

  lemma ColumnWritten(b: seq<byte>, pos: nat, lines: nat, end: nat)
    requires ReadColumn(b, pos, lines, end).Some?
    ensures var (col, next) := ReadColumn(b, pos, lines, end).value;
            && |col| == lines && SmallCells(col) && next == pos + |ColumnBytes(col)| <= |b| && b[pos..next] == ColumnBytes(col)
  {
    hide Le, FromLe, ReadList, CellReader, CellsBytes, SmallCells;
    var (col, next) := ReadColumn(b, pos, lines, end).value;
    CellsWritten(b, pos + 4, lines);
    LeFromLe(b[pos..pos + 4]);
    assert b[pos..next] == b[pos..pos + 4] + b[pos + 4..next];
  }

  lemma {:induction false} ColumnsWritten(b: seq<byte>, pos: nat, lines: nat, end: nat, k: nat)
    requires pos <= |b| && ReadColumns(b, pos, lines, end, k).Some?
    ensures var (cols, at) := ReadColumns(b, pos, lines, end, k).value;
            && |cols| == k && (forall i :: 0 <= i < k ==> |cols[i]| == lines && SmallCells(cols[i]))
            && at == pos + |ColumnsBytes(cols)| <= |b| && b[pos..at] == ColumnsBytes(cols)
  {
    hide ReadColumn, ColumnBytes, SmallCells;
    if k > 0 {
      ColumnsWritten(b, pos, lines, end, k - 1);
      var (cols, at) := ReadColumns(b, pos, lines, end, k - 1).value;
      ColumnWritten(b, at, lines, end);
      var (col, next) := ReadColumn(b, at, lines, end).value;
      ColumnsMore(cols, col);
      assert b[pos..next] == b[pos..at] + b[at..next];
    }
  }

  lemma BlobWritten(h: Hash, b: seq<byte>, c: Columnar)
    requires FromBlob(h, b) == Some(c)
    ensures Storable(c) && b == Blob(h, c)
  {
    hide Le, FromLe, CellBytes, ColumnsBytes, ReadCell, ReadColumns, BlobInput, SmallCells;
    var end := |b| - 32;
    CellWritten(b, 13);
    var pos := ReadCell(b, 13).value.1;
    ColumnsWritten(b, pos, c.lines, end, 7);
    LeFromLe(b[9..13]);
    FourParts(b, 9, 13, pos, end);
    assert b == b[..end] + b[end..];
  }

  /** A blob is accepted exactly when it is the written form of columns it can carry, and as those. */
  lemma BlobExactly(h: Hash, b: seq<byte>, c: Columnar)
    ensures FromBlob(h, b) == Some(c) <==> Storable(c) && b == Blob(h, c)
  {
    hide FromBlob, Blob, Storable;
    if FromBlob(h, b) == Some(c) { BlobWritten(h, b, c); }
    if Storable(c) && b == Blob(h, c) { BlobReads(h, c); }
  }

  // ---- How large the blob gets ----

  function RowSize(f: Fields): nat
  {
    38 + |f.remote| + |f.time| + |f.verb| + |f.path| + |f.proto|
  }

  lemma RowIsSmall(f: Fields)
    ensures RowSize(f) <= 4 * |Rendered(f)|
    ensures forall k :: 0 <= k < 7 ==> |Cells(f)[k]| <= 8 + |Rendered(f)|
  {
    hide Decimal, Le;
  }

  function RowSizes(fs: seq<Fields>): nat
  {
    if fs == [] then 0 else RowSizes(fs[..|fs| - 1]) + RowSize(fs[|fs| - 1])
  }

  /** What one column takes up. */
  ghost function ColumnSize(fs: seq<Fields>, k: nat): nat
    requires k < 7
  {
    |ColumnBytes(ColumnOf(fs, k))|
  }

  lemma ColumnSizeMore(fs: seq<Fields>, k: nat)
    requires fs != [] && k < 7
    ensures ColumnSize(fs, k) == ColumnSize(fs[..|fs| - 1], k) + 4 + |Cells(fs[|fs| - 1])[k]|
  {
    hide Cells, Le, CellsBytes;
    var rest, last := fs[..|fs| - 1], fs[|fs| - 1];
    assert ColumnOf(fs, k) == ColumnOf(rest, k) + [Cells(last)[k]];
    CellsMore(ColumnOf(rest, k), Cells(last)[k]);
  }

  ghost function SevenSizes(fs: seq<Fields>): nat
  {
    ColumnSize(fs, 0) + ColumnSize(fs, 1) + ColumnSize(fs, 2) + ColumnSize(fs, 3) + ColumnSize(fs, 4) + ColumnSize(fs, 5) + ColumnSize(fs, 6)
  }

  lemma {:induction false} SevenSizesByRow(fs: seq<Fields>)
    ensures SevenSizes(fs) == 28 + RowSizes(fs)
  {
    if fs != [] {
      hide ColumnSize, Le;
      SevenSizesByRow(fs[..|fs| - 1]);
      ColumnSizeMore(fs, 0);
      ColumnSizeMore(fs, 1);
      ColumnSizeMore(fs, 2);
      ColumnSizeMore(fs, 3);
      ColumnSizeMore(fs, 4);
      ColumnSizeMore(fs, 5);
      ColumnSizeMore(fs, 6);
      assert SevenSizes(fs) == 28 + RowSizes(fs);
    }
  }

  lemma {:induction false} ColumnsSize(fs: seq<Fields>, k: nat)
    requires k <= 7
    ensures |ColumnsBytes(ColumnsOf(fs)[..k])| ==
            (if k > 0 then ColumnSize(fs, 0) else 0) + (if k > 1 then ColumnSize(fs, 1) else 0)
            + (if k > 2 then ColumnSize(fs, 2) else 0) + (if k > 3 then ColumnSize(fs, 3) else 0)
            + (if k > 4 then ColumnSize(fs, 4) else 0) + (if k > 5 then ColumnSize(fs, 5) else 0)
            + (if k > 6 then ColumnSize(fs, 6) else 0)
  {
    hide ColumnBytes, ColumnOf;
    if k > 0 {
      ColumnsSize(fs, k - 1);
      var cols := ColumnsOf(fs);
      ColumnsMore(cols[..k - 1], cols[k - 1]);
      assert cols[..k] == cols[..k - 1] + [cols[k - 1]];
    }
  }

  lemma {:induction false} RowsAreSmall(lines: seq<seq<byte>>, fs: seq<Fields>)
    requires |lines| == |fs| && forall i :: 0 <= i < |fs| ==> lines[i] == Rendered(fs[i])
    ensures RowSizes(fs) <= 4 * |Concat(lines)|
  {
    if fs != [] {
      hide Rendered, RowSize;
      RowsAreSmall(lines[..|fs| - 1], fs[..|fs| - 1]);
      RowIsSmall(fs[|fs| - 1]);
    }
  }

  lemma EncodedRows(d: seq<byte>) returns (fs: seq<Fields>)
    requires Encoding(d).Some?
    ensures Encoding(d).value == Columnar(|fs|, Template(), ColumnsOf(fs)) && 0 < |fs| <= MAX_LINES && RowSizes(fs) <= 4 * |d|
    ensures forall i :: 0 <= i < |fs| ==> |Rendered(fs[i])| <= |d|
  {
    hide Parsed, ParsedAll, Lines, Rendered, WellFormed, IsUtf8, ColumnsOf;
    var lines := Lines(d);
    fs := ParsedAll(lines).value;
    ParsedAllRows(lines);
    LinesConcat(d);
    forall i | 0 <= i < |fs| ensures lines[i] == Rendered(fs[i]) && |Rendered(fs[i])| <= |d| {
      ParsedExactly(lines[i], fs[i]);
      PartWithin(lines, i);
    }
    RowsAreSmall(lines, fs);
  }

  /** The blob of a log is at most four times the log and a little more. */
  lemma BlobIsSmall(h: Hash, d: seq<byte>)
    requires Encoding(d).Some?
    ensures |Blob(h, Encoding(d).value)| <= 4 * |d| + 128
  {
    hide Encoding, ColumnsBytes, Rendered, RowSizes, BlobInput, Le;
    var fs := EncodedRows(d);
    SevenSizesByRow(fs);
    ColumnsSize(fs, 7);
    assert ColumnsOf(fs)[..7] == ColumnsOf(fs);
  }

  /** A log below four GiB is always stored in a form that is read back. */
  lemma EncodingIsStorable(d: seq<byte>)
    requires Encoding(d).Some? && |d| < 0xFFFF_FFF0
    ensures Storable(Encoding(d).value)
  {
    hide Encoding, Rendered, RowSizes, Cells;
    var fs := EncodedRows(d);
    forall k, i | 0 <= k < 7 && 0 <= i < |fs| ensures |ColumnsOf(fs)[k][i]| <= 8 + |d| {
      RowIsSmall(fs[i]);
    }
  }

  // ---- The methods ----

  method SplitLines(d: seq<byte>) returns (lines: seq<seq<byte>>)
    ensures lines == Lines(d)
  {
    lines := [];
    var rest := d;
    while rest != []
      invariant lines + Lines(rest) == Lines(d)
      decreases |rest|
    {
      var i := Find(rest, NEWLINE);
      var n := if i.None? then |rest| else i.value + 1;
      assert i.None? ==> rest[..n] == rest && rest[n..] == [];
      lines := lines + [rest[..n]];
      rest := rest[n..];
    }
  }

  /** The cells as they are first collected, the numbers still in text. */
  function TextCells(f: Fields): (r: seq<Cell>)
    ensures |r| == 7
  {
    [f.remote, f.time, f.verb, f.path, f.proto, Decimal(f.status), Decimal(f.size)]
  }

  ghost function TextColumn(fs: seq<Fields>, k: nat): (r: Column)
    requires k < 7
    ensures |r| == |fs|
  {
    seq(|fs|, i requires 0 <= i < |fs| => TextCells(fs[i])[k])
  }

  ghost predicate Collected(columns: seq<Column>, fs: seq<Fields>)
  {
    |columns| == 7 && forall k :: 0 <= k < 7 ==> columns[k] == TextColumn(fs, k)
  }

  method Collect(lines: seq<seq<byte>>) returns (r: Option<seq<Column>>)
    ensures match ParsedAll(lines)
            case None => r == None
            case Some(fs) => r.Some? && Collected(r.value, fs)
  {
    hide Parsed;
    var columns: seq<Column> := [[], [], [], [], [], [], []];
    ghost var seen: seq<Fields> := [];
    for i := 0 to |lines|
      invariant ParsedAll(lines[..i]) == Some(seen) && Collected(columns, seen)
    {
      assert lines[..i + 1][..i] == lines[..i];
      var f := Parsed(lines[i]);
      if f.None? {
        ParsedAllExactly(lines);
        return None;
      }
      columns := PushRow(columns, seen, f.value);
      seen := seen + [f.value];
    }
    assert lines[..|lines|] == lines;
    r := Some(columns);
  }

  method PushRow(columns: seq<Column>, ghost fs: seq<Fields>, f: Fields) returns (out: seq<Column>)
    requires Collected(columns, fs)
    ensures Collected(out, fs + [f])
  {
    hide TextCells;
    var cells := TextCells(f);
    out := columns;
    for k := 0 to 7
      invariant |out| == 7
      invariant forall j :: 0 <= j < k ==> out[j] == TextColumn(fs + [f], j)
      invariant forall j :: k <= j < 7 ==> out[j] == TextColumn(fs, j)
    {
      assert TextColumn(fs + [f], k) == TextColumn(fs, k) + [cells[k]];
      out := out[k := out[k] + [cells[k]]];
    }
  }

  /** Turn a column of numbers from text into little-endian bytes, cell by cell. */
  method ToBinary(column: Column, limit: nat, width: nat, ghost values: seq<nat>) returns (out: Option<Column>)
    requires |values| == |column|
    requires forall i :: 0 <= i < |values| ==> values[i] < limit && column[i] == Decimal(values[i])
    ensures out.Some? && |out.value| == |values|
    ensures forall i :: 0 <= i < |values| ==> out.value[i] == Le(values[i], width)
  {
    hide Decimal, ParseNumber, Le;
    var col := column;
    for i := 0 to |column|
      invariant |col| == |column|
      invariant forall j :: 0 <= j < i ==> col[j] == Le(values[j], width)
      invariant forall j :: i <= j < |col| ==> col[j] == column[j]
    {
      DecimalParses(values[i], limit);
      var n := ParseNumber(col[i], limit);
      if n.None? { return None; }
      col := col[i := Le(n.value, width)];
    }
    out := Some(col);
  }

  lemma ParsedInRange(lines: seq<seq<byte>>, fs: seq<Fields>)
    requires ParsedAll(lines) == Some(fs)
    ensures |fs| == |lines| && forall i :: 0 <= i < |fs| ==> fs[i].status < STATUS_LIMIT && fs[i].size < SIZE_LIMIT
  {
    hide Parsed, Rendered, IsUtf8;
    ParsedAllRows(lines);
    forall i | 0 <= i < |fs| ensures fs[i].status < STATUS_LIMIT && fs[i].size < SIZE_LIMIT {
      ParsedExactly(lines[i], fs[i]);
    }
  }

  method Encode(d: seq<byte>) returns (r: Option<Columnar>)
    ensures r == Encoding(d)
  {
    hide Parsed, ParsedAll, Lines, Le, Decimal;
    var lines := SplitLines(d);
    if lines == [] || |lines| > MAX_LINES { return None; }
    var collected := Collect(lines);
    if collected.None? { return None; }
    ghost var fs := ParsedAll(lines).value;
    ParsedInRange(lines, fs);
    var columns := NumbersToBinary(collected.value, fs);
    r := Some(Columnar(|lines|, Template(), columns));
  }

  method NumbersToBinary(columns: seq<Column>, ghost fs: seq<Fields>) returns (out: seq<Column>)
    requires Collected(columns, fs)
    requires forall i :: 0 <= i < |fs| ==> fs[i].status < STATUS_LIMIT && fs[i].size < SIZE_LIMIT
    ensures out == ColumnsOf(fs)
  {
    hide Le, Decimal;
    var status := ToBinary(columns[5], STATUS_LIMIT, 2, seq(|fs|, i requires 0 <= i < |fs| => fs[i].status));
    var size := ToBinary(columns[6], SIZE_LIMIT, 8, seq(|fs|, i requires 0 <= i < |fs| => fs[i].size));
    out := columns[5 := status.value][6 := size.value];
    forall k | 0 <= k < 7 ensures out[k] == ColumnOf(fs, k) {
    }
  }

  lemma {:induction false} RowRefused(c: Columnar, i: nat, n: nat)
    requires Indexable(c) && i <= n <= |c.columns[0]| && RowTexts(c, i) == None
    ensures RowTexts(c, n) == None
    decreases n
  {
    hide RowText;
    if i < n { RowRefused(c, i, n - 1); }
  }

  method Decode(c: Columnar) returns (r: Option<seq<byte>>)
    requires HasLines(c) ==> Indexable(c)
    ensures r == Decoding(c)
  {
    hide RowText;
    if !HasLines(c) { return None; }
    var n := |c.columns[0]|;
    var out: seq<byte> := [];
    for i := 0 to n
      invariant RowTexts(c, i) == Some(out)
    {
      var line := RowText(Row(c, i));
      if line.None? {
        RowRefused(c, i + 1, n);
        return None;
      }
      out := out + line.value;
    }
    r := Some(out);
  }

  method ToBlob(h: Hash, c: Columnar) returns (out: seq<byte>)
    ensures out == Blob(h, c)
  {
    hide Le, CellBytes, ColumnBytes, Magic;
    out := Magic() + Le(c.lines, 4) + CellBytes(c.template);
    for k := 0 to |c.columns|
      invariant out == Front(c) + ColumnsBytes(c.columns[..k])
    {
      ColumnsMore(c.columns[..k], c.columns[k]);
      assert c.columns[..k] + [c.columns[k]] == c.columns[..k + 1];
      var column := WriteColumn(c.columns[k]);
      out := out + column;
    }
    assert c.columns[..|c.columns|] == c.columns;
    out := out + h(BlobInput(out));
  }

  method WriteColumn(col: Column) returns (out: seq<byte>)
    ensures out == ColumnBytes(col)
  {
    hide Le;
    var cells := Lists.Write(CellWriter(), col);
    out := Le(|col|, 4) + cells;
  }

  method TakeColumn(b: seq<byte>, start: nat, lines: nat, end: nat) returns (r: Option<(Column, nat)>)
    ensures r == ReadColumn(b, start, lines, end)
  {
    hide FromLe, ReadList, CellReader;
    if |b| < start + 4 { return None; }
    var n := FromLe(b[start..start + 4]);
    var left := if end > start + 4 then end - (start + 4) else 0;
    if n != lines || n > left / 4 { return None; }
    r := Lists.Read(CellReader(b), start + 4, n);
  }

  lemma {:induction false} ColumnsBroken(b: seq<byte>, pos: nat, lines: nat, end: nat, i: nat, n: nat)
    requires i <= n && ReadColumns(b, pos, lines, end, i) == None
    ensures ReadColumns(b, pos, lines, end, n) == None
    decreases n
  {
    hide ReadColumn;
    if i < n { ColumnsBroken(b, pos, lines, end, i, n - 1); }
  }

  method ParseBlob(h: Hash, b: seq<byte>) returns (r: Option<Columnar>)
    ensures r == FromBlob(h, b)
  {
    hide FromLe, BlobInput, ReadCell, ReadColumn;
    if |b| < 45 || b[..9] != Magic() { return None; }
    var end := |b| - 32;
    if h(BlobInput(b[..end])) != b[end..] { return None; }
    var lines := FromLe(b[9..13]);
    if lines == 0 || lines > MAX_LINES { return None; }
    var template := ReadCell(b, 13);
    if template.None? { return None; }
    var start := template.value.1;
    var columns, pos := [], start;
    for k := 0 to 7
      invariant ReadColumns(b, start, lines, end, k) == Some((columns, pos))
    {
      var next := TakeColumn(b, pos, lines, end);
      if next.None? {
        ColumnsBroken(b, start, lines, end, k + 1, 7);
        return None;
      }
      columns := columns + [next.value.0];
      pos := next.value.1;
    }
    r := if pos != end then None else Some(Columnar(lines, template.value.0, columns));
  }
}
