/**
 Splitting content at the boundaries of its structure: JSON at the commas of the outermost
 array, tables, logs and text at line ends, everything else in blocks of fixed size; and
 gathering pieces that came out too small.
 */
module Structural {
  import opened Bytes
  import opened Collections
  import opened Hashing
  import opened Chunks
  import opened Utf8

  datatype Kind = Json | Csv | Log | Text | Binary

  const BLOCK := 65536

  // ---- Where each kind is cut ----

  /** The state of the JSON scanner. */
  datatype Scan = Scan(depth: int, inString: bool, escaped: bool)

  function Quoting(s: Scan, b: byte): Scan
  {
    if b == '"' as int && !s.escaped then s.(inString := !s.inString)
    else if b == '\\' as int && s.inString then s.(escaped := !s.escaped)
    else s.(escaped := false)
  }

  function ScanByte(s: Scan, b: byte): Scan
  {
    var q := Quoting(s, b);
    if q.inString then q
    else if b == '{' as int || b == '[' as int then q.(depth := q.depth + 1)
    else if b == '}' as int || b == ']' as int then q.(depth := q.depth - 1)
    else q
  }

  function ScanTo(d: seq<byte>, i: nat): Scan
    requires i <= |d|
  {
    if i == 0 then Scan(0, false, false) else ScanByte(ScanTo(d, i - 1), d[i - 1])
  }

  /** A comma between the records of the outermost array. */
  predicate RecordComma(d: seq<byte>, p: nat)
    requires p < |d|
  {
    d[p] == ',' as int && !ScanTo(d, p + 1).inString && ScanTo(d, p + 1).depth == 1
  }

  /** The positions inside d where a kind is cut. */
  predicate IsCut(kind: Kind, d: seq<byte>, p: nat)
    requires 0 < p < |d|
  {
    match kind
    case Json => if IsUtf8(d) then RecordComma(d, p) else p % BLOCK == 0
    case Binary => p % BLOCK == 0
    case _ => d[p - 1] == '\n' as int
  }

  /** The cuts of d up to a position. */
  ghost function CutsTo(kind: Kind, d: seq<byte>, i: nat): set<nat>
    requires i <= |d|
  {
    set p: nat | 0 < p <= i && p < |d| && IsCut(kind, d, p)
  }

  /** The chunks are d, in order, cut where the kind is cut and nowhere else. */
  ghost predicate SplitOf(h: Hash, kind: Kind, d: seq<byte>, chunks: seq<Chunk>)
  {
    && Joined(chunks) == d && WellNamed(h, chunks)
    && (forall i :: 0 <= i < |chunks| ==> chunks[i].data != [])
    && Ends(chunks) == CutsTo(kind, d, |d|) + if d == [] then {} else {|d|}
  }

  /** A splitter that has read to i and has the piece from `start` still open. */
  ghost predicate Splitting(h: Hash, kind: Kind, d: seq<byte>, chunks: seq<Chunk>, start: nat, i: nat)
  {
    && start <= i <= |d| && Joined(chunks) == d[..start] && WellNamed(h, chunks)
    && (forall k :: 0 <= k < |chunks| ==> chunks[k].data != [])
    && (start < |d| || d == []) && Ends(chunks) == CutsTo(kind, d, i)
  }

  lemma NothingCut(h: Hash, kind: Kind, d: seq<byte>, chunks: seq<Chunk>, start: nat, i: nat)
    requires Splitting(h, kind, d, chunks, start, i) && i < |d|
    requires i + 1 == |d| || !IsCut(kind, d, i + 1)
    ensures Splitting(h, kind, d, chunks, start, i + 1)
  {
    hide IsCut, Joined, Ends;
    assert CutsTo(kind, d, i + 1) == CutsTo(kind, d, i);
  }

  lemma PieceCut(h: Hash, kind: Kind, d: seq<byte>, chunks: seq<Chunk>, start: nat, i: nat)
    requires Splitting(h, kind, d, chunks, start, i)
    requires i + 1 < |d| && IsCut(kind, d, i + 1)
    ensures Splitting(h, kind, d, chunks + [Named(h, d[start..i + 1])], i + 1, i + 1)
  {
    hide IsCut, Joined, Ends, ContentId;
    var c := Named(h, d[start..i + 1]);
    JoinedMore(chunks, c);
    EndsMore(chunks, c);
    assert d[..start] + d[start..i + 1] == d[..i + 1];
    assert CutsTo(kind, d, i + 1) == CutsTo(kind, d, i) + {i + 1};
  }

  lemma LastPiece(h: Hash, kind: Kind, d: seq<byte>, chunks: seq<Chunk>, start: nat)
    requires Splitting(h, kind, d, chunks, start, |d|) && d != []
    ensures SplitOf(h, kind, d, chunks + [Named(h, d[start..])])
  {
    hide IsCut, Joined, Ends, ContentId;
    var c := Named(h, d[start..]);
    JoinedMore(chunks, c);
    EndsMore(chunks, c);
    assert d[..start] + d[start..] == d;
  }

  // ---- The splitters ----

  lemma StartSplitting(h: Hash, kind: Kind, d: seq<byte>)
    requires d != []
    ensures Splitting(h, kind, d, [], 0, 0)
  {}

  lemma NoRecordCommaFirst(d: seq<byte>)
    requires d != []
    ensures !RecordComma(d, 0)
  {
    assert ScanTo(d, 1) == ScanByte(ScanTo(d, 0), d[0]);
  }

  method SplitJson(h: Hash, d: seq<byte>) returns (chunks: seq<Chunk>)
    requires d != [] && IsUtf8(d)
    ensures SplitOf(h, Json, d, chunks)
  {
    hide Joined, Ends, ContentId, IsUtf8, ScanByte, Splitting, SplitOf;
    chunks := [];
    var start, state := 0, Scan(0, false, false);
    StartSplitting(h, Json, d);
    NoRecordCommaFirst(d);
    for i := 0 to |d|
      invariant start < i || i == 0 == start
      invariant state == ScanTo(d, i)
      invariant Splitting(h, Json, d, chunks, start, if i == 0 then 0 else i - 1)
    {
      state := ScanByte(state, d[i]);
      if d[i] == ',' as int && !state.inString && state.depth == 1 {
        PieceCut(h, Json, d, chunks, start, i - 1);
        chunks := chunks + [Named(h, d[start..i])];
        start := i;
      } else if i > 0 {
        NothingCut(h, Json, d, chunks, start, i - 1);
      }
    }
    NothingCut(h, Json, d, chunks, start, |d| - 1);
    LastPiece(h, Json, d, chunks, start);
    chunks := chunks + [Named(h, d[start..])];
  }

  method SplitLines(h: Hash, kind: Kind, d: seq<byte>) returns (chunks: seq<Chunk>)
    requires d != [] && (kind == Csv || kind == Log || kind == Text)
    ensures SplitOf(h, kind, d, chunks)
  {
    hide Joined, Ends, ContentId, Splitting, SplitOf;
    chunks := [];
    var start := 0;
    StartSplitting(h, kind, d);
    for i := 0 to |d|
      invariant start <= i && (start < |d| || d == [])
      invariant Splitting(h, kind, d, chunks, start, i)
    {
      if d[i] == '\n' as int && i + 1 < |d| {
        PieceCut(h, kind, d, chunks, start, i);
        chunks := chunks + [Named(h, d[start..i + 1])];
        start := i + 1;
      } else {
        NothingCut(h, kind, d, chunks, start, i);
      }
    }
    LastPiece(h, kind, d, chunks, start);
    chunks := chunks + [Named(h, d[start..])];
  }

  /** Whether a kind is cut in blocks. */
  predicate InBlocks(kind: Kind, d: seq<byte>)
  {
    kind == Binary || (kind == Json && !IsUtf8(d))
  }

  lemma NoBlockEndsInside(start: nat, p: nat)
    requires start % BLOCK == 0 && start < p < start + BLOCK
    ensures p % BLOCK != 0
  {}

  lemma WithinBlock(h: Hash, kind: Kind, d: seq<byte>, chunks: seq<Chunk>, start: nat, i: nat)
    requires InBlocks(kind, d) && Splitting(h, kind, d, chunks, start, start)
    requires start % BLOCK == 0 && start <= i < start + BLOCK && i <= |d|
    ensures Splitting(h, kind, d, chunks, start, i)
  {
    hide Joined, Ends, IsUtf8;
    forall p: nat | start < p <= i && p < |d| ensures !IsCut(kind, d, p) {
      NoBlockEndsInside(start, p);
    }
    assert CutsTo(kind, d, i) == CutsTo(kind, d, start);
  }

  method SplitFixed(h: Hash, kind: Kind, d: seq<byte>) returns (chunks: seq<Chunk>)
    requires d != [] && InBlocks(kind, d)
    ensures SplitOf(h, kind, d, chunks)
  {
    hide Joined, Ends, ContentId, IsUtf8, Splitting, SplitOf;
    chunks := [];
    var start := 0;
    StartSplitting(h, kind, d);
    while start + BLOCK < |d|
      invariant start % BLOCK == 0 && start < |d|
      invariant Splitting(h, kind, d, chunks, start, start)
    {
      WithinBlock(h, kind, d, chunks, start, start + BLOCK - 1);
      PieceCut(h, kind, d, chunks, start, start + BLOCK - 1);
      chunks := chunks + [Named(h, d[start..start + BLOCK])];
      start := start + BLOCK;
    }
    WithinBlock(h, kind, d, chunks, start, |d| - 1);
    NothingCut(h, kind, d, chunks, start, |d| - 1);
    LastPiece(h, kind, d, chunks, start);
    chunks := chunks + [Named(h, d[start..])];
  }

  method Split(h: Hash, kind: Kind, d: seq<byte>) returns (chunks: seq<Chunk>)
    ensures SplitOf(h, kind, d, chunks)
  {
    if d == [] { return []; }
    hide Joined, Ends, ContentId, IsUtf8;
    if kind == Json && IsUtf8(d) {
      chunks := SplitJson(h, d);
    } else if kind == Json || kind == Binary {
      chunks := SplitFixed(h, kind, d);
    } else {
      chunks := SplitLines(h, kind, d);
    }
  }

  // ---- What a piece looks like ----

  lemma PrefixStep(chunks: seq<Chunk>, k: nat)
    requires k < |chunks|
    ensures Joined(chunks[..k + 1]) == Joined(chunks[..k]) + chunks[k].data
    ensures Ends(chunks[..k + 1]) == Ends(chunks[..k]) + {|Joined(chunks[..k + 1])|}
  {
    hide Joined, Ends;
    assert chunks[..k + 1] == chunks[..k] + [chunks[k]];
    JoinedMore(chunks[..k], chunks[k]);
    EndsMore(chunks[..k], chunks[k]);
  }

  /** Piece i among the ends: one where it starts, one where it stops, none between. */
  lemma {:induction false} EndsAround(chunks: seq<Chunk>, i: nat, n: nat)
    requires i < n <= |chunks| && forall j :: 0 <= j < |chunks| ==> chunks[j].data != []
    ensures Joined(chunks[..i + 1]) <= Joined(chunks[..n])
    ensures |Joined(chunks[..i + 1])| in Ends(chunks[..n])
    ensures i > 0 ==> |Joined(chunks[..i])| in Ends(chunks[..n])
    ensures forall e :: e in Ends(chunks[..n]) ==> e <= |Joined(chunks[..i])| || |Joined(chunks[..i + 1])| <= e <= |Joined(chunks[..n])|
    decreases n
  {
    hide Joined, Ends;
    PrefixStep(chunks, n - 1);
    if n > i + 1 {
      EndsAround(chunks, i, n - 1);
    } else {
      EndsUpTo(chunks, i);
    }
  }

  lemma {:induction false} EndsUpTo(chunks: seq<Chunk>, n: nat)
    requires n <= |chunks|
    ensures forall e :: e in Ends(chunks[..n]) ==> e <= |Joined(chunks[..n])|
    ensures n > 0 ==> |Joined(chunks[..n])| in Ends(chunks[..n])
  {
    hide Joined;
    if n > 0 {
      hide Ends;
      PrefixStep(chunks, n - 1);
      EndsUpTo(chunks, n - 1);
    }
  }

  /** A piece is what lies between two neighbouring cuts. */
  lemma PieceBetween(h: Hash, kind: Kind, d: seq<byte>, chunks: seq<Chunk>, i: nat) returns (a: nat)
    requires SplitOf(h, kind, d, chunks) && i < |chunks|
    ensures var b := a + |chunks[i].data|;
            && a < b <= |d| && chunks[i].data == d[a..b]
            && (if i == 0 then a == 0 else a > 0 && IsCut(kind, d, a))
            && (if i == |chunks| - 1 then b == |d| else b < |d| && IsCut(kind, d, b))
            && forall p: nat :: a < p < b ==> !IsCut(kind, d, p)
  {
    hide Joined, Ends, IsCut, WellNamed;
    assert chunks[..|chunks|] == chunks;
    EndsAround(chunks, i, |chunks|);
    PrefixStep(chunks, i);
    a := |Joined(chunks[..i])|;
    PieceStarts(chunks, i);
    if i < |chunks| - 1 {
      EndsAround(chunks, i + 1, |chunks|);
      PieceStarts(chunks, i + 1);
      PrefixStep(chunks, i + 1);
    }
    forall p: nat | a < p < a + |chunks[i].data| ensures !IsCut(kind, d, p) {
      assert p !in Ends(chunks);
    }
  }

  lemma PieceStarts(chunks: seq<Chunk>, i: nat)
    requires i < |chunks| && forall j :: 0 <= j < |chunks| ==> chunks[j].data != []
    ensures |Joined(chunks[..i])| > 0 <==> i > 0
  {
    hide Joined;
    NothingJoined();
    assert chunks[..0] == [];
    if i > 0 {
      PrefixStep(chunks, i - 1);
    }
  }

  /** A line with its newline, which the last one may lack. */
  predicate IsLine(s: seq<byte>, last: bool)
  {
    s != [] && (last || s[|s| - 1] == 10) && forall j :: 0 <= j < |s| - 1 ==> s[j] != 10
  }

  predicate IsBlock(s: seq<byte>, last: bool)
  {
    if last then 0 < |s| <= 65536 else |s| == 65536
  }

  /** Text is cut in lines. */
  lemma PiecesAreLines(h: Hash, kind: Kind, d: seq<byte>, chunks: seq<Chunk>, i: nat)
    requires SplitOf(h, kind, d, chunks) && kind != Json && kind != Binary && i < |chunks|
    ensures IsLine(chunks[i].data, i == |chunks| - 1)
  {
    hide SplitOf;
    var a := PieceBetween(h, kind, d, chunks, i);
    forall j | 0 <= j < |chunks[i].data| - 1 ensures chunks[i].data[j] != 10 {
      assert !IsCut(kind, d, a + j + 1);
    }
  }

  /** What is neither text nor JSON is cut in blocks. */
  lemma PiecesAreBlocks(h: Hash, kind: Kind, d: seq<byte>, chunks: seq<Chunk>, i: nat)
    requires SplitOf(h, kind, d, chunks) && InBlocks(kind, d) && i < |chunks|
    ensures IsBlock(chunks[i].data, i == |chunks| - 1)
  {
    hide SplitOf, IsUtf8;
    var a := PieceBetween(h, kind, d, chunks, i);
    BlockEnds(a, a + |chunks[i].data|);
    assert |chunks[i].data| > 65536 ==> !IsCut(kind, d, a + 65536);
  }

  /** The outermost array of a JSON text is cut before its commas. */
  lemma PiecesAreRecords(h: Hash, d: seq<byte>, chunks: seq<Chunk>, p: nat)
    requires SplitOf(h, Json, d, chunks) && IsUtf8(d) && 0 < p < |d|
    ensures p in Ends(chunks) <==> RecordComma(d, p)
  {
    hide Joined, Ends, IsUtf8, RecordComma, WellNamed;
  }

  lemma BlockEnds(a: nat, b: nat)
    requires a % BLOCK == 0
    ensures (a + 65536) % BLOCK == 0 && (a < b && b % BLOCK == 0 ==> b - a >= 65536)
  {}

  // ---- Gathering small pieces ----

  function Limit(min: nat): nat { if min == 0 then 1 else min }

  /** Where a run of small pieces ends that holds `held` bytes before piece i: as late as the limit allows. */
  ghost function RunEnd(raw: seq<Chunk>, i: nat, held: nat, min: nat): (e: nat)
    requires i <= |raw|
    ensures i <= e <= |raw|
    decreases |raw| - i
  {
    if i < |raw| && held + |raw[i].data| <= Limit(min) then RunEnd(raw, i + 1, held + |raw[i].data|, min) else i
  }

  /** The group that starts at piece i: a large piece alone, or a run of small ones. */
  ghost function GroupEnd(raw: seq<Chunk>, i: nat, min: nat): (e: nat)
    requires i < |raw|
    ensures i < e <= |raw|
  {
    if |raw[i].data| >= min then i + 1 else RunEnd(raw, i + 1, |raw[i].data|, min)
  }

  ghost function Gathered(h: Hash, raw: seq<Chunk>, i: nat, min: nat): seq<Chunk>
    requires i <= |raw|
    decreases |raw| - i
  {
    if i == |raw| then []
    else
      var e := GroupEnd(raw, i, min);
      [Named(h, Joined(raw[i..e]))] + Gathered(h, raw, e, min)
  }

  // ---- What gathering keeps ----

  lemma JoinedSlice(raw: seq<Chunk>, i: nat, j: nat, k: nat)
    requires i <= j <= k <= |raw|
    ensures Joined(raw[i..k]) == Joined(raw[i..j]) + Joined(raw[j..k])
  {
    hide Concat;
    ConcatTwo(DataOf(raw[i..j]), DataOf(raw[j..k]));
    assert DataOf(raw[i..k]) == DataOf(raw[i..j]) + DataOf(raw[j..k]);
  }

  lemma JoinedSingle(raw: seq<Chunk>, i: nat)
    requires i < |raw|
    ensures Joined(raw[i..i + 1]) == raw[i].data
  {
    ConcatOne(raw[i].data);
    assert DataOf(raw[i..i + 1]) == [raw[i].data];
  }

  lemma {:induction false} RunFits(raw: seq<Chunk>, i: nat, j: nat, min: nat)
    requires i < j <= |raw| && |Joined(raw[i..j])| <= Limit(min)
    ensures var e := RunEnd(raw, j, |Joined(raw[i..j])|, min);
            && |Joined(raw[i..e])| <= Limit(min)
            && (e < |raw| ==> |Joined(raw[i..e])| + |raw[e].data| > Limit(min))
    decreases |raw| - j
  {
    hide Joined;
    if j < |raw| {
      JoinedSlice(raw, i, j, j + 1);
      JoinedSingle(raw, j);
      if |Joined(raw[i..j])| + |raw[j].data| <= Limit(min) { RunFits(raw, i, j + 1, min); }
    }
  }

  /** A group is a large piece, or a run within the limit that the next piece would overflow. */
  lemma GroupFits(raw: seq<Chunk>, i: nat, min: nat)
    requires i < |raw|
    ensures var e := GroupEnd(raw, i, min);
            var group := Joined(raw[i..e]);
            || (e == i + 1 && group == raw[i].data && |group| >= min)
            || (|group| <= Limit(min) && (e < |raw| ==> |group| + |raw[e].data| > Limit(min)))
  {
    hide Joined;
    JoinedSingle(raw, i);
    if |raw[i].data| < min { RunFits(raw, i, i + 1, min); }
  }

  /** The pieces from i to e: a large one alone, or a small one and all that follow it up to the limit. */
  ghost predicate IsGroup(raw: seq<Chunk>, i: nat, e: nat, min: nat)
  {
    && i < e <= |raw|
    && if |raw[i].data| >= min then e == i + 1
       else
         var size, limit := |Joined(raw[i..e])|, if min == 0 then 1 else min;
         size <= limit && (e < |raw| ==> size + |raw[e].data| > limit)
  }

  /** The chunks are the groups of the pieces, one after the other. */
  ghost predicate InGroups(h: Hash, raw: seq<Chunk>, min: nat, out: seq<Chunk>, bounds: seq<nat>)
  {
    && |bounds| == |out| + 1 && bounds[|out|] == |raw|
    && forall k :: 0 <= k < |out| ==>
         IsGroup(raw, bounds[k], bounds[k + 1], min) && out[k] == Named(h, Joined(raw[bounds[k]..bounds[k + 1]]))
  }

  lemma {:induction false} GatheredInGroups(h: Hash, raw: seq<Chunk>, i: nat, min: nat) returns (bounds: seq<nat>)
    requires i <= |raw|
    ensures InGroups(h, raw, min, Gathered(h, raw, i, min), bounds) && bounds[0] == i
    decreases |raw| - i
  {
    hide Joined, ContentId, RunEnd;
    bounds := [i];
    if i < |raw| {
      var e := GroupEnd(raw, i, min);
      GroupExactly(raw, i, min);
      var rest := GatheredInGroups(h, raw, e, min);
      bounds := [i] + rest;
    }
  }

  lemma GroupExactly(raw: seq<Chunk>, i: nat, min: nat)
    requires i < |raw|
    ensures IsGroup(raw, i, GroupEnd(raw, i, min), min)
  {
    hide Joined, RunEnd;
    JoinedSingle(raw, i);
    if |raw[i].data| < min { RunFits(raw, i, i + 1, min); }
  }

  /** A large piece as it came, or a run of pieces within the limit. */
  ghost predicate Sized(raw: seq<Chunk>, c: Chunk, min: nat)
  {
    (c in raw && |c.data| >= min) || |c.data| <= Limit(min)
  }

  /** Two neighbours that the limit kept apart. */
  predicate Apart(a: Chunk, b: Chunk, min: nat)
  {
    |a.data| >= min || |a.data| + |b.data| > Limit(min)
  }

  /**
   The same content under its names, cut at some of the same places, in large pieces as they came
   and runs within the limit, with no two neighbours that could have been one.
   */
  ghost predicate GatheredFrom(h: Hash, raw: seq<Chunk>, min: nat, out: seq<Chunk>)
  {
    && Joined(out) == Joined(raw) && Ends(out) <= Ends(raw) && WellNamed(h, out)
    && (forall i :: 0 <= i < |out| ==> out[i].data != [] && Sized(raw, out[i], min))
    && AllApart(out, min)
  }

  lemma JoinedFirst(c: Chunk, rest: seq<Chunk>)
    ensures Joined([c] + rest) == c.data + Joined(rest)
  {
    hide Concat;
    ConcatFirst(c.data, DataOf(rest));
    assert DataOf([c] + rest) == [c.data] + DataOf(rest);
  }

  lemma {:induction false} GatheredJoins(h: Hash, raw: seq<Chunk>, i: nat, min: nat)
    requires i <= |raw|
    ensures Joined(Gathered(h, raw, i, min)) == Joined(raw[i..])
    decreases |raw| - i
  {
    if i == |raw| {
      assert raw[i..] == [];
    } else {
      hide Joined, GroupEnd, ContentId;
      var e := GroupEnd(raw, i, min);
      GatheredJoins(h, raw, e, min);
      JoinedFirst(Named(h, Joined(raw[i..e])), Gathered(h, raw, e, min));
      JoinedSlice(raw, i, e, |raw|);
      assert raw[i..|raw|] == raw[i..] && raw[e..|raw|] == raw[e..];
      assert Joined(Gathered(h, raw, i, min)) == Joined(raw[i..]);
    }
  }

  lemma GroupSized(h: Hash, raw: seq<Chunk>, i: nat, min: nat)
    requires i < |raw| && WellNamed(h, raw) && raw[i].data != []
    ensures var c := Named(h, Joined(raw[i..GroupEnd(raw, i, min)])); c.data != [] && Sized(raw, c, min)
  {
    hide Joined, GroupEnd, ContentId;
    GroupFits(raw, i, min);
    var e := GroupEnd(raw, i, min);
    JoinedSlice(raw, i, i + 1, e);
    JoinedSingle(raw, i);
    assert raw[i] == Named(h, raw[i].data);
  }

  lemma {:induction false} GatheredSizes(h: Hash, raw: seq<Chunk>, i: nat, min: nat)
    requires i <= |raw| && WellNamed(h, raw) && forall k :: 0 <= k < |raw| ==> raw[k].data != []
    ensures var out := Gathered(h, raw, i, min);
            WellNamed(h, out) && forall k :: 0 <= k < |out| ==> out[k].data != [] && Sized(raw, out[k], min)
    decreases |raw| - i
  {
    if i < |raw| {
      hide Joined, GroupEnd, ContentId, Sized;
      GroupSized(h, raw, i, min);
      GatheredSizes(h, raw, GroupEnd(raw, i, min), min);
    }
  }

  /** A group and the one after it could not have been one. */
  lemma NextApart(h: Hash, raw: seq<Chunk>, i: nat, min: nat)
    requires i < |raw| && GroupEnd(raw, i, min) < |raw|
    ensures var e := GroupEnd(raw, i, min);
            Apart(Named(h, Joined(raw[i..e])), Named(h, Joined(raw[e..GroupEnd(raw, e, min)])), min)
  {
    hide Joined, GroupEnd, ContentId;
    var e := GroupEnd(raw, i, min);
    GroupFits(raw, i, min);
    JoinedSlice(raw, e, e + 1, GroupEnd(raw, e, min));
    JoinedSingle(raw, e);
  }

  ghost predicate AllApart(out: seq<Chunk>, min: nat)
  {
    forall k :: 0 <= k < |out| - 1 ==> Apart(out[k], out[k + 1], min)
  }

  lemma ApartCons(c: Chunk, out: seq<Chunk>, min: nat)
    requires AllApart(out, min) && (out == [] || Apart(c, out[0], min))
    ensures AllApart([c] + out, min)
  {
    hide Apart;
    var all := [c] + out;
    assert forall k :: 0 < k < |all| ==> all[k] == out[k - 1];
  }

  lemma {:induction false} GatheredApart(h: Hash, raw: seq<Chunk>, i: nat, min: nat)
    requires i <= |raw|
    ensures AllApart(Gathered(h, raw, i, min), min)
    decreases |raw| - i
  {
    if i < |raw| {
      hide Joined, GroupEnd, ContentId, Apart, AllApart;
      var e := GroupEnd(raw, i, min);
      GatheredApart(h, raw, e, min);
      if e < |raw| { NextApart(h, raw, i, min); }
      ApartCons(Named(h, Joined(raw[i..e])), Gathered(h, raw, e, min), min);
      assert AllApart(Gathered(h, raw, i, min), min);
    }
  }

  lemma {:induction false} EndsConcat(a: seq<Chunk>, b: seq<Chunk>, p: nat)
    ensures p in Ends(a + b) <==> p in Ends(a) || (p >= |Joined(a)| && p - |Joined(a)| in Ends(b))
  {
    hide Joined;
    if b == [] {
      NothingEnds();
      assert a + b == a;
    } else {
      hide Ends;
      var rest, last := b[..|b| - 1], b[|b| - 1];
      EndsConcat(a, rest, p);
      assert a + b == (a + rest) + [last] && rest + [last] == b;
      EndsMore(a + rest, last);
      EndsMore(rest, last);
      JoinedTwo(a, rest);
      assert p in Ends(a + b) <==> p in Ends(a) || (p >= |Joined(a)| && p - |Joined(a)| in Ends(b));
    }
  }

  lemma NothingEnds()
    ensures Ends([]) == {}
  {}

  lemma JoinedTwo(a: seq<Chunk>, b: seq<Chunk>)
    ensures Joined(a + b) == Joined(a) + Joined(b)
  {
    hide Concat;
    ConcatTwo(DataOf(a), DataOf(b));
    assert DataOf(a + b) == DataOf(a) + DataOf(b);
  }

  lemma LastEnd(chunks: seq<Chunk>)
    requires chunks != []
    ensures |Joined(chunks)| in Ends(chunks)
  {}

  lemma OneEnd(c: Chunk)
    ensures Ends([c]) == {|c.data|}
  {
    hide Joined;
    NothingEnds();
    NothingJoined();
    EndsMore([], c);
    assert [] + [c] == [c];
  }

  lemma {:induction false} GatheredEnds(h: Hash, raw: seq<Chunk>, i: nat, min: nat, p: nat)
    requires i <= |raw| && p in Ends(Gathered(h, raw, i, min))
    ensures p in Ends(raw[i..])
    decreases |raw| - i
  {
    hide Joined, GroupEnd, ContentId, Ends;
    if i == |raw| {
      NothingEnds();
    } else {
      var e := GroupEnd(raw, i, min);
      var c, rest := Named(h, Joined(raw[i..e])), Gathered(h, raw, e, min);
      EndsConcat([c], rest, p);
      OneEnd(c);
      JoinedFirst(c, []);
      NothingJoined();
      assert [c] + [] == [c];
      EndsConcat(raw[i..e], raw[e..], p);
      LastEnd(raw[i..e]);
      assert raw[i..e] + raw[e..] == raw[i..];
      if p >= |c.data| && p - |c.data| in Ends(rest) { GatheredEnds(h, raw, e, min, p - |c.data|); }
    }
  }

  /** Gathering keeps content, names and order of the cuts, and leaves nothing to gather. */
  lemma GatheringIsSound(h: Hash, raw: seq<Chunk>, min: nat)
    requires WellNamed(h, raw) && forall k :: 0 <= k < |raw| ==> raw[k].data != []
    ensures GatheredFrom(h, raw, min, Gathered(h, raw, 0, min))
  {
    hide Joined, Gathered, Ends, Sized, AllApart;
    GatheredJoins(h, raw, 0, min);
    GatheredSizes(h, raw, 0, min);
    GatheredApart(h, raw, 0, min);
    assert raw[0..] == raw;
    forall p | p in Ends(Gathered(h, raw, 0, min)) ensures p in Ends(raw) { GatheredEnds(h, raw, 0, min, p); }
  }

  // ---- Blocks stay blocks ----

  lemma {:induction false} EndsWithin(chunks: seq<Chunk>, p: nat)
    requires p in Ends(chunks)
    ensures p <= |Joined(chunks)|
  {
    hide Joined;
    var rest, last := chunks[..|chunks| - 1], chunks[|chunks| - 1];
    JoinedMore(rest, last);
    assert rest + [last] == chunks;
    if p in Ends(rest) { EndsWithin(rest, p); }
  }

  /** No chunk ends inside another. */
  lemma NoEndInside(chunks: seq<Chunk>, i: nat, p: nat)
    requires i < |chunks| && |Joined(chunks[..i])| < p < |Joined(chunks[..i])| + |chunks[i].data|
    ensures p !in Ends(chunks)
  {
    hide Joined, Ends;
    var before := chunks[..i];
    var upTo := before + [chunks[i]];
    JoinedMore(before, chunks[i]);
    EndsMore(before, chunks[i]);
    EndsConcat(upTo, chunks[i + 1..], p);
    assert upTo + chunks[i + 1..] == chunks;
    if p in Ends(before) { EndsWithin(before, p); }
  }

  lemma NextBlock(a: nat) returns (m: nat)
    ensures a < m <= a + BLOCK && m % BLOCK == 0
  {
    m := (a / BLOCK + 1) * BLOCK;
  }

  /** What is cut in blocks comes in pieces of at most a block. */
  lemma BlocksAreSmall(h: Hash, kind: Kind, d: seq<byte>, raw: seq<Chunk>, i: nat)
    requires InBlocks(kind, d) && SplitOf(h, kind, d, raw) && i < |raw|
    ensures |raw[i].data| <= BLOCK
  {
    hide Joined, Ends, IsUtf8, ContentId;
    var a := |Joined(raw[..i])|;
    if |raw[i].data| > BLOCK {
      var m := NextBlock(a);
      JoinedTwo(raw[..i] + [raw[i]], raw[i + 1..]);
      JoinedMore(raw[..i], raw[i]);
      assert raw[..i] + [raw[i]] + raw[i + 1..] == raw;
      assert m in CutsTo(kind, d, |d|);
      NoEndInside(raw, i, m);
    }
  }

  /** And gathering leaves no chunk above the block or the limit. */
  lemma GatheredBlocksAreSmall(h: Hash, kind: Kind, d: seq<byte>, raw: seq<Chunk>, min: nat, i: nat)
    requires InBlocks(kind, d) && SplitOf(h, kind, d, raw) && i < |Gathered(h, raw, 0, min)|
    ensures var n := |Gathered(h, raw, 0, min)[i].data|; n <= BLOCK || n <= Limit(min)
  {
    hide Joined, Ends, IsUtf8, ContentId, Gathered, IsCut;
    GatheringIsSound(h, raw, min);
    var c := Gathered(h, raw, 0, min)[i];
    if c in raw {
      var k :| 0 <= k < |raw| && raw[k] == c;
      BlocksAreSmall(h, kind, d, raw, k);
    }
  }

  // ---- The gatherer ----

  /** What is out so far, and what is held back from piece `start` on. */
  ghost predicate Gathering(h: Hash, raw: seq<Chunk>, min: nat, n: nat, out: seq<Chunk>, acc: seq<byte>, start: nat)
  {
    && start <= n <= |raw| && out + Gathered(h, raw, start, min) == Gathered(h, raw, 0, min)
    && acc == Joined(raw[start..n]) && |acc| <= Limit(min)
    && (start < n ==> acc != [] && GroupEnd(raw, start, min) == RunEnd(raw, n, |acc|, min))
  }

  lemma GatherStarted(h: Hash, raw: seq<Chunk>, min: nat, n: nat, out: seq<Chunk>)
    requires n < |raw| && raw[n].data != [] && |raw[n].data| < min
    requires out + Gathered(h, raw, n, min) == Gathered(h, raw, 0, min)
    ensures Gathering(h, raw, min, n + 1, out, raw[n].data, n)
  {
    hide Joined, Gathered;
    JoinedSingle(raw, n);
  }

  lemma GatherHeld(h: Hash, raw: seq<Chunk>, min: nat, n: nat, out: seq<Chunk>, acc: seq<byte>, start: nat)
    requires Gathering(h, raw, min, n, out, acc, start) && start < n < |raw|
    requires |acc| + |raw[n].data| <= Limit(min)
    ensures Gathering(h, raw, min, n + 1, out, acc + raw[n].data, start)
  {
    hide Joined, Gathered;
    JoinedSlice(raw, start, n, n + 1);
    JoinedSingle(raw, n);
  }

  lemma GatherPassed(h: Hash, raw: seq<Chunk>, min: nat, n: nat, out: seq<Chunk>)
    requires n < |raw| && WellNamed(h, raw) && |raw[n].data| >= min
    requires out + Gathered(h, raw, n, min) == Gathered(h, raw, 0, min)
    ensures out + [raw[n]] + Gathered(h, raw, n + 1, min) == Gathered(h, raw, 0, min)
  {
    hide Joined, ContentId;
    JoinedSingle(raw, n);
    assert raw[n] == Named(h, raw[n].data);
  }

  lemma GatherFlushed(h: Hash, raw: seq<Chunk>, min: nat, n: nat, out: seq<Chunk>, acc: seq<byte>, start: nat)
    requires Gathering(h, raw, min, n, out, acc, start) && start < n
    requires n == |raw| || |acc| + |raw[n].data| > Limit(min)
    ensures out + [Named(h, acc)] + Gathered(h, raw, n, min) == Gathered(h, raw, 0, min)
  {
    hide Joined, ContentId;
    assert GroupEnd(raw, start, min) == n;
    assert Gathered(h, raw, start, min) == [Named(h, acc)] + Gathered(h, raw, n, min);
  }

  lemma NothingHeld(h: Hash, raw: seq<Chunk>, min: nat, n: nat, out: seq<Chunk>)
    requires n <= |raw| && out + Gathered(h, raw, n, min) == Gathered(h, raw, 0, min)
    ensures Gathering(h, raw, min, n, out, [], n)
  {
    hide Gathered;
    assert raw[n..n] == [];
    NothingJoined();
  }

  method Gather(h: Hash, raw: seq<Chunk>, min: nat) returns (out: seq<Chunk>)
    requires WellNamed(h, raw) && forall i :: 0 <= i < |raw| ==> raw[i].data != []
    ensures out == Gathered(h, raw, 0, min)
    ensures GatheredFrom(h, raw, min, out)
  {
    hide Joined, ContentId, Gathered, GatheredFrom, RunEnd, GroupEnd;
    var acc: seq<byte> := [];
    ghost var start: nat := 0;
    out := [];
    assert [] + Gathered(h, raw, 0, min) == Gathered(h, raw, 0, min);
    NothingHeld(h, raw, min, 0, out);
    for n := 0 to |raw|
      invariant Gathering(h, raw, min, n, out, acc, start) && (acc == [] <==> start == n)
    {
      var c := raw[n];
      if acc == [] && |c.data| >= min {
        GatherPassed(h, raw, min, n, out);
        out := out + [c];
        NothingHeld(h, raw, min, n + 1, out);
        start := n + 1;
      } else if |acc| + |c.data| <= Limit(min) {
        if acc == [] { GatherStarted(h, raw, min, n, out); } else { GatherHeld(h, raw, min, n, out, acc, start); }
        assert acc == [] ==> acc + c.data == c.data;
        acc := acc + c.data;
      } else {
        out, acc, start := FlushAnd(h, raw, min, n, out, acc, start);
      }
    }
    if acc != [] {
      GatherFlushed(h, raw, min, |raw|, out, acc, start);
      out := out + [Named(h, acc)];
    }
    AllGathered(h, raw, min, out);
    GatheringIsSound(h, raw, min);
  }

  lemma AllGathered(h: Hash, raw: seq<Chunk>, min: nat, out: seq<Chunk>)
    requires out + Gathered(h, raw, |raw|, min) == Gathered(h, raw, 0, min)
    ensures out == Gathered(h, raw, 0, min)
  {}

  /** Let go of what is held back, then take up the next piece. */
  method FlushAnd(h: Hash, raw: seq<Chunk>, min: nat, n: nat, out: seq<Chunk>, acc: seq<byte>, ghost start: nat)
      returns (out': seq<Chunk>, acc': seq<byte>, ghost start': nat)
    requires Gathering(h, raw, min, n, out, acc, start) && n < |raw| && WellNamed(h, raw) && raw[n].data != []
    requires acc != [] && start < n && |acc| + |raw[n].data| > Limit(min)
    ensures Gathering(h, raw, min, n + 1, out', acc', start') && (acc' == [] <==> start' == n + 1)
  {
    hide Joined, ContentId, Gathering, Gathered;
    GatherFlushed(h, raw, min, n, out, acc, start);
    out' := out + [Named(h, acc)];
    if |raw[n].data| >= min {
      GatherPassed(h, raw, min, n, out');
      out', acc', start' := out' + [raw[n]], [], n + 1;
      NothingHeld(h, raw, min, n + 1, out');
    } else {
      GatherStarted(h, raw, min, n, out');
      acc', start' := raw[n].data, n;
    }
  }

  method SplitCompact(h: Hash, kind: Kind, d: seq<byte>, min: nat) returns (out: seq<Chunk>, ghost raw: seq<Chunk>)
    ensures SplitOf(h, kind, d, raw) && out == Gathered(h, raw, 0, min) && GatheredFrom(h, raw, min, out)
    ensures Joined(out) == d && WellNamed(h, out)
  {
    hide Joined, Ends, ContentId, IsCut, Gathered;
    var pieces := Split(h, kind, d);
    raw := pieces;
    out := Gather(h, pieces, min);
  }
}
