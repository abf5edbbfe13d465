/**
 One line of an access log: the seven fields, the line they are written as, and the reader
 that takes a line apart and refuses every line it could not write back byte for byte.
 */
module LogLine {
  import opened Options
  import opened Bytes
  import opened LogText
  import opened Utf8

  datatype Fields = Fields(remote: seq<byte>, time: seq<byte>, verb: seq<byte>, path: seq<byte>, proto: seq<byte>,
                           status: nat, size: nat)

  const SPACE: byte := 0x20
  const DASH: byte := 0x2D
  const OPEN: byte := 0x5B
  const CLOSE: byte := 0x5D
  const QUOTE: byte := 0x22
  const NEWLINE: byte := 0x0A
  const STATUS_LIMIT := 0x1_0000
  const SIZE_LIMIT := 0x1_0000_0000_0000_0000

  // ---- Writing ----

  function HeadText(remote: seq<byte>, time: seq<byte>): seq<byte>
  {
    remote + [SPACE, DASH, SPACE, DASH, SPACE, OPEN] + time + [CLOSE]
  }

  function RequestText(verb: seq<byte>, path: seq<byte>, proto: seq<byte>): seq<byte>
  {
    [SPACE, QUOTE] + verb + [SPACE] + path + [SPACE] + proto + [QUOTE]
  }

  function NumbersText(status: nat, size: nat): seq<byte>
  {
    [SPACE] + Decimal(status) + [SPACE] + Decimal(size) + [NEWLINE]
  }

  function Rendered(f: Fields): seq<byte>
  {
    HeadText(f.remote, f.time) + RequestText(f.verb, f.path, f.proto) + NumbersText(f.status, f.size)
  }

  // ---- Reading ----

  /** The address and the time, and what follows them. */
  function Head(line: seq<byte>): Option<(seq<byte>, seq<byte>, seq<byte>)>
  {
    match Find(line, SPACE)
    case None => None
    case Some(sp) =>
      var rest := line[sp + 1..];
      if !([DASH, SPACE, DASH, SPACE, OPEN] <= rest) then None
      else
        var bracketed := rest[4..];
        match Find(bracketed, CLOSE)
        case None => None
        case Some(rb) => Some((line[..sp], bracketed[1..rb], bracketed[rb + 1..]))
  }

  /** What stands between the next two quotes, and what follows them. */
  function Quoted(s: seq<byte>): Option<(seq<byte>, seq<byte>)>
  {
    match Find(s, QUOTE)
    case None => None
    case Some(q1) =>
      var quoted := s[q1 + 1..];
      match Find(quoted, QUOTE)
      case None => None
      case Some(q2) => Some((quoted[..q2], quoted[q2 + 1..]))
  }

  /** The first two words, and the rest. */
  function Words(req: seq<byte>): Option<(seq<byte>, seq<byte>, seq<byte>)>
  {
    match Find(req, SPACE)
    case None => None
    case Some(m) =>
      var more := req[m + 1..];
      match Find(more, SPACE)
      case None => None
      case Some(p) => Some((req[..m], more[..p], more[p + 1..]))
  }

  /** The three words of the request, and what follows it. */
  function Request(s: seq<byte>): Option<(seq<byte>, seq<byte>, seq<byte>, seq<byte>)>
  {
    match Quoted(s)
    case None => None
    case Some((req, rest)) =>
      match Words(req)
      case None => None
      case Some((verb, path, proto)) => Some((verb, path, proto, rest))
  }

  function Numbers(s: seq<byte>): Option<(nat, nat)>
  {
    match NextWord(s)
    case None => None
    case Some((status, rest)) =>
      match NextWord(rest)
      case None => None
      case Some((size, _)) =>
        var a, b := ParseNumber(status, STATUS_LIMIT), ParseNumber(size, SIZE_LIMIT);
        if a.None? || b.None? then None else Some((a.value, b.value))
  }

  function Parsed(line: seq<byte>): Option<Fields>
  {
    if !IsUtf8(line) then None
    else match Head(line)
      case None => None
      case Some((remote, time, s)) =>
        match Request(s)
        case None => None
        case Some((verb, path, proto, t)) =>
          match Numbers(t)
          case None => None
          case Some((status, size)) =>
            var f := Fields(remote, time, verb, path, proto, status, size);
            if Rendered(f) != line then None else Some(f)
  }

  // ---- What is accepted ----

  ghost predicate WellFormed(f: Fields)
  {
    && SPACE !in f.remote && CLOSE !in f.time
    && SPACE !in f.verb && QUOTE !in f.verb && SPACE !in f.path && QUOTE !in f.path && QUOTE !in f.proto
    && f.status < STATUS_LIMIT && f.size < SIZE_LIMIT
  }

  lemma HeadReads(remote: seq<byte>, time: seq<byte>, rest: seq<byte>)
    requires SPACE !in remote && CLOSE !in time
    ensures Head(HeadText(remote, time) + rest) == Some((remote, time, rest))
  {
    hide Find;
    var line := HeadText(remote, time) + rest;
    var after := [DASH, SPACE, DASH, SPACE, OPEN] + time + [CLOSE] + rest;
    assert line == remote + [SPACE] + after;
    FindIn(remote, SPACE, after);
    assert line[|remote| + 1..] == after && line[..|remote|] == remote;
    var bracketed := [OPEN] + time + [CLOSE] + rest;
    assert after[4..] == bracketed;
    FindIn([OPEN] + time, CLOSE, rest);
    assert bracketed[1..|time| + 1] == time && bracketed[|time| + 2..] == rest;
  }

  lemma QuotedReads(req: seq<byte>, rest: seq<byte>)
    requires QUOTE !in req
    ensures Quoted([SPACE] + [QUOTE] + (req + [QUOTE] + rest)) == Some((req, rest))
  {
    hide Find;
    var quoted := req + [QUOTE] + rest;
    var s := [SPACE] + [QUOTE] + quoted;
    FindIn([SPACE], QUOTE, quoted);
    assert s[2..] == quoted;
    FindIn(req, QUOTE, rest);
    assert quoted[..|req|] == req && quoted[|req| + 1..] == rest;
  }

  lemma WordsRead(verb: seq<byte>, path: seq<byte>, proto: seq<byte>)
    requires SPACE !in verb && SPACE !in path
    ensures Words(verb + [SPACE] + path + [SPACE] + proto) == Some((verb, path, proto))
  {
    hide Find;
    var more := path + [SPACE] + proto;
    var req := verb + [SPACE] + path + [SPACE] + proto;
    assert req == verb + [SPACE] + more;
    FindIn(verb, SPACE, more);
    assert req[..|verb|] == verb && req[|verb| + 1..] == more;
    FindIn(path, SPACE, proto);
    assert more[..|path|] == path && more[|path| + 1..] == proto;
  }

  lemma RequestReads(verb: seq<byte>, path: seq<byte>, proto: seq<byte>, rest: seq<byte>)
    requires SPACE !in verb && QUOTE !in verb && SPACE !in path && QUOTE !in path && QUOTE !in proto
    ensures Request(RequestText(verb, path, proto) + rest) == Some((verb, path, proto, rest))
  {
    hide Quoted, Words;
    var req := verb + [SPACE] + path + [SPACE] + proto;
    assert RequestText(verb, path, proto) + rest == [SPACE] + [QUOTE] + (req + [QUOTE] + rest);
    QuotedReads(req, rest);
    WordsRead(verb, path, proto);
  }

  lemma NumbersRead(status: nat, size: nat)
    requires status < STATUS_LIMIT && size < SIZE_LIMIT
    ensures Numbers(NumbersText(status, size)) == Some((status, size))
  {
    hide Decimal, NextWord, ParseNumber;
    DecimalDigits(status);
    DecimalDigits(size);
    var a, b := Decimal(status), Decimal(size);
    var rest := [SPACE] + b + [NEWLINE];
    assert NumbersText(status, size) == [SPACE] + a + rest;
    DigitsNextWord(a, rest);
    DigitsNextWord(b, [NEWLINE]);
    DecimalParses(status, STATUS_LIMIT);
    DecimalParses(size, SIZE_LIMIT);
  }

  lemma HeadParts(line: seq<byte>)
    requires Head(line).Some?
    ensures var (remote, time, _) := Head(line).value; SPACE !in remote && CLOSE !in time
  {
    var sp := Find(line, SPACE).value;
    var bracketed := line[sp + 1..][4..];
    var rb := Find(bracketed, CLOSE).value;
    var time := bracketed[1..rb];
    forall i | 0 <= i < |time| ensures time[i] != CLOSE {
      assert time[i] == bracketed[..rb][i + 1];
    }
  }

  lemma QuotedPart(s: seq<byte>)
    requires Quoted(s).Some?
    ensures QUOTE !in Quoted(s).value.0
  {
    var quoted := s[Find(s, QUOTE).value + 1..];
    var req := quoted[..Find(quoted, QUOTE).value];
    assert forall i :: 0 <= i < |req| ==> req[i] != QUOTE;
  }

  lemma WordParts(req: seq<byte>)
    requires Words(req).Some?
    ensures var (verb, path, proto) := Words(req).value;
            && SPACE !in verb && SPACE !in path
            && (QUOTE !in req ==> QUOTE !in verb && QUOTE !in path && QUOTE !in proto)
  {
    var m := Find(req, SPACE).value;
    var more := req[m + 1..];
    var p := Find(more, SPACE).value;
    assert forall i :: 0 <= i < |more| ==> more[i] == req[m + 1 + i];
    var proto := more[p + 1..];
    assert forall i :: 0 <= i < |proto| ==> proto[i] == more[p + 1 + i];
  }

  lemma RequestParts(s: seq<byte>)
    requires Request(s).Some?
    ensures var (verb, path, proto, _) := Request(s).value;
            SPACE !in verb && QUOTE !in verb && SPACE !in path && QUOTE !in path && QUOTE !in proto
  {
    hide Quoted, Words;
    QuotedPart(s);
    WordParts(Quoted(s).value.0);
  }

  /** A line is taken apart exactly when it is the written form of well-formed fields, and into those. */
  lemma ParsedExactly(line: seq<byte>, f: Fields)
    ensures Parsed(line) == Some(f) <==> IsUtf8(line) && WellFormed(f) && line == Rendered(f)
  {
    hide Head, Request, Numbers, IsUtf8, HeadText, RequestText, NumbersText;
    if Parsed(line) == Some(f) {
      HeadParts(line);
      RequestParts(Head(line).value.2);
      NumbersInRange(Request(Head(line).value.2).value.3);
    }
    if IsUtf8(line) && WellFormed(f) && line == Rendered(f) {
      var t := NumbersText(f.status, f.size);
      var s := RequestText(f.verb, f.path, f.proto) + t;
      assert line == HeadText(f.remote, f.time) + s;
      HeadReads(f.remote, f.time, s);
      RequestReads(f.verb, f.path, f.proto, t);
      NumbersRead(f.status, f.size);
    }
  }

  lemma NumbersInRange(s: seq<byte>)
    requires Numbers(s).Some?
    ensures Numbers(s).value.0 < STATUS_LIMIT && Numbers(s).value.1 < SIZE_LIMIT
  {}

  lemma PieceOfText(s: seq<byte>, a: seq<byte>, b: byte, rest: seq<byte>)
    requires IsUtf8(s) && s == a + [b] + rest && b < 0x80
    ensures IsUtf8(a) && IsUtf8(rest)
  {
    hide IsUtf8;
    CutAtAscii(s, |a|);
    assert s[..|a|] == a && s[|a| + 1..] == rest;
  }

  /** The fields of a line of text are text. */
  lemma FieldsAreText(f: Fields)
    requires IsUtf8(Rendered(f))
    ensures IsUtf8(f.remote) && IsUtf8(f.time) && IsUtf8(f.verb) && IsUtf8(f.path) && IsUtf8(f.proto)
  {
    hide IsUtf8, NumbersText;
    var n := NumbersText(f.status, f.size);
    var s5 := f.proto + [QUOTE] + n;
    var s4 := f.path + [SPACE] + s5;
    var s3 := f.verb + [SPACE] + s4;
    var s2 := [SPACE] + [QUOTE] + s3;
    var s1 := f.time + [CLOSE] + s2;
    var s0 := [DASH, SPACE, DASH, SPACE] + [OPEN] + s1;
    assert Rendered(f) == f.remote + [SPACE] + s0;
    PieceOfText(Rendered(f), f.remote, SPACE, s0);
    PieceOfText(s0, [DASH, SPACE, DASH, SPACE], OPEN, s1);
    PieceOfText(s1, f.time, CLOSE, s2);
    PieceOfText(s2, [SPACE], QUOTE, s3);
    PieceOfText(s3, f.verb, SPACE, s4);
    PieceOfText(s4, f.path, SPACE, s5);
    PieceOfText(s5, f.proto, QUOTE, n);
  }
}
