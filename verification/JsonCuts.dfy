/**
 What the JSON splitter cuts, said of JSON text and not of the scanner: an array text is brackets
 around items with commas between them, an item is made of marks, strings with escapes and nested
 brackets, and the cuts are the commas between the items.
 */
module JsonCuts {
  import opened Bytes
  import opened Hashing
  import opened Chunks
  import opened Utf8
  import opened Structural

  const COMMA: byte := 0x2C
  const QUOTES: byte := 0x22
  const BACKSLASH: byte := 0x5C

  /** A character of a string: by itself, or after a backslash. */
  datatype Char = Ordinary(b: byte) | Escape(b: byte)

  datatype Token = Mark(b: byte) | Quote(chars: seq<Char>) | Nest(open: byte, inner: Tokens, close: byte)

  datatype Tokens = Done | More(head: Token, tail: Tokens)

  predicate Opens(b: byte) { b == '{' as int || b == '[' as int }
  predicate Closes(b: byte) { b == '}' as int || b == ']' as int }

  predicate ProperChar(c: Char)
  {
    c.Ordinary? ==> c.b != QUOTES && c.b != BACKSLASH
  }

  predicate ProperToken(t: Token)
  {
    match t
    case Mark(b) => b != QUOTES && !Opens(b) && !Closes(b)
    case Quote(chars) => forall i :: 0 <= i < |chars| ==> ProperChar(chars[i])
    case Nest(open, inner, close) => Opens(open) && Closes(close) && Proper(inner)
  }

  predicate Proper(ts: Tokens)
  {
    match ts
    case Done => true
    case More(head, tail) => ProperToken(head) && Proper(tail)
  }

  /** No comma but those inside strings and brackets. */
  predicate NoBareComma(ts: Tokens)
  {
    match ts
    case Done => true
    case More(head, tail) => head != Mark(COMMA) && NoBareComma(tail)
  }

  function CharText(c: Char): seq<byte>
  {
    match c case Ordinary(b) => [b] case Escape(b) => [BACKSLASH] + [b]
  }

  function CharsText(chars: seq<Char>): seq<byte>
  {
    if chars == [] then [] else CharsText(chars[..|chars| - 1]) + CharText(chars[|chars| - 1])
  }

  function TokenText(t: Token): seq<byte>
  {
    match t
    case Mark(b) => [b]
    case Quote(chars) => [QUOTES] + CharsText(chars) + [QUOTES]
    case Nest(open, inner, close) => [open] + Text(inner) + [close]
  }

  function Text(ts: Tokens): seq<byte>
  {
    match ts case Done => [] case More(head, tail) => TokenText(head) + Text(tail)
  }

  /** The items with commas between them. */
  function Items(items: seq<Tokens>): seq<byte>
    requires items != []
  {
    var n := |items| - 1;
    if n == 0 then Text(items[0]) else Items(items[..n]) + [COMMA] + Text(items[n])
  }

  function ArrayText(open: byte, items: seq<Tokens>, close: byte): seq<byte>
    requires items != []
  {
    [open] + Items(items) + [close]
  }

  // ---- Runs of the scanner ----

  function Run(s: Scan, w: seq<byte>): Scan
  {
    if w == [] then s else ScanByte(Run(s, w[..|w| - 1]), w[|w| - 1])
  }

  /** The state after byte q. */
  function At(s: Scan, w: seq<byte>, q: nat): Scan
    requires q < |w|
  {
    Run(s, w[..q + 1])
  }

  lemma {:induction false} RunConcat(s: Scan, u: seq<byte>, v: seq<byte>)
    ensures Run(s, u + v) == Run(Run(s, u), v)
  {
    hide ScanByte;
    if v == [] {
      assert u + v == u;
    } else {
      var n := |v| - 1;
      RunConcat(s, u, v[..n]);
      assert (u + v)[..|u + v| - 1] == u + v[..n];
    }
  }

  lemma {:induction false} ScanToIsRun(d: seq<byte>, i: nat)
    requires i <= |d|
    ensures ScanTo(d, i) == Run(Scan(0, false, false), d[..i])
  {
    hide ScanByte;
    if i > 0 {
      ScanToIsRun(d, i - 1);
      assert d[..i][..i - 1] == d[..i - 1];
    }
  }

  lemma ScanToIsAt(d: seq<byte>, p: nat)
    requires p < |d|
    ensures ScanTo(d, p + 1) == At(Scan(0, false, false), d, p)
  {
    ScanToIsRun(d, p + 1);
  }

  function Outside(n: int): Scan { Scan(n, false, false) }
  function Inside(n: int): Scan { Scan(n, true, false) }

  /** A comma that ends a prefix is inside a string or deeper than n. */
  predicate Covered(s: Scan, n: int)
  {
    s.inString || s.depth > n
  }

  /** From outside at depth n the text leads back there, and never above it. */
  ghost predicate Stays(w: seq<byte>, n: int)
  {
    && Run(Outside(n), w) == Outside(n)
    && forall q: nat :: q < |w| ==> At(Outside(n), w, q).depth >= n
  }

  /** And every comma in it is covered. */
  ghost predicate Quiet(w: seq<byte>, n: int)
  {
    Stays(w, n) && forall q: nat :: q < |w| && w[q] == COMMA ==> Covered(At(Outside(n), w, q), n)
  }

  lemma RunOne(s: Scan, b: byte)
    ensures Run(s, [b]) == ScanByte(s, b)
  {
    assert [b][..0] == [];
  }

  /** The states along u + v are those along u and then those along v. */
  lemma AtConcat(s: Scan, u: seq<byte>, v: seq<byte>, q: nat)
    requires q < |u + v|
    ensures q < |u| ==> At(s, u + v, q) == At(s, u, q) && (u + v)[q] == u[q]
    ensures q >= |u| ==> At(s, u + v, q) == At(Run(s, u), v, q - |u|) && (u + v)[q] == v[q - |u|]
  {
    if q >= |u| {
      assert (u + v)[..q + 1] == u + v[..q - |u| + 1];
      RunConcat(s, u, v[..q - |u| + 1]);
    } else {
      assert (u + v)[..q + 1] == u[..q + 1];
    }
  }

  lemma AtOne(s: Scan, b: byte)
    ensures At(s, [b], 0) == Run(s, [b]) == ScanByte(s, b)
  {
    RunOne(s, b);
    assert [b][..1] == [b];
  }

  lemma StaysConcat(u: seq<byte>, v: seq<byte>, n: int)
    requires Stays(u, n) && Stays(v, n)
    ensures Stays(u + v, n)
    ensures Quiet(u, n) && Quiet(v, n) ==> Quiet(u + v, n)
  {
    hide Run, At;
    RunConcat(Outside(n), u, v);
    forall q: nat | q < |u + v|
      ensures At(Outside(n), u + v, q).depth >= n
      ensures Quiet(u, n) && Quiet(v, n) && (u + v)[q] == COMMA ==> Covered(At(Outside(n), u + v, q), n)
    {
      AtConcat(Outside(n), u, v, q);
    }
  }

  lemma NothingStays(n: int)
    ensures Quiet([], n)
  {}

  lemma MarkStays(b: byte, n: int)
    requires b != QUOTES && !Opens(b) && !Closes(b)
    ensures Stays([b], n) && (b != COMMA ==> Quiet([b], n))
  {
    AtOne(Outside(n), b);
  }

  // ---- Strings ----

  /** Inside a string at depth n the text stays inside. */
  ghost predicate StaysInside(w: seq<byte>, n: int)
  {
    && Run(Inside(n), w) == Inside(n)
    && forall q: nat :: q < |w| ==> At(Inside(n), w, q).inString && At(Inside(n), w, q).depth == n
  }

  lemma CharStaysInside(c: Char, n: int)
    requires ProperChar(c)
    ensures StaysInside(CharText(c), n)
  {
    var w := CharText(c);
    if c.Ordinary? {
      AtOne(Inside(n), c.b);
    } else {
      AtOne(Inside(n), BACKSLASH);
      RunConcat(Inside(n), [BACKSLASH], [c.b]);
      AtOne(Scan(n, true, true), c.b);
      assert w[..1] == [BACKSLASH] && w[..2] == w;
    }
  }

  lemma InsideConcat(u: seq<byte>, v: seq<byte>, n: int)
    requires StaysInside(u, n) && StaysInside(v, n)
    ensures StaysInside(u + v, n)
  {
    hide Run, At;
    RunConcat(Inside(n), u, v);
    forall q: nat | q < |u + v|
      ensures At(Inside(n), u + v, q).inString && At(Inside(n), u + v, q).depth == n
    {
      AtConcat(Inside(n), u, v, q);
    }
  }

  lemma {:induction false} CharsStayInside(chars: seq<Char>, n: int)
    requires forall i :: 0 <= i < |chars| ==> ProperChar(chars[i])
    ensures StaysInside(CharsText(chars), n)
  {
    if chars != [] {
      var last := |chars| - 1;
      CharsStayInside(chars[..last], n);
      CharStaysInside(chars[last], n);
      InsideConcat(CharsText(chars[..last]), CharText(chars[last]), n);
    }
  }

  lemma QuoteStays(w: seq<byte>, n: int)
    requires StaysInside(w, n)
    ensures Quiet([QUOTES] + w + [QUOTES], n)
  {
    hide Run, At;
    var s := Outside(n);
    AtOne(s, QUOTES);
    AtOne(Inside(n), QUOTES);
    RunConcat(s, [QUOTES], w);
    RunConcat(s, [QUOTES] + w, [QUOTES]);
    var all := [QUOTES] + w + [QUOTES];
    forall q: nat | q < |all|
      ensures At(s, all, q).depth >= n && (all[q] == COMMA ==> Covered(At(s, all, q), n))
    {
      AtConcat(s, [QUOTES] + w, [QUOTES], q);
      if q < |w| + 1 { AtConcat(s, [QUOTES], w, q); }
    }
  }

  // ---- Brackets ----

  lemma NestStays(open: byte, w: seq<byte>, close: byte, n: int)
    requires Opens(open) && Closes(close) && Stays(w, n + 1)
    ensures Quiet([open] + w + [close], n)
  {
    hide Run, At;
    var s := Outside(n);
    AtOne(s, open);
    AtOne(Outside(n + 1), close);
    RunConcat(s, [open], w);
    RunConcat(s, [open] + w, [close]);
    var all := [open] + w + [close];
    forall q: nat | q < |all|
      ensures At(s, all, q).depth >= n && (all[q] == COMMA ==> Covered(At(s, all, q), n))
    {
      AtConcat(s, [open] + w, [close], q);
      if q < |w| + 1 { AtConcat(s, [open], w, q); }
    }
  }

  lemma {:induction false} TokenStays(t: Token, n: int)
    requires ProperToken(t)
    ensures Stays(TokenText(t), n) && (t != Mark(COMMA) ==> Quiet(TokenText(t), n))
    decreases t
  {
    hide Stays, Quiet, StaysInside;
    match t
    case Mark(b) =>
      MarkStays(b, n);
    case Quote(chars) =>
      CharsStayInside(chars, n);
      QuoteStays(CharsText(chars), n);
      QuietStays(TokenText(t), n);
    case Nest(open, inner, close) =>
      TextStays(inner, n + 1);
      NestStays(open, Text(inner), close, n);
      QuietStays(TokenText(t), n);
  }

  lemma QuietStays(w: seq<byte>, n: int)
    requires Quiet(w, n)
    ensures Stays(w, n)
  {}

  lemma {:induction false} TextStays(ts: Tokens, n: int)
    requires Proper(ts)
    ensures Stays(Text(ts), n) && (NoBareComma(ts) ==> Quiet(Text(ts), n))
    decreases ts
  {
    hide Stays, Quiet;
    match ts
    case Done =>
      NothingStays(n);
      QuietStays([], n);
    case More(head, tail) =>
      TokenStays(head, n);
      TextStays(tail, n);
      StaysConcat(TokenText(head), Text(tail), n);
  }

  // ---- The commas between the items ----

  ghost predicate ProperItems(items: seq<Tokens>)
  {
    items != [] && forall i :: 0 <= i < |items| ==> Proper(items[i]) && NoBareComma(items[i])
  }

  /** Where the comma before item k stands, counted from the start of the items. */
  function CommaBefore(items: seq<Tokens>, k: nat): nat
    requires 0 < k < |items|
  {
    |Items(items[..k])|
  }

  /** The commas that are not covered are those between the items. */
  ghost predicate CutBetween(items: seq<Tokens>, n: int)
    requires items != []
  {
    var w := Items(items);
    && Stays(w, n)
    && forall q: nat :: q < |w| ==>
         ((w[q] == COMMA && !Covered(At(Outside(n), w, q), n)) <==> exists k: nat :: 0 < k < |items| && q == CommaBefore(items, k))
  }

  lemma ItemsMore(items: seq<Tokens>, item: Tokens)
    requires items != []
    ensures Items(items + [item]) == Items(items) + [COMMA] + Text(item)
  {
    assert (items + [item])[..|items|] == items;
  }

  lemma CommaMore(items: seq<Tokens>, item: Tokens, k: nat)
    requires 0 < k <= |items|
    ensures CommaBefore(items + [item], k) == if k == |items| then |Items(items)| else CommaBefore(items, k)
    ensures CommaBefore(items + [item], k) <= |Items(items)|
    ensures k < |items| ==> CommaBefore(items, k) < |Items(items)|
    decreases |items|
  {
    assert (items + [item])[..k] == items[..k];
    if k == |items| {
      assert items[..k] == items;
    } else {
      var n := |items| - 1;
      var front, last := items[..n], items[n];
      assert front + [last] == items;
      ItemsMore(front, last);
      CommaMore(front, last, k);
    }
  }

  lemma CommaPlaces(items: seq<Tokens>, item: Tokens, q: nat)
    requires items != []
    ensures (exists k: nat :: 0 < k < |items| + 1 && q == CommaBefore(items + [item], k)) <==>
            q == |Items(items)| || (q < |Items(items)| && exists k: nat :: 0 < k < |items| && q == CommaBefore(items, k))
  {
    hide CommaBefore, Items;
    CommaMore(items, item, |items|);
    forall k: nat | 0 < k < |items|
      ensures CommaBefore(items + [item], k) == CommaBefore(items, k) < |Items(items)|
    {
      CommaMore(items, item, k);
    }
  }

  /** One more item after a comma. */
  lemma CutMore(items: seq<Tokens>, item: Tokens, n: int)
    requires items != [] && CutBetween(items, n) && Quiet(Text(item), n)
    ensures CutBetween(items + [item], n)
  {
    hide Run, At, CommaBefore, Items, Text;
    var s, u, v := Outside(n), Items(items), Text(item);
    ItemsMore(items, item);
    MarkStays(COMMA, n);
    StaysConcat(u, [COMMA], n);
    StaysConcat(u + [COMMA], v, n);
    AtOne(s, COMMA);
    var w := u + [COMMA] + v;
    forall q: nat | q < |w|
      ensures (w[q] == COMMA && !Covered(At(s, w, q), n)) <==> exists k: nat :: 0 < k < |items| + 1 && q == CommaBefore(items + [item], k)
    {
      CommaPlaces(items, item, q);
      AtConcat(s, u + [COMMA], v, q);
      if q <= |u| { AtConcat(s, u, [COMMA], q); }
    }
  }

  lemma {:induction false} ItemsCut(items: seq<Tokens>, n: int)
    requires ProperItems(items)
    ensures CutBetween(items, n)
  {
    var last := |items| - 1;
    TextStays(items[last], n);
    if last == 0 {
      assert items == [items[0]];
    } else {
      var front := items[..last];
      assert front + [items[last]] == items;
      ItemsCut(front, n);
      CutMore(front, items[last], n);
    }
  }

  /** The record commas of an array text are those between its items. */
  lemma ArrayCuts(open: byte, items: seq<Tokens>, close: byte, p: nat)
    requires Opens(open) && Closes(close) && ProperItems(items) && p < |ArrayText(open, items, close)|
    ensures RecordComma(ArrayText(open, items, close), p) <==> exists k: nat :: 0 < k < |items| && p == 1 + CommaBefore(items, k)
  {
    assert items != [];
    hide Run, At, ScanTo, Items, CommaBefore, ProperItems;
    var w, d := Items(items), ArrayText(open, items, close);
    var s := Outside(0);
    ItemsCut(items, 1);
    ScanToIsAt(d, p);
    AtOne(s, open);
    AtConcat(s, [open] + w, [close], p);
    if p < 1 + |w| {
      AtConcat(s, [open], w, p);
      if p > 0 { ArrayComma(items, w, p - 1); }
    } else {
      CommasWithin(items, p - 1);
    }
  }

  lemma ArrayComma(items: seq<Tokens>, w: seq<byte>, q: nat)
    requires items != [] && CutBetween(items, 1) && w == Items(items) && q < |w|
    ensures (w[q] == COMMA && !At(Outside(1), w, q).inString && At(Outside(1), w, q).depth == 1) <==>
            exists k: nat :: 0 < k < |items| && q == CommaBefore(items, k)
  {
    hide Run, At, CommaBefore, Items;
    assert At(Outside(1), w, q).depth >= 1;
  }

  lemma CommasWithin(items: seq<Tokens>, q: nat)
    requires items != [] && q >= |Items(items)|
    ensures !exists k: nat :: 0 < k < |items| && q == CommaBefore(items, k)
  {
    hide CommaBefore, Items;
    forall k: nat | 0 < k < |items| ensures CommaBefore(items, k) < |Items(items)| {
      CommaMore(items, Done, k);
    }
  }

  /** An array text is cut before the comma of every item but the first, and nowhere else. */
  lemma ArrayIsSplit(h: Hash, open: byte, items: seq<Tokens>, close: byte, chunks: seq<Chunk>)
    requires Opens(open) && Closes(close) && ProperItems(items) && IsUtf8(ArrayText(open, items, close))
    requires SplitOf(h, Json, ArrayText(open, items, close), chunks)
    ensures Joined(chunks) == ArrayText(open, items, close)
    ensures forall p: nat :: p in Ends(chunks) <==>
              p == |ArrayText(open, items, close)| || exists k: nat :: 0 < k < |items| && p == 1 + CommaBefore(items, k)
  {
    assert items != [];
    var d := ArrayText(open, items, close);
    hide Ends, Joined, Items, CommaBefore, RecordComma, IsUtf8, Text, ProperItems, WellNamed;
    forall p: nat ensures p in Ends(chunks) <==> p == |d| || exists k: nat :: 0 < k < |items| && p == 1 + CommaBefore(items, k) {
      if 0 < p < |d| {
        ArrayCuts(open, items, close, p);
      } else if p >= |d| {
        CommasWithin(items, p - 1);
      }
    }
  }
}
