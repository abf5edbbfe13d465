/**
 The BUD-HFM1 envelope: magic, version, length, a table of (symbol, length) pairs and the
 bit-packed canonical codes of the message.
 */
module HuffmanCodec {
  import opened Options
  import opened Bytes
  import opened Sums
  import opened PrefixCodes
  import opened Canonical
  import opened BitPacking
  import opened HuffmanLengths
  import HuffmanTree
  import HuffmanBuilder

  const MAGIC: seq<byte> := [0xB5, 0x48, 0x46, 0x4D, 0x31, 0, 0, 0]
  const VERSION: byte := 1
  const MAX_DECOMPRESSED := 4 * 1024 * 1024 * 1024
  const MAX_CODE_LEN := 32
  const FIXED := 19

  // ---- The length table of a message ----

  /** How often each byte occurs. */
  function Frequencies(data: seq<byte>): (r: seq<nat>)
    ensures |r| == 256
  {
    if data == [] then seq(256, _ => 0)
    else
      var f := Frequencies(data[..|data| - 1]);
      var b := data[|data| - 1];
      f[b := f[b] + 1]
  }

  lemma {:induction false} FrequencyFacts(data: seq<byte>)
    ensures Sum(Frequencies(data)) == |data|
    ensures forall b: byte :: Frequencies(data)[b] > 0 <==> b in data
  {
    if data == [] {
      ZeroSum(256);
    } else {
      var last := |data| - 1;
      var f, b := Frequencies(data[..last]), data[last];
      FrequencyFacts(data[..last]);
      hide Sum;
      SumUpdate(f, b, f[b] + 1);
      assert data == data[..last] + [b];
      assert Sum(Frequencies(data)) == |data|;
    }
  }

  lemma {:induction false} ZeroSum(n: nat)
    ensures Sum(seq(n, _ => 0)) == 0
  {
    if n > 0 {
      ZeroSum(n - 1);
      assert seq(n, _ => 0)[1..] == seq(n - 1, _ => 0);
    }
  }

  /** The code lengths the compressor uses for a message. */
  function MessageLengths(data: seq<byte>): (r: seq<nat>)
    ensures |r| == 256
    ensures forall s :: 0 <= s < 256 ==> r[s] <= 255
  {
    TableFits(Frequencies(data));
    CodeLengths(Frequencies(data))
  }

  ghost predicate NoLongerThan(lens: seq<nat>, m: nat)
  {
    forall s :: 0 <= s < |lens| ==> lens[s] <= m
  }

  lemma LengthsFacts(data: seq<byte>)
    ensures forall b: byte :: MessageLengths(data)[b] > 0 <==> b in data
    ensures Codable(MessageLengths(data), data)
    ensures |data| < LONG_CODES ==> NoLongerThan(MessageLengths(data), MAX_CODE_LEN)
  {
    hide CodeLengths, Frequencies;
    var f := Frequencies(data);
    FrequencyFacts(data);
    LengthsCoverSymbols(f);
    if |data| < LONG_CODES {
      forall s | 0 <= s < 256
        ensures MessageLengths(data)[s] <= MAX_CODE_LEN
      {
        ShortInputsHaveShortCodes(f, s);
      }
    }
  }

  /** With 256 symbols no code is longer than 255 bits. */
  lemma TableFits(freq: seq<nat>)
    requires |freq| == 256
    ensures forall s :: 0 <= s < 256 ==> CodeLengths(freq)[s] <= 255
  {
    if Leaves(freq) == [] {
      NoLeaves(freq);
    } else {
      var t := RootTree(freq);
      hide CodeLengths;
      TreeSymbols(t, freq);
      HuffmanBuilder.HeightBelowSymbols(t, freq);
      HuffmanBuilder.FewSymbols(HuffmanTree.Symbols(t), 256);
      HuffmanTree.WriteDepthsValues(Unused(256), t, 0);
    }
  }

  lemma LengthsFit(data: seq<byte>, m: nat)
    requires m > 0 && NoLongerThan(MessageLengths(data), m)
    ensures Fits(MessageLengths(data), m)
    ensures Sum(HuffmanTree.UsedTerms(MessageLengths(data), m)) <= Pow2(m)
  {
    hide CodeLengths, Frequencies, Leaves, Sum;
    LengthsKraft(Frequencies(data), m);
    TakenIsKraftSum(MessageLengths(data), m);
    Pow2Monotone(m - 1, m);
  }

  // ---- The table section ----

  /** The (symbol, length) pairs of the first n symbols in use. */
  function Table(lens: seq<nat>, n: nat): seq<byte>
    requires n <= |lens| == 256 && forall s :: 0 <= s < |lens| ==> lens[s] <= 255
  {
    if n == 0 then []
    else Table(lens, n - 1) + if lens[n - 1] > 0 then [n - 1, lens[n - 1]] else []
  }

  function UsedCount(lens: seq<nat>, n: nat): (r: nat)
    requires n <= |lens|
    ensures r <= n
  {
    if n == 0 then 0 else UsedCount(lens, n - 1) + if lens[n - 1] > 0 then 1 else 0
  }

  lemma {:induction false} TableSize(lens: seq<nat>, n: nat)
    requires n <= |lens| == 256 && forall s :: 0 <= s < |lens| ==> lens[s] <= 255
    ensures |Table(lens, n)| == 2 * UsedCount(lens, n)
  {
    if n > 0 { TableSize(lens, n - 1); }
  }

  /** The length table the first n pairs describe; a symbol listed twice is refused. */
  function ReadTable(pairs: seq<byte>, n: nat): (r: Option<seq<nat>>)
    requires 2 * n <= |pairs|
    ensures r.Some? ==> |r.value| == 256 && forall s :: 0 <= s < 256 ==> r.value[s] <= 255
  {
    if n == 0 then Some(Unused(256))
    else
      var t := ReadTable(pairs, n - 1);
      var sym, l := pairs[2 * n - 2], pairs[2 * n - 1];
      if t.None? || t.value[sym] != 0 then None else Some(t.value[sym := l])
  }

  lemma {:induction false} ReadTablePrefix(pairs: seq<byte>, more: seq<byte>, n: nat)
    requires 2 * n <= |pairs|
    ensures ReadTable(pairs + more, n) == ReadTable(pairs, n)
  {
    if n > 0 { ReadTablePrefix(pairs, more, n - 1); }
  }

  lemma ReadTableAppend(pairs: seq<byte>, n: nat, sym: byte, l: byte)
    requires |pairs| == 2 * n && ReadTable(pairs, n).Some? && ReadTable(pairs, n).value[sym] == 0
    ensures ReadTable(pairs + [sym, l], n + 1) == Some(ReadTable(pairs, n).value[sym := l])
  {
    ReadTablePrefix(pairs, [sym, l], n);
  }

  /** The lengths of the first n symbols, and nothing known about the others. */
  function Known(lens: seq<nat>, n: nat): (r: seq<nat>)
    requires n <= |lens| == 256
    ensures |r| == 256
  {
    lens[..n] + Unused(256 - n)
  }

  lemma KnownStep(lens: seq<nat>, n: nat)
    requires n < |lens| == 256
    ensures Known(lens, n)[n] == 0 && Known(lens, n + 1) == Known(lens, n)[n := lens[n]]
  {}

  /** Reading back the table gives the lengths of the symbols it covers. */
  lemma {:induction false} ReadBackTable(lens: seq<nat>, n: nat)
    requires n <= |lens| == 256 && forall s :: 0 <= s < |lens| ==> lens[s] <= 255
    ensures |Table(lens, n)| == 2 * UsedCount(lens, n)
    ensures ReadTable(Table(lens, n), UsedCount(lens, n)) == Some(Known(lens, n))
  {
    TableSize(lens, n);
    if n == 0 {
      assert Known(lens, 0) == Unused(256);
    } else {
      hide Known, ReadTable;
      TableSize(lens, n - 1);
      ReadBackTable(lens, n - 1);
      KnownStep(lens, n - 1);
      if lens[n - 1] > 0 {
        ReadTableAppend(Table(lens, n - 1), UsedCount(lens, n - 1), n - 1, lens[n - 1]);
      } else {
        assert Table(lens, n) == Table(lens, n - 1);
        assert Known(lens, n) == Known(lens, n - 1);
      }
    }
  }

  /** Everything before the body. */
  function Header(data: seq<byte>): seq<byte>
  {
    var lens := MessageLengths(data);
    MAGIC + [VERSION] + Le(|data|, 8) + Le(UsedCount(lens, 256), 2) + Table(lens, 256)
  }

  // ---- Parsing ----

  datatype Envelope = Envelope(size: nat, symbols: nat, lens: seq<nat>, body: seq<byte>)

  /** The envelope's sections, or a refusal of a malformed one. */
  function Parse(bytes: seq<byte>): (r: Option<Envelope>)
    ensures r.Some? ==> |r.value.lens| == 256
  {
    if |bytes| < FIXED || bytes[..8] != MAGIC || bytes[8] != VERSION then None
    else
      var size := FromLe(bytes[9..17]);
      var symbols := FromLe(bytes[17..19]);
      if size > MAX_DECOMPRESSED || |bytes| < FIXED + 2 * symbols then None
      else
        var lens := ReadTable(bytes[FIXED..FIXED + 2 * symbols], symbols);
        if lens.None? then None
        else Some(Envelope(size, symbols, lens.value, bytes[FIXED + 2 * symbols..]))
  }

  lemma ParseHeader(data: seq<byte>, body: seq<byte>)
    requires |data| < Pow256(8)
    ensures Parse(Header(data) + body) ==
            if |data| > MAX_DECOMPRESSED then None
            else Some(Envelope(|data|, UsedCount(MessageLengths(data), 256), MessageLengths(data), body))
  {
    hide MessageLengths, Le, FromLe, ReadTable, Pow256;
    var lens := MessageLengths(data);
    var count := UsedCount(lens, 256);
    var size, symbols, table := Le(|data|, 8), Le(count, 2), Table(lens, 256);
    var bytes := Header(data) + body;
    TableSize(lens, 256);
    ReadBackTable(lens, 256);
    Widths();
    FromLeLe(|data|, 8);
    FromLeLe(count, 2);
    assert bytes[..8] == MAGIC && bytes[8] == VERSION;
    assert bytes[9..17] == size && bytes[17..19] == symbols;
    assert bytes[FIXED..FIXED + 2 * count] == table;
    assert bytes[FIXED + 2 * count..] == body;
    assert Known(lens, 256) == lens;
  }

  // ---- What the two directions compute ----

  /**
   The output of the compressor: the header, then the packed code words. The bit buffer holds
   the seven bits a byte can leave behind and one code, so that the body is the packed message
   as long as no code is longer than 57 bits.
   */
  ghost predicate IsCompressed(data: seq<byte>, out: seq<byte>)
  {
    && Header(data) <= out
    && (NoLongerThan(MessageLengths(data), 57) ==> IsPacked(Encode(MessageLengths(data), data), out[|Header(data)|..]))
  }

  /** The lengths pass the decoder's checks: at most 32 bits, within the Kraft bound. */
  ghost predicate KraftOk(lens: seq<nat>)
  {
    && NoLongerThan(lens, MAX_CODE_LEN)
    && Sum(HuffmanTree.UsedTerms(lens, MAX_CODE_LEN)) <= Pow2(MAX_CODE_LEN)
  }

  /** The message of n symbols whose code words the body starts with. */
  ghost predicate IsMessage(e: Envelope, data: seq<byte>)
    requires |e.lens| == 256
  {
    |data| == e.size && Codable(e.lens, data) && Encode(e.lens, data) <= Unpack(e.body)
  }

  /** The answer of the decompressor, for every input. */
  ghost predicate IsDecompressed(bytes: seq<byte>, r: Option<seq<byte>>)
  {
    match Parse(bytes)
    case None => r.None?
    case Some(e) =>
      if e.size == 0 then r == if e.symbols == 0 && e.body == [] then Some([]) else None
      else if e.symbols == 0 || !KraftOk(e.lens) || NoLongerThan(e.lens, 0) then r.None?
      else
        match r
        case Some(data) => IsMessage(e, data)
        case None => forall data: seq<byte> :: !IsMessage(e, data)
  }

  // ---- The round trip ----

  lemma KraftOkFits(lens: seq<nat>)
    requires KraftOk(lens)
    ensures Fits(lens, MAX_CODE_LEN)
  {
    hide Sum;
    TakenIsKraftSum(lens, MAX_CODE_LEN);
  }

  /** The answer is determined: two messages of one envelope are equal. */
  lemma MessageUnique(e: Envelope, a: seq<byte>, b: seq<byte>)
    requires |e.lens| == 256 && KraftOk(e.lens) && IsMessage(e, a) && IsMessage(e, b)
    ensures a == b
  {
    KraftOkFits(e.lens);
    DecodingIsUnique(e.lens, MAX_CODE_LEN, a, b, Unpack(e.body));
  }

  lemma {:induction false} NoneUsed(lens: seq<nat>, n: nat)
    requires n <= |lens|
    ensures UsedCount(lens, n) == 0 <==> forall s :: 0 <= s < n ==> lens[s] == 0
  {
    if n > 0 { NoneUsed(lens, n - 1); }
  }

  /**
   Decompressing what was compressed gives back the message exactly when it is at most 4 GiB
   long and none of its codes is longer than 32 bits; otherwise the envelope is refused.
   */
  lemma RoundTrip(data: seq<byte>, out: seq<byte>, r: Option<seq<byte>>)
    requires |data| < Pow256(8)
    requires IsCompressed(data, out) && IsDecompressed(out, r)
    ensures r == if |data| <= 0x1_0000_0000 && NoLongerThan(MessageLengths(data), 32) then Some(data) else None
  {
    hide MessageLengths, Header, Encode, Pow256, Sum, Unpack, Parse;
    var lens := MessageLengths(data);
    var body := out[|Header(data)|..];
    assert out == Header(data) + body;
    ParseHeader(data, body);
    LengthsFacts(data);
    NoneUsed(lens, 256);
    if |data| > MAX_DECOMPRESSED {
    } else if data == [] {
      EmptyMessage(lens, body);
    } else {
      assert lens[data[0]] > 0;
      if NoLongerThan(lens, MAX_CODE_LEN) {
        LengthsFit(data, MAX_CODE_LEN);
        var e := Envelope(|data|, UsedCount(lens, 256), lens, body);
        assert IsMessage(e, data);
        MessageUnique(e, data, r.value);
      }
    }
  }

  lemma EmptyMessage(lens: seq<nat>, body: seq<byte>)
    requires |lens| == 256 && IsPacked(Encode(lens, []), body)
    ensures body == []
  {}

  /** Every message shorter than 2 Fib(34) - 1 = 11,405,773 bytes comes back. */
  lemma ShortMessagesComeBack(data: seq<byte>, out: seq<byte>, r: Option<seq<byte>>)
    requires |data| < LONG_CODES
    requires IsCompressed(data, out) && IsDecompressed(out, r)
    ensures r == Some(data)
  {
    LengthsFacts(data);
    Widths();
    RoundTrip(data, out, r);
  }

  // ---- The compressor ----

  method CountBytes(data: seq<byte>) returns (freq: seq<nat>)
    ensures freq == Frequencies(data)
  {
    var f := new nat[256](_ => 0);
    assert f[..] == Frequencies([]);
    for i := 0 to |data|
      invariant f[..] == Frequencies(data[..i])
    {
      assert data[..i + 1][..i] == data[..i];
      f[data[i]] := f[data[i]] + 1;
    }
    assert data[..|data|] == data;
    return f[..];
  }

  method WriteTable(lens: seq<nat>) returns (count: nat, table: seq<byte>)
    requires |lens| == 256 && forall s :: 0 <= s < |lens| ==> lens[s] <= 255
    ensures count == UsedCount(lens, 256) && table == Table(lens, 256)
  {
    count, table := 0, [];
    for s := 0 to 256
      invariant count == UsedCount(lens, s) && table == Table(lens, s)
    {
      if lens[s] > 0 {
        count := count + 1;
        table := table + [s, lens[s]];
      }
    }
  }

  /** The symbols in use, sorted by (length, symbol). */
  method SortedSymbols(lens: seq<nat>) returns (order: seq<nat>)
    requires forall s :: 0 <= s < |lens| ==> lens[s] <= 255
    ensures IsOrder(lens, order)
  {
    order := [];
    for l := 1 to 256
      invariant SortedUpTo(lens, order, l, 0)
    {
      for s := 0 to |lens|
        invariant SortedUpTo(lens, order, l, s)
      {
        if lens[s] == l {
          order := order + [s];
        }
      }
    }
  }

  /** The sorted list of the symbols before (l, n) in the order. */
  ghost predicate SortedUpTo(lens: seq<nat>, order: seq<nat>, l: nat, n: nat)
    requires n <= |lens|
  {
    && (forall i :: 0 <= i < |order| ==>
          order[i] < |lens| && 0 < lens[order[i]] && (lens[order[i]] < l || (lens[order[i]] == l && order[i] < n)))
    && (forall i, j :: 0 <= i < j < |order| ==> Earlier(lens, order[i], order[j]))
    && (forall s: nat :: s < |lens| && 0 < lens[s] && (lens[s] < l || (lens[s] == l && s < n)) ==> s in order)
  }

  /** The canonical codes of the symbols in use. */
  ghost predicate CanonicalCodes(lens: seq<nat>, codes: seq<nat>)
  {
    |lens| == |codes| && forall s :: 0 <= s < |lens| && lens[s] > 0 ==> codes[s] == Code(lens, s)
  }

  /** Codes handed out one after the other in canonical order, in 64-bit arithmetic. */
  method AssignCodes(lens: seq<nat>) returns (codes: seq<nat>)
    requires |lens| == 256 && forall s :: 0 <= s < |lens| ==> lens[s] <= 255
    ensures |codes| == 256 && (Fits(lens, 63) ==> CanonicalCodes(lens, codes))
  {
    var order := SortedSymbols(lens);
    codes := Unused(256);
    var code: nat, prev: nat := 0, 0;
    OrderRises(lens, order);
    hide IsOrder, Code, ShiftLeft, Fits, CanonicalCodes, Unused;
    for i := 0 to |order|
      invariant |codes| == 256 && prev == if i == 0 then 0 else lens[order[i - 1]]
      invariant Fits(lens, 63) ==> CodesUpTo(lens, order, i, code, codes)
    {
      var s := order[i];
      if Fits(lens, 63) {
        CodeStep(lens, order, i);
        NextCoded(lens, order, i, code, codes);
      }
      if prev > 0 {
        code := ShiftLeft((code + 1) % TWO64, lens[s] - prev);
      }
      codes := codes[s := code];
      prev := lens[s];
    }
    if Fits(lens, 63) { AllCoded(lens, order, code, codes); }
  }

  lemma OrderRises(lens: seq<nat>, order: seq<nat>)
    requires IsOrder(lens, order)
    ensures forall i :: 0 <= i < |order| ==> order[i] < |lens| && lens[order[i]] > 0
    ensures forall i :: 0 < i < |order| ==> lens[order[i - 1]] <= lens[order[i]]
  {}

  /** The codes of the first i symbols in the order, and the last of them. */
  ghost predicate CodesUpTo(lens: seq<nat>, order: seq<nat>, i: nat, code: nat, codes: seq<nat>)
  {
    && i <= |order| && |codes| == |lens| && (forall j :: 0 <= j < |order| ==> order[j] < |lens|)
    && code == (if i == 0 then 0 else Code(lens, order[i - 1]))
    && forall j :: 0 <= j < i ==> codes[order[j]] == Code(lens, order[j])
  }

  lemma NextCoded(lens: seq<nat>, order: seq<nat>, i: nat, code: nat, codes: seq<nat>)
    requires CodesUpTo(lens, order, i, code, codes) && i < |order|
    ensures var c := Code(lens, order[i]); CodesUpTo(lens, order, i + 1, c, codes[order[i] := c])
  {
    hide Code;
  }

  lemma AllCoded(lens: seq<nat>, order: seq<nat>, code: nat, codes: seq<nat>)
    requires IsOrder(lens, order) && CodesUpTo(lens, order, |order|, code, codes)
    ensures CanonicalCodes(lens, codes)
  {
    hide Code;
    OrderCovers(lens, order);
  }

  lemma OrderCovers(lens: seq<nat>, order: seq<nat>)
    requires IsOrder(lens, order)
    ensures forall s: nat :: s < |lens| && lens[s] > 0 ==> exists i :: 0 <= i < |order| && order[i] == s
  {}

  /** One turn of the loop: from the code before to the code of the next symbol. */
  lemma CodeStep(lens: seq<nat>, order: seq<nat>, i: nat)
    requires IsOrder(lens, order) && i < |order| && Fits(lens, 63)
    ensures order[i] < |lens| && lens[order[i]] > 0
    ensures i == 0 ==> Code(lens, order[i]) == 0
    ensures i > 0 ==>
              && order[i - 1] < |lens| && 0 < lens[order[i - 1]] <= lens[order[i]]
              && Code(lens, order[i]) ==
                 ShiftLeft((Code(lens, order[i - 1]) + 1) % TWO64, lens[order[i]] - lens[order[i - 1]])
  {
    hide Code, Pow2;
    CodeIsWord(lens, order[i]);
    if i == 0 {
      FirstCode(lens, order);
    } else {
      NextCode(lens, order, i);
      CodeIsWord(lens, order[i - 1]);
    }
  }

  lemma CodeIsWord(lens: seq<nat>, s: nat)
    requires s < |lens| && Fits(lens, 63) && lens[s] > 0
    ensures Code(lens, s) < Pow2(lens[s]) < TWO64 && lens[s] < 64
  {
    hide First, Pow2;
    CodeFits(lens, 63, s);
    Pow2Monotone(lens[s], 63);
    Pow63();
  }

  lemma Pow63()
    ensures Pow2(63) < Pow2(64) == TWO64
  {
    Pow64();
    assert Pow2(64) == 2 * Pow2(63);
  }

  /** The packed bytes so far, and the bits still in the buffer. */
  ghost predicate Buffered(body: seq<byte>, buf: nat, cnt: nat, bits: Bits)
  {
    Unpack(body) + ToBits(buf, cnt) == bits
  }

  lemma FlushStep(body: seq<byte>, buf: nat, cnt: nat, bits: Bits)
    requires Buffered(body, buf, cnt, bits) && cnt >= 8
    ensures cnt <= 64 ==> Buffered(body + [ShiftRight(buf, cnt - 8) % 256], buf, cnt - 8, bits)
  {
    hide ToBits, Pow2, Unpack;
    EmitByte(buf, cnt);
    UnpackAppend(body, (buf / Pow2(cnt - 8)) % 256);
  }

  method Flush(start: seq<byte>, buf: nat, pending: nat, ghost bits: Bits) returns (body: seq<byte>, cnt: nat)
    ensures cnt == pending % 8
    ensures pending <= 64 && Buffered(start, buf, pending, bits) ==> Buffered(body, buf, cnt, bits)
  {
    hide ShiftRight, Buffered;
    body, cnt := start, pending;
    while cnt >= 8
      invariant cnt <= pending && cnt % 8 == pending % 8
      invariant pending <= 64 && Buffered(start, buf, pending, bits) ==> Buffered(body, buf, cnt, bits)
    {
      if Buffered(body, buf, cnt, bits) {
        FlushStep(body, buf, cnt, bits);
      }
      body := body + [ShiftRight(buf, cnt - 8) % 256];
      cnt := cnt - 8;
    }
  }

  lemma PushStep(body: seq<byte>, buf: nat, cnt: nat, lens: seq<nat>, data: seq<byte>, i: nat)
    requires |lens| == 256 && Fits(lens, 63) && Codable(lens, data) && i < |data|
    requires cnt + lens[data[i]] <= 64 && Buffered(body, buf, cnt, Encode(lens, data[..i]))
    ensures var s := data[i];
            Buffered(body, Or(ShiftLeft(buf, lens[s]), Code(lens, s)), cnt + lens[s], Encode(lens, data[..i + 1]))
  {
    hide ToBits, Pow2, Unpack, Code, Or, ShiftLeft;
    var s := data[i];
    CodeIsWord(lens, s);
    PushCode(buf, cnt, Code(lens, s), lens[s]);
    assert data[..i + 1][..i] == data[..i];
  }

  /** The buffer holds every code together with what is left of a byte, and the codes are the canonical ones. */
  ghost predicate Packs(lens: seq<nat>, codes: seq<nat>, data: seq<byte>)
  {
    |lens| == 256 && NoLongerThan(lens, 57) && Fits(lens, 63) && Codable(lens, data) && CanonicalCodes(lens, codes)
  }

  /** One symbol: its code enters the buffer and whole bytes leave it. */
  method PushSymbol(start: seq<byte>, buf: nat, cnt: nat, lens: seq<nat>, codes: seq<nat>, ghost data: seq<byte>, ghost i: nat, sym: byte)
    returns (body: seq<byte>, buf': nat, cnt': nat)
    requires |lens| == 256 && |codes| == 256 && i < |data| && cnt < 8 && data[i] == sym
    ensures cnt' < 8
    ensures Packs(lens, codes, data) && Buffered(start, buf, cnt, Encode(lens, data[..i])) ==>
              Buffered(body, buf', cnt', Encode(lens, data[..i + 1]))
  {
    var len := lens[sym];
    ghost var bits: Bits := [];
    buf' := Or(ShiftLeft(buf, len), codes[sym]);
    hide Code, Encode, Buffered, Fits, Or, ShiftLeft;
    if Packs(lens, codes, data) && Buffered(start, buf, cnt, Encode(lens, data[..i])) {
      bits := Encode(lens, data[..i + 1]);
      PushStep(start, buf, cnt, lens, data, i);
      assert len <= 57;
    }
    body, cnt' := Flush(start, buf', cnt + len, bits);
  }

  /** The message as code words, pushed through a 64-bit buffer. */
  method PackMessage(data: seq<byte>, lens: seq<nat>, codes: seq<nat>) returns (body: seq<byte>)
    requires |lens| == 256 && |codes| == 256
    ensures Packs(lens, codes, data) ==> IsPacked(Encode(lens, data), body)
  {
    body := [];
    var buf: nat, cnt: nat := 0, 0;
    assert Packs(lens, codes, data) ==> Buffered(body, buf, cnt, Encode(lens, data[..0]));
    hide Packs, Encode, Buffered, IsPacked, ShiftLeft;
    for i := 0 to |data|
      invariant cnt < 8
      invariant Packs(lens, codes, data) ==> Buffered(body, buf, cnt, Encode(lens, data[..i]))
    {
      body, buf, cnt := PushSymbol(body, buf, cnt, lens, codes, data, i, data[i]);
    }
    assert data[..|data|] == data;
    if Packs(lens, codes, data) {
      FlushTail(body, buf, cnt, Encode(lens, data));
    }
    if cnt > 0 {
      body := body + [ShiftLeft(buf, 8 - cnt) % 256];
    }
  }

  /** The byte that the last bits of the buffer are shifted into. */
  lemma LastByte(buf: nat, cnt: nat)
    requires 0 < cnt < 8
    ensures ToBits(ShiftLeft(buf, 8 - cnt) % 256, 8) == ToBits(buf, cnt) + Padding(8 - cnt)
  {
    hide ToBits, Pow2;
    var w := ShiftLeft(buf, 8 - cnt);
    PushCode(buf, cnt, 0, 8 - cnt);
    OrZero(w);
    Pow8();
    LowBits(w / 256, 8, w % 256, 8);
    assert w == (w / 256) * 256 + w % 256;
    ZeroBits(8 - cnt);
  }

  /** The last byte is filled up with zero bits. */
  lemma FlushTail(body: seq<byte>, buf: nat, cnt: nat, bits: Bits)
    requires Buffered(body, buf, cnt, bits) && cnt < 8
    ensures cnt == 0 ==> IsPacked(bits, body)
    ensures cnt > 0 ==> IsPacked(bits, body + [ShiftLeft(buf, 8 - cnt) % 256])
  {
    hide ToBits, Pow2, Unpack, Padding;
    if cnt == 0 {
      assert ToBits(buf, 0) == [] && Padding(0) == [];
      assert Unpack(body) == bits + Padding(0);
    } else {
      var last := ShiftLeft(buf, 8 - cnt) % 256;
      LastByte(buf, cnt);
      UnpackAppend(body, last);
      assert Unpack(body + [last]) == bits + Padding(8 - cnt);
    }
  }

  lemma {:induction false} ZeroBits(n: nat)
    ensures ToBits(0, n) == Padding(n)
  {
    if n > 0 { ZeroBits(n - 1); }
  }

  method Compress(data: seq<byte>) returns (out: seq<byte>)
    ensures IsCompressed(data, out)
  {
    hide Frequencies, CodeLengths, Table, Le;
    var freq := CountBytes(data);
    var lens := HuffmanBuilder.LengthsByFreq(freq);
    LengthsFacts(data);
    if NoLongerThan(MessageLengths(data), 57) { LengthsFit(data, 63); }
    var count, table := WriteTable(lens);
    out := MAGIC + [VERSION] + Le(|data|, 8) + Le(count, 2) + table;
    var codes := AssignCodes(lens);
    var body := PackMessage(data, lens, codes);
    assert (out + body)[|Header(data)|..] == body;
    out := out + body;
  }

  // ---- The decompressor ----

  method ParseTable(pairs: seq<byte>, n: nat) returns (r: Option<seq<nat>>)
    requires 2 * n == |pairs|
    ensures r == ReadTable(pairs, n)
  {
    var lens := Unused(256);
    for i := 0 to n
      invariant ReadTable(pairs, i) == Some(lens)
    {
      var sym, l := pairs[2 * i], pairs[2 * i + 1];
      if lens[sym] != 0 {
        ReadTableRefuses(pairs, i + 1, n);
        return None;
      }
      lens := lens[sym := l];
    }
    return Some(lens);
  }

  lemma {:induction false} ReadTableRefuses(pairs: seq<byte>, i: nat, n: nat)
    requires i <= n && 2 * n <= |pairs| && ReadTable(pairs, i).None?
    ensures ReadTable(pairs, n).None?
    decreases n
  {
    if i < n { ReadTableRefuses(pairs, i, n - 1); }
  }

  method ParseEnvelope(bytes: seq<byte>) returns (r: Option<Envelope>)
    ensures r == Parse(bytes)
  {
    hide ReadTable, FromLe;
    if |bytes| < FIXED || bytes[..8] != MAGIC || bytes[8] != VERSION {
      return None;
    }
    var size := FromLe(bytes[9..17]);
    if size > MAX_DECOMPRESSED {
      return None;
    }
    var symbols := FromLe(bytes[17..19]);
    if |bytes| < FIXED + 2 * symbols {
      return None;
    }
    var lens := ParseTable(bytes[FIXED..FIXED + 2 * symbols], symbols);
    if lens.None? {
      return None;
    }
    return Some(Envelope(size, symbols, lens.value, bytes[FIXED + 2 * symbols..]));
  }

  method MaxLength(lens: seq<nat>) returns (m: nat)
    ensures NoLongerThan(lens, m)
    ensures m > 0 ==> exists s :: 0 <= s < |lens| && lens[s] == m
  {
    m := 0;
    for i := 0 to |lens|
      invariant forall j :: 0 <= j < i ==> lens[j] <= m
      invariant m > 0 ==> exists s :: 0 <= s < i && lens[s] == m
    {
      if lens[i] > m { m := lens[i]; }
    }
  }

  method KraftCheck(lens: seq<nat>) returns (ok: bool)
    ensures ok <==> KraftOk(lens)
  {
    var m := MaxLength(lens);
    if m > MAX_CODE_LEN {
      return false;
    }
    hide Pow2;
    var acc := 0;
    for i := 0 to |lens|
      invariant acc == Sum(HuffmanTree.UsedTerms(lens[..i], MAX_CODE_LEN))
    {
      UsedTermsGrow(lens, i);
      if lens[i] > 0 {
        acc := acc + Pow2(MAX_CODE_LEN - lens[i]);
      }
    }
    assert lens[..|lens|] == lens;
    return acc <= Pow2(MAX_CODE_LEN);
  }

  lemma UsedTermsGrow(lens: seq<nat>, i: nat)
    requires i < |lens| && NoLongerThan(lens, MAX_CODE_LEN)
    ensures Sum(HuffmanTree.UsedTerms(lens[..i + 1], MAX_CODE_LEN)) ==
            Sum(HuffmanTree.UsedTerms(lens[..i], MAX_CODE_LEN)) + if lens[i] > 0 then Pow2(MAX_CODE_LEN - lens[i]) else 0
  {
    hide Pow2;
    var t := if lens[i] == 0 then 0 else Pow2(MAX_CODE_LEN - lens[i]);
    assert HuffmanTree.UsedTerms(lens[..i + 1], MAX_CODE_LEN) == HuffmanTree.UsedTerms(lens[..i], MAX_CODE_LEN) + [t];
    SumConcat(HuffmanTree.UsedTerms(lens[..i], MAX_CODE_LEN), [t]);
  }

  /** The decoder's view of the code: for every length its number of codes, first code and symbols. */
  datatype Tables = Tables(count: seq<nat>, first: seq<nat>, symbols: seq<seq<nat>>)
  {
    ghost predicate For(lens: seq<nat>)
    {
      && |count| == |first| == |symbols| == MAX_CODE_LEN + 1
      && forall l :: 0 < l <= MAX_CODE_LEN ==>
                       && count[l] == Count(lens, l, |lens|)
                       && first[l] == First(lens, l)
                       && symbols[l] == SymbolsOf(lens, l, |lens|)
    }
  }

  ghost predicate Listed(count: seq<nat>, symbols: seq<seq<nat>>, lens: seq<nat>, n: nat)
    requires n <= |lens|
  {
    && |count| == |symbols| == MAX_CODE_LEN + 1
    && forall l :: 0 < l <= MAX_CODE_LEN ==> count[l] == Count(lens, l, n) && symbols[l] == SymbolsOf(lens, l, n)
  }

  method BuildTables(lens: seq<nat>) returns (t: Tables)
    requires KraftOk(lens)
    ensures t.For(lens)
  {
    var count: seq<nat> := seq(MAX_CODE_LEN + 1, _ => 0);
    var symbols: seq<seq<nat>> := seq(MAX_CODE_LEN + 1, _ => []);
    for sym := 0 to |lens|
      invariant Listed(count, symbols, lens, sym)
    {
      var l := lens[sym];
      if 0 < l <= MAX_CODE_LEN {
        count := count[l := count[l] + 1];
        symbols := symbols[l := symbols[l] + [sym]];
      }
    }
    var first := FirstCodes(lens, count);
    t := Tables(count, first, symbols);
  }

  method FirstCodes(lens: seq<nat>, count: seq<nat>) returns (first: seq<nat>)
    requires KraftOk(lens) && |count| == MAX_CODE_LEN + 1
    requires forall l :: 0 < l <= MAX_CODE_LEN ==> count[l] == Count(lens, l, |lens|)
    ensures |first| == MAX_CODE_LEN + 1 && forall l :: 0 < l <= MAX_CODE_LEN ==> first[l] == First(lens, l)
  {
    KraftOkFits(lens);
    assert First(lens, 1) == 0;
    hide KraftOk, Fits, First, Count, NextFirst;
    first := [0];
    var c: nat := 0;
    for l := 1 to MAX_CODE_LEN + 1
      invariant c == First(lens, l) && FirstUpTo(lens, first, l)
    {
      first := first + [c];
      c := NextFirst(lens, l, c, count[l]);
    }
  }

  ghost predicate FirstUpTo(lens: seq<nat>, first: seq<nat>, n: nat)
  {
    |first| == n && forall l :: 0 < l < n ==> first[l] == First(lens, l)
  }

  /** (c + count) << 1 in a 64-bit word, which it never leaves. */
  function NextFirst(ghost lens: seq<nat>, ghost l: nat, c: nat, n: nat): (r: nat)
    requires Fits(lens, MAX_CODE_LEN) && 0 < l <= MAX_CODE_LEN
    requires c == First(lens, l) && n == Count(lens, l, |lens|)
    ensures r == First(lens, l + 1)
  {
    hide First, Count, Pow2, Fits;
    CodesFit(lens, MAX_CODE_LEN, l);
    Pow2Monotone(l, MAX_CODE_LEN);
    Pow64();
    FirstStep(lens, l + 1);
    ((c + n) * 2) % TWO64
  }

  /** None of the code words starts the given bits. */
  ghost predicate NoWord(lens: seq<nat>, bits: Bits)
  {
    forall s: nat :: s < |lens| && lens[s] > 0 ==> !(CodeWord(lens, s) <= bits)
  }

  /** Where the walk stands: `out` is decoded, and the bits after it up to `pos` start no code word. */
  ghost predicate Walking(e: Envelope, out: seq<byte>, pos: nat, cur: nat)
    requires |e.lens| == 256
  {
    cur <= pos <= 8 * |e.body| && DecodedTo(e, out, pos - cur) && NoWord(e.lens, Unpack(e.body)[pos - cur..pos])
  }

  /** `out` is what the bits before `start` stand for. */
  ghost predicate DecodedTo(e: Envelope, out: seq<byte>, start: nat)
    requires |e.lens| == 256 && start <= 8 * |e.body|
  {
    |out| <= e.size && Codable(e.lens, out) && Encode(e.lens, out) == Unpack(e.body)[..start]
  }

  lemma {:induction false} EncodePrefix(lens: seq<nat>, data: seq<nat>, k: nat)
    requires k <= |data| && forall i :: 0 <= i < |data| ==> data[i] < |lens|
    ensures Encode(lens, data[..k]) <= Encode(lens, data)
  {
    if k < |data| {
      var last := |data| - 1;
      EncodePrefix(lens, data[..last], k);
      assert data[..last][..k] == data[..k];
    } else {
      assert data[..k] == data;
    }
  }

  /** A message goes on with the code word of its next symbol. */
  lemma MessageContinues(e: Envelope, out: seq<byte>, at: nat, data: seq<byte>)
    requires |e.lens| == 256 && KraftOk(e.lens) && Codable(e.lens, out) && |out| < e.size
    requires at <= |Unpack(e.body)| && Encode(e.lens, out) == Unpack(e.body)[..at]
    requires IsMessage(e, data)
    ensures CodeWord(e.lens, data[|out|]) <= Unpack(e.body)[at..]
  {
    hide CodeWord, Unpack;
    var bits := Unpack(e.body);
    KraftOkFits(e.lens);
    hide KraftOk, Fits;
    DecodingIsUnique(e.lens, MAX_CODE_LEN, out, data, bits);
    var next := data[..|out| + 1];
    EncodePrefix(e.lens, data, |out| + 1);
    assert next[..|out|] == out;
    var w := CodeWord(e.lens, data[|out|]);
    assert Encode(e.lens, next) == bits[..at] + w;
    PrefixAfter(bits[..at], w, bits);
  }

  lemma PrefixAfter(u: Bits, w: Bits, bits: Bits)
    requires u + w <= bits
    ensures w <= bits[|u|..]
  {
    assert w == (u + w)[|u|..];
  }

  /** If no code word starts the rest of the body, there is no message. */
  lemma DeadEnd(e: Envelope, out: seq<byte>, at: nat)
    requires |e.lens| == 256 && KraftOk(e.lens) && Codable(e.lens, out) && |out| < e.size
    requires at <= |Unpack(e.body)| && Encode(e.lens, out) == Unpack(e.body)[..at]
    requires NoWord(e.lens, Unpack(e.body)[at..])
    ensures forall data: seq<byte> :: !IsMessage(e, data)
  {
    hide CodeWord, Unpack, Encode, KraftOk;
    forall data: seq<byte>
      ensures !IsMessage(e, data)
    {
      if IsMessage(e, data) {
        MessageContinues(e, out, at, data);
      }
    }
  }

  /** The body ended: what is left over starts no code word. */
  lemma BodyEnded(e: Envelope, out: seq<byte>, pos: nat, cur: nat)
    requires |e.lens| == 256 && KraftOk(e.lens) && Walking(e, out, pos, cur)
    requires |out| < e.size && pos == 8 * |e.body|
    ensures forall data: seq<byte> :: !IsMessage(e, data)
  {
    hide KraftOk, Unpack, Encode, CodeWord;
    var bits := Unpack(e.body);
    assert bits[pos - cur..] == bits[pos - cur..pos];
    DeadEnd(e, out, pos - cur);
  }

  /** As many bits as the longest code start no code word. */
  lemma TooLong(e: Envelope, out: seq<byte>, pos: nat, cur: nat)
    requires |e.lens| == 256 && KraftOk(e.lens) && Walking(e, out, pos, cur)
    requires |out| < e.size && NoLongerThan(e.lens, cur)
    ensures forall data: seq<byte> :: !IsMessage(e, data)
  {
    hide KraftOk, Unpack, Encode, CodeWord;
    var bits := Unpack(e.body);
    var rest := bits[pos - cur..];
    assert bits[pos - cur..pos] == rest[..cur];
    forall s: nat | s < 256 && e.lens[s] > 0
      ensures !(CodeWord(e.lens, s) <= rest)
    {
      ShortPrefix(CodeWord(e.lens, s), rest, cur);
    }
    DeadEnd(e, out, pos - cur);
  }

  lemma ShortPrefix(w: Bits, bits: Bits, n: nat)
    requires |w| <= n <= |bits|
    ensures w <= bits <==> w <= bits[..n]
  {}

  /** The bits since the last symbol, one bit further. */
  lemma PendingGrows(bits: Bits, start: nat, pos: nat)
    requires start <= pos < |bits|
    ensures bits[start..pos + 1] == bits[start..pos] + [bits[pos]]
    ensures FromBits(bits[start..pos + 1]) == 2 * FromBits(bits[start..pos]) + if bits[pos] then 1 else 0
  {
    assert bits[start..pos + 1][..pos - start] == bits[start..pos];
  }

  /** The tables find a symbol: its code word is what has been read. */
  lemma SymbolFound(e: Envelope, out: seq<byte>, pos: nat, cur: nat, sym: nat)
    requires |e.lens| == 256 && Walking(e, out, pos, cur) && pos < 8 * |e.body| && |out| < e.size
    requires sym < 256 && e.lens[sym] == cur + 1
    requires Code(e.lens, sym) == FromBits(Unpack(e.body)[pos - cur..pos + 1])
    ensures Walking(e, out + [sym], pos + 1, 0)
  {
    hide Code, Unpack, ToBits;
    var bits := Unpack(e.body);
    ToFromBits(bits[pos - cur..pos + 1]);
    assert (out + [sym])[..|out|] == out;
    assert bits[..pos + 1] == bits[..pos - cur] + bits[pos - cur..pos + 1];
    assert bits[pos + 1..pos + 1] == [];
  }

  /** The tables find no symbol: what has been read still starts no code word. */
  lemma NothingFound(e: Envelope, out: seq<byte>, pos: nat, cur: nat)
    requires |e.lens| == 256 && KraftOk(e.lens) && Walking(e, out, pos, cur) && pos < 8 * |e.body|
    requires var code := FromBits(Unpack(e.body)[pos - cur..pos + 1]);
             !(First(e.lens, cur + 1) <= code < First(e.lens, cur + 1) + Count(e.lens, cur + 1, 256))
    ensures Walking(e, out, pos + 1, cur + 1)
  {
    WalkingParts(e, out, pos, cur);
    hide *;
    KraftOkFits(e.lens);
    NoWordYet(e.lens, Unpack(e.body), pos - cur, pos, cur + 1);
    WalkingOn(e, out, pos - cur, pos + 1, cur + 1);
  }

  lemma WalkingParts(e: Envelope, out: seq<byte>, pos: nat, cur: nat)
    requires |e.lens| == 256 && Walking(e, out, pos, cur)
    ensures cur <= pos <= 8 * |e.body| && DecodedTo(e, out, pos - cur) && NoWord(e.lens, Unpack(e.body)[pos - cur..pos])
  {}

  lemma WalkingOn(e: Envelope, out: seq<byte>, start: nat, pos: nat, cur: nat)
    requires |e.lens| == 256 && start + cur == pos <= 8 * |e.body|
    requires DecodedTo(e, out, start) && NoWord(e.lens, Unpack(e.body)[start..pos])
    ensures Walking(e, out, pos, cur)
  {
    hide DecodedTo, NoWord, Unpack;
  }

  lemma NoWordYet(lens: seq<nat>, bits: Bits, start: nat, pos: nat, l: nat)
    requires start <= pos < |bits| && l == pos + 1 - start
    requires |lens| == 256 && Fits(lens, MAX_CODE_LEN) && NoWord(lens, bits[start..pos])
    requires var code := FromBits(bits[start..pos + 1]);
             !(First(lens, l) <= code < First(lens, l) + Count(lens, l, 256))
    ensures NoWord(lens, bits[start..pos + 1])
  {
    hide Fits, First, Count, FromBits, CodeWord;
    PendingGrows(bits, start, pos);
    forall s: nat | s < |lens| && lens[s] > 0 ensures !(CodeWord(lens, s) <= bits[start..pos + 1]) {
      WordMissed(lens, s, bits[start..pos], bits[pos]);
    }
  }

  lemma WordMissed(lens: seq<nat>, s: nat, read: Bits, bit: bool)
    requires Fits(lens, MAX_CODE_LEN) && s < |lens| && lens[s] > 0 && NoWord(lens, read)
    requires var code, l := FromBits(read + [bit]), |read| + 1;
             !(First(lens, l) <= code < First(lens, l) + Count(lens, l, |lens|))
    ensures !(CodeWord(lens, s) <= read + [bit])
  {
    hide Fits, First, Count, ToBits, FromBits;
    var w, more := CodeWord(lens, s), read + [bit];
    CodeFits(lens, MAX_CODE_LEN, s);
    FromToBits(Code(lens, s), lens[s]);
    if |w| <= |read| {
      ShortPrefix(w, more, |read|);
      assert more[..|read|] == read;
    } else {
      assert w <= more ==> w == more;
    }
  }

  // ---- The bit walk ----

  /** Bit pos of the body, as a number. */
  lemma BodyBit(body: seq<byte>, pos: nat)
    requires pos < 8 * |body|
    ensures Unpack(body)[pos] == ((body[pos / 8] / Pow2(7 - pos % 8)) % 2 == 1)
  {
    UnpackBit(body, pos);
    BitAt(body[pos / 8], 8, pos % 8);
  }

  /** The loop's variables: the output, the next bit, and the code read since the last symbol. */
  datatype Walk = Walk(out: seq<byte>, pos: nat, code: nat, cur: nat)
  {
    ghost predicate In(e: Envelope)
      requires |e.lens| == 256
    {
      Walking(e, out, pos, cur) && code == FromBits(Unpack(e.body)[pos - cur..pos])
    }
  }

  /** One turn of the decoding loop: one bit read, and a symbol emitted when the tables know the code. */
  method Step(e: Envelope, t: Tables, max: nat, w: Walk) returns (r: Option<Walk>)
    requires |e.lens| == 256 && KraftOk(e.lens) && t.For(e.lens)
    requires NoLongerThan(e.lens, max) && max <= MAX_CODE_LEN
    requires w.In(e) && w.cur <= max && |w.out| < e.size
    ensures r.Some? ==> r.value.In(e) && r.value.cur <= max && r.value.pos == w.pos + 1 <= 8 * |e.body|
    ensures r.None? ==> forall data: seq<byte> :: !IsMessage(e, data)
  {
    hide KraftOk, Unpack, Encode, First, Count, FromBits, Code, SymbolsOf, NoWord, IsMessage;
    var Walk(out, pos, code, cur) := w;
    if pos >= 8 * |e.body| {
      BodyEnded(e, out, pos, cur);
      return None;
    }
    if cur + 1 > max {
      TooLong(e, out, pos, cur);
      return None;
    }
    BodyBit(e.body, pos);
    PendingGrows(Unpack(e.body), pos - cur, pos);
    var bit := (e.body[pos / 8] / Pow2(7 - pos % 8)) % 2;
    code := 2 * code + bit;
    hide Walking, Pow2;
    r := Look(e, t, Walk(out, pos, code, cur));
  }

  /** The table lookup after a bit has been read. */
  method Look(e: Envelope, t: Tables, w: Walk) returns (r: Option<Walk>)
    requires |e.lens| == 256 && KraftOk(e.lens) && t.For(e.lens)
    requires w.cur < MAX_CODE_LEN && w.pos < 8 * |e.body| && |w.out| < e.size
    requires Walking(e, w.out, w.pos, w.cur) && w.code == FromBits(Unpack(e.body)[w.pos - w.cur..w.pos + 1])
    ensures r.Some? && r.value.In(e) && r.value.cur <= w.cur + 1 && r.value.pos == w.pos + 1
  {
    hide KraftOk, Unpack, Encode, First, Count, Walking, FromBits, Code, SymbolsOf;
    var Walk(out, pos, code, cur) := w;
    var cnt, first := t.count[cur + 1], t.first[cur + 1];
    if cnt > 0 && first <= code < first + cnt {
      CodeInRange(e.lens, cur + 1, code);
      var sym := t.symbols[cur + 1][code - first];
      SymbolFound(e, out, pos, cur, sym);
      EmptyBits(Unpack(e.body)[pos + 1..pos + 1]);
      return Some(Walk(out + [sym], pos + 1, 0, 0));
    } else {
      NothingFound(e, out, pos, cur);
      assert pos + 1 - (cur + 1) == pos - cur;
      return Some(Walk(out, pos + 1, code, cur + 1));
    }
  }

  method DecodeBody(e: Envelope, t: Tables, max: nat) returns (r: Option<seq<byte>>)
    requires |e.lens| == 256 && KraftOk(e.lens) && t.For(e.lens)
    requires NoLongerThan(e.lens, max) && max <= MAX_CODE_LEN
    ensures match r { case Some(data) => IsMessage(e, data) case None => forall data: seq<byte> :: !IsMessage(e, data) }
  {
    var w := Walk([], 0, 0, 0);
    assert w.In(e) by { assert FromBits(Unpack(e.body)[0..0]) == 0; }
    hide KraftOk, Unpack, Encode, Walking, FromBits, NoWord, IsMessage;
    while |w.out| < e.size
      invariant w.pos <= 8 * |e.body| && w.In(e) && w.cur <= max
      decreases 8 * |e.body| - w.pos
    {
      var next := Step(e, t, max, w);
      if next.None? {
        return None;
      }
      w := next.value;
    }
    WalkDone(e, w.out, w.pos, w.cur);
    return Some(w.out);
  }

  lemma EmptyBits(b: Bits)
    requires |b| == 0
    ensures FromBits(b) == 0
  {}

  lemma WalkDone(e: Envelope, out: seq<byte>, pos: nat, cur: nat)
    requires |e.lens| == 256 && Walking(e, out, pos, cur) && |out| >= e.size
    ensures IsMessage(e, out)
  {}

  method Decompress(bytes: seq<byte>) returns (r: Option<seq<byte>>)
    ensures IsDecompressed(bytes, r)
  {
    hide Parse, Sum, IsMessage;
    var p := ParseEnvelope(bytes);
    if p.None? {
      return None;
    }
    var e := p.value;
    if e.size == 0 {
      if e.symbols != 0 || e.body != [] {
        return None;
      }
      return Some([]);
    }
    if e.symbols == 0 {
      return None;
    }
    var ok := KraftCheck(e.lens);
    if !ok {
      return None;
    }
    var max := MaxLength(e.lens);
    if max == 0 || max > MAX_CODE_LEN {
      return None;
    }
    var t := BuildTables(e.lens);
    r := DecodeBody(e, t, max);
  }
}
