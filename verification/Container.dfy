/**
 The container file: a header with the root digest of the chunks, then every chunk with its
 length and its own digest; written, read back strictly, and restored to the original content.
 */
module Container {
  import opened Options
  import opened Bytes
  import opened Hashing
  import opened Chunks
  import opened Lists
  import Structural

  datatype Codec = Json | Csv | Log | Text | Jpeg | Png | Mp4 | Pdf | Unknown

  function Code(c: Codec): nat
  {
    match c
    case Json => 1
    case Csv => 2
    case Log => 3
    case Text => 4
    case Mp4 => 10
    case Jpeg => 11
    case Png => 12
    case Pdf => 16
    case Unknown => 0
  }

  function FromCode(v: nat): Codec
  {
    match v
    case 1 => Json
    case 2 => Csv
    case 3 => Log
    case 4 => Text
    case 10 => Mp4
    case 11 => Jpeg
    case 12 => Png
    case 16 => Pdf
    case _ => Unknown
  }

  /** The codes name the codecs; every other code reads as the unknown one. */
  lemma CodesNameCodecs(c: Codec, v: nat)
    ensures FromCode(Code(c)) == c && Code(c) < 256
    ensures FromCode(v) != Unknown ==> Code(FromCode(v)) == v
  {}

  function StructuralKind(c: Codec): Structural.Kind
  {
    match c
    case Json => Structural.Json
    case Csv => Structural.Csv
    case Log => Structural.Log
    case Text => Structural.Text
    case _ => Structural.Binary
  }

  datatype ChunkCodec = Raw | Huffman | Zstd

  function ChunkCode(c: ChunkCodec): byte
  {
    match c case Raw => 0 case Huffman => 1 case Zstd => 2
  }

  function ChunkCodecOf(v: byte): Option<ChunkCodec>
  {
    if v == 0 then Some(Raw) else if v == 1 then Some(Huffman) else if v == 2 then Some(Zstd) else None
  }

  const SHA3_256: byte := 0x16
  const MAX_CHUNK_COUNT := 1_000_000
  const MAX_CHUNK_BYTES := 64 * 1024 * 1024
  const MAX_TOTAL_BYTES := 4 * 1024 * 1024 * 1024

  datatype Header = Header(codec: Codec, algo: byte, digest: Digest, count: nat, total: nat)

  datatype File = File(header: Header, chunkCodec: ChunkCodec, chunks: seq<Chunk>)

  function Magic(): (r: seq<byte>)
    ensures |r| == 8
  {
    [0xB5, 0x55, 0x44, 0xB0, 0x02, 0, 0, 0]
  }

  // ---- Sums over the chunks ----

  function Total(chunks: seq<Chunk>): nat
  {
    if chunks == [] then 0 else Total(chunks[..|chunks| - 1]) + |chunks[|chunks| - 1].data|
  }

  lemma TotalMore(chunks: seq<Chunk>, c: Chunk)
    ensures Total(chunks + [c]) == Total(chunks) + |c.data|
  {
    assert (chunks + [c])[..|chunks|] == chunks;
  }

  function Cids(chunks: seq<Chunk>): seq<byte>
  {
    if chunks == [] then [] else Cids(chunks[..|chunks| - 1]) + chunks[|chunks| - 1].cid
  }

  function RootInput(chunks: seq<Chunk>): seq<byte>
  {
    Ascii("BDLM_BUD_V2") + Cids(chunks)
  }

  function HeaderOf(h: Hash, codec: Codec, chunks: seq<Chunk>): Header
  {
    Header(codec, SHA3_256, h(RootInput(chunks)), |chunks|, Total(chunks))
  }

  ghost predicate WithinLimits(chunks: seq<Chunk>)
  {
    && |chunks| <= 1_000_000 && Total(chunks) <= 0x1_0000_0000
    && forall i :: 0 <= i < |chunks| ==> |chunks[i].data| <= 0x400_0000
  }

  /** A file the constructors build from chunks that carry their names. */
  ghost predicate Proper(h: Hash, f: File)
  {
    WithinLimits(f.chunks) && WellNamed(h, f.chunks) && f.header == HeaderOf(h, f.header.codec, f.chunks)
  }

  // ---- Writing ----

  function HeaderBytes(hd: Header): (r: seq<byte>)
    ensures |r| == 56
  {
    Magic() + Le(Code(hd.codec), 2) + [hd.algo, 32] + hd.digest + Le(hd.count, 4) + Le(hd.total, 8)
  }

  function ChunkBytes(c: Chunk): (r: seq<byte>)
    ensures |r| == 40 + |c.data|
  {
    Le(|c.data|, 8) + c.cid + c.data
  }

  function Body(chunks: seq<Chunk>): seq<byte>
  {
    if chunks == [] then [] else Body(chunks[..|chunks| - 1]) + ChunkBytes(chunks[|chunks| - 1])
  }

  lemma BodyMore(chunks: seq<Chunk>, c: Chunk)
    ensures Body(chunks + [c]) == Body(chunks) + ChunkBytes(c)
  {
    assert (chunks + [c])[..|chunks|] == chunks;
  }

  function Front(f: File): (r: seq<byte>)
    ensures |r| == 61
  {
    HeaderBytes(f.header) + [ChunkCode(f.chunkCodec)] + Le(f.header.count, 4)
  }

  function Encoded(f: File): seq<byte>
  {
    Front(f) + Body(f.chunks)
  }

  // ---- Reading ----

  function ReadHeader(raw: seq<byte>): Option<Header>
    requires |raw| >= 56
  {
    if raw[..8] != Magic() then None
    else Some(Header(FromCode(FromLe(raw[8..10])), raw[10], raw[12..44], FromLe(raw[44..48]), FromLe(raw[48..56])))
  }

  /** One chunk at a position, under the limits and with its name checked. */
  function ReadChunk(h: Hash, raw: seq<byte>, pos: nat, before: nat): Option<(Chunk, nat)>
  {
    if |raw| < pos + 40 then None
    else
      var len := FromLe(raw[pos..pos + 8]);
      if len > MAX_CHUNK_BYTES || pos + 40 + len > |raw| then None
      else
        var c := Chunk(raw[pos + 8..pos + 40], raw[pos + 40..pos + 40 + len]);
        if ContentId(h, c.data) != c.cid || before + len > MAX_TOTAL_BYTES then None
        else Some((c, pos + 40 + len))
  }

  function ReadChunks(h: Hash, raw: seq<byte>, pos: nat, n: nat): Option<(seq<Chunk>, nat)>
  {
    if n == 0 then Some(([], pos))
    else match ReadChunks(h, raw, pos, n - 1)
      case None => None
      case Some((cs, at)) =>
        match ReadChunk(h, raw, at, Total(cs))
        case None => None
        case Some((c, next)) => Some((cs + [c], next))
  }

  function Checked(h: Hash, f: File): bool
  {
    && f.header.algo == SHA3_256 && |f.chunks| == f.header.count && Total(f.chunks) == f.header.total
    && h(RootInput(f.chunks)) == f.header.digest
  }

  function Decoded(h: Hash, raw: seq<byte>): Option<File>
  {
    if |raw| < 61 then None
    else
      var header, codec, n := ReadHeader(raw), ChunkCodecOf(raw[56]), FromLe(raw[57..61]);
      if header.None? || header.value.algo != SHA3_256 || codec.None? || n > MAX_CHUNK_COUNT then None
      else match ReadChunks(h, raw, 61, n)
        case None => None
        case Some((chunks, at)) =>
          var f := File(header.value, codec.value, chunks);
          if at != |raw| || !Checked(h, f) then None else Some(f)
  }

  // ---- What is written is read ----

  lemma HeaderReads(hd: Header, tail: seq<byte>)
    requires hd.count < 0x1_0000_0000 && hd.total < 0x1_0000_0000_0000_0000
    ensures ReadHeader(HeaderBytes(hd) + tail) == Some(hd)
  {
    hide Le, FromLe, Code, FromCode;
    var raw := HeaderBytes(hd) + tail;
    assert raw[..8] == Magic() && raw[8..10] == Le(Code(hd.codec), 2) && raw[10] == hd.algo && raw[12..44] == hd.digest;
    assert raw[44..48] == Le(hd.count, 4) && raw[48..56] == Le(hd.total, 8);
    Widths();
    CodesNameCodecs(hd.codec, 0);
    FromLeLe(Code(hd.codec), 2);
    FromLeLe(hd.count, 4);
    FromLeLe(hd.total, 8);
  }

  lemma ChunkReads(h: Hash, raw: seq<byte>, pos: nat, before: nat, c: Chunk)
    requires pos + |ChunkBytes(c)| <= |raw| && raw[pos..pos + |ChunkBytes(c)|] == ChunkBytes(c)
    requires c.cid == ContentId(h, c.data) && |c.data| <= MAX_CHUNK_BYTES && before + |c.data| <= MAX_TOTAL_BYTES
    ensures ReadChunk(h, raw, pos, before) == Some((c, pos + |ChunkBytes(c)|))
  {
    hide Le, FromLe, ContentId;
    var b := ChunkBytes(c);
    assert b[0..8] == Le(|c.data|, 8) && b[8..40] == c.cid && b[40..] == c.data;
    SubSlice(raw, pos, b, 0, 8);
    SubSlice(raw, pos, b, 8, 40);
    SubSlice(raw, pos, b, 40, |b|);
    Widths();
    FromLeLe(|c.data|, 8);
  }

  lemma LimitsOfPrefix(chunks: seq<Chunk>)
    requires chunks != [] && WithinLimits(chunks)
    ensures WithinLimits(chunks[..|chunks| - 1])
  {}

  lemma {:induction false} ChunksRead(h: Hash, front: seq<byte>, chunks: seq<Chunk>, tail: seq<byte>)
    requires WellNamed(h, chunks) && WithinLimits(chunks)
    ensures ReadChunks(h, front + Body(chunks) + tail, |front|, |chunks|) == Some((chunks, |front| + |Body(chunks)|))
    decreases |chunks|, 0
  {
    if chunks == [] {
      assert front + Body(chunks) + tail == front + tail;
    } else {
      var rest, last := chunks[..|chunks| - 1], chunks[|chunks| - 1];
      assert rest + [last] == chunks;
      LimitsOfPrefix(chunks);
      ChunksReadMore(h, front, rest, last, tail);
    }
  }

  lemma ReadOneMore(h: Hash, raw: seq<byte>, pos: nat, cs: seq<Chunk>, at: nat, c: Chunk)
    requires ReadChunks(h, raw, pos, |cs|) == Some((cs, at))
    requires at + |ChunkBytes(c)| <= |raw| && raw[at..at + |ChunkBytes(c)|] == ChunkBytes(c)
    requires c.cid == ContentId(h, c.data) && |c.data| <= MAX_CHUNK_BYTES && Total(cs) + |c.data| <= MAX_TOTAL_BYTES
    ensures ReadChunks(h, raw, pos, |cs| + 1) == Some((cs + [c], at + |ChunkBytes(c)|))
  {
    hide ChunkBytes, ReadChunk, ContentId, Total;
    ChunkReads(h, raw, at, Total(cs), c);
  }

  lemma LastWithinLimits(h: Hash, rest: seq<Chunk>, last: Chunk)
    requires WellNamed(h, rest + [last]) && WithinLimits(rest + [last])
    ensures WellNamed(h, rest) && last.cid == ContentId(h, last.data)
    ensures |last.data| <= MAX_CHUNK_BYTES && Total(rest) + |last.data| <= MAX_TOTAL_BYTES
  {
    hide ContentId, Total;
    var chunks := rest + [last];
    TotalMore(rest, last);
    assert chunks[|rest|] == last && forall i :: 0 <= i < |rest| ==> chunks[i] == rest[i];
  }

  lemma {:induction false} ChunksReadMore(h: Hash, front: seq<byte>, rest: seq<Chunk>, last: Chunk, tail: seq<byte>)
    requires WellNamed(h, rest + [last]) && WithinLimits(rest + [last]) && WithinLimits(rest)
    ensures var chunks := rest + [last];
            ReadChunks(h, front + Body(chunks) + tail, |front|, |chunks|) == Some((chunks, |front| + |Body(chunks)|))
    decreases |rest|, 1
  {
    hide Body, Total, ChunkBytes, ContentId, ReadChunks, WellNamed, WithinLimits;
    var chunks := rest + [last];
    LastWithinLimits(h, rest, last);
    BodyMore(rest, last);
    var raw := front + Body(chunks) + tail;
    var more := ChunkBytes(last) + tail;
    assert raw == front + Body(rest) + more;
    ChunksRead(h, front, rest, more);
    var at := |front| + |Body(rest)|;
    assert raw[at..at + |ChunkBytes(last)|] == ChunkBytes(last);
    ReadOneMore(h, raw, |front|, rest, at, last);
  }

  /** Reading inverts writing, for every file the constructors build. */
  lemma DecodeInvertsEncode(h: Hash, f: File)
    requires Proper(h, f)
    ensures Decoded(h, Encoded(f)) == Some(f)
  {
    hide HeaderBytes, ReadHeader, ReadChunks, Body, Le, FromLe, Total, RootInput;
    var raw := Encoded(f);
    ChunksRead(h, Front(f), f.chunks, []);
    assert Front(f) + Body(f.chunks) + [] == raw;
    assert raw == HeaderBytes(f.header) + raw[56..];
    HeaderReads(f.header, raw[56..]);
    assert raw[56] == ChunkCode(f.chunkCodec) && raw[57..61] == Le(f.header.count, 4);
    Widths();
    FromLeLe(f.header.count, 4);
  }

  // ---- What is read was written ----

  lemma ChunkWritten(h: Hash, raw: seq<byte>, pos: nat, before: nat)
    requires ReadChunk(h, raw, pos, before).Some?
    ensures var (c, next) := ReadChunk(h, raw, pos, before).value;
            && next <= |raw| && next == pos + |ChunkBytes(c)| && raw[pos..next] == ChunkBytes(c)
            && c.cid == ContentId(h, c.data) && |c.data| <= MAX_CHUNK_BYTES && before + |c.data| <= MAX_TOTAL_BYTES
  {
    hide Le, FromLe, ContentId;
    var (c, next) := ReadChunk(h, raw, pos, before).value;
    LeFromLe(raw[pos..pos + 8]);
    assert raw[pos..next] == raw[pos..pos + 8] + c.cid + c.data;
  }

  /** What the chunks read from one position to another have to do with the bytes there. */
  ghost predicate Transcribed(h: Hash, raw: seq<byte>, pos: nat, n: nat, cs: seq<Chunk>, at: nat)
  {
    && |cs| == n && pos <= at <= |raw| && raw[pos..at] == Body(cs) && WellNamed(h, cs)
    && Total(cs) <= MAX_TOTAL_BYTES && forall i :: 0 <= i < n ==> |cs[i].data| <= MAX_CHUNK_BYTES
  }

  lemma OneMoreTranscribed(h: Hash, raw: seq<byte>, pos: nat, n: nat, cs: seq<Chunk>, at: nat, c: Chunk, next: nat)
    requires Transcribed(h, raw, pos, n, cs, at) && ReadChunk(h, raw, at, Total(cs)) == Some((c, next))
    ensures Transcribed(h, raw, pos, n + 1, cs + [c], next)
  {
    hide ReadChunk, ChunkBytes, ContentId, Body, Total;
    ChunkWritten(h, raw, at, Total(cs));
    BodyMore(cs, c);
    TotalMore(cs, c);
    ThreeEnds(raw, pos, at, next);
  }

  lemma {:induction false} ChunksWritten(h: Hash, raw: seq<byte>, pos: nat, n: nat)
    requires pos <= |raw| && ReadChunks(h, raw, pos, n).Some?
    ensures var (cs, at) := ReadChunks(h, raw, pos, n).value; Transcribed(h, raw, pos, n, cs, at)
  {
    if n > 0 {
      hide Transcribed, ReadChunk, Total;
      ChunksWritten(h, raw, pos, n - 1);
      var (cs, at) := ReadChunks(h, raw, pos, n - 1).value;
      var (c, next) := ReadChunk(h, raw, at, Total(cs)).value;
      OneMoreTranscribed(h, raw, pos, n - 1, cs, at, c, next);
    }
  }

  /** The header that stands for the same file: the registered code, and the digest length 32. */
  function Normal(raw: seq<byte>, codec: Codec): (r: seq<byte>)
    requires |raw| >= 56
    ensures |r| == |raw|
  {
    raw[..8] + Le(Code(codec), 2) + [raw[10], 32] + raw[12..]
  }

  lemma HeaderWritten(raw: seq<byte>)
    requires |raw| >= 56 && ReadHeader(raw).Some?
    ensures var hd := ReadHeader(raw).value;
            && HeaderBytes(hd) == Normal(raw, hd.codec)[..56]
            && (hd.codec != Unknown ==> Le(Code(hd.codec), 2) == raw[8..10])
  {
    hide Le, FromLe, Code, FromCode;
    var hd := ReadHeader(raw).value;
    LeFromLe(raw[8..10]);
    LeFromLe(raw[44..48]);
    LeFromLe(raw[48..56]);
    CodesNameCodecs(hd.codec, FromLe(raw[8..10]));
    assert Normal(raw, hd.codec)[..56] == raw[..8] + Le(Code(hd.codec), 2) + [raw[10], 32] + raw[12..44] + raw[44..48] + raw[48..56];
  }

  lemma ChunkFromTail(h: Hash, raw: seq<byte>, raw': seq<byte>, start: nat, pos: nat, before: nat)
    requires start <= pos && start <= |raw| == |raw'| && raw[start..] == raw'[start..]
    ensures ReadChunk(h, raw, pos, before) == ReadChunk(h, raw', pos, before)
  {
    hide FromLe, ContentId;
    if pos + 40 <= |raw| {
      SameSlice(raw, raw', start, pos, pos + 8);
      SameSlice(raw, raw', start, pos + 8, pos + 40);
      var len := FromLe(raw[pos..pos + 8]);
      if pos + 40 + len <= |raw| { SameSlice(raw, raw', start, pos + 40, pos + 40 + len); }
    }
  }

  lemma SameSlice(raw: seq<byte>, raw': seq<byte>, start: nat, i: nat, j: nat)
    requires start <= i <= j <= |raw| == |raw'| && raw[start..] == raw'[start..]
    ensures raw[i..j] == raw'[i..j]
  {
    var t := raw[start..];
    assert raw[start..start + |t|] == t && raw'[start..start + |t|] == t;
    SubSlice(raw, start, t, i - start, j - start);
    SubSlice(raw', start, t, i - start, j - start);
  }

  lemma {:induction false} ChunksFromTail(h: Hash, raw: seq<byte>, raw': seq<byte>, start: nat, n: nat)
    requires start <= |raw| == |raw'| && raw[start..] == raw'[start..]
    ensures ReadChunks(h, raw, start, n) == ReadChunks(h, raw', start, n)
    ensures ReadChunks(h, raw, start, n).Some? ==> ReadChunks(h, raw, start, n).value.1 >= start
  {
    hide Total;
    if n > 0 {
      ChunksFromTail(h, raw, raw', start, n - 1);
      match ReadChunks(h, raw, start, n - 1)
      case None =>
      case Some((cs, at)) => ChunkFromTail(h, raw, raw', start, at, Total(cs));
    }
  }

  /** Decoding cannot tell a byte string from its normal form. */
  lemma NormalDecodesAlike(h: Hash, raw: seq<byte>)
    requires |raw| >= 61
    ensures Decoded(h, raw) == Decoded(h, Normal(raw, FromCode(FromLe(raw[8..10]))))
  {
    hide Le, FromLe, ReadChunks, Code, FromCode, Checked;
    var codec := FromCode(FromLe(raw[8..10]));
    var norm := Normal(raw, codec);
    assert norm[8..10] == Le(Code(codec), 2);
    CodesNameCodecs(codec, 0);
    Widths();
    FromLeLe(Code(codec), 2);
    assert norm[12..] == raw[12..];
    SameSlice(norm, raw, 12, 12, 44);
    SameSlice(norm, raw, 12, 44, 48);
    SameSlice(norm, raw, 12, 48, 56);
    SameSlice(norm, raw, 12, 57, 61);
    SameSlice(norm, raw, 12, 61, |raw|);
    assert norm[..8] == raw[..8] && norm[10] == raw[10] && norm[56] == norm[12..][44] == raw[56];
    assert ReadHeader(norm) == ReadHeader(raw);
    assert norm[61..] == norm[61..|raw|] && raw[61..] == raw[61..|raw|];
    ChunksFromTail(h, norm, raw, 61, FromLe(raw[57..61]));
  }

  lemma DecodedHeader(h: Hash, raw: seq<byte>, f: File)
    requires Decoded(h, raw) == Some(f)
    ensures |raw| >= 61 && ReadHeader(raw) == Some(f.header) && FromCode(FromLe(raw[8..10])) == f.header.codec
    ensures ChunkCodecOf(raw[56]) == Some(f.chunkCodec) && FromLe(raw[57..61]) <= MAX_CHUNK_COUNT
    ensures ReadChunks(h, raw, 61, FromLe(raw[57..61])) == Some((f.chunks, |raw|)) && Checked(h, f)
  {
    hide FromLe, ReadChunks, FromCode, Checked;
  }

  lemma DecodedIsProper(h: Hash, raw: seq<byte>, f: File)
    requires Decoded(h, raw) == Some(f)
    ensures Proper(h, f) && |raw| >= 61 && Encoded(f) == Normal(raw, f.header.codec)
    ensures FromCode(FromLe(raw[8..10])) == f.header.codec
  {
    hide Decoded, Le, FromLe, ReadChunks, FromCode, Code, ReadHeader, HeaderBytes, Body, Total, RootInput, ContentId;
    DecodedHeader(h, raw, f);
    ChunksWritten(h, raw, 61, FromLe(raw[57..61]));
    HeaderWritten(raw);
    LeFromLe(raw[57..61]);
    var norm := Normal(raw, f.header.codec);
    assert norm[12..] == raw[12..];
    SameSlice(norm, raw, 12, 57, 61);
    SameSlice(norm, raw, 12, 61, |raw|);
    assert norm[56] == norm[12..][44] == raw[56] == ChunkCode(f.chunkCodec);
    assert norm == norm[..56] + [norm[56]] + norm[57..61] + norm[61..|raw|];
  }

  /** Which byte strings are accepted, and as what: the written form, up to the code of an unknown codec and the digest length. */
  lemma AcceptedExactly(h: Hash, raw: seq<byte>, f: File)
    ensures Decoded(h, raw) == Some(f) <==>
            && Proper(h, f) && |raw| >= 61
            && FromCode(FromLe(raw[8..10])) == f.header.codec && Normal(raw, f.header.codec) == Encoded(f)
  {
    hide Decoded, Proper, FromLe, FromCode, Normal, Encoded;
    if Decoded(h, raw) == Some(f) {
      DecodedIsProper(h, raw, f);
    }
    if Proper(h, f) && |raw| >= 61 && FromCode(FromLe(raw[8..10])) == f.header.codec && Normal(raw, f.header.codec) == Encoded(f) {
      NormalDecodesAlike(h, raw);
      DecodeInvertsEncode(h, f);
    }
  }

  /** The strict reader passes over one byte: the digest length may be anything. */
  lemma DigestLengthIgnored(h: Hash, raw: seq<byte>, x: byte)
    requires |raw| >= 61
    ensures Decoded(h, raw[11 := x]) == Decoded(h, raw)
  {
    hide Decoded, FromLe, FromCode;
    var other := raw[11 := x];
    NormalDecodesAlike(h, raw);
    NormalDecodesAlike(h, other);
    assert other[8..10] == raw[8..10] && other[12..] == raw[12..] && other[..8] == raw[..8];
  }

  lemma {:induction false} BodyLength(chunks: seq<Chunk>)
    ensures |Body(chunks)| == 40 * |chunks| + Total(chunks)
  {
    if chunks != [] { BodyLength(chunks[..|chunks| - 1]); }
  }

  /** Nothing may be missing at the end, and nothing added. */
  lemma TruncationRefused(h: Hash, raw: seq<byte>, n: nat)
    requires n < |raw| && Decoded(h, raw).Some?
    ensures Decoded(h, raw[..n]) == None
  {
    hide Decoded, FromLe, FromCode, Le, Body, Total, ReadHeader, HeaderBytes, ReadChunks, Code, RootInput;
    var f := Decoded(h, raw).value;
    if Decoded(h, raw[..n]).Some? {
      var g := Decoded(h, raw[..n]).value;
      DecodedHeader(h, raw, f);
      DecodedHeader(h, raw[..n], g);
      HeaderOfPrefix(raw, n);
      DecodedIsProper(h, raw, f);
      DecodedIsProper(h, raw[..n], g);
      BodyLength(f.chunks);
      BodyLength(g.chunks);
      assert false;
    }
  }

  lemma HeaderOfPrefix(raw: seq<byte>, n: nat)
    requires 56 <= n <= |raw|
    ensures ReadHeader(raw[..n]) == ReadHeader(raw)
  {
    hide FromLe, FromCode;
    var p := raw[..n];
    assert p[..8] == raw[..8] && p[8..10] == raw[8..10] && p[12..44] == raw[12..44] && p[44..48] == raw[44..48] && p[48..56] == raw[48..56];
  }

  lemma {:induction false} CidsBind(a: seq<Chunk>, b: seq<Chunk>)
    requires Cids(a) == Cids(b)
    ensures |a| == |b| && forall i :: 0 <= i < |a| ==> a[i].cid == b[i].cid
  {
    CidsLength(a);
    CidsLength(b);
    if a != [] {
      var m := |a| - 1;
      CidsLength(a[..m]);
      CidsLength(b[..m]);
      assert Cids(a) == Cids(a[..m]) + a[m].cid && Cids(b) == Cids(b[..m]) + b[m].cid;
      assert Cids(a)[..32 * m] == Cids(a[..m]) && Cids(b)[..32 * m] == Cids(b[..m]);
      assert Cids(a)[32 * m..] == a[m].cid && Cids(b)[32 * m..] == b[m].cid;
      CidsBind(a[..m], b[..m]);
    }
  }

  lemma {:induction false} CidsLength(a: seq<Chunk>)
    ensures |Cids(a)| == 32 * |a|
  {
    if a != [] { CidsLength(a[..|a| - 1]); }
  }

  /** Everything that names a file: its root and its chunks. */
  ghost function NameInputs(f: File): set<seq<byte>>
  {
    {RootInput(f.chunks)} + set i | 0 <= i < |f.chunks| :: ContentInput(f.chunks[i].data)
  }

  /** While nothing collides, the root digest binds every byte of content. */
  lemma RootBindsContent(h: Hash, f: File, g: File)
    requires Proper(h, f) && Proper(h, g) && f.header.digest == g.header.digest
    requires NoCollision(h, NameInputs(f) + NameInputs(g))
    ensures f.chunks == g.chunks
  {
    hide ContentInput, Cids, Total;
    var a, b := f.chunks, g.chunks;
    assert RootInput(a) == RootInput(b);
    var n := |Ascii("BDLM_BUD_V2")|;
    assert RootInput(a)[n..] == Cids(a) && RootInput(b)[n..] == Cids(b);
    CidsBind(a, b);
    forall i | 0 <= i < |a| ensures a[i] == b[i] {
      assert h(ContentInput(a[i].data)) == h(ContentInput(b[i].data));
      assert ContentInput(a[i].data) in NameInputs(f) && ContentInput(b[i].data) in NameInputs(g);
      ContentInputBinds(a[i].data, b[i].data);
    }
  }

  lemma ContentInputBinds(a: seq<byte>, b: seq<byte>)
    requires ContentInput(a) == ContentInput(b)
    ensures a == b
  {
    hide Le;
    var n := |Ascii("BDLM_CONTENT_V1")| + 8;
    assert ContentInput(a)[n..] == a && ContentInput(b)[n..] == b;
  }

  // ---- The methods ----

  method Encode(f: File) returns (out: seq<byte>)
    ensures out == Encoded(f)
  {
    out := HeaderBytes(f.header) + [ChunkCode(f.chunkCodec)] + Le(f.header.count, 4);
    assert out == Front(f) + Body(f.chunks[..0]);
    hide Le, Front, Body;
    for i := 0 to |f.chunks|
      invariant out == Front(f) + Body(f.chunks[..i])
    {
      var c := f.chunks[i];
      BodyMore(f.chunks[..i], c);
      assert f.chunks[..i] + [c] == f.chunks[..i + 1];
      Regroup(Front(f), Body(f.chunks[..i]), Le(|c.data|, 8) + c.cid + c.data);
      out := out + (Le(|c.data|, 8) + c.cid + c.data);
    }
    assert f.chunks[..|f.chunks|] == f.chunks;
  }

  lemma Regroup(a: seq<byte>, b: seq<byte>, c: seq<byte>)
    ensures (a + b) + c == a + (b + c)
  {}

  lemma {:induction false} BrokenStaysBroken(h: Hash, raw: seq<byte>, pos: nat, n: nat, m: nat)
    requires n <= m && ReadChunks(h, raw, pos, n) == None
    ensures ReadChunks(h, raw, pos, m) == None
    decreases m
  {
    hide ReadChunk;
    if n < m { BrokenStaysBroken(h, raw, pos, n, m - 1); }
  }

  method DecodeChunks(h: Hash, raw: seq<byte>, n: nat) returns (r: Option<(seq<Chunk>, nat, nat)>)
    ensures match ReadChunks(h, raw, 61, n)
            case None => r == None
            case Some((cs, at)) => r == Some((cs, at, Total(cs)))
  {
    hide Total, FromLe, ContentId;
    var chunks, pos, total := [], 61, 0;
    EmptyTotal();
    for i := 0 to n
      invariant ReadChunks(h, raw, 61, i) == Some((chunks, pos)) && total == Total(chunks)
    {
      var next := ReadChunk(h, raw, pos, total);
      if next.None? {
        BrokenStaysBroken(h, raw, 61, i + 1, n);
        return None;
      }
      TotalMore(chunks, next.value.0);
      total := total + |next.value.0.data|;
      chunks := chunks + [next.value.0];
      pos := next.value.1;
    }
    r := Some((chunks, pos, total));
  }

  lemma EmptyTotal()
    ensures Total([]) == 0
  {}

  method RootDigest(h: Hash, chunks: seq<Chunk>) returns (d: Digest)
    ensures d == h(RootInput(chunks))
  {
    var input := Ascii("BDLM_BUD_V2");
    for i := 0 to |chunks|
      invariant input == RootInput(chunks[..i])
    {
      assert chunks[..i + 1][..i] == chunks[..i];
      input := input + chunks[i].cid;
    }
    assert chunks[..|chunks|] == chunks;
    d := h(input);
  }

  method Decode(h: Hash, raw: seq<byte>) returns (r: Option<File>)
    ensures r == Decoded(h, raw)
  {
    hide ReadChunks, FromLe, RootInput, Total;
    if |raw| < 61 { return None; }
    var header := ReadHeader(raw);
    if header.None? || header.value.algo != SHA3_256 { return None; }
    var codec := ChunkCodecOf(raw[56]);
    if codec.None? { return None; }
    var n := FromLe(raw[57..61]);
    if n > MAX_CHUNK_COUNT { return None; }
    var read := DecodeChunks(h, raw, n);
    if read.None? { return None; }
    var (chunks, pos, total) := read.value;
    if pos != |raw| { return None; }
    if |chunks| != header.value.count || total != header.value.total { return None; }
    var root := RootDigest(h, chunks);
    if root != header.value.digest { return None; }
    r := Some(File(header.value, codec.value, chunks));
  }

  ghost function FileOf(h: Hash, codec: Codec, cc: ChunkCodec, chunks: seq<Chunk>): Option<File>
  {
    if WithinLimits(chunks) then Some(File(HeaderOf(h, codec, chunks), cc, chunks)) else None
  }

  method TotalOf(chunks: seq<Chunk>) returns (total: nat, largest: nat)
    ensures total == Total(chunks)
    ensures forall i :: 0 <= i < |chunks| ==> |chunks[i].data| <= largest
    ensures chunks != [] ==> exists i :: 0 <= i < |chunks| && |chunks[i].data| == largest
    ensures chunks == [] ==> largest == 0
  {
    total, largest := 0, 0;
    for i := 0 to |chunks|
      invariant total == Total(chunks[..i])
      invariant forall j :: 0 <= j < i ==> |chunks[j].data| <= largest
      invariant i > 0 ==> exists j :: 0 <= j < i && |chunks[j].data| == largest
      invariant i == 0 ==> largest == 0
    {
      assert chunks[..i + 1] == chunks[..i] + [chunks[i]];
      TotalMore(chunks[..i], chunks[i]);
      total := total + |chunks[i].data|;
      if |chunks[i].data| > largest { largest := |chunks[i].data|; }
    }
    assert chunks[..|chunks|] == chunks;
  }

  method NewFile(h: Hash, codec: Codec, cc: ChunkCodec, chunks: seq<Chunk>) returns (r: Option<File>)
    ensures r == FileOf(h, codec, cc, chunks)
    ensures r.Some? && WellNamed(h, chunks) ==> Proper(h, r.value)
  {
    hide Total, RootInput, ContentId;
    if |chunks| > MAX_CHUNK_COUNT { return None; }
    var total, largest := TotalOf(chunks);
    if total > MAX_TOTAL_BYTES || largest > MAX_CHUNK_BYTES { return None; }
    var root := RootDigest(h, chunks);
    r := Some(File(Header(codec, SHA3_256, root, |chunks|, total), cc, chunks));
  }
}
