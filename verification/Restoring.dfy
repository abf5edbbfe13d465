/**
 Compressing the chunks of a container and restoring the content from one: raw, Huffman-coded
 or zstd-compressed chunks, each opened on its own and joined in order.
 */
module Restoring {
  import opened Options
  import opened Bytes
  import opened Hashing
  import opened Chunks
  import opened Container
  import HuffmanCodec

  /** The zstd library, as far as the container uses it. */
  datatype ZstdLib = ZstdLib(compress: seq<byte> -> Option<seq<byte>>, decompress: seq<byte> -> Option<seq<byte>>)

  /** What is assumed of it: below the decompression ceiling it gives back what it compressed. */
  ghost predicate Lossless(z: ZstdLib)
  {
    forall d: seq<byte> :: |d| <= MAX_TOTAL_BYTES && z.compress(d).Some? ==> z.decompress(z.compress(d).value) == Some(d)
  }

  /** The answer for one chunk. */
  ghost predicate Opened(z: ZstdLib, cc: ChunkCodec, data: seq<byte>, r: Option<seq<byte>>)
  {
    match cc
    case Raw => r == Some(data)
    case Huffman => HuffmanCodec.IsDecompressed(data, r)
    case Zstd => r == z.decompress(data)
  }

  /** The answer after one more chunk: refused once something was refused. */
  ghost predicate Extends(z: ZstdLib, cc: ChunkCodec, before: Option<seq<byte>>, data: seq<byte>, r: Option<seq<byte>>)
  {
    if before.None? then r == None
    else exists b :: Opened(z, cc, data, b) && r == if b.None? then None else Some(before.value + b.value)
  }

  /** The answer for the chunks in order. */
  ghost predicate Restores(z: ZstdLib, cc: ChunkCodec, chunks: seq<Chunk>, r: Option<seq<byte>>)
  {
    if chunks == [] then r == Some([])
    else
      var last := |chunks| - 1;
      exists before :: Restores(z, cc, chunks[..last], before) && Extends(z, cc, before, chunks[last].data, r)
  }

  lemma LastRestored(z: ZstdLib, cc: ChunkCodec, chunks: seq<Chunk>, c: Chunk, r: Option<seq<byte>>) returns (before: Option<seq<byte>>)
    requires Restores(z, cc, chunks + [c], r)
    ensures Restores(z, cc, chunks, before) && Extends(z, cc, before, c.data, r)
  {
    hide Extends;
    assert (chunks + [c])[..|chunks|] == chunks;
    before :| Restores(z, cc, chunks, before) && Extends(z, cc, before, c.data, r);
  }

  lemma OneMoreRestored(z: ZstdLib, cc: ChunkCodec, chunks: seq<Chunk>, c: Chunk, before: Option<seq<byte>>, r: Option<seq<byte>>)
    requires Restores(z, cc, chunks, before) && Extends(z, cc, before, c.data, r)
    ensures Restores(z, cc, chunks + [c], r)
  {
    hide Extends;
    assert (chunks + [c])[..|chunks|] == chunks;
  }

  /** Chunks stored as they are come back as they are. */
  lemma {:induction false} RawRestores(z: ZstdLib, chunks: seq<Chunk>, r: Option<seq<byte>>)
    requires Restores(z, Raw, chunks, r)
    ensures r == Some(Joined(chunks))
  {
    if chunks == [] {
      NothingJoined();
    } else {
      hide Joined, Restores;
      var rest, last := chunks[..|chunks| - 1], chunks[|chunks| - 1];
      assert chunks == rest + [last];
      JoinedMore(rest, last);
      var before := LastRestored(z, Raw, rest, last, r);
      RawRestores(z, rest, before);
    }
  }

  // ---- Compressing ----

  /** The chunks zstd makes of the chunks, renamed after their compressed bytes. */
  ghost function Zipped(h: Hash, z: ZstdLib, chunks: seq<Chunk>): Option<seq<Chunk>>
  {
    if chunks == [] then Some([])
    else
      var last := |chunks| - 1;
      var rest := Zipped(h, z, chunks[..last]);
      var c := z.compress(chunks[last].data);
      if rest.None? || c.None? then None else Some(rest.value + [Named(h, c.value)])
  }

  ghost predicate EachBelowCeiling(chunks: seq<Chunk>)
  {
    forall i :: 0 <= i < |chunks| ==> |chunks[i].data| <= MAX_TOTAL_BYTES
  }

  lemma ZippedMore(h: Hash, z: ZstdLib, chunks: seq<Chunk>)
    requires chunks != [] && Zipped(h, z, chunks).Some?
    ensures var rest, last := chunks[..|chunks| - 1], chunks[|chunks| - 1];
            && Zipped(h, z, rest).Some? && z.compress(last.data).Some?
            && Zipped(h, z, chunks).value == Zipped(h, z, rest).value + [Named(h, z.compress(last.data).value)]
            && Joined(chunks) == Joined(rest) + last.data
  {
    hide ContentId, Joined;
    var rest, last := chunks[..|chunks| - 1], chunks[|chunks| - 1];
    JoinedMore(rest, last);
    assert rest + [last] == chunks;
  }

  lemma {:induction false} ZippedEach(h: Hash, z: ZstdLib, chunks: seq<Chunk>, i: nat)
    requires Zipped(h, z, chunks).Some? && i < |chunks|
    ensures |Zipped(h, z, chunks).value| == |chunks| && z.compress(chunks[i].data) == Some(Zipped(h, z, chunks).value[i].data)
  {
    hide ContentId;
    var last := |chunks| - 1;
    if last > 0 {
      ZippedEach(h, z, chunks[..last], if i < last then i else 0);
    }
  }

  /** Below the ceiling, what zstd compressed chunk by chunk is restored. */
  lemma {:induction false} ZippedRestores(h: Hash, z: ZstdLib, chunks: seq<Chunk>, r: Option<seq<byte>>)
    requires Lossless(z) && EachBelowCeiling(chunks) && Zipped(h, z, chunks).Some?
    requires Restores(z, Zstd, Zipped(h, z, chunks).value, r)
    ensures r == Some(Joined(chunks))
  {
    if chunks == [] {
      NothingJoined();
    } else {
      hide ContentId, Joined, Zipped, Restores;
      ZippedMore(h, z, chunks);
      var rest, last := chunks[..|chunks| - 1], chunks[|chunks| - 1];
      var c := Named(h, z.compress(last.data).value);
      var before := LastRestored(z, Zstd, Zipped(h, z, rest).value, c, r);
      ZippedRestores(h, z, rest, before);
    }
  }

  lemma {:induction false} ZippedNamed(h: Hash, z: ZstdLib, chunks: seq<Chunk>)
    requires Zipped(h, z, chunks).Some?
    ensures WellNamed(h, Zipped(h, z, chunks).value)
  {
    hide ContentId;
    if chunks != [] { ZippedNamed(h, z, chunks[..|chunks| - 1]); }
  }

  /** The chunks Huffman coding makes of the chunks. */
  ghost predicate Coded(h: Hash, chunks: seq<Chunk>, out: seq<Chunk>)
  {
    && |out| == |chunks| && WellNamed(h, out)
    && forall i :: 0 <= i < |chunks| ==> HuffmanCodec.IsCompressed(chunks[i].data, out[i].data)
  }

  /** Which chunks the Huffman decoder gives back. */
  ghost predicate ComesBack(c: Chunk)
  {
    && |c.data| <= HuffmanCodec.MAX_DECOMPRESSED
    && HuffmanCodec.NoLongerThan(HuffmanCodec.MessageLengths(c.data), HuffmanCodec.MAX_CODE_LEN)
  }

  ghost predicate AllComeBack(chunks: seq<Chunk>)
  {
    forall i :: 0 <= i < |chunks| ==> ComesBack(chunks[i])
  }

  lemma OneMoreComesBack(chunks: seq<Chunk>, c: Chunk)
    ensures AllComeBack(chunks + [c]) <==> AllComeBack(chunks) && ComesBack(c)
  {
    hide ComesBack;
    var all := chunks + [c];
    assert all[|chunks|] == c && forall i :: 0 <= i < |chunks| ==> all[i] == chunks[i];
  }

  /** A Huffman container restores its content exactly when every chunk stays within the decoder's limits. */
  lemma {:induction false} CodedRestores(h: Hash, z: ZstdLib, chunks: seq<Chunk>, out: seq<Chunk>, r: Option<seq<byte>>)
    requires Coded(h, chunks, out) && Restores(z, Huffman, out, r)
    requires forall i :: 0 <= i < |chunks| ==> |chunks[i].data| < 0x1_0000_0000_0000_0000
    ensures r == if AllComeBack(chunks) then Some(Joined(chunks)) else None
    decreases |chunks|
  {
    hide ComesBack, ContentId, Joined, HuffmanCodec.IsCompressed, HuffmanCodec.IsDecompressed, Restores, AllComeBack;
    if chunks == [] {
      NothingRestored(z, Huffman, out, r);
      NothingJoined();
      NothingToComeBack();
    } else {
      var last := |chunks| - 1;
      var rest, out' := chunks[..last], out[..last];
      assert rest + [chunks[last]] == chunks && out' + [out[last]] == out;
      var before := LastRestored(z, Huffman, out', out[last], r);
      CodedRestores(h, z, rest, out', before);
      OneMoreCoded(z, rest, chunks[last], out[last], before, r);
    }
  }

  lemma NothingToComeBack()
    ensures AllComeBack([])
  {}

  lemma OneMoreCoded(z: ZstdLib, chunks: seq<Chunk>, c: Chunk, out: Chunk, before: Option<seq<byte>>, r: Option<seq<byte>>)
    requires HuffmanCodec.IsCompressed(c.data, out.data) && |c.data| < 0x1_0000_0000_0000_0000
    requires before == if AllComeBack(chunks) then Some(Joined(chunks)) else None
    requires Extends(z, Huffman, before, out.data, r)
    ensures r == if AllComeBack(chunks + [c]) then Some(Joined(chunks + [c])) else None
  {
    hide ComesBack, Joined, HuffmanCodec.IsCompressed, HuffmanCodec.IsDecompressed, AllComeBack;
    JoinedMore(chunks, c);
    OneMoreComesBack(chunks, c);
    if before.Some? {
      var b :| Opened(z, Huffman, out.data, b) && r == if b.None? then None else Some(before.value + b.value);
      OneCodedRestores(c, out, b);
    }
  }

  lemma NothingRestored(z: ZstdLib, cc: ChunkCodec, chunks: seq<Chunk>, r: Option<seq<byte>>)
    requires chunks == [] && Restores(z, cc, chunks, r)
    ensures r == Some([])
  {}

  lemma OneCodedRestores(c: Chunk, out: Chunk, b: Option<seq<byte>>)
    requires HuffmanCodec.IsCompressed(c.data, out.data) && HuffmanCodec.IsDecompressed(out.data, b)
    requires |c.data| < 0x1_0000_0000_0000_0000
    ensures b == if ComesBack(c) then Some(c.data) else None
  {
    hide HuffmanCodec.IsCompressed, HuffmanCodec.IsDecompressed, HuffmanCodec.NoLongerThan, HuffmanCodec.MessageLengths;
    Widths();
    HuffmanCodec.RoundTrip(c.data, out.data, b);
  }

  // ---- The methods ----

  method OpenChunk(z: ZstdLib, cc: ChunkCodec, data: seq<byte>) returns (r: Option<seq<byte>>)
    ensures Opened(z, cc, data, r)
  {
    match cc
    case Raw => r := Some(data);
    case Huffman => r := HuffmanCodec.Decompress(data);
    case Zstd => r := z.decompress(data);
  }

  lemma {:induction false} RefusalStays(z: ZstdLib, cc: ChunkCodec, chunks: seq<Chunk>, i: nat)
    requires i <= |chunks| && Restores(z, cc, chunks[..i], None)
    ensures Restores(z, cc, chunks, None)
    decreases |chunks| - i
  {
    if i == |chunks| {
      assert chunks[..i] == chunks;
    } else {
      hide Restores;
      OneMoreRestored(z, cc, chunks[..i], chunks[i], None, None);
      assert chunks[..i] + [chunks[i]] == chunks[..i + 1];
      RefusalStays(z, cc, chunks, i + 1);
    }
  }

  method RestoreOriginal(z: ZstdLib, f: File) returns (r: Option<seq<byte>>)
    ensures Restores(z, f.chunkCodec, f.chunks, r)
  {
    var cc, chunks := f.chunkCodec, f.chunks;
    var out: seq<byte> := [];
    for i := 0 to |chunks|
      invariant Restores(z, cc, chunks[..i], Some(out))
    {
      hide Restores, Opened;
      var part := OpenChunk(z, cc, chunks[i].data);
      var next := if part.None? then None else Some(out + part.value);
      OneMoreRestored(z, cc, chunks[..i], chunks[i], Some(out), next);
      assert chunks[..i] + [chunks[i]] == chunks[..i + 1];
      if part.None? {
        RefusalStays(z, cc, chunks, i + 1);
        return None;
      }
      out := out + part.value;
    }
    assert chunks[..|chunks|] == chunks;
    r := Some(out);
  }

  lemma {:induction false} ZipRefused(h: Hash, z: ZstdLib, chunks: seq<Chunk>, i: nat)
    requires i <= |chunks| && Zipped(h, z, chunks[..i]) == None
    ensures Zipped(h, z, chunks) == None
    decreases |chunks| - i
  {
    if i == |chunks| {
      assert chunks[..i] == chunks;
    } else {
      assert chunks[..i + 1][..i] == chunks[..i];
      ZipRefused(h, z, chunks, i + 1);
    }
  }

  method NewZstd(h: Hash, z: ZstdLib, codec: Codec, chunks: seq<Chunk>) returns (r: Option<File>)
    ensures r == match Zipped(h, z, chunks) case None => None case Some(cs) => FileOf(h, codec, Zstd, cs)
    ensures r.Some? ==> Proper(h, r.value)
  {
    hide ContentId, Proper, FileOf;
    var out: seq<Chunk> := [];
    for i := 0 to |chunks|
      invariant Zipped(h, z, chunks[..i]) == Some(out)
    {
      assert chunks[..i + 1][..i] == chunks[..i];
      var c := z.compress(chunks[i].data);
      if c.None? {
        ZipRefused(h, z, chunks, i + 1);
        return None;
      }
      out := out + [Named(h, c.value)];
    }
    assert chunks[..|chunks|] == chunks;
    ZippedNamed(h, z, chunks);
    r := NewFile(h, codec, Zstd, out);
  }

  method NewCompressed(h: Hash, codec: Codec, chunks: seq<Chunk>) returns (r: Option<File>, ghost out: seq<Chunk>)
    ensures Coded(h, chunks, out) && r == FileOf(h, codec, Huffman, out)
    ensures r.Some? ==> Proper(h, r.value)
  {
    hide ContentId, Proper, FileOf, HuffmanCodec.IsCompressed, HuffmanCodec.NoLongerThan, HuffmanCodec.MessageLengths;
    var coded: seq<Chunk> := [];
    for i := 0 to |chunks|
      invariant Coded(h, chunks[..i], coded)
    {
      var c := HuffmanCodec.Compress(chunks[i].data);
      coded := coded + [Named(h, c)];
    }
    assert chunks[..|chunks|] == chunks;
    out := coded;
    r := NewFile(h, codec, Huffman, coded);
  }

  /** A zstd container, written, read back and restored, is the content that went in. */
  lemma ZstdContainerIsLossless(h: Hash, z: ZstdLib, codec: Codec, chunks: seq<Chunk>, f: File, r: Option<seq<byte>>)
    requires Lossless(z) && EachBelowCeiling(chunks) && Zipped(h, z, chunks).Some?
    requires FileOf(h, codec, Zstd, Zipped(h, z, chunks).value) == Some(f)
    requires Restores(z, f.chunkCodec, f.chunks, r)
    ensures Decoded(h, Encoded(f)) == Some(f) && r == Some(Joined(chunks))
  {
    hide Zipped, Joined, Decoded, Encoded, Lossless, Restores, EachBelowCeiling, ContentId;
    ZippedNamed(h, z, chunks);
    DecodeInvertsEncode(h, f);
    ZippedRestores(h, z, chunks, r);
  }
}
