/**
 The storage engine: detect, transform, chunk, compress, frame and protect a file; and the way
 back. The theorems compose the layers: what is stored is restored.
 */
module Engine {
  import opened Options
  import opened Bytes
  import opened Collections
  import opened Hashing
  import opened Chunks
  import Lists
  import Structural
  import FastCdc
  import Container
  import Restoring
  import ShardPack
  import LogField
  import Columnar
  import Json
  import Utf8

  /** What the engine takes from outside: a hash, zstd, a JSON library and the format catalogue. */
  datatype Env = Env(hash: Hash, zstd: Restoring.ZstdLib, json: Json.Lib, detect: seq<byte> -> Container.Codec)

  const MAX_FILE_BYTES := 512 * 1024 * 1024
  const MIN_CHUNK := 16 * 1024

  function Fcdc(): FastCdc.Sizes { FastCdc.Sizes(4 * 1024, 16 * 1024, 64 * 1024) }

  datatype Transform = Plain | InColumns | InLogFields

  function TransformCode(t: Transform): byte
  {
    match t case Plain => 0 case InColumns => 1 case InLogFields => 2
  }

  // ---- Transforming ----

  /** The content as it is stored, and the transform that led to it. */
  ghost function Transformed(env: Env, data: seq<byte>): Option<(Transform, seq<byte>)>
  {
    match env.detect(data)
    case Json =>
      (match Columnar.ExactTable(env.json, data)
       case None => Some((Plain, data))
       case Some(c) =>
         match Columnar.Blob(env.json, env.hash, c)
         case None => None
         case Some(b) => Some((InColumns, b)))
    case Log =>
      (match LogField.Encoding(data)
       case None => Some((Plain, data))
       case Some(c) => Some((InLogFields, LogField.Blob(env.hash, c))))
    case _ => Some((Plain, data))
  }

  /** The transform of a file that can be stored, and its content afterwards. */
  ghost function Kind(env: Env, data: seq<byte>): Transform
  {
    match Transformed(env, data) case None => Plain case Some((kind, _)) => kind
  }

  ghost function Content(env: Env, data: seq<byte>): seq<byte>
  {
    match Transformed(env, data) case None => [] case Some((_, t)) => t
  }

  /** Undoing a transform by its code. */
  function Undone(env: Env, code: byte, t: seq<byte>): Option<seq<byte>>
  {
    if code == 0 then Some(t)
    else if code == 1 then
      match Columnar.FromBlob(env.json, env.hash, t)
      case None => None
      case Some(c) =>
        Columnar.ReadShape(env.json, env.hash, t);
        Columnar.Decoding(env.json, c)
    else if code == 2 then
      match LogField.FromBlob(env.hash, t)
      case None => None
      case Some(c) =>
        LogField.BlobExactly(env.hash, t, c);
        LogField.Decoding(c)
    else None
  }

  /** What undoing the transform of a file gives: the file, or for columns the file as JSON writes it. */
  ghost function Recovered(env: Env, data: seq<byte>): Option<seq<byte>>
  {
    var table := Columnar.ExactTable(env.json, data);
    if env.detect(data) == Container.Json && table.Some? then Columnar.Decoding(env.json, table.value) else Some(data)
  }

  /** For a file in columns: what the JSON library wrote for the values in text columns, it reads back. */
  ghost predicate CellsComeBack(env: Env, data: seq<byte>)
  {
    var table := Columnar.ExactTable(env.json, data);
    env.detect(data) == Container.Json && table.Some? ==> Columnar.TextsComeBack(env.json, table.value)
  }

  /** What restoring the stored content gives, whatever the JSON library does. */
  ghost function Reread(env: Env, data: seq<byte>): Option<seq<byte>>
  {
    Undone(env, TransformCode(Kind(env, data)), Content(env, data))
  }

  lemma TransformUndone(env: Env, data: seq<byte>)
    requires |data| <= MAX_FILE_BYTES && Transformed(env, data).Some? && CellsComeBack(env, data)
    ensures Reread(env, data) == Recovered(env, data)
  {
    hide Columnar.Encoding, Columnar.Blob, Columnar.FromBlob, Columnar.Decoding, Columnar.TextsComeBack;
    hide LogField.Encoding, LogField.Blob, LogField.FromBlob, LogField.Decoding;
    if env.detect(data) == Container.Json && Columnar.ExactTable(env.json, data).Some? {
      Columnar.EncodedIsStored(env.json, env.hash, data, Columnar.Exact, Columnar.AsTheyStand(|env.json.parse(data).value.items|));
    } else if env.detect(data) == Container.Log && LogField.Encoding(data).Some? {
      var c := LogField.Encoding(data).value;
      LogField.EncodingIsStorable(data);
      LogField.BlobExactly(env.hash, LogField.Blob(env.hash, c), c);
      LogField.TransformIsLossless(data);
    }
  }

  lemma TransformedIsSmall(env: Env, data: seq<byte>)
    requires 0 < |data| <= MAX_FILE_BYTES && Transformed(env, data).Some?
    ensures var (kind, t) := Transformed(env, data).value;
            && t != [] && (kind != InColumns ==> |t| <= Container.MAX_TOTAL_BYTES)
  {
    hide Columnar.ExactTable, LogField.Encoding, LogField.Blob, Columnar.Payload;
    if env.detect(data) == Container.Log && LogField.Encoding(data).Some? {
      LogField.BlobIsSmall(env.hash, data);
      BlobNotEmpty(env.hash, LogField.Encoding(data).value);
    }
  }

  lemma BlobNotEmpty(h: Hash, c: LogField.Columnar)
    ensures LogField.Blob(h, c) != []
  {
    hide LogField.Payload;
  }

  // ---- Storing ----

  /** The chunks of the stored content, by either chunker. */
  ghost predicate Chunked(env: Env, fcdc: bool, codec: Container.Codec, t: seq<byte>, chunks: seq<Chunk>)
  {
    if fcdc then FastCdc.Spec(env.hash, t, Fcdc()) == Some(chunks)
    else exists raw :: Structural.SplitOf(env.hash, Container.StructuralKind(codec), t, raw)
                       && chunks == Structural.Gathered(env.hash, raw, 0, MIN_CHUNK)
  }

  datatype Stored = Stored(container: seq<byte>, transform: Transform, chunkMode: byte)

  /** The file that is written for the chunks. */
  ghost function FileOf(env: Env, codec: Container.Codec, chunks: seq<Chunk>): Option<Container.File>
  {
    match Restoring.Zipped(env.hash, env.zstd, chunks)
    case None => None
    case Some(cs) => Container.FileOf(env.hash, codec, Container.Zstd, cs)
  }

  ghost function Protected(env: Env, erasure: bool, e: seq<byte>): Option<seq<byte>>
  {
    if erasure then ShardPack.Packed(env.hash, e) else Some(e)
  }

  /** The outcome of storing content that was chunked this way. */
  ghost function StoredFrom(env: Env, erasure: bool, fcdc: bool, codec: Container.Codec, kind: Transform, chunks: seq<Chunk>): Option<Stored>
  {
    match FileOf(env, codec, chunks)
    case None => None
    case Some(f) =>
      match Protected(env, erasure, Container.Encoded(f))
      case None => None
      case Some(c) => Some(Stored(c, kind, if fcdc then 1 else 0))
  }

  ghost predicate Stores(env: Env, data: seq<byte>, erasure: bool, fcdc: bool, r: Option<Stored>)
  {
    if data == [] || |data| > MAX_FILE_BYTES then r == None
    else match Transformed(env, data)
      case None => r == None
      case Some((kind, t)) =>
        var codec := env.detect(data);
        exists chunks :: Chunked(env, fcdc, codec, t, chunks) && r == StoredFrom(env, erasure, fcdc, codec, kind, chunks)
  }

  // ---- Restoring ----

  ghost predicate Unprotected(env: Env, erasure: bool, container: seq<byte>, bytes: Option<seq<byte>>)
  {
    if erasure then ShardPack.Opens(env.hash, container, bytes) else bytes == Some(container)
  }

  /** The outcome of opening the bytes of a container. */
  ghost predicate Unpacks(env: Env, code: byte, bytes: Option<seq<byte>>, r: Option<seq<byte>>)
  {
    if bytes.None? || Container.Decoded(env.hash, bytes.value).None? then r == None
    else
      var f := Container.Decoded(env.hash, bytes.value).value;
      exists t :: Restoring.Restores(env.zstd, f.chunkCodec, f.chunks, t)
                  && r == match t case None => None case Some(raw) => Undone(env, code, raw)
  }

  ghost predicate RestoresContainer(env: Env, container: seq<byte>, code: byte, erasure: bool, r: Option<seq<byte>>)
  {
    exists bytes :: Unprotected(env, erasure, container, bytes) && Unpacks(env, code, bytes, r)
  }

  function Magic(): (r: seq<byte>)
    ensures |r| == 8
  {
    [0xB5, 0x45, 0x4E, 0x47, 0x4E, 0, 0, 0]
  }

  /** The record of a stored file; the hashes and the ratio at its end are not read when restoring. */
  function BlobOf(s: Stored, trailer: seq<byte>): seq<byte>
  {
    Magic() + [1, s.chunkMode] + Le(|s.container|, 4) + s.container + trailer
  }

  ghost predicate RestoresFull(env: Env, raw: seq<byte>, code: byte, erasure: bool, r: Option<seq<byte>>)
  {
    if |raw| < 18 || raw[..8] != Magic() then r == None
    else
      var len := FromLe(raw[10..14]);
      if |raw| < 14 + len then r == None else RestoresContainer(env, raw[14..14 + len], code, erasure, r)
  }

  // ---- What is stored ----

  /** A log: a text of log lines. */
  ghost predicate IsLog(data: seq<byte>)
  {
    exists fs :: LogField.IsLog(data, fs)
  }

  /** A JSON array of records that can be made into columns. */
  ghost predicate IsTable(lib: Json.Lib, data: seq<byte>)
  {
    && |data| <= 0x4000_0000 && lib.parse(data).Some? && lib.parse(data).value.Arr?
    && Columnar.CanBeTable(lib, lib.parse(data).value.items)
  }

  /** The blob of the columns that hold the fields of the log. */
  ghost predicate IsLogBlob(h: Hash, data: seq<byte>, t: seq<byte>)
  {
    exists fs, c :: LogField.IsLog(data, fs) && LogField.HoldsFields(c, fs) && t == LogField.Blob(h, c)
  }

  /** The blob of the columns that hold the records of the array. */
  ghost predicate IsTableBlob(lib: Json.Lib, h: Hash, data: seq<byte>, t: seq<byte>)
    requires IsTable(lib, data)
  {
    exists c: Columnar.Table :: c.mode == Columnar.Exact && Columnar.HoldsRecords(c, lib.parse(data).value.items) && Columnar.Blob(lib, h, c) == Some(t)
  }

  /** The transform of a file by its format and its content, and what is stored for it. */
  ghost predicate StoredAs(env: Env, data: seq<byte>, transform: Transform, t: seq<byte>)
  {
    if env.detect(data) == Container.Log && IsLog(data) then transform == InLogFields && IsLogBlob(env.hash, data, t)
    else if env.detect(data) == Container.Json && IsTable(env.json, data) then
      transform == InColumns && IsTableBlob(env.json, env.hash, data, t)
    else transform == Plain && t == data
  }

  lemma LogExactly(env: Env, data: seq<byte>)
    ensures LogField.Encoding(data).Some? <==> IsLog(data)
    ensures LogField.Encoding(data).Some? ==> IsLogBlob(env.hash, data, LogField.Blob(env.hash, LogField.Encoding(data).value))
  {
    hide LogField.Encoding, LogField.IsLog, LogField.HoldsFields, LogField.Blob;
    if LogField.Encoding(data).Some? {
      var c := LogField.Encoding(data).value;
      LogField.EncodingExactly(data, c);
      var fs :| LogField.IsLog(data, fs) && LogField.HoldsFields(c, fs);
    }
    if fs :| LogField.IsLog(data, fs) {
      var c := LogField.Columnar(|fs|, LogField.Template(), LogField.ColumnsOf(fs));
      LogField.ColumnsHold(fs, c);
      LogField.EncodingExactly(data, c);
    }
  }

  lemma TableExactly(env: Env, data: seq<byte>)
    ensures Columnar.ExactTable(env.json, data).Some? <==> IsTable(env.json, data)
    ensures Columnar.ExactTable(env.json, data).Some? ==>
              var b := Columnar.Blob(env.json, env.hash, Columnar.ExactTable(env.json, data).value);
              b.Some? && IsTableBlob(env.json, env.hash, data, b.value)
  {
    hide Columnar.ExactTable, Columnar.CanBeTable, Columnar.HoldsRecords, Columnar.Blob;
    var lib := env.json;
    if Columnar.ExactTable(lib, data).Some? {
      var c := Columnar.ExactTable(lib, data).value;
      Columnar.ExactTableExactly(lib, data, c);
      TableIsStored(env, data);
    }
    if IsTable(lib, data) {
      var c := Columnar.TableHeld(lib, lib.parse(data).value.items);
      Columnar.ExactTableExactly(lib, data, c);
    }
  }

  lemma TableIsStored(env: Env, data: seq<byte>)
    requires Columnar.ExactTable(env.json, data).Some?
    ensures Columnar.Blob(env.json, env.hash, Columnar.ExactTable(env.json, data).value).Some?
  {
    hide Columnar.Encoding, Columnar.Blob, Columnar.FromBlob, Columnar.TextsComeBack;
    Columnar.EncodedIsStored(env.json, env.hash, data, Columnar.Exact, Columnar.AsTheyStand(|env.json.parse(data).value.items|));
  }

  /** Every file has a transform, and it is the one its format and content call for. */
  lemma TransformExactly(env: Env, data: seq<byte>)
    ensures Transformed(env, data).Some?
    ensures StoredAs(env, data, Transformed(env, data).value.0, Transformed(env, data).value.1)
  {
    hide Columnar.ExactTable, Columnar.Blob, LogField.Encoding, LogField.Blob, IsLog, IsTable, IsLogBlob, IsTableBlob;
    LogExactly(env, data);
    TableExactly(env, data);
  }

  /** The cuts a format asks for: before the commas of a JSON array, after the lines of text, and every 65536 bytes otherwise. */
  ghost predicate CutByFormat(codec: Container.Codec, t: seq<byte>, raw: seq<Chunk>)
  {
    && Joined(raw) == t
    && if codec == Container.Json && Utf8.IsUtf8(t) then
         (forall i :: 0 <= i < |raw| ==> raw[i].data != [])
         && forall p: nat :: 0 < p < |t| ==> (p in Ends(raw) <==> Structural.RecordComma(t, p))
       else if codec == Container.Csv || codec == Container.Log || codec == Container.Text then
         forall i :: 0 <= i < |raw| ==> Structural.IsLine(raw[i].data, i == |raw| - 1)
       else
         forall i :: 0 <= i < |raw| ==> Structural.IsBlock(raw[i].data, i == |raw| - 1)
  }

  lemma SplitByFormat(h: Hash, codec: Container.Codec, t: seq<byte>, raw: seq<Chunk>)
    requires Structural.SplitOf(h, Container.StructuralKind(codec), t, raw)
    ensures CutByFormat(codec, t, raw)
  {
    var kind := Container.StructuralKind(codec);
    assert Joined(raw) == t && forall i :: 0 <= i < |raw| ==> raw[i].data != [];
    hide Structural.SplitOf, Structural.RecordComma, Structural.IsLine, Structural.IsBlock, Joined, Ends, Utf8.IsUtf8;
    if codec == Container.Json && Utf8.IsUtf8(t) {
      forall p: nat | 0 < p < |t| ensures p in Ends(raw) <==> Structural.RecordComma(t, p) {
        Structural.PiecesAreRecords(h, t, raw, p);
      }
    } else if codec == Container.Csv || codec == Container.Log || codec == Container.Text {
      forall i | 0 <= i < |raw| ensures Structural.IsLine(raw[i].data, i == |raw| - 1) {
        Structural.PiecesAreLines(h, kind, t, raw, i);
      }
    } else {
      forall i | 0 <= i < |raw| ensures Structural.IsBlock(raw[i].data, i == |raw| - 1) {
        Structural.PiecesAreBlocks(h, kind, t, raw, i);
      }
    }
  }

  /** The pieces of the stored content: cut by the hash of the content, or by its format and then gathered. */
  ghost predicate PiecesOf(env: Env, fcdc: bool, codec: Container.Codec, t: seq<byte>, pieces: seq<seq<byte>>)
  {
    && Concat(pieces) == t
    && if fcdc then FastCdc.AllCutByHash(pieces, 4096, FastCdc.Sizes(4096, 16384, 65536))
       else exists raw, chunks, bounds :: && CutByFormat(codec, t, raw) && pieces == DataOf(chunks)
                                          && Structural.InGroups(env.hash, raw, 16384, chunks, bounds) && bounds[0] == 0
  }

  /** The file of a container: the compressed pieces, under the format and the zstd codec. */
  ghost predicate HoldsPieces(env: Env, codec: Container.Codec, f: Container.File, pieces: seq<seq<byte>>)
  {
    && f.header.codec == codec && f.chunkCodec == Container.Zstd && |f.chunks| == |pieces|
    && forall i :: 0 <= i < |pieces| ==> env.zstd.compress(pieces[i]) == Some(f.chunks[i].data)
  }

  /**
   What storing leaves: the transform that the format and the content call for, its content cut
   into pieces, the pieces compressed into a container file, and the file protected or as it is.
   */
  lemma StoredExactly(env: Env, data: seq<byte>, erasure: bool, fcdc: bool, s: Stored)
    returns (t: seq<byte>, pieces: seq<seq<byte>>, f: Container.File)
    requires Stores(env, data, erasure, fcdc, Some(s))
    ensures 0 < |data| <= 512 * 1024 * 1024 && s.chunkMode == if fcdc then 1 else 0
    ensures StoredAs(env, data, s.transform, t) && PiecesOf(env, fcdc, env.detect(data), t, pieces)
    ensures HoldsPieces(env, env.detect(data), f, pieces)
    ensures Container.Decoded(env.hash, Container.Encoded(f)) == Some(f)
    ensures if erasure then ShardPack.Packed(env.hash, Container.Encoded(f)) == Some(s.container) else s.container == Container.Encoded(f)
  {
    hide Transformed, Chunked, FileOf, Container.Encoded, Container.Decoded, StoredAs, PiecesOf, HoldsPieces, ShardPack.Packed;
    TransformExactly(env, data);
    var (kind, content) := Transformed(env, data).value;
    var codec := env.detect(data);
    t := content;
    var chunks :| Chunked(env, fcdc, codec, t, chunks) && Some(s) == StoredFrom(env, erasure, fcdc, codec, kind, chunks);
    f := FileOf(env, codec, chunks).value;
    pieces := DataOf(chunks);
    TransformedIsSmall(env, data);
    ChunksArePieces(env, fcdc, codec, t, chunks);
    FileHolds(env, codec, chunks, f);
    StoredFileDecodes(env, codec, chunks, f);
  }

  lemma ChunksArePieces(env: Env, fcdc: bool, codec: Container.Codec, t: seq<byte>, chunks: seq<Chunk>)
    requires t != [] && Chunked(env, fcdc, codec, t, chunks)
    ensures PiecesOf(env, fcdc, codec, t, DataOf(chunks))
  {
    ChunkedIsWhole(env, fcdc, codec, t, chunks);
    hide FastCdc.Pieces, FastCdc.AllCutByHash, Structural.SplitOf, Structural.Gathered, Structural.InGroups, CutByFormat, Concat;
    if fcdc {
      var ps := FastCdc.Pieces(t, Fcdc());
      FastCdc.PiecesAreCut(t, Fcdc());
      FastCdc.NamedJoin(env.hash, ps);
    } else {
      var raw :| Structural.SplitOf(env.hash, Container.StructuralKind(codec), t, raw)
                 && chunks == Structural.Gathered(env.hash, raw, 0, MIN_CHUNK);
      SplitByFormat(env.hash, codec, t, raw);
      var bounds := Structural.GatheredInGroups(env.hash, raw, 0, MIN_CHUNK);
      assert Structural.InGroups(env.hash, raw, 16384, chunks, bounds);
    }
  }

  lemma FileHolds(env: Env, codec: Container.Codec, chunks: seq<Chunk>, f: Container.File)
    requires FileOf(env, codec, chunks) == Some(f)
    ensures HoldsPieces(env, codec, f, DataOf(chunks))
  {
    hide Restoring.Zipped, Container.WithinLimits;
    ZippedSize(env, chunks);
    forall i | 0 <= i < |chunks| ensures env.zstd.compress(chunks[i].data) == Some(f.chunks[i].data) {
      Restoring.ZippedEach(env.hash, env.zstd, chunks, i);
    }
  }

  lemma ZippedSize(env: Env, chunks: seq<Chunk>)
    requires Restoring.Zipped(env.hash, env.zstd, chunks).Some?
    ensures |Restoring.Zipped(env.hash, env.zstd, chunks).value| == |chunks|
  {
    hide Restoring.Zipped;
    if chunks == [] { NothingZipped(env); } else { Restoring.ZippedEach(env.hash, env.zstd, chunks, 0); }
  }

  lemma NothingZipped(env: Env)
    ensures Restoring.Zipped(env.hash, env.zstd, []) == Some([])
  {}

  // ---- Lossless ----

  lemma ChunkedIsWhole(env: Env, fcdc: bool, codec: Container.Codec, t: seq<byte>, chunks: seq<Chunk>)
    requires t != [] && Chunked(env, fcdc, codec, t, chunks)
    ensures Joined(chunks) == t
  {
    hide FastCdc.Pieces, Concat, FastCdc.NamedAll, Structural.CutsTo, Structural.Gathered, Joined, Ends, Structural.Sized;
    if fcdc {
      FastCdc.PiecesAreWhole(t, Fcdc());
      FastCdc.NamedJoin(env.hash, FastCdc.Pieces(t, Fcdc()));
    } else {
      var raw :| Structural.SplitOf(env.hash, Container.StructuralKind(codec), t, raw)
                 && chunks == Structural.Gathered(env.hash, raw, 0, MIN_CHUNK);
      Structural.GatheringIsSound(env.hash, raw, MIN_CHUNK);
    }
  }

  lemma WithinContent(chunks: seq<Chunk>)
    requires |Joined(chunks)| <= Container.MAX_TOTAL_BYTES
    ensures Restoring.EachBelowCeiling(chunks)
  {
    hide Concat;
    forall i | 0 <= i < |chunks| ensures |chunks[i].data| <= Container.MAX_TOTAL_BYTES {
      PartWithin(DataOf(chunks), i);
    }
  }

  lemma PiecesBelowCeiling(env: Env, t: seq<byte>, chunks: seq<Chunk>)
    requires t != [] && FastCdc.Spec(env.hash, t, Fcdc()) == Some(chunks)
    ensures Restoring.EachBelowCeiling(chunks)
  {
    hide FastCdc.Pieces, Concat;
    FastCdc.PiecesAreWhole(t, Fcdc());
  }

  /** A columnar blob starts with a byte that starts no character. */
  lemma BlobIsNoText(env: Env, c: Columnar.Table)
    requires Columnar.Blob(env.json, env.hash, c).Some?
    ensures !Utf8.IsUtf8(Columnar.Blob(env.json, env.hash, c).value)
  {
    hide Lists.WriteList, Columnar.Body, Columnar.BlobInput, Columnar.AllWritable, Le;
    var b := Columnar.Blob(env.json, env.hash, c).value;
    assert b[0] == 0xB5;
    assert Utf8.CharLength(b) == 0;
  }

  lemma BlocksBelowCeiling(env: Env, t: seq<byte>, chunks: seq<Chunk>)
    requires !Utf8.IsUtf8(t) && Chunked(env, false, Container.Json, t, chunks)
    ensures Restoring.EachBelowCeiling(chunks)
  {
    hide Structural.Gathered, Structural.SplitOf, Utf8.IsUtf8;
    var raw :| Structural.SplitOf(env.hash, Structural.Json, t, raw) && chunks == Structural.Gathered(env.hash, raw, 0, MIN_CHUNK);
    forall i | 0 <= i < |chunks| ensures |chunks[i].data| <= Container.MAX_TOTAL_BYTES {
      Structural.GatheredBlocksAreSmall(env.hash, Structural.Json, t, raw, MIN_CHUNK, i);
    }
  }

  /** However long the content, its chunks stay below the ceiling. */
  lemma ChunksBelowCeiling(env: Env, data: seq<byte>, fcdc: bool, chunks: seq<Chunk>)
    requires 0 < |data| <= MAX_FILE_BYTES && Transformed(env, data).Some?
    requires Chunked(env, fcdc, env.detect(data), Content(env, data), chunks)
    ensures Restoring.EachBelowCeiling(chunks)
  {
    hide Chunked, Restoring.EachBelowCeiling, Utf8.IsUtf8, Columnar.ExactTable, Columnar.Blob, LogField.Encoding, LogField.Blob, Joined;
    TransformedIsSmall(env, data);
    if Kind(env, data) != InColumns {
      ChunkedIsWhole(env, fcdc, env.detect(data), Content(env, data), chunks);
      WithinContent(chunks);
    } else if fcdc {
      ByPieces(env, env.detect(data), Content(env, data), chunks);
      PiecesBelowCeiling(env, Content(env, data), chunks);
    } else {
      BlobIsNoText(env, Columnar.ExactTable(env.json, data).value);
      BlocksBelowCeiling(env, Content(env, data), chunks);
    }
  }

  lemma ByPieces(env: Env, codec: Container.Codec, t: seq<byte>, chunks: seq<Chunk>)
    requires Chunked(env, true, codec, t, chunks)
    ensures FastCdc.Spec(env.hash, t, Fcdc()) == Some(chunks)
  {}

  /** What was chunked and compressed is unpacked and untransformed. */
  lemma UnpacksStored(env: Env, codec: Container.Codec, chunks: seq<Chunk>, f: Container.File, code: byte, r: Option<seq<byte>>)
    requires Restoring.Lossless(env.zstd) && Restoring.EachBelowCeiling(chunks) && FileOf(env, codec, chunks) == Some(f)
    requires Unpacks(env, code, Some(Container.Encoded(f)), r)
    ensures r == Undone(env, code, Joined(chunks)) && Container.Decoded(env.hash, Container.Encoded(f)) == Some(f)
  {
    hide Restoring.Zipped, Restoring.Restores, Restoring.Lossless, Container.FileOf, Container.Decoded, Container.Encoded, Joined, Undone;
    StoredFileDecodes(env, codec, chunks, f);
    var t :| Restoring.Restores(env.zstd, f.chunkCodec, f.chunks, t)
             && r == match t case None => None case Some(raw) => Undone(env, code, raw);
    Restoring.ZstdContainerIsLossless(env.hash, env.zstd, codec, chunks, f, t);
  }

  lemma StoredFileDecodes(env: Env, codec: Container.Codec, chunks: seq<Chunk>, f: Container.File)
    requires FileOf(env, codec, chunks) == Some(f)
    ensures Container.Decoded(env.hash, Container.Encoded(f)) == Some(f)
  {
    hide Restoring.Zipped, Container.Decoded, Container.Encoded, ContentId;
    Restoring.ZippedNamed(env.hash, env.zstd, chunks);
    Container.DecodeInvertsEncode(env.hash, f);
  }

  /** Opening what was protected. */
  lemma UnprotectsProtected(env: Env, erasure: bool, e: seq<byte>, c: seq<byte>, bytes: Option<seq<byte>>)
    requires Protected(env, erasure, e) == Some(c) && Unprotected(env, erasure, c, bytes)
    ensures bytes == Some(e)
  {
    hide ShardPack.Opens, ShardPack.Framed, ShardPack.Written;
    if erasure { ShardPack.PackOpens(env.hash, e, bytes); }
  }

  /** The container file that storing the data leads to. */
  ghost predicate Files(env: Env, data: seq<byte>, fcdc: bool, f: Container.File)
  {
    && 0 < |data| <= MAX_FILE_BYTES && Transformed(env, data).Some?
    && exists chunks :: && Chunked(env, fcdc, env.detect(data), Content(env, data), chunks)
                        && FileOf(env, env.detect(data), chunks) == Some(f)
  }

  lemma StoredHasFile(env: Env, data: seq<byte>, erasure: bool, fcdc: bool, s: Stored) returns (f: Container.File)
    requires Stores(env, data, erasure, fcdc, Some(s))
    ensures Files(env, data, fcdc, f) && Protected(env, erasure, Container.Encoded(f)) == Some(s.container)
    ensures s.transform == Kind(env, data)
  {
    hide Transformed, Chunked, FileOf, Container.Encoded, Protected;
    var (kind, t) := Transformed(env, data).value;
    var chunks :| Chunked(env, fcdc, env.detect(data), t, chunks)
                  && Some(s) == StoredFrom(env, erasure, fcdc, env.detect(data), kind, chunks);
    f := FileOf(env, env.detect(data), chunks).value;
  }

  /** Unpacking the file gives what rereading its content does. */
  lemma FileUnpacks(env: Env, data: seq<byte>, fcdc: bool, f: Container.File, r: Option<seq<byte>>)
    requires Restoring.Lossless(env.zstd) && Files(env, data, fcdc, f)
    requires Unpacks(env, TransformCode(Kind(env, data)), Some(Container.Encoded(f)), r)
    ensures r == Reread(env, data)
  {
    hide Restoring.Lossless, Transformed, Chunked, FileOf, Container.Encoded, Unpacks, Undone, Restoring.EachBelowCeiling;
    var chunks :| && Chunked(env, fcdc, env.detect(data), Content(env, data), chunks)
                  && FileOf(env, env.detect(data), chunks) == Some(f);
    TransformedIsSmall(env, data);
    ChunksBelowCeiling(env, data, fcdc, chunks);
    ChunkedIsWhole(env, fcdc, env.detect(data), Content(env, data), chunks);
    UnpacksStored(env, env.detect(data), chunks, f, TransformCode(Kind(env, data)), r);
  }

  /** The container of a stored file is restored: the data comes back, up to what the columnar transform does to it. */
  lemma ContainerRestored(env: Env, data: seq<byte>, erasure: bool, fcdc: bool, s: Stored, r: Option<seq<byte>>)
    requires Restoring.Lossless(env.zstd) && Stores(env, data, erasure, fcdc, Some(s))
    requires RestoresContainer(env, s.container, TransformCode(s.transform), erasure, r)
    ensures r == Reread(env, data) && (CellsComeBack(env, data) ==> r == Recovered(env, data))
  {
    hide Restoring.Lossless, Stores, Unpacks, Unprotected, Protected, Container.Encoded, Recovered, Reread, CellsComeBack, Transformed;
    var f := StoredHasFile(env, data, erasure, fcdc, s);
    var bytes :| Unprotected(env, erasure, s.container, bytes) && Unpacks(env, TransformCode(s.transform), bytes, r);
    UnprotectsProtected(env, erasure, Container.Encoded(f), s.container, bytes);
    FileUnpacks(env, data, fcdc, f, r);
    if CellsComeBack(env, data) { TransformUndone(env, data); }
  }

  /** With erasure, it is restored after any two of its six shards were lost. */
  lemma TwoLossesRestored(env: Env, data: seq<byte>, fcdc: bool, f: Container.File, rs: seq<ShardPack.Record>, lost: set<nat>, r: Option<seq<byte>>)
    requires Restoring.Lossless(env.zstd) && Files(env, data, fcdc, f)
    requires ShardPack.Damaged(env.hash, Container.Encoded(f), rs, lost) && |lost| <= 2
    requires RestoresContainer(env, ShardPack.Framed(|Container.Encoded(f)|, rs), TransformCode(Kind(env, data)), true, r)
    ensures r == Reread(env, data) && (CellsComeBack(env, data) ==> r == Recovered(env, data))
  {
    hide Restoring.Lossless, Unpacks, Container.Encoded, Recovered, Reread, CellsComeBack, Transformed;
    hide ShardPack.Opens, ShardPack.Framed, ShardPack.Written, ShardPack.Intact, ShardPack.Damaged;
    var e := Container.Encoded(f);
    var bytes :| Unprotected(env, true, ShardPack.Framed(|e|, rs), bytes) && Unpacks(env, TransformCode(Kind(env, data)), bytes, r);
    ShardPack.TwoLossesSurvived(env.hash, e, rs, lost, bytes);
    FileUnpacks(env, data, fcdc, f, r);
    if CellsComeBack(env, data) { TransformUndone(env, data); }
  }

  // ---- The record ----

  lemma LengthField(s: Stored, trailer: seq<byte>)
    ensures var raw := BlobOf(s, trailer);
            && raw[..8] == Magic() && FromLe(raw[10..14]) == |s.container| % 0x1_0000_0000
            && raw[14..14 + |s.container|] == s.container
  {
    hide Le, FromLe, Magic;
    var raw := BlobOf(s, trailer);
    assert raw[10..14] == Le(|s.container|, 4);
    Widths();
    FromLeTruncates(|s.container|, 4);
  }

  lemma PackIsSmall(env: Env, e: seq<byte>)
    requires ShardPack.Packable(e)
    ensures |ShardPack.Packed(env.hash, e).value| < 0x1_0000_0000
  {
    hide ShardPack.Written;
    var w := ShardPack.Written(env.hash, e);
    forall i: nat | i < 6 ensures |w[i].shard| <= 64 * 1024 * 1024 {
      ShardPack.UntouchedIsIntact(env.hash, e, i);
    }
    RecordsSize(w, 6);
    assert w[..6] == w;
  }

  lemma {:induction false} RecordsSize(rs: seq<ShardPack.Record>, n: nat)
    requires n <= |rs| && forall i :: 0 <= i < |rs| ==> |rs[i].shard| <= 64 * 1024 * 1024
    ensures |ShardPack.AllRecords(rs[..n])| <= n * (64 * 1024 * 1024 + 36)
  {
    if n > 0 {
      RecordsSize(rs, n - 1);
      ShardPack.RecordsGrow(rs, n - 1);
    }
  }

  /** A container cut short by the 32-bit length field is refused. */
  lemma CutContainerRefused(env: Env, data: seq<byte>, fcdc: bool, s: Stored, n: nat, code: byte, r: Option<seq<byte>>)
    requires Stores(env, data, false, fcdc, Some(s)) && n < |s.container|
    requires RestoresContainer(env, s.container[..n], code, false, r)
    ensures r == None
  {
    hide Stores, Container.Decoded, Container.Encoded, Transformed, Chunked, FileOf;
    var f := StoredHasFile(env, data, false, fcdc, s);
    var chunks :| FileOf(env, env.detect(data), chunks) == Some(f);
    StoredFileDecodes(env, env.detect(data), chunks, f);
    Container.TruncationRefused(env.hash, s.container, n);
  }

  /**
   The full round trip, for every file, chunker and protection: the file comes back, or for
   columns its JSON does, exactly when the length of the container fits its 32-bit field;
   otherwise restoring is refused. With erasure it always fits.
   */
  lemma StoredIsRestored(env: Env, data: seq<byte>, erasure: bool, fcdc: bool, s: Stored, trailer: seq<byte>, r: Option<seq<byte>>)
    requires Restoring.Lossless(env.zstd) && Stores(env, data, erasure, fcdc, Some(s)) && |trailer| == 104
    requires RestoresFull(env, BlobOf(s, trailer), TransformCode(s.transform), erasure, r)
    ensures |s.container| < 0x1_0000_0000 ==> r == Reread(env, data) && (CellsComeBack(env, data) ==> r == Recovered(env, data))
    ensures |s.container| >= 0x1_0000_0000 ==> r == None
    ensures erasure ==> |s.container| < 0x1_0000_0000
  {
    hide Restoring.Lossless, Stores, RestoresContainer, Recovered, Reread, CellsComeBack, FromLe, BlobOf, Magic, Container.Encoded, Files;
    LengthField(s, trailer);
    BlobLength(s, trailer);
    var raw, n := BlobOf(s, trailer), |s.container|;
    if erasure {
      var f := StoredHasFile(env, data, erasure, fcdc, s);
      PackIsSmall(env, Container.Encoded(f));
    }
    if n < 0x1_0000_0000 {
      ContainerRestored(env, data, erasure, fcdc, s, r);
    } else {
      var len := n % 0x1_0000_0000;
      SubSlice(raw, 14, s.container, 0, len);
      assert s.container[0..len] == s.container[..len];
      CutContainerRefused(env, data, fcdc, s, len, TransformCode(s.transform), r);
    }
  }

  lemma BlobLength(s: Stored, trailer: seq<byte>)
    ensures |BlobOf(s, trailer)| == 14 + |s.container| + |trailer|
  {
    hide Le;
  }

  /** Without columns, a stored file comes back byte for byte. */
  lemma StoreIsLossless(env: Env, data: seq<byte>, erasure: bool, fcdc: bool, s: Stored, trailer: seq<byte>, r: Option<seq<byte>>)
    requires Restoring.Lossless(env.zstd) && Stores(env, data, erasure, fcdc, Some(s)) && s.transform != InColumns && |trailer| == 104
    requires RestoresFull(env, BlobOf(s, trailer), if s.transform == Plain then 0 else 2, erasure, r)
    ensures r == if |s.container| < 0x1_0000_0000 then Some(data) else None
  {
    hide RestoresFull, BlobOf, Restoring.Lossless, Columnar.ExactTable, Columnar.Blob, LogField.Encoding, LogField.Blob, Chunked, StoredFrom, Reread;
    var f := StoredHasFile(env, data, erasure, fcdc, s);
    StoredIsRestored(env, data, erasure, fcdc, s, trailer, r);
  }

  /**
   In columns, a file whose cells come back comes back byte for byte if it was compact JSON with one
   key order throughout; and if the library reads back the array that is written, only then.
   */
  lemma ColumnsAreLosslessWhenPlain(env: Env, data: seq<byte>, erasure: bool, fcdc: bool, s: Stored, trailer: seq<byte>, r: Option<seq<byte>>)
    requires Restoring.Lossless(env.zstd) && Stores(env, data, erasure, fcdc, Some(s)) && s.transform == InColumns
    requires CellsComeBack(env, data) && |trailer| == 104 && |s.container| < 0x1_0000_0000
    requires RestoresFull(env, BlobOf(s, trailer), 1, erasure, r)
    ensures Columnar.Plain(env.json, data) ==> r == Some(data)
    ensures Json.ComesBack(env.json, Columnar.Again(env.json, data)) ==> (r == Some(data) <==> Columnar.Plain(env.json, data))
  {
    hide RestoresFull, BlobOf, Restoring.Lossless, Columnar.ExactTable, Columnar.Blob, Columnar.Decoding, LogField.Encoding, LogField.Blob;
    hide Chunked, StoredFrom, Columnar.Plain, Columnar.Again, Json.ComesBack, Reread, CellsComeBack;
    var f := StoredHasFile(env, data, erasure, fcdc, s);
    StoredIsRestored(env, data, erasure, fcdc, s, trailer, r);
    Columnar.ExactWhenPlain(env.json, data);
  }

  // ---- The methods ----

  method ApplyTransform(env: Env, data: seq<byte>) returns (r: Option<(Transform, seq<byte>)>)
    ensures r == Transformed(env, data)
  {
    hide Columnar.ExactTable, Columnar.Encodes, Columnar.Blob, LogField.Encoding, LogField.Blob;
    var codec := env.detect(data);
    if codec == Container.Json {
      var table := Columnar.Encode(env.json, data, Columnar.Exact);
      Columnar.EncodesExactly(env.json, data, table);
      if table.None? { return Some((Plain, data)); }
      var blob := Columnar.ToBlob(env.json, env.hash, table.value);
      r := match blob case None => None case Some(b) => Some((InColumns, b));
    } else if codec == Container.Log {
      var columns := LogField.Encode(data);
      if columns.None? { return Some((Plain, data)); }
      var blob := LogField.ToBlob(env.hash, columns.value);
      r := Some((InLogFields, blob));
    } else {
      r := Some((Plain, data));
    }
  }

  method Chunk(env: Env, fcdc: bool, codec: Container.Codec, t: seq<byte>) returns (chunks: seq<Chunk>)
    requires t != []
    ensures Chunked(env, fcdc, codec, t, chunks)
  {
    hide FastCdc.Pieces, FastCdc.NamedAll, Structural.SplitOf, Structural.GatheredFrom, Structural.Gathered;
    if fcdc {
      var split := FastCdc.Split(env.hash, t, Fcdc());
      chunks := split.value;
    } else {
      ghost var raw;
      chunks, raw := Structural.SplitCompact(env.hash, Container.StructuralKind(codec), t, MIN_CHUNK);
    }
  }

  method Store(env: Env, data: seq<byte>, erasure: bool, fcdc: bool) returns (r: Option<Stored>)
    ensures Stores(env, data, erasure, fcdc, r)
  {
    hide Transformed, Chunked, StoredFrom;
    if data == [] || |data| > MAX_FILE_BYTES { return None; }
    var codec := env.detect(data);
    var transformed := ApplyTransform(env, data);
    if transformed.None? { return None; }
    var (kind, t) := transformed.value;
    TransformedIsSmall(env, data);
    var chunks := Chunk(env, fcdc, codec, t);
    r := Pack(env, erasure, fcdc, codec, kind, chunks);
  }

  method Pack(env: Env, erasure: bool, fcdc: bool, codec: Container.Codec, kind: Transform, chunks: seq<Chunk>) returns (r: Option<Stored>)
    ensures r == StoredFrom(env, erasure, fcdc, codec, kind, chunks)
  {
    hide Restoring.Zipped, Container.FileOf, Container.Encoded, ShardPack.Packed, Container.Proper;
    var file := Restoring.NewZstd(env.hash, env.zstd, codec, chunks);
    if file.None? { return None; }
    var encoded := Container.Encode(file.value);
    var container := Some(encoded);
    if erasure {
      container := ShardPack.PackShards(env.hash, encoded);
    }
    if container.None? { return None; }
    r := Some(Stored(container.value, kind, if fcdc then 1 else 0));
  }

  method Undo(env: Env, code: byte, t: seq<byte>) returns (r: Option<seq<byte>>)
    ensures r == Undone(env, code, t)
  {
    hide Columnar.FromBlob, Columnar.Decoding, LogField.FromBlob, LogField.Decoding;
    if code == 0 {
      r := Some(t);
    } else if code == 1 {
      var table := Columnar.ParseBlob(env.json, env.hash, t);
      if table.None? { return None; }
      Columnar.ReadShape(env.json, env.hash, t);
      r := Columnar.Decode(env.json, table.value);
    } else if code == 2 {
      var columns := LogField.ParseBlob(env.hash, t);
      if columns.None? { return None; }
      LogField.BlobExactly(env.hash, t, columns.value);
      r := LogField.Decode(columns.value);
    } else {
      r := None;
    }
  }

  method RestoreContainer(env: Env, container: seq<byte>, code: byte, erasure: bool) returns (r: Option<seq<byte>>)
    ensures RestoresContainer(env, container, code, erasure, r)
  {
    hide ShardPack.Opens, Container.Decoded, Restoring.Restores, Undone;
    var bytes := Some(container);
    if erasure {
      bytes := ShardPack.OpenShardPack(env.hash, container);
    }
    assert Unprotected(env, erasure, container, bytes);
    if bytes.None? { return None; }
    r := Unpack(env, code, bytes.value);
  }

  method Unpack(env: Env, code: byte, bytes: seq<byte>) returns (r: Option<seq<byte>>)
    ensures Unpacks(env, code, Some(bytes), r)
  {
    hide Container.Decoded, Restoring.Restores, Undone;
    var file := Container.Decode(env.hash, bytes);
    if file.None? { return None; }
    var raw := Restoring.RestoreOriginal(env.zstd, file.value);
    if raw.None? { return None; }
    r := Undo(env, code, raw.value);
  }

  method RestoreFull(env: Env, raw: seq<byte>, code: byte, erasure: bool) returns (r: Option<seq<byte>>)
    ensures RestoresFull(env, raw, code, erasure, r)
  {
    hide RestoresContainer, FromLe;
    if |raw| < 18 || raw[..8] != Magic() { return None; }
    var len := FromLe(raw[10..14]);
    if |raw| < 14 + len { return None; }
    r := RestoreContainer(env, raw[14..14 + len], code, erasure);
  }
}
