/**
 The stored formats, byte for byte: what stands at which place of a container file, a shard pack,
 a Huffman envelope, a columnar or log blob, a block, a checkpoint and an engine record.
 */
module Formats {
  import opened Options
  import opened Bytes
  import opened Collections
  import opened Hashing
  import opened Chunks
  import opened Lists
  import Container
  import ShardPack
  import HuffmanCodec
  import LogField
  import Columnar
  import Json
  import Blocks
  import Checkpoints
  import Engine

  // ---- The container file ----

  /** The bytes of a chunk: its length, its name and its data. */
  ghost function ChunkRecord(h: Hash, data: seq<byte>): seq<byte>
  {
    Le(|data|, 8) + h(Ascii("BDLM_CONTENT_V1") + Le(|data|, 8) + data) + data
  }

  ghost function CidsOf(chunks: seq<Chunk>): (r: seq<seq<byte>>)
    ensures |r| == |chunks|
  {
    seq<seq<byte>>(|chunks|, i requires 0 <= i < |chunks| => chunks[i].cid)
  }

  ghost function RecordsOf(h: Hash, chunks: seq<Chunk>): (r: seq<seq<byte>>)
    ensures |r| == |chunks|
  {
    seq(|chunks|, i requires 0 <= i < |chunks| => ChunkRecord(h, chunks[i].data))
  }

  lemma {:induction false} CidsEndToEnd(chunks: seq<Chunk>)
    ensures Container.Cids(chunks) == Concat(CidsOf(chunks))
  {
    if chunks == [] {
      ConcatNone<byte>();
    } else {
      hide Concat;
      var n := |chunks| - 1;
      CidsEndToEnd(chunks[..n]);
      assert CidsOf(chunks) == CidsOf(chunks[..n]) + [chunks[n].cid];
      ConcatMore(CidsOf(chunks[..n]), chunks[n].cid);
    }
  }

  lemma {:induction false} TotalIsLength(chunks: seq<Chunk>)
    ensures Container.Total(chunks) == |Joined(chunks)|
  {
    if chunks == [] {
      NothingJoined();
    } else {
      var n := |chunks| - 1;
      TotalIsLength(chunks[..n]);
      JoinedMore(chunks[..n], chunks[n]);
      assert chunks[..n] + [chunks[n]] == chunks;
    }
  }

  lemma {:induction false} BodyEndToEnd(h: Hash, chunks: seq<Chunk>)
    requires WellNamed(h, chunks)
    ensures Container.Body(chunks) == Concat(RecordsOf(h, chunks))
  {
    if chunks == [] {
      ConcatNone<byte>();
    } else {
      hide Concat, Le;
      var n := |chunks| - 1;
      BodyEndToEnd(h, chunks[..n]);
      assert RecordsOf(h, chunks) == RecordsOf(h, chunks[..n]) + [ChunkRecord(h, chunks[n].data)];
      ConcatMore(RecordsOf(h, chunks[..n]), ChunkRecord(h, chunks[n].data));
      assert Container.ChunkBytes(chunks[n]) == ChunkRecord(h, chunks[n].data);
    }
  }

  /** A container file starts with magic, format, digest of the names, counts and codec. */
  lemma ContainerHead(h: Hash, f: Container.File)
    requires Container.Proper(h, f)
    ensures var b := Container.Encoded(f);
            && |b| >= 61 && b[..8] == [0xB5, 0x55, 0x44, 0xB0, 0x02, 0, 0, 0]
            && b[8] == (match f.header.codec case Json => 1 case Csv => 2 case Log => 3 case Text => 4 case Mp4 => 10
                        case Jpeg => 11 case Png => 12 case Pdf => 16 case Unknown => 0)
            && b[9] == 0 && b[10] == 0x16 && b[11] == 32 && b[12..44] == h(Ascii("BDLM_BUD_V2") + Concat(CidsOf(f.chunks)))
            && FromLe(b[44..48]) == |f.chunks| && FromLe(b[48..56]) == |Joined(f.chunks)|
            && b[56] == (match f.chunkCodec case Raw => 0 case Huffman => 1 case Zstd => 2) && FromLe(b[57..61]) == |f.chunks|
  {
    HeadFields(f);
    CidsEndToEnd(f.chunks);
    TotalIsLength(f.chunks);
    CodeBytes(f.header.codec);
    Widths();
    FromLeLe(|f.chunks|, 4);
    FromLeLe(|Joined(f.chunks)|, 8);
    hide Le, FromLe, Joined, Container.Encoded, Container.Total, Container.Cids, Concat, CidsOf;
    var code := Le(Container.Code(f.header.codec), 2);
    var b := Container.Encoded(f);
    assert b[8] == code[0] && b[9] == code[1];
  }

  lemma HeadFields(f: Container.File)
    ensures var b := Container.Encoded(f);
            && |b| >= 61 && b[..8] == [0xB5, 0x55, 0x44, 0xB0, 0x02, 0, 0, 0] && b[8..10] == Le(Container.Code(f.header.codec), 2)
            && b[8] == b[8..10][0] && b[9] == b[8..10][1] && b[10] == f.header.algo && b[11] == 32 && b[12..44] == f.header.digest
            && b[44..48] == Le(f.header.count, 4) && b[48..56] == Le(f.header.total, 8)
            && b[56] == Container.ChunkCode(f.chunkCodec) && b[57..61] == Le(f.header.count, 4)
  {
    hide Le, Container.Body, Container.Code;
  }

  /** And then come the chunks. */
  lemma ContainerTail(h: Hash, f: Container.File)
    requires Container.Proper(h, f)
    ensures |Container.Encoded(f)| >= 61 && Container.Encoded(f)[61..] == Concat(RecordsOf(h, f.chunks))
  {
    hide Le, Container.Body, Concat, RecordsOf;
    BodyEndToEnd(h, f.chunks);
  }

  lemma CodeBytes(c: Container.Codec)
    ensures Le(Container.Code(c), 2) == [Container.Code(c), 0]
  {
    assert Container.Code(c) < 256;
    assert Le(Container.Code(c), 2) == [Container.Code(c) % 256] + Le(Container.Code(c) / 256, 1);
    assert Le(0, 1) == [0] + Le(0, 0);
  }

  // ---- The shard pack ----

  /** The bytes of a shard: its digest, its length and its data. */
  ghost function ShardRecord(h: Hash, index: nat, shard: seq<byte>): seq<byte>
    requires index < 256
  {
    h(Ascii("BDLM_BUD_SHARD_V1") + [index] + Le(|shard|, 8) + shard) + Le(|shard|, 4) + shard
  }

  ghost function ShardRecords(h: Hash, shards: seq<seq<byte>>): (r: seq<seq<byte>>)
    requires |shards| == 6
    ensures |r| == 6
  {
    seq(6, i requires 0 <= i < 6 => ShardRecord(h, i, shards[i]))
  }

  /** Byte n of the content, filled up with zeros. */
  function Filled(e: seq<byte>, n: int): byte
  {
    if 0 <= n < |e| then e[n] else 0
  }

  /** Shards of a quarter of the content each, the first four of them the content in order. */
  ghost predicate HoldsInOrder(shards: seq<seq<byte>>, e: seq<byte>, len: nat)
  {
    && (forall i :: 0 <= i < |shards| ==> |shards[i]| == len)
    && forall i, j :: 0 <= i < 4 && i < |shards| && 0 <= j < len ==> shards[i][j] == Filled(e, i * len + j)
  }

  /** A shard pack: four and two, the length, and six records, the first four of them the content in order, filled up with zeros. */
  lemma PackBytes(h: Hash, e: seq<byte>) returns (shards: seq<seq<byte>>)
    requires 0 < |e| <= 4 * 64 * 1024 * 1024
    ensures |shards| == 6 && ShardPack.Packed(h, e) == Some([4, 2] + Le(|e|, 8) + Concat(ShardRecords(h, shards)))
    ensures HoldsInOrder(shards, e, (|e| + 3) / 4)
  {
    var rs, len := ShardPack.Written(h, e), (|e| + 3) / 4;
    shards := seq(6, i requires 0 <= i < 6 => rs[i].shard);
    hide ShardPack.Written, ShardPack.Shards;
    forall i: nat | i < 6 ensures |rs[i].shard| == len && ShardPack.RecordBytes(rs[i]) == ShardRecord(h, i, rs[i].shard) {
      RecordIs(h, e, i);
    }
    hide Filled;
    forall i: nat, j: nat | i < 4 && j < len ensures rs[i].shard[j] == Filled(e, i * len + j) {
      DataShard(h, e, i, j);
    }
    hide Le, Concat, ShardPack.RecordBytes, ShardRecord;
    assert Written(ShardPack.RecordWriter(), rs) == ShardRecords(h, shards);
  }

  lemma RecordIs(h: Hash, e: seq<byte>, i: nat)
    requires ShardPack.Packable(e) && i < 6
    ensures var r := ShardPack.Written(h, e)[i];
            |r.shard| == (|e| + 3) / 4 && ShardPack.RecordBytes(r) == ShardRecord(h, i, r.shard)
  {
    hide Le, ShardPack.Shards, ShardPack.Nums;
    ShardPack.UntouchedIsIntact(h, e, i);
    var r := ShardPack.Written(h, e)[i];
    assert i % 256 == i && r.digest == h(Ascii("BDLM_BUD_SHARD_V1") + [i] + Le(|r.shard|, 8) + r.shard);
  }

  lemma DataShard(h: Hash, e: seq<byte>, i: nat, j: nat)
    requires ShardPack.Packable(e) && i < 4 && j < (|e| + 3) / 4
    ensures |ShardPack.Written(h, e)[i].shard| == (|e| + 3) / 4
    ensures ShardPack.Written(h, e)[i].shard[j] == Filled(e, i * ((|e| + 3) / 4) + j)
  {
    var len := (|e| + 3) / 4;
    assert ShardPack.Shards(e)[i] == ShardPack.PartBits(e)[i] == ShardPack.Bits(ShardPack.Part(e, i));
    ShardPack.NumsBits(ShardPack.Part(e, i));
    PartByte(e, i, j);
  }

  lemma PartByte(e: seq<byte>, i: nat, j: nat)
    requires i < 4 && j < (|e| + 3) / 4
    ensures ShardPack.Part(e, i)[j] == Filled(e, i * ((|e| + 3) / 4) + j)
  {}

  // ---- The Huffman envelope ----

  /** The bytes below s that occur. */
  ghost function Below(data: seq<byte>, s: nat): set<byte>
  {
    set b: byte | b < s && b in data
  }

  lemma {:induction false} UsedIsBelow(data: seq<byte>, s: nat)
    requires s <= 256
    ensures HuffmanCodec.UsedCount(HuffmanCodec.MessageLengths(data), s) == |Below(data, s)|
  {
    hide HuffmanCodec.MessageLengths;
    if s == 0 {
      assert Below(data, 0) == {};
    } else {
      UsedIsBelow(data, s - 1);
      HuffmanCodec.LengthsFacts(data);
      var b: byte := s - 1;
      assert Below(data, s) == Below(data, s - 1) + if b in data then {b} else {};
    }
  }

  lemma {:induction false} TableLength(lens: seq<nat>, n: nat)
    requires n <= |lens| == 256 && forall s :: 0 <= s < |lens| ==> lens[s] <= 255
    ensures |HuffmanCodec.Table(lens, n)| == 2 * HuffmanCodec.UsedCount(lens, n)
  {
    if n > 0 { TableLength(lens, n - 1); }
  }

  lemma {:induction false} TableEntry(lens: seq<nat>, n: nat, s: nat)
    requires s < n <= |lens| == 256 && lens[s] > 0 && forall s :: 0 <= s < |lens| ==> lens[s] <= 255
    ensures var k := 2 * HuffmanCodec.UsedCount(lens, s);
            k + 1 < |HuffmanCodec.Table(lens, n)| && HuffmanCodec.Table(lens, n)[k] == s && HuffmanCodec.Table(lens, n)[k + 1] == lens[s]
  {
    TableLength(lens, n - 1);
    if s < n - 1 { TableEntry(lens, n - 1, s); }
  }

  /** An envelope starts with magic, version, the length, the number of different bytes, and each of them with its code length. */
  lemma EnvelopeBytes(data: seq<byte>)
    requires |data| < 0x1_0000_0000_0000_0000
    ensures var b := HuffmanCodec.Header(data);
            && |b| == 19 + 2 * |Below(data, 256)|
            && b[..9] == [0xB5, 0x48, 0x46, 0x4D, 0x31, 0, 0, 0, 1] && FromLe(b[9..17]) == |data|
            && FromLe(b[17..19]) == |Below(data, 256)|
            && forall s: byte :: s in data ==>
                 var k := 19 + 2 * |Below(data, s)|;
                 k + 1 < |b| && b[k] == s && b[k + 1] == HuffmanCodec.MessageLengths(data)[s]
  {
    hide Le, FromLe, HuffmanCodec.MessageLengths, HuffmanCodec.Table, Below;
    var b, lens := HuffmanCodec.Header(data), HuffmanCodec.MessageLengths(data);
    UsedIsBelow(data, 256);
    TableLength(lens, 256);
    Widths();
    FromLeLe(|data|, 8);
    FromLeLe(|Below(data, 256)|, 2);
    assert b[9..17] == Le(|data|, 8) && b[17..19] == Le(|Below(data, 256)|, 2);
    forall s: byte | s in data
      ensures var k := 19 + 2 * |Below(data, s)|; k + 1 < |b| && b[k] == s && b[k + 1] == lens[s]
    {
      HuffmanCodec.LengthsFacts(data);
      UsedIsBelow(data, s);
      TableEntry(lens, 256, s);
      assert b[19..] == HuffmanCodec.Table(lens, 256);
    }
  }

  // ---- The log blob ----

  ghost function LengthThen(v: seq<byte>): seq<byte> { Le(|v|, 4) + v }

  ghost function LogColumn(col: LogField.Column): seq<byte>
  {
    Le(|col|, 4) + Concat(seq(|col|, i requires 0 <= i < |col| => LengthThen(col[i])))
  }

  lemma {:induction false} LogColumnsEndToEnd(cols: seq<LogField.Column>)
    ensures LogField.ColumnsBytes(cols) == LogColumns(cols)
  {
    var parts := seq(|cols|, k requires 0 <= k < |cols| => LogColumn(cols[k]));
    if cols == [] {
      ConcatNone<byte>();
    } else {
      hide Concat, Le;
      var n := |cols| - 1;
      LogColumnsEndToEnd(cols[..n]);
      var front := seq(n, k requires 0 <= k < n => LogColumn(cols[..n][k]));
      assert parts == front + [LogColumn(cols[n])];
      ConcatMore(front, LogColumn(cols[n]));
      assert Written(LogField.CellWriter(), cols[n]) == seq(|cols[n]|, i requires 0 <= i < |cols[n]| => LengthThen(cols[n][i]));
    }
  }

  ghost function LogColumns(cols: seq<LogField.Column>): seq<byte>
  {
    Concat(seq(|cols|, k requires 0 <= k < |cols| => LogColumn(cols[k])))
  }

  ghost function LogPayload(c: LogField.Columnar): seq<byte>
  {
    [0xB5, 0x4C, 0x47, 0x46, 0x44, 0, 0, 0, 1] + Le(c.lines, 4) + LengthThen(c.template) + LogColumns(c.columns)
  }

  /** A log blob: magic, version, the number of lines, the template, the columns, and the digest of all that. */
  lemma LogBlobBytes(h: Hash, c: LogField.Columnar)
    ensures LogField.Blob(h, c) == LogPayload(c) + h(Ascii("BDLM_BUD_LOGFIELD_V1") + LogPayload(c))
  {
    LogColumnsEndToEnd(c.columns);
    hide Le, LogColumns, LogField.ColumnsBytes;
    assert LogField.Magic() == [0xB5, 0x4C, 0x47, 0x46, 0x44, 0, 0, 0, 1];
    assert LogField.Payload(c) == LogPayload(c);
  }

  // ---- The columnar blob ----

  /** A value in a column of a type. */
  ghost function CellRecord(lib: Json.Lib, t: Columnar.ColType, v: Json.Value): seq<byte>
    requires Columnar.Carries(t, v)
  {
    match t
    case StrCol => if v.Str? then [0] + LengthThen(v.s) else [1] + LengthThen(lib.show(v))
    case U64Col => Le(v.num.n, 8)
    case I64Col => Le(if v.num.NegInt? then 0x1_0000_0000_0000_0000 + v.num.m else v.num.n, 8)
    case F64Col => Le(if v.num.Float? then v.num.bits else lib.nearest(v.num), 8)
    case BoolCol => [if v.b then 1 else 0]
  }

  ghost predicate Carried(t: Columnar.ColType, col: Columnar.Column)
  {
    forall i :: 0 <= i < |col| ==> Columnar.Carries(t, col[i])
  }

  ghost function ColumnRecord(lib: Json.Lib, t: Columnar.ColType, col: Columnar.Column): seq<byte>
    requires Carried(t, col)
  {
    Concat(seq(|col|, i requires 0 <= i < |col| => CellRecord(lib, t, col[i])))
  }

  ghost predicate AllCarried(types: seq<Columnar.ColType>, columns: seq<Columnar.Column>)
  {
    |types| == |columns| && forall k :: 0 <= k < |columns| ==> Carried(types[k], columns[k])
  }

  lemma ColumnEndToEnd(lib: Json.Lib, t: Columnar.ColType, col: Columnar.Column)
    requires Carried(t, col)
    ensures Columnar.ColumnBytes(lib, t, col) == ColumnRecord(lib, t, col)
  {
    hide Le, Concat, Columnar.Carries;
    forall i | 0 <= i < |col| ensures Columnar.CellBytes(lib, t, col[i]) == CellRecord(lib, t, col[i]) {
      CellEndToEnd(lib, t, col[i]);
    }
    hide Columnar.CellBytes, CellRecord;
    assert Written(Columnar.CellWriter(lib, t), col) == seq(|col|, i requires 0 <= i < |col| => CellRecord(lib, t, col[i]));
  }

  lemma CellEndToEnd(lib: Json.Lib, t: Columnar.ColType, v: Json.Value)
    requires Columnar.Carries(t, v)
    ensures Columnar.CellBytes(lib, t, v) == CellRecord(lib, t, v)
  {
    hide Le;
  }

  lemma {:induction false} ColumnsEndToEnd(lib: Json.Lib, types: seq<Columnar.ColType>, columns: seq<Columnar.Column>, k: nat)
    requires AllCarried(types, columns) && k <= |columns|
    ensures Columnar.ColumnsBytes(lib, types, columns, k) ==
            Concat(seq(k, i requires 0 <= i < k => ColumnRecord(lib, types[i], columns[i])))
  {
    hide Concat, ColumnRecord, Columnar.ColumnBytes, Carried;
    if k == 0 {
      ConcatNone<byte>();
    } else {
      ColumnsEndToEnd(lib, types, columns, k - 1);
      ColumnEndToEnd(lib, types[k - 1], columns[k - 1]);
      var front := seq(k - 1, i requires 0 <= i < k - 1 => ColumnRecord(lib, types[i], columns[i]));
      ConcatMore(front, ColumnRecord(lib, types[k - 1], columns[k - 1]));
      assert seq(k, i requires 0 <= i < k => ColumnRecord(lib, types[i], columns[i])) == front + [ColumnRecord(lib, types[k - 1], columns[k - 1])];
    }
  }

  ghost function TypeNumber(t: Columnar.ColType): byte
  {
    match t case StrCol => 0 case U64Col => 1 case I64Col => 2 case F64Col => 3 case BoolCol => 4
  }

  ghost function KeyRecords(keys: seq<Json.Text>): seq<byte>
  {
    Concat(seq(|keys|, k requires 0 <= k < |keys| => LengthThen(keys[k])))
  }

  ghost function TypeNumbers(types: seq<Columnar.ColType>): (r: seq<byte>)
    ensures |r| == |types|
  {
    seq<byte>(|types|, k requires 0 <= k < |types| => TypeNumber(types[k]))
  }

  ghost function ColumnRecords(lib: Json.Lib, types: seq<Columnar.ColType>, columns: seq<Columnar.Column>): seq<byte>
    requires AllCarried(types, columns)
  {
    Concat(seq(|columns|, k requires 0 <= k < |columns| => ColumnRecord(lib, types[k], columns[k])))
  }

  ghost function ColumnarPayload(lib: Json.Lib, c: Columnar.Table): seq<byte>
    requires AllCarried(c.types, c.columns) && |c.columns| > 0
  {
    [0xB5, 0x43, 0x4F, 0x4C, 0, 0, 0, 0, 3] + [if c.mode == Columnar.Exact then 0 else 1] + Le(|c.keys|, 2) + KeyRecords(c.keys)
    + (Le(|c.columns[0]|, 4) + TypeNumbers(c.types) + ColumnRecords(lib, c.types, c.columns))
  }

  /** A columnar blob: magic, version, mode, the keys, the number of records, the types, the columns, and the digest of all that. */
  lemma ColumnarBlobBytes(lib: Json.Lib, h: Hash, c: Columnar.Table)
    requires Columnar.Blob(lib, h, c).Some?
    ensures AllCarried(c.types, c.columns) && |c.columns| > 0
    ensures Columnar.Blob(lib, h, c) == Some(ColumnarPayload(lib, c) + h(Ascii("BDLM_BUD_COLUMNAR_V1") + ColumnarPayload(lib, c)))
  {
    CarriedInBlob(lib, c);
    ColumnsEndToEnd(lib, c.types, c.columns, |c.columns|);
    TypesEndToEnd(c.types);
    KeysEndToEnd(c.keys);
    hide Le, ColumnRecords, KeyRecords, TypeNumbers, WriteList, Columnar.ColumnsBytes, Columnar.AllWritable, AllCarried;
    assert Columnar.Magic() == [0xB5, 0x43, 0x4F, 0x4C, 0, 0, 0, 0, 3];
    assert Columnar.Payload(lib, c) == ColumnarPayload(lib, c);
  }

  lemma KeysEndToEnd(keys: seq<Json.Text>)
    ensures WriteList(Columnar.KeyWriter(), keys) == KeyRecords(keys)
  {
    hide Le, Concat;
    assert Written(Columnar.KeyWriter(), keys) == seq(|keys|, k requires 0 <= k < |keys| => LengthThen(keys[k]));
  }

  lemma CarriedInBlob(lib: Json.Lib, c: Columnar.Table)
    requires Columnar.Shaped(c) && Columnar.AllWritable(lib, c)
    ensures AllCarried(c.types, c.columns)
  {
    forall k, i | 0 <= k < |c.columns| && 0 <= i < |c.columns[k]| ensures Columnar.Carries(c.types[k], c.columns[k][i]) {
      assert Columnar.Writable(lib, c.types[k], c.columns[k][i]);
    }
  }

  lemma {:induction false} TypesEndToEnd(types: seq<Columnar.ColType>)
    ensures WriteList(Columnar.TypeWriter(), types) == TypeNumbers(types)
  {
    if types == [] {
      ConcatNone<byte>();
    } else {
      var n := |types| - 1;
      TypesEndToEnd(types[..n]);
      WriteLast(Columnar.TypeWriter(), types);
    }
  }

  // ---- Blocks, checkpoints and the engine's record ----

  ghost function ChallengeRecord(c: Blocks.Challenge): seq<byte>
  {
    c.pact + [match c.outcome case Verified => 0 case Mismatch => 1 case NotProducible => 2] + Le(c.cost, 8)
  }

  /** What a block's hash covers, and its blob: the same fields with magic, version and the number of challenges, and the hash. */
  lemma BlockBytes(b: Blocks.Block)
    ensures var cs := Concat(seq(|b.challenges|, i requires 0 <= i < |b.challenges| => ChallengeRecord(b.challenges[i])));
            && Blocks.Preimage(b) == Ascii("BDLM_BUD_REGENBLOCK_V1") + (Le(b.epoch, 8) + b.prev) + cs
                                     + (b.root + Le(b.budget, 8) + Le(b.time, 8))
            && Blocks.Blob(b) == [0xB5, 0x52, 0x45, 0x47, 0x4E, 0x42, 0, 0, 1] + (Le(b.epoch, 8) + b.prev) + Le(|b.challenges|, 4) + cs
                                 + (b.root + Le(b.budget, 8) + Le(b.time, 8)) + b.hash
  {
    hide Le, Concat;
    assert Blocks.Magic() == [0xB5, 0x52, 0x45, 0x47, 0x4E, 0x42, 0, 0, 1];
    assert Written(Blocks.Writer(), b.challenges) ==
           seq(|b.challenges|, i requires 0 <= i < |b.challenges| => ChallengeRecord(b.challenges[i]));
  }

  /** What a checkpoint's hash covers. */
  lemma CheckpointBytes(c: Checkpoints.Checkpoint)
    ensures Checkpoints.Preimage(c) ==
            (Ascii("BDLM_BUD_CHECKPOINT_V1") + Le(c.epoch, 8) + [Container.Code(c.codec), 0])
            + (Le(|c.expert|, 8) + c.expert + Le(|c.pipe|, 8) + c.pipe) + (Le(c.ratio, 8) + c.root + c.prev)
  {
    CodeBytes(c.codec);
  }

  /** The engine's record: magic, version, the chunker, the length of the container in 32 bits, and the container. */
  lemma RecordBytes(s: Engine.Stored, trailer: seq<byte>)
    ensures var b := Engine.BlobOf(s, trailer);
            && |b| == 14 + |s.container| + |trailer|
            && b[..9] == [0xB5, 0x45, 0x4E, 0x47, 0x4E, 0, 0, 0, 1] && b[9] == s.chunkMode
            && FromLe(b[10..14]) == |s.container| % 0x1_0000_0000 && b[14..14 + |s.container|] == s.container
            && b[14 + |s.container|..] == trailer
  {
    hide Le, FromLe;
    var b := Engine.BlobOf(s, trailer);
    assert b[10..14] == Le(|s.container|, 4);
    Widths();
    FromLeTruncates(|s.container|, 4);
  }
}
