/**
 The shard pack of the storage engine: a container cut into four data shards, two parity
 shards, and a digest on each of the six, so that any four intact ones give it back.
 */
module ShardPack {
  import opened Options
  import opened Bytes
  import opened Collections
  import opened Hashing
  import opened Lists
  import Erasure

  // ---- Bytes as field elements ----

  function ToField(b: byte): bv8 { Erasure.ToByte(b) }

  function FromField(x: bv8): byte { x as int }

  lemma ByteOfByte(b: byte)
    ensures FromField(ToField(b)) == b
  {
    Erasure.ToByteValue(b);
  }

  lemma FieldOfField(x: bv8)
    ensures ToField(FromField(x)) == x
  {
    hide ToField, FromField;
    ByteOfByte(FromField(x));
    SameNumber(ToField(FromField(x)), x);
  }

  lemma SameNumber(x: bv8, y: bv8)
    requires FromField(x) == FromField(y)
    ensures x == y
  {}

  function Bits(s: seq<byte>): (r: Erasure.Shard)
    ensures |r| == |s|
  {
    seq(|s|, i requires 0 <= i < |s| => ToField(s[i]))
  }

  function Nums(s: Erasure.Shard): (r: seq<byte>)
    ensures |r| == |s|
  {
    seq<byte>(|s|, i requires 0 <= i < |s| => FromField(s[i]))
  }

  lemma NumsBits(s: seq<byte>)
    ensures Nums(Bits(s)) == s
  {
    hide ToField, FromField;
    forall i | 0 <= i < |s| ensures Nums(Bits(s))[i] == s[i] {
      ByteOfByte(s[i]);
    }
  }

  lemma BitsNums(s: Erasure.Shard)
    ensures Bits(Nums(s)) == s
  {
    hide ToField, FromField;
    forall i | 0 <= i < |s| ensures Bits(Nums(s))[i] == s[i] {
      FieldOfField(s[i]);
    }
  }

  // ---- The parts ----

  function Min(a: nat, b: nat): nat { if a < b then a else b }

  function ShardLen(n: nat): nat { (n + 3) / 4 }

  function Zeros(n: nat): (r: seq<byte>)
    ensures |r| == n
  {
    seq<byte>(n, (i: nat) => 0)
  }

  /** One of the four parts, the last ones filled up with zeros. */
  function Part(e: seq<byte>, i: nat): (r: seq<byte>)
    requires i < 4
    ensures |r| == ShardLen(|e|)
  {
    var len := ShardLen(|e|);
    var start := Min(i * len, |e|);
    var end := Min(start + len, |e|);
    e[start..end] + Zeros(len - (end - start))
  }

  /** Put together and cut to length, the parts are what was cut up. */
  lemma PartsJoin(e: seq<byte>)
    ensures var all := Part(e, 0) + Part(e, 1) + Part(e, 2) + Part(e, 3);
            |all| >= |e| && all[..|e|] == e
  {
    var len := ShardLen(|e|);
    var all := Part(e, 0) + Part(e, 1) + Part(e, 2) + Part(e, 3);
    assert 4 * len >= |e|;
    forall j | 0 <= j < |e| ensures all[j] == e[j] {
      if j < len {
        assert all[j] == Part(e, 0)[j];
      } else if j < 2 * len {
        assert all[j] == Part(e, 1)[j - len];
      } else if j < 3 * len {
        assert all[j] == Part(e, 2)[j - 2 * len];
      } else {
        assert all[j] == Part(e, 3)[j - 3 * len];
      }
    }
  }

  function PartBits(e: seq<byte>): (r: seq<Erasure.Shard>)
    ensures |r| == 4
  {
    [Bits(Part(e, 0)), Bits(Part(e, 1)), Bits(Part(e, 2)), Bits(Part(e, 3))]
  }

  predicate Packable(e: seq<byte>)
  {
    0 < ShardLen(|e|) <= Erasure.MAX_SHARD_BYTES
  }

  /** The six shards of a container. */
  ghost function Shards(e: seq<byte>): (r: seq<Erasure.Shard>)
    requires Packable(e)
    ensures |r| == 6
    ensures Erasure.Encoding(4, 2, PartBits(e)) == Some(r)
  {
    assert Erasure.EqualSizes(PartBits(e), ShardLen(|e|));
    Erasure.AllShards(4, 2, PartBits(e), ShardLen(|e|))
  }

  // ---- Records ----

  datatype Record = Record(digest: Digest, shard: seq<byte>)

  function ShardInput(index: nat, shard: seq<byte>): seq<byte>
  {
    Ascii("BDLM_BUD_SHARD_V1") + [index % 256] + Le(|shard|, 8) + shard
  }

  function RecordBytes(r: Record): (b: seq<byte>)
    ensures |b| == 36 + |r.shard|
  {
    r.digest + Le(|r.shard|, 4) + r.shard
  }

  function RecordWriter(): Record -> seq<byte> { r => RecordBytes(r) }

  function AllRecords(rs: seq<Record>): seq<byte> { WriteList(RecordWriter(), rs) }

  function Header(n: nat): (r: seq<byte>)
    ensures |r| == 10
  {
    [4, 2] + Le(n, 8)
  }

  /** A pack in good framing, whatever its records hold. */
  function Framed(n: nat, rs: seq<Record>): seq<byte>
  {
    Header(n) + AllRecords(rs)
  }

  /** The records as they are written. */
  ghost function Written(h: Hash, e: seq<byte>): (r: seq<Record>)
    requires Packable(e)
    ensures |r| == 6
  {
    seq(6, i requires 0 <= i < 6 => Record(h(ShardInput(i, Nums(Shards(e)[i]))), Nums(Shards(e)[i])))
  }

  ghost function Packed(h: Hash, e: seq<byte>): Option<seq<byte>>
  {
    if Packable(e) then Some(Framed(|e|, Written(h, e))) else None
  }

  // ---- Reading ----

  /** One record at a position, and the position after it. */
  function ReadRecord(pack: seq<byte>, pos: nat): Option<(Record, nat)>
  {
    if |pack| < pos + 36 then None
    else
      var len := FromLe(pack[pos + 32..pos + 36]);
      if |pack| < pos + 36 + len then None
      else Some((Record(pack[pos..pos + 32], pack[pos + 36..pos + 36 + len]), pos + 36 + len))
  }

  function RecordReader(pack: seq<byte>): nat -> Option<(Record, nat)> { p => ReadRecord(pack, p) }

  function ReadRecords(pack: seq<byte>, pos: nat, n: nat): Option<(seq<Record>, nat)>
  {
    ReadList(RecordReader(pack), pos, n)
  }

  /** The test a record has to pass to be used. */
  predicate Intact(h: Hash, len: nat, index: nat, r: Record)
  {
    |r.shard| == len && h(ShardInput(index, r.shard)) == r.digest
  }

  function Survivors(h: Hash, len: nat, rs: seq<Record>): seq<Erasure.Survivor>
  {
    if rs == [] then []
    else
      var last := |rs| - 1;
      Survivors(h, len, rs[..last]) + if Intact(h, len, last, rs[last]) then [(last, Bits(rs[last].shard))] else []
  }

  function NumsAll(parts: seq<Erasure.Shard>): (r: seq<seq<byte>>)
    ensures |r| == |parts|
  {
    seq(|parts|, i requires 0 <= i < |parts| => Nums(parts[i]))
  }

  function Joined(parts: seq<Erasure.Shard>): seq<byte>
  {
    Concat(NumsAll(parts))
  }

  /** What is returned once the decoder has answered. */
  function Cut(n: nat, decoded: Option<seq<Erasure.Shard>>): Option<seq<byte>>
  {
    match decoded
    case None => None
    case Some(parts) => if n > |Joined(parts)| then None else Some(Joined(parts)[..n])
  }

  ghost predicate Opens(h: Hash, pack: seq<byte>, r: Option<seq<byte>>)
  {
    if |pack| < 10 || pack[0] != 4 || pack[1] != 2 then r == None
    else
      var n := FromLe(pack[2..10]);
      match ReadRecords(pack, 10, 6)
      case None => r == None
      case Some((rs, at)) =>
        var alive := Survivors(h, ShardLen(n), rs);
        if at != |pack| || |alive| < 4 then r == None
        else exists d :: Erasure.Decodes(4, 2, alive[..4], d) && r == Cut(n, d)
  }

  // ---- Reading back what is framed ----

  ghost predicate Writable(rs: seq<Record>)
  {
    forall i :: 0 <= i < |rs| ==> |rs[i].shard| < 0x1_0000_0000
  }

  lemma RecordReads(pack: seq<byte>, pos: nat, r: Record)
    requires pos + 36 + |r.shard| <= |pack| && |r.shard| < 0x1_0000_0000
    requires pack[pos..pos + 36 + |r.shard|] == RecordBytes(r)
    ensures ReadRecord(pack, pos) == Some((r, pos + 36 + |r.shard|))
  {
    var b := RecordBytes(r);
    assert b[..32] == r.digest && b[32..36] == Le(|r.shard|, 4) && b[36..] == r.shard;
    SubSlice(pack, pos, b, 0, 32);
    SubSlice(pack, pos, b, 32, 36);
    SubSlice(pack, pos, b, 36, |b|);
    Widths();
    FromLeLe(|r.shard|, 4);
  }

  lemma RecordReadsBack(pack: seq<byte>, r: Record)
    requires |r.shard| < 0x1_0000_0000
    ensures ReadsBack(RecordReader(pack), RecordWriter(), pack, r)
  {
    hide ReadRecord, RecordBytes;
    forall p: nat | p + |RecordBytes(r)| <= |pack| && pack[p..p + |RecordBytes(r)|] == RecordBytes(r)
      ensures ReadRecord(pack, p) == Some((r, p + |RecordBytes(r)|))
    {
      RecordReads(pack, p, r);
    }
  }

  lemma RecordsRead(n: nat, rs: seq<Record>)
    requires Writable(rs)
    ensures ReadRecords(Framed(n, rs), 10, |rs|) == Some((rs, |Framed(n, rs)|))
  {
    hide ReadsBack, WriteList, ReadList, RecordReader, RecordWriter;
    var pack := Framed(n, rs);
    forall i | 0 <= i < |rs| ensures ReadsBack(RecordReader(pack), RecordWriter(), pack, rs[i]) {
      RecordReadsBack(pack, rs[i]);
    }
    assert pack[10..|pack|] == AllRecords(rs);
    ListReads(RecordReader(pack), RecordWriter(), pack, 10, rs);
  }

  lemma HeaderReads(n: nat, tail: seq<byte>)
    requires n < 0x1_0000_0000_0000_0000
    ensures var pack := Header(n) + tail;
            pack[0] == 4 && pack[1] == 2 && FromLe(pack[2..10]) == n
  {
    hide Le, FromLe;
    var pack := Header(n) + tail;
    assert pack[2..10] == Le(n, 8);
    Widths();
    FromLeLe(n, 8);
  }

  /** A framed pack is opened from its own records. */
  lemma OpensFramed(h: Hash, n: nat, rs: seq<Record>, r: Option<seq<byte>>)
    requires n < 0x1_0000_0000_0000_0000 && |rs| == 6 && Writable(rs)
    requires Opens(h, Framed(n, rs), r)
    ensures var alive := Survivors(h, ShardLen(n), rs);
            if |alive| < 4 then r == None
            else exists d :: Erasure.Decodes(4, 2, alive[..4], d) && r == Cut(n, d)
  {
    hide ReadRecords, Survivors, Erasure.Decodes, Cut, Header, AllRecords, ShardLen, FromLe;
    var pack := Framed(n, rs);
    RecordsRead(n, rs);
    HeaderReads(n, AllRecords(rs));
  }

  // ---- What survives ----

  ghost function IntactSet(h: Hash, len: nat, rs: seq<Record>): set<nat>
  {
    set i: nat | i < |rs| && Intact(h, len, i, rs[i])
  }

  lemma {:induction false} SurvivorsAreIntact(h: Hash, len: nat, rs: seq<Record>)
    ensures |Survivors(h, len, rs)| == |IntactSet(h, len, rs)|
    ensures forall j :: 0 <= j < |Survivors(h, len, rs)| ==>
              var s := Survivors(h, len, rs)[j];
              s.0 < |rs| && Intact(h, len, s.0, rs[s.0]) && s.1 == Bits(rs[s.0].shard)
    ensures forall i, j :: 0 <= i < j < |Survivors(h, len, rs)| ==> Survivors(h, len, rs)[i].0 < Survivors(h, len, rs)[j].0
  {
    if rs == [] {
      assert IntactSet(h, len, rs) == {};
    } else {
      hide Intact, Bits;
      var last := |rs| - 1;
      var rest := rs[..last];
      SurvivorsAreIntact(h, len, rest);
      SetGrows(h, len, rs);
    }
  }

  lemma SetGrows(h: Hash, len: nat, rs: seq<Record>)
    requires rs != []
    ensures var last := |rs| - 1;
            |IntactSet(h, len, rs)| == |IntactSet(h, len, rs[..last])| + if Intact(h, len, last, rs[last]) then 1 else 0
  {
    hide Intact;
    var last := |rs| - 1;
    var rest := rs[..last];
    assert IntactSet(h, len, rs) == IntactSet(h, len, rest) + if Intact(h, len, last, rs[last]) then {last} else {};
  }

  /** No record passes the test but with the shard that was written there. */
  ghost predicate Faithful(h: Hash, e: seq<byte>, rs: seq<Record>)
    requires Packable(e)
  {
    && |rs| == 6
    && forall i :: 0 <= i < 6 && Intact(h, ShardLen(|e|), i, rs[i]) ==> rs[i].shard == Nums(Shards(e)[i])
  }

  lemma JoinedMore(parts: seq<Erasure.Shard>, p: Erasure.Shard)
    ensures Joined(parts + [p]) == Joined(parts) + Nums(p)
  {
    hide Concat;
    ConcatMore(NumsAll(parts), Nums(p));
    assert NumsAll(parts + [p]) == NumsAll(parts) + [Nums(p)];
  }

  lemma JoinedParts(e: seq<byte>)
    ensures |Joined(PartBits(e))| >= |e| && Joined(PartBits(e))[..|e|] == e
  {
    hide Part, Bits, Nums;
    var b := PartBits(e);
    JoinedMore([], b[0]);
    JoinedMore([b[0]], b[1]);
    JoinedMore([b[0], b[1]], b[2]);
    JoinedMore([b[0], b[1], b[2]], b[3]);
    assert [] + [b[0]] == [b[0]] && [b[0]] + [b[1]] == [b[0], b[1]];
    assert [b[0], b[1]] + [b[2]] == [b[0], b[1], b[2]] && [b[0], b[1], b[2]] + [b[3]] == b;
    assert Joined(b) == Nums(b[0]) + Nums(b[1]) + Nums(b[2]) + Nums(b[3]);
    NumsBits(Part(e, 0));
    NumsBits(Part(e, 1));
    NumsBits(Part(e, 2));
    NumsBits(Part(e, 3));
    PartsJoin(e);
  }

  /** Any four shards of the container decode to it. */
  lemma FourDecode(e: seq<byte>, alive: seq<Erasure.Survivor>, d: Option<seq<Erasure.Shard>>)
    requires Packable(e) && |alive| == 4 && Erasure.SurvivorsOf(Shards(e), alive)
    requires forall i, j :: 0 <= i < j < 4 ==> alive[i].0 < alive[j].0
    requires Erasure.Decodes(4, 2, alive, d)
    ensures Cut(|e|, d) == Some(e)
  {
    hide PartBits, Shards, Erasure.Decodes, Erasure.SurvivorsOf, Erasure.Encoding, Joined;
    Erasure.RecoverFromAnyK(4, 2, PartBits(e), alive, d);
    JoinedParts(e);
  }

  /** A framed pack gives back the container exactly when at least four of its records are intact. */
  lemma FourIntactSuffice(h: Hash, e: seq<byte>, rs: seq<Record>, r: Option<seq<byte>>)
    requires Packable(e) && Faithful(h, e, rs) && Writable(rs)
    requires Opens(h, Framed(|e|, rs), r)
    ensures r == if |IntactSet(h, ShardLen(|e|), rs)| >= 4 then Some(e) else None
  {
    hide Opens, Survivors, Erasure.Decodes, IntactSet, Intact, Framed, Cut, Shards, Bits, Nums;
    var len := ShardLen(|e|);
    OpensFramed(h, |e|, rs, r);
    SurvivorsAreIntact(h, len, rs);
    var alive := Survivors(h, len, rs);
    if |alive| >= 4 {
      var d :| Erasure.Decodes(4, 2, alive[..4], d) && r == Cut(|e|, d);
      forall j | 0 <= j < 4 ensures alive[j].0 < 6 && alive[j].1 == Shards(e)[alive[j].0] {
        BitsNums(Shards(e)[alive[j].0]);
      }
      assert Erasure.SurvivorsOf(Shards(e), alive[..4]);
      FourDecode(e, alive[..4], d);
    }
  }

  lemma ShardSizes(e: seq<byte>, i: nat)
    requires Packable(e) && i < 6
    ensures |Shards(e)[i]| == ShardLen(|e|)
  {
    assert Erasure.EqualSizes(PartBits(e), ShardLen(|e|));
    Erasure.ShardIsItsRow(4, 2, PartBits(e), ShardLen(|e|), i, 0);
  }

  /** A record that was not touched is intact, and so the written pack opens to its container. */
  lemma UntouchedIsIntact(h: Hash, e: seq<byte>, i: nat)
    requires Packable(e) && i < 6
    ensures Intact(h, ShardLen(|e|), i, Written(h, e)[i]) && |Written(h, e)[i].shard| < 0x1_0000_0000
  {
    hide Shards, ShardInput;
    ShardSizes(e, i);
    var s := Nums(Shards(e)[i]);
    assert Written(h, e)[i] == Record(h(ShardInput(i, s)), s);
  }

  /** The records of a container, with those that were lost replaced by anything that fails its test. */
  ghost predicate Damaged(h: Hash, e: seq<byte>, rs: seq<Record>, lost: set<nat>)
  {
    && Packable(e) && |rs| == 6 && Writable(rs)
    && (forall i: nat :: i < 6 && i !in lost ==> rs[i] == Written(h, e)[i])
    && (forall i: nat :: i < 6 && i in lost ==> !Intact(h, ShardLen(|e|), i, rs[i]))
  }

  lemma IntactAreKept(h: Hash, e: seq<byte>, rs: seq<Record>, lost: set<nat>)
    requires Damaged(h, e, rs, lost)
    ensures IntactSet(h, ShardLen(|e|), rs) == {0, 1, 2, 3, 4, 5} - lost
  {
    hide Shards, Intact, Written;
    forall i: nat | i < 6 && i !in lost ensures Intact(h, ShardLen(|e|), i, rs[i]) {
      UntouchedIsIntact(h, e, i);
    }
  }

  lemma KeptAreFaithful(h: Hash, e: seq<byte>, rs: seq<Record>, lost: set<nat>)
    requires Damaged(h, e, rs, lost)
    ensures Faithful(h, e, rs)
  {
    hide Shards, Intact, Nums, ShardInput;
  }

  /** Up to two records may be anything that fails its test: the container comes back. */
  lemma TwoLossesSurvived(h: Hash, e: seq<byte>, rs: seq<Record>, lost: set<nat>, r: Option<seq<byte>>)
    requires Damaged(h, e, rs, lost) && |lost| <= 2 && Opens(h, Framed(|e|, rs), r)
    ensures r == Some(e)
  {
    assert Packable(e) && Writable(rs);
    hide *;
    IntactAreKept(h, e, rs, lost);
    KeptAreFaithful(h, e, rs, lost);
    FourRemain(lost);
    FourIntactSuffice(h, e, rs, r);
  }

  lemma FourRemain(lost: set<nat>)
    requires |lost| <= 2
    ensures |{0, 1, 2, 3, 4, 5} - lost| >= 4
  {
    var all: set<nat> := {0, 1, 2, 3, 4, 5};
    assert |all| == 6;
    SubsetSize(all * lost, lost);
    assert all == (all - lost) + all * lost;
  }

  lemma PackOpens(h: Hash, e: seq<byte>, r: Option<seq<byte>>)
    requires Packable(e) && Opens(h, Packed(h, e).value, r)
    ensures r == Some(e)
  {
    hide Opens, Framed, Written, Intact;
    forall i: nat | i < 6 ensures |Written(h, e)[i].shard| < 0x1_0000_0000 {
      UntouchedIsIntact(h, e, i);
    }
    TwoLossesSurvived(h, e, Written(h, e), {}, r);
  }

  /** While digests are kept and do not collide, rot in the shards is always seen. */
  lemma RotIsSeen(h: Hash, e: seq<byte>, rs: seq<Record>)
    requires Packable(e) && |rs| == 6
    requires forall i :: 0 <= i < 6 ==> rs[i].digest == Written(h, e)[i].digest
    requires forall i :: 0 <= i < 6 ==> NoCollision(h, {ShardInput(i, rs[i].shard), ShardInput(i, Written(h, e)[i].shard)})
    ensures Faithful(h, e, rs)
  {
    hide Shards, Nums;
    forall i | 0 <= i < 6 && Intact(h, ShardLen(|e|), i, rs[i]) ensures rs[i].shard == Nums(Shards(e)[i]) {
      var w := Written(h, e)[i];
      var a, b := ShardInput(i, rs[i].shard), ShardInput(i, w.shard);
      assert h(a) == h(b) && a in {a, b} && b in {a, b};
      ShardInputBinds(i, rs[i].shard, w.shard);
    }
  }

  lemma ShardInputBinds(i: nat, a: seq<byte>, b: seq<byte>)
    requires ShardInput(i, a) == ShardInput(i, b)
    ensures a == b
  {
    hide Le;
    var n := |Ascii("BDLM_BUD_SHARD_V1")| + 9;
    assert ShardInput(i, a)[n..] == a && ShardInput(i, b)[n..] == b;
  }

  // ---- Packing and opening ----

  method CutParts(e: seq<byte>) returns (parts: seq<Erasure.Shard>)
    ensures parts == PartBits(e)
  {
    hide Part, Bits;
    var len := ShardLen(|e|);
    parts := [];
    for i := 0 to 4
      invariant parts == PartBits(e)[..i]
    {
      PartAt(e, i);
      var start := Min(i * len, |e|);
      var end := Min(start + len, |e|);
      var part := e[start..end] + Zeros(len - (end - start));
      parts := parts + [Bits(part)];
    }
  }

  lemma PartAt(e: seq<byte>, i: nat)
    requires i < 4
    ensures PartBits(e)[i] == Bits(Part(e, i))
    ensures var len := ShardLen(|e|);
            var start := Min(i * len, |e|);
            var end := Min(start + len, |e|);
            end - start <= len && Part(e, i) == e[start..end] + Zeros(len - (end - start))
  {
    hide Bits;
  }

  method PackShards(h: Hash, e: seq<byte>) returns (r: Option<seq<byte>>)
    ensures r == Packed(h, e)
  {
    hide Erasure.Encoding, Shards;
    var parts := CutParts(e);
    PackableIsEncodable(e);
    var mds := Erasure.New(4, 2);
    var shards := mds.value.Encode(parts);
    if shards.None? { return None; }
    r := WriteRecords(h, e, shards.value);
  }

  lemma PackableIsEncodable(e: seq<byte>)
    ensures Packable(e) <==> Erasure.Encoding(4, 2, PartBits(e)).Some?
    ensures Packable(e) ==> Erasure.Encoding(4, 2, PartBits(e)) == Some(Shards(e))
  {
    assert Erasure.EqualSizes(PartBits(e), ShardLen(|e|));
  }

  method WriteRecords(h: Hash, e: seq<byte>, shards: seq<Erasure.Shard>) returns (r: Option<seq<byte>>)
    requires Packable(e) && shards == Shards(e)
    ensures r == Packed(h, e)
  {
    hide Shards, ShardInput, WriteList, RecordWriter, Nums;
    NothingWritten();
    var out := [4, 2] + Le(|e|, 8);
    ghost var w := Written(h, e);
    for index := 0 to 6
      invariant out == Header(|e|) + AllRecords(w[..index])
    {
      ShardSizes(e, index);
      var sh := Nums(shards[index]);
      if |sh| >= 0x1_0000_0000 { return None; }
      out := out + (h(ShardInput(index, sh)) + Le(|sh|, 4) + sh);
      assert w[index] == Record(h(ShardInput(index, sh)), sh);
      RecordsGrow(w, index);
    }
    assert w[..6] == w;
    r := Some(out);
  }

  lemma NothingWritten()
    ensures AllRecords([]) == []
  {}

  lemma RecordsGrow(rs: seq<Record>, i: nat)
    requires i < |rs|
    ensures AllRecords(rs[..i + 1]) == AllRecords(rs[..i]) + RecordBytes(rs[i])
  {
    WriteMore(RecordWriter(), rs[..i], rs[i]);
    assert rs[..i] + [rs[i]] == rs[..i + 1];
  }

  method ReadAll(h: Hash, pack: seq<byte>, len: nat) returns (r: Option<(seq<Erasure.Survivor>, nat)>)
    requires |pack| >= 10
    ensures r.Some? <==> ReadRecords(pack, 10, 6).Some?
    ensures r.Some? ==> r.value.0 == Survivors(h, len, ReadRecords(pack, 10, 6).value.0)
    ensures r.Some? ==> r.value.1 == ReadRecords(pack, 10, 6).value.1
  {
    hide ReadRecords, ReadRecord, Survivors, Intact, Bits;
    var pos := 10;
    var alive := [];
    ghost var seen := [];
    NothingReadYet(h, pack, len);
    for index := 0 to 6
      invariant ReadRecords(pack, 10, index) == Some((seen, pos)) && |seen| == index
      invariant alive == Survivors(h, len, seen)
    {
      var next := ReadRecord(pack, pos);
      OneRecordMore(pack, index, seen, pos);
      if next.None? {
        return None;
      }
      var rec := next.value.0;
      SurvivorsGrow(h, len, seen, rec);
      if Intact(h, len, index, rec) {
        alive := alive + [(index, Bits(rec.shard))];
      }
      seen := seen + [rec];
      pos := next.value.1;
    }
    r := Some((alive, pos));
  }

  lemma NothingReadYet(h: Hash, pack: seq<byte>, len: nat)
    ensures ReadRecords(pack, 10, 0) == Some(([], 10)) && Survivors(h, len, []) == []
  {}

  lemma OneRecordMore(pack: seq<byte>, n: nat, rs: seq<Record>, pos: nat)
    requires n < 6 && ReadRecords(pack, 10, n) == Some((rs, pos))
    ensures match ReadRecord(pack, pos)
            case None => ReadRecords(pack, 10, 6) == None
            case Some((r, next)) => ReadRecords(pack, 10, n + 1) == Some((rs + [r], next))
  {
    hide ReadRecord;
    if ReadRecord(pack, pos).None? {
      var read := RecordReader(pack);
      assert read(pos) == None;
      assert ReadList(read, 10, n + 1) == None;
      hide ReadList;
      BrokenStaysBroken(read, 10, n + 1, 6);
      assert ReadRecords(pack, 10, 6) == None;
    }
  }

  lemma SurvivorsGrow(h: Hash, len: nat, rs: seq<Record>, r: Record)
    ensures Survivors(h, len, rs + [r]) ==
            Survivors(h, len, rs) + if Intact(h, len, |rs|, r) then [(|rs|, Bits(r.shard))] else []
  {
    assert (rs + [r])[..|rs|] == rs;
  }

  method OpenShardPack(h: Hash, pack: seq<byte>) returns (r: Option<seq<byte>>)
    ensures Opens(h, pack, r)
  {
    hide ReadRecords, Survivors, Erasure.Decodes, Joined;
    if |pack| < 10 || pack[0] != 4 || pack[1] != 2 { return None; }
    var n := FromLe(pack[2..10]);
    var read := ReadAll(h, pack, ShardLen(n));
    if read.None? { return None; }
    var alive, pos := read.value.0, read.value.1;
    if pos != |pack| || |alive| < 4 { return None; }
    var mds := Erasure.New(4, 2);
    var parts := mds.value.Decode(alive[..4]);
    if parts.None? {
      assert Cut(n, parts) == None;
      return None;
    }
    var out := Concatenate(parts.value);
    assert Cut(n, parts) == if n > |out| then None else Some(out[..n]);
    r := if n > |out| then None else Some(out[..n]);
  }

  method Concatenate(parts: seq<Erasure.Shard>) returns (out: seq<byte>)
    ensures out == Joined(parts)
  {
    out := [];
    for i := 0 to |parts|
      invariant out == Joined(parts[..i])
    {
      JoinedMore(parts[..i], parts[i]);
      assert parts[..i] + [parts[i]] == parts[..i + 1];
      out := out + Nums(parts[i]);
    }
    assert parts[..|parts|] == parts;
  }
}
