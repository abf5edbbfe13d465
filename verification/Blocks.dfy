/** Regeneration blocks: what a block's hash covers, and the blob a block is stored as. */
module Blocks {
  import opened Options
  import opened Bytes
  import opened Hashing
  import opened Lists

  const MAX_CHALLENGES := 10_000

  datatype Outcome = Verified | Mismatch | NotProducible

  datatype Challenge = Challenge(pact: Digest, outcome: Outcome, cost: u64)

  datatype Block = Block(epoch: u64, prev: Digest, challenges: seq<Challenge>, root: Digest, budget: u64, time: u64, hash: Digest)

  function OutcomeCode(o: Outcome): byte
  {
    match o case Verified => 0 case Mismatch => 1 case NotProducible => 2
  }

  function OutcomeOf(v: byte): Option<Outcome>
  {
    if v == 0 then Some(Verified) else if v == 1 then Some(Mismatch) else if v == 2 then Some(NotProducible) else None
  }

  function ChallengeBytes(c: Challenge): (r: seq<byte>)
    ensures |r| == 41
  {
    c.pact + [OutcomeCode(c.outcome)] + Le(c.cost, 8)
  }

  function Writer(): Challenge -> seq<byte> { c => ChallengeBytes(c) }

  function ChallengesBytes(cs: seq<Challenge>): seq<byte> { WriteList(Writer(), cs) }

  function Front(b: Block): (r: seq<byte>)
    ensures |r| == 40
  {
    Le(b.epoch, 8) + b.prev
  }

  function Back(b: Block): (r: seq<byte>)
    ensures |r| == 48
  {
    b.root + Le(b.budget, 8) + Le(b.time, 8)
  }

  /** What is hashed: every field but the hash, and no count of challenges. */
  function Preimage(b: Block): seq<byte>
  {
    Ascii("BDLM_BUD_REGENBLOCK_V1") + Front(b) + ChallengesBytes(b.challenges) + Back(b)
  }

  // ---- The hash covers everything ----

  lemma {:induction false} ChallengesLength(cs: seq<Challenge>)
    ensures |ChallengesBytes(cs)| == 41 * |cs|
  {
    if cs != [] {
      ChallengesLength(cs[..|cs| - 1]);
      WriteLast(Writer(), cs);
    }
  }

  lemma ChallengeBinds(a: Challenge, b: Challenge)
    requires ChallengeBytes(a) == ChallengeBytes(b)
    ensures a == b
  {
    hide Le, FromLe;
    var x, y := ChallengeBytes(a), ChallengeBytes(b);
    assert x[..32] == a.pact && y[..32] == b.pact && x[32] == OutcomeCode(a.outcome) && y[32] == OutcomeCode(b.outcome);
    assert x[33..] == Le(a.cost, 8) && y[33..] == Le(b.cost, 8);
    Widths();
    FromLeLe(a.cost, 8);
    FromLeLe(b.cost, 8);
  }

  lemma {:induction false} ChallengesBind(a: seq<Challenge>, b: seq<Challenge>)
    requires ChallengesBytes(a) == ChallengesBytes(b)
    ensures a == b
  {
    ChallengesLength(a);
    ChallengesLength(b);
    if a != [] {
      hide WriteList, ChallengeBytes;
      var n := |a| - 1;
      var a', b' := a[..n], b[..n];
      assert a == a' + [a[n]] && b == b' + [b[n]];
      WriteMore(Writer(), a', a[n]);
      WriteMore(Writer(), b', b[n]);
      ChallengesLength(a');
      ChallengesLength(b');
      var x := ChallengesBytes(a);
      assert x[..41 * n] == ChallengesBytes(a') && x[..41 * n] == ChallengesBytes(b');
      assert x[41 * n..] == ChallengeBytes(a[n]) && x[41 * n..] == ChallengeBytes(b[n]);
      ChallengesBind(a', b');
      ChallengeBinds(a[n], b[n]);
      assert a == b;
    }
  }

  lemma EndsBind(a: Block, b: Block)
    requires Front(a) == Front(b) && Back(a) == Back(b)
    ensures a.epoch == b.epoch && a.prev == b.prev && a.root == b.root && a.budget == b.budget && a.time == b.time
  {
    hide Le, FromLe;
    assert Front(a)[..8] == Le(a.epoch, 8) && Front(b)[..8] == Le(b.epoch, 8) && Front(a)[8..] == a.prev && Front(b)[8..] == b.prev;
    assert Back(a)[..32] == a.root && Back(b)[..32] == b.root;
    assert Back(a)[32..40] == Le(a.budget, 8) && Back(b)[32..40] == Le(b.budget, 8);
    assert Back(a)[40..] == Le(a.time, 8) && Back(b)[40..] == Le(b.time, 8);
    Widths();
    FromLeLe(a.epoch, 8);
    FromLeLe(b.epoch, 8);
    FromLeLe(a.budget, 8);
    FromLeLe(b.budget, 8);
    FromLeLe(a.time, 8);
    FromLeLe(b.time, 8);
  }

  /** No two blocks share a preimage, although it does not say how many challenges there are. */
  lemma PreimageBinds(a: Block, b: Block)
    requires Preimage(a) == Preimage(b) && a.hash == b.hash
    ensures a == b
  {
    hide Front, Back, ChallengesBytes;
    var t := |Ascii("BDLM_BUD_REGENBLOCK_V1")|;
    var x, y := Preimage(a), Preimage(b);
    assert x[t..t + 40] == Front(a) && y[t..t + 40] == Front(b);
    assert x[|x| - 48..] == Back(a) && y[|y| - 48..] == Back(b);
    assert x[t + 40..|x| - 48] == ChallengesBytes(a.challenges) && y[t + 40..|y| - 48] == ChallengesBytes(b.challenges);
    EndsBind(a, b);
    ChallengesBind(a.challenges, b.challenges);
  }

  // ---- The blob ----

  function Magic(): (r: seq<byte>)
    ensures |r| == 9
  {
    [0xB5, 0x52, 0x45, 0x47, 0x4E, 0x42, 0, 0] + [1]
  }

  function Blob(b: Block): seq<byte>
  {
    Magic() + Front(b) + Le(|b.challenges|, 4) + ChallengesBytes(b.challenges) + Back(b) + b.hash
  }

  function ReadChallenge(s: seq<byte>, pos: nat): Option<(Challenge, nat)>
  {
    if |s| < pos + 41 then None
    else match OutcomeOf(s[pos + 32])
      case None => None
      case Some(o) =>
        Widths();
        LeFromLe(s[pos + 33..pos + 41]);
        Some((Challenge(s[pos..pos + 32], o, FromLe(s[pos + 33..pos + 41])), pos + 41))
  }

  function Reader(s: seq<byte>): nat -> Option<(Challenge, nat)> { p => ReadChallenge(s, p) }

  function Number(s: seq<byte>): u64
    requires |s| == 8
  {
    Widths();
    LeFromLe(s);
    FromLe(s)
  }

  function FromBlob(h: Hash, s: seq<byte>): Option<Block>
  {
    if |s| < 133 || s[..9] != Magic() then None
    else
      var count := FromLe(s[49..53]);
      if count > MAX_CHALLENGES then None
      else match ReadList(Reader(s), 53, count)
        case None => None
        case Some((cs, pos)) =>
          if pos + 80 != |s| then None
          else
            var b := Block(Number(s[9..17]), s[17..49], cs, s[pos..pos + 32],
                           Number(s[pos + 32..pos + 40]), Number(s[pos + 40..pos + 48]), s[pos + 48..]);
            if b.hash != h(Preimage(b)) then None else Some(b)
  }

  lemma ChallengeReadsBack(s: seq<byte>, c: Challenge)
    ensures ReadsBack(Reader(s), Writer(), s, c)
  {
    hide Le, FromLe;
    forall p: nat | p + 41 <= |s| && s[p..p + 41] == ChallengeBytes(c)
      ensures ReadChallenge(s, p) == Some((c, p + 41))
    {
      var x := ChallengeBytes(c);
      assert x[0..32] == c.pact && x[32..33] == [OutcomeCode(c.outcome)] && x[33..41] == Le(c.cost, 8);
      SubSlice(s, p, x, 0, 32);
      SubSlice(s, p, x, 32, 33);
      SubSlice(s, p, x, 33, 41);
      assert s[p + 32] == s[p + 32..p + 33][0];
      Widths();
      FromLeLe(c.cost, 8);
    }
  }

  lemma ChallengesRead(s: seq<byte>, pos: nat, cs: seq<Challenge>)
    requires var w := ChallengesBytes(cs); pos + |w| <= |s| && s[pos..pos + |w|] == w
    ensures ReadList(Reader(s), pos, |cs|) == Some((cs, pos + |ChallengesBytes(cs)|))
  {
    hide ReadsBack, WriteList, ReadList, Reader, Writer;
    forall i | 0 <= i < |cs| ensures ReadsBack(Reader(s), Writer(), s, cs[i]) { ChallengeReadsBack(s, cs[i]); }
    ListReads(Reader(s), Writer(), s, pos, cs);
  }

  lemma BlobReads(h: Hash, b: Block)
    requires |b.challenges| <= MAX_CHALLENGES && b.hash == h(Preimage(b))
    ensures FromBlob(h, Blob(b)) == Some(b)
  {
    hide Le, FromLe, ChallengesBytes, ReadList, Preimage, Reader, Magic;
    var s, cs := Blob(b), ChallengesBytes(b.challenges);
    var end := 53 + |cs|;
    assert s[..9] == Magic() && s[9..17] == Le(b.epoch, 8) && s[17..49] == b.prev && s[49..53] == Le(|b.challenges|, 4);
    assert s[53..end] == cs && s[end..end + 32] == b.root && s[end + 48..] == b.hash;
    assert s[end + 32..end + 40] == Le(b.budget, 8) && s[end + 40..end + 48] == Le(b.time, 8);
    Widths();
    FromLeLe(b.epoch, 8);
    FromLeLe(|b.challenges|, 4);
    FromLeLe(b.budget, 8);
    FromLeLe(b.time, 8);
    ChallengesRead(s, 53, b.challenges);
  }

  lemma ChallengeWritten(s: seq<byte>)
    ensures WritesBack(Reader(s), Writer(), s)
  {
    hide Le, FromLe;
    forall p: nat | ReadChallenge(s, p).Some?
      ensures s[p..p + 41] == ChallengeBytes(ReadChallenge(s, p).value.0)
    {
      LeFromLe(s[p + 33..p + 41]);
      assert s[p..p + 41] == s[p..p + 32] + [s[p + 32]] + s[p + 33..p + 41];
    }
  }

  lemma BlobWritten(h: Hash, s: seq<byte>, b: Block)
    requires FromBlob(h, s) == Some(b)
    ensures |b.challenges| <= MAX_CHALLENGES && b.hash == h(Preimage(b)) && s == Blob(b)
  {
    hide Le, FromLe, WriteList, ReadList, Preimage, Reader, Writer, Magic, WritesBack;
    ChallengeWritten(s);
    ListWritten(Reader(s), Writer(), s, 53, FromLe(s[49..53]));
    var pos := ReadList(Reader(s), 53, FromLe(s[49..53])).value.1;
    LeFromLe(s[9..17]);
    LeFromLe(s[49..53]);
    LeFromLe(s[pos + 32..pos + 40]);
    LeFromLe(s[pos + 40..pos + 48]);
    assert s == s[..9] + (s[9..17] + s[17..49]) + s[49..53] + s[53..pos]
                + (s[pos..pos + 32] + s[pos + 32..pos + 40] + s[pos + 40..pos + 48]) + s[pos + 48..];
  }

  /** A blob is accepted exactly when it is the written form of a block whose hash is right, and as that block. */
  lemma BlobExactly(h: Hash, s: seq<byte>, b: Block)
    ensures FromBlob(h, s) == Some(b) <==> |b.challenges| <= 10_000 && b.hash == h(Preimage(b)) && s == Blob(b)
  {
    hide FromBlob, Preimage, Blob;
    if FromBlob(h, s) == Some(b) { BlobWritten(h, s, b); }
    if |b.challenges| <= MAX_CHALLENGES && b.hash == h(Preimage(b)) && s == Blob(b) { BlobReads(h, b); }
  }

  // ---- The methods ----

  method ToBlob(b: Block) returns (out: seq<byte>)
    ensures out == Blob(b)
  {
    hide Le, WriteList, Writer, Magic;
    var cs := Lists.Write(Writer(), b.challenges);
    out := Magic() + Le(b.epoch, 8) + b.prev + Le(|b.challenges|, 4) + cs;
    out := out + b.root + Le(b.budget, 8) + Le(b.time, 8) + b.hash;
  }

  method ParseBlob(h: Hash, s: seq<byte>) returns (r: Option<Block>)
    ensures r == FromBlob(h, s)
  {
    hide FromLe, ReadList, Reader, Preimage, Magic;
    if |s| < 133 || s[..9] != Magic() { return None; }
    var count := FromLe(s[49..53]);
    if count > MAX_CHALLENGES { return None; }
    var cs := Lists.Read(Reader(s), 53, count);
    if cs.None? { return None; }
    var pos := cs.value.1;
    if pos + 80 != |s| { return None; }
    var b := Block(Number(s[9..17]), s[17..49], cs.value.0, s[pos..pos + 32],
                   Number(s[pos + 32..pos + 40]), Number(s[pos + 40..pos + 48]), s[pos + 48..]);
    r := if b.hash != h(Preimage(b)) then None else Some(b);
  }
}
