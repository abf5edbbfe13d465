/** The chain of checkpoints: each carries the hash of its fields and of the one before it. */
module Checkpoints {
  import opened Bytes
  import opened Hashing
  import Container

  type Name = s: seq<byte> | |s| < 0x1_0000_0000_0000_0000

  /** A ratio is carried as the 64 bits of its floating-point form. */
  datatype Checkpoint = Checkpoint(epoch: u64, codec: Container.Codec, expert: Name, pipe: Name, ratio: u64,
                                   root: Digest, prev: Digest, hash: Digest)

  function Tag(): seq<byte> { Ascii("BDLM_BUD_CHECKPOINT_V1") }

  function Genesis(): Digest { seq<byte>(32, (i: nat) => 0) }

  function Head(c: Checkpoint): (r: seq<byte>)
    ensures |r| == |Tag()| + 10
  {
    Tag() + Le(c.epoch, 8) + Le(Container.Code(c.codec), 2)
  }

  function Names(c: Checkpoint): seq<byte>
  {
    Le(|c.expert|, 8) + c.expert + Le(|c.pipe|, 8) + c.pipe
  }

  function Links(c: Checkpoint): (r: seq<byte>)
    ensures |r| == 72
  {
    Le(c.ratio, 8) + c.root + c.prev
  }

  /** What is hashed: every field but the hash. */
  function Preimage(c: Checkpoint): seq<byte>
  {
    Head(c) + Names(c) + Links(c)
  }

  lemma HeadBinds(a: Checkpoint, b: Checkpoint)
    requires Head(a) == Head(b)
    ensures a.epoch == b.epoch && a.codec == b.codec
  {
    hide Le, FromLe, Container.Code;
    var n := |Tag()|;
    assert Head(a)[n..n + 8] == Le(a.epoch, 8) && Head(b)[n..n + 8] == Le(b.epoch, 8);
    assert Head(a)[n + 8..] == Le(Container.Code(a.codec), 2) && Head(b)[n + 8..] == Le(Container.Code(b.codec), 2);
    Widths();
    FromLeLe(a.epoch, 8);
    FromLeLe(b.epoch, 8);
    Container.CodesNameCodecs(a.codec, 0);
    Container.CodesNameCodecs(b.codec, 0);
    FromLeLe(Container.Code(a.codec), 2);
    FromLeLe(Container.Code(b.codec), 2);
  }

  lemma NamesBind(a: Checkpoint, b: Checkpoint, s: seq<byte>, t: seq<byte>)
    requires Names(a) + s == Names(b) + t
    ensures a.expert == b.expert && a.pipe == b.pipe && s == t
  {
    hide Le, FromLe;
    Widths();
    FromLeLe(|a.expert|, 8);
    FromLeLe(|b.expert|, 8);
    var x, y := Names(a) + s, Names(b) + t;
    assert x[..8] == Le(|a.expert|, 8) && y[..8] == Le(|b.expert|, 8);
    var n := |a.expert|;
    assert x[8..8 + n] == a.expert && y[8..8 + n] == b.expert;
    FromLeLe(|a.pipe|, 8);
    FromLeLe(|b.pipe|, 8);
    assert x[8 + n..16 + n] == Le(|a.pipe|, 8) && y[8 + n..16 + n] == Le(|b.pipe|, 8);
    var m := |a.pipe|;
    assert x[16 + n..16 + n + m] == a.pipe && y[16 + n..16 + n + m] == b.pipe;
    assert x[16 + n + m..] == s && y[16 + n + m..] == t;
  }

  lemma LinksBind(a: Checkpoint, b: Checkpoint)
    requires Links(a) == Links(b)
    ensures a.ratio == b.ratio && a.root == b.root && a.prev == b.prev
  {
    hide Le, FromLe;
    assert Links(a)[..8] == Le(a.ratio, 8) && Links(b)[..8] == Le(b.ratio, 8);
    assert Links(a)[8..40] == a.root && Links(b)[8..40] == b.root && Links(a)[40..] == a.prev && Links(b)[40..] == b.prev;
    Widths();
    FromLeLe(a.ratio, 8);
    FromLeLe(b.ratio, 8);
  }

  /** The preimage determines every field. */
  lemma PreimageBinds(a: Checkpoint, b: Checkpoint)
    requires Preimage(a) == Preimage(b) && a.hash == b.hash
    ensures a == b
  {
    hide Head, Names, Links;
    var n := |Head(a)|;
    assert Preimage(a)[..n] == Head(a) && Preimage(b)[..n] == Head(b);
    assert Preimage(a)[n..] == Names(a) + Links(a) && Preimage(b)[n..] == Names(b) + Links(b);
    HeadBinds(a, b);
    NamesBind(a, b, Links(a), Links(b));
    LinksBind(a, b);
  }

  /** One link: its own hash is right, and it names the hash before it. */
  predicate Linked(h: Hash, chain: seq<Checkpoint>, i: nat)
    requires i < |chain|
  {
    chain[i].hash == h(Preimage(chain[i])) && chain[i].prev == if i == 0 then Genesis() else chain[i - 1].hash
  }

  /** An unbroken chain from the genesis. */
  ghost predicate Unbroken(h: Hash, chain: seq<Checkpoint>)
  {
    forall i: nat :: i < |chain| ==> Linked(h, chain, i)
  }

  lemma UnbrokenPrefix(h: Hash, chain: seq<Checkpoint>, n: nat)
    requires n < |chain|
    ensures Unbroken(h, chain[..n + 1]) <==> Unbroken(h, chain[..n]) && Linked(h, chain, n)
  {
    hide Preimage, Genesis;
    var p, q := chain[..n + 1], chain[..n];
    assert Linked(h, p, n) <==> Linked(h, chain, n);
    forall i: nat | i < n ensures Linked(h, p, i) <==> Linked(h, q, i) {
      assert p[i] == q[i];
    }
    if Unbroken(h, q) && Linked(h, chain, n) {
      forall i: nat | i < |p| ensures Linked(h, p, i) {
        assert i == n || Linked(h, q, i);
      }
    }
    if Unbroken(h, p) {
      forall i: nat | i < n ensures Linked(h, q, i) {
        assert Linked(h, p, i);
      }
    }
  }

  method VerifyChain(h: Hash, chain: seq<Checkpoint>) returns (ok: bool)
    ensures ok <==> Unbroken(h, chain)
    ensures ok && chain != [] ==> forall j :: 0 <= j < 32 ==> chain[0].prev[j] == 0
  {
    hide Preimage, Unbroken;
    NoChainUnbroken(h);
    ok := true;
    for i := 0 to |chain|
      invariant ok <==> Unbroken(h, chain[..i])
    {
      UnbrokenPrefix(h, chain, i);
      var cp := chain[i];
      if cp.hash != h(Preimage(cp)) {
        ok := false;
      } else if i == 0 {
        if cp.prev != Genesis() { ok := false; }
      } else if cp.prev != chain[i - 1].hash {
        ok := false;
      }
    }
    assert chain[..|chain|] == chain;
    if ok && chain != [] { StartsAtZero(h, chain); }
  }

  lemma StartsAtZero(h: Hash, chain: seq<Checkpoint>)
    requires Unbroken(h, chain) && chain != []
    ensures forall j :: 0 <= j < 32 ==> chain[0].prev[j] == 0
  {
    hide Preimage;
    assert Linked(h, chain, 0);
  }

  lemma NoChainUnbroken(h: Hash)
    ensures Unbroken(h, [])
  {}

  ghost function Preimages(chain: seq<Checkpoint>): set<seq<byte>>
  {
    set i | 0 <= i < |chain| :: Preimage(chain[i])
  }

  /** Nothing in the chains collides, and nothing hashes to the genesis mark. */
  ghost predicate Separated(h: Hash, inputs: set<seq<byte>>)
  {
    NoCollision(h, inputs) && forall x :: x in inputs ==> h(x) != Genesis()
  }

  lemma NotGenesis(h: Hash, c: seq<Checkpoint>, i: nat, inputs: set<seq<byte>>)
    requires Unbroken(h, c) && i < |c| && Preimages(c) <= inputs && Separated(h, inputs)
    ensures c[i].hash != Genesis() && Linked(h, c, i)
  {
    hide Preimage, Genesis;
    assert Linked(h, c, i);
    assert Preimage(c[i]) in Preimages(c);
  }

  lemma LastAgree(h: Hash, a: seq<Checkpoint>, b: seq<Checkpoint>, inputs: set<seq<byte>>)
    requires Unbroken(h, a) && Unbroken(h, b) && a != [] && b != [] && a[|a| - 1].hash == b[|b| - 1].hash
    requires Preimages(a) <= inputs && Preimages(b) <= inputs && Separated(h, inputs)
    ensures a[|a| - 1] == b[|b| - 1]
    ensures |a| == 1 ==> |b| == 1
  {
    hide Preimage, Genesis;
    var x, y := a[|a| - 1], b[|b| - 1];
    assert Linked(h, a, |a| - 1) && Linked(h, b, |b| - 1);
    assert Preimage(x) in Preimages(a) && Preimage(y) in Preimages(b);
    PreimageBinds(x, y);
    if |b| > 1 { NotGenesis(h, b, |b| - 2, inputs); }
  }

  /** Two verified chains that end in the same hash are the same chain: length, order and every field. */
  lemma {:induction false} LastHashBindsHistory(h: Hash, a: seq<Checkpoint>, b: seq<Checkpoint>, inputs: set<seq<byte>>)
    requires Unbroken(h, a) && Unbroken(h, b) && a != [] && b != [] && a[|a| - 1].hash == b[|b| - 1].hash
    requires Preimages(a) <= inputs && Preimages(b) <= inputs && Separated(h, inputs)
    ensures a == b
  {
    hide Preimage, Genesis, Unbroken, Separated, Preimages;
    LastAgree(h, a, b, inputs);
    LastAgree(h, b, a, inputs);
    var m, n := |a| - 1, |b| - 1;
    assert a == a[..m] + [a[m]] && b == b[..n] + [b[n]];
    if m > 0 {
      PreviousLinks(h, a, inputs);
      PreviousLinks(h, b, inputs);
      LastHashBindsHistory(h, a[..m], b[..n], inputs);
    }
  }

  lemma PreviousLinks(h: Hash, c: seq<Checkpoint>, inputs: set<seq<byte>>)
    requires |c| > 1 && Unbroken(h, c) && Preimages(c) <= inputs
    ensures var n := |c| - 1; Unbroken(h, c[..n]) && c[n].prev == c[n - 1].hash && Preimages(c[..n]) <= inputs
  {
    hide Preimage, Genesis;
    var n := |c| - 1;
    assert c[..n + 1] == c;
    UnbrokenPrefix(h, c, n);
    assert Preimages(c[..n]) <= Preimages(c);
  }
}
