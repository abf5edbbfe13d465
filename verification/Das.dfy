/**
 Data availability sampling: a Merkle root over the chunks of a file, with the last node of an
 odd level paired with itself, and the proof that a chunk belongs to a root.
 */
module Das {
  import opened Options
  import opened Bytes
  import opened Hashing
  import opened Sums

  function LeafTag(): seq<byte> { Ascii("BDLM_BUD_DAS_LEAF_V1") }
  function NodeTag(): seq<byte> { Ascii("BDLM_BUD_DAS_NODE_V1") }
  function EmptyTag(): seq<byte> { Ascii("BDLM_BUD_DAS_EMPTY_V1") }

  /** What is hashed for a chunk, and for an inner node. */
  function LeafInput(chunk: seq<byte>): seq<byte>
  {
    LeafTag() + Le(|chunk|, 8) + chunk
  }

  function NodeInput(l: Digest, r: Digest): seq<byte>
  {
    NodeTag() + l + r
  }

  lemma LeafInputInjective(a: seq<byte>, b: seq<byte>)
    requires LeafInput(a) == LeafInput(b)
    ensures a == b
  {
    var n := |LeafTag()| + 8;
    assert LeafInput(a)[n..] == a && LeafInput(b)[n..] == b;
  }

  lemma NodeInputInjective(l: Digest, r: Digest, l': Digest, r': Digest)
    requires NodeInput(l, r) == NodeInput(l', r')
    ensures l == l' && r == r'
  {
    var n := |NodeTag()|;
    assert NodeInput(l, r)[n..n + 32] == l && NodeInput(l', r')[n..n + 32] == l';
    assert NodeInput(l, r)[n + 32..] == r && NodeInput(l', r')[n + 32..] == r';
  }

  lemma TagsSeparate(chunk: seq<byte>, l: Digest, r: Digest)
    ensures LeafInput(chunk) != NodeInput(l, r)
  {
    assert "BDLM_BUD_DAS_LEAF_V1"[13] == 'L' && "BDLM_BUD_DAS_NODE_V1"[13] == 'N';
    assert LeafInput(chunk)[13] == LeafTag()[13] && NodeInput(l, r)[13] == NodeTag()[13];
  }

  // ---- The levels of the tree ----

  type Level = seq<Digest>

  function LeafLevel(h: Hash, chunks: seq<seq<byte>>): (r: Level)
    ensures |r| == |chunks|
  {
    seq<Digest>(|chunks|, i requires 0 <= i < |chunks| => h(LeafInput(chunks[i])))
  }

  /** The input of the i-th parent of a level; the last node of an odd level is its own sibling. */
  function ParentInput(level: Level, i: nat): seq<byte>
    requires 2 * i < |level|
  {
    NodeInput(level[2 * i], if 2 * i + 1 < |level| then level[2 * i + 1] else level[2 * i])
  }

  function NextLevel(h: Hash, level: Level): (r: Level)
    ensures |r| == (|level| + 1) / 2
  {
    seq<Digest>((|level| + 1) / 2, i requires 0 <= i < (|level| + 1) / 2 => h(ParentInput(level, i)))
  }

  function LevelAt(h: Hash, leaves: Level, j: nat): Level
  {
    if j == 0 then leaves else NextLevel(h, LevelAt(h, leaves, j - 1))
  }

  /** How many levels lie above n leaves. */
  function Depth(n: nat): nat
  {
    if n <= 1 then 0 else 1 + Depth((n + 1) / 2)
  }

  lemma {:induction false} LevelShift(h: Hash, leaves: Level, j: nat)
    ensures LevelAt(h, NextLevel(h, leaves), j) == LevelAt(h, leaves, j + 1)
  {
    if j > 0 { LevelShift(h, leaves, j - 1); }
  }

  lemma {:induction false} LevelSizes(h: Hash, leaves: Level, j: nat)
    requires leaves != [] && j <= Depth(|leaves|)
    ensures |LevelAt(h, leaves, j)| >= 1
    ensures |LevelAt(h, leaves, j)| == 1 <==> j == Depth(|leaves|)
    decreases |leaves|
  {
    if j > 0 {
      LevelSizes(h, NextLevel(h, leaves), j - 1);
      LevelShift(h, leaves, j - 1);
    }
  }

  function Root(h: Hash, chunks: seq<seq<byte>>): Digest
  {
    if chunks == [] then h(EmptyTag())
    else
      var leaves := LeafLevel(h, chunks);
      LevelSizes(h, leaves, Depth(|leaves|));
      LevelAt(h, leaves, Depth(|leaves|))[0]
  }

  // ---- The root, from the top down ----

  /**
   The node at height j over the chunks from i * 2^j on: the tagged hash of a chunk with its length,
   or the tagged hash of the two nodes below, left one first, where a missing right one is the left
   one again.
   */
  ghost function TreeNode(h: Hash, chunks: seq<seq<byte>>, j: nat, i: nat): Digest
    requires i * Pow2(j) < |chunks|
    decreases j
  {
    if j == 0 then h(Ascii("BDLM_BUD_DAS_LEAF_V1") + Le(|chunks[i]|, 8) + chunks[i])
    else
      ChildrenWithin(j, i);
      var l := TreeNode(h, chunks, j - 1, 2 * i);
      var r := if (2 * i + 1) * Pow2(j - 1) < |chunks| then TreeNode(h, chunks, j - 1, 2 * i + 1) else l;
      h(Ascii("BDLM_BUD_DAS_NODE_V1") + l + r)
  }

  lemma ChildrenWithin(j: nat, i: nat)
    requires j > 0
    ensures i * Pow2(j) == (2 * i) * Pow2(j - 1)
  {}

  lemma {:induction false} LevelReaches(h: Hash, chunks: seq<seq<byte>>, j: nat, i: nat)
    ensures i < |LevelAt(h, LeafLevel(h, chunks), j)| <==> i * Pow2(j) < |chunks|
    decreases j
  {
    hide Pow2, LeafLevel;
    if j == 0 {
      OneIsPow2();
    } else {
      ChildrenWithin(j, i);
      LevelReaches(h, chunks, j - 1, 2 * i);
    }
  }

  lemma NodeStep(h: Hash, chunks: seq<seq<byte>>, j: nat, i: nat, below: Level)
    requires j > 0 && i * Pow2(j) < |chunks| && 2 * i < |below|
    requires (2 * i) * Pow2(j - 1) < |chunks| && below[2 * i] == TreeNode(h, chunks, j - 1, 2 * i)
    requires 2 * i + 1 < |below| <==> (2 * i + 1) * Pow2(j - 1) < |chunks|
    requires 2 * i + 1 < |below| ==> below[2 * i + 1] == TreeNode(h, chunks, j - 1, 2 * i + 1)
    ensures NextLevel(h, below)[i] == TreeNode(h, chunks, j, i)
  {
    hide Pow2;
    var l := below[2 * i];
    var r := if 2 * i + 1 < |below| then below[2 * i + 1] else l;
    assert ParentInput(below, i) == Ascii("BDLM_BUD_DAS_NODE_V1") + l + r;
  }

  lemma {:induction false} LevelsExactly(h: Hash, chunks: seq<seq<byte>>, j: nat, i: nat)
    requires i * Pow2(j) < |chunks|
    ensures i < |LevelAt(h, LeafLevel(h, chunks), j)| && LevelAt(h, LeafLevel(h, chunks), j)[i] == TreeNode(h, chunks, j, i)
    decreases j
  {
    hide Le, Pow2, TreeNode, LeafLevel, NextLevel;
    LevelReaches(h, chunks, j, i);
    if j == 0 {
      OneIsPow2();
      LeafExactly(h, chunks, i);
    } else {
      ChildrenWithin(j, i);
      LevelReaches(h, chunks, j - 1, 2 * i + 1);
      LevelsExactly(h, chunks, j - 1, 2 * i);
      if (2 * i + 1) * Pow2(j - 1) < |chunks| { LevelsExactly(h, chunks, j - 1, 2 * i + 1); }
      NodeStep(h, chunks, j, i, LevelAt(h, LeafLevel(h, chunks), j - 1));
    }
  }

  lemma LeafExactly(h: Hash, chunks: seq<seq<byte>>, i: nat)
    requires i < |chunks| && i * Pow2(0) < |chunks|
    ensures LeafLevel(h, chunks)[i] == TreeNode(h, chunks, 0, i)
  {
    hide Le;
    assert LeafInput(chunks[i]) == Ascii("BDLM_BUD_DAS_LEAF_V1") + Le(|chunks[i]|, 8) + chunks[i];
  }

  lemma OneIsPow2()
    ensures Pow2(0) == 1
  {}

  lemma {:induction false} DepthExactly(n: nat)
    requires n > 0
    ensures n <= Pow2(Depth(n)) && (n > 1 ==> Pow2(Depth(n) - 1) < n)
  {
    if n > 1 { DepthExactly((n + 1) / 2); }
  }

  /** The root is the node at the least height that spans all the chunks; without chunks it is a tag of its own. */
  lemma RootExactly(h: Hash, chunks: seq<seq<byte>>) returns (j: nat)
    ensures chunks == [] ==> Root(h, chunks) == h(Ascii("BDLM_BUD_DAS_EMPTY_V1"))
    ensures chunks != [] ==> |chunks| <= Pow2(j) && (|chunks| > 1 ==> j > 0 && Pow2(j - 1) < |chunks|)
    ensures chunks != [] ==> Root(h, chunks) == TreeNode(h, chunks, j, 0)
  {
    j := 0;
    if chunks != [] {
      j := Depth(|chunks|);
      DepthExactly(|chunks|);
      LevelsExactly(h, chunks, j, 0);
    }
  }

  // ---- Proofs ----

  datatype Proof = Proof(index: nat, path: seq<Digest>)

  /** The index of the ancestor j levels up. */
  function Up(index: nat, j: nat): nat
  {
    if j == 0 then index else Up(index, j - 1) / 2
  }

  function Sibling(level: Level, i: nat): Digest
    requires i < |level|
  {
    var s := if i % 2 == 0 then i + 1 else i - 1;
    if s < |level| then level[s] else level[i]
  }

  lemma {:induction false} UpWithin(h: Hash, leaves: Level, index: nat, j: nat)
    requires index < |leaves|
    ensures Up(index, j) < |LevelAt(h, leaves, j)|
  {
    if j > 0 { UpWithin(h, leaves, index, j - 1); }
  }

  /** The siblings on the way from leaf `index` to the root. */
  ghost function HonestPath(h: Hash, leaves: Level, index: nat): (r: seq<Digest>)
    requires index < |leaves|
    ensures |r| == Depth(|leaves|)
  {
    seq(Depth(|leaves|), j requires 0 <= j < Depth(|leaves|) =>
      (UpWithin(h, leaves, index, j); Sibling(LevelAt(h, leaves, j), Up(index, j))))
  }

  /** What one step of the climb hashes. */
  function StepInput(cur: Digest, sibling: Digest, i: nat): seq<byte>
  {
    if i % 2 == 0 then NodeInput(cur, sibling) else NodeInput(sibling, cur)
  }

  function Climb(h: Hash, cur: Digest, index: nat, path: seq<Digest>): Digest
  {
    if path == [] then cur
    else
      var last := |path| - 1;
      h(StepInput(Climb(h, cur, index, path[..last]), path[last], Up(index, last)))
  }

  ghost predicate Accepts(h: Hash, proof: Proof, leaf: seq<byte>, root: Digest)
  {
    Climb(h, h(LeafInput(leaf)), proof.index, proof.path) == root
  }

  /** The number of nodes j levels above n leaves. */
  function LevelSize(n: nat, j: nat): nat
  {
    if j == 0 then n else (LevelSize(n, j - 1) + 1) / 2
  }

  lemma {:induction false} LevelHasSize(h: Hash, leaves: Level, j: nat)
    ensures |LevelAt(h, leaves, j)| == LevelSize(|leaves|, j)
  {
    if j > 0 { LevelHasSize(h, leaves, j - 1); }
  }

  /** Position i sends the climb from node a of a level to a's parent: the side is right, or either side will do. */
  predicate Agrees(size: nat, i: nat, a: nat)
  {
    i % 2 == a % 2 || (a % 2 == 0 && a + 1 == size)
  }

  /** A proof for position `index` climbs the way a proof for chunk q does. */
  ghost predicate Lands(n: nat, index: nat, q: nat)
  {
    forall j: nat :: j < Depth(n) ==> Agrees(LevelSize(n, j), Up(index, j), Up(q, j))
  }

  // ---- Completeness ----

  lemma StepToParent(h: Hash, level: Level, a: nat, i: nat)
    requires a < |level| && Agrees(|level|, i, a)
    ensures h(StepInput(level[a], Sibling(level, a), i)) == NextLevel(h, level)[a / 2]
  {
    hide NodeInput;
    var p := a / 2;
    assert a == 2 * p || a == 2 * p + 1;
    assert NextLevel(h, level)[p] == h(ParentInput(level, p));
    assert StepInput(level[a], Sibling(level, a), i) == ParentInput(level, p);
  }

  lemma ClimbStep(h: Hash, cur: Digest, index: nat, path: seq<Digest>, j: nat)
    requires j < |path|
    ensures Climb(h, cur, index, path[..j + 1]) ==
            h(StepInput(Climb(h, cur, index, path[..j]), path[j], Up(index, j)))
  {
    assert path[..j + 1][..j] == path[..j];
  }

  lemma HonestEntry(h: Hash, leaves: Level, q: nat, j: nat)
    requires q < |leaves| && j < Depth(|leaves|)
    ensures Up(q, j) < |LevelAt(h, leaves, j)|
    ensures HonestPath(h, leaves, q)[j] == Sibling(LevelAt(h, leaves, j), Up(q, j))
  {
    UpWithin(h, leaves, q, j);
  }

  lemma {:induction false} ClimbHonest(h: Hash, leaves: Level, index: nat, q: nat, j: nat)
    requires q < |leaves| && j <= Depth(|leaves|) && Lands(|leaves|, index, q)
    ensures Up(q, j) < |LevelAt(h, leaves, j)|
    ensures Climb(h, leaves[q], index, HonestPath(h, leaves, q)[..j]) == LevelAt(h, leaves, j)[Up(q, j)]
    decreases j, 0
  {
    UpWithin(h, leaves, q, j);
    if j > 0 {
      ClimbHonestStep(h, leaves, index, q, j - 1);
    }
  }

  lemma {:induction false} ClimbHonestStep(h: Hash, leaves: Level, index: nat, q: nat, j: nat)
    requires q < |leaves| && j < Depth(|leaves|) && Lands(|leaves|, index, q)
    ensures Up(q, j + 1) < |LevelAt(h, leaves, j + 1)|
    ensures Climb(h, leaves[q], index, HonestPath(h, leaves, q)[..j + 1]) == LevelAt(h, leaves, j + 1)[Up(q, j + 1)]
    decreases j, 1
  {
    assert LevelAt(h, leaves, j + 1) == NextLevel(h, LevelAt(h, leaves, j)) && Up(q, j + 1) == Up(q, j) / 2;
    assert Agrees(LevelSize(|leaves|, j), Up(index, j), Up(q, j));
    hide *;
    LevelHasSize(h, leaves, j);
    ClimbHonest(h, leaves, index, q, j);
    UpWithin(h, leaves, q, j + 1);
    HonestEntry(h, leaves, q, j);
    StepToParent(h, LevelAt(h, leaves, j), Up(q, j), Up(index, j));
    ClimbStep(h, leaves[q], index, HonestPath(h, leaves, q), j);
  }

  lemma {:induction false} UpToRoot(index: nat, n: nat, j: nat)
    requires index < n
    ensures Up(index, j + Depth(n)) == 0
    decreases n
  {
    if n <= 1 {
      UpZero(j);
    } else {
      UpShift(index, j + Depth(n) - 1);
      UpToRoot(index / 2, (n + 1) / 2, j);
    }
  }

  lemma {:induction false} UpZero(j: nat)
    ensures Up(0, j) == 0
  {
    if j > 0 { UpZero(j - 1); }
  }

  lemma {:induction false} UpShift(index: nat, j: nat)
    ensures Up(index, j + 1) == Up(index / 2, j)
  {
    if j > 0 { UpShift(index, j - 1); }
  }

  /** The top level holds the root alone. */
  lemma RootIsTop(h: Hash, chunks: seq<seq<byte>>)
    requires chunks != []
    ensures var leaves := LeafLevel(h, chunks);
            LevelAt(h, leaves, Depth(|leaves|)) == [Root(h, chunks)]
  {
    hide LevelAt, Depth;
    var leaves := LeafLevel(h, chunks);
    LevelSizes(h, leaves, Depth(|leaves|));
  }

  /** The siblings of chunk q are accepted at every position that climbs as q does; q itself is one. */
  lemma ProofsVerify(h: Hash, chunks: seq<seq<byte>>, index: nat, q: nat)
    requires q < |chunks| && Lands(|chunks|, index, q)
    ensures Accepts(h, Proof(index, HonestPath(h, LeafLevel(h, chunks), q)), chunks[q], Root(h, chunks))
  {
    var leaves := LeafLevel(h, chunks);
    assert leaves[q] == h(LeafInput(chunks[q]));
    hide LevelAt, HonestPath, Depth, Climb, Root, LeafLevel, LeafInput, Up, Lands;
    ClimbHonest(h, leaves, index, q, Depth(|leaves|));
    RootIsTop(h, chunks);
    var path := HonestPath(h, leaves, q);
    assert path[..Depth(|leaves|)] == path;
  }

  /** A position inside the file climbs like itself and like no other chunk. */
  lemma LandsAlone(n: nat, index: nat, q: nat)
    requires index < n && q < n
    ensures Lands(n, index, q) <==> index == q
  {
    if Lands(n, index, q) {
      LandsFromTop(n, index, q, 0);
    }
  }

  lemma {:induction false} LandsFromTop(n: nat, index: nat, q: nat, j: nat)
    requires index < n && q < n && j <= Depth(n) && Lands(n, index, q)
    ensures Up(index, j) == Up(q, j)
    decreases Depth(n) - j
  {
    if j == Depth(n) {
      UpToRoot(index, n, 0);
      UpToRoot(q, n, 0);
    } else {
      LandsFromTop(n, index, q, j + 1);
      UpInLevel(n, index, j);
      assert Agrees(LevelSize(n, j), Up(index, j), Up(q, j));
    }
  }

  lemma {:induction false} UpInLevel(n: nat, index: nat, j: nat)
    requires index < n
    ensures Up(index, j) < LevelSize(n, j)
  {
    if j > 0 { UpInLevel(n, index, j - 1); }
  }

  // ---- Soundness ----

  /** Everything that is hashed to build the tree. */
  ghost function TreeInputs(h: Hash, chunks: seq<seq<byte>>): set<seq<byte>>
  {
    (set i | 0 <= i < |chunks| :: LeafInput(chunks[i]))
    + (set j: nat, q: nat | j < Depth(|chunks|) && q < |chunks| && 2 * q < |LevelAt(h, LeafLevel(h, chunks), j)| ::
         ParentInput(LevelAt(h, LeafLevel(h, chunks), j), q))
  }

  /** Everything that is hashed to check a proof. */
  ghost function ProofInputs(h: Hash, leaf: seq<byte>, proof: Proof): set<seq<byte>>
  {
    {LeafInput(leaf)}
    + (set j: nat | j < |proof.path| :: ClimbInput(h, leaf, proof, j))
  }

  ghost function ClimbInput(h: Hash, leaf: seq<byte>, proof: Proof, j: nat): seq<byte>
    requires j < |proof.path|
  {
    StepInput(ClimbTo(h, leaf, proof, j), proof.path[j], Up(proof.index, j))
  }

  ghost function ClimbTo(h: Hash, leaf: seq<byte>, proof: Proof, j: nat): Digest
    requires j <= |proof.path|
  {
    Climb(h, h(LeafInput(leaf)), proof.index, proof.path[..j])
  }

  /** The situation soundness is about: an accepted proof, and no collision among what was hashed. */
  ghost predicate Attested(h: Hash, chunks: seq<seq<byte>>, leaf: seq<byte>, proof: Proof)
  {
    && chunks != [] && Accepts(h, proof, leaf, Root(h, chunks))
    && NoCollision(h, TreeInputs(h, chunks) + ProofInputs(h, leaf, proof))
  }

  lemma ClimbToStep(h: Hash, leaf: seq<byte>, proof: Proof, j: nat)
    requires j < |proof.path|
    ensures ClimbTo(h, leaf, proof, j + 1) == h(ClimbInput(h, leaf, proof, j))
    ensures ClimbInput(h, leaf, proof, j) in ProofInputs(h, leaf, proof)
  {
    ClimbStep(h, h(LeafInput(leaf)), proof.index, proof.path, j);
  }

  lemma {:induction false} LevelsShrink(h: Hash, leaves: Level, j: nat)
    ensures |LevelAt(h, leaves, j)| <= |leaves|
  {
    if j > 0 { LevelsShrink(h, leaves, j - 1); }
  }

  lemma NodeAt(h: Hash, chunks: seq<seq<byte>>, j: nat, q: nat)
    requires j < Depth(|chunks|) && q < |LevelAt(h, LeafLevel(h, chunks), j + 1)|
    ensures var level := LevelAt(h, LeafLevel(h, chunks), j);
            && 2 * q < |level|
            && LevelAt(h, LeafLevel(h, chunks), j + 1)[q] == h(ParentInput(level, q))
            && ParentInput(level, q) in TreeInputs(h, chunks)
  {
    LevelsShrink(h, LeafLevel(h, chunks), j);
  }

  lemma AtTheTop(h: Hash, chunks: seq<seq<byte>>, leaf: seq<byte>, proof: Proof)
    requires Attested(h, chunks, leaf, proof)
    ensures LevelAt(h, LeafLevel(h, chunks), Depth(|chunks|)) == [ClimbTo(h, leaf, proof, |proof.path|)]
  {
    hide LevelAt, Depth, Climb, NoCollision, TreeInputs, ProofInputs;
    assert proof.path[..|proof.path|] == proof.path;
    assert |LeafLevel(h, chunks)| == |chunks|;
    RootIsTop(h, chunks);
  }

  /** A climbed node and a tree node with equal digests were made of the same children. */
  lemma SameNode(h: Hash, chunks: seq<seq<byte>>, leaf: seq<byte>, proof: Proof, i: nat, j: nat, q: nat)
    requires Attested(h, chunks, leaf, proof) && i < |proof.path| && j < Depth(|chunks|)
    requires q < |LevelAt(h, LeafLevel(h, chunks), j + 1)|
    requires ClimbTo(h, leaf, proof, i + 1) == LevelAt(h, LeafLevel(h, chunks), j + 1)[q]
    ensures 2 * q < |LevelAt(h, LeafLevel(h, chunks), j)|
    ensures ClimbInput(h, leaf, proof, i) == ParentInput(LevelAt(h, LeafLevel(h, chunks), j), q)
  {
    hide *;
    ClimbToStep(h, leaf, proof, i);
    NodeAt(h, chunks, j, q);
    NoCollisionFor(h, chunks, leaf, proof, ClimbInput(h, leaf, proof, i), ParentInput(LevelAt(h, LeafLevel(h, chunks), j), q));
  }

  lemma NoCollisionFor(h: Hash, chunks: seq<seq<byte>>, leaf: seq<byte>, proof: Proof, x: seq<byte>, y: seq<byte>)
    requires Attested(h, chunks, leaf, proof)
    requires x in TreeInputs(h, chunks) + ProofInputs(h, leaf, proof)
    requires y in TreeInputs(h, chunks) + ProofInputs(h, leaf, proof)
    requires h(x) == h(y)
    ensures x == y
  {
    hide TreeInputs, ProofInputs, Accepts;
  }

  /** Going down from the root, the climb and the tree stay together. */
  lemma {:induction false} Descend(h: Hash, chunks: seq<seq<byte>>, leaf: seq<byte>, proof: Proof, t: nat) returns (q: nat)
    requires Attested(h, chunks, leaf, proof) && t <= |proof.path| && t <= Depth(|chunks|)
    ensures var level := LevelAt(h, LeafLevel(h, chunks), Depth(|chunks|) - t);
            q < |level| && ClimbTo(h, leaf, proof, |proof.path| - t) == level[q]
  {
    hide *;
    if t == 0 {
      AtTheTop(h, chunks, leaf, proof);
      q := 0;
    } else {
      var r := Descend(h, chunks, leaf, proof, t - 1);
      var i, j := |proof.path| - t, Depth(|chunks|) - t;
      SameNode(h, chunks, leaf, proof, i, j, r);
      q := ChildOf(h, leaf, proof, i, LevelAt(h, LeafLevel(h, chunks), j), r);
    }
  }

  lemma ChildOf(h: Hash, leaf: seq<byte>, proof: Proof, i: nat, level: Level, r: nat) returns (q: nat)
    requires i < |proof.path| && 2 * r < |level|
    requires ClimbInput(h, leaf, proof, i) == ParentInput(level, r)
    ensures q < |level| && q / 2 == r && ClimbTo(h, leaf, proof, i) == level[q]
    ensures Taken(proof, i, level, q)
  {
    hide NodeInput, ClimbTo, Up;
    var right := if 2 * r + 1 < |level| then 2 * r + 1 else 2 * r;
    var cur, sib := ClimbTo(h, leaf, proof, i), proof.path[i];
    if Up(proof.index, i) % 2 == 0 {
      NodeInputInjective(cur, sib, level[2 * r], level[right]);
      q := 2 * r;
    } else {
      NodeInputInjective(sib, cur, level[2 * r], level[right]);
      q := right;
    }
  }

  /** The i-th step of a proof is the honest one for node q of a level. */
  ghost predicate Taken(proof: Proof, i: nat, level: Level, q: nat)
  {
    && i < |proof.path| && q < |level|
    && proof.path[i] == Sibling(level, q) && Agrees(|level|, Up(proof.index, i), q)
  }

  lemma LeafAt(h: Hash, chunks: seq<seq<byte>>, q: nat)
    requires q < |chunks|
    ensures LevelAt(h, LeafLevel(h, chunks), 0)[q] == h(LeafInput(chunks[q]))
    ensures LeafInput(chunks[q]) in TreeInputs(h, chunks)
  {}

  lemma LeafOfProof(h: Hash, leaf: seq<byte>, proof: Proof)
    ensures ClimbTo(h, leaf, proof, 0) == h(LeafInput(leaf))
    ensures LeafInput(leaf) in ProofInputs(h, leaf, proof)
  {}

  lemma StepIsNode(h: Hash, leaf: seq<byte>, proof: Proof, j: nat, chunk: seq<byte>)
    requires j < |proof.path|
    ensures ClimbInput(h, leaf, proof, j) != LeafInput(chunk)
  {
    hide ClimbTo, LeafInput, NodeInput;
    TagsSeparate(chunk, ClimbTo(h, leaf, proof, j), proof.path[j]);
    TagsSeparate(chunk, proof.path[j], ClimbTo(h, leaf, proof, j));
  }

  lemma ParentIsNode(level: Level, q: nat, chunk: seq<byte>)
    requires 2 * q < |level|
    ensures ParentInput(level, q) != LeafInput(chunk)
  {
    hide LeafInput, NodeInput;
    TagsSeparate(chunk, level[2 * q], if 2 * q + 1 < |level| then level[2 * q + 1] else level[2 * q]);
  }

  /** An accepted path is as long as the tree is deep. */
  lemma PathLength(h: Hash, chunks: seq<seq<byte>>, leaf: seq<byte>, proof: Proof)
    requires Attested(h, chunks, leaf, proof)
    ensures |proof.path| == Depth(|chunks|)
  {
    hide *;
    var d, p := Depth(|chunks|), |proof.path|;
    var leaves := LeafLevel(h, chunks);
    if p < d {
      var q := Descend(h, chunks, leaf, proof, p);
      LeafOfProof(h, leaf, proof);
      NodeAt(h, chunks, d - p - 1, q);
      var level := LevelAt(h, leaves, d - p - 1);
      NoCollisionFor(h, chunks, leaf, proof, LeafInput(leaf), ParentInput(level, q));
      ParentIsNode(level, q, leaf);
    } else if d < p {
      var q := Descend(h, chunks, leaf, proof, d);
      BottomSize(h, chunks);
      LeafAt(h, chunks, q);
      ClimbToStep(h, leaf, proof, p - d - 1);
      NoCollisionFor(h, chunks, leaf, proof, ClimbInput(h, leaf, proof, p - d - 1), LeafInput(chunks[q]));
      StepIsNode(h, leaf, proof, p - d - 1, chunks[q]);
    }
  }

  lemma BottomSize(h: Hash, chunks: seq<seq<byte>>)
    ensures |LevelAt(h, LeafLevel(h, chunks), 0)| == |chunks|
  {}

  /** From level j up, the proof takes the steps from node q. */
  ghost predicate Follows(h: Hash, chunks: seq<seq<byte>>, proof: Proof, j: nat, q: nat)
    decreases |proof.path| - j
  {
    j < |proof.path| ==>
      && Taken(proof, j, LevelAt(h, LeafLevel(h, chunks), j), q)
      && Follows(h, chunks, proof, j + 1, q / 2)
  }

  lemma {:induction false} FollowsUp(h: Hash, chunks: seq<seq<byte>>, proof: Proof, j: nat, q: nat)
    requires Follows(h, chunks, proof, 0, q) && j <= |proof.path|
    ensures Follows(h, chunks, proof, j, Up(q, j))
  {
    hide Taken, LevelAt, LeafLevel;
    if j > 0 { FollowsUp(h, chunks, proof, j - 1, q); }
  }

  lemma FollowsBelow(h: Hash, chunks: seq<seq<byte>>, proof: Proof, j: nat, q: nat)
    requires Follows(h, chunks, proof, j + 1, q / 2) && Taken(proof, j, LevelAt(h, LeafLevel(h, chunks), j), q)
    ensures Follows(h, chunks, proof, j, q)
  {
    hide Taken, LevelAt, LeafLevel;
  }

  /** Going down from the root, the proof takes the steps of one chunk. */
  lemma {:induction false} Retrace(h: Hash, chunks: seq<seq<byte>>, leaf: seq<byte>, proof: Proof, j: nat) returns (q: nat)
    requires Attested(h, chunks, leaf, proof) && j <= |proof.path| == Depth(|chunks|)
    ensures q < |LevelAt(h, LeafLevel(h, chunks), j)|
    ensures ClimbTo(h, leaf, proof, j) == LevelAt(h, LeafLevel(h, chunks), j)[q]
    ensures Follows(h, chunks, proof, j, q)
    decreases |proof.path| - j
  {
    if j == |proof.path| {
      hide LevelAt, LeafLevel, ClimbTo, Attested, Depth;
      AtTheTop(h, chunks, leaf, proof);
      q := 0;
    } else {
      hide *;
      var r := Retrace(h, chunks, leaf, proof, j + 1);
      SameNode(h, chunks, leaf, proof, j, j, r);
      q := ChildOf(h, leaf, proof, j, LevelAt(h, LeafLevel(h, chunks), j), r);
      FollowsBelow(h, chunks, proof, j, q);
    }
  }

  lemma FollowsIsHonest(h: Hash, chunks: seq<seq<byte>>, proof: Proof, q: nat)
    requires q < |chunks| && |proof.path| == Depth(|chunks|) && Follows(h, chunks, proof, 0, q)
    ensures proof.path == HonestPath(h, LeafLevel(h, chunks), q) && Lands(|chunks|, proof.index, q)
  {
    hide LevelAt, LeafLevel, Up, Sibling, Depth, HonestPath, LevelSize, Agrees;
    var leaves := LeafLevel(h, chunks);
    forall j: nat | j < |proof.path|
      ensures proof.path[j] == HonestPath(h, leaves, q)[j]
      ensures Agrees(LevelSize(|chunks|, j), Up(proof.index, j), Up(q, j))
    {
      FollowsUp(h, chunks, proof, j, q);
      assert Taken(proof, j, LevelAt(h, leaves, j), Up(q, j));
      HonestEntry(h, leaves, q, j);
      LevelHasSize(h, leaves, j);
    }
  }

  /**
   What an accepted proof proves, as long as nothing that was hashed collides: the leaf is a
   chunk of the file, the path is that chunk's, and the position climbs as the chunk's does.
   */
  lemma ProofsAreSound(h: Hash, chunks: seq<seq<byte>>, leaf: seq<byte>, proof: Proof) returns (q: nat)
    requires Attested(h, chunks, leaf, proof)
    ensures q < |chunks| && leaf == chunks[q]
    ensures proof.path == HonestPath(h, LeafLevel(h, chunks), q) && Lands(|chunks|, proof.index, q)
  {
    hide LevelAt, LeafLevel, Attested, ClimbTo, Depth, HonestPath, LeafInput, Follows, Lands;
    PathLength(h, chunks, leaf, proof);
    q := Retrace(h, chunks, leaf, proof, 0);
    BottomSize(h, chunks);
    LeafAt(h, chunks, q);
    LeafOfProof(h, leaf, proof);
    NoCollisionFor(h, chunks, leaf, proof, LeafInput(leaf), LeafInput(chunks[q]));
    LeafInputInjective(leaf, chunks[q]);
    FollowsIsHonest(h, chunks, proof, q);
  }

  /** Which proofs a root accepts, exactly. */
  lemma AcceptedExactly(h: Hash, chunks: seq<seq<byte>>, leaf: seq<byte>, proof: Proof)
    requires chunks != [] && NoCollision(h, TreeInputs(h, chunks) + ProofInputs(h, leaf, proof))
    ensures Accepts(h, proof, leaf, Root(h, chunks)) <==>
            exists q: nat :: && q < |chunks| && leaf == chunks[q] && Lands(|chunks|, proof.index, q)
                             && proof.path == HonestPath(h, LeafLevel(h, chunks), q)
  {
    hide TreeInputs, ProofInputs, NoCollision, Accepts, Root, Lands, HonestPath, LeafLevel;
    if Accepts(h, proof, leaf, Root(h, chunks)) {
      var q := ProofsAreSound(h, chunks, leaf, proof);
    }
    if q: nat :| && q < |chunks| && leaf == chunks[q] && Lands(|chunks|, proof.index, q)
                 && proof.path == HonestPath(h, LeafLevel(h, chunks), q) {
      ProofsVerify(h, chunks, proof.index, q);
      assert proof == Proof(proof.index, HonestPath(h, LeafLevel(h, chunks), q));
    }
  }

  /** Inside the file a position is bound: only its own chunk, with its own path, is accepted there. */
  lemma PositionsAreBound(h: Hash, chunks: seq<seq<byte>>, leaf: seq<byte>, proof: Proof)
    requires proof.index < |chunks| && NoCollision(h, TreeInputs(h, chunks) + ProofInputs(h, leaf, proof))
    ensures Accepts(h, proof, leaf, Root(h, chunks)) <==>
            leaf == chunks[proof.index] && proof.path == HonestPath(h, LeafLevel(h, chunks), proof.index)
  {
    hide *;
    AcceptedExactly(h, chunks, leaf, proof);
    forall q: nat | q < |chunks| ensures Lands(|chunks|, proof.index, q) <==> proof.index == q {
      LandsAlone(|chunks|, proof.index, q);
    }
  }

  /** Past the end nothing is: the last of three chunks is also accepted as the fourth. */
  lemma PositionPastTheEnd(h: Hash, a: seq<byte>, b: seq<byte>, c: seq<byte>)
    ensures Accepts(h, Proof(3, HonestPath(h, LeafLevel(h, [a, b, c]), 2)), c, Root(h, [a, b, c]))
  {
    var chunks := [a, b, c];
    assert Depth(3) == 2 && LevelSize(3, 0) == 3 && LevelSize(3, 1) == 2;
    assert Up(3, 0) == 3 && Up(3, 1) == 1 && Up(2, 0) == 2 && Up(2, 1) == 1;
    assert Lands(3, 3, 2);
    hide *;
    ProofsVerify(h, chunks, 3, 2);
  }

  // ---- The loops ----

  method HashLeaves(h: Hash, chunks: seq<seq<byte>>) returns (level: Level)
    ensures level == LeafLevel(h, chunks)
  {
    level := [];
    for i := 0 to |chunks|
      invariant level == LeafLevel(h, chunks)[..i]
    {
      level := level + [h(LeafInput(chunks[i]))];
    }
  }

  /** The level above, two nodes at a time. */
  method PairUp(h: Hash, level: Level) returns (next: Level)
    ensures next == NextLevel(h, level)
  {
    next := [];
    var i := 0;
    while i < |level|
      invariant i == 2 * |next| && |next| <= (|level| + 1) / 2
      invariant next == NextLevel(h, level)[..|next|]
    {
      var right := if i + 1 < |level| then level[i + 1] else level[i];
      assert NextLevel(h, level)[|next|] == h(ParentInput(level, |next|)) == h(NodeInput(level[i], right));
      next := next + [h(NodeInput(level[i], right))];
      i := i + 2;
    }
  }

  method DasRoot(h: Hash, chunks: seq<seq<byte>>) returns (root: Digest)
    ensures root == Root(h, chunks)
  {
    if chunks == [] {
      return h(EmptyTag());
    }
    var level := HashLeaves(h, chunks);
    ghost var leaves, j := level, 0;
    while |level| > 1
      invariant j <= Depth(|leaves|) && level == LevelAt(h, leaves, j)
      decreases |level|
    {
      LevelSizes(h, leaves, j);
      level := PairUp(h, level);
      j := j + 1;
    }
    LevelSizes(h, leaves, j);
    root := level[0];
  }

  method Prove(h: Hash, chunks: seq<seq<byte>>, index: nat) returns (r: Option<Proof>)
    ensures index >= |chunks| ==> r == None
    ensures index < |chunks| ==> r == Some(Proof(index, HonestPath(h, LeafLevel(h, chunks), index)))
  {
    if chunks == [] || index >= |chunks| {
      return None;
    }
    var level := HashLeaves(h, chunks);
    hide LeafLevel, HonestPath;
    var path := CollectSiblings(h, level, index);
    r := Some(Proof(index, path));
  }

  method CollectSiblings(h: Hash, leaves: Level, index: nat) returns (path: seq<Digest>)
    requires index < |leaves|
    ensures path == HonestPath(h, leaves, index)
  {
    hide *;
    StartOfPath(h, leaves, index);
    var level := leaves;
    var i := index;
    path := [];
    while |level| > 1
      invariant |path| <= Depth(|leaves|) && level == LevelAt(h, leaves, |path|)
      invariant i == Up(index, |path|)
      invariant path == HonestPath(h, leaves, index)[..|path|]
      decreases |level|
    {
      LevelSizes(h, leaves, |path|);
      HonestEntry(h, leaves, index, |path|);
      OneUp(h, leaves, index, |path|);
      var s := if i % 2 == 0 then i + 1 else i - 1;
      var sibling := if s < |level| then level[s] else level[i];
      SiblingIs(level, i, s, sibling);
      path := path + [sibling];
      level := PairUp(h, level);
      i := i / 2;
    }
    LevelSizes(h, leaves, |path|);
  }

  lemma StartOfPath(h: Hash, leaves: Level, index: nat)
    ensures LevelAt(h, leaves, 0) == leaves && Up(index, 0) == index
  {}

  lemma OneUp(h: Hash, leaves: Level, index: nat, j: nat)
    ensures LevelAt(h, leaves, j + 1) == NextLevel(h, LevelAt(h, leaves, j)) && Up(index, j + 1) == Up(index, j) / 2
  {}

  lemma SiblingIs(level: Level, i: nat, s: nat, sibling: Digest)
    requires i < |level| && s == (if i % 2 == 0 then i + 1 else i - 1)
    requires sibling == if s < |level| then level[s] else level[i]
    ensures sibling == Sibling(level, i)
  {}

  method Verify(h: Hash, proof: Proof, leaf: seq<byte>, root: Digest) returns (ok: bool)
    ensures ok <==> Accepts(h, proof, leaf, root)
  {
    var cur, i := h(LeafInput(leaf)), proof.index;
    for k := 0 to |proof.path|
      invariant i == Up(proof.index, k)
      invariant cur == ClimbTo(h, leaf, proof, k)
    {
      ClimbStep(h, h(LeafInput(leaf)), proof.index, proof.path, k);
      var sibling := proof.path[k];
      cur := h(if i % 2 == 0 then NodeInput(cur, sibling) else NodeInput(sibling, cur));
      i := i / 2;
    }
    assert proof.path[..|proof.path|] == proof.path;
    ok := cur == root;
  }
}
