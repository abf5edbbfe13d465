/**
 A message that does not come back: 35 different bytes, 11,405,773 in all, with frequencies that
 give one of them a code longer than 32 bits; the decompressor refuses the envelope. One byte
 less, and every message comes back.
 */
module HuffmanLimit {
  import opened Options
  import opened Bytes
  import opened Sums
  import opened HuffmanTree
  import opened HuffmanLengths
  import opened HuffmanCodec

  /** Each weight exceeds what the earlier ones, merged with w, have come to. */
  ghost predicate Chain(ws: seq<nat>, w: nat)
  {
    ws != [] ==> (forall j :: 1 <= j < |ws| ==> ws[0] < ws[j] && w < ws[j]) && Chain(ws[1..], w + ws[0])
  }

  /** On such weights the algorithm builds a chain, one level per tree. */
  lemma {:induction false} ChainHeight(ls: seq<Tree>, m: Tree)
    requires Chain(Weights(ls), Weight(m))
    ensures Height(Huffman(ls + [m])) >= |ls| + Height(m)
  {
    hide *;
    if ls == [] {
      AloneHeight(m);
    } else {
      var n := ChainStep(ls, m);
      ChainTail(ls, Weight(m));
      ChainHeight(ls[1..], n);
    }
  }

  lemma AloneHeight(m: Tree)
    ensures Height(Huffman([] + [m])) == Height(m)
  {
    assert [] + [m] == [m];
  }

  lemma ChainTail(ls: seq<Tree>, w: nat)
    requires ls != [] && Chain(Weights(ls), w)
    ensures Chain(Weights(ls[1..]), w + Weight(ls[0]))
  {
    assert Weights(ls)[1..] == Weights(ls[1..]);
  }

  lemma ChainStep(ls: seq<Tree>, m: Tree) returns (n: Tree)
    requires ls != [] && Chain(Weights(ls), Weight(m))
    ensures Huffman(ls + [m]) == Huffman(ls[1..] + [n])
    ensures Weight(n) == Weight(m) + Weight(ls[0]) && Height(n) >= 1 + Height(m)
  {
    var ts := ls + [m];
    var i := Lightest(ts, |ts|, -1);
    var j := Lightest(ts, |ts|, i);
    LightestOfChain(ls, m, i, j);
    n := Node(ts[i], ts[j]);
    MergeEnds(ls, m, i, j);
  }

  lemma MergeEnds(ls: seq<Tree>, m: Tree, i: nat, j: nat)
    requires ls != [] && ((i == 0 && j == |ls|) || (i == |ls| && j == 0))
    ensures var ts := ls + [m]; Merge(ts, i, j) == ls[1..] + [Node(ts[i], ts[j])]
  {
    var ts := ls + [m];
    assert RemoveAt(RemoveAt(ts, |ls|), 0) == ls[1..];
  }

  lemma LightestOfChain(ls: seq<Tree>, m: Tree, i: int, j: int)
    requires ls != [] && Chain(Weights(ls), Weight(m))
    requires i == Lightest(ls + [m], |ls| + 1, -1) && j == Lightest(ls + [m], |ls| + 1, i)
    ensures (i == 0 && j == |ls|) || (i == |ls| && j == 0)
  {
    var ts, last := ls + [m], |ls|;
    assert forall k :: 1 <= k < last ==> Weight(ts[k]) == Weights(ls)[k];
    assert Weight(ts[0]) == Weights(ls)[0] && ts[last] == m;
    assert Before(ts, i, 0) && Before(ts, i, last);
    assert i == 0 ==> Before(ts, j, last);
    assert i == last ==> Before(ts, j, 0);
  }

  // ---- The lightest frequencies of a height ----

  /** Five ones, and then twice the Fibonacci numbers: 4, 6, 10, 16 and so on. */
  function SharpWeight(i: nat): nat
  {
    if i < 5 then 1 else 2 * Fib(i - 2)
  }

  function SharpFrom(k: nat, n: nat): (r: seq<nat>)
    requires k <= n
    ensures |r| == n - k
  {
    seq<nat>(n - k, (i: nat) => SharpWeight(k + i))
  }

  lemma SharpGrows(k: nat)
    requires k >= 5
    ensures SharpWeight(k) < SharpWeight(k + 1) && SharpWeight(k) >= 4
    ensures SharpWeight(k + 2) == SharpWeight(k + 1) + SharpWeight(k)
  {
    FibMonotone(1, k - 3);
    FibMonotone(3, k - 2);
    assert Fib(3) == 2 && Fib(k - 1) == Fib(k - 2) + Fib(k - 3) && Fib(k) == Fib(k - 1) + Fib(k - 2);
  }

  lemma {:induction false} SharpMonotone(k: nat, j: nat)
    requires 5 <= k < j
    ensures SharpWeight(k + 1) <= SharpWeight(j)
    decreases j
  {
    hide SharpWeight;
    if k + 1 < j {
      SharpMonotone(k, j - 1);
      SharpGrows(j - 1);
    }
  }

  lemma {:induction false} SharpChain(k: nat, n: nat, w: nat)
    requires 5 <= k <= n && w + 1 == SharpWeight(k + 1)
    ensures Chain(SharpFrom(k, n), w)
    decreases n - k
  {
    hide SharpWeight;
    if k < n {
      var ws := SharpFrom(k, n);
      SharpGrows(k);
      forall j | 1 <= j < |ws| ensures ws[0] < ws[j] && w < ws[j] {
        SharpMonotone(k, k + j);
      }
      assert ws[1..] == SharpFrom(k + 1, n);
      SharpChain(k + 1, n, w + ws[0]);
    }
  }

  function SharpLeaves(n: nat): (r: seq<Tree>)
    ensures |r| == n
  {
    seq(n, (i: nat) => Leaf(i, SharpWeight(i)))
  }

  /** What comes before all the others is what is picked. */
  lemma Picked(ts: seq<Tree>, i: nat, j: nat)
    requires i < |ts| && j < |ts| && i != j
    requires forall k :: 0 <= k < |ts| ==> Before(ts, i, k)
    requires forall k :: 0 <= k < |ts| && k != i ==> Before(ts, j, k)
    ensures Huffman(ts) == Huffman(Merge(ts, i, j))
  {
    hide Merge, Weight;
    var a := Lightest(ts, |ts|, -1);
    assert Before(ts, a, i) && Before(ts, i, a);
    assert a == i;
    var b := Lightest(ts, |ts|, i);
    assert Before(ts, b, j) && Before(ts, j, b);
  }

  /** Two ones at the front, and nothing lighter behind. */
  lemma TwoOnes(a: Tree, b: Tree, rest: seq<Tree>)
    requires Weight(a) == 1 && Weight(b) == 1 && forall k :: 0 <= k < |rest| ==> Weight(rest[k]) >= 1
    ensures Huffman([a, b] + rest) == Huffman(rest + [Node(a, b)])
  {
    hide Huffman, Weight;
    var ts := [a, b] + rest;
    assert forall k :: 2 <= k < |ts| ==> ts[k] == rest[k - 2];
    Picked(ts, 0, 1);
    assert RemoveAt(RemoveAt(ts, 1), 0) == rest;
  }

  /** A one in front, a two behind, and nothing lighter than the two. */
  lemma OneAndTwo(e: Tree, rest: seq<Tree>, two: Tree, other: Tree)
    requires Weight(e) == 1 && Weight(two) == 2 && Weight(other) == 2
    requires forall k :: 0 <= k < |rest| ==> Weight(rest[k]) >= 4
    ensures Huffman([e] + rest + [two, other]) == Huffman(rest + [other, Node(e, two)])
  {
    hide Huffman, Weight;
    var ts, j := [e] + rest + [two, other], |rest| + 1;
    assert ts[0] == e && ts[j] == two && ts[j + 1] == other;
    assert forall k :: 1 <= k < j ==> ts[k] == rest[k - 1];
    Picked(ts, 0, j);
    assert RemoveAt(RemoveAt(ts, j), 0) == rest + [other];
    assert rest + [other] + [Node(e, two)] == rest + [other, Node(e, two)];
  }

  lemma TwoAndThree(rest: seq<Tree>, two: Tree, three: Tree)
    requires Weight(two) == 2 && Weight(three) == 3
    requires forall k :: 0 <= k < |rest| ==> Weight(rest[k]) >= 4
    ensures Huffman(rest + [two, three]) == Huffman(rest + [Node(two, three)])
  {
    hide Huffman, Weight;
    var ts, n := rest + [two, three], |rest|;
    assert ts[n] == two && ts[n + 1] == three;
    Picked(ts, n, n + 1);
    assert RemoveAt(RemoveAt(ts, n + 1), n) == rest;
  }

  /** The five ones come to a tree of weight five and height three. */
  lemma FiveOnes(a: Tree, b: Tree, c: Tree, d: Tree, e: Tree, rest: seq<Tree>) returns (m: Tree)
    requires forall t :: t in [a, b, c, d, e] ==> t.Leaf? && t.freq == 1
    requires forall k :: 0 <= k < |rest| ==> Weight(rest[k]) >= 4
    ensures Huffman([a, b, c, d, e] + rest) == Huffman(rest + [m]) && Weight(m) == 5 && Height(m) == 3
  {
    hide Huffman;
    var ab, cd := Node(a, b), Node(c, d);
    TwoOnes(a, b, [c, d, e] + rest);
    assert [a, b, c, d, e] + rest == [a, b] + ([c, d, e] + rest);
    TwoOnes(c, d, [e] + rest + [ab]);
    assert [c, d, e] + rest + [ab] == [c, d] + ([e] + rest + [ab]);
    assert [e] + rest + [ab] + [cd] == [e] + rest + [ab, cd];
    OneAndTwo(e, rest, ab, cd);
    TwoAndThree(rest, cd, Node(e, ab));
    m := Node(cd, Node(e, ab));
    assert Height(ab) == 1 && Height(cd) == 1 && Height(Node(e, ab)) == 2;
  }

  /** The rest makes a chain: one level for every further symbol. */
  lemma SharpHeight(n: nat)
    requires n >= 5
    ensures Height(Huffman(SharpLeaves(n))) >= n - 2
  {
    hide Huffman, Height, Fib;
    var ls := SharpLeaves(n);
    var rest := ls[5..];
    forall k | 0 <= k < |rest| ensures Weight(rest[k]) >= 4 { SharpGrows(k + 5); }
    assert ls == [ls[0], ls[1], ls[2], ls[3], ls[4]] + rest;
    var m := FiveOnes(ls[0], ls[1], ls[2], ls[3], ls[4], rest);
    assert Weights(rest) == SharpFrom(5, n);
    SixIsNext();
    SharpChain(5, n, 5);
    ChainHeight(rest, m);
  }

  lemma SixIsNext()
    ensures SharpWeight(6) == 6
  {
    assert Fib(3) == 2 && Fib(4) == 3;
  }

  lemma {:induction false} SharpSum(n: nat)
    requires n >= 5
    ensures Sum(SharpFrom(0, n)) == Least(n - 2)
  {
    if n == 5 {
      Ones(5);
      assert Fib(3) == 2 && Fib(4) == 3;
    } else {
      var last := SharpWeight(n - 1);
      SharpSum(n - 1);
      assert SharpFrom(0, n) == SharpFrom(0, n - 1) + [last] && [last][1..] == [];
      SumConcat(SharpFrom(0, n - 1), [last]);
      assert Fib(n - 1) == Fib(n - 2) + Fib(n - 3);
    }
  }

  lemma {:induction false} Ones(n: nat)
    requires n <= 5
    ensures Sum(SharpFrom(0, n)) == n
  {
    if n > 0 {
      Ones(n - 1);
      var last := SharpWeight(n - 1);
      assert SharpFrom(0, n) == SharpFrom(0, n - 1) + [last] && [last][1..] == [];
      SumConcat(SharpFrom(0, n - 1), [last]);
    }
  }

  /** The bound is sharp: for every height from three on there are frequencies that come to no more. */
  lemma LeastIsReached(h: nat)
    requires h >= 3
    ensures Sum(Weights(SharpLeaves(h + 2))) == Least(h) && Height(Huffman(SharpLeaves(h + 2))) >= h
  {
    hide Huffman, Height, Fib, Least, Sum;
    SharpSum(h + 2);
    assert Weights(SharpLeaves(h + 2)) == SharpFrom(0, h + 2);
    SharpHeight(h + 2);
  }

  const SYMBOLS := 35

  function SharpTable(): (r: seq<nat>)
    ensures |r| == 256
  {
    SharpFrom(0, SYMBOLS) + Unused(256 - SYMBOLS)
  }

  lemma SharpPositive(i: nat)
    ensures SharpWeight(i) >= 1
  {
    if i >= 5 { SharpGrows(i); }
  }

  lemma LeavesStep(freq: seq<nat>)
    requires freq != []
    ensures var last := |freq| - 1;
            Leaves(freq) == Leaves(freq[..last]) + if freq[last] > 0 then [Leaf(last, freq[last])] else []
  {}

  lemma {:induction false} LeavesOfPrefix(n: nat)
    requires n <= 256
    ensures Leaves(SharpTable()[..n]) == SharpLeaves(if n < SYMBOLS then n else SYMBOLS)
  {
    hide SharpWeight, Leaves;
    if n == 0 {
      NoneInUse();
    } else {
      LeavesOfPrefix(n - 1);
      var f := SharpTable()[..n];
      assert f[..n - 1] == SharpTable()[..n - 1];
      LeavesStep(f);
      SharpPositive(n - 1);
      assert n <= SYMBOLS ==> SharpLeaves(n) == SharpLeaves(n - 1) + [Leaf(n - 1, SharpWeight(n - 1))];
    }
  }

  lemma NoneInUse()
    ensures Leaves(SharpTable()[..0]) == SharpLeaves(0)
  {}

  lemma SharpRoot()
    ensures Leaves(SharpTable()) != []
    ensures Height(RootTree(SharpTable())) >= 33
  {
    var f := SharpTable();
    LeavesOfPrefix(256);
    assert f[..256] == f;
    hide SharpTable, SharpLeaves, Leaves, Huffman, Height;
    SharpHeight(SYMBOLS);
    RootIsHuffman(f);
  }

  lemma RootIsHuffman(freq: seq<nat>)
    requires Leaves(freq) != []
    ensures RootTree(freq) == Huffman(Leaves(freq))
  {}

  /** Some byte of a message with these frequencies has a code of at least 33 bits. */
  lemma LongCode(data: seq<byte>)
    requires Frequencies(data) == SharpTable()
    ensures !NoLongerThan(MessageLengths(data), MAX_CODE_LEN)
  {
    hide CodeLengths, SharpTable, Leaves, Frequencies, RootTree, Height;
    SharpRoot();
    if NoLongerThan(MessageLengths(data), MAX_CODE_LEN) {
      HeightWithin(SharpTable(), MAX_CODE_LEN);
    }
  }

  // ---- A message with given frequencies ----

  function Repeat(b: byte, n: nat): (r: seq<byte>)
    ensures |r| == n
  {
    seq(n, _ => b)
  }

  /** Every byte below n as often as the table says. */
  function Message(freq: seq<nat>, n: nat): seq<byte>
    requires n <= |freq| == 256
  {
    if n == 0 then [] else Message(freq, n - 1) + Repeat(n - 1, freq[n - 1])
  }

  lemma {:induction false} FrequenciesRepeat(data: seq<byte>, b: byte, n: nat)
    ensures Frequencies(data + Repeat(b, n)) == Frequencies(data)[b := Frequencies(data)[b] + n]
  {
    if n == 0 {
      assert data + Repeat(b, 0) == data;
    } else {
      FrequenciesRepeat(data, b, n - 1);
      var all := data + Repeat(b, n);
      assert all[..|all| - 1] == data + Repeat(b, n - 1);
    }
  }

  lemma {:induction false} MessageFrequencies(freq: seq<nat>, n: nat)
    requires n <= |freq| == 256
    ensures Frequencies(Message(freq, n)) == freq[..n] + Unused(256 - n)
  {
    hide Frequencies;
    if n == 0 {
      NoBytes();
    } else {
      MessageFrequencies(freq, n - 1);
      FrequenciesRepeat(Message(freq, n - 1), n - 1, freq[n - 1]);
      var before := freq[..n - 1] + Unused(257 - n);
      assert before[n - 1 := 0 + freq[n - 1]] == freq[..n] + Unused(256 - n);
    }
  }

  lemma NoBytes()
    ensures Frequencies([]) == [] + Unused(256)
  {}

  /** The message that is not restored; no shorter one is lost. */
  lemma LosslessnessFails(out: seq<byte>, r: Option<seq<byte>>)
    requires IsCompressed(Message(SharpTable(), 256), out) && IsDecompressed(out, r)
    ensures |Message(SharpTable(), 256)| == LONG_CODES
    ensures r.None?
  {
    var data := Message(SharpTable(), 256);
    hide SharpTable, Message, IsCompressed, IsDecompressed, MessageLengths, Frequencies;
    SharpMessageSize();
    LongCode(data);
    Widths();
    RoundTrip(data, out, r);
  }

  lemma SharpMessageSize()
    ensures Frequencies(Message(SharpTable(), 256)) == SharpTable()
    ensures |Message(SharpTable(), 256)| == LONG_CODES
  {
    hide Message, Frequencies, SharpWeight, Least, Sum;
    var f := SharpTable();
    var data := Message(f, 256);
    MessageFrequencies(f, 256);
    assert f[..256] + Unused(0) == f;
    FrequencyFacts(data);
    SumConcat(SharpFrom(0, SYMBOLS), Unused(256 - SYMBOLS));
    ZeroSum(256 - SYMBOLS);
    SharpSum(SYMBOLS);
    LeastForLongCodes();
  }
}
