/** Code lengths from a frequency table: what they are, and that they are the best possible. */
module HuffmanLengths {
  import opened Sums
  import opened HuffmanTree
  import opened PrefixCodes

  /** One leaf for every symbol in use, in symbol order. */
  function Leaves(freq: seq<nat>): seq<Tree>
  {
    if freq == [] then []
    else
      var last := |freq| - 1;
      Leaves(freq[..last]) + if freq[last] > 0 then [Leaf(last, freq[last])] else []
  }

  function Unused(n: nat): (r: seq<nat>)
    ensures |r| == n
  {
    seq(n, _ => 0)
  }

  /** The code length of every symbol; zero for a symbol that does not occur. */
  function CodeLengths(freq: seq<nat>): (r: seq<nat>)
    ensures |r| == |freq|
  {
    if Leaves(freq) == [] then Unused(|freq|)
    else
      LeavesForest(freq);
      HuffmanWellBuilt(Leaves(freq), freq);
      TreeSymbols(Huffman(Leaves(freq)), freq);
      WriteDepths(Unused(|freq|), Huffman(Leaves(freq)), 0)
  }

  lemma {:induction false} TreeSymbols(t: Tree, freq: seq<nat>)
    requires WellBuilt(t, freq)
    ensures forall s :: s in Symbols(t) ==> s < |freq| && freq[s] > 0
  {
    match t
    case Leaf(_, _) =>
    case Node(l, r) =>
      TreeSymbols(l, freq);
      TreeSymbols(r, freq);
  }

  ghost function UsedSymbols(freq: seq<nat>): set<nat>
  {
    set s: nat | s < |freq| && freq[s] > 0
  }

  lemma {:induction false} LeavesFacts(freq: seq<nat>)
    ensures forall i :: 0 <= i < |Leaves(freq)| ==>
                          var t := Leaves(freq)[i];
                          t.Leaf? && t.sym < |freq| && t.freq == freq[t.sym] && t.freq > 0
    ensures forall i, j :: 0 <= i < j < |Leaves(freq)| ==> Leaves(freq)[i].sym < Leaves(freq)[j].sym
  {
    if freq != [] {
      var last := |freq| - 1;
      LeavesFacts(freq[..last]);
      assert forall i :: 0 <= i < last ==> freq[..last][i] == freq[i];
    }
  }

  lemma LeavesForest(freq: seq<nat>)
    ensures Forest(Leaves(freq), freq)
  {
    LeavesFacts(freq);
  }

  lemma {:induction false} LeavesSums(freq: seq<nat>)
    ensures Sum(Weights(Leaves(freq))) == Sum(freq)
    ensures Sum(Costs(Leaves(freq))) == 0
    ensures AllSymbols(Leaves(freq)) == UsedSymbols(freq)
  {
    if freq == [] {
      assert Leaves(freq) == [];
    } else {
      var last := |freq| - 1;
      var front := freq[..last];
      LeavesSums(front);
      assert freq == front + [freq[last]];
      assert [freq[last]][1..] == [];
      SumConcat(front, [freq[last]]);
      if freq[last] > 0 {
        var t := Leaf(last, freq[last]);
        WeightsAppend(Leaves(front), t);
        AllSymbolsConcat(Leaves(front), [t]);
        OneTree(t);
        assert UsedSymbols(freq) == UsedSymbols(front) + {last};
      } else {
        assert Leaves(freq) == Leaves(front);
        assert UsedSymbols(freq) == UsedSymbols(front);
      }
    }
  }

  lemma WeightsAppend(ts: seq<Tree>, t: Tree)
    ensures Sum(Weights(ts + [t])) == Sum(Weights(ts)) + Weight(t)
    ensures Sum(Costs(ts + [t])) == Sum(Costs(ts)) + Cost(t)
  {
    hide Weight, Cost;
    assert Weights(ts + [t]) == Weights(ts) + [Weight(t)];
    assert Costs(ts + [t]) == Costs(ts) + [Cost(t)];
    SumConcat(Weights(ts), [Weight(t)]);
    SumConcat(Costs(ts), [Cost(t)]);
  }

  ghost function RootTree(freq: seq<nat>): (t: Tree)
    requires Leaves(freq) != []
    ensures WellBuilt(t, freq) && Symbols(t) == UsedSymbols(freq) && Weight(t) == Sum(freq)
    ensures CodeLengths(freq) == WriteDepths(Unused(|freq|), t, 0)
  {
    LeavesForest(freq);
    LeavesSums(freq);
    HuffmanWellBuilt(Leaves(freq), freq);
    Huffman(Leaves(freq))
  }

  /** Exactly the symbols that occur have a code. */
  lemma LengthsCoverSymbols(freq: seq<nat>)
    ensures forall s :: 0 <= s < |freq| ==> (CodeLengths(freq)[s] > 0 <==> freq[s] > 0)
  {
    hide CodeLengths;
    if Leaves(freq) == [] {
      NoLeaves(freq);
    } else {
      var t := RootTree(freq);
      WriteDepthsValues(Unused(|freq|), t, 0);
      assert forall s: nat :: s in UsedSymbols(freq) <==> s < |freq| && freq[s] > 0;
    }
  }

  lemma NoLeaves(freq: seq<nat>)
    requires Leaves(freq) == []
    ensures forall s :: 0 <= s < |freq| ==> freq[s] == 0
    ensures CodeLengths(freq) == Unused(|freq|)
  {
    LeavesSums(freq);
    forall s: nat | s < |freq|
      ensures freq[s] == 0
    {
      assert s !in UsedSymbols(freq);
    }
  }

  /** A code of n bits, n at least two, needs a total frequency of at least 2 Fib(n + 1) - 1. */
  lemma LongCodesNeedLongInput(freq: seq<nat>, s: nat)
    requires s < |freq|
    ensures CodeLengths(freq)[s] <= 1 || Least(CodeLengths(freq)[s]) <= Sum(freq)
  {
    hide CodeLengths, Least, Leaves, WriteDepths, Sum, RootTree, Height;
    if Leaves(freq) == [] {
      NoLeaves(freq);
    } else {
      var t := RootTree(freq);
      WriteDepthsValues(Unused(|freq|), t, 0);
      DeepIsHeavy(t, freq);
      if CodeLengths(freq)[s] > 1 {
        LeastGrows(CodeLengths(freq)[s], Height(t));
      }
    }
  }

  lemma Fib34()
    ensures Fib(34) == 5702887
  {
    assert Fib(10) == 55 && Fib(11) == 89;
    assert Fib(12) == 144 && Fib(13) == 233;
    assert Fib(14) == 377 && Fib(15) == 610;
    assert Fib(16) == 987 && Fib(17) == 1597;
    assert Fib(18) == 2584 && Fib(19) == 4181;
    assert Fib(20) == 6765 && Fib(21) == 10946;
    assert Fib(22) == 17711 && Fib(23) == 28657;
    assert Fib(24) == 46368 && Fib(25) == 75025;
    assert Fib(26) == 121393 && Fib(27) == 196418;
    assert Fib(28) == 317811 && Fib(29) == 514229;
    assert Fib(30) == 832040 && Fib(31) == 1346269;
    assert Fib(32) == 2178309 && Fib(33) == 3524578;
  }

  /** The total frequency from which on a code may be longer than 32 bits. */
  const LONG_CODES := 11_405_773

  lemma LeastForLongCodes()
    ensures Least(33) == LONG_CODES
  {
    hide Fib;
    Fib34();
  }

  /** Below 11,405,773 symbols no code is longer than 32 bits. */
  lemma ShortInputsHaveShortCodes(freq: seq<nat>, s: nat)
    requires s < |freq| && Sum(freq) < LONG_CODES
    ensures CodeLengths(freq)[s] <= 32
  {
    hide CodeLengths, Least;
    LongCodesNeedLongInput(freq, s);
    LeastForLongCodes();
    if CodeLengths(freq)[s] > 32 {
      LeastGrows(33, CodeLengths(freq)[s]);
    }
  }

  lemma {:induction false} ZeroTerms(n: nat, m: nat)
    ensures Sum(UsedTerms(Unused(n), m)) == 0
  {
    if n > 0 {
      ZeroTerms(n - 1, m);
      assert UsedTerms(Unused(n), m)[1..] == UsedTerms(Unused(n - 1), m);
    }
  }

  /** Some symbol sits at the full height of the tree. */
  lemma {:induction false} DeepestSymbol(lens: seq<nat>, t: Tree, d: nat, freq: seq<nat>) returns (s: nat)
    requires WellBuilt(t, freq) && Unset(lens, t)
    ensures s in Symbols(t) && WriteDepths(lens, t, d)[s] >= d + Height(t)
    decreases t
  {
    match t
    case Leaf(sym, _) =>
      s := sym;
    case Node(l, r) =>
      UnsetChildren(lens, t, freq, d + 1);
      var mid := WriteDepths(lens, l, d + 1);
      if Height(l) >= Height(r) {
        s := DeepestSymbol(lens, l, d + 1, freq);
        WriteDepthsValues(mid, r, d + 1);
      } else {
        s := DeepestSymbol(mid, r, d + 1, freq);
      }
  }

  lemma {:induction false} ManyTreesMakeANode(ts: seq<Tree>)
    requires |ts| >= 2
    ensures Huffman(ts).Node?
    decreases |ts|
  {
    var i := Lightest(ts, |ts|, -1);
    var j := Lightest(ts, |ts|, i);
    if |ts| > 2 { ManyTreesMakeANode(Merge(ts, i, j)); }
  }

  lemma OneLeaf(freq: seq<nat>)
    requires Leaves(freq) != []
    ensures RootTree(freq).Leaf? <==> |Leaves(freq)| == 1
  {
    LeavesFacts(freq);
    if |Leaves(freq)| >= 2 { ManyTreesMakeANode(Leaves(freq)); }
  }

  lemma HeightWithin(freq: seq<nat>, m: nat)
    requires Leaves(freq) != []
    requires forall s :: 0 <= s < |freq| ==> CodeLengths(freq)[s] <= m
    ensures Height(RootTree(freq)) <= m
  {
    hide CodeLengths;
    var t := RootTree(freq);
    TreeSymbols(t, freq);
    var s := DeepestSymbol(Unused(|freq|), t, 0, freq);
  }

  /** The lengths fill the code space exactly; a lone symbol takes half of it. */
  lemma LengthsKraft(freq: seq<nat>, m: nat)
    requires m > 0 && forall s :: 0 <= s < |freq| ==> CodeLengths(freq)[s] <= m
    ensures Sum(UsedTerms(CodeLengths(freq), m)) ==
            match |Leaves(freq)| { case 0 => 0 case 1 => Pow2(m - 1) case _ => Pow2(m) }
  {
    hide Sum, UsedTerms, CodeLengths, Leaves;
    var zero := Unused(|freq|);
    ZeroTerms(|freq|, m);
    if Leaves(freq) == [] {
      NoLeaves(freq);
    } else {
      var t := RootTree(freq);
      HeightWithin(freq, m);
      OneLeaf(freq);
      TreeSymbols(t, freq);
      if t.Leaf? {
        WriteDepthsKraft(zero, t, 1, freq, m);
      } else {
        UnsetChildren(zero, t, freq, 1);
        WriteDepthsKraft(zero, t.left, 1, freq, m);
        WriteDepthsKraft(WriteDepths(zero, t.left, 1), t.right, 1, freq, m);
        assert Pow2(m) == 2 * Pow2(m - 1);
      }
    }
  }

  // ---- Optimality among all prefix codes ----

  /** The total encoded size: the sum of frequency times length. */
  function EncodedSize(freq: seq<nat>, lens: seq<nat>): nat
    requires |freq| == |lens|
  {
    Sum(Products(freq, lens))
  }

  /** The words of the symbols in use do not start one another. */
  ghost predicate IsPrefixCode(freq: seq<nat>, words: seq<Bits>)
    requires |freq| == |words|
  {
    forall s, t :: 0 <= s < |freq| && 0 <= t < |freq| && s != t && freq[s] > 0 && freq[t] > 0 ==>
                     !(words[s] <= words[t])
  }

  /** The words of the leaves, in leaf order. */
  ghost function LeafWords(freq: seq<nat>, words: seq<Bits>): (r: seq<Bits>)
    requires |freq| == |words|
    ensures |r| == |Leaves(freq)|
  {
    LeavesFacts(freq);
    seq(|Leaves(freq)|, i requires 0 <= i < |Leaves(freq)| => words[Leaves(freq)[i].sym])
  }

  lemma {:induction false} ZeroProducts(freq: seq<nat>)
    ensures Sum(Products(freq, Unused(|freq|))) == 0
  {
    if freq != [] {
      ZeroProducts(freq[1..]);
      assert Products(freq, Unused(|freq|))[1..] == Products(freq[1..], Unused(|freq| - 1));
    }
  }

  lemma SizeIsCost(freq: seq<nat>)
    requires |Leaves(freq)| >= 2
    ensures EncodedSize(freq, CodeLengths(freq)) == Cost(Huffman(Leaves(freq)))
  {
    hide Sum, Products, CodeLengths, Leaves;
    var zero := Unused(|freq|);
    var t := RootTree(freq);
    OneLeaf(freq);
    TreeSymbols(t, freq);
    UnsetChildren(zero, t, freq, 1);
    WriteDepthsCost(zero, t.left, 1, freq);
    WriteDepthsCost(WriteDepths(zero, t.left, 1), t.right, 1, freq);
    ZeroProducts(freq);
  }

  lemma SizeAppend(freq: seq<nat>, lens: seq<nat>, f: nat, l: nat)
    requires |freq| == |lens|
    ensures EncodedSize(freq + [f], lens + [l]) == EncodedSize(freq, lens) + f * l
  {
    assert Products(freq + [f], lens + [l]) == Products(freq, lens) + [f * l];
    SumConcat(Products(freq, lens), [f * l]);
  }

  lemma LeafWordsStep(freq: seq<nat>, words: seq<Bits>)
    requires |freq| == |words| > 0
    ensures var last := |freq| - 1;
            var front := LeafWords(freq[..last], words[..last]);
            LeafWords(freq, words) == front + if freq[last] > 0 then [words[last]] else []
  {
    var last := |freq| - 1;
    LeavesFacts(freq[..last]);
    LeavesFacts(freq);
    assert forall i :: 0 <= i < last ==> words[..last][i] == words[i];
  }

  lemma {:induction false} SizeOfWords(freq: seq<nat>, words: seq<Bits>)
    requires |freq| == |words|
    ensures EncodedSize(freq, WordLengths(words)) == Total(Leaves(freq), WordLengths(LeafWords(freq, words)))
  {
    if freq == [] {
      assert Leaves(freq) == [];
    } else {
      hide EncodedSize, Total, LeafWords;
      var last := |freq| - 1;
      var front, fw := freq[..last], words[..last];
      var lw := LeafWords(front, fw);
      SizeOfWords(front, fw);
      assert freq == front + [freq[last]] && WordLengths(words) == WordLengths(fw) + [|words[last]|];
      SizeAppend(front, WordLengths(fw), freq[last], |words[last]|);
      LeafWordsStep(freq, words);
      if freq[last] > 0 {
        assert WordLengths(lw + [words[last]]) == WordLengths(lw) + [|words[last]|];
        TotalAppend(Leaves(front), WordLengths(lw), Leaf(last, freq[last]), |words[last]|);
      } else {
        assert Leaves(freq) == Leaves(front);
        assert LeafWords(freq, words) == lw;
      }
    }
  }

  lemma Longest(words: seq<Bits>) returns (m: nat)
    ensures NoLonger(words, m)
  {
    m := 0;
    for i := 0 to |words|
      invariant forall j :: 0 <= j < i ==> |words[j]| <= m
    {
      if |words[i]| > m { m := |words[i]|; }
    }
  }

  /** No prefix code over the symbols in use has a smaller encoded size. */
  lemma NoPrefixCodeIsShorter(freq: seq<nat>, words: seq<Bits>)
    requires |freq| == |words| && |Leaves(freq)| >= 2
    requires IsPrefixCode(freq, words)
    ensures EncodedSize(freq, CodeLengths(freq)) <= EncodedSize(freq, WordLengths(words))
  {
    hide EncodedSize, CodeLengths, Total, Huffman;
    var ts, ws := Leaves(freq), LeafWords(freq, words);
    LeavesFacts(freq);
    assert PrefixFree(ws);
    var m := Longest(ws);
    KraftInequality(ws, m);
    HuffmanIsOptimal(ts, WordLengths(ws), m);
    LeavesSums(freq);
    SizeIsCost(freq);
    SizeOfWords(freq, words);
  }
}
