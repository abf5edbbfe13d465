/** Prefix codes over the bits, and the Kraft inequality they satisfy. */
module PrefixCodes {
  import opened Sums
  import opened HuffmanTree

  type Bits = seq<bool>

  /** No word is a prefix of a word at another position. */
  ghost predicate PrefixFree(words: seq<Bits>)
  {
    forall i, j :: 0 <= i < |words| && 0 <= j < |words| && i != j ==> !(words[i] <= words[j])
  }

  function WordLengths(words: seq<Bits>): (r: Lengths)
    ensures |r| == |words|
  {
    seq(|words|, i requires 0 <= i < |words| => |words[i]|)
  }

  /** The words that start with the given bit, without it. */
  function Branch(words: seq<Bits>, bit: bool): seq<Bits>
  {
    if words == [] then []
    else (if words[0] != [] && words[0][0] == bit then [words[0][1..]] else []) + Branch(words[1..], bit)
  }

  lemma {:induction false} BranchOrigin(words: seq<Bits>, bit: bool, k: nat) returns (i: nat)
    requires k < |Branch(words, bit)|
    ensures i < |words| && words[i] == [bit] + Branch(words, bit)[k]
  {
    if words[0] != [] && words[0][0] == bit {
      if k == 0 {
        i := 0;
      } else {
        i := BranchOrigin(words[1..], bit, k - 1);
        i := i + 1;
      }
    } else {
      i := BranchOrigin(words[1..], bit, k);
      i := i + 1;
    }
  }

  lemma PrefixFreeCons(word: Bits, words: seq<Bits>)
    requires PrefixFree(words)
    requires forall k :: 0 <= k < |words| ==> !(word <= words[k]) && !(words[k] <= word)
    ensures PrefixFree([word] + words)
  {
    var all := [word] + words;
    forall i, j | 0 <= i < |all| && 0 <= j < |all| && i != j
      ensures !(all[i] <= all[j])
    {
      if i > 0 && j > 0 {
        assert all[i] == words[i - 1] && all[j] == words[j - 1];
      }
    }
  }

  lemma {:induction false} BranchPrefixFree(words: seq<Bits>, bit: bool)
    requires PrefixFree(words)
    ensures PrefixFree(Branch(words, bit))
  {
    if words != [] {
      var rest := Branch(words[1..], bit);
      BranchPrefixFree(words[1..], bit);
      if words[0] != [] && words[0][0] == bit {
        var first := words[0][1..];
        forall k | 0 <= k < |rest|
          ensures !(first <= rest[k]) && !(rest[k] <= first)
        {
          BranchApart(words, bit, k);
        }
        PrefixFreeCons(first, rest);
      } else {
        assert Branch(words, bit) == rest;
      }
    }
  }

  lemma BranchApart(words: seq<Bits>, bit: bool, k: nat)
    requires PrefixFree(words) && words != [] && words[0] != [] && words[0][0] == bit
    requires k < |Branch(words[1..], bit)|
    ensures !(words[0][1..] <= Branch(words[1..], bit)[k])
    ensures !(Branch(words[1..], bit)[k] <= words[0][1..])
  {
    var first, other := words[0][1..], Branch(words[1..], bit)[k];
    var i := BranchOrigin(words[1..], bit, k);
    PrefixCons(bit, first, other);
    PrefixCons(bit, other, first);
    assert words[0] == [bit] + first && words[i + 1] == [bit] + other;
  }

  lemma PrefixCons(bit: bool, u: Bits, v: Bits)
    ensures u <= v <==> [bit] + u <= [bit] + v
  {
    if [bit] + u <= [bit] + v {
      assert u == ([bit] + u)[1..] && v == ([bit] + v)[1..];
    }
  }

  ghost predicate NoLonger(words: seq<Bits>, m: nat)
  {
    forall i :: 0 <= i < |words| ==> |words[i]| <= m
  }

  ghost function KraftSum(words: seq<Bits>, m: nat): nat
    requires NoLonger(words, m)
  {
    Sum(KraftTerms(WordLengths(words), m))
  }

  lemma KraftSumCons(word: Bits, words: seq<Bits>, m: nat)
    requires NoLonger(words, m) && |word| <= m
    ensures NoLonger([word] + words, m)
    ensures KraftSum([word] + words, m) == Pow2(m - |word|) + KraftSum(words, m)
  {
    hide Pow2;
    var all := [word] + words;
    assert NoLonger(all, m) by { assert forall i :: 0 < i < |all| ==> all[i] == words[i - 1]; }
    var t, u := KraftTerms(WordLengths(all), m), KraftTerms(WordLengths(words), m);
    assert t[0] == Pow2(m - |word|) && t[1..] == u;
    hide KraftTerms, WordLengths;
    assert Sum(t) == t[0] + Sum(u);
  }

  /** The Kraft sum of nonempty words is shared out between the two branches. */
  lemma {:induction false} KraftBranches(words: seq<Bits>, m: nat)
    requires m > 0 && NoLonger(words, m)
    requires forall i :: 0 <= i < |words| ==> words[i] != []
    ensures NoLonger(Branch(words, false), m - 1) && NoLonger(Branch(words, true), m - 1)
    ensures KraftSum(words, m) == KraftSum(Branch(words, false), m - 1) + KraftSum(Branch(words, true), m - 1)
  {
    if words != [] {
      var rest, tail, bit := words[1..], words[0][1..], words[0][0];
      KraftBranches(rest, m);
      BranchStep(words);
      hide KraftSum, Branch, NoLonger;
      assert words == [words[0]] + rest;
      KraftSumCons(words[0], rest, m);
      KraftSumCons(tail, Branch(rest, bit), m - 1);
    }
  }

  lemma BranchStep(words: seq<Bits>)
    requires words != [] && words[0] != []
    ensures var bit := words[0][0];
            && Branch(words, bit) == [words[0][1..]] + Branch(words[1..], bit)
            && Branch(words, !bit) == Branch(words[1..], !bit)
  {
    var bit := words[0][0];
    assert [] + Branch(words[1..], !bit) == Branch(words[1..], !bit);
  }

  lemma {:induction false} KraftBound(words: seq<Bits>, m: nat)
    requires PrefixFree(words) && NoLonger(words, m)
    ensures KraftSum(words, m) <= Pow2(m)
    decreases m, 1
  {
    if words == [] {
      assert WordLengths(words) == [];
    } else if i: nat :| i < |words| && words[i] == [] {
      SingleWord(words, i, m);
    } else {
      assert m > 0 by { assert words[0] != []; }
      KraftBoundBranches(words, m);
    }
  }

  lemma {:induction false} KraftBoundBranches(words: seq<Bits>, m: nat)
    requires PrefixFree(words) && NoLonger(words, m) && m > 0
    requires forall i :: 0 <= i < |words| ==> words[i] != []
    ensures KraftSum(words, m) <= Pow2(m)
    decreases m, 0
  {
    hide *;
    BranchPrefixFree(words, false);
    BranchPrefixFree(words, true);
    KraftBranches(words, m);
    KraftBound(Branch(words, false), m - 1);
    KraftBound(Branch(words, true), m - 1);
    DoublePow(m);
  }

  lemma DoublePow(m: nat)
    requires m > 0
    ensures Pow2(m) == 2 * Pow2(m - 1)
  {}

  /** The Kraft inequality: the words of a prefix code fit into the code space. */
  lemma KraftInequality(words: seq<Bits>, m: nat)
    requires PrefixFree(words) && NoLonger(words, m)
    ensures Kraft(WordLengths(words), m)
  {
    hide PrefixFree;
    KraftBound(words, m);
  }

  lemma EmptyPrefix(word: Bits)
    ensures [] <= word
  {}

  lemma SingleWord(words: seq<Bits>, i: nat, m: nat)
    requires PrefixFree(words) && i < |words| && words[i] == []
    ensures |words| == 1 && Sum(KraftTerms(WordLengths(words), m)) == Pow2(m)
  {
    if |words| > 1 {
      EmptyPrefix(words[if i == 0 then 1 else 0]);
    }
    assert WordLengths(words) == [0];
    assert KraftTerms([0], m) == [Pow2(m)];
    assert [Pow2(m)][1..] == [];
  }
}
