/**
 The builder of code lengths: a node list that the merge loop appends to, a flag per node that
 says whether it has a parent, and a walk from the root that writes down leaf depths.
 */
module HuffmanBuilder {
  import opened Options
  import opened Sums
  import opened HuffmanTree
  import opened HuffmanLengths

  datatype Item = Item(freq: nat, left: Option<nat>, right: Option<nat>, sym: Option<nat>)

  /** Node i of the list stands for trees[i]. */
  ghost predicate Describes(fs: seq<Item>, trees: seq<Tree>)
  {
    && |fs| == |trees|
    && forall i :: 0 <= i < |fs| ==> ItemDescribes(fs[i], trees, i)
  }

  ghost predicate ItemDescribes(item: Item, trees: seq<Tree>, i: nat)
    requires i < |trees|
  {
    && item.freq == Weight(trees[i])
    && match item.sym {
         case Some(s) => trees[i] == Leaf(s, item.freq)
         case None =>
           && item.left.Some? && item.right.Some?
           && item.left.value < i && item.right.value < i
           && trees[i] == Node(trees[item.left.value], trees[item.right.value])
       }
  }

  /** The trees that have no parent yet, in list order. */
  function Roots(trees: seq<Tree>, used: seq<bool>): seq<Tree>
    requires |trees| == |used|
  {
    if trees == [] then []
    else
      var last := |trees| - 1;
      Roots(trees[..last], used[..last]) + if used[last] then [] else [trees[last]]
  }

  /** Where the root at list index i stands among the roots. */
  function Rank(trees: seq<Tree>, used: seq<bool>, i: nat): nat
    requires |trees| == |used| && i <= |trees|
  {
    |Roots(trees[..i], used[..i])|
  }

  lemma {:induction false} RankBound(trees: seq<Tree>, used: seq<bool>, i: nat)
    requires |trees| == |used| && i < |trees| && !used[i]
    ensures Rank(trees, used, i) < |Roots(trees, used)|
    ensures Roots(trees, used)[Rank(trees, used, i)] == trees[i]
  {
    var last := |trees| - 1;
    if i == last {
    } else {
      RankBound(trees[..last], used[..last], i);
      assert trees[..last][..i] == trees[..i] && used[..last][..i] == used[..i];
    }
  }

  lemma RankMonotone(trees: seq<Tree>, used: seq<bool>, i: nat, j: nat)
    requires |trees| == |used| && i < j <= |trees| && !used[i]
    ensures Rank(trees, used, i) < Rank(trees, used, j)
  {
    RankBound(trees[..j], used[..j], i);
    assert trees[..j][..i] == trees[..i] && used[..j][..i] == used[..i];
  }

  lemma {:induction false} RootOrigin(trees: seq<Tree>, used: seq<bool>, q: nat) returns (i: nat)
    requires |trees| == |used| && q < |Roots(trees, used)|
    ensures i < |trees| && !used[i] && Rank(trees, used, i) == q
  {
    var last := |trees| - 1;
    if q < |Roots(trees[..last], used[..last])| {
      i := RootOrigin(trees[..last], used[..last], q);
      assert trees[..last][..i] == trees[..i] && used[..last][..i] == used[..i];
    } else {
      i := last;
    }
  }

  lemma RemoveAtFront<T>(s: seq<T>, t: seq<T>, i: nat)
    requires i < |s|
    ensures RemoveAt(s + t, i) == RemoveAt(s, i) + t
  {}

  /** Giving root i a parent takes it out of the roots. */
  lemma {:induction false} RootsUse(trees: seq<Tree>, used: seq<bool>, i: nat)
    requires |trees| == |used| && i < |trees| && !used[i]
    ensures Rank(trees, used, i) < |Roots(trees, used)|
    ensures Roots(trees, used[i := true]) == RemoveAt(Roots(trees, used), Rank(trees, used, i))
  {
    RankBound(trees, used, i);
    var last := |trees| - 1;
    var now := used[i := true];
    var front := Roots(trees[..last], used[..last]);
    if i == last {
      assert now[..last] == used[..last];
      assert RemoveAt(front + [trees[last]], |front|) == front;
    } else {
      RootsUse(trees[..last], used[..last], i);
      assert trees[..last][..i] == trees[..i] && used[..last][..i] == used[..i];
      assert now[..last] == used[..last][i := true];
      RemoveAtFront(front, if used[last] then [] else [trees[last]], Rank(trees, used, i));
    }
  }

  lemma RootsPush(trees: seq<Tree>, used: seq<bool>, t: Tree)
    requires |trees| == |used|
    ensures Roots(trees + [t], used + [false]) == Roots(trees, used) + [t]
  {
    assert (trees + [t])[..|trees|] == trees && (used + [false])[..|used|] == used;
  }

  /** The effect of one merge on the roots. */
  lemma RootsMerge(trees: seq<Tree>, used: seq<bool>, i: nat, j: nat)
    requires |trees| == |used| && i < |trees| && j < |trees| && i != j && !used[i] && !used[j]
    ensures var roots := Roots(trees, used);
            var p, q := Rank(trees, used, i), Rank(trees, used, j);
            && p < |roots| && q < |roots| && p != q
            && Roots(trees + [Node(trees[i], trees[j])], used[i := true][j := true] + [false]) == Merge(roots, p, q)
  {
    hide Roots, Rank;
    RankBound(trees, used, i);
    RankBound(trees, used, j);
    var t := Node(trees[i], trees[j]);
    var both := used[i := true][j := true];
    RootsPush(trees, both, t);
    if i < j {
      RankMonotone(trees, used, i, j);
      UseTwo(trees, used, i, j);
    } else {
      RankMonotone(trees, used, j, i);
      UseTwo(trees, used, j, i);
      assert both == used[j := true][i := true];
    }
  }

  lemma UseTwo(trees: seq<Tree>, used: seq<bool>, lo: nat, hi: nat)
    requires |trees| == |used| && lo < hi < |trees| && !used[lo] && !used[hi]
    ensures Rank(trees, used, hi) < |Roots(trees, used)|
    ensures Rank(trees, used, lo) < |Roots(trees, used)| - 1
    ensures Roots(trees, used[lo := true][hi := true]) ==
            RemoveAt(RemoveAt(Roots(trees, used), Rank(trees, used, hi)), Rank(trees, used, lo))
  {
    var first := used[hi := true];
    RootsUse(trees, used, hi);
    RootsUse(trees, first, lo);
    assert first[..lo] == used[..lo];
    assert used[lo := true][hi := true] == first[lo := true];
  }

  // ---- Selecting the two lightest nodes ----

  /** By frequency, then by index. */
  predicate Lighter(fs: seq<Item>, i: nat, j: nat)
    requires i < |fs| && j < |fs|
  {
    fs[i].freq < fs[j].freq || (fs[i].freq == fs[j].freq && i < j)
  }

  ghost predicate IsFirst(fs: seq<Item>, used: seq<bool>, n: nat, best: Option<nat>)
    requires |fs| == |used| && n <= |fs|
  {
    match best
    case None => forall i :: 0 <= i < n ==> used[i]
    case Some(b) => b < n && !used[b] && forall i :: 0 <= i < n && !used[i] && i != b ==> Lighter(fs, b, i)
  }

  ghost predicate IsSecond(fs: seq<Item>, used: seq<bool>, n: nat, first: Option<nat>, best: Option<nat>)
    requires |fs| == |used| && n <= |fs|
  {
    match best
    case None => forall i :: 0 <= i < n && !used[i] ==> first == Some(i)
    case Some(b) =>
      && b < n && !used[b] && first != Some(b)
      && forall i :: 0 <= i < n && !used[i] && i != b && first != Some(i) ==> Lighter(fs, b, i)
  }

  method TwoLightest(fs: seq<Item>, used: seq<bool>) returns (best1: Option<nat>, best2: Option<nat>)
    requires |fs| == |used|
    ensures IsFirst(fs, used, |fs|, best1)
    ensures IsSecond(fs, used, |fs|, best1, best2)
  {
    best1, best2 := None, None;
    for i := 0 to |fs|
      invariant IsFirst(fs, used, i, best1)
      invariant IsSecond(fs, used, i, best1, best2)
    {
      if !used[i] {
        if best1.None? || Lighter(fs, i, best1.value) {
          best2 := best1;
          best1 := Some(i);
        } else if best2.None? || Lighter(fs, i, best2.value) {
          best2 := Some(i);
        }
      }
    }
  }

  /** With two roots left, the scan finds the two trees Huffman's algorithm merges. */
  lemma ScanFindsLightest(fs: seq<Item>, trees: seq<Tree>, used: seq<bool>, best1: Option<nat>, best2: Option<nat>)
    requires Describes(fs, trees) && |used| == |fs| && |Roots(trees, used)| >= 2
    requires IsFirst(fs, used, |fs|, best1) && IsSecond(fs, used, |fs|, best1, best2)
    ensures best1.Some? && best2.Some? && best1 != best2
    ensures best1.value < |fs| && !used[best1.value] && best2.value < |fs| && !used[best2.value]
    ensures var roots := Roots(trees, used);
            var i := Lightest(roots, |roots|, -1);
            Rank(trees, used, best1.value) == i && Rank(trees, used, best2.value) == Lightest(roots, |roots|, i)
  {
    var roots := Roots(trees, used);
    var a := RootOrigin(trees, used, 0);
    var b := RootOrigin(trees, used, 1);
    assert a != b;
    var i, j := best1.value, best2.value;
    var p, q := Rank(trees, used, i), Rank(trees, used, j);
    RankBound(trees, used, i);
    RankBound(trees, used, j);
    forall r | 0 <= r < |roots|
      ensures Before(roots, p, r)
      ensures r != p ==> Before(roots, q, r)
    {
      OrderOfRoots(fs, trees, used, best1, best2, r);
    }
    assert p != q by {
      if i < j { RankMonotone(trees, used, i, j); } else { RankMonotone(trees, used, j, i); }
    }
    var l := Lightest(roots, |roots|, -1);
    assert Before(roots, l, p) && Before(roots, p, l);
    var m := Lightest(roots, |roots|, l);
    assert Before(roots, m, q) && Before(roots, q, m);
  }

  lemma OrderOfRoots(fs: seq<Item>, trees: seq<Tree>, used: seq<bool>, best1: Option<nat>, best2: Option<nat>, r: nat)
    requires Describes(fs, trees) && |used| == |fs| && r < |Roots(trees, used)|
    requires IsFirst(fs, used, |fs|, best1) && IsSecond(fs, used, |fs|, best1, best2)
    requires best1.Some? && best2.Some?
    ensures var roots := Roots(trees, used);
            var p, q := Rank(trees, used, best1.value), Rank(trees, used, best2.value);
            p < |roots| && q < |roots| && Before(roots, p, r) && (r != p ==> Before(roots, q, r))
  {
    var i, j := best1.value, best2.value;
    var k := RootOrigin(trees, used, r);
    RankBound(trees, used, i);
    RankBound(trees, used, j);
    RankBound(trees, used, k);
    assert ItemDescribes(fs[i], trees, i) && ItemDescribes(fs[j], trees, j) && ItemDescribes(fs[k], trees, k);
    if i < k { RankMonotone(trees, used, i, k); }
    if j < k { RankMonotone(trees, used, j, k); }
  }

  // ---- The builder ----

  /** The first loop: one node for every symbol in use. */
  method LeafItems(freq: seq<nat>) returns (fs: seq<Item>, used: seq<bool>)
    ensures Describes(fs, Leaves(freq)) && |used| == |fs|
    ensures forall i :: 0 <= i < |used| ==> !used[i]
  {
    fs, used := [], [];
    for sym := 0 to |freq|
      invariant Describes(fs, Leaves(freq[..sym])) && |used| == |fs|
      invariant forall i :: 0 <= i < |used| ==> !used[i]
    {
      assert freq[..sym + 1][..sym] == freq[..sym];
      if freq[sym] > 0 {
        fs := fs + [Item(freq[sym], None, None, Some(sym))];
        used := used + [false];
      }
    }
    assert freq[..|freq|] == freq;
  }

  lemma {:induction false} AllRoots(trees: seq<Tree>, used: seq<bool>)
    requires |trees| == |used| && forall i :: 0 <= i < |used| ==> !used[i]
    ensures Roots(trees, used) == trees
  {
    if trees != [] {
      var last := |trees| - 1;
      AllRoots(trees[..last], used[..last]);
    }
  }

  /** The walk: leaf depths under node idx, at depth d, written into the table. */
  method WriteLengths(fs: seq<Item>, ghost trees: seq<Tree>, idx: nat, d: nat, lens: array<nat>)
    requires Describes(fs, trees) && idx < |fs|
    requires forall s :: s in Symbols(trees[idx]) ==> s < lens.Length
    requires d + Height(trees[idx]) < 256
    modifies lens
    ensures lens[..] == WriteDepths(old(lens[..]), trees[idx], d)
    decreases idx
  {
    assert ItemDescribes(fs[idx], trees, idx);
    var item := fs[idx];
    if item.sym.Some? {
      assert item.sym.value in Symbols(trees[idx]);
      lens[item.sym.value] := (if d > 1 then d else 1) % 256;
      return;
    }
    ghost var t := trees[idx];
    assert Symbols(t.left) <= Symbols(t) && Symbols(t.right) <= Symbols(t);
    WriteLengths(fs, trees, item.left.value, d + 1, lens);
    WriteLengths(fs, trees, item.right.value, d + 1, lens);
  }

  lemma ScanRefuses(fs: seq<Item>, trees: seq<Tree>, used: seq<bool>, best1: Option<nat>, best2: Option<nat>)
    requires Describes(fs, trees) && |used| == |fs|
    requires IsFirst(fs, used, |fs|, best1) && IsSecond(fs, used, |fs|, best1, best2)
    requires best1.None? || best2.None?
    ensures |Roots(trees, used)| < 2
  {
    assert |trees| == |fs|;
    hide *;
    if |Roots(trees, used)| >= 2 {
      ScanFindsLightest(fs, trees, used, best1, best2);
    }
  }

  lemma TwoRoots(fs: seq<Item>, trees: seq<Tree>, used: seq<bool>, best1: Option<nat>, best2: Option<nat>)
    requires Describes(fs, trees) && |used| == |fs|
    requires IsFirst(fs, used, |fs|, best1) && IsSecond(fs, used, |fs|, best1, best2)
    requires best1.Some? && best2.Some?
    ensures |Roots(trees, used)| >= 2
  {
    var i, j := best1.value, best2.value;
    RankBound(trees, used, i);
    RankBound(trees, used, j);
    if i < j { RankMonotone(trees, used, i, j); } else { RankMonotone(trees, used, j, i); }
  }

  /** The next pair to merge; none exactly when fewer than two roots are left. */
  method SelectPair(fs: seq<Item>, used: seq<bool>, ghost trees: seq<Tree>) returns (pair: Option<(nat, nat)>)
    requires Describes(fs, trees) && |used| == |fs|
    ensures pair.Some? <==> |Roots(trees, used)| >= 2
    ensures pair.Some? ==> IsPair(trees, used, pair.value.0, pair.value.1)
  {
    hide Roots, Rank, Lightest;
    var best1, best2 := TwoLightest(fs, used);
    if best1.None? || best2.None? {
      ScanRefuses(fs, trees, used, best1, best2);
      return None;
    }
    TwoRoots(fs, trees, used, best1, best2);
    ScanFindsLightest(fs, trees, used, best1, best2);
    return Some((best1.value, best2.value));
  }

  /** Nodes i and j are the roots Huffman's algorithm merges next. */
  ghost predicate IsPair(trees: seq<Tree>, used: seq<bool>, i: nat, j: nat)
    requires |trees| == |used|
  {
    var roots := Roots(trees, used);
    var l := Lightest(roots, |roots|, -1);
    && |roots| >= 2 && i < |trees| && j < |trees| && i != j && !used[i] && !used[j]
    && Rank(trees, used, i) == l && Rank(trees, used, j) == Lightest(roots, |roots|, l)
  }

  /** The merge loop: pairs of lightest nodes get a common parent until one root is left. */
  method MergeAll(leaves: seq<Item>, unused: seq<bool>, ghost start: seq<Tree>)
    returns (fs: seq<Item>, used: seq<bool>, ghost trees: seq<Tree>)
    requires Describes(leaves, start) && |unused| == |leaves| >= 1
    requires forall i :: 0 <= i < |unused| ==> !unused[i]
    ensures Describes(fs, trees) && |used| == |fs|
    ensures Roots(trees, used) == [Huffman(start)]
  {
    fs, used, trees := leaves, unused, start;
    var internal := |fs|;
    AllRoots(trees, used);
    assert |trees| == |fs|;
    hide *;
    while internal > 1
      invariant |trees| == |fs| == |used|
      invariant Describes(fs, trees)
      invariant 1 <= internal == |Roots(trees, used)|
      invariant Huffman(Roots(trees, used)) == Huffman(start)
    {
      var pair := SelectPair(fs, used, trees);
      if pair.None? {
        break;
      }
      var (i1, i2) := pair.value;
      MergeStep(fs, trees, used, i1, i2);
      fs := fs + [Item(fs[i1].freq + fs[i2].freq, Some(i1), Some(i2), None)];
      trees := trees + [Node(trees[i1], trees[i2])];
      used := used[i1 := true][i2 := true] + [false];
      internal := internal - 1;
    }
    SingleRoot(Roots(trees, used));
  }

  lemma SingleRoot(roots: seq<Tree>)
    requires |roots| == 1
    ensures roots == [Huffman(roots)]
  {}

  /** One turn of the merge loop is one step of Huffman's algorithm on the roots. */
  lemma MergeStep(fs: seq<Item>, trees: seq<Tree>, used: seq<bool>, i: nat, j: nat)
    requires |trees| == |fs| == |used| && Describes(fs, trees) && IsPair(trees, used, i, j)
    ensures i < |fs| && j < |fs|
    ensures var fs1, trees1 := fs + [Item(fs[i].freq + fs[j].freq, Some(i), Some(j), None)],
                               trees + [Node(trees[i], trees[j])];
            var used1 := used[i := true][j := true] + [false];
            && Describes(fs1, trees1)
            && |Roots(trees1, used1)| == |Roots(trees, used)| - 1
            && Huffman(Roots(trees1, used1)) == Huffman(Roots(trees, used))
  {
    hide Roots, Rank, Merge, Describes;
    RootsMerge(trees, used, i, j);
    DescribesPush(fs, trees, i, j);
  }

  lemma DescribesPush(fs: seq<Item>, trees: seq<Tree>, i: nat, j: nat)
    requires Describes(fs, trees) && i < |fs| && j < |fs|
    ensures Describes(fs + [Item(fs[i].freq + fs[j].freq, Some(i), Some(j), None)],
                      trees + [Node(trees[i], trees[j])])
  {
    var more := trees + [Node(trees[i], trees[j])];
    forall k | 0 <= k < |fs|
      ensures ItemDescribes(fs[k], more, k)
    {
      assert ItemDescribes(fs[k], trees, k);
    }
    assert ItemDescribes(fs[i], trees, i) && ItemDescribes(fs[j], trees, j);
  }

  lemma {:induction false} HeightBelowSymbols(t: Tree, freq: seq<nat>)
    requires WellBuilt(t, freq)
    ensures Height(t) < |Symbols(t)|
  {
    match t
    case Leaf(_, _) =>
    case Node(l, r) =>
      HeightBelowSymbols(l, freq);
      HeightBelowSymbols(r, freq);
      assert |Symbols(l) + Symbols(r)| == |Symbols(l)| + |Symbols(r)|;
  }

  lemma {:induction false} FewSymbols(s: set<nat>, n: nat)
    requires forall x :: x in s ==> x < n
    ensures |s| <= n
  {
    if n == 0 {
      assert s == {};
    } else {
      FewSymbols(s - {n - 1}, n - 1);
      assert s - {n - 1} == if n - 1 in s then s - {n - 1} else s;
    }
  }

  /** Code lengths by the merge loop and the walk: the Huffman lengths of the frequency table. */
  method LengthsByFreq(freq: seq<nat>) returns (r: seq<nat>)
    requires |freq| == 256
    ensures r == CodeLengths(freq)
  {
    hide WriteDepths, Huffman;
    var lens := new nat[256](_ => 0);
    assert lens[..] == Unused(256);
    var fs, used := LeafItems(freq);
    if |fs| == 0 {
      return lens[..];
    }
    ghost var t := RootTree(freq);
    TreeSymbols(t, freq);
    HeightBelowSymbols(t, freq);
    FewSymbols(Symbols(t), 256);
    if |fs| == 1 {
      OnlySymbol(fs, freq);
      lens[fs[0].sym.value] := 1;
      return lens[..];
    }
    ghost var trees;
    fs, used, trees := MergeAll(fs, used, Leaves(freq));
    var root := 0;
    while root < |fs| && used[root]
      invariant 0 <= root <= |fs|
      invariant forall i :: 0 <= i < root ==> used[i]
    {
      root := root + 1;
    }
    RootFound(trees, used, root);
    if root < |fs| {
      WriteLengths(fs, trees, root, 0, lens);
    }
    return lens[..];
  }

  lemma OnlySymbol(fs: seq<Item>, freq: seq<nat>)
    requires |fs| == 1 && Describes(fs, Leaves(freq))
    ensures fs[0].sym.Some? && fs[0].sym.value < |freq|
    ensures CodeLengths(freq) == Unused(|freq|)[fs[0].sym.value := 1]
  {
    assert ItemDescribes(fs[0], Leaves(freq), 0);
    LeavesFacts(freq);
  }

  lemma RootFound(trees: seq<Tree>, used: seq<bool>, root: nat)
    requires |trees| == |used| && |Roots(trees, used)| == 1 && root <= |trees|
    requires forall i :: 0 <= i < root ==> used[i]
    requires root == |trees| || !used[root]
    ensures root < |trees| && trees[root] == Roots(trees, used)[0]
  {
    var i := RootOrigin(trees, used, 0);
    assert i >= root;
    RankBound(trees, used, root);
  }
}
