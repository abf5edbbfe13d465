/**
 Huffman's algorithm on a list of weighted trees: what it builds, why the result is optimal
 and how deep it can be.
 */
module HuffmanTree {
  import opened Sums

  datatype Tree = Leaf(sym: nat, freq: nat) | Node(left: Tree, right: Tree)

  function Weight(t: Tree): nat
  {
    match t
    case Leaf(_, f) => f
    case Node(l, r) => Weight(l) + Weight(r)
  }

  function Height(t: Tree): nat
  {
    match t
    case Leaf(_, _) => 0
    case Node(l, r) => 1 + if Height(l) > Height(r) then Height(l) else Height(r)
  }

  /** The sum over the leaves of frequency times depth. */
  function Cost(t: Tree): nat
  {
    match t
    case Leaf(_, _) => 0
    case Node(l, r) => Cost(l) + Cost(r) + Weight(l) + Weight(r)
  }

  /**
   The lightest of the first n trees, the earliest one on a tie, not looking at position
   `skip`; -1 when there is none.
   */
  function Lightest(ts: seq<Tree>, n: nat, skip: int): (r: int)
    requires n <= |ts|
    ensures -1 <= r < n
    ensures r == -1 <==> n == 0 || (n == 1 && skip == 0)
    ensures r != -1 ==> r != skip && forall i {:trigger ts[i]} {:trigger Before(ts, r, i)} :: 0 <= i < n && i != skip ==> Before(ts, r, i)
  {
    if n == 0 then -1 else
      var b := Lightest(ts, n - 1, skip);
      if n - 1 == skip then b
      else if b == -1 || Weight(ts[n - 1]) < Weight(ts[b]) then n - 1
      else b
  }

  /** The order of selection: by weight, then by position. */
  predicate Before(ts: seq<Tree>, i: nat, j: nat)
    requires i < |ts| && j < |ts|
  {
    Weight(ts[i]) < Weight(ts[j]) || (Weight(ts[i]) == Weight(ts[j]) && i <= j)
  }

  function Merge(ts: seq<Tree>, i: nat, j: nat): (r: seq<Tree>)
    requires i < |ts| && j < |ts| && i != j
    ensures |r| == |ts| - 1
  {
    (if i < j then RemoveAt(RemoveAt(ts, j), i) else RemoveAt(RemoveAt(ts, i), j)) + [Node(ts[i], ts[j])]
  }

  /** Merge the two lightest trees until one is left. */
  function Huffman(ts: seq<Tree>): Tree
    requires |ts| > 0
    decreases |ts|
  {
    if |ts| == 1 then ts[0] else
      var i := Lightest(ts, |ts|, -1);
      var j := Lightest(ts, |ts|, i);
      Huffman(Merge(ts, i, j))
  }

  // ---- Length assignments and the Kraft sum ----

  type Lengths = seq<nat>

  function KraftTerms(l: Lengths, m: nat): (r: seq<nat>)
    requires forall i :: 0 <= i < |l| ==> l[i] <= m
    ensures |r| == |l|
  {
    seq(|l|, i requires 0 <= i < |l| => Pow2(m - l[i]))
  }

  /** The Kraft inequality, the sum of 2^-l being at most one, scaled by 2^m. */
  ghost predicate Kraft(l: Lengths, m: nat)
  {
    && (forall i :: 0 <= i < |l| ==> l[i] <= m)
    && Sum(KraftTerms(l, m)) <= Pow2(m)
  }

  function Products(ws: seq<nat>, l: Lengths): (r: seq<nat>)
    requires |ws| == |l|
    ensures |r| == |ws|
  {
    seq(|ws|, i requires 0 <= i < |ws| => ws[i] * l[i])
  }

  function Weights(ts: seq<Tree>): (r: seq<nat>)
    ensures |r| == |ts|
  {
    seq(|ts|, i requires 0 <= i < |ts| => Weight(ts[i]))
  }

  function Costs(ts: seq<Tree>): (r: seq<nat>)
    ensures |r| == |ts|
  {
    seq(|ts|, i requires 0 <= i < |ts| => Cost(ts[i]))
  }

  /** The total of weight times length. */
  function Total(ts: seq<Tree>, l: Lengths): nat
    requires |ts| == |l|
  {
    Sum(Products(Weights(ts), l))
  }

  // ---- Optimality ----

  lemma {:induction false} EvenTerms(l: Lengths, m: nat)
    requires forall i :: 0 <= i < |l| ==> l[i] < m
    ensures Sum(KraftTerms(l, m)) % 2 == 0
  {
    if l != [] {
      assert KraftTerms(l, m)[1..] == KraftTerms(l[1..], m);
      EvenTerms(l[1..], m);
      assert Pow2(m - l[0]) == 2 * Pow2(m - l[0] - 1);
    }
  }

  lemma TermsUpdate(l: Lengths, m: nat, a: nat, x: nat)
    requires a < |l| && x <= m && forall i :: 0 <= i < |l| ==> l[i] <= m
    ensures Sum(KraftTerms(l[a := x], m)) == Sum(KraftTerms(l, m)) - Pow2(m - l[a]) + Pow2(m - x)
  {
    hide Pow2;
    var terms := KraftTerms(l, m);
    SumUpdate(terms, a, Pow2(m - x));
    assert KraftTerms(l[a := x], m) == terms[a := Pow2(m - x)];
  }

  lemma TermsRemove(l: Lengths, m: nat, a: nat)
    requires a < |l| && forall i :: 0 <= i < |l| ==> l[i] <= m
    ensures Sum(KraftTerms(l, m)) == Sum(KraftTerms(RemoveAt(l, a), m)) + Pow2(m - l[a])
  {
    hide Pow2;
    SumRemove(KraftTerms(l, m), a);
    assert RemoveAt(KraftTerms(l, m), a) == KraftTerms(RemoveAt(l, a), m);
  }

  /** A single longest code can be shortened by one bit. */
  lemma ShortenLongest(l: Lengths, m: nat, a: nat)
    requires Kraft(l, m) && a < |l| && m > 0
    requires l[a] == m && forall i :: 0 <= i < |l| && i != a ==> l[i] < m
    ensures Kraft(l[a := m - 1], m)
  {
    assert Pow2(0) == 1 && Pow2(1) == 2 && Pow2(m) == 2 * Pow2(m - 1);
    hide Sum, KraftTerms, Pow2;
    var rest := RemoveAt(l, a);
    TermsRemove(l, m, a);
    EvenTerms(rest, m);
    TermsUpdate(l, m, a, m - 1);
    assert Sum(KraftTerms(l, m)) == Sum(KraftTerms(rest, m)) + 1;
  }

  lemma {:induction false} KraftHalve(l: Lengths, m: nat)
    requires m > 0 && forall i :: 0 <= i < |l| ==> l[i] < m
    ensures Sum(KraftTerms(l, m)) == 2 * Sum(KraftTerms(l, m - 1))
  {
    if l != [] {
      assert KraftTerms(l, m)[1..] == KraftTerms(l[1..], m);
      assert KraftTerms(l, m - 1)[1..] == KraftTerms(l[1..], m - 1);
      KraftHalve(l[1..], m);
    }
  }

  lemma TotalUpdate(ts: seq<Tree>, l: Lengths, a: nat, x: nat)
    requires |ts| == |l| && a < |l|
    ensures Total(ts, l[a := x]) == Total(ts, l) - Weight(ts[a]) * l[a] + Weight(ts[a]) * x
  {
    var p := Products(Weights(ts), l);
    SumUpdate(p, a, Weight(ts[a]) * x);
    assert Products(Weights(ts), l[a := x]) == p[a := Weight(ts[a]) * x];
  }

  /**
   Lengths that cost no more, with the same Kraft bound, in which two different positions
   carry the longest length.
   */
  lemma {:induction false} TwoLongest(ts: seq<Tree>, l: Lengths, m: nat)
    returns (r: Lengths, n: nat, a: nat, b: nat)
    requires |ts| == |l| >= 2 && Kraft(l, m)
    ensures |r| == |l| && Kraft(r, n) && Total(ts, r) <= Total(ts, l)
    ensures a < |r| && b < |r| && a != b && n > 0
    ensures r[a] == n && r[b] == n
    decreases m, Sum(l)
  {
    if m == 0 {
      SumElement(KraftTerms(l, 0)[1..], 0);
      assert false;
    }
    if forall i :: 0 <= i < |l| ==> l[i] < m {
      KraftHalve(l, m);
      r, n, a, b := TwoLongest(ts, l, m - 1);
    } else {
      a :| 0 <= a < |l| && l[a] == m;
      if exists i :: 0 <= i < |l| && i != a && l[i] == m {
        b :| 0 <= b < |l| && b != a && l[b] == m;
        r, n := l, m;
      } else {
        ShortenLongest(l, m, a);
        TotalUpdate(ts, l, a, m - 1);
        SumUpdate(l, a, m - 1);
        assert Weight(ts[a]) * (m - 1) <= Weight(ts[a]) * m;
        r, n, a, b := TwoLongest(ts, l[a := m - 1], m);
      }
    }
  }

  lemma SwapKraft(l: Lengths, m: nat, i: nat, a: nat)
    requires Kraft(l, m) && i < |l| && a < |l|
    ensures Kraft(l[i := l[a]][a := l[i]], m)
  {
    hide Sum, KraftTerms, Pow2;
    TermsUpdate(l, m, i, l[a]);
    TermsUpdate(l[i := l[a]], m, a, l[i]);
  }

  /** Giving the lighter of two trees the longer code does not cost more. */
  lemma SwapTotal(ts: seq<Tree>, l: Lengths, i: nat, a: nat)
    requires |ts| == |l| && i < |l| && a < |l|
    requires Weight(ts[i]) <= Weight(ts[a]) && l[i] <= l[a]
    ensures Total(ts, l[i := l[a]][a := l[i]]) <= Total(ts, l)
  {
    hide Total;
    TotalUpdate(ts, l, i, l[a]);
    TotalUpdate(ts, l[i := l[a]], a, l[i]);
    if i != a {
      Rearrange(Weight(ts[i]), Weight(ts[a]), l[i], l[a]);
    }
  }

  lemma Rearrange(v: nat, w: nat, x: nat, y: nat)
    requires v <= w && x <= y
    ensures v * y + w * x <= v * x + w * y
  {
    assert (w - v) * (y - x) >= 0;
    assert (w - v) * (y - x) == w * y - w * x - v * y + v * x;
  }

  /** The two lightest trees can share the longest length. */
  lemma LightestLongest(ts: seq<Tree>, l: Lengths, m: nat, i: nat, j: nat) returns (r: Lengths, n: nat)
    requires |ts| == |l| >= 2 && Kraft(l, m)
    requires i < |ts| && j < |ts| && i != j
    requires forall k :: 0 <= k < |ts| ==> Weight(ts[i]) <= Weight(ts[k])
    requires forall k :: 0 <= k < |ts| && k != i ==> Weight(ts[j]) <= Weight(ts[k])
    ensures |r| == |l| && Kraft(r, n) && n > 0 && r[i] == n && r[j] == n
    ensures Total(ts, r) <= Total(ts, l)
  {
    hide Total, Sum, KraftTerms;
    var a, b;
    r, n, a, b := TwoLongest(ts, l, m);
    SwapKraft(r, n, i, a);
    SwapTotal(ts, r, i, a);
    var c := if b == i then a else b;
    r := r[i := r[a]][a := r[i]];
    SwapKraft(r, n, j, c);
    SwapTotal(ts, r, j, c);
    r := r[j := r[c]][c := r[j]];
  }

  function MergeLengths(l: Lengths, i: nat, j: nat, x: nat): (r: Lengths)
    requires i < |l| && j < |l| && i != j
    ensures |r| == |l| - 1
  {
    (if i < j then RemoveAt(RemoveAt(l, j), i) else RemoveAt(RemoveAt(l, i), j)) + [x]
  }

  /** Two siblings at depth n stand for one node at depth n - 1. */
  lemma MergeKraft(l: Lengths, n: nat, i: nat, j: nat)
    requires Kraft(l, n) && i < j < |l| && n > 0 && l[i] == n && l[j] == n
    ensures Kraft(MergeLengths(l, i, j, n - 1), n)
    ensures MergeLengths(l, j, i, n - 1) == MergeLengths(l, i, j, n - 1)
  {
    var rest := RemoveAt(RemoveAt(l, j), i);
    assert Sum(KraftTerms(rest + [n - 1], n)) == Sum(KraftTerms(rest, n)) + 2 by {
      assert KraftTerms(rest + [n - 1], n) == KraftTerms(rest, n) + [2];
      SumConcat(KraftTerms(rest, n), [2]);
    }
    hide Sum, KraftTerms;
    TermsRemove(l, n, j);
    TermsRemove(RemoveAt(l, j), n, i);
  }

  lemma TotalRemove(ts: seq<Tree>, l: Lengths, a: nat)
    requires |ts| == |l| && a < |l|
    ensures Total(ts, l) == Total(RemoveAt(ts, a), RemoveAt(l, a)) + Weight(ts[a]) * l[a]
    ensures Sum(Costs(ts)) == Sum(Costs(RemoveAt(ts, a))) + Cost(ts[a])
  {
    hide Weight, Cost;
    var p := Products(Weights(ts), l);
    SumRemove(p, a);
    assert RemoveAt(p, a) == Products(Weights(RemoveAt(ts, a)), RemoveAt(l, a));
    SumRemove(Costs(ts), a);
    assert RemoveAt(Costs(ts), a) == Costs(RemoveAt(ts, a));
  }

  lemma TotalAppend(ts: seq<Tree>, l: Lengths, t: Tree, x: nat)
    requires |ts| == |l|
    ensures Total(ts + [t], l + [x]) == Total(ts, l) + Weight(t) * x
    ensures Sum(Costs(ts + [t])) == Sum(Costs(ts)) + Cost(t)
  {
    hide Weight, Cost;
    assert Products(Weights(ts + [t]), l + [x]) == Products(Weights(ts), l) + [Weight(t) * x];
    SumConcat(Products(Weights(ts), l), [Weight(t) * x]);
    assert Costs(ts + [t]) == Costs(ts) + [Cost(t)];
    SumConcat(Costs(ts), [Cost(t)]);
  }

  /** Merging moves one bit of length from the lengths into the cost of the merged tree. */
  lemma MergeTotal(ts: seq<Tree>, l: Lengths, n: nat, i: nat, j: nat)
    requires |ts| == |l| && i < |l| && j < |l| && i != j && n > 0 && l[i] == n && l[j] == n
    ensures Sum(Costs(ts)) + Total(ts, l)
            == Sum(Costs(Merge(ts, i, j))) + Total(Merge(ts, i, j), MergeLengths(l, i, j, n - 1))
  {
    hide Total, Sum, Costs;
    var hi, lo := (if i < j then j else i), if i < j then i else j;
    var ts1, l1 := RemoveAt(ts, hi), RemoveAt(l, hi);
    var ts2, l2 := RemoveAt(ts1, lo), RemoveAt(l1, lo);
    TotalRemove(ts, l, hi);
    TotalRemove(ts1, l1, lo);
    var t := Node(ts[i], ts[j]);
    TotalAppend(ts2, l2, t, n - 1);
    Distribute(Weight(ts[i]), Weight(ts[j]), n);
  }

  lemma Distribute(v: nat, w: nat, n: nat)
    requires n > 0
    ensures v * n + w * n == (v + w) * (n - 1) + v + w
  {}

  /** No lengths that satisfy the Kraft inequality cost less than Huffman's tree. */
  lemma {:induction false} HuffmanIsOptimal(ts: seq<Tree>, l: Lengths, m: nat)
    requires |ts| == |l| > 0 && Kraft(l, m)
    ensures Cost(Huffman(ts)) <= Sum(Costs(ts)) + Total(ts, l)
    decreases |ts|
  {
    hide Total, Kraft;
    if |ts| == 1 {
      SumElement(Costs(ts), 0);
    } else {
      hide Sum, Costs;
      var i := Lightest(ts, |ts|, -1);
      var j := Lightest(ts, |ts|, i);
      forall k | 0 <= k < |ts|
        ensures Weight(ts[i]) <= Weight(ts[k])
        ensures k != i ==> Weight(ts[j]) <= Weight(ts[k])
      {
        assert Before(ts, i, k);
        assert k != i ==> Before(ts, j, k);
      }
      var r, n := LightestLongest(ts, l, m, i, j);
      if i < j { MergeKraft(r, n, i, j); } else { MergeKraft(r, n, j, i); }
      HuffmanIsOptimal(Merge(ts, i, j), MergeLengths(r, i, j, n - 1), n);
      MergeTotal(ts, r, n, i, j);
    }
  }

  // ---- What merging keeps ----

  function Symbols(t: Tree): set<nat>
  {
    match t
    case Leaf(s, _) => {s}
    case Node(l, r) => Symbols(l) + Symbols(r)
  }

  /** The two sides weigh the same. */
  predicate Even(t: Tree)
  {
    t.Node? ==> Weight(t.left) == Weight(t.right)
  }

  /** No lighter than t, and as light only if t is even. */
  predicate Above(w: nat, t: Tree)
  {
    w > Weight(t) || (w == Weight(t) && Even(t))
  }

  predicate AboveChildren(w: nat, t: Tree)
  {
    t.Node? ==> Above(w, t.left) && Above(w, t.right)
  }

  /** At least as heavy as either child of t twice over. */
  predicate TwiceChildren(w: nat, t: Tree)
  {
    t.Node? ==> w >= 2 * Weight(t.left) && w >= 2 * Weight(t.right)
  }

  /**
   A tree over the frequency table: no symbol twice, and no node lighter than a niece, or as
   light as a niece that is not even.
   */
  ghost predicate WellBuilt(t: Tree, freq: seq<nat>)
  {
    match t
    case Leaf(s, f) => s < |freq| && freq[s] == f && f > 0
    case Node(l, r) =>
      && WellBuilt(l, freq) && WellBuilt(r, freq)
      && Symbols(l) !! Symbols(r)
      && AboveChildren(Weight(r), l) && AboveChildren(Weight(l), r)
  }

  /** Any two trees of a list could be siblings, and a merged tree is followed only by heavier ones. */
  ghost predicate Ordered(ts: seq<Tree>)
  {
    && (forall i, j :: 0 <= i < |ts| && 0 <= j < |ts| && i != j ==> AboveChildren(Weight(ts[j]), ts[i]))
    && (forall i, j :: 0 <= i < j < |ts| ==> TwiceChildren(Weight(ts[j]), ts[i]))
  }

  ghost predicate Forest(ts: seq<Tree>, freq: seq<nat>)
  {
    && (forall i :: 0 <= i < |ts| ==> WellBuilt(ts[i], freq))
    && (forall i, j :: 0 <= i < |ts| && 0 <= j < |ts| && i != j ==> Symbols(ts[i]) !! Symbols(ts[j]))
    && Ordered(ts)
  }

  ghost function AllSymbols(ts: seq<Tree>): set<nat>
  {
    if ts == [] then {} else Symbols(ts[0]) + AllSymbols(ts[1..])
  }

  lemma {:induction false} AllSymbolsConcat(ts: seq<Tree>, us: seq<Tree>)
    ensures AllSymbols(ts + us) == AllSymbols(ts) + AllSymbols(us)
  {
    if ts == [] {
      assert ts + us == us;
    } else {
      assert (ts + us)[1..] == ts[1..] + us;
      AllSymbolsConcat(ts[1..], us);
    }
  }

  lemma AllSymbolsCons(t: Tree, us: seq<Tree>)
    ensures AllSymbols([t] + us) == Symbols(t) + AllSymbols(us)
  {
    hide Symbols;
    assert ([t] + us)[1..] == us;
  }

  lemma AllSymbolsRemove(ts: seq<Tree>, i: nat)
    requires i < |ts|
    ensures AllSymbols(ts) == AllSymbols(RemoveAt(ts, i)) + Symbols(ts[i])
  {
    hide Symbols, AllSymbols;
    var before, t, after := ts[..i], ts[i], ts[i + 1..];
    SplitAt(ts, i);
    AllSymbolsConcat(before, [t] + after);
    AllSymbolsCons(t, after);
    AllSymbolsConcat(before, after);
    UnionSwap(AllSymbols(before), Symbols(t), AllSymbols(after));
  }

  lemma UnionSwap(a: set<nat>, b: set<nat>, c: set<nat>)
    ensures a + (b + c) == a + c + b
  {}

  lemma NodeSymbols(l: Tree, r: Tree)
    ensures Symbols(Node(l, r)) == Symbols(l) + Symbols(r)
  {}

  lemma AllSymbolsMerge(ts: seq<Tree>, i: nat, j: nat)
    requires i < |ts| && j < |ts| && i != j
    ensures AllSymbols(Merge(ts, i, j)) == AllSymbols(ts)
  {
    hide AllSymbols, Symbols;
    var hi, lo := (if i < j then j else i), if i < j then i else j;
    var rest := RemoveAt(RemoveAt(ts, hi), lo);
    AllSymbolsRemove(ts, hi);
    AllSymbolsRemove(RemoveAt(ts, hi), lo);
    assert RemoveAt(ts, hi)[lo] == ts[lo];
    var t := Node(ts[i], ts[j]);
    AllSymbolsConcat(rest, [t]);
    OneTree(t);
    NodeSymbols(ts[i], ts[j]);
    hide RemoveAt, Merge;
    UnionSwap(AllSymbols(rest), Symbols(ts[i]), Symbols(ts[j]));
    UnionSwap(AllSymbols(rest), Symbols(ts[j]), Symbols(ts[i]));
  }

  lemma OneTree(t: Tree)
    ensures AllSymbols([t]) == Symbols(t)
    ensures Sum(Weights([t])) == Weight(t)
  {
    assert [t][1..] == [];
    assert Weights([t])[1..] == [];
  }

  lemma RemovedFrom(ts: seq<Tree>, i: nat, a: nat)
    requires i < |ts| && a < |ts| - 1
    ensures RemoveAt(ts, i)[a] == ts[if a < i then a else a + 1]
  {}

  lemma OrderedRemove(ts: seq<Tree>, i: nat)
    requires i < |ts| && Ordered(ts)
    ensures Ordered(RemoveAt(ts, i))
  {
    hide AboveChildren, TwiceChildren, Weight, RemoveAt;
    var us := RemoveAt(ts, i);
    forall a | 0 <= a < |us| ensures us[a] == ts[if a < i then a else a + 1] { RemovedFrom(ts, i, a); }
  }

  lemma ForestRemove(ts: seq<Tree>, freq: seq<nat>, i: nat)
    requires i < |ts| && Forest(ts, freq)
    ensures Forest(RemoveAt(ts, i), freq)
  {
    hide WellBuilt, Symbols, Ordered, RemoveAt;
    var us := RemoveAt(ts, i);
    OrderedRemove(ts, i);
    forall a | 0 <= a < |us| ensures us[a] == ts[if a < i then a else a + 1] { RemovedFrom(ts, i, a); }
  }

  /** A tree that may stand at the end of the list. */
  ghost predicate Follows(t: Tree, s: Tree)
  {
    AboveChildren(Weight(t), s) && TwiceChildren(Weight(t), s) && AboveChildren(Weight(s), t)
  }

  lemma ForestAppend(ts: seq<Tree>, freq: seq<nat>, t: Tree)
    requires Forest(ts, freq) && WellBuilt(t, freq)
    requires forall i :: 0 <= i < |ts| ==> Symbols(ts[i]) !! Symbols(t) && Follows(t, ts[i])
    ensures Forest(ts + [t], freq)
  {
    hide WellBuilt, Symbols, AboveChildren, TwiceChildren, Weight;
  }

  /** Where the trees that survive a merge came from. */
  lemma MergeOrigin(ts: seq<Tree>, lo: nat, hi: nat, q: nat)
    requires lo < hi < |ts| && q < |ts| - 2
    ensures var k := if q < lo then q else if q + 1 < hi then q + 1 else q + 2;
            k != lo && k != hi && RemoveAt(RemoveAt(ts, hi), lo)[q] == ts[k]
  {}

  /** The two that were taken come before k in the order of selection. */
  ghost predicate TakenBefore(ts: seq<Tree>, i: nat, j: nat, k: nat)
    requires i < |ts| && j < |ts| && k < |ts|
  {
    Before(ts, i, k) && Before(ts, j, k)
  }

  /** A tree that comes later in the order is above the earlier one. */
  lemma LaterIsAbove(ts: seq<Tree>, i: nat, k: nat)
    requires Ordered(ts) && i < |ts| && k < |ts| && i != k && Before(ts, i, k)
    ensures Above(Weight(ts[k]), ts[i])
  {
    if Weight(ts[k]) == Weight(ts[i]) { assert TwiceChildren(Weight(ts[k]), ts[i]); }
  }

  lemma MergedFollows(ts: seq<Tree>, i: nat, j: nat, k: nat)
    requires Ordered(ts) && i < |ts| && j < |ts| && k < |ts| && i != j && k != i && k != j
    requires TakenBefore(ts, i, j, k) && Weight(ts[i]) > 0 && Weight(ts[j]) > 0
    ensures Follows(Node(ts[i], ts[j]), ts[k])
  {
    LaterIsAbove(ts, i, k);
    LaterIsAbove(ts, j, k);
    assert AboveChildren(Weight(ts[i]), ts[k]) && AboveChildren(Weight(ts[j]), ts[k]);
  }

  lemma {:induction false} WeightPositive(t: Tree, freq: seq<nat>)
    requires WellBuilt(t, freq)
    ensures Weight(t) > 0
  {
    match t
    case Leaf(_, _) =>
    case Node(l, r) => WeightPositive(l, freq);
  }

  lemma MergedWellBuilt(ts: seq<Tree>, freq: seq<nat>, i: nat, j: nat)
    requires Forest(ts, freq) && i < |ts| && j < |ts| && i != j
    ensures WellBuilt(Node(ts[i], ts[j]), freq) && Weight(ts[i]) > 0 && Weight(ts[j]) > 0
  {
    WeightPositive(ts[i], freq);
    WeightPositive(ts[j], freq);
  }

  lemma MergeForest(ts: seq<Tree>, freq: seq<nat>, i: nat, j: nat)
    requires Forest(ts, freq) && i < |ts| && j < |ts| && i != j
    requires forall k :: 0 <= k < |ts| && k != i && k != j ==> TakenBefore(ts, i, j, k)
    ensures Forest(Merge(ts, i, j), freq)
  {
    hide WellBuilt, Ordered, Weight, TakenBefore, Follows;
    var hi, lo := (if i < j then j else i), if i < j then i else j;
    var rest, t := RemoveAt(RemoveAt(ts, hi), lo), Node(ts[i], ts[j]);
    ForestRemove(ts, freq, hi);
    ForestRemove(RemoveAt(ts, hi), freq, lo);
    MergedWellBuilt(ts, freq, i, j);
    forall q | 0 <= q < |rest| ensures Symbols(rest[q]) !! Symbols(t) && Follows(t, rest[q]) {
      MergeOrigin(ts, lo, hi, q);
      var k := if q < lo then q else if q + 1 < hi then q + 1 else q + 2;
      MergedFollows(ts, i, j, k);
    }
    hide Forest;
    ForestAppend(rest, freq, t);
  }

  /** Huffman's tree holds every symbol once, in sibling order, with the total weight at its root. */
  lemma {:induction false} HuffmanWellBuilt(ts: seq<Tree>, freq: seq<nat>)
    requires |ts| > 0 && Forest(ts, freq)
    ensures WellBuilt(Huffman(ts), freq)
    ensures Symbols(Huffman(ts)) == AllSymbols(ts)
    ensures Weight(Huffman(ts)) == Sum(Weights(ts))
    decreases |ts|
  {
    hide WellBuilt, Symbols, Weight, Merge;
    if |ts| == 1 {
      OneTree(ts[0]);
      assert ts == [ts[0]];
    } else {
      hide AllSymbols, Sum, Weights;
      var i := Lightest(ts, |ts|, -1);
      var j := Lightest(ts, |ts|, i);
      forall k | 0 <= k < |ts| && k != i && k != j ensures TakenBefore(ts, i, j, k) {
        assert Before(ts, i, k) && Before(ts, j, k);
      }
      MergeForest(ts, freq, i, j);
      AllSymbolsMerge(ts, i, j);
      MergeWeights(ts, i, j);
      HuffmanWellBuilt(Merge(ts, i, j), freq);
    }
  }

  lemma WeightsRemove(ts: seq<Tree>, i: nat)
    requires i < |ts|
    ensures Sum(Weights(ts)) == Sum(Weights(RemoveAt(ts, i))) + Weight(ts[i])
  {
    hide Weight;
    SumRemove(Weights(ts), i);
    assert RemoveAt(Weights(ts), i) == Weights(RemoveAt(ts, i));
  }

  lemma MergeWeights(ts: seq<Tree>, i: nat, j: nat)
    requires i < |ts| && j < |ts| && i != j
    ensures Sum(Weights(Merge(ts, i, j))) == Sum(Weights(ts))
  {
    hide Sum;
    var hi, lo := (if i < j then j else i), if i < j then i else j;
    var rest, t := RemoveAt(RemoveAt(ts, hi), lo), Node(ts[i], ts[j]);
    WeightsRemove(ts, hi);
    WeightsRemove(RemoveAt(ts, hi), lo);
    assert Weights(rest + [t]) == Weights(rest) + [Weight(t)];
    assert Weights([t]) == [Weight(t)];
    SumConcat(Weights(rest), [Weight(t)]);
    OneTree(t);
  }

  // ---- The Fibonacci bound on the depth ----

  function Fib(n: nat): nat
  {
    if n < 2 then n else Fib(n - 1) + Fib(n - 2)
  }

  lemma {:induction false} FibMonotone(m: nat, n: nat)
    requires m <= n
    ensures Fib(m) <= Fib(n)
    decreases n
  {
    if m < n {
      FibMonotone(m, n - 1);
    }
  }

  /** The least weight of a tree of a height. */
  function Least(h: nat): nat
  {
    if h == 0 then 1 else if h == 1 then 2
    else FibMonotone(1, h + 1); 2 * Fib(h + 1) - 1
  }

  /** A tree of height h and its child of height h - 1. */
  lemma LeastStep(n: nat)
    requires n >= 2
    ensures Least(n + 1) <= Least(n) + Least(n - 1) + 1 && (n == 2 ==> Least(n + 1) == Least(n) + Least(n - 1))
    ensures Least(n + 1) < 2 * Least(n)
  {
    FibMonotone(1, n - 1);
    assert Fib(n + 2) == Fib(n + 1) + Fib(n) && Fib(n + 1) == Fib(n) + Fib(n - 1);
    assert n == 2 ==> Fib(1) == 1 && Fib(2) == 1 && Fib(3) == 2 && Fib(4) == 3;
  }

  lemma {:induction false} LeastGrows(m: nat, n: nat)
    requires m <= n
    ensures Least(m) <= Least(n)
  {
    assert Fib(1) == 1 && Fib(2) == 1 && Fib(3) == 2;
    if 1 < m { FibMonotone(m + 1, n + 1); } else if 1 < n { FibMonotone(3, n + 1); }
  }

  /** As heavy as its height asks, and heavier by one if it is even. */
  ghost predicate Heavy(t: Tree)
  {
    Weight(t) >= Least(Height(t)) && (Height(t) >= 2 && Even(t) ==> Weight(t) > Least(Height(t)))
  }

  ghost predicate HeavyChildren(t: Tree)
  {
    t.Node? ==> Heavy(t.left) && Heavy(t.right)
  }

  /** A deep tree is heavy: a leaf at depth d forces a total weight of at least 2 Fib(d + 1) - 1. */
  lemma {:induction false} DeepIsHeavy(t: Tree, freq: seq<nat>)
    requires WellBuilt(t, freq)
    ensures Heavy(t) && HeavyChildren(t)
    decreases t
  {
    hide Heavy;
    match t
    case Leaf(s, f) =>
      LeafIsHeavy(s, f);
    case Node(l, r) =>
      hide AboveChildren, Symbols;
      DeepIsHeavy(l, freq);
      DeepIsHeavy(r, freq);
      WeightPositive(l, freq);
      WeightPositive(r, freq);
      NodeIsHeavy(l, r);
  }

  lemma LeafIsHeavy(s: nat, f: nat)
    requires f > 0
    ensures Heavy(Leaf(s, f))
  {}

  lemma NodeIsHeavy(l: Tree, r: Tree)
    requires Heavy(l) && Heavy(r) && HeavyChildren(l) && HeavyChildren(r) && Weight(l) > 0 && Weight(r) > 0
    requires AboveChildren(Weight(r), l) && AboveChildren(Weight(l), r)
    ensures Heavy(Node(l, r))
  {
    hide AboveChildren, HeavyChildren, Least;
    if Height(l) >= Height(r) { DeepSide(l, r); } else { DeepSide(r, l); }
  }

  /** The deeper child and its sibling together. */
  lemma DeepSide(p: Tree, q: Tree)
    requires Heavy(p) && HeavyChildren(p) && Weight(q) > 0 && AboveChildren(Weight(q), p)
    ensures var w, h := Weight(p) + Weight(q), 1 + Height(p);
            w >= Least(h) && (h >= 2 && Weight(p) == Weight(q) ==> w > Least(h))
  {
    var n := Height(p);
    if n >= 2 {
      var x := if Height(p.left) > Height(p.right) then p.left else p.right;
      DeepNiece(p, q, x);
    } else {
      assert Fib(1) == 1 && Fib(2) == 1 && Fib(3) == 2;
    }
  }

  lemma DeepNiece(p: Tree, q: Tree, x: Tree)
    requires Heavy(p) && Heavy(x) && Above(Weight(q), x) && Height(p) == 1 + Height(x) >= 2
    ensures var w, h := Weight(p) + Weight(q), 1 + Height(p);
            w >= Least(h) && (Weight(p) == Weight(q) ==> w > Least(h))
  {
    hide Fib, Least, Weight, Height, Even;
    LeastStep(Height(p));
  }

  // ---- Code lengths read off the tree ----

  /** The depth of every leaf of t, written into a length table by a walk from depth d. */
  function WriteDepths(lens: seq<nat>, t: Tree, d: nat): (r: seq<nat>)
    requires forall s :: s in Symbols(t) ==> s < |lens|
    ensures |r| == |lens|
    decreases t
  {
    match t
    case Leaf(s, _) => assert s in Symbols(t); lens[s := if d > 1 then d else 1]
    case Node(l, r) =>
      assert Symbols(l) <= Symbols(t) && Symbols(r) <= Symbols(t);
      WriteDepths(WriteDepths(lens, l, d + 1), r, d + 1)
  }

  lemma {:induction false} WriteDepthsValues(lens: seq<nat>, t: Tree, d: nat)
    requires forall s :: s in Symbols(t) ==> s < |lens|
    ensures var r := WriteDepths(lens, t, d);
            forall s: nat :: s < |lens| ==>
                               if s in Symbols(t) then 0 < r[s] <= (if d + Height(t) > 1 then d + Height(t) else 1)
                               else r[s] == lens[s]
    decreases t
  {
    match t
    case Leaf(_, _) =>
    case Node(l, r) =>
      assert Symbols(l) <= Symbols(t) && Symbols(r) <= Symbols(t);
      WriteDepthsValues(lens, l, d + 1);
      WriteDepthsValues(WriteDepths(lens, l, d + 1), r, d + 1);
  }

  ghost predicate Unset(lens: seq<nat>, t: Tree)
  {
    forall s :: s in Symbols(t) ==> s < |lens| && lens[s] == 0
  }

  lemma UnsetChildren(lens: seq<nat>, t: Tree, freq: seq<nat>, d: nat)
    requires t.Node? && WellBuilt(t, freq) && Unset(lens, t)
    ensures Unset(lens, t.left) && Unset(WriteDepths(lens, t.left, d), t.right)
  {
    assert Symbols(t.left) <= Symbols(t) && Symbols(t.right) <= Symbols(t);
    WriteDepthsValues(lens, t.left, d);
  }

  /** The written lengths account for the cost of the tree. */
  lemma {:induction false} WriteDepthsCost(lens: seq<nat>, t: Tree, d: nat, freq: seq<nat>)
    requires WellBuilt(t, freq) && |lens| == |freq| && Unset(lens, t) && d > 0
    ensures Sum(Products(freq, WriteDepths(lens, t, d))) == Sum(Products(freq, lens)) + Cost(t) + d * Weight(t)
    decreases t
  {
    hide Products, Sum;
    match t
    case Leaf(s, f) =>
      ProductsUpdate(freq, lens, s, d);
    case Node(l, r) =>
      UnsetChildren(lens, t, freq, d + 1);
      WriteDepthsCost(lens, l, d + 1, freq);
      WriteDepthsCost(WriteDepths(lens, l, d + 1), r, d + 1, freq);
      OneDeeper(Weight(l), Weight(r), d);
  }

  lemma OneDeeper(v: nat, w: nat, d: nat)
    ensures (d + 1) * v + (d + 1) * w == d * (v + w) + v + w
  {}

  lemma ProductsUpdate(freq: seq<nat>, lens: seq<nat>, s: nat, d: nat)
    requires |freq| == |lens| && s < |lens| && lens[s] == 0
    ensures Sum(Products(freq, lens[s := d])) == Sum(Products(freq, lens)) + freq[s] * d
  {
    var p := Products(freq, lens);
    SumUpdate(p, s, freq[s] * d);
    assert Products(freq, lens[s := d]) == p[s := freq[s] * d];
    assert p[s] == 0;
  }

  /** The Kraft terms of the symbols in use; a length of zero means the symbol is not in use. */
  function UsedTerms(lens: seq<nat>, m: nat): (r: seq<nat>)
    requires forall s :: 0 <= s < |lens| ==> lens[s] <= m
    ensures |r| == |lens|
  {
    seq(|lens|, s requires 0 <= s < |lens| => if lens[s] == 0 then 0 else Pow2(m - lens[s]))
  }

  lemma UsedTermsUpdate(lens: seq<nat>, s: nat, d: nat, m: nat)
    requires s < |lens| && lens[s] == 0 && 0 < d <= m
    requires forall i :: 0 <= i < |lens| ==> lens[i] <= m
    ensures Sum(UsedTerms(lens[s := d], m)) == Sum(UsedTerms(lens, m)) + Pow2(m - d)
  {
    hide Pow2;
    var u := UsedTerms(lens, m);
    SumUpdate(u, s, Pow2(m - d));
    assert UsedTerms(lens[s := d], m) == u[s := Pow2(m - d)];
  }

  /** The leaves of a subtree at depth d fill exactly its share 2^-d of the code space. */
  lemma {:induction false} WriteDepthsKraft(lens: seq<nat>, t: Tree, d: nat, freq: seq<nat>, m: nat)
    requires WellBuilt(t, freq) && Unset(lens, t) && d > 0 && d + Height(t) <= m
    requires forall s :: 0 <= s < |lens| ==> lens[s] <= m
    ensures forall s :: 0 <= s < |lens| ==> WriteDepths(lens, t, d)[s] <= m
    ensures Sum(UsedTerms(WriteDepths(lens, t, d), m)) == Sum(UsedTerms(lens, m)) + Pow2(m - d)
    decreases t
  {
    hide UsedTerms, Sum;
    match t
    case Leaf(s, _) =>
      assert s in Symbols(t);
      UsedTermsUpdate(lens, s, d, m);
    case Node(l, r) =>
      UnsetChildren(lens, t, freq, d + 1);
      WriteDepthsKraft(lens, l, d + 1, freq, m);
      WriteDepthsKraft(WriteDepths(lens, l, d + 1), r, d + 1, freq, m);
      assert Pow2(m - d) == 2 * Pow2(m - (d + 1));
  }
}
