/**
 Canonical codes: the code of every symbol is fixed by the table of code lengths alone
 (section 3.2.2 of RFC 1951). The compressor assigns codes one after the other in
 (length, symbol) order; the decompressor works from the first code and the number of codes
 of every length. Both are the codes of `Code`.
 */
module Canonical {
  import opened Sums
  import opened PrefixCodes
  import HuffmanTree

  // ---- Numbers as bits, most significant first ----

  function ToBits(v: nat, n: nat): (r: Bits)
    ensures |r| == n
  {
    if n == 0 then [] else ToBits(v / 2, n - 1) + [v % 2 == 1]
  }

  function FromBits(b: Bits): nat
  {
    if b == [] then 0 else 2 * FromBits(b[..|b| - 1]) + if b[|b| - 1] then 1 else 0
  }

  lemma {:induction false} FromToBits(v: nat, n: nat)
    requires v < Pow2(n)
    ensures FromBits(ToBits(v, n)) == v
  {
    if n > 0 {
      FromToBits(v / 2, n - 1);
      assert ToBits(v, n)[..n - 1] == ToBits(v / 2, n - 1);
    }
  }

  lemma {:induction false} ToFromBits(b: Bits)
    ensures FromBits(b) < Pow2(|b|)
    ensures ToBits(FromBits(b), |b|) == b
  {
    if b != [] { ToFromBits(b[..|b| - 1]); }
  }

  lemma SameBits(v: nat, w: nat, n: nat)
    requires v < Pow2(n) && w < Pow2(n) && ToBits(v, n) == ToBits(w, n)
    ensures v == w
  {
    FromToBits(v, n);
    FromToBits(w, n);
  }

  lemma {:induction false} LeadingBits(v: nat, n: nat, d: nat)
    ensures ToBits(v, n + d)[..n] == ToBits(v / Pow2(d), n)
  {
    if d == 0 {
      assert Pow2(0) == 1;
    } else {
      LeadingBits(v / 2, n, d - 1);
      DivTwice(v, Pow2(d - 1));
      assert ToBits(v, n + d)[..n + d - 1] == ToBits(v / 2, n + d - 1);
      assert ToBits(v, n + d)[..n] == ToBits(v, n + d)[..n + d - 1][..n];
    }
  }

  // ---- The code of a symbol ----

  /** How many of the first n symbols have a code of length l. */
  function Count(lens: seq<nat>, l: nat, n: nat): nat
    requires n <= |lens|
  {
    if n == 0 then 0 else Count(lens, l, n - 1) + if lens[n - 1] == l then 1 else 0
  }

  /** The first code of length l. */
  function First(lens: seq<nat>, l: nat): nat
  {
    if l <= 1 then 0 else 2 * (First(lens, l - 1) + Count(lens, l - 1, |lens|))
  }

  function Code(lens: seq<nat>, s: nat): nat
    requires s < |lens|
  {
    First(lens, lens[s]) + Count(lens, lens[s], s)
  }

  function CodeWord(lens: seq<nat>, s: nat): (r: Bits)
    requires s < |lens|
    ensures |r| == lens[s]
  {
    ToBits(Code(lens, s), lens[s])
  }

  /** The share of the code space that codes of length up to l take among the first n symbols. */
  function Taken(lens: seq<nat>, l: nat, m: nat, n: nat): nat
    requires n <= |lens| && l <= m
  {
    if n == 0 then 0
    else Taken(lens, l, m, n - 1) + if 0 < lens[n - 1] <= l then Pow2(m - lens[n - 1]) else 0
  }

  /** Lengths up to m that fit into the code space. */
  ghost predicate Fits(lens: seq<nat>, m: nat)
  {
    && (forall s :: 0 <= s < |lens| ==> lens[s] <= m)
    && Taken(lens, m, m, |lens|) <= Pow2(m)
  }

  lemma {:induction false} TakenStep(lens: seq<nat>, l: nat, m: nat, n: nat)
    requires n <= |lens| && 0 < l <= m
    ensures Taken(lens, l, m, n) == Taken(lens, l - 1, m, n) + Count(lens, l, n) * Pow2(m - l)
  {
    hide Pow2;
    if n > 0 {
      TakenStep(lens, l, m, n - 1);
      if lens[n - 1] == l {
        var c, p := Count(lens, l, n - 1), Pow2(m - l);
        Distribute2(c, 1, p);
      }
    }
  }

  lemma {:induction false} TakenMonotone(lens: seq<nat>, l: nat, k: nat, m: nat, n: nat)
    requires n <= |lens| && l <= k <= m
    ensures Taken(lens, l, m, n) <= Taken(lens, k, m, n)
  {
    if n > 0 { TakenMonotone(lens, l, k, m, n - 1); }
  }

  lemma {:induction false} FirstIsTaken(lens: seq<nat>, l: nat, m: nat)
    requires 0 < l <= m
    ensures First(lens, l) * Pow2(m - l) == Taken(lens, l - 1, m, |lens|)
    decreases l
  {
    if l == 1 {
      NothingTaken(lens, m, |lens|);
    } else {
      var f, c, p := First(lens, l - 1), Count(lens, l - 1, |lens|), Pow2(m - l);
      assert First(lens, l) == 2 * (f + c);
      hide First, Taken, Count;
      FirstIsTaken(lens, l - 1, m);
      TakenStep(lens, l - 1, m, |lens|);
      assert Pow2(m - (l - 1)) == 2 * p;
      Distribute2(f, c, 2 * p);
      DoubleFactor(f + c, p);
    }
  }

  lemma {:induction false} NothingTaken(lens: seq<nat>, m: nat, n: nat)
    requires n <= |lens|
    ensures Taken(lens, 0, m, n) == 0
  {
    if n > 0 { NothingTaken(lens, m, n - 1); }
  }

  /** Every code fits its length. */
  lemma CodesFit(lens: seq<nat>, m: nat, l: nat)
    requires Fits(lens, m) && 0 < l <= m
    ensures First(lens, l) + Count(lens, l, |lens|) <= Pow2(l)
  {
    hide First, Count, Taken, Pow2;
    var f, c, p := First(lens, l), Count(lens, l, |lens|), Pow2(m - l);
    FirstIsTaken(lens, l, m);
    TakenStep(lens, l, m, |lens|);
    TakenMonotone(lens, l, m, m, |lens|);
    Pow2Add(l, m - l);
    Distribute2(f, c, p);
    CancelFactor(f + c, Pow2(l), p);
  }

  lemma {:induction false} CountMonotone(lens: seq<nat>, l: nat, i: nat, j: nat)
    requires i <= j <= |lens|
    ensures Count(lens, l, i) <= Count(lens, l, j)
    ensures i < j && lens[i] == l ==> Count(lens, l, i) < Count(lens, l, j)
  {
    if i < j {
      CountMonotone(lens, l, i, j - 1);
    }
  }

  lemma CodeFits(lens: seq<nat>, m: nat, s: nat)
    requires Fits(lens, m) && s < |lens| && lens[s] > 0
    ensures First(lens, lens[s]) <= Code(lens, s) < First(lens, lens[s]) + Count(lens, lens[s], |lens|) <= Pow2(lens[s])
  {
    CodesFit(lens, m, lens[s]);
    CountMonotone(lens, lens[s], s, |lens|);
  }

  /** Codes of length k come after everything that starts with a shorter code. */
  lemma {:induction false} FirstGrows(lens: seq<nat>, l: nat, k: nat)
    requires 0 < l < k
    ensures First(lens, k) >= (First(lens, l) + Count(lens, l, |lens|)) * Pow2(k - l)
    decreases k
  {
    var a := First(lens, l) + Count(lens, l, |lens|);
    FirstStep(lens, k);
    hide First, Count, Pow2;
    if k == l + 1 {
      PowOfOne();
    } else {
      FirstGrows(lens, l, k - 1);
      Doubling(a * Pow2(k - 1 - l), a, k - 1 - l);
    }
  }

  /** No code word is a prefix of another one. */
  lemma CodeWordsPrefixFree(lens: seq<nat>, m: nat, s: nat, t: nat)
    requires Fits(lens, m) && s < |lens| && t < |lens| && s != t && lens[s] > 0 && lens[t] > 0
    ensures !(CodeWord(lens, s) <= CodeWord(lens, t))
  {
    hide ToBits, First, Pow2;
    CodeFits(lens, m, s);
    CodeFits(lens, m, t);
    var l, k := lens[s], lens[t];
    if l == k {
      if CodeWord(lens, s) == CodeWord(lens, t) {
        SameBits(Code(lens, s), Code(lens, t), l);
        CountMonotone(lens, l, if s < t then s else t, if s < t then t else s);
      }
    } else if l < k {
      LeadingBits(Code(lens, t), l, k - l);
      FirstGrows(lens, l, k);
      var q := Code(lens, t) / Pow2(k - l);
      QuotientAtLeast(Code(lens, t), First(lens, l) + Count(lens, l, |lens|), Pow2(k - l));
      Pow2Add(l, k - l);
      QuotientBelow(Code(lens, t), Pow2(l), Pow2(k - l));
      if CodeWord(lens, s) <= CodeWord(lens, t) {
        assert CodeWord(lens, s) == CodeWord(lens, t)[..l];
        SameBits(Code(lens, s), q, l);
      }
    }
  }

  // ---- Codes in canonical order ----

  /** The order the codes are handed out in: by length, then by symbol. */
  predicate Earlier(lens: seq<nat>, s: nat, t: nat)
    requires s < |lens| && t < |lens|
  {
    lens[s] < lens[t] || (lens[s] == lens[t] && s < t)
  }

  /** What sorting the symbols in use by (length, symbol) yields. */
  ghost predicate IsOrder(lens: seq<nat>, order: seq<nat>)
  {
    && (forall i :: 0 <= i < |order| ==> order[i] < |lens| && lens[order[i]] > 0)
    && (forall i, j :: 0 <= i < j < |order| ==> Earlier(lens, order[i], order[j]))
    && (forall s: nat :: s < |lens| && lens[s] > 0 ==> s in order)
  }

  lemma {:induction false} CountNone(lens: seq<nat>, l: nat, i: nat, j: nat)
    requires i <= j <= |lens| && forall s :: i <= s < j ==> lens[s] != l
    ensures Count(lens, l, j) == Count(lens, l, i)
    decreases j
  {
    if i < j { CountNone(lens, l, i, j - 1); }
  }

  /** Lengths without symbols only shift the first code. */
  lemma {:induction false} FirstSkips(lens: seq<nat>, l: nat, k: nat)
    requires 0 < l < k && forall s :: 0 <= s < |lens| ==> !(l < lens[s] < k)
    ensures First(lens, k) == (First(lens, l) + Count(lens, l, |lens|)) * Pow2(k - l)
    decreases k
  {
    var a := First(lens, l) + Count(lens, l, |lens|);
    FirstStep(lens, k);
    hide First, Count, Pow2;
    if k == l + 1 {
      PowOfOne();
    } else {
      FirstSkips(lens, l, k - 1);
      CountNone(lens, k - 1, 0, |lens|);
      Doubling(First(lens, k - 1), a, k - 1 - l);
    }
  }

  lemma FirstStep(lens: seq<nat>, k: nat)
    requires k > 1
    ensures First(lens, k) == 2 * (First(lens, k - 1) + Count(lens, k - 1, |lens|))
    ensures Count(lens, k - 1, 0) == 0
  {}

  lemma PowOfOne()
    ensures Pow2(1) == 2
  {}

  lemma Doubling(x: nat, a: nat, n: nat)
    requires x == a * Pow2(n)
    ensures 2 * x == a * Pow2(n + 1)
  {
    DoubleFactor(a, Pow2(n));
  }

  lemma {:induction false} FirstIsZero(lens: seq<nat>, k: nat)
    requires forall s :: 0 <= s < |lens| ==> !(0 < lens[s] < k)
    ensures First(lens, k) == 0
    decreases k
  {
    if k > 1 {
      FirstIsZero(lens, k - 1);
      CountNone(lens, k - 1, 0, |lens|);
    }
  }

  /** The earliest symbol has code zero. */
  lemma FirstCode(lens: seq<nat>, order: seq<nat>)
    requires IsOrder(lens, order) && |order| > 0
    ensures Code(lens, order[0]) == 0
  {
    var s := order[0];
    forall t: nat | t < |lens| && lens[t] > 0 && t != s
      ensures Earlier(lens, s, t)
    {
      var i :| 0 <= i < |order| && order[i] == t;
    }
    FirstIsZero(lens, lens[s]);
    CountNone(lens, lens[s], 0, s);
  }

  /** The next symbol's code is the previous one plus one, extended to the new length. */
  lemma NextCode(lens: seq<nat>, order: seq<nat>, i: nat)
    requires IsOrder(lens, order) && 0 < i < |order|
    ensures lens[order[i - 1]] <= lens[order[i]]
    ensures Code(lens, order[i]) == (Code(lens, order[i - 1]) + 1) * Pow2(lens[order[i]] - lens[order[i - 1]])
  {
    var s, t := order[i - 1], order[i];
    forall u: nat | u < |lens| && lens[u] > 0
      ensures !(Earlier(lens, s, u) && Earlier(lens, u, t))
    {
      var j :| 0 <= j < |order| && order[j] == u;
      if j < i - 1 { assert Earlier(lens, order[j], order[i - 1]); }
      if j > i { assert Earlier(lens, order[i], order[j]); }
    }
    assert Earlier(lens, s, t);
    hide IsOrder;
    var l, k := lens[s], lens[t];
    CountNext(lens, s);
    if l == k {
      CountNone(lens, l, s + 1, t);
      assert Pow2(0) == 1;
    } else {
      CountNone(lens, l, s + 1, |lens|);
      CountNone(lens, k, 0, t);
      FirstSkips(lens, l, k);
    }
  }

  lemma CountNext(lens: seq<nat>, s: nat)
    requires s < |lens|
    ensures Count(lens, lens[s], s + 1) == Count(lens, lens[s], s) + 1
  {}

  // ---- The symbols of one length ----

  /**
   The code space, of 2^m, that the first n symbols take which come before s: those with a shorter
   code, and those with a code as long and a smaller number.
   */
  ghost function SpaceBefore(lens: seq<nat>, s: nat, m: nat, n: nat): nat
    requires s < |lens| && n <= |lens| && lens[s] <= m
  {
    if n == 0 then 0
    else
      var t := n - 1;
      SpaceBefore(lens, s, m, t) +
      if 0 < lens[t] && (lens[t] < lens[s] || (lens[t] == lens[s] && t < s)) then Pow2(m - lens[t]) else 0
  }

  lemma {:induction false} SpaceSplits(lens: seq<nat>, s: nat, m: nat, n: nat)
    requires s < |lens| && n <= |lens| && 0 < lens[s] <= m
    ensures SpaceBefore(lens, s, m, n) ==
            Taken(lens, lens[s] - 1, m, n) + Count(lens, lens[s], if n < s then n else s) * Pow2(m - lens[s])
  {
    hide Pow2;
    if n > 0 {
      SpaceSplits(lens, s, m, n - 1);
      if lens[n - 1] == lens[s] && n <= s { Distribute2(Count(lens, lens[s], n - 1), 1, Pow2(m - lens[s])); }
    }
  }

  /** A code, as a share of the code space, is where the codes before it end. */
  lemma CodeIsWhereOthersEnd(lens: seq<nat>, s: nat, m: nat)
    requires s < |lens| && 0 < lens[s] <= m
    ensures Code(lens, s) * Pow2(m - lens[s]) == SpaceBefore(lens, s, m, |lens|)
  {
    hide Pow2, First, Taken;
    SpaceSplits(lens, s, m, |lens|);
    FirstIsTaken(lens, lens[s], m);
    Distribute2(First(lens, lens[s]), Count(lens, lens[s], s), Pow2(m - lens[s]));
  }

  function SymbolsOf(lens: seq<nat>, l: nat, n: nat): (r: seq<nat>)
    requires n <= |lens|
    ensures |r| == Count(lens, l, n)
  {
    if n == 0 then [] else SymbolsOf(lens, l, n - 1) + if lens[n - 1] == l then [n - 1] else []
  }

  lemma {:induction false} SymbolsOfEntry(lens: seq<nat>, l: nat, n: nat, k: nat)
    requires n <= |lens| && k < Count(lens, l, n)
    ensures var s := SymbolsOf(lens, l, n)[k];
            s < n && lens[s] == l && Count(lens, l, s) == k
  {
    if k < Count(lens, l, n - 1) { SymbolsOfEntry(lens, l, n - 1, k); }
  }

  /** A number in the range of codes of length l is the code of the symbol listed there. */
  lemma CodeInRange(lens: seq<nat>, l: nat, code: nat)
    requires First(lens, l) <= code < First(lens, l) + Count(lens, l, |lens|)
    ensures var s := SymbolsOf(lens, l, |lens|)[code - First(lens, l)];
            s < |lens| && lens[s] == l && Code(lens, s) == code
  {
    SymbolsOfEntry(lens, l, |lens|, code - First(lens, l));
  }

  // ---- Encoded messages ----

  ghost predicate Codable(lens: seq<nat>, data: seq<nat>)
  {
    forall i :: 0 <= i < |data| ==> data[i] < |lens| && lens[data[i]] > 0
  }

  function Encode(lens: seq<nat>, data: seq<nat>): Bits
    requires forall i :: 0 <= i < |data| ==> data[i] < |lens|
  {
    if data == [] then []
    else Encode(lens, data[..|data| - 1]) + CodeWord(lens, data[|data| - 1])
  }

  lemma {:induction false} EncodeFront(lens: seq<nat>, data: seq<nat>)
    requires data != [] && forall i :: 0 <= i < |data| ==> data[i] < |lens|
    ensures Encode(lens, data) == CodeWord(lens, data[0]) + Encode(lens, data[1..])
  {
    hide CodeWord;
    var last := |data| - 1;
    if last == 0 {
      assert data[..0] == [] && data[1..] == [];
    } else {
      var front, tail := data[..last], data[1..];
      EncodeFront(lens, front);
      assert tail[..last - 1] == front[1..] && tail[last - 1] == data[last] && front[0] == data[0];
      assert Encode(lens, data) == Encode(lens, front) + CodeWord(lens, data[last]);
      assert Encode(lens, tail) == Encode(lens, front[1..]) + CodeWord(lens, data[last]);
    }
  }

  /** Of two messages that the same bits begin with, the shorter is the beginning of the longer. */
  lemma {:induction false} DecodingIsUnique(lens: seq<nat>, m: nat, a: seq<nat>, b: seq<nat>, bits: Bits)
    requires Fits(lens, m) && Codable(lens, a) && Codable(lens, b) && |a| <= |b|
    requires Encode(lens, a) <= bits && Encode(lens, b) <= bits
    ensures a <= b
  {
    hide CodeWord, Fits, Encode;
    if a != [] {
      FirstIsUnique(lens, m, a, b, bits);
      RestBegins(lens, a, bits);
      RestBegins(lens, b, bits);
      var rest := bits[|CodeWord(lens, a[0])|..];
      DecodingIsUnique(lens, m, a[1..], b[1..], rest);
      assert a == [a[0]] + a[1..] && b == [b[0]] + b[1..];
    }
  }

  /** After the first word comes the rest of the message. */
  lemma RestBegins(lens: seq<nat>, a: seq<nat>, bits: Bits)
    requires Codable(lens, a) && a != [] && Encode(lens, a) <= bits
    ensures var u := CodeWord(lens, a[0]); u <= bits && Encode(lens, a[1..]) <= bits[|u|..]
  {
    hide CodeWord, Encode;
    EncodeFront(lens, a);
  }

  lemma FirstIsUnique(lens: seq<nat>, m: nat, a: seq<nat>, b: seq<nat>, bits: Bits)
    requires Fits(lens, m) && Codable(lens, a) && Codable(lens, b) && a != [] && b != []
    requires Encode(lens, a) <= bits && Encode(lens, b) <= bits
    ensures a[0] == b[0]
  {
    hide CodeWord, Fits, Encode;
    RestBegins(lens, a, bits);
    RestBegins(lens, b, bits);
    if a[0] != b[0] {
      CodeWordsPrefixFree(lens, m, a[0], b[0]);
      CodeWordsPrefixFree(lens, m, b[0], a[0]);
      PrefixesCompare(CodeWord(lens, a[0]), CodeWord(lens, b[0]), bits);
    }
  }

  lemma PrefixesCompare(u: Bits, v: Bits, w: Bits)
    requires u <= w && v <= w
    ensures u <= v || v <= u
  {}

  /** The Kraft sum of a length table is the code space its codes take. */
  lemma {:induction false} TakenIsKraftSum(lens: seq<nat>, m: nat)
    requires forall s :: 0 <= s < |lens| ==> lens[s] <= m
    ensures Taken(lens, m, m, |lens|) == Sum(HuffmanTree.UsedTerms(lens, m))
  {
    if lens != [] {
      var last := |lens| - 1;
      var front := lens[..last];
      TakenIsKraftSum(front, m);
      TakenFront(lens, front, m, m, last);
      var t := if lens[last] == 0 then 0 else Pow2(m - lens[last]);
      TermsMore(lens, m);
      hide Pow2, Sum, HuffmanTree.UsedTerms;
      SumOne(t);
      SumConcat(HuffmanTree.UsedTerms(front, m), [t]);
      assert Taken(lens, m, m, |lens|) == Sum(HuffmanTree.UsedTerms(lens, m));
    }
  }

  lemma TermsMore(lens: seq<nat>, m: nat)
    requires lens != [] && forall s :: 0 <= s < |lens| ==> lens[s] <= m
    ensures var last := |lens| - 1;
            HuffmanTree.UsedTerms(lens, m) ==
            HuffmanTree.UsedTerms(lens[..last], m) + [if lens[last] == 0 then 0 else Pow2(m - lens[last])]
  {
    hide Pow2;
  }

  lemma {:induction false} TakenFront(lens: seq<nat>, front: seq<nat>, l: nat, m: nat, n: nat)
    requires n <= |front| && front <= lens && l <= m
    ensures Taken(lens, l, m, n) == Taken(front, l, m, n)
  {
    if n > 0 { TakenFront(lens, front, l, m, n - 1); }
  }
}
