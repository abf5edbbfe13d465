/** The blocks that a seed picks for each fountain symbol, and why the picking ends. */
module BlockPicks {
  import opened Bytes
  import opened Collections
  import opened Generator

  /** At most as many blocks as a symbol's mask has bits. */
  const MAX_PICKS := 64

  ghost predicate Within(k: nat, chosen: seq<nat>)
  {
    forall j :: 0 <= j < |chosen| ==> chosen[j] < k
  }

  ghost predicate HasNew(k: nat, chosen: seq<nat>)
  {
    exists i: nat :: i < k && i !in chosen
  }

  ghost function Below(k: nat): (r: set<nat>)
    ensures |r| == k && forall i: nat :: i in r <==> i < k
  {
    if k == 0 then {} else Below(k - 1) + {k - 1}
  }

  lemma RoomLeft(k: nat, chosen: seq<nat>)
    requires |chosen| < k
    ensures HasNew(k, chosen)
  {
    hide Below;
    DistinctBySize(chosen);
    if !HasNew(k, chosen) { SubsetSize(Below(k), Elements(chosen)); }
  }

  ghost function Missing(k: nat, chosen: seq<nat>): (i: nat)
    requires HasNew(k, chosen)
    ensures i < k && i !in chosen
  {
    var i: nat :| i < k && i !in chosen;
    i
  }

  /** How long the generator takes at most to come to an index that is new. */
  ghost function Wait(x: u64, k: nat, chosen: seq<nat>): nat
    requires k <= MAX_PICKS
  {
    if HasNew(k, chosen) then Distance(Next(x), Missing(k, chosen)) else 0
  }

  lemma WaitShrinks(x: u64, k: nat, chosen: seq<nat>)
    requires 0 < k <= MAX_PICKS && HasNew(k, chosen) && Next(x) % k in chosen
    ensures Wait(Next(x), k, chosen) < Wait(x, k, chosen)
  {
    hide Next, Distance, HasNew, Missing;
    SmallRemainder(Missing(k, chosen), k);
    StepIsNearer(Next(x), Missing(k, chosen));
  }

  lemma SmallRemainder(i: nat, k: nat)
    requires i < k
    ensures i % k == i
  {}

  /** The next index that is new, and the generator afterwards. */
  ghost function FirstNew(x: u64, k: nat, chosen: seq<nat>): (r: (nat, u64))
    requires 0 < k <= MAX_PICKS && HasNew(k, chosen)
    ensures r.0 < k && r.0 !in chosen
    decreases Wait(x, k, chosen)
  {
    var y := Next(x);
    if y % k !in chosen then (y % k, y)
    else
      WaitShrinks(x, k, chosen);
      FirstNew(y, k, chosen)
  }

  /** The first d different indices, in the order they come. */
  ghost function Picked(x: u64, k: nat, d: nat, chosen: seq<nat>): (r: (seq<nat>, u64))
    requires d <= k <= MAX_PICKS
    requires |chosen| <= d && Distinct(chosen) && Within(k, chosen)
    ensures |r.0| == d && Distinct(r.0) && Within(k, r.0)
    decreases d - |chosen|
  {
    if |chosen| == d then (chosen, x)
    else
      RoomLeft(k, chosen);
      var (i, y) := FirstNew(x, k, chosen);
      assert (chosen + [i])[..|chosen|] == chosen;
      DistinctLast(chosen + [i]);
      Picked(y, k, d, chosen + [i])
  }

  /** A third of the symbols are single blocks, the others have two to eight. */
  function DegreeOf(x: u64): (r: (nat, u64))
    ensures 1 <= r.0 <= 8
  {
    var y := Next(x);
    if y % 3 == 0 then (1, y) else var z := Next(y); (2 + z % 7, z)
  }

  ghost function Draw(x: u64, k: nat): (r: (seq<nat>, u64))
    requires 0 < k <= MAX_PICKS
    ensures 1 <= |r.0| <= k && Distinct(r.0) && Within(k, r.0)
  {
    var (degree, y) := DegreeOf(x);
    Picked(y, k, if degree < k then degree else k, [])
  }

  /** The picks of n symbols, one after the other. */
  ghost function Draws(x: u64, k: nat, n: nat): (r: (seq<seq<nat>>, u64))
    requires 0 < k <= MAX_PICKS
    ensures |r.0| == n
  {
    if n == 0 then ([], x)
    else
      var (picks, y) := Draws(x, k, n - 1);
      var (pick, z) := Draw(y, k);
      (picks + [pick], z)
  }

  /** One more turn of the loop, with an index that was new or not. */
  lemma PickedStep(x: u64, k: nat, d: nat, chosen: seq<nat>)
    requires d <= k <= MAX_PICKS && |chosen| < d && Distinct(chosen) && Within(k, chosen)
    ensures var y := Next(x); var i := y % k;
            if i in chosen then Wait(y, k, chosen) < Wait(x, k, chosen) && Picked(x, k, d, chosen) == Picked(y, k, d, chosen)
            else Distinct(chosen + [i]) && Within(k, chosen + [i]) && Picked(x, k, d, chosen) == Picked(y, k, d, chosen + [i])
  {
    hide Next, Distance, HasNew, Wait;
    RoomLeft(k, chosen);
    var i := Next(x) % k;
    if i in chosen {
      WaitShrinks(x, k, chosen);
    } else {
      assert (chosen + [i])[..|chosen|] == chosen;
      DistinctLast(chosen + [i]);
    }
  }

  method PickDistinct(start: u64, k: nat, d: nat) returns (chosen: seq<nat>, x: u64)
    requires d <= k <= MAX_PICKS
    ensures (chosen, x) == Picked(start, k, d, [])
  {
    hide Next, Picked, Wait;
    chosen, x := [], start;
    var seen := new bool[64](_ => false);
    while |chosen| < d
      invariant |chosen| <= d && Distinct(chosen) && Within(k, chosen)
      invariant forall i :: 0 <= i < 64 ==> (seen[i] <==> i in chosen)
      invariant Picked(start, k, d, []) == Picked(x, k, d, chosen)
      decreases d - |chosen|, Wait(x, k, chosen)
    {
      PickedStep(x, k, d, chosen);
      x := Next(x);
      var i := x % k;
      if !seen[i] {
        seen[i] := true;
        chosen := chosen + [i];
      }
    }
    AllPicked(x, k, d, chosen);
  }

  lemma AllPicked(x: u64, k: nat, d: nat, chosen: seq<nat>)
    requires d == |chosen| <= k <= MAX_PICKS && Distinct(chosen) && Within(k, chosen)
    ensures Picked(x, k, d, chosen) == (chosen, x)
  {}

  // ---- In ascending order ----

  ghost predicate Ascending(s: seq<nat>)
  {
    forall i, j :: 0 <= i < j < |s| ==> s[i] <= s[j]
  }

  /** The same indices, in ascending order. */
  ghost predicate Arranges(sorted: seq<nat>, s: seq<nat>)
  {
    Ascending(sorted) && multiset(sorted) == multiset(s)
  }

  method Sort(s: seq<nat>) returns (sorted: seq<nat>)
    ensures Arranges(sorted, s)
  {
    sorted := [];
    for n := 0 to |s|
      invariant Arranges(sorted, s[..n])
    {
      var p := |sorted|;
      while p > 0 && s[n] < sorted[p - 1]
        invariant 0 <= p <= |sorted|
        invariant forall q :: p <= q < |sorted| ==> s[n] < sorted[q]
      {
        p := p - 1;
      }
      InsertedAscends(sorted, p, s[n]);
      InsertedElements(sorted, p, s[n]);
      assert s[..n + 1] == s[..n] + [s[n]];
      sorted := sorted[..p] + [s[n]] + sorted[p..];
    }
    assert s[..|s|] == s;
  }

  lemma InsertedAscends(s: seq<nat>, p: nat, v: nat)
    requires Ascending(s) && p <= |s| && (forall q :: p <= q < |s| ==> v < s[q]) && (p > 0 ==> s[p - 1] <= v)
    ensures Ascending(s[..p] + [v] + s[p..])
  {
    var all := s[..p] + [v] + s[p..];
    forall i | 0 <= i < |all| ensures all[i] == if i < p then s[i] else if i == p then v else s[i - 1] {
      InsertedAt(s, p, v, i);
    }
    assert forall q :: 0 <= q < p ==> s[q] <= v;
  }

  lemma InsertedElements(s: seq<nat>, p: nat, v: nat)
    requires p <= |s|
    ensures multiset(s[..p] + [v] + s[p..]) == multiset(s) + multiset{v}
  {
    assert s == s[..p] + s[p..];
  }

  lemma ArrangedIsDistinct(sorted: seq<nat>, s: seq<nat>, k: nat)
    requires Arranges(sorted, s) && Distinct(s) && Within(k, s)
    ensures |sorted| == |s| && Distinct(sorted) && Within(k, sorted)
  {
    assert |multiset(sorted)| == |sorted| && |multiset(s)| == |s|;
    forall x ensures x in sorted <==> x in s {
      assert x in multiset(sorted) <==> x in multiset(s);
    }
    assert Elements(sorted) == Elements(s);
    DistinctBySize(s);
    DistinctBySize(sorted);
    forall j | 0 <= j < |sorted| ensures sorted[j] < k {
      assert sorted[j] in s;
    }
  }

  method DrawBlocks(start: u64, k: nat) returns (chosen: seq<nat>, x: u64)
    requires 0 < k <= MAX_PICKS
    ensures Arranges(chosen, Draw(start, k).0) && x == Draw(start, k).1
  {
    hide Next, Picked, Arranges;
    var (degree, y) := DegreeOf(start);
    var picked;
    picked, x := PickDistinct(y, k, if degree < k then degree else k);
    chosen := Sort(picked);
  }

  // ---- The picks, word by word ----

  /** The residues of the words after the m-th, up to the n-th. */
  ghost function Residues(x: u64, k: nat, m: nat, n: nat): set<nat>
    requires k > 0
  {
    set s: nat | m < s <= n :: After(x, s) % k
  }

  /** How many blocks the words after the m-th ask for, and how many words say so. */
  ghost function Asked(x: u64, k: nat, m: nat): (nat, nat)
  {
    var d := 2 + After(x, m + 2) % 7;
    if After(x, m + 1) % 3 == 0 then (1, 1) else (if d < k then d else k, 2)
  }

  /**
   What is chosen by the words after the m-th, the n-th being the last that is used: one block if
   the first word is divisible by three, else two and the second word modulo seven, but no more
   than there are; and as many different residues as come first.
   */
  ghost predicate ChosenBy(chosen: seq<nat>, x: u64, k: nat, m: nat, n: nat)
  {
    var (d, used) := Asked(x, k, m);
    && k > 0 && m + used < n
    && |chosen| == d && (forall i, j :: 0 <= i < j < |chosen| ==> chosen[i] < chosen[j])
    && Elements(chosen) == Residues(x, k, m + used, n)
    && After(x, n) % k !in Residues(x, k, m + used, n - 1)
  }

  lemma AfterNext(x: u64, m: nat)
    ensures Next(After(x, m)) == After(x, m + 1)
  {
    hide Next;
  }

  lemma ResiduesMore(x: u64, k: nat, m: nat, n: nat)
    requires k > 0 && m <= n
    ensures Residues(x, k, m, n + 1) == Residues(x, k, m, n) + {After(x, n + 1) % k}
  {
    hide After;
    var before, after := Residues(x, k, m, n), Residues(x, k, m, n + 1);
    forall r | r in after ensures r in before || r == After(x, n + 1) % k {
      var s: nat :| m < s <= n + 1 && r == After(x, s) % k;
      assert s <= n ==> r in before;
    }
  }

  /** Where the next new residue comes. */
  lemma {:induction false} NewAt(x: u64, k: nat, chosen: seq<nat>, m: nat, n: nat) returns (t: nat)
    requires 0 < k <= MAX_PICKS && HasNew(k, chosen) && m <= n && Elements(chosen) == Residues(x, k, m, n)
    ensures n < t && FirstNew(After(x, n), k, chosen) == (After(x, t) % k, After(x, t))
    ensures Residues(x, k, m, t - 1) == Elements(chosen) && After(x, t) % k !in chosen
    decreases Wait(After(x, n), k, chosen)
  {
    hide Residues, Wait, HasNew;
    AfterNext(x, n);
    if After(x, n + 1) % k in chosen {
      WaitShrinks(After(x, n), k, chosen);
      ResiduesMore(x, k, m, n);
      assert Residues(x, k, m, n + 1) == Elements(chosen);
      t := NewAt(x, k, chosen, m, n + 1);
    } else {
      t := n + 1;
    }
  }

  lemma {:induction false} PickedAt(x: u64, k: nat, d: nat, chosen: seq<nat>, m: nat, n: nat) returns (t: nat)
    requires d <= k <= MAX_PICKS && |chosen| < d && Distinct(chosen) && Within(k, chosen)
    requires m <= n && Elements(chosen) == Residues(x, k, m, n)
    ensures n < t && Picked(After(x, n), k, d, chosen).1 == After(x, t)
    ensures Elements(Picked(After(x, n), k, d, chosen).0) == Residues(x, k, m, t)
    ensures After(x, t) % k !in Residues(x, k, m, t - 1)
    decreases d - |chosen|
  {
    hide Residues, HasNew, FirstNew;
    RoomLeft(k, chosen);
    t := NewAt(x, k, chosen, m, n);
    ResiduesMore(x, k, m, t - 1);
    var i := After(x, t) % k;
    var more := chosen + [i];
    assert more[..|chosen|] == chosen;
    DistinctLast(more);
    assert Elements(more) == Elements(chosen) + {i};
    PickedUnfold(After(x, n), k, d, chosen);
    hide Picked;
    if |more| == d {
      AllPicked(After(x, t), k, d, more);
    } else {
      t := PickedAt(x, k, d, more, m, t);
    }
  }

  lemma PickedUnfold(x: u64, k: nat, d: nat, chosen: seq<nat>)
    requires d <= k <= MAX_PICKS && |chosen| < d && Distinct(chosen) && Within(k, chosen)
    ensures HasNew(k, chosen)
    ensures var (i, y) := FirstNew(x, k, chosen);
            Distinct(chosen + [i]) && Within(k, chosen + [i]) && Picked(x, k, d, chosen) == Picked(y, k, d, chosen + [i])
  {
    hide FirstNew;
    RoomLeft(k, chosen);
    var i := FirstNew(x, k, chosen).0;
    assert (chosen + [i])[..|chosen|] == chosen;
    DistinctLast(chosen + [i]);
  }

  /** The degree, as the words give it. */
  lemma DegreeAt(x: u64, k: nat, m: nat)
    requires k > 0
    ensures var (degree, y) := DegreeOf(After(x, m)); var (d, used) := Asked(x, k, m);
            1 <= d <= k && d == (if degree < k then degree else k) && y == After(x, m + used)
  {
    hide Next, After;
    AfterNext(x, m);
    AfterNext(x, m + 1);
  }

  /** Strictly ascending: what sorting makes of different indices. */
  lemma StrictlyAscending(sorted: seq<nat>, s: seq<nat>, k: nat)
    requires Arranges(sorted, s) && Distinct(s) && Within(k, s)
    ensures |sorted| == |s| && Elements(sorted) == Elements(s) && forall i, j :: 0 <= i < j < |sorted| ==> sorted[i] < sorted[j]
  {
    ArrangedIsDistinct(sorted, s, k);
    forall x ensures x in sorted <==> x in s {
      assert x in multiset(sorted) <==> x in multiset(s);
    }
  }

  /** One draw from the m-th word on. */
  lemma DrawExactly(x: u64, k: nat, m: nat, sorted: seq<nat>) returns (n: nat)
    requires 0 < k <= MAX_PICKS && Arranges(sorted, Draw(After(x, m), k).0)
    ensures ChosenBy(sorted, x, k, m, n) && Draw(After(x, m), k).1 == After(x, n)
  {
    hide After, Picked, Residues, DegreeOf, Asked, Arranges;
    DegreeAt(x, k, m);
    var (d, used) := Asked(x, k, m);
    NoResidues(x, k, m + used);
    n := PickedAt(x, k, d, [], m + used, m + used);
    StrictlyAscending(sorted, Draw(After(x, m), k).0, k);
  }

  lemma NoResidues(x: u64, k: nat, m: nat)
    requires k > 0
    ensures Elements<nat>([]) == Residues(x, k, m, m)
  {}
}
