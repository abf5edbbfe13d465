/** Sequences without repetition, sizes of sets, and sequences put end to end. */
module Collections {
  ghost predicate Distinct<T(!new)>(s: seq<T>)
  {
    forall i, j :: 0 <= i < j < |s| ==> s[i] != s[j]
  }

  /** A new head unlike every element keeps a sequence distinct. */
  lemma DistinctCons<T(!new)>(x: T, s: seq<T>)
    requires Distinct(s) && forall i :: 0 <= i < |s| ==> s[i] != x
    ensures Distinct([x] + s)
  {
    var all := [x] + s;
    forall i, j | 0 <= i < j < |all| ensures all[i] != all[j] {
      if i == 0 {
        assert all[j] == s[j - 1];
      } else {
        assert all[i] == s[i - 1] && all[j] == s[j - 1];
      }
    }
  }

  lemma DistinctLast<T(!new)>(s: seq<T>)
    requires s != []
    ensures Distinct(s) <==> Distinct(s[..|s| - 1]) && s[|s| - 1] !in s[..|s| - 1]
  {
    var rest := s[..|s| - 1];
    assert forall i :: 0 <= i < |rest| ==> rest[i] == s[i];
  }

  ghost function Elements<T(!new)>(s: seq<T>): set<T>
  {
    set x | x in s
  }

  lemma {:induction false} DistinctBySize<T(!new)>(s: seq<T>)
    ensures |Elements(s)| <= |s|
    ensures Distinct(s) <==> |Elements(s)| == |s|
  {
    if s != [] {
      hide Distinct;
      var rest, last := s[..|s| - 1], s[|s| - 1];
      DistinctBySize(rest);
      assert Elements(s) == Elements(rest) + {last};
      DistinctLast(s);
      assert Distinct(s) <==> |Elements(s)| == |s|;
    }
  }

  lemma {:induction false} DistinctCount<T(!new)>(s: seq<T>, x: T)
    requires Distinct(s)
    ensures multiset(s)[x] == if x in s then 1 else 0
  {
    if s != [] {
      hide Distinct;
      var rest, last := s[..|s| - 1], s[|s| - 1];
      DistinctLast(s);
      assert s == rest + [last];
      DistinctCount(rest, x);
      assert multiset(s)[x] == if x in s then 1 else 0;
    }
  }

  /** Sequences without repetition are rearrangements of each other when they hold the same elements. */
  lemma SameElements<T(!new)>(a: seq<T>, b: seq<T>)
    requires Distinct(a) && Distinct(b)
    ensures multiset(a) == multiset(b) <==> forall x :: x in a <==> x in b
  {
    hide Distinct;
    forall x ensures multiset(a)[x] == (if x in a then 1 else 0) && multiset(b)[x] == (if x in b then 1 else 0) {
      DistinctCount(a, x);
      DistinctCount(b, x);
    }
    if multiset(a) == multiset(b) {
      forall x ensures x in a <==> x in b {
        assert multiset(a)[x] == multiset(b)[x];
      }
    }
  }

  lemma {:induction false} SubsetSize<T(!new)>(a: set<T>, b: set<T>)
    requires a <= b
    ensures |a| <= |b|
  {
    if x :| x in a {
      SubsetSize(a - {x}, b - {x});
    }
  }

  lemma SubsetOfEqualSize<T(!new)>(a: set<T>, b: set<T>)
    requires a <= b && |a| == |b|
    ensures a == b
  {
    if exists x :: x in b && x !in a {
      var x :| x in b && x !in a;
      assert |a + {x}| <= |b| by { SubsetSize(a + {x}, b); }
    }
  }

  /** What stands where after an insertion. */
  lemma InsertedAt<T>(s: seq<T>, p: nat, v: T, i: nat)
    requires p <= |s| && i <= |s|
    ensures (s[..p] + [v] + s[p..])[i] == if i < p then s[i] else if i == p then v else s[i - 1]
  {}

  /** The parts, end to end. */
  function Concat<T>(parts: seq<seq<T>>): seq<T>
  {
    if parts == [] then [] else Concat(parts[..|parts| - 1]) + parts[|parts| - 1]
  }

  lemma ConcatNone<T>()
    ensures Concat<T>([]) == []
  {}

  lemma ConcatMore<T>(parts: seq<seq<T>>, p: seq<T>)
    ensures Concat(parts + [p]) == Concat(parts) + p
  {
    assert (parts + [p])[..|parts|] == parts;
  }

  lemma {:induction false} ConcatTwo<T>(a: seq<seq<T>>, b: seq<seq<T>>)
    ensures Concat(a + b) == Concat(a) + Concat(b)
  {
    hide Concat;
    if b == [] {
      ConcatNone<T>();
      assert a + b == a;
    } else {
      var rest, last := b[..|b| - 1], b[|b| - 1];
      ConcatTwo(a, rest);
      ConcatMore(a + rest, last);
      ConcatMore(rest, last);
      assert a + b == (a + rest) + [last] && rest + [last] == b;
    }
  }

  lemma ConcatOne<T>(p: seq<T>)
    ensures Concat([p]) == p
  {
    assert [p][..0] == [];
  }

  lemma ConcatFirst<T>(p: seq<T>, rest: seq<seq<T>>)
    ensures Concat([p] + rest) == p + Concat(rest)
  {
    hide Concat;
    ConcatOne(p);
    ConcatTwo([p], rest);
  }

  lemma {:induction false} PartWithin<T>(parts: seq<seq<T>>, i: nat)
    requires i < |parts|
    ensures |parts[i]| <= |Concat(parts)|
  {
    var last := |parts| - 1;
    if i < last { PartWithin(parts[..last], i); }
  }
}
