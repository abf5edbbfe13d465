/** Lists of items written one after the other, and read back with a cursor. */
module Lists {
  import opened Options
  import opened Bytes
  import opened Collections

  function Written<T>(write: T -> seq<byte>, items: seq<T>): (r: seq<seq<byte>>)
    ensures |r| == |items|
  {
    seq(|items|, i requires 0 <= i < |items| => write(items[i]))
  }

  function WriteList<T>(write: T -> seq<byte>, items: seq<T>): seq<byte>
  {
    Concat(Written(write, items))
  }

  function ReadList<T>(read: nat -> Option<(T, nat)>, pos: nat, n: nat): Option<(seq<T>, nat)>
  {
    if n == 0 then Some(([], pos))
    else match ReadList(read, pos, n - 1)
      case None => None
      case Some((items, at)) =>
        match read(at)
        case None => None
        case Some((item, next)) => Some((items + [item], next))
  }

  lemma WriteMore<T>(write: T -> seq<byte>, items: seq<T>, item: T)
    ensures WriteList(write, items + [item]) == WriteList(write, items) + write(item)
  {
    hide Concat;
    ConcatMore(Written(write, items), write(item));
    assert Written(write, items + [item]) == Written(write, items) + [write(item)];
  }

  lemma WriteLast<T>(write: T -> seq<byte>, items: seq<T>)
    requires items != []
    ensures var n := |items| - 1; WriteList(write, items) == WriteList(write, items[..n]) + write(items[n])
  {
    hide WriteList;
    WriteMore(write, items[..|items| - 1], items[|items| - 1]);
    assert items[..|items| - 1] + [items[|items| - 1]] == items;
  }

  /** Wherever the item's bytes stand, the reader reads the item. */
  ghost predicate ReadsBack<T>(read: nat -> Option<(T, nat)>, write: T -> seq<byte>, b: seq<byte>, item: T)
  {
    forall p: nat :: p + |write(item)| <= |b| && b[p..p + |write(item)|] == write(item) ==>
      read(p) == Some((item, p + |write(item)|))
  }

  lemma ReadMore<T>(read: nat -> Option<(T, nat)>, write: T -> seq<byte>, b: seq<byte>, pos: nat, items: seq<T>, at: nat, item: T)
    requires ReadList(read, pos, |items|) == Some((items, at)) && ReadsBack(read, write, b, item)
    requires at + |write(item)| <= |b| && b[at..at + |write(item)|] == write(item)
    ensures ReadList(read, pos, |items| + 1) == Some((items + [item], at + |write(item)|))
  {}

  lemma NothingRead<T>(read: nat -> Option<(T, nat)>, write: T -> seq<byte>, pos: nat)
    ensures ReadList(read, pos, 0) == Some(([], pos)) && WriteList(write, []) == []
  {}

  lemma {:induction false} ListReads<T>(read: nat -> Option<(T, nat)>, write: T -> seq<byte>, b: seq<byte>, pos: nat, items: seq<T>)
    requires forall i :: 0 <= i < |items| ==> ReadsBack(read, write, b, items[i])
    requires pos + |WriteList(write, items)| <= |b|
    requires b[pos..pos + |WriteList(write, items)|] == WriteList(write, items)
    ensures ReadList(read, pos, |items|) == Some((items, pos + |WriteList(write, items)|))
  {
    hide WriteList, ReadList, ReadsBack;
    if items == [] {
      NothingRead(read, write, pos);
    } else {
      var rest, last := items[..|items| - 1], items[|items| - 1];
      assert rest + [last] == items;
      WriteMore(write, rest, last);
      TwoSlices(b, pos, WriteList(write, rest), write(last));
      ListReads(read, write, b, pos, rest);
      ReadMore(read, write, b, pos, rest, pos + |WriteList(write, rest)|, last);
    }
  }

  /** Wherever the reader reads an item, the item's bytes stand. */
  ghost predicate WritesBack<T(!new)>(read: nat -> Option<(T, nat)>, write: T -> seq<byte>, b: seq<byte>)
  {
    forall p: nat :: read(p).Some? ==>
      var (item, next) := read(p).value; next == p + |write(item)| <= |b| && b[p..next] == write(item)
  }

  lemma ThreeEnds(b: seq<byte>, i: nat, j: nat, k: nat)
    requires i <= j <= k <= |b|
    ensures b[i..k] == b[i..j] + b[j..k]
  {}

  lemma FourParts(b: seq<byte>, i: nat, j: nat, k: nat, e: nat)
    requires i <= j <= k <= e <= |b|
    ensures b[..e] == b[..i] + b[i..j] + b[j..k] + b[k..e]
  {
    ThreeEnds(b, 0, i, j);
    ThreeEnds(b, 0, j, k);
    ThreeEnds(b, 0, k, e);
    assert b[..i] == b[0..i] && b[..j] == b[0..j] && b[..k] == b[0..k] && b[..e] == b[0..e];
  }

  lemma {:induction false} ListWritten<T(!new)>(read: nat -> Option<(T, nat)>, write: T -> seq<byte>, b: seq<byte>, pos: nat, n: nat)
    requires WritesBack(read, write, b) && pos <= |b| && ReadList(read, pos, n).Some?
    ensures var (items, at) := ReadList(read, pos, n).value;
            |items| == n && at == pos + |WriteList(write, items)| <= |b| && b[pos..at] == WriteList(write, items)
  {
    if n == 0 {
      NothingRead(read, write, pos);
    } else {
      var (items, at) := ReadList(read, pos, n - 1).value;
      var (item, next) := read(at).value;
      assert ReadList(read, pos, n) == Some((items + [item], next));
      hide WriteList, ReadList;
      ListWritten(read, write, b, pos, n - 1);
      WriteMore(write, items, item);
      ThreeEnds(b, pos, at, next);
      assert |items + [item]| == n && b[pos..next] == WriteList(write, items + [item]);
    }
  }

  // ---- Items that can be spelled in more than one way ----

  /** Each part is a spelling of the item in its place. */
  ghost predicate Spelled<T>(spells: (seq<byte>, T) -> bool, parts: seq<seq<byte>>, items: seq<T>)
  {
    |parts| == |items| && forall i :: 0 <= i < |items| ==> spells(parts[i], items[i])
  }

  /** The reader reads an item from the bytes up to a place just when they are a spelling of it. */
  ghost predicate ReadsSpellings<T(!new)>(read: nat -> Option<(T, nat)>, spells: (seq<byte>, T) -> bool, b: seq<byte>)
  {
    && (forall p: nat :: read(p).Some? ==> p <= read(p).value.1 <= |b|)
    && (forall p: nat, next: nat, item :: p <= next <= |b| ==> (spells(b[p..next], item) <==> read(p) == Some((item, next))))
  }

  lemma OneSpelling<T(!new)>(read: nat -> Option<(T, nat)>, spells: (seq<byte>, T) -> bool, b: seq<byte>, p: nat, part: seq<byte>, item: T)
    requires ReadsSpellings(read, spells, b) && spells(part, item)
    requires p + |part| <= |b| && b[p..p + |part|] == part
    ensures read(p) == Some((item, p + |part|))
  {}

  lemma {:induction false} SpelledReads<T(!new)>(read: nat -> Option<(T, nat)>, spells: (seq<byte>, T) -> bool, b: seq<byte>, pos: nat,
                                                 parts: seq<seq<byte>>, items: seq<T>)
    requires ReadsSpellings(read, spells, b) && Spelled(spells, parts, items)
    requires pos + |Concat(parts)| <= |b| && b[pos..pos + |Concat(parts)|] == Concat(parts)
    ensures ReadList(read, pos, |items|) == Some((items, pos + |Concat(parts)|))
  {
    hide ReadsSpellings;
    if items != [] {
      var n := |items| - 1;
      var front := Concat(parts[..n]);
      assert Concat(parts) == front + parts[n] && items[..n] + [items[n]] == items;
      TwoSlices(b, pos, front, parts[n]);
      SpelledReads(read, spells, b, pos, parts[..n], items[..n]);
      OneSpelling(read, spells, b, pos + |front|, parts[n], items[n]);
    }
  }

  lemma {:induction false} ReadIsSpelled<T(!new)>(read: nat -> Option<(T, nat)>, spells: (seq<byte>, T) -> bool, b: seq<byte>, pos: nat, n: nat)
    returns (parts: seq<seq<byte>>)
    requires ReadsSpellings(read, spells, b) && pos <= |b| && ReadList(read, pos, n).Some?
    ensures var (items, at) := ReadList(read, pos, n).value;
            |items| == n && Spelled(spells, parts, items) && pos <= at <= |b| && b[pos..at] == Concat(parts)
  {
    parts := [];
    if n > 0 {
      var (items, at) := ReadList(read, pos, n - 1).value;
      var (item, next) := read(at).value;
      assert ReadList(read, pos, n) == Some((items + [item], next));
      var front := ReadIsSpelled(read, spells, b, pos, n - 1);
      parts := front + [b[at..next]];
      hide ReadList, Concat;
      ConcatMore(front, b[at..next]);
      ThreeEnds(b, pos, at, next);
    }
  }

  /** What holds of every item that is read holds of the whole list. */
  lemma {:induction false} ListAll<T(!new)>(read: nat -> Option<(T, nat)>, holds: T -> bool, pos: nat, n: nat)
    requires ReadList(read, pos, n).Some? && forall p: nat :: read(p).Some? ==> holds(read(p).value.0)
    ensures forall i :: 0 <= i < |ReadList(read, pos, n).value.0| ==> holds(ReadList(read, pos, n).value.0[i])
  {
    if n > 0 { ListAll(read, holds, pos, n - 1); }
  }

  lemma {:induction false} ListCount<T>(read: nat -> Option<(T, nat)>, pos: nat, n: nat)
    requires ReadList(read, pos, n).Some?
    ensures |ReadList(read, pos, n).value.0| == n
  {
    if n > 0 { ListCount(read, pos, n - 1); }
  }

  lemma {:induction false} BrokenStaysBroken<T>(read: nat -> Option<(T, nat)>, pos: nat, i: nat, n: nat)
    requires i <= n && ReadList(read, pos, i) == None
    ensures ReadList(read, pos, n) == None
    decreases n
  {
    if i < n { BrokenStaysBroken(read, pos, i, n - 1); }
  }

  method Write<T>(write: T -> seq<byte>, items: seq<T>) returns (out: seq<byte>)
    ensures out == WriteList(write, items)
  {
    out := [];
    for i := 0 to |items|
      invariant out == WriteList(write, items[..i])
    {
      WriteMore(write, items[..i], items[i]);
      assert items[..i] + [items[i]] == items[..i + 1];
      out := out + write(items[i]);
    }
    assert items[..|items|] == items;
  }

  method Read<T>(read: nat -> Option<(T, nat)>, start: nat, n: nat) returns (r: Option<(seq<T>, nat)>)
    ensures r == ReadList(read, start, n)
  {
    var items, pos := [], start;
    for i := 0 to n
      invariant ReadList(read, start, i) == Some((items, pos))
    {
      var next := read(pos);
      if next.None? {
        BrokenStaysBroken(read, start, i + 1, n);
        return None;
      }
      items := items + [next.value.0];
      pos := next.value.1;
    }
    r := Some((items, pos));
  }
}
