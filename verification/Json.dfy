/**
 JSON values as the columnar transform sees them, and what is taken from the JSON library: a
 reader, a compact writer and the order of numbers.
 */
module Json {
  import opened Options
  import opened Bytes
  import opened Collections
  import opened Utf8

  type Text = s: seq<byte> | IsUtf8(s) witness []

  const TWO52 := 0x10_0000_0000_0000

  /** The bits of a double are those of a number, not an infinity or a NaN. */
  predicate Finite(bits: u64) { bits / TWO52 % 2048 != 2047 }

  type FiniteBits = x: u64 | Finite(x) witness 0
  type Negative = x: int | -TWO63 <= x < 0 witness -1

  datatype Number = PosInt(n: u64) | NegInt(m: Negative) | Float(bits: FiniteBits)

  datatype Pair<V> = Entry(key: Text, value: V)

  function Keys<V>(entries: seq<Pair<V>>): (r: seq<Text>)
    ensures |r| == |entries|
  {
    seq<Text>(|entries|, i requires 0 <= i < |entries| => entries[i].key)
  }

  /** The entries of an object: a map in the order of its writing, no key twice. */
  type Unique<V> = e: seq<Pair<V>> | Distinct(Keys(e)) witness []

  datatype Value = Null | Bool(b: bool) | Num(num: Number) | Str(s: Text) | Arr(items: seq<Value>) | Obj(entries: Unique<Value>)

  type Entry = Pair<Value>

  /** The library: reading, compact writing, the double nearest to an integer, and the order of numbers as doubles. */
  datatype Lib = Lib(parse: seq<byte> -> Option<Value>, show: Value -> Text, nearest: Number -> u64, compare: (Number, Number) -> int)

  /** The library reads back what it writes for a value. */
  ghost predicate ComesBack(lib: Lib, v: Value)
  {
    lib.parse(lib.show(v)) == Some(v)
  }

  /** The value under a key: the first entry that carries it. */
  function Get(entries: seq<Entry>, k: Text): (r: Option<Value>)
    ensures r.Some? <==> k in Keys(entries)
  {
    if entries == [] then None
    else if entries[0].key == k then
      assert Keys(entries)[0] == k;
      Some(entries[0].value)
    else
      assert Keys(entries) == [entries[0].key] + Keys(entries[1..]);
      Get(entries[1..], k)
  }

  /** Writing a value under a key, as the library's map does: over the old one, or at the end. */
  function Insert(entries: seq<Entry>, k: Text, v: Value): seq<Entry>
  {
    if entries == [] then [Entry(k, v)]
    else if entries[0].key == k then [Entry(k, v)] + entries[1..]
    else [entries[0]] + Insert(entries[1..], k, v)
  }

  lemma {:induction false} InsertKeys(entries: seq<Entry>, k: Text, v: Value)
    ensures Keys(Insert(entries, k, v)) == if k in Keys(entries) then Keys(entries) else Keys(entries) + [k]
  {
    if entries == [] {
      assert Keys([Entry(k, v)]) == [k];
    } else {
      KeysCons(entries);
      KeysCons(Insert(entries, k, v));
      if entries[0].key == k {
        assert Insert(entries, k, v)[1..] == entries[1..];
      } else {
        InsertKeys(entries[1..], k, v);
        InsertOther(entries, k, v);
        hide Insert, Keys;
        assert Insert(entries, k, v)[1..] == Insert(entries[1..], k, v);
        assert Keys(Insert(entries, k, v)) == if k in Keys(entries) then Keys(entries) else Keys(entries) + [k];
      }
    }
  }

  lemma InsertKeepsUnique(entries: seq<Entry>, k: Text, v: Value)
    requires Distinct(Keys(entries))
    ensures Distinct(Keys(Insert(entries, k, v)))
  {
    hide Insert;
    InsertKeys(entries, k, v);
    var keys := Keys(Insert(entries, k, v));
    if k !in Keys(entries) {
      assert keys[..|keys| - 1] == Keys(entries);
      DistinctLast(keys);
    }
  }

  lemma {:induction false} InsertNew(entries: seq<Entry>, k: Text, v: Value)
    requires k !in Keys(entries)
    ensures Insert(entries, k, v) == entries + [Entry(k, v)]
  {
    if entries != [] {
      KeysCons(entries);
      InsertOther(entries, k, v);
      hide Insert, Keys;
      InsertNew(entries[1..], k, v);
      assert [entries[0]] + (entries[1..] + [Entry(k, v)]) == entries + [Entry(k, v)];
      assert Insert(entries, k, v) == entries + [Entry(k, v)];
    }
  }

  lemma KeysCons(entries: seq<Entry>)
    requires entries != []
    ensures Keys(entries) == [entries[0].key] + Keys(entries[1..])
  {}

  lemma InsertOther(entries: seq<Entry>, k: Text, v: Value)
    requires entries != [] && entries[0].key != k
    ensures Insert(entries, k, v) == [entries[0]] + Insert(entries[1..], k, v)
  {
    hide Keys;
  }

  lemma {:induction false} GetAt(entries: seq<Entry>, i: nat)
    requires i < |entries| && Distinct(Keys(entries))
    ensures Get(entries, entries[i].key) == Some(entries[i].value)
  {
    if i > 0 {
      var rest := entries[1..];
      assert Keys(entries)[0] != Keys(entries)[i];
      assert forall j :: 0 <= j < |rest| ==> Keys(rest)[j] == Keys(entries)[j + 1];
      GetAt(rest, i - 1);
    }
  }
}
