/** The text primitives a log line is read and written with: searching, white space, decimal numbers. */
module LogText {
  import opened Options
  import opened Bytes

  /** Where a byte first occurs. */
  function Find(s: seq<byte>, b: byte): (r: Option<nat>)
    ensures r.Some? ==> r.value < |s| && s[r.value] == b && b !in s[..r.value]
    ensures r.None? ==> b !in s
  {
    if s == [] then None
    else if s[0] == b then Some(0)
    else match Find(s[1..], b)
      case None => None
      case Some(i) =>
        assert s[..i + 1] == [s[0]] + s[1..][..i];
        Some(i + 1)
  }

  lemma {:induction false} FindIn(a: seq<byte>, b: byte, rest: seq<byte>)
    requires b !in a
    ensures Find(a + [b] + rest, b) == Some(|a|)
  {
    var s := a + [b] + rest;
    if a != [] {
      assert s[0] == a[0] && a[0] in a;
      assert s[1..] == a[1..] + [b] + rest;
      FindIn(a[1..], b, rest);
    }
  }

  // ---- White space ----

  /** The length of the white-space character at the front, or zero. */
  function SpaceLength(s: seq<byte>): (n: nat)
    ensures n <= |s|
  {
    if s == [] then 0
    else if s[0] == 0x20 || 0x09 <= s[0] <= 0x0D then 1
    else if |s| >= 2 && s[0] == 0xC2 && (s[1] == 0x85 || s[1] == 0xA0) then 2
    else if |s| < 3 then 0
    else if s[0] == 0xE1 && s[1] == 0x9A && s[2] == 0x80 then 3
    else if s[0] == 0xE2 && s[1] == 0x80 && (0x80 <= s[2] <= 0x8A || s[2] == 0xA8 || s[2] == 0xA9 || s[2] == 0xAF) then 3
    else if s[0] == 0xE2 && s[1] == 0x81 && s[2] == 0x9F then 3
    else if s[0] == 0xE3 && s[1] == 0x80 && s[2] == 0x80 then 3
    else 0
  }

  function SkipSpace(s: seq<byte>): seq<byte>
    decreases |s|
  {
    var n := SpaceLength(s);
    if n == 0 then s else SkipSpace(s[n..])
  }

  /** The length of the run of text before the next white space. */
  function WordLength(s: seq<byte>): (n: nat)
    ensures n <= |s|
  {
    if s == [] || SpaceLength(s) > 0 then 0 else 1 + WordLength(s[1..])
  }

  /** The next word and what follows it. */
  function NextWord(s: seq<byte>): Option<(seq<byte>, seq<byte>)>
  {
    var t := SkipSpace(s);
    var n := WordLength(t);
    if n == 0 then None else Some((t[..n], t[n..]))
  }

  predicate IsDigit(b: byte) { '0' as int <= b <= '9' as int }

  predicate AllDigits(s: seq<byte>)
  {
    forall i :: 0 <= i < |s| ==> IsDigit(s[i])
  }

  lemma {:induction false} DigitsAreAWord(d: seq<byte>, rest: seq<byte>)
    requires AllDigits(d) && rest != [] && (rest[0] == 0x20 || rest[0] == 0x0A)
    ensures WordLength(d + rest) == |d|
  {
    if d == [] {
      assert d + rest == rest;
    } else {
      assert (d + rest)[1..] == d[1..] + rest && (d + rest)[0] == d[0];
      DigitsAreAWord(d[1..], rest);
    }
  }

  lemma DigitsNextWord(d: seq<byte>, rest: seq<byte>)
    requires AllDigits(d) && d != [] && rest != [] && (rest[0] == 0x20 || rest[0] == 0x0A)
    ensures NextWord([0x20] + d + rest) == Some((d, rest))
  {
    var s := [0x20] + d + rest;
    assert SpaceLength(s) == 1 && s[1..] == d + rest;
    assert SpaceLength(d + rest) == 0;
    assert SkipSpace(s) == d + rest;
    DigitsAreAWord(d, rest);
    assert (d + rest)[..|d|] == d && (d + rest)[|d|..] == rest;
  }

  // ---- Decimal numbers ----

  function Decimal(n: nat): (r: seq<byte>)
    ensures r != []
  {
    (if n < 10 then [] else Decimal(n / 10)) + ['0' as int + n % 10]
  }

  function Value(s: seq<byte>): nat
    requires AllDigits(s)
  {
    if s == [] then 0 else 10 * Value(s[..|s| - 1]) + (s[|s| - 1] - '0' as int)
  }

  /** An unsigned number below a limit: an optional plus sign, then digits. */
  function ParseNumber(s: seq<byte>, limit: nat): Option<nat>
  {
    var d := if s != [] && s[0] == '+' as int then s[1..] else s;
    if d == [] || !AllDigits(d) || Value(d) >= limit then None else Some(Value(d))
  }

  lemma {:induction false} DecimalDigits(n: nat)
    ensures AllDigits(Decimal(n)) && Value(Decimal(n)) == n
  {
    var d := Decimal(n);
    if n >= 10 {
      DecimalDigits(n / 10);
      assert d[..|d| - 1] == Decimal(n / 10);
    } else {
      assert d[..|d| - 1] == [];
    }
  }

  /** A number that was written is read back. */
  lemma DecimalParses(n: nat, limit: nat)
    requires n < limit
    ensures ParseNumber(Decimal(n), limit) == Some(n)
  {
    DecimalDigits(n);
  }
}
