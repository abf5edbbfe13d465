/** Well-formed UTF-8, by the syntax of section 4 of RFC 3629. */
module Utf8 {
  import opened Bytes

  predicate Tail(b: byte) { 0x80 <= b <= 0xBF }

  /** The length of the character at the front, or zero when there is none. */
  function CharLength(s: seq<byte>): (n: nat)
    requires s != []
    ensures n <= |s|
    ensures forall i :: 1 <= i < n ==> Tail(s[i])
    ensures n > 1 ==> s[0] >= 0x80
  {
    var b := s[0];
    if b < 0x80 then 1
    else if 0xC2 <= b <= 0xDF then
      if |s| >= 2 && Tail(s[1]) then 2 else 0
    else if 0xE0 <= b <= 0xEF then
      if |s| >= 3 && Tail(s[1]) && Tail(s[2]) && (b == 0xE0 ==> s[1] >= 0xA0) && (b == 0xED ==> s[1] <= 0x9F) then 3 else 0
    else if 0xF0 <= b <= 0xF4 then
      if |s| >= 4 && Tail(s[1]) && Tail(s[2]) && Tail(s[3]) && (b == 0xF0 ==> s[1] >= 0x90) && (b == 0xF4 ==> s[1] <= 0x8F)
      then 4 else 0
    else 0
  }

  predicate IsUtf8(s: seq<byte>)
  {
    s == [] || (CharLength(s) > 0 && IsUtf8(s[CharLength(s)..]))
  }

  lemma CharOfPrefix(s: seq<byte>, i: nat)
    requires s != [] && 0 < CharLength(s) <= i <= |s|
    ensures CharLength(s[..i]) == CharLength(s)
  {}

  lemma AsciiIsNoTail(s: seq<byte>, i: nat)
    requires s != [] && 0 < CharLength(s) && 0 < i < |s| && s[i] < 0x80
    ensures i >= CharLength(s)
  {}

  lemma AsciiChar(s: seq<byte>)
    requires s != [] && s[0] < 0x80
    ensures CharLength(s) == 1
  {}

  lemma FrontChar(s: seq<byte>)
    requires IsUtf8(s) && s != []
    ensures CharLength(s) > 0 && IsUtf8(s[CharLength(s)..])
  {}

  lemma CharThenText(s: seq<byte>, n: nat)
    requires s != [] && n == CharLength(s) > 0 && IsUtf8(s[n..])
    ensures IsUtf8(s)
  {}

  lemma Slices(s: seq<byte>, n: nat, i: nat)
    requires n <= i < |s|
    ensures s[n..][i - n..] == s[i..] && s[n..][i - n + 1..] == s[i + 1..] && s[..i][n..] == s[n..][..i - n]
  {}

  lemma AsciiFirst(s: seq<byte>)
    requires IsUtf8(s) && s != [] && s[0] < 0x80
    ensures IsUtf8(s[..0]) && IsUtf8(s[0..]) && IsUtf8(s[1..])
  {
    FrontChar(s);
    AsciiChar(s);
    assert s[0..] == s;
  }

  /** Text may be cut before and after any ASCII character. */
  lemma {:induction false} CutAtAscii(s: seq<byte>, i: nat)
    requires IsUtf8(s) && i < |s| && s[i] < 0x80
    ensures IsUtf8(s[..i]) && IsUtf8(s[i..]) && IsUtf8(s[i + 1..])
    decreases |s|
  {
    hide *;
    if i == 0 {
      AsciiFirst(s);
    } else {
      FrontChar(s);
      var n := CharLength(s);
      AsciiIsNoTail(s, i);
      CharOfPrefix(s, i);
      Slices(s, n, i);
      CutAtAscii(s[n..], i - n);
      CharThenText(s[..i], n);
    }
  }

  lemma OneLetter(s: seq<byte>)
    requires |s| == 1 && s[0] < 0x80
    ensures IsUtf8(s)
  {
    AsciiChar(s);
    assert s[1..] == [];
  }

  // ---- Text as code points ----

  /** A code point that is not a surrogate. */
  predicate Scalar(c: nat) { c <= 0x10FFFF && !(0xD800 <= c <= 0xDFFF) }

  /** The bytes of a code point: one to four, the bits six at a time. */
  function CharBytes(c: nat): (r: seq<byte>)
    requires Scalar(c)
    ensures 1 <= |r| <= 4
  {
    if c < 0x80 then [c]
    else if c < 0x800 then [0xC0 + c / 0x40, 0x80 + c % 0x40]
    else if c < 0x1_0000 then [0xE0 + c / 0x1000, 0x80 + c / 0x40 % 0x40, 0x80 + c % 0x40]
    else [0xF0 + c / 0x4_0000, 0x80 + c / 0x1000 % 0x40, 0x80 + c / 0x40 % 0x40, 0x80 + c % 0x40]
  }

  ghost predicate Scalars(cs: seq<nat>)
  {
    forall i :: 0 <= i < |cs| ==> Scalar(cs[i])
  }

  function TextBytes(cs: seq<nat>): seq<byte>
    requires Scalars(cs)
  {
    if cs == [] then [] else CharBytes(cs[0]) + TextBytes(cs[1..])
  }

  lemma CharIsRead(c: nat, rest: seq<byte>)
    requires Scalar(c)
    ensures CharLength(CharBytes(c) + rest) == |CharBytes(c)|
  {
    hide CharLength;
    var s := CharBytes(c) + rest;
    if c < 0x80 {
      AsciiChar(s);
    } else if c < 0x800 {
      TwoBytes(c, s);
    } else if c < 0x1_0000 {
      ThreeBytes(c, s);
    } else {
      FourBytes(c, s);
    }
  }

  lemma TwoBytes(c: nat, s: seq<byte>)
    requires 0x80 <= c < 0x800 && |s| >= 2 && s[0] == 0xC0 + c / 0x40 && s[1] == 0x80 + c % 0x40
    ensures CharLength(s) == 2
  {}

  lemma ThreeBytes(c: nat, s: seq<byte>)
    requires Scalar(c) && 0x800 <= c < 0x1_0000 && |s| >= 3
    requires s[0] == 0xE0 + c / 0x1000 && s[1] == 0x80 + c / 0x40 % 0x40 && s[2] == 0x80 + c % 0x40
    ensures CharLength(s) == 3
  {
    var d := c / 0x40;
    assert d / 0x40 == c / 0x1000;
    MiddleDigit(d);
    assert c < 0x1000 ==> d < 0x40;
    assert 0xD000 <= c < 0xE000 ==> c < 0xD800 && d < 0x360;
  }

  lemma MiddleDigit(d: nat)
    ensures d == d / 0x40 * 0x40 + d % 0x40
  {}

  lemma FourBytes(c: nat, s: seq<byte>)
    requires Scalar(c) && 0x1_0000 <= c && |s| >= 4
    requires s[0] == 0xF0 + c / 0x4_0000 && s[1] == 0x80 + c / 0x1000 % 0x40
    requires s[2] == 0x80 + c / 0x40 % 0x40 && s[3] == 0x80 + c % 0x40
    ensures CharLength(s) == 4
  {
    var d := c / 0x1000;
    assert d / 0x40 == c / 0x4_0000;
    MiddleDigit(d);
    assert 0x10 <= d <= 0x10F;
  }

  lemma CharIsScalar(s: seq<byte>) returns (c: nat)
    requires s != [] && CharLength(s) > 0
    ensures Scalar(c) && s[..CharLength(s)] == CharBytes(c)
  {
    var n := CharLength(s);
    if n == 1 {
      c := s[0];
    } else if n == 2 {
      c := TwoDigits(s[0], s[1]);
    } else if n == 3 {
      c := ThreeDigits(s[0], s[1], s[2]);
    } else {
      c := FourDigits(s[0], s[1], s[2], s[3]);
    }
  }

  lemma TwoDigits(a: byte, b: byte) returns (c: nat)
    requires 0xC2 <= a <= 0xDF && Tail(b)
    ensures Scalar(c) && CharBytes(c) == [a, b]
  {
    var x: int, y: int := a - 0xC0, b - 0x80;
    c := 0x40 * x + y;
    assert c / 0x40 == x && c % 0x40 == y;
  }

  lemma ThreeDigits(a: byte, b: byte, d: byte) returns (c: nat)
    requires 0xE0 <= a <= 0xEF && Tail(b) && Tail(d) && (a == 0xE0 ==> b >= 0xA0) && (a == 0xED ==> b <= 0x9F)
    ensures Scalar(c) && CharBytes(c) == [a, b, d]
  {
    var x: int, y: int, z: int := a - 0xE0, b - 0x80, d - 0x80;
    c := 0x1000 * x + 0x40 * y + z;
    SplitThree(c, x, y, z);
  }

  lemma SplitThree(c: nat, x: int, y: int, z: int)
    requires 0 <= x && 0 <= y < 0x40 && 0 <= z < 0x40 && c == 0x1000 * x + 0x40 * y + z
    ensures c / 0x1000 == x && c / 0x40 % 0x40 == y && c % 0x40 == z
  {
    assert c / 0x40 == 0x40 * x + y;
  }

  lemma FourDigits(a: byte, b: byte, d: byte, e: byte) returns (c: nat)
    requires 0xF0 <= a <= 0xF4 && Tail(b) && Tail(d) && Tail(e) && (a == 0xF0 ==> b >= 0x90) && (a == 0xF4 ==> b <= 0x8F)
    ensures Scalar(c) && CharBytes(c) == [a, b, d, e]
  {
    var x: int, y: int, z: int, w: int := a - 0xF0, b - 0x80, d - 0x80, e - 0x80;
    c := 0x4_0000 * x + 0x1000 * y + 0x40 * z + w;
    SplitThree(c, 0x40 * x + y, z, w);
    assert c / 0x1000 == 0x40 * x + y;
    assert (0x40 * x + y) % 0x40 == y && c / 0x4_0000 == x;
  }

  lemma {:induction false} TextIsUtf8(cs: seq<nat>)
    requires Scalars(cs)
    ensures IsUtf8(TextBytes(cs))
  {
    if cs != [] {
      hide CharLength, CharBytes, Scalar;
      var head, rest := CharBytes(cs[0]), TextBytes(cs[1..]);
      TextIsUtf8(cs[1..]);
      CharIsRead(cs[0], rest);
      assert (head + rest)[|head|..] == rest;
      CharThenText(head + rest, |head|);
    }
  }

  lemma {:induction false} Utf8IsText(s: seq<byte>) returns (cs: seq<nat>)
    requires IsUtf8(s)
    ensures Scalars(cs) && s == TextBytes(cs)
    decreases |s|
  {
    hide *;
    cs := [];
    if s == [] {
      NoChars();
    } else {
      var n := CharLength(s);
      FirstChar(s);
      var c := CharIsScalar(s);
      var rest := Utf8IsText(s[n..]);
      cs := [c] + rest;
      OneMoreChar(c, rest);
      assert s == s[..n] + s[n..];
    }
  }

  lemma NoChars()
    ensures Scalars([]) && TextBytes([]) == []
  {}

  lemma FirstChar(s: seq<byte>)
    requires IsUtf8(s) && s != []
    ensures 0 < CharLength(s) <= |s| && IsUtf8(s[CharLength(s)..])
  {
    hide CharLength;
  }

  lemma OneMoreChar(c: nat, rest: seq<nat>)
    requires Scalar(c) && Scalars(rest)
    ensures Scalars([c] + rest) && TextBytes([c] + rest) == CharBytes(c) + TextBytes(rest)
  {
    hide CharBytes, Scalar;
    assert ([c] + rest)[1..] == rest;
  }

  /** The byte strings that are taken for text are exactly the encodings of code points. */
  lemma Utf8Exactly(s: seq<byte>)
    ensures IsUtf8(s) <==> exists cs :: Scalars(cs) && s == TextBytes(cs)
  {
    hide IsUtf8, Scalars, TextBytes;
    if IsUtf8(s) { var cs := Utf8IsText(s); }
    if cs :| Scalars(cs) && s == TextBytes(cs) { TextIsUtf8(cs); }
  }
}
