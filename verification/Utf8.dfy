/** UTF-8 (RFC 3629): what `from_utf8` accepts, and which characters `trim` takes for white space. */
module Utf8 {
  import opened Bytes

  // ---------- encoding ----------

  /** A code point that is a character: no surrogate. */
  predicate Scalar(c: nat) {
    c < 0xD800 || 0xE000 <= c < 0x11_0000
  }

  function Encode(c: nat): (s: seq<byte>)
    requires Scalar(c)
    ensures s != []
  {
    if c < 0x80 then [c]
    else if c < 0x800 then [0xC0 + c / 64, 0x80 + c % 64]
    else if c < 0x1_0000 then [0xE0 + c / 4096, 0x80 + c / 64 % 64, 0x80 + c % 64]
    else [0xF0 + c / 262144, 0x80 + c / 4096 % 64, 0x80 + c / 64 % 64, 0x80 + c % 64]
  }

  ghost predicate Scalars(text: seq<nat>) {
    forall i :: 0 <= i < |text| ==> Scalar(text[i])
  }

  function EncodeAll(text: seq<nat>): seq<byte>
    requires Scalars(text)
  {
    if text == [] then [] else Encode(text[0]) + EncodeAll(text[1..])
  }

  lemma {:induction false} EncodeBoth(a: seq<nat>, b: seq<nat>)
    requires Scalars(a) && Scalars(b)
    ensures Scalars(a + b) && EncodeAll(a + b) == EncodeAll(a) + EncodeAll(b)
  {
    if a == [] {
      assert a + b == b;
    } else {
      EncodeBoth(a[1..], b);
      assert (a + b)[0] == a[0] && (a + b)[1..] == a[1..] + b;
      Regroup(Encode(a[0]), EncodeAll(a[1..]), EncodeAll(b));
    }
  }

  // ---------- what is valid ----------

  predicate Continuation(s: seq<byte>, i: nat) {
    i < |s| && 0x80 <= s[i] < 0xC0
  }

  /** How many bytes a valid character at the front takes; none when there is no such character. */
  function CharLength(s: seq<byte>): (n: nat)
    ensures n <= |s|
  {
    if s == [] then 0
    else if s[0] < 0x80 then 1
    else if 0xC2 <= s[0] < 0xE0 then (if Continuation(s, 1) then 2 else 0)
    else if 0xE0 <= s[0] < 0xF0 then
      if Continuation(s, 1) && Continuation(s, 2)
         && (s[0] == 0xE0 ==> s[1] >= 0xA0) && (s[0] == 0xED ==> s[1] < 0xA0) then 3 else 0
    else if 0xF0 <= s[0] < 0xF5 then
      if Continuation(s, 1) && Continuation(s, 2) && Continuation(s, 3)
         && (s[0] == 0xF0 ==> s[1] >= 0x90) && (s[0] == 0xF4 ==> s[1] < 0x90) then 4 else 0
    else 0
  }

  /** `str::from_utf8(s).is_ok()`. */
  predicate ValidUtf8(s: seq<byte>) {
    s == [] || (CharLength(s) > 0 && ValidUtf8(s[CharLength(s)..]))
  }

  lemma EncodedLength(c: nat, rest: seq<byte>)
    requires Scalar(c)
    ensures CharLength(Encode(c) + rest) == |Encode(c)|
  {
    if 0x800 <= c < 0x1_0000 {
      assert c / 4096 == 0 ==> c / 64 % 64 >= 32;
      assert c / 4096 == 13 ==> c / 64 % 64 < 32 || c >= 0xD800;
    } else if c >= 0x1_0000 {
      assert c / 262144 == 0 ==> c / 4096 % 64 >= 16;
      assert c / 262144 == 4 ==> c / 4096 % 64 < 16;
    }
  }

  function Code2(a: nat, b: nat): nat {
    a * 64 + b
  }

  function Code3(a: nat, b: nat, c: nat): nat {
    Code2(a, b) * 64 + c
  }

  function Code4(a: nat, b: nat, c: nat, d: nat): nat {
    Code3(a, b, c) * 64 + d
  }

  lemma Digits64(high: nat, low: nat)
    requires low < 64
    ensures Code2(high, low) / 64 == high && Code2(high, low) % 64 == low
  {
  }

  lemma Digits3(a: nat, b: nat, c: nat)
    requires b < 64 && c < 64
    ensures var v := Code3(a, b, c);
            v / 4096 == a && v / 64 % 64 == b && v % 64 == c
  {
    Digits64(a, b);
    Digits64(Code2(a, b), c);
    assert Code3(a, b, c) == 4096 * a + (64 * b + c);
  }

  lemma Digits4(a: nat, b: nat, c: nat, d: nat)
    requires b < 64 && c < 64 && d < 64
    ensures var v := Code4(a, b, c, d);
            v / 262144 == a && v / 4096 % 64 == b && v / 64 % 64 == c && v % 64 == d
  {
    Digits3(a, b, c);
    Digits64(Code3(a, b, c), d);
    assert Code4(a, b, c, d) == 4096 * Code2(a, b) + (64 * c + d);
    Digits64(a, b);
    assert Code4(a, b, c, d) == 262144 * a + (4096 * b + 64 * c + d);
  }

  lemma Char2(a: nat, b: nat)
    requires 2 <= a < 32 && b < 64
    ensures Scalar(Code2(a, b)) && Encode(Code2(a, b)) == [0xC0 + a, 0x80 + b]
  {
    Digits64(a, b);
  }

  lemma Char3(a: nat, b: nat, c: nat)
    requires a < 16 && b < 64 && c < 64 && (a == 0 ==> b >= 32) && (a == 13 ==> b < 32)
    ensures Scalar(Code3(a, b, c)) && Encode(Code3(a, b, c)) == [0xE0 + a, 0x80 + b, 0x80 + c]
  {
    Digits3(a, b, c);
  }

  lemma Char4(a: nat, b: nat, c: nat, d: nat)
    requires a < 5 && b < 64 && c < 64 && d < 64 && (a == 0 ==> b >= 16) && (a == 4 ==> b < 16)
    ensures Scalar(Code4(a, b, c, d)) && Encode(Code4(a, b, c, d)) == [0xF0 + a, 0x80 + b, 0x80 + c, 0x80 + d]
  {
    Digits4(a, b, c, d);
  }

  /** The character at the front of a valid text. */
  lemma CharIsEncoded(s: seq<byte>) returns (c: nat)
    requires CharLength(s) > 0
    ensures Scalar(c) && Encode(c) == s[..CharLength(s)]
  {
    var n := CharLength(s);
    if n == 1 {
      c := s[0];
      assert s[..1] == [s[0]];
    } else if n == 2 {
      var x: nat, y: nat := s[0] as int - 0xC0, s[1] as int - 0x80;
      c := Code2(x, y);
      Char2(x, y);
      assert s[..2] == [s[0], s[1]];
    } else if n == 3 {
      var x: nat, y: nat, z: nat := s[0] as int - 0xE0, s[1] as int - 0x80, s[2] as int - 0x80;
      c := Code3(x, y, z);
      Char3(x, y, z);
      assert s[..3] == [s[0], s[1], s[2]];
    } else {
      var x: nat, y: nat := s[0] as int - 0xF0, s[1] as int - 0x80;
      var z: nat, w: nat := s[2] as int - 0x80, s[3] as int - 0x80;
      c := Code4(x, y, z, w);
      Char4(x, y, z, w);
      assert s[..4] == [s[0], s[1], s[2], s[3]];
    }
  }

  lemma EncodeCons(c: nat, rest: seq<nat>) returns (text: seq<nat>)
    requires Scalar(c) && Scalars(rest)
    ensures text == [c] + rest && Scalars(text) && EncodeAll(text) == Encode(c) + EncodeAll(rest)
  {
    text := [c] + rest;
    assert text[1..] == rest;
  }

  lemma {:induction false} EncodedIsValid(text: seq<nat>)
    requires Scalars(text)
    ensures ValidUtf8(EncodeAll(text))
  {
    if text != [] {
      EncodedLength(text[0], EncodeAll(text[1..]));
      EncodedIsValid(text[1..]);
    }
  }

  lemma CharInFront(s: seq<byte>) returns (c: nat, rest: seq<byte>)
    requires s != [] && ValidUtf8(s)
    ensures Scalar(c) && s == Encode(c) + rest && ValidUtf8(rest)
  {
    c := CharIsEncoded(s);
    rest := s[CharLength(s)..];
  }

  lemma {:induction false} ValidIsEncoded(s: seq<byte>) returns (text: seq<nat>)
    requires ValidUtf8(s)
    ensures Scalars(text) && EncodeAll(text) == s
    decreases |s|
  {
    if s == [] {
      text := [];
    } else {
      var c, rest := CharInFront(s);
      var later := ValidIsEncoded(rest);
      text := EncodeCons(c, later);
    }
  }

  /** What is accepted is exactly what encodes some text. */
  lemma ValidExactly(s: seq<byte>)
    ensures ValidUtf8(s) <==> exists text :: Scalars(text) && EncodeAll(text) == s
  {
    if ValidUtf8(s) {
      var text := ValidIsEncoded(s);
    }
    if text :| Scalars(text) && EncodeAll(text) == s {
      EncodedIsValid(text);
    }
  }

  lemma ValidBoth(a: seq<byte>, b: seq<byte>)
    requires ValidUtf8(a) && ValidUtf8(b)
    ensures ValidUtf8(a + b)
  {
    var s := ValidIsEncoded(a);
    var t := ValidIsEncoded(b);
    EncodeBoth(s, t);
    EncodedIsValid(s + t);
  }

  lemma {:induction false} AsciiIsUtf8(s: seq<byte>)
    requires forall i :: 0 <= i < |s| ==> s[i] < 0x80
    ensures ValidUtf8(s)
  {
    if s != [] {
      AsciiIsUtf8(s[1..]);
    }
  }

  // ---------- white space ----------

  /** Unicode's `White_Space`, which `trim` drops. */
  predicate WhiteSpace(c: nat) {
    || 0x9 <= c <= 0xD || c == 0x20 || c == 0x85 || c == 0xA0 || c == 0x1680 || 0x2000 <= c <= 0x200A
    || c == 0x2028 || c == 0x2029 || c == 0x202F || c == 0x205F || c == 0x3000
  }

  ghost predicate Blank(text: seq<nat>): (blank: bool)
    ensures blank ==> Scalars(text)
  {
    forall i :: 0 <= i < |text| ==> WhiteSpace(text[i])
  }

  predicate IsSpace(c: byte) {
    c == 32 || 9 <= c <= 13
  }

  /** U+0085 and U+00A0. */
  predicate IsSpace2(a: byte, b: byte) {
    a == 0xC2 && (b == 0x85 || b == 0xA0)
  }

  /** U+1680, U+2000 to U+200A, U+2028, U+2029, U+202F, U+205F and U+3000. */
  predicate IsSpace3(a: byte, b: byte, c: byte) {
    || (a == 0xE1 && b == 0x9A && c == 0x80)
    || (a == 0xE2 && b == 0x80 && (0x80 <= c <= 0x8A || c == 0xA8 || c == 0xA9 || c == 0xAF))
    || (a == 0xE2 && b == 0x81 && c == 0x9F)
    || (a == 0xE3 && b == 0x80 && c == 0x80)
  }

  /** How many bytes a white-space character at the front takes: none when there is none. No two
      characters overlap in UTF-8, so this is also right where the text is decoded lossily. */
  function SpaceAtStart(s: seq<byte>): (n: nat)
    ensures n <= |s|
  {
    if |s| >= 1 && IsSpace(s[0]) then 1
    else if |s| >= 2 && IsSpace2(s[0], s[1]) then 2
    else if |s| >= 3 && IsSpace3(s[0], s[1], s[2]) then 3
    else 0
  }

  function SpaceAtEnd(s: seq<byte>): (n: nat)
    ensures n <= |s|
  {
    var e := |s|;
    if e >= 1 && IsSpace(s[e - 1]) then 1
    else if e >= 2 && IsSpace2(s[e - 2], s[e - 1]) then 2
    else if e >= 3 && IsSpace3(s[e - 3], s[e - 2], s[e - 1]) then 3
    else 0
  }

  function TrimStart(s: seq<byte>): seq<byte> {
    if SpaceAtStart(s) > 0 then TrimStart(s[SpaceAtStart(s)..]) else s
  }

  function TrimEnd(s: seq<byte>): seq<byte> {
    if SpaceAtEnd(s) > 0 then TrimEnd(s[..|s| - SpaceAtEnd(s)]) else s
  }

  lemma WhiteBytes(c: nat)
    requires WhiteSpace(c)
    ensures var e := Encode(c);
            || (|e| == 1 && IsSpace(e[0]))
            || (|e| == 2 && IsSpace2(e[0], e[1]) && !IsSpace(e[0]) && !IsSpace(e[1]))
            || (|e| == 3 && IsSpace3(e[0], e[1], e[2]) && !IsSpace(e[0]) && !IsSpace(e[2]) && !IsSpace2(e[1], e[2]))
  {
    var e := Encode(c);
    if c < 0x80 {
      assert e == [c];
    } else if c < 0x800 {
      assert e == [0xC2, c];
    } else {
      assert e == [0xE0 + c / 4096, 0x80 + c / 64 % 64, 0x80 + c % 64];
    }
  }

  lemma SpacesAreWhite(e: seq<byte>) returns (c: nat)
    requires || (|e| == 1 && IsSpace(e[0])) || (|e| == 2 && IsSpace2(e[0], e[1]))
             || (|e| == 3 && IsSpace3(e[0], e[1], e[2]))
    ensures WhiteSpace(c) && Encode(c) == e
  {
    assert CharLength(e) == |e|;
    c := CharIsEncoded(e);
    assert e[..|e|] == e;
  }

  lemma SpaceStep(c: nat, rest: seq<byte>)
    requires WhiteSpace(c)
    ensures TrimStart(Encode(c) + rest) == TrimStart(rest)
  {
    WhiteBytes(c);
    var e := Encode(c);
    assert (e + rest)[|e|..] == rest;
  }

  /** Trimming drops the white space in front, all of it, and nothing else. */
  lemma {:induction false} TrimStartBlank(blank: seq<nat>, s: seq<byte>)
    requires Blank(blank) && SpaceAtStart(s) == 0
    ensures TrimStart(EncodeAll(blank) + s) == s
  {
    if blank == [] {
      assert [] + s == s;
    } else {
      TrimStartBlank(blank[1..], s);
      SpaceStep(blank[0], EncodeAll(blank[1..]) + s);
      Regroup(Encode(blank[0]), EncodeAll(blank[1..]), s);
    }
  }

  lemma SpaceInFront(s: seq<byte>) returns (c: nat, rest: seq<byte>)
    requires SpaceAtStart(s) > 0
    ensures WhiteSpace(c) && s == Encode(c) + rest && TrimStart(s) == TrimStart(rest)
  {
    var n := SpaceAtStart(s);
    c := SpacesAreWhite(s[..n]);
    rest := s[n..];
  }

  lemma OneMoreInFront(c: nat, later: seq<nat>, t: seq<byte>) returns (blank: seq<nat>)
    requires WhiteSpace(c) && Blank(later)
    ensures Blank(blank) && EncodeAll(blank) + t == Encode(c) + (EncodeAll(later) + t)
  {
    blank := EncodeCons(c, later);
    Regroup(Encode(c), EncodeAll(later), t);
  }

  lemma {:induction false} TrimStartParts(s: seq<byte>) returns (blank: seq<nat>, t: seq<byte>)
    ensures t == TrimStart(s) && SpaceAtStart(t) == 0
    ensures Blank(blank) && s == EncodeAll(blank) + t
    decreases |s|
  {
    if SpaceAtStart(s) == 0 {
      blank, t := [], s;
      assert s == [] + s;
    } else {
      var c, rest := SpaceInFront(s);
      var later;
      later, t := TrimStartParts(rest);
      blank := OneMoreInFront(c, later, t);
    }
  }

  lemma SnocEncoded(front: seq<nat>, last: nat) returns (text: seq<nat>)
    requires Scalars(front) && Scalar(last)
    ensures text == front + [last] && Scalars(text) && EncodeAll(text) == EncodeAll(front) + Encode(last)
  {
    text := front + [last];
    EncodeBoth(front, [last]);
    assert [last][1..] == [] && Encode(last) + [] == Encode(last);
  }

  lemma SpaceStepBack(s: seq<byte>, c: nat)
    requires WhiteSpace(c)
    ensures TrimEnd(s + Encode(c)) == TrimEnd(s)
  {
    WhiteBytes(c);
    var e := Encode(c);
    assert (s + e)[..|s|] == s;
    assert (s + e)[|s|..] == e;
    assert SpaceAtEnd(s + e) == |e|;
  }

  lemma {:induction false} TrimEndBlank(s: seq<byte>, blank: seq<nat>)
    requires Blank(blank) && SpaceAtEnd(s) == 0
    ensures TrimEnd(s + EncodeAll(blank)) == s
  {
    if blank == [] {
      assert s + [] == s;
    } else {
      var front, last := blank[..|blank| - 1], blank[|blank| - 1];
      TrimEndBlank(s, front);
      var text := SnocEncoded(front, last);
      assert text == blank;
      SpaceStepBack(s + EncodeAll(front), last);
      Regroup(s, EncodeAll(front), Encode(last));
    }
  }

  lemma SpaceBehind(s: seq<byte>) returns (front: seq<byte>, c: nat)
    requires SpaceAtEnd(s) > 0
    ensures WhiteSpace(c) && s == front + Encode(c) && TrimEnd(s) == TrimEnd(front)
  {
    var n := |s| - SpaceAtEnd(s);
    front := s[..n];
    c := SpacesAreWhite(s[n..]);
  }

  lemma OneMoreBehind(t: seq<byte>, front: seq<nat>, c: nat) returns (blank: seq<nat>)
    requires Blank(front) && WhiteSpace(c)
    ensures Blank(blank) && t + EncodeAll(blank) == (t + EncodeAll(front)) + Encode(c)
  {
    blank := SnocEncoded(front, c);
    Regroup(t, EncodeAll(front), Encode(c));
  }

  lemma {:induction false} TrimEndParts(s: seq<byte>) returns (t: seq<byte>, blank: seq<nat>)
    ensures t == TrimEnd(s) && SpaceAtEnd(t) == 0
    ensures Blank(blank) && s == t + EncodeAll(blank)
    decreases |s|
  {
    if SpaceAtEnd(s) == 0 {
      t, blank := s, [];
      assert s == s + [];
    } else {
      var rest, c := SpaceBehind(s);
      var front;
      t, front := TrimEndParts(rest);
      blank := OneMoreBehind(t, front, c);
    }
  }
}
