/** Which byte strings are well-formed UTF-8 (section 4 of RFC 3629). */
module Utf8 {
  import opened Bytes

  /** A Rust string, as the bytes that `as_bytes` gives. */
  type utf8 = s: bytes | ValidUtf8(s) witness []

  predicate Tail(b: byte) {
    0x80 <= b <= 0xBF
  }

  /** Bytes taken by the well-formed character that starts `s`, or 0 if none does. */
  function CharLength(s: bytes): (n: nat)
    requires s != []
    ensures n <= |s|
  {
    var b := s[0];
    if b <= 0x7F then 1
    else if 0xC2 <= b <= 0xDF then
      if |s| >= 2 && Tail(s[1]) then 2 else 0
    else if 0xE0 <= b <= 0xEF then
      if |s| >= 3 && Tail(s[1]) && Tail(s[2]) && (b == 0xE0 ==> s[1] >= 0xA0) && (b == 0xED ==> s[1] <= 0x9F)
      then 3 else 0
    else if 0xF0 <= b <= 0xF4 then
      if |s| >= 4 && Tail(s[1]) && Tail(s[2]) && Tail(s[3]) && (b == 0xF0 ==> s[1] >= 0x90)
         && (b == 0xF4 ==> s[1] <= 0x8F)
      then 4 else 0
    else 0
  }

  predicate ValidUtf8(s: bytes)
    decreases |s|
  {
    s == [] || (CharLength(s) > 0 && ValidUtf8(s[CharLength(s)..]))
  }

  // ---- The characters

  /** A Unicode scalar value: a code point that is no surrogate. */
  predicate Scalar(c: nat) {
    c <= 0x10FFFF && !(0xD800 <= c <= 0xDFFF)
  }

  /** The table of section 3 of RFC 3629. */
  function CharBytes(c: nat): (s: bytes)
    requires Scalar(c)
    ensures 1 <= |s| <= 4
  {
    if c <= 0x7F then [c as byte]
    else if c <= 0x7FF then [(0xC0 + c / 64) as byte, (0x80 + c % 64) as byte]
    else if c <= 0xFFFF then
      [(0xE0 + c / 4096) as byte, (0x80 + c / 64 % 64) as byte, (0x80 + c % 64) as byte]
    else
      [(0xF0 + c / 262144) as byte, (0x80 + c / 4096 % 64) as byte, (0x80 + c / 64 % 64) as byte,
       (0x80 + c % 64) as byte]
  }

  predicate AllScalar(chars: seq<nat>) {
    forall i :: 0 <= i < |chars| ==> Scalar(chars[i])
  }

  function TextBytes(chars: seq<nat>): bytes
    requires AllScalar(chars)
  {
    if chars == [] then [] else CharBytes(chars[0]) + TextBytes(chars[1..])
  }

  /** A number and its digits to the base 64. */
  lemma Sextets(c: nat)
    ensures c == 64 * (c / 64) + c % 64
    ensures c == 4096 * (c / 4096) + 64 * (c / 64 % 64) + c % 64
    ensures c == 262144 * (c / 262144) + 4096 * (c / 4096 % 64) + 64 * (c / 64 % 64) + c % 64
  {
    var a := c / 64;
    var b := a / 64;
    assert c == 64 * a + c % 64 && a == 64 * b + a % 64 && b == 64 * (b / 64) + b % 64;
    assert b == c / 4096 && b / 64 == c / 262144;
  }

  lemma Digits(h: nat, x: nat, y: nat, z: nat)
    requires x < 64 && y < 64 && z < 64
    ensures var c := 262144 * h + 4096 * x + 64 * y + z;
            c / 262144 == h && c / 4096 % 64 == x && c / 64 % 64 == y && c % 64 == z
  {
    var c := 262144 * h + 4096 * x + 64 * y + z;
    assert c == 64 * (4096 * h + 64 * x + y) + z;
    assert c / 64 == 64 * (64 * h + x) + y;
    assert c / 4096 == 64 * h + x;
  }

  lemma TwoAreRead(c: nat, rest: bytes)
    requires 0x80 <= c <= 0x7FF
    ensures CharLength(CharBytes(c) + rest) == 2
  {
    Sextets(c);
    var s := CharBytes(c) + rest;
    assert s[0] == (0xC0 + c / 64) as byte && s[1] == (0x80 + c % 64) as byte;
    hide CharBytes;
  }

  lemma ThreeAreRead(c: nat, rest: bytes)
    requires 0x800 <= c <= 0xFFFF && Scalar(c)
    ensures CharLength(CharBytes(c) + rest) == 3
  {
    Sextets(c);
    var s := CharBytes(c) + rest;
    var h, x, y := c / 4096, c / 64 % 64, c % 64;
    assert |s| >= 3 && s[0] == (0xE0 + h) as byte && s[1] == (0x80 + x) as byte && s[2] == (0x80 + y) as byte;
    hide CharBytes;
    assert c == 4096 * h + 64 * x + y && h <= 15;
    assert h == 0 ==> x >= 32;
    assert h == 13 ==> x <= 31;
  }

  lemma FourAreRead(c: nat, rest: bytes)
    requires 0x10000 <= c <= 0x10FFFF
    ensures CharLength(CharBytes(c) + rest) == 4
  {
    Sextets(c);
    var s := CharBytes(c) + rest;
    var h, x, y, z := c / 262144, c / 4096 % 64, c / 64 % 64, c % 64;
    assert |s| >= 4 && s[0] == (0xF0 + h) as byte && s[1] == (0x80 + x) as byte;
    assert s[2] == (0x80 + y) as byte && s[3] == (0x80 + z) as byte;
    hide CharBytes;
    assert c == 262144 * h + 4096 * x + 64 * y + z && h <= 4;
    assert h == 0 ==> x >= 16;
    assert h == 4 ==> x <= 15;
  }

  lemma CharIsRead(c: nat, rest: bytes)
    requires Scalar(c)
    ensures CharLength(CharBytes(c) + rest) == |CharBytes(c)|
  {
    if c <= 0x7F {
      assert (CharBytes(c) + rest)[0] == c as byte;
    } else if c <= 0x7FF {
      TwoAreRead(c, rest);
    } else if c <= 0xFFFF {
      ThreeAreRead(c, rest);
    } else {
      FourAreRead(c, rest);
    }
    hide CharLength;
  }

  /** The number behind a well-formed character. */
  lemma CharOf(s: bytes) returns (c: nat)
    requires s != [] && CharLength(s) > 0
    ensures Scalar(c) && CharBytes(c) == s[..CharLength(s)]
  {
    var n := CharLength(s);
    var h := s[0] as nat;
    if n == 1 {
      c := h;
    } else if n == 2 {
      var x := s[1] as nat - 0x80;
      c := 64 * (h - 0xC0) + x;
      Digits(0, 0, h - 0xC0, x);
      assert CharBytes(c) == [s[0], s[1]];
    } else if n == 3 {
      var x, y := s[1] as nat - 0x80, s[2] as nat - 0x80;
      c := 4096 * (h - 0xE0) + 64 * x + y;
      Digits(0, h - 0xE0, x, y);
      ThreeBytes(c, h - 0xE0, x, y);
    } else {
      var x, y, z := s[1] as nat - 0x80, s[2] as nat - 0x80, s[3] as nat - 0x80;
      c := 262144 * (h - 0xF0) + 4096 * x + 64 * y + z;
      FourBytes(c, h - 0xF0, x, y, z);
    }
  }

  lemma FourBytes(c: nat, h: nat, x: nat, y: nat, z: nat)
    requires h <= 4 && x < 64 && y < 64 && z < 64 && c == 262144 * h + 4096 * x + 64 * y + z
    requires (h == 0 ==> x >= 16) && (h == 4 ==> x <= 15)
    ensures Scalar(c)
    ensures CharBytes(c) == [(0xF0 + h) as byte, (0x80 + x) as byte, (0x80 + y) as byte, (0x80 + z) as byte]
  {
    Digits(h, x, y, z);
  }

  lemma ThreeBytes(c: nat, h: nat, x: nat, y: nat)
    requires h < 16 && x < 64 && y < 64 && c == 4096 * h + 64 * x + y
    requires (h == 0 ==> x >= 32) && (h == 13 ==> x <= 31)
    ensures Scalar(c) && CharBytes(c) == [(0xE0 + h) as byte, (0x80 + x) as byte, (0x80 + y) as byte]
  {
    Digits(0, h, x, y);
    assert c / 4096 == h;
  }

  /** Well-formed are the encodings of character strings. */
  lemma {:induction false} TextIsValid(chars: seq<nat>)
    requires AllScalar(chars)
    ensures ValidUtf8(TextBytes(chars))
  {
    if chars != [] {
      var rest := TextBytes(chars[1..]);
      CharIsRead(chars[0], rest);
      TextIsValid(chars[1..]);
      hide CharBytes, CharLength;
      assert (CharBytes(chars[0]) + rest)[|CharBytes(chars[0])|..] == rest;
    }
  }

  /** And no other byte strings. */
  lemma {:induction false} ValidIsText(s: bytes) returns (chars: seq<nat>)
    requires ValidUtf8(s)
    ensures AllScalar(chars) && TextBytes(chars) == s
    decreases |s|
  {
    hide CharBytes, CharLength;
    if s == [] {
      chars := [];
    } else {
      var n := CharLength(s);
      var first := CharOf(s);
      var rest := ValidIsText(s[n..]);
      chars := [first] + rest;
      assert chars[1..] == rest && s == s[..n] + s[n..];
    }
  }
}
