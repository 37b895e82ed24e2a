/** Ranging over a string: which bytes the loop takes together as one rune. */
module Runes {
  import opened ByteStrings

  predicate Between(x: byte, lo: nat, hi: nat) {
    lo <= x <= hi
  }

  /** Byte `i` of `s` is there and continues a rune. */
  predicate Continues(s: Bytes, i: nat) {
    i < |s| && Between(s[i], 0x80, 0xBF)
  }

  /** How far ranging over a string moves from position `i`: a well-formed UTF-8 rune, or one byte of anything else. */
  function RuneWidth(s: Bytes, i: nat): (w: nat)
    requires i < |s|
    ensures 1 <= w && i + w <= |s|
  {
    var x := s[i];
    if Between(x, 0xC2, 0xDF) && Continues(s, i + 1) then 2
    else if Between(x, 0xE0, 0xEF) && Continues(s, i + 1) && Continues(s, i + 2)
         && (x == 0xE0 ==> 0xA0 <= s[i + 1]) && (x == 0xED ==> s[i + 1] <= 0x9F) then 3
    else if Between(x, 0xF0, 0xF4) && Continues(s, i + 1) && Continues(s, i + 2) && Continues(s, i + 3)
         && (x == 0xF0 ==> 0x90 <= s[i + 1]) && (x == 0xF4 ==> s[i + 1] <= 0x8F) then 4
    else 1
  }

  /** A code point that is no surrogate. */
  predicate Scalar(c: nat) {
    c < 0xD800 || 0xE000 <= c < 0x11_0000
  }

  /** UTF-8, section 3 of RFC 3629. */
  function Utf8(c: nat): (s: Bytes)
    requires Scalar(c)
    ensures 1 <= |s| <= 4 && (|s| == 1 <==> c < 0x80)
  {
    if c < 0x80 then [c]
    else if c < 0x800 then [0xC0 + c / 64, 0x80 + c % 64]
    else if c < 0x1_0000 then [0xE0 + c / 64 / 64, 0x80 + c / 64 % 64, 0x80 + c % 64]
    else [0xF0 + c / 64 / 64 / 64, 0x80 + c / 64 / 64 % 64, 0x80 + c / 64 % 64, 0x80 + c % 64]
  }

  /** A code point of more than one byte is written at place `i`. */
  predicate Written(s: Bytes, i: nat, c: nat) {
    Scalar(c) && 0x80 <= c && i + |Utf8(c)| <= |s| && s[i..i + |Utf8(c)|] == Utf8(c)
  }

  /** Six more bits. */
  function Six(c: nat, x: nat): nat {
    c * 64 + x
  }

  lemma SixOff(c: nat, x: nat)
    requires x < 64
    ensures Six(c, x) / 64 == c && Six(c, x) % 64 == x
  {
  }

  lemma BytesAt(s: Bytes, i: nat, u: Bytes, k: nat)
    requires i + |u| <= |s| && s[i..i + |u|] == u && k < |u|
    ensures s[i + k] == u[k]
  {
    assert s[i..i + |u|][k] == s[i + k];
  }

  lemma WrittenWidth(s: Bytes, i: nat, c: nat)
    requires Written(s, i, c)
    ensures i < |s| && RuneWidth(s, i) == |Utf8(c)|
  {
    var u := Utf8(c);
    assert s[i] == u[0] by { BytesAt(s, i, u, 0); }
    assert s[i + 1] == u[1] by { BytesAt(s, i, u, 1); }
    assert |u| > 2 ==> s[i + 2] == u[2] by { if |u| > 2 { BytesAt(s, i, u, 2); } }
    assert |u| > 3 ==> s[i + 3] == u[3] by { if |u| > 3 { BytesAt(s, i, u, 3); } }
  }

  lemma TwoBytes(x: byte, y: byte) returns (c: nat)
    requires 0xC2 <= x <= 0xDF && 0x80 <= y <= 0xBF
    ensures 0x80 <= c < 0x800 && Scalar(c) && Utf8(c) == [x, y]
  {
    var x': nat, y': nat := x, y;
    c := Six(x' - 0xC0, y' - 0x80);
    SixOff(x' - 0xC0, y' - 0x80);
  }

  lemma ThreeBytes(x: byte, y: byte, z: byte) returns (c: nat)
    requires 0xE0 <= x <= 0xEF && 0x80 <= y <= 0xBF && 0x80 <= z <= 0xBF
    requires (x == 0xE0 ==> 0xA0 <= y) && (x == 0xED ==> y <= 0x9F)
    ensures 0x800 <= c < 0x1_0000 && Scalar(c) && Utf8(c) == [x, y, z]
  {
    var x': nat, y': nat, z': nat := x, y, z;
    var d := Six(x' - 0xE0, y' - 0x80);
    c := Six(d, z' - 0x80);
    SixOff(x' - 0xE0, y' - 0x80);
    SixOff(d, z' - 0x80);
  }

  lemma FourBytes(x: byte, y: byte, z: byte, t: byte) returns (c: nat)
    requires 0xF0 <= x <= 0xF4 && 0x80 <= y <= 0xBF && 0x80 <= z <= 0xBF && 0x80 <= t <= 0xBF
    requires (x == 0xF0 ==> 0x90 <= y) && (x == 0xF4 ==> y <= 0x8F)
    ensures 0x1_0000 <= c && Scalar(c) && Utf8(c) == [x, y, z, t]
  {
    var x': nat, y': nat, z': nat, t': nat := x, y, z, t;
    var d := Six(x' - 0xF0, y' - 0x80);
    var e := Six(d, z' - 0x80);
    c := Six(e, t' - 0x80);
    SixOff(x' - 0xF0, y' - 0x80);
    SixOff(d, z' - 0x80);
    SixOff(e, t' - 0x80);
  }

  lemma WidthIsWritten(s: Bytes, i: nat) returns (c: nat)
    requires i < |s| && RuneWidth(s, i) > 1
    ensures Written(s, i, c) && |Utf8(c)| == RuneWidth(s, i)
  {
    hide Utf8, Scalar;
    var w := RuneWidth(s, i);
    if w == 2 {
      c := TwoBytes(s[i], s[i + 1]);
      assert s[i..i + 2] == [s[i], s[i + 1]];
    } else if w == 3 {
      c := ThreeBytes(s[i], s[i + 1], s[i + 2]);
      assert s[i..i + 3] == [s[i], s[i + 1], s[i + 2]];
    } else {
      c := FourBytes(s[i], s[i + 1], s[i + 2], s[i + 3]);
      assert s[i..i + 4] == [s[i], s[i + 1], s[i + 2], s[i + 3]];
    }
  }

  /** Ranging moves by more than one byte exactly over the UTF-8 writing of a code point of more than one byte. */
  lemma RuneWidthIff(s: Bytes, i: nat)
    requires i < |s|
    ensures RuneWidth(s, i) > 1 <==> exists c :: Written(s, i, c)
    ensures forall c :: Written(s, i, c) ==> RuneWidth(s, i) == |Utf8(c)|
  {
    hide RuneWidth, Utf8;
    forall c | Written(s, i, c)
      ensures RuneWidth(s, i) == |Utf8(c)| > 1
    {
      WrittenWidth(s, i, c);
    }
    if RuneWidth(s, i) > 1 {
      var c := WidthIsWritten(s, i);
    }
  }
}
