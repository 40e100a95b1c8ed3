/**
 Well-formed UTF-8 as defined by the syntax of section 4 of RFC 3629, the
 check `String::from_utf8` performs, and the encoding of Unicode scalar values
 from the table in section 3 of RFC 3629 that produces a `String`'s bytes.
 */
module Utf8 {
  import opened Wire

  predicate IsTail(b: byte)
  {
    0x80 <= b <= 0xBF
  }

  /** Length of the well-formed character at the head of `s` (RFC 3629,
      section 4: UTF8-1 .. UTF8-4), or 0 when the head is malformed. */
  function CharLength(s: seq<byte>): (n: nat)
    ensures n <= 4 && n <= |s|
    ensures s == [] ==> n == 0
  {
    if s == [] then 0
    else
      var b0 := s[0];
      if b0 <= 0x7F then 1
      else if 0xC2 <= b0 <= 0xDF then
        if |s| >= 2 && IsTail(s[1]) then 2 else 0
      else if 0xE0 <= b0 <= 0xEF then
        var lo := if b0 == 0xE0 then 0xA0 else 0x80;
        var hi := if b0 == 0xED then 0x9F else 0xBF;
        if |s| >= 3 && lo <= s[1] <= hi && IsTail(s[2]) then 3 else 0
      else if 0xF0 <= b0 <= 0xF4 then
        var lo := if b0 == 0xF0 then 0x90 else 0x80;
        var hi := if b0 == 0xF4 then 0x8F else 0xBF;
        if |s| >= 4 && lo <= s[1] <= hi && IsTail(s[2]) && IsTail(s[3]) then 4 else 0
      else 0
  }

  /** `s` is a concatenation of well-formed characters. */
  predicate ValidUtf8(s: seq<byte>)
    decreases |s|
  {
    s == [] || (CharLength(s) > 0 && ValidUtf8(s[CharLength(s)..]))
  }

  /** A Unicode scalar value: a code point that is not a surrogate. */
  predicate IsScalarValue(c: int)
  {
    0 <= c <= 0x10FFFF && !(0xD800 <= c <= 0xDFFF)
  }

  /** The UTF-8 bytes of one scalar value (RFC 3629, section 3): a marker
      byte carrying the high bits, then 6-bit groups behind `10` prefixes. */
  function EncodeChar(c: int): (bs: seq<byte>)
    requires IsScalarValue(c)
    ensures 1 <= |bs| <= 4
  {
    if c <= 0x7F then [c]
    else if c <= 0x7FF then [0xC0 + c / 64, 0x80 + c % 64]
    else if c <= 0xFFFF then [0xE0 + c / 64 / 64, 0x80 + c / 64 % 64, 0x80 + c % 64]
    else [0xF0 + c / 64 / 64 / 64, 0x80 + c / 64 / 64 % 64, 0x80 + c / 64 % 64, 0x80 + c % 64]
  }

  predicate AllScalarValues(cs: seq<int>)
  {
    forall i :: 0 <= i < |cs| ==> IsScalarValue(cs[i])
  }

  /** The bytes of a string made of the characters `cs` (what `as_bytes` sees). */
  function EncodeChars(cs: seq<int>): (bs: seq<byte>)
    requires AllScalarValues(cs)
  {
    if cs == [] then [] else EncodeChar(cs[0]) + EncodeChars(cs[1..])
  }

  /** The scalar value of the well-formed character at the head of `s`. */
  function DecodeChar(s: seq<byte>): (c: int)
    requires CharLength(s) > 0
  {
    var n := CharLength(s);
    if n == 1 then s[0] as int
    else if n == 2 then Payload(s[0], 0xC0) * 64 + Payload(s[1], 0x80)
    else if n == 3 then (Payload(s[0], 0xE0) * 64 + Payload(s[1], 0x80)) * 64 + Payload(s[2], 0x80)
    else ((Payload(s[0], 0xF0) * 64 + Payload(s[1], 0x80)) * 64 + Payload(s[2], 0x80)) * 64 + Payload(s[3], 0x80)
  }

  /** The bits of a byte below its marker prefix. */
  function Payload(b: byte, marker: byte): int
  {
    b as int - marker as int
  }

  /** The characters of a well-formed byte string. */
  function DecodeChars(s: seq<byte>): (cs: seq<int>)
    requires ValidUtf8(s)
    decreases |s|
  {
    if s == [] then [] else [DecodeChar(s)] + DecodeChars(s[CharLength(s)..])
  }

  lemma Sextet(c: int, q: int, r: int)
    requires 0 <= r < 64 && c == q * 64 + r
    ensures c / 64 == q && c % 64 == r
  {
  }

  /** The 6-bit groups of a three-byte scalar value, with the bounds RFC 3629
      places on the second byte. */
  lemma Sextets3(c: int)
    requires IsScalarValue(c) && 0x800 <= c <= 0xFFFF
    ensures var p0, p1, p2 := c / 64 / 64, c / 64 % 64, c % 64;
      && 0 <= p0 < 16 && 0 <= p1 < 64 && 0 <= p2 < 64
      && c == (p0 * 64 + p1) * 64 + p2
      && (p0 == 0 ==> p1 >= 0x20)
      && (p0 == 0xD ==> p1 < 0x20)
  {
    var q1 := c / 64;
    assert c == q1 * 64 + c % 64;
    assert q1 == q1 / 64 * 64 + q1 % 64;
  }

  /** The 6-bit groups of a four-byte scalar value, with the bounds RFC 3629
      places on the second byte. */
  lemma Sextets4(c: int)
    requires 0x10000 <= c <= 0x10FFFF
    ensures var p0, p1, p2, p3 := c / 64 / 64 / 64, c / 64 / 64 % 64, c / 64 % 64, c % 64;
      && 0 <= p0 <= 4 && 0 <= p1 < 64 && 0 <= p2 < 64 && 0 <= p3 < 64
      && c == ((p0 * 64 + p1) * 64 + p2) * 64 + p3
      && (p0 == 0 ==> p1 >= 0x10)
      && (p0 == 4 ==> p1 < 0x10)
  {
    var q1 := c / 64;
    var q2 := q1 / 64;
    assert c == q1 * 64 + c % 64;
    assert q1 == q2 * 64 + q1 % 64;
    assert q2 == q2 / 64 * 64 + q2 % 64;
  }

  /** Each scalar value's encoding is one well-formed character, whatever follows. */
  lemma EncodeCharWellFormed(c: int, rest: seq<byte>)
    requires IsScalarValue(c)
    ensures CharLength(EncodeChar(c) + rest) == |EncodeChar(c)|
    ensures DecodeChar(EncodeChar(c) + rest) == c
  {
    if c <= 0x7F {
    } else if c <= 0x7FF {
      EncodeTwoWellFormed(c, rest);
    } else if c <= 0xFFFF {
      EncodeThreeWellFormed(c, rest);
    } else {
      EncodeFourWellFormed(c, rest);
    }
  }

  lemma EncodeTwoWellFormed(c: int, rest: seq<byte>)
    requires 0x80 <= c <= 0x7FF
    ensures CharLength(EncodeChar(c) + rest) == 2
    ensures DecodeChar(EncodeChar(c) + rest) == c
  {
    var s := EncodeChar(c) + rest;
    assert s[0] == 0xC0 + c / 64 && s[1] == 0x80 + c % 64;
  }

  lemma EncodeThreeWellFormed(c: int, rest: seq<byte>)
    requires IsScalarValue(c) && 0x800 <= c <= 0xFFFF
    ensures CharLength(EncodeChar(c) + rest) == 3
    ensures DecodeChar(EncodeChar(c) + rest) == c
  {
    var s := EncodeChar(c) + rest;
    Sextets3(c);
    assert s[0] == 0xE0 + c / 64 / 64 && s[1] == 0x80 + c / 64 % 64 && s[2] == 0x80 + c % 64;
  }

  lemma EncodeFourWellFormed(c: int, rest: seq<byte>)
    requires 0x10000 <= c <= 0x10FFFF
    ensures CharLength(EncodeChar(c) + rest) == 4
    ensures DecodeChar(EncodeChar(c) + rest) == c
  {
    var s := EncodeChar(c) + rest;
    Sextets4(c);
    assert s[0] == 0xF0 + c / 64 / 64 / 64 && s[1] == 0x80 + c / 64 / 64 % 64;
    assert s[2] == 0x80 + c / 64 % 64 && s[3] == 0x80 + c % 64;
  }

  /** Decoding a well-formed head character and re-encoding it gives its bytes. */
  lemma DecodeCharInverts(s: seq<byte>)
    requires CharLength(s) > 0
    ensures IsScalarValue(DecodeChar(s))
    ensures EncodeChar(DecodeChar(s)) == s[..CharLength(s)]
  {
    var n := CharLength(s);
    if n == 2 {
      DecodeTwoInverts(s);
    } else if n == 3 {
      DecodeThreeInverts(s);
    } else if n == 4 {
      DecodeFourInverts(s);
    }
  }

  lemma DecodeTwoInverts(s: seq<byte>)
    requires CharLength(s) == 2
    ensures IsScalarValue(DecodeChar(s))
    ensures EncodeChar(DecodeChar(s)) == s[..2]
  {
    var c := DecodeChar(s);
    Sextet(c, Payload(s[0], 0xC0), Payload(s[1], 0x80));
  }

  lemma DecodeThreeInverts(s: seq<byte>)
    requires CharLength(s) == 3
    ensures IsScalarValue(DecodeChar(s))
    ensures EncodeChar(DecodeChar(s)) == s[..3]
  {
    var c := DecodeChar(s);
    var p0, p1, p2 := Payload(s[0], 0xE0), Payload(s[1], 0x80), Payload(s[2], 0x80);
    Sextet(c, p0 * 64 + p1, p2);
    Sextet(p0 * 64 + p1, p0, p1);
  }

  lemma DecodeFourInverts(s: seq<byte>)
    requires CharLength(s) == 4
    ensures IsScalarValue(DecodeChar(s))
    ensures EncodeChar(DecodeChar(s)) == s[..4]
  {
    var c := DecodeChar(s);
    var p0, p1, p2, p3 := Payload(s[0], 0xF0), Payload(s[1], 0x80), Payload(s[2], 0x80), Payload(s[3], 0x80);
    Sextet(c, (p0 * 64 + p1) * 64 + p2, p3);
    Sextet((p0 * 64 + p1) * 64 + p2, p0 * 64 + p1, p2);
    Sextet(p0 * 64 + p1, p0, p1);
  }

  /** Encoding any sequence of scalar values yields well-formed UTF-8 that
      decodes back to the same characters. */
  lemma {:induction false} EncodeCharsValid(cs: seq<int>)
    requires AllScalarValues(cs)
    ensures ValidUtf8(EncodeChars(cs))
    ensures DecodeChars(EncodeChars(cs)) == cs
  {
    if cs != [] {
      var head := EncodeChar(cs[0]);
      var tail := EncodeChars(cs[1..]);
      EncodeCharWellFormed(cs[0], tail);
      assert (head + tail)[|head|..] == tail;
      EncodeCharsValid(cs[1..]);
    }
  }

  /** Every well-formed byte string is the encoding of its characters: so the
      UTF-8 check accepts exactly the byte strings of Rust strings. */
  lemma {:induction false} DecodeCharsValid(s: seq<byte>)
    requires ValidUtf8(s)
    ensures AllScalarValues(DecodeChars(s))
    ensures EncodeChars(DecodeChars(s)) == s
    decreases |s|
  {
    if s != [] {
      var n := CharLength(s);
      var c := DecodeChar(s);
      var tail := DecodeChars(s[n..]);
      assert DecodeChars(s) == [c] + tail;
      DecodeCharInverts(s);
      DecodeCharsValid(s[n..]);
      PrependChar(c, tail);
      SplitAt(s, n);
    }
  }

  lemma SplitAt(s: seq<byte>, n: nat)
    requires n <= |s|
    ensures s[..n] + s[n..] == s
  {
  }

  lemma PrependChar(c: int, cs: seq<int>)
    requires IsScalarValue(c) && AllScalarValues(cs)
    ensures AllScalarValues([c] + cs)
    ensures EncodeChars([c] + cs) == EncodeChar(c) + EncodeChars(cs)
  {
    assert ([c] + cs)[1..] == cs;
  }
}
