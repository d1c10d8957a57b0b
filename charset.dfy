/**
 * Decoding one archive member's bytes to text: strict UTF-8 (the syntax of
 * section 4 of RFC 3629, which is what Python's 'utf-8' codec accepts:
 * no overlong forms, no surrogates, nothing above U+10FFFF), and, when that
 * fails, ISO-8859-1, which maps every byte to the code point of the same value.
 */
module Charset {
  import opened Wrappers

  type Byte = b: int | 0 <= b < 256

  predicate IsTail(b: Byte) {
    0x80 <= b <= 0xBF
  }

  /** The second-byte range of a three-byte sequence, which depends on its first byte. */
  predicate SecondOfThree(b0: Byte, b1: Byte) {
    if b0 == 0xE0 then 0xA0 <= b1 <= 0xBF
    else if b0 == 0xED then 0x80 <= b1 <= 0x9F
    else IsTail(b1)
  }

  /** The second-byte range of a four-byte sequence, which depends on its first byte. */
  predicate SecondOfFour(b0: Byte, b1: Byte) {
    if b0 == 0xF0 then 0x90 <= b1 <= 0xBF
    else if b0 == 0xF4 then 0x80 <= b1 <= 0x8F
    else IsTail(b1)
  }

  /**
   * The character encoded by the well-formed sequence at the start of `b`
   * and the number of bytes it takes, or None when `b` does not start with one.
   */
  function DecodeFirst(b: seq<Byte>): (r: Option<(char, nat)>)
    requires |b| > 0
    ensures r.Some? ==> 1 <= r.value.1 <= 4 && r.value.1 <= |b|
  {
    var b0: int := b[0];
    if b0 < 0x80 then Some((b0 as char, 1))
    else if 0xC2 <= b0 <= 0xDF then
      if |b| >= 2 && IsTail(b[1]) then Some((Point2(b0, b[1]) as char, 2)) else None
    else if 0xE0 <= b0 <= 0xEF then
      if |b| >= 3 && SecondOfThree(b0, b[1]) && IsTail(b[2]) then
        Some((Point3(b0, b[1], b[2]) as char, 3))
      else None
    else if 0xF0 <= b0 <= 0xF4 then
      if |b| >= 4 && SecondOfFour(b0, b[1]) && IsTail(b[2]) && IsTail(b[3]) then
        Some((Point4(b0, b[1], b[2], b[3]) as char, 4))
      else None
    else None
  }

  /** The code point carried by a two-, three- or four-byte sequence. */
  function Point2(b0: int, b1: int): int {
    (b0 - 0xC0) * 64 + (b1 - 0x80)
  }

  function Point3(b0: int, b1: int, b2: int): int {
    (b0 - 0xE0) * 4096 + (b1 - 0x80) * 64 + (b2 - 0x80)
  }

  function Point4(b0: int, b1: int, b2: int, b3: int): int {
    (b0 - 0xF0) * 262144 + (b1 - 0x80) * 4096 + (b2 - 0x80) * 64 + (b3 - 0x80)
  }

  /** `bytes.decode('utf-8')`, None where Python raises UnicodeDecodeError. */
  function DecodeUtf8(b: seq<Byte>): Option<string>
    decreases |b|
  {
    if b == [] then Some([])
    else match DecodeFirst(b)
      case None => None
      case Some((c, n)) =>
        match DecodeUtf8(b[n..])
        case None => None
        case Some(rest) => Some([c] + rest)
  }

  /** The UTF-8 encoding of one character (`str.encode('utf-8')`). */
  function EncodeChar(c: char): (e: seq<Byte>)
    ensures 1 <= |e| <= 4
  {
    var cp := c as int;
    if cp < 0x80 then [cp]
    else if cp < 0x800 then [0xC0 + cp / 64, 0x80 + cp % 64]
    else if cp < 0x10000 then [0xE0 + cp / 4096, 0x80 + (cp / 64) % 64, 0x80 + cp % 64]
    else [0xF0 + cp / 262144, 0x80 + (cp / 4096) % 64, 0x80 + (cp / 64) % 64, 0x80 + cp % 64]
  }

  function EncodeUtf8(s: string): seq<Byte> {
    if s == [] then [] else EncodeChar(s[0]) + EncodeUtf8(s[1..])
  }

  lemma DecodeFirstOfEncodeTwo(c: char, rest: seq<Byte>)
    requires 0x80 <= c as int < 0x800
    ensures DecodeFirst(EncodeChar(c) + rest) == Some((c, 2))
  {
    var cp := c as int;
    assert Point2(0xC0 + cp / 64, 0x80 + cp % 64) == cp;
  }

  /** The base-64 digits of a code point: `cp == 4096 * q2 + 64 * r1 + r0` and so on. */
  lemma SplitBase64(cp: int)
    requires 0 <= cp
    ensures cp / 4096 == (cp / 64) / 64 && cp / 262144 == ((cp / 64) / 64) / 64
    ensures cp == ((cp / 64) / 64) * 4096 + ((cp / 64) % 64) * 64 + cp % 64
    ensures cp / 4096 == (((cp / 64) / 64) / 64) * 64 + ((cp / 64) / 64) % 64
  {
    var q1, r0 := cp / 64, cp % 64;
    var q2, r1 := q1 / 64, q1 % 64;
    var q3, r2 := q2 / 64, q2 % 64;
    assert cp == 64 * q1 + r0 && q1 == 64 * q2 + r1 && q2 == 64 * q3 + r2;
    assert cp == 4096 * q2 + (64 * r1 + r0) && 0 <= 64 * r1 + r0 < 4096;
    assert cp == 262144 * q3 + (4096 * r2 + 64 * r1 + r0) && 0 <= 4096 * r2 + 64 * r1 + r0 < 262144;
  }

  lemma DecodeFirstOfEncodeThree(c: char, rest: seq<Byte>)
    requires 0x800 <= c as int < 0x10000
    ensures DecodeFirst(EncodeChar(c) + rest) == Some((c, 3))
  {
    var cp := c as int;
    SplitBase64(cp);
    var b0, b1, b2 := 0xE0 + cp / 4096, 0x80 + (cp / 64) % 64, 0x80 + cp % 64;
    assert Point3(b0, b1, b2) == cp;
    assert SecondOfThree(b0, b1) by {
      if b0 == 0xE0 {
        assert cp / 64 >= 32;
      } else if b0 == 0xED {
        assert 0xD000 <= cp < 0xD800;
      }
    }
    assert EncodeChar(c) + rest == [b0, b1, b2] + rest;
  }

  lemma DecodeFirstOfEncodeFour(c: char, rest: seq<Byte>)
    requires 0x10000 <= c as int
    ensures DecodeFirst(EncodeChar(c) + rest) == Some((c, 4))
  {
    var cp := c as int;
    SplitBase64(cp);
    var b0, b1, b2, b3 := 0xF0 + cp / 262144, 0x80 + (cp / 4096) % 64, 0x80 + (cp / 64) % 64, 0x80 + cp % 64;
    assert Point4(b0, b1, b2, b3) == cp;
    assert SecondOfFour(b0, b1) by {
      if b0 == 0xF0 {
        assert cp / 4096 >= 16;
      } else if b0 == 0xF4 {
        assert 0x100000 <= cp < 0x110000;
      }
    }
    assert EncodeChar(c) + rest == [b0, b1, b2, b3] + rest;
  }

  lemma DecodeFirstOfEncodeChar(c: char, rest: seq<Byte>)
    ensures DecodeFirst(EncodeChar(c) + rest) == Some((c, |EncodeChar(c)|))
  {
    var cp := c as int;
    if cp < 0x80 {
    } else if cp < 0x800 {
      DecodeFirstOfEncodeTwo(c, rest);
    } else if cp < 0x10000 {
      DecodeFirstOfEncodeThree(c, rest);
    } else {
      DecodeFirstOfEncodeFour(c, rest);
    }
  }

  lemma EncodeTwoOfPoint(b0: int, b1: int)
    requires 0xC2 <= b0 <= 0xDF && 0x80 <= b1 <= 0xBF
    ensures Point2(b0, b1) / 64 == b0 - 0xC0 && Point2(b0, b1) % 64 == b1 - 0x80
  {
  }

  lemma EncodeThreeOfPoint(b0: int, b1: int, b2: int)
    requires 0xE0 <= b0 <= 0xEF && 0x80 <= b1 <= 0xBF && 0x80 <= b2 <= 0xBF
    ensures var cp := Point3(b0, b1, b2);
      cp / 4096 == b0 - 0xE0 && (cp / 64) % 64 == b1 - 0x80 && cp % 64 == b2 - 0x80
  {
    var cp := Point3(b0, b1, b2);
    assert cp / 64 == (b0 - 0xE0) * 64 + (b1 - 0x80);
  }

  lemma EncodeFourOfPoint(b0: int, b1: int, b2: int, b3: int)
    requires 0xF0 <= b0 <= 0xF4 && 0x80 <= b1 <= 0xBF && 0x80 <= b2 <= 0xBF && 0x80 <= b3 <= 0xBF
    ensures var cp := Point4(b0, b1, b2, b3);
      cp / 262144 == b0 - 0xF0 && (cp / 4096) % 64 == b1 - 0x80 &&
      (cp / 64) % 64 == b2 - 0x80 && cp % 64 == b3 - 0x80
  {
    var cp := Point4(b0, b1, b2, b3);
    assert cp / 64 == (b0 - 0xF0) * 4096 + (b1 - 0x80) * 64 + (b2 - 0x80);
    assert cp / 4096 == (b0 - 0xF0) * 64 + (b1 - 0x80);
  }

  lemma EncodeCharOfDecodeFirst(b: seq<Byte>)
    requires |b| > 0 && DecodeFirst(b).Some?
    ensures EncodeChar(DecodeFirst(b).value.0) == b[..DecodeFirst(b).value.1]
  {
    var n := DecodeFirst(b).value.1;
    if n == 2 {
      EncodeTwoOfPoint(b[0], b[1]);
    } else if n == 3 {
      EncodeThreeOfPoint(b[0], b[1], b[2]);
    } else if n == 4 {
      EncodeFourOfPoint(b[0], b[1], b[2], b[3]);
    }
  }

  /** Decoding undoes encoding: the UTF-8 encoding of any string is valid and decodes to it. */
  lemma {:induction false} DecodeOfEncodeUtf8(s: string)
    ensures DecodeUtf8(EncodeUtf8(s)) == Some(s)
  {
    if s != [] {
      var e := EncodeChar(s[0]);
      var rest := EncodeUtf8(s[1..]);
      DecodeFirstOfEncodeChar(s[0], rest);
      assert (e + rest)[|e|..] == rest;
      DecodeOfEncodeUtf8(s[1..]);
      assert s == [s[0]] + s[1..];
    }
  }

  /** Encoding undoes decoding: the bytes that decode to `s` are exactly the encoding of `s`. */
  lemma {:induction false} EncodeOfDecodeUtf8(b: seq<Byte>)
    requires DecodeUtf8(b).Some?
    ensures EncodeUtf8(DecodeUtf8(b).value) == b
    decreases |b|
  {
    if b != [] {
      var (c, n) := DecodeFirst(b).value;
      EncodeCharOfDecodeFirst(b);
      EncodeOfDecodeUtf8(b[n..]);
      var s := DecodeUtf8(b).value;
      assert s[0] == c && s[1..] == DecodeUtf8(b[n..]).value;
      assert b == b[..n] + b[n..];
    }
  }

  /** `bytes.decode('ISO-8859-1')`: total, one character per byte, character i has the value of byte i. */
  function DecodeLatin1(b: seq<Byte>): (text: string)
    ensures |text| == |b|
    ensures forall i :: 0 <= i < |b| ==> text[i] as int == b[i]
  {
    seq(|b|, i requires 0 <= i < |b| => b[i] as char)
  }

  /** The decode with fallback: UTF-8 when the bytes are valid UTF-8, otherwise ISO-8859-1. */
  function DecodeContent(b: seq<Byte>): string {
    match DecodeUtf8(b)
    case Some(text) => text
    case None => DecodeLatin1(b)
  }

  /** Valid UTF-8 content is decoded as UTF-8: the result is the text that was encoded. */
  lemma DecodeContentOfUtf8(s: string)
    ensures DecodeContent(EncodeUtf8(s)) == s
  {
    DecodeOfEncodeUtf8(s);
  }

  /** Content that is the UTF-8 encoding of no string is decoded byte for byte as ISO-8859-1. */
  lemma DecodeContentOfNonUtf8(b: seq<Byte>)
    requires forall s :: EncodeUtf8(s) != b
    ensures DecodeContent(b) == DecodeLatin1(b)
    ensures |DecodeContent(b)| == |b| && forall i :: 0 <= i < |b| ==> DecodeContent(b)[i] as int == b[i]
  {
    if DecodeUtf8(b).Some? {
      EncodeOfDecodeUtf8(b);
      assert EncodeUtf8(DecodeUtf8(b).value) == b;
    }
  }

  /** For pure ASCII content the two decodings agree, so the fallback cannot change the text. */
  lemma {:induction false} AsciiDecodesAlike(b: seq<Byte>)
    requires forall i :: 0 <= i < |b| ==> b[i] < 0x80
    ensures DecodeUtf8(b) == Some(DecodeLatin1(b))
    decreases |b|
  {
    if b != [] {
      AsciiDecodesAlike(b[1..]);
      assert DecodeLatin1(b) == [b[0] as char] + DecodeLatin1(b[1..]);
    }
  }
}
