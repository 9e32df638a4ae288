/**
 UTF-8 and UTF-16 text as RFC 3629 and RFC 2781 define it, with rapidjson's encoders (encodings.h).

 Shifts and masks are written as multiplication, division and remainder by powers of two; `|` is always applied to
 operands without a common bit, where it is addition.
 */
module Utf {
  import opened Common

  type word = x: int | 0 <= x < 0x1_0000

  /** A code point outside the surrogate range. */
  predicate Scalar(c: int) {
    0 <= c <= 0x10FFFF && !(0xD800 <= c <= 0xDFFF)
  }

  // ----- UTF-8: the grammar of section 4 of RFC 3629

  predicate Tail(b: byte) {
    0x80 <= b <= 0xBF
  }

  predicate Utf8Char(s: seq<byte>) {
    || (|s| == 1 && s[0] <= 0x7F)
    || (|s| == 2 && 0xC2 <= s[0] <= 0xDF && Tail(s[1]))
    || (|s| == 3 && Tail(s[2]) &&
        (|| (s[0] == 0xE0 && 0xA0 <= s[1] <= 0xBF)
         || (0xE1 <= s[0] <= 0xEC && Tail(s[1]))
         || (s[0] == 0xED && 0x80 <= s[1] <= 0x9F)
         || (0xEE <= s[0] <= 0xEF && Tail(s[1]))))
    || (|s| == 4 && Tail(s[2]) && Tail(s[3]) &&
        (|| (s[0] == 0xF0 && 0x90 <= s[1] <= 0xBF)
         || (0xF1 <= s[0] <= 0xF3 && Tail(s[1]))
         || (s[0] == 0xF4 && 0x80 <= s[1] <= 0x8F)))
  }

  /** Six-bit groups put together. */
  function Bits(a: int, b: int, c: int, d: int): int {
    a * 0x4_0000 + b * 0x1000 + c * 0x40 + d
  }

  lemma TakeApart(a: nat, b: nat, c: nat, d: nat)
    requires b < 0x40 && c < 0x40 && d < 0x40
    ensures var v := Bits(a, b, c, d);
            v % 0x40 == d && v / 0x40 == a * 0x1000 + b * 0x40 + c && v / 0x1000 == a * 0x40 + b && v / 0x4_0000 == a
    ensures (a * 0x1000 + b * 0x40 + c) % 0x40 == c && (a * 0x40 + b) % 0x40 == b
  {
  }

  lemma PutTogether(v: nat)
    ensures v == Bits(v / 0x4_0000, v / 0x1000 % 0x40, v / 0x40 % 0x40, v % 0x40)
    ensures v / 0x1000 == v / 0x4_0000 * 0x40 + v / 0x1000 % 0x40
    ensures v / 0x40 == v / 0x1000 * 0x40 + v / 0x40 % 0x40
  {
    var high := v / 0x40;
    var higher := high / 0x40;
    TakeApart(higher / 0x40, higher % 0x40, high % 0x40, v % 0x40);
  }

  /** The payload bits of a character, most significant first (section 3 of RFC 3629). */
  function Value8(s: seq<byte>): (c: nat)
    requires Utf8Char(s)
    ensures Scalar(c)
  {
    if |s| == 1 then s[0]
    else if |s| == 2 then Bits(0, 0, s[0] - 0xC0, s[1] - 0x80)
    else if |s| == 3 then Bits(0, s[0] - 0xE0, s[1] - 0x80, s[2] - 0x80)
    else Bits(s[0] - 0xF0, s[1] - 0x80, s[2] - 0x80, s[3] - 0x80)
  }

  /** UTF8::Encode. Surrogates are encoded too. */
  function Encode8(c: nat): (s: seq<byte>)
    requires c <= 0x10FFFF
    ensures 1 <= |s| <= 4
  {
    if c <= 0x7F then [c]
    else if c <= 0x7FF then [0xC0 + c / 0x40, 0x80 + c % 0x40]
    else if c <= 0xFFFF then [0xE0 + c / 0x1000, 0x80 + c / 0x40 % 0x40, 0x80 + c % 0x40]
    else [0xF0 + c / 0x4_0000, 0x80 + c / 0x1000 % 0x40, 0x80 + c / 0x40 % 0x40, 0x80 + c % 0x40]
  }

  /** What is encoded is well formed exactly for scalar values, and then carries the value. */
  lemma Encode8Exact(c: nat)
    requires c <= 0x10FFFF
    ensures Utf8Char(Encode8(c)) <==> Scalar(c)
    ensures Scalar(c) ==> Value8(Encode8(c)) == c
  {
    PutTogether(c);
  }

  lemma Encode8Groups(a: nat, b: nat, c: nat, d: nat)
    requires b < 0x40 && c < 0x40 && d < 0x40 && Bits(a, b, c, d) <= 0x10FFFF
    ensures a == 0 && b == 0 && 2 <= c < 0x20 ==> Encode8(Bits(a, b, c, d)) == [0xC0 + c, 0x80 + d]
    ensures a == 0 && 0x20 <= b * 0x40 + c && b < 0x10 ==> Encode8(Bits(a, b, c, d)) == [0xE0 + b, 0x80 + c, 0x80 + d]
    ensures 0x10 <= a * 0x40 + b && a <= 4 ==> Encode8(Bits(a, b, c, d)) == [0xF0 + a, 0x80 + b, 0x80 + c, 0x80 + d]
  {
    TakeApart(a, b, c, d);
  }

  /** A well-formed character is the only encoding of its value. */
  lemma Value8Exact(s: seq<byte>)
    requires Utf8Char(s)
    ensures Encode8(Value8(s)) == s
  {
    hide Encode8;
    if |s| == 2 {
      Encode8Groups(0, 0, s[0] - 0xC0, s[1] - 0x80);
    } else if |s| == 3 {
      Encode8Groups(0, s[0] - 0xE0, s[1] - 0x80, s[2] - 0x80);
    } else if |s| == 4 {
      Encode8Groups(s[0] - 0xF0, s[1] - 0x80, s[2] - 0x80, s[3] - 0x80);
    } else {
      Encode8Ascii(s[0]);
    }
  }

  lemma Encode8Ascii(c: nat)
    requires c <= 0x7F
    ensures Encode8(c) == [c]
  {
  }

  /** The number of bytes a first byte announces; 1 for a byte that starts nothing. */
  function Length8(lead: byte): (n: nat)
    ensures 1 <= n <= 4
  {
    if lead < 0xC2 then 1
    else if lead <= 0xDF then 2
    else if lead <= 0xEF then 3
    else if lead <= 0xF4 then 4
    else 1
  }

  lemma CharLength(s: seq<byte>)
    requires Utf8Char(s)
    ensures |s| == Length8(s[0])
  {
  }

  // ----- UTF-8 text

  predicate Utf8Text(s: seq<byte>) {
    s == [] || (Length8(s[0]) <= |s| && Utf8Char(s[..Length8(s[0])]) && Utf8Text(s[Length8(s[0])..]))
  }

  function Decode8(s: seq<byte>): seq<nat>
    requires Utf8Text(s)
  {
    if s == [] then [] else [Value8(s[..Length8(s[0])])] + Decode8(s[Length8(s[0])..])
  }

  predicate Scalars(cs: seq<nat>) {
    forall i :: 0 <= i < |cs| ==> Scalar(cs[i])
  }

  function EncodeAll8(cs: seq<nat>): seq<byte>
    requires Scalars(cs)
  {
    if cs == [] then [] else Encode8(cs[0]) + EncodeAll8(cs[1..])
  }

  /** Text that starts with a character: its first step. */
  lemma Text8Step(c: seq<byte>, rest: seq<byte>)
    requires Utf8Char(c)
    ensures Utf8Text(c + rest) <==> Utf8Text(rest)
    ensures Utf8Text(rest) ==> Decode8(c + rest) == [Value8(c)] + Decode8(rest)
  {
    CharLength(c);
    assert (c + rest)[..|c|] == c && (c + rest)[|c|..] == rest;
  }

  /** Any encoded scalar values are text that decodes to them. */
  lemma {:induction false} EncodeDecode8(cs: seq<nat>)
    requires Scalars(cs)
    ensures Utf8Text(EncodeAll8(cs)) && Decode8(EncodeAll8(cs)) == cs
  {
    if cs != [] {
      EncodeDecode8(cs[1..]);
      Encode8Exact(cs[0]);
      Text8Step(Encode8(cs[0]), EncodeAll8(cs[1..]));
    }
  }

  /** Text is the only encoding of the scalar values it holds. */
  lemma {:induction false} DecodeEncode8(s: seq<byte>)
    requires Utf8Text(s)
    ensures Scalars(Decode8(s)) && EncodeAll8(Decode8(s)) == s
    decreases |s|
  {
    hide Utf8Char;
    hide Value8;
    hide Encode8;
    hide Length8;
    if s != [] {
      var n := Length8(s[0]);
      DecodeEncode8(s[n..]);
      Value8Exact(s[..n]);
      assert Decode8(s)[1..] == Decode8(s[n..]);
      assert s == s[..n] + s[n..];
    }
  }

  // ----- UTF-16: sections 2.1 and 2.2 of RFC 2781

  predicate Utf16Char(s: seq<word>) {
    || (|s| == 1 && !(0xD800 <= s[0] <= 0xDFFF))
    || (|s| == 2 && 0xD800 <= s[0] <= 0xDBFF && 0xDC00 <= s[1] <= 0xDFFF)
  }

  function Value16(s: seq<word>): (c: nat)
    requires Utf16Char(s)
    ensures Scalar(c)
  {
    if |s| == 1 then s[0]
    else
      var high: int, low: int := s[0], s[1];
      0x1_0000 + (high - 0xD800) * 0x400 + (low - 0xDC00)
  }

  /** UTF16::Encode; the code asserts that its argument is a scalar value. */
  function Encode16(c: nat): (s: seq<word>)
    requires Scalar(c)
    ensures 1 <= |s| <= 2
  {
    if c <= 0xFFFF then [c] else [0xD800 + (c - 0x1_0000) / 0x400, 0xDC00 + (c - 0x1_0000) % 0x400]
  }

  lemma Encode16Exact(c: nat)
    requires Scalar(c)
    ensures Utf16Char(Encode16(c)) && Value16(Encode16(c)) == c
  {
  }

  lemma Value16Exact(s: seq<word>)
    requires Utf16Char(s)
    ensures Encode16(Value16(s)) == s
  {
  }

  function Length16(lead: word): nat {
    if 0xD800 <= lead <= 0xDBFF then 2 else 1
  }

  predicate Utf16Text(s: seq<word>) {
    s == [] || (Length16(s[0]) <= |s| && Utf16Char(s[..Length16(s[0])]) && Utf16Text(s[Length16(s[0])..]))
  }

  function Decode16(s: seq<word>): seq<nat>
    requires Utf16Text(s)
  {
    if s == [] then [] else [Value16(s[..Length16(s[0])])] + Decode16(s[Length16(s[0])..])
  }

  function EncodeAll16(cs: seq<nat>): seq<word>
    requires Scalars(cs)
  {
    if cs == [] then [] else Encode16(cs[0]) + EncodeAll16(cs[1..])
  }

  lemma Text16Step(c: seq<word>, rest: seq<word>)
    requires Utf16Char(c)
    ensures Utf16Text(c + rest) <==> Utf16Text(rest)
    ensures Utf16Text(rest) ==> Decode16(c + rest) == [Value16(c)] + Decode16(rest)
  {
    assert (c + rest)[..|c|] == c && (c + rest)[|c|..] == rest;
  }

  lemma {:induction false} EncodeDecode16(cs: seq<nat>)
    requires Scalars(cs)
    ensures Utf16Text(EncodeAll16(cs)) && Decode16(EncodeAll16(cs)) == cs
  {
    if cs != [] {
      EncodeDecode16(cs[1..]);
      Encode16Exact(cs[0]);
      Text16Step(Encode16(cs[0]), EncodeAll16(cs[1..]));
    }
  }

  lemma {:induction false} DecodeEncode16(s: seq<word>)
    requires Utf16Text(s)
    ensures Scalars(Decode16(s)) && EncodeAll16(Decode16(s)) == s
    decreases |s|
  {
    if s != [] {
      var n := Length16(s[0]);
      DecodeEncode16(s[n..]);
      Value16Exact(s[..n]);
      assert Decode16(s)[1..] == Decode16(s[n..]);
      assert s == s[..n] + s[n..];
    }
  }

  // ----- transcoding whole texts

  function To16(s: seq<byte>): seq<word>
    requires Utf8Text(s)
  {
    DecodeEncode8(s);
    EncodeAll16(Decode8(s))
  }

  function To8(s: seq<word>): seq<byte>
    requires Utf16Text(s)
  {
    DecodeEncode16(s);
    EncodeAll8(Decode16(s))
  }

  /** Transcoding UTF-8 text to UTF-16 and back gives the same bytes. */
  lemma ThereAndBack(s: seq<byte>)
    requires Utf8Text(s)
    ensures Utf16Text(To16(s)) && To8(To16(s)) == s
  {
    DecodeEncode8(s);
    EncodeDecode16(Decode8(s));
  }

  /** The other way round as well: the two kinds of text correspond one to one. */
  lemma BackAndThere(s: seq<word>)
    requires Utf16Text(s)
    ensures Utf8Text(To8(s)) && To16(To8(s)) == s
  {
    DecodeEncode16(s);
    EncodeDecode8(Decode16(s));
  }
}
