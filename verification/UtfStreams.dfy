/**
 rapidjson's codecs as they run over streams (encodings.h): the range-table automaton of UTF-8, the surrogate pairs of
 UTF-16, and the transcoder between them, proved against the grammars in Utf.
 */
module UtfStreams {
  import opened Common
  import opened Utf

  // ----- streams

  /**
   An input stream over a buffer; past the end it keeps reading NUL and stays where it is. A stream over a terminated
   string, which does not know its end, reads a buffer that goes on behind the terminator.
   */
  class Input<T> {
    const src: seq<T>
    const nul: T
    var pos: nat

    constructor (src: seq<T>, nul: T)
      ensures this.src == src && this.nul == nul && pos == 0
    {
      this.src, this.nul, pos := src, nul, 0;
    }

    function Peek(): T
      reads this
    {
      At(src, nul, pos)
    }

    method Take() returns (c: T)
      requires pos <= |src|
      modifies this
      ensures c == At(src, nul, old(pos)) && pos == Advance(src, old(pos), 1)
    {
      if pos == |src| {
        return nul;
      }
      c := src[pos];
      pos := pos + 1;
    }
  }

  class Output<T> {
    var out: seq<T>

    constructor ()
      ensures out == []
    {
      out := [];
    }

    method Put(c: T)
      modifies this
      ensures out == old(out) + [c]
    {
      out := out + [c];
    }
  }

  function At<T>(src: seq<T>, nul: T, i: nat): T {
    if i < |src| then src[i] else nul
  }

  /** The next `n` units, as the stream at `pos` delivers them. */
  function Ahead<T>(src: seq<T>, nul: T, pos: nat, n: nat): (s: seq<T>)
    requires 1 <= n <= 4
    ensures |s| == n && s[0] == At(src, nul, pos)
    ensures pos + n <= |src| ==> s == src[pos..pos + n]
  {
    if n == 1 then [At(src, nul, pos)]
    else if n == 2 then [At(src, nul, pos), At(src, nul, pos + 1)]
    else if n == 3 then [At(src, nul, pos), At(src, nul, pos + 1), At(src, nul, pos + 2)]
    else [At(src, nul, pos), At(src, nul, pos + 1), At(src, nul, pos + 2), At(src, nul, pos + 3)]
  }

  function Advance<T>(src: seq<T>, pos: nat, n: nat): nat {
    if pos + n <= |src| then pos + n else |src|
  }

  /** Advancing unit by unit reads what lies ahead. */
  lemma Advancing<T>(src: seq<T>, nul: T, pos: nat)
    requires pos <= |src|
    ensures Advance(src, pos, 1) <= |src| && At(src, nul, Advance(src, pos, 1)) == At(src, nul, pos + 1)
    ensures Advance(src, Advance(src, pos, 1), 1) == Advance(src, pos, 2) <= |src|
    ensures At(src, nul, Advance(src, pos, 2)) == At(src, nul, pos + 2)
    ensures Advance(src, Advance(src, pos, 2), 1) == Advance(src, pos, 3) <= |src|
    ensures At(src, nul, Advance(src, pos, 3)) == At(src, nul, pos + 3)
    ensures Advance(src, Advance(src, pos, 3), 1) == Advance(src, pos, 4) <= |src|
  {
  }

  // ----- the range table

  /** UTF8::GetRange: the class of a byte. */
  function Range(c: byte): nat {
    if c < 0x80 then 0
    else if c < 0x90 then 0x10
    else if c < 0xA0 then 0x40
    else if c < 0xC0 then 0x20
    else if c < 0xC2 then 8
    else if c < 0xE0 then 2
    else if c == 0xE0 then 10
    else if c == 0xED then 4
    else if c < 0xF0 then 3
    else if c == 0xF0 then 11
    else if c < 0xF4 then 6
    else if c == 0xF4 then 5
    else 8
  }

  /** The two numbers have this bit in common. */
  predicate Share(a: nat, b: nat, bit: nat)
    requires bit > 0
  {
    a / bit % 2 == 1 && b / bit % 2 == 1
  }

  /** `(range & mask) != 0` on bytes. */
  predicate Meets(range: nat, mask: nat) {
    || Share(range, mask, 0x80) || Share(range, mask, 0x40) || Share(range, mask, 0x20) || Share(range, mask, 0x10)
    || Share(range, mask, 8) || Share(range, mask, 4) || Share(range, mask, 2) || Share(range, mask, 1)
  }

  /** `(0xFF >> kind) & c`. */
  function LeadBits(kind: nat, c: byte): nat {
    if kind >= 8 then 0 else c % Pow2(8 - kind)
  }

  /** The masks the automaton applies to the bytes after the first select exactly these ranges. */
  lemma MasksSelect(c: byte)
    ensures Meets(Range(c), 0x70) <==> Tail(c)
    ensures Meets(Range(c), 0x50) <==> 0x80 <= c <= 0x9F
    ensures Meets(Range(c), 0x10) <==> 0x80 <= c <= 0x8F
    ensures Meets(Range(c), 0x20) <==> 0xA0 <= c <= 0xBF
    ensures Meets(Range(c), 0x60) <==> 0x90 <= c <= 0xBF
    ensures Tail(c) ==> c % 0x40 == c - 0x80
  {
  }

  /** The class of a first byte, and the payload bits it carries. */
  lemma LeadKinds(c: byte)
    requires c >= 0x80
    ensures Range(c) == 2 <==> 0xC2 <= c <= 0xDF
    ensures Range(c) == 3 <==> 0xE1 <= c <= 0xEF && c != 0xED
    ensures Range(c) == 4 <==> c == 0xED
    ensures Range(c) == 5 <==> c == 0xF4
    ensures Range(c) == 6 <==> 0xF1 <= c <= 0xF3
    ensures Range(c) == 10 <==> c == 0xE0
    ensures Range(c) == 11 <==> c == 0xF0
    ensures Range(c) == 2 ==> LeadBits(2, c) == c - 0xC0
    ensures Range(c) in {3, 4, 10} ==> LeadBits(Range(c), c) == c - 0xE0
    ensures Range(c) in {5, 6, 11} ==> LeadBits(Range(c), c) == c - 0xF0
  {
    assert Pow2(6) == 64 && Pow2(5) == 32 && Pow2(4) == 16 && Pow2(3) == 8 && Pow2(2) == 4;
  }

  // ----- UTF-8

  /** UTF8::Encode. */
  method Encode8To(output: Output<byte>, codepoint: nat)
    requires codepoint <= 0x10FFFF
    modifies output
    ensures output.out == old(output.out) + Encode8(codepoint)
  {
    PutTogether(codepoint);
    if codepoint <= 0x7F {
      output.Put(codepoint);
    } else if codepoint <= 0x7FF {
      output.Put(0xC0 + codepoint / 0x40);
      output.Put(0x80 + codepoint % 0x40);
    } else if codepoint <= 0xFFFF {
      output.Put(0xE0 + codepoint / 0x1000);
      output.Put(0x80 + codepoint / 0x40 % 0x40);
      output.Put(0x80 + codepoint % 0x40);
    } else {
      output.Put(0xF0 + codepoint / 0x4_0000);
      output.Put(0x80 + codepoint / 0x1000 % 0x40);
      output.Put(0x80 + codepoint / 0x40 % 0x40);
      output.Put(0x80 + codepoint % 0x40);
    }
  }

  /** One byte after the first: shift its bits in and check its class. */
  method Follow(input: Input<byte>, codepoint: nat, ok: bool, mask: nat) returns (codepoint': nat, ok': bool)
    requires input.pos <= |input.src|
    modifies input
    ensures input.pos == Advance(input.src, old(input.pos), 1)
    ensures codepoint' == codepoint * 0x40 + At(input.src, input.nul, old(input.pos)) % 0x40
    ensures ok' == (ok && Meets(Range(At(input.src, input.nul, old(input.pos))), mask))
  {
    var c := input.Take();
    codepoint' := codepoint * 0x40 + c % 0x40;
    ok' := ok && Meets(Range(c), mask);
  }

  /** UTF8::Decode: accepts exactly a well-formed character, and always reads as many bytes as the first announces. */
  method Decode8From(input: Input<byte>) returns (ok: bool, codepoint: nat)
    requires input.pos <= |input.src| && input.nul == 0
    modifies input
    ensures var n := Length8(At(input.src, 0, old(input.pos)));
            var s := Ahead(input.src, 0, old(input.pos), n);
            && input.pos == Advance(input.src, old(input.pos), n)
            && ok == Utf8Char(s)
            && (ok ==> codepoint == Value8(s))
  {
    hide Range;
    hide Meets;
    hide LeadBits;
    Advancing(input.src, input.nul, input.pos);
    hide Advance;
    hide At;
    var c := input.Take();
    if c < 0x80 {
      return true, c;
    }
    LeadKinds(c);
    MasksSelect(At(input.src, 0, input.pos));
    var kind := Range(c);
    codepoint, ok := LeadBits(kind, c), true;
    if kind == 2 {
      codepoint, ok := Follow(input, codepoint, ok, 0x70);
    } else if kind == 3 {
      codepoint, ok := Follow(input, codepoint, ok, 0x70);
      MasksSelect(At(input.src, 0, input.pos));
      codepoint, ok := Follow(input, codepoint, ok, 0x70);
    } else if kind == 4 {
      codepoint, ok := Follow(input, codepoint, ok, 0x50);
      MasksSelect(At(input.src, 0, input.pos));
      codepoint, ok := Follow(input, codepoint, ok, 0x70);
    } else if kind == 5 {
      codepoint, ok := Follow(input, codepoint, ok, 0x10);
      MasksSelect(At(input.src, 0, input.pos));
      codepoint, ok := Follow(input, codepoint, ok, 0x70);
      MasksSelect(At(input.src, 0, input.pos));
      codepoint, ok := Follow(input, codepoint, ok, 0x70);
    } else if kind == 6 {
      codepoint, ok := Follow(input, codepoint, ok, 0x70);
      MasksSelect(At(input.src, 0, input.pos));
      codepoint, ok := Follow(input, codepoint, ok, 0x70);
      MasksSelect(At(input.src, 0, input.pos));
      codepoint, ok := Follow(input, codepoint, ok, 0x70);
    } else if kind == 10 {
      codepoint, ok := Follow(input, codepoint, ok, 0x20);
      MasksSelect(At(input.src, 0, input.pos));
      codepoint, ok := Follow(input, codepoint, ok, 0x70);
    } else if kind == 11 {
      codepoint, ok := Follow(input, codepoint, ok, 0x60);
      MasksSelect(At(input.src, 0, input.pos));
      codepoint, ok := Follow(input, codepoint, ok, 0x70);
      MasksSelect(At(input.src, 0, input.pos));
      codepoint, ok := Follow(input, codepoint, ok, 0x70);
    } else {
      ok := false;
    }
  }

  /** A byte copied through while its class is checked. */
  method Copy(input: Input<byte>, output: Output<byte>, ok: bool, mask: nat) returns (ok': bool)
    requires input.pos <= |input.src|
    modifies input, output
    ensures input.pos == Advance(input.src, old(input.pos), 1)
    ensures output.out == old(output.out) + [At(input.src, input.nul, old(input.pos))]
    ensures ok' == (ok && Meets(Range(At(input.src, input.nul, old(input.pos))), mask))
  {
    var c := input.Take();
    output.Put(c);
    ok' := ok && Meets(Range(c), mask);
  }

  /** UTF8::Validate: the same verdict and the same reading as Decode8From, and every byte read is copied. */
  method Validate8(input: Input<byte>, output: Output<byte>) returns (ok: bool)
    requires input.pos <= |input.src| && input.nul == 0
    modifies input, output
    ensures var n := Length8(At(input.src, 0, old(input.pos)));
            var s := Ahead(input.src, 0, old(input.pos), n);
            && input.pos == Advance(input.src, old(input.pos), n)
            && ok == Utf8Char(s)
            && output.out == old(output.out) + s
  {
    hide Range;
    hide Meets;
    Advancing(input.src, input.nul, input.pos);
    hide Advance;
    hide At;
    var c := input.Take();
    output.Put(c);
    if c < 0x80 {
      return true;
    }
    LeadKinds(c);
    MasksSelect(At(input.src, 0, input.pos));
    var kind := Range(c);
    ok := true;
    if kind == 2 {
      ok := Copy(input, output, ok, 0x70);
    } else if kind == 3 {
      ok := Copy(input, output, ok, 0x70);
      MasksSelect(At(input.src, 0, input.pos));
      ok := Copy(input, output, ok, 0x70);
    } else if kind == 4 {
      ok := Copy(input, output, ok, 0x50);
      MasksSelect(At(input.src, 0, input.pos));
      ok := Copy(input, output, ok, 0x70);
    } else if kind == 5 {
      ok := Copy(input, output, ok, 0x10);
      MasksSelect(At(input.src, 0, input.pos));
      ok := Copy(input, output, ok, 0x70);
      MasksSelect(At(input.src, 0, input.pos));
      ok := Copy(input, output, ok, 0x70);
    } else if kind == 6 {
      ok := Copy(input, output, ok, 0x70);
      MasksSelect(At(input.src, 0, input.pos));
      ok := Copy(input, output, ok, 0x70);
      MasksSelect(At(input.src, 0, input.pos));
      ok := Copy(input, output, ok, 0x70);
    } else if kind == 10 {
      ok := Copy(input, output, ok, 0x20);
      MasksSelect(At(input.src, 0, input.pos));
      ok := Copy(input, output, ok, 0x70);
    } else if kind == 11 {
      ok := Copy(input, output, ok, 0x60);
      MasksSelect(At(input.src, 0, input.pos));
      ok := Copy(input, output, ok, 0x70);
      MasksSelect(At(input.src, 0, input.pos));
      ok := Copy(input, output, ok, 0x70);
    } else {
      ok := false;
    }
  }

  /**
   Decoding accepts exactly when what is left starts with a well-formed character, with one exception: at the end of
   the stream it reads a NUL and accepts it.
   */
  lemma AcceptsExactly(src: seq<byte>, pos: nat)
    requires pos <= |src|
    ensures Utf8Char(Ahead(src, 0, pos, Length8(At(src, 0, pos)))) <==>
      pos == |src| || exists n :: pos <= n <= |src| && Utf8Char(src[pos..n])
  {
    var n := Length8(At(src, 0, pos));
    assert pos < |src| && Utf8Char(Ahead(src, 0, pos, n)) ==> pos + n <= |src|;
    forall k | pos <= k <= |src| && Utf8Char(src[pos..k]) ensures k == pos + n {
      CharLength(src[pos..k]);
    }
  }

  // ----- UTF-16

  /** UTF16::Encode. */
  method Encode16To(output: Output<word>, codepoint: nat)
    requires Scalar(codepoint)
    modifies output
    ensures output.out == old(output.out) + Encode16(codepoint)
  {
    if codepoint <= 0xFFFF {
      output.Put(codepoint);
    } else {
      var v := codepoint - 0x1_0000;
      output.Put(v / 0x400 + 0xD800);
      output.Put(v % 0x400 + 0xDC00);
    }
  }

  /** UTF16::Decode: accepts exactly a unit outside the surrogate range or a surrogate pair. */
  method Decode16From(input: Input<word>) returns (ok: bool, codepoint: nat)
    requires input.pos <= |input.src| && input.nul == 0
    modifies input
    ensures var n := Length16(At(input.src, 0, old(input.pos)));
            var s := Ahead(input.src, 0, old(input.pos), n);
            && input.pos == Advance(input.src, old(input.pos), n)
            && ok == Utf16Char(s)
            && (ok ==> codepoint == Value16(s))
  {
    var c := input.Take();
    if c < 0xD800 || c > 0xDFFF {
      return true, c;
    } else if c <= 0xDBFF {
      var high: int := c;
      codepoint := high % 0x400 * 0x400;
      c := input.Take();
      codepoint := codepoint + c % 0x400;
      codepoint := codepoint + 0x1_0000;
      ok := 0xDC00 <= c <= 0xDFFF;
    } else {
      return false, 0;
    }
  }

  /** UTF16::Validate: the same verdict and the same reading as Decode16From, and every unit read is copied. */
  method Validate16(input: Input<word>, output: Output<word>) returns (ok: bool)
    requires input.pos <= |input.src| && input.nul == 0
    modifies input, output
    ensures var n := Length16(At(input.src, 0, old(input.pos)));
            var s := Ahead(input.src, 0, old(input.pos), n);
            && input.pos == Advance(input.src, old(input.pos), n)
            && ok == Utf16Char(s)
            && output.out == old(output.out) + s
  {
    var c := input.Take();
    output.Put(c);
    if c < 0xD800 || c > 0xDFFF {
      return true;
    } else if c <= 0xDBFF {
      c := input.Take();
      output.Put(c);
      ok := 0xDC00 <= c <= 0xDFFF;
    } else {
      return false;
    }
  }

  // ----- the transcoder

  /** Transcoder::Transcode from UTF-8 to UTF-16: what is decoded always meets the assertion of the encoder. */
  method Transcode8To16(input: Input<byte>, output: Output<word>) returns (ok: bool)
    requires input.pos <= |input.src| && input.nul == 0
    modifies input, output
    ensures var n := Length8(At(input.src, 0, old(input.pos)));
            var s := Ahead(input.src, 0, old(input.pos), n);
            && input.pos == Advance(input.src, old(input.pos), n)
            && ok == Utf8Char(s)
            && output.out == if ok then old(output.out) + Encode16(Value8(s)) else old(output.out)
  {
    var codepoint;
    ok, codepoint := Decode8From(input);
    if !ok {
      return false;
    }
    Encode16To(output, codepoint);
  }

  method Transcode16To8(input: Input<word>, output: Output<byte>) returns (ok: bool)
    requires input.pos <= |input.src| && input.nul == 0
    modifies input, output
    ensures var n := Length16(At(input.src, 0, old(input.pos)));
            var s := Ahead(input.src, 0, old(input.pos), n);
            && input.pos == Advance(input.src, old(input.pos), n)
            && ok == Utf16Char(s)
            && output.out == if ok then old(output.out) + Encode8(Value16(s)) else old(output.out)
  {
    var codepoint;
    ok, codepoint := Decode16From(input);
    if !ok {
      return false;
    }
    Encode8To(output, codepoint);
  }

  /** A text starting at `pos` is its next character and the text behind it; transcoding goes along. */
  lemma NextChar8(src: seq<byte>, pos: nat)
    requires pos < |src|
    ensures var n := Length8(src[pos]);
            var s := Ahead(src, 0, pos, n);
            if Utf8Char(s) then
              && pos + n <= |src| && (Utf8Text(src[pos..]) <==> Utf8Text(src[pos + n..]))
              && (Utf8Text(src[pos..]) ==> To16(src[pos..]) == Encode16(Value8(s)) + To16(src[pos + n..]))
            else
              !Utf8Text(src[pos..])
  {
    var n := Length8(src[pos]);
    var s := Ahead(src, 0, pos, n);
    assert pos + n <= |src| ==> src[pos..][..n] == s;
    if Utf8Char(s) {
      assert pos + n <= |src|;
      assert src[pos..] == s + src[pos + n..];
      Text8Step(s, src[pos + n..]);
    }
  }

  lemma NextChar16(src: seq<word>, pos: nat)
    requires pos < |src|
    ensures var n := Length16(src[pos]);
            var s := Ahead(src, 0, pos, n);
            if Utf16Char(s) then
              && pos + n <= |src| && (Utf16Text(src[pos..]) <==> Utf16Text(src[pos + n..]))
              && (Utf16Text(src[pos..]) ==> To8(src[pos..]) == Encode8(Value16(s)) + To8(src[pos + n..]))
            else
              !Utf16Text(src[pos..])
  {
    var n := Length16(src[pos]);
    var s := Ahead(src, 0, pos, n);
    assert pos + n <= |src| ==> src[pos..][..n] == s;
    if Utf16Char(s) {
      assert pos + n <= |src|;
      assert src[pos..] == s + src[pos + n..];
      Text16Step(s, src[pos + n..]);
    }
  }

  /** `out` and the transcoding of what is left from `pos` make up `out0` and the transcoding of the whole. */
  ghost predicate Carried8(src: seq<byte>, pos: nat, out0: seq<word>, out: seq<word>)
    requires pos <= |src|
  {
    && (Utf8Text(src) <==> Utf8Text(src[pos..]))
    && (Utf8Text(src) ==> out0 + To16(src) == out + To16(src[pos..]))
  }

  lemma Carry8(src: seq<byte>, pos: nat, out0: seq<word>, out: seq<word>)
    requires pos < |src| && Carried8(src, pos, out0, out)
    ensures var n := Length8(src[pos]);
            var s := Ahead(src, 0, pos, n);
            if Utf8Char(s) then
              pos + n <= |src| && Carried8(src, pos + n, out0, out + Encode16(Value8(s)))
            else
              !Utf8Text(src)
  {
    hide Utf8Text;
    hide To16;
    hide Utf8Char;
    hide Value8;
    hide Encode16;
    hide Ahead;
    NextChar8(src, pos);
    if Utf8Text(src) {
      var n := Length8(src[pos]);
      var s := Ahead(src, 0, pos, n);
      if Utf8Char(s) {
        assert out + (Encode16(Value8(s)) + To16(src[pos + n..])) == out + Encode16(Value8(s)) + To16(src[pos + n..]);
      }
    }
  }

  /** No character reaches over the terminator, whatever is behind it. */
  lemma Terminated8(src: seq<byte>, length: nat, pos: nat)
    requires pos < length <= |src| && At(src, 0, length) == 0
    ensures var n := Length8(src[pos]);
            var s, t := Ahead(src, 0, pos, n), Ahead(src[..length], 0, pos, n);
            && (Utf8Char(s) <==> Utf8Char(t))
            && (Utf8Char(s) ==> s == t && pos + n <= length)
  {
    var n := Length8(src[pos]);
    if pos + n <= length {
      assert src[..length][pos..pos + n] == src[pos..pos + n];
    } else {
      assert Ahead(src, 0, pos, n)[length - pos] == Ahead(src[..length], 0, pos, n)[length - pos] == 0;
    }
  }

  predicate NulBefore<T(==)>(src: seq<T>, pos: nat, nul: T)
    requires pos <= |src|
  {
    nul in src[..pos]
  }

  /** A NUL is a character of its own. */
  lemma NextNul8(src: seq<byte>, pos: nat)
    requires pos < |src|
    ensures var n := Length8(src[pos]);
            && (Utf8Char(Ahead(src, 0, pos, n)) && pos + n <= |src| ==>
                  (NulBefore(src, pos + n, 0) <==> NulBefore(src, pos, 0) || src[pos] == 0))
            && (NulBefore(src, pos, 0) || src[pos] == 0 ==> 0 in src)
  {
    var n := Length8(src[pos]);
    if pos + n <= |src| {
      assert src[..pos + n] == src[..pos] + src[pos..pos + n];
    }
  }

  /**
   Writer::WriteRawValue from UTF-8 to UTF-16, on the first `length` bytes of a terminated string: succeeds exactly on
   text, and then has written all of it. `met` says that the assertion against NUL held in every round, which on text it
   does exactly when there is none in it.
   */
  method WriteRaw8To16(input: Input<byte>, length: nat, output: Output<word>)
    returns (ok: bool, met: bool)
    requires input.pos == 0 && input.nul == 0 && length <= |input.src| && At(input.src, 0, length) == 0
    modifies input, output
    ensures ok == Utf8Text(input.src[..length])
    ensures if ok then met <==> 0 !in input.src[..length] else 0 !in input.src[..length] ==> met
    ensures ok ==> output.out == old(output.out) + To16(input.src[..length])
  {
    ghost var text := input.src[..length];
    assert text[0..] == text;
    met := true;
    while input.pos < length
      invariant input.pos <= length && (met <==> !NulBefore(text, input.pos, 0))
      invariant Carried8(text, input.pos, old(output.out), output.out)
      decreases length - input.pos
    {
      hide Carried8;
      hide Utf8Char;
      hide Value8;
      hide Encode16;
      hide Ahead;
      hide NulBefore;
      Terminated8(input.src, length, input.pos);
      Carry8(text, input.pos, old(output.out), output.out);
      NextNul8(text, input.pos);
      met := met && input.Peek() != 0;
      ok := Transcode8To16(input, output);
      if !ok {
        return;
      }
    }
    assert text[length..] == [] && text[..length] == text;
    ok := true;
  }

  /** `out` and the transcoding of what is left from `pos` make up `out0` and the transcoding of the whole. */
  ghost predicate Carried16(src: seq<word>, pos: nat, out0: seq<byte>, out: seq<byte>)
    requires pos <= |src|
  {
    && (Utf16Text(src) <==> Utf16Text(src[pos..]))
    && (Utf16Text(src) ==> out0 + To8(src) == out + To8(src[pos..]))
  }

  lemma Carry16(src: seq<word>, pos: nat, out0: seq<byte>, out: seq<byte>)
    requires pos < |src| && Carried16(src, pos, out0, out)
    ensures var n := Length16(src[pos]);
            var s := Ahead(src, 0, pos, n);
            if Utf16Char(s) then
              pos + n <= |src| && Carried16(src, pos + n, out0, out + Encode8(Value16(s)))
            else
              !Utf16Text(src)
  {
    hide Utf16Text;
    hide To8;
    hide Utf16Char;
    hide Value16;
    hide Encode8;
    hide Ahead;
    NextChar16(src, pos);
    if Utf16Text(src) {
      var n := Length16(src[pos]);
      var s := Ahead(src, 0, pos, n);
      if Utf16Char(s) {
        assert out + (Encode8(Value16(s)) + To8(src[pos + n..])) == out + Encode8(Value16(s)) + To8(src[pos + n..]);
      }
    }
  }

  lemma Terminated16(src: seq<word>, length: nat, pos: nat)
    requires pos < length <= |src| && At(src, 0, length) == 0
    ensures var n := Length16(src[pos]);
            var s, t := Ahead(src, 0, pos, n), Ahead(src[..length], 0, pos, n);
            && (Utf16Char(s) <==> Utf16Char(t))
            && (Utf16Char(s) ==> s == t && pos + n <= length)
  {
    var n := Length16(src[pos]);
    if pos + n <= length {
      assert src[..length][pos..pos + n] == src[pos..pos + n];
    } else {
      assert Ahead(src, 0, pos, n)[length - pos] == Ahead(src[..length], 0, pos, n)[length - pos] == 0;
    }
  }

  lemma NextNul16(src: seq<word>, pos: nat)
    requires pos < |src|
    ensures var n := Length16(src[pos]);
            && (Utf16Char(Ahead(src, 0, pos, n)) && pos + n <= |src| ==>
                  (NulBefore(src, pos + n, 0) <==> NulBefore(src, pos, 0) || src[pos] == 0))
            && (NulBefore(src, pos, 0) || src[pos] == 0 ==> 0 in src)
  {
    var n := Length16(src[pos]);
    if pos + n <= |src| {
      assert src[..pos + n] == src[..pos] + src[pos..pos + n];
    }
  }

  /** Writer::WriteRawValue from UTF-16 to UTF-8. */
  method WriteRaw16To8(input: Input<word>, length: nat, output: Output<byte>)
    returns (ok: bool, met: bool)
    requires input.pos == 0 && input.nul == 0 && length <= |input.src| && At(input.src, 0, length) == 0
    modifies input, output
    ensures ok == Utf16Text(input.src[..length])
    ensures if ok then met <==> 0 !in input.src[..length] else 0 !in input.src[..length] ==> met
    ensures ok ==> output.out == old(output.out) + To8(input.src[..length])
  {
    ghost var text := input.src[..length];
    assert text[0..] == text;
    met := true;
    while input.pos < length
      invariant input.pos <= length && (met <==> !NulBefore(text, input.pos, 0))
      invariant Carried16(text, input.pos, old(output.out), output.out)
      decreases length - input.pos
    {
      hide Carried16;
      hide Utf16Char;
      hide Value16;
      hide Encode8;
      hide Ahead;
      hide NulBefore;
      Terminated16(input.src, length, input.pos);
      Carry16(text, input.pos, old(output.out), output.out);
      NextNul16(text, input.pos);
      met := met && input.Peek() != 0;
      ok := Transcode16To8(input, output);
      if !ok {
        return;
      }
    }
    assert text[length..] == [] && text[..length] == text;
    ok := true;
  }
}
