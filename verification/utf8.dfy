/**
 UTF-8 as the URL Standard uses it: the encoder of section 3.9 of the Unicode Standard and the
 WHATWG Encoding Standard's "UTF-8 decode without BOM", which replaces each maximal ill-formed
 subpart with U+FFFD.
 */
module Utf8 {
  import opened Common

  /** A continuation byte, 10xxxxxx. */
  predicate IsContinuation(b: Byte) {
    0x80 <= b <= 0xBF
  }

  /** The one to four UTF-8 bytes of a scalar value. */
  function EncodeChar(c: char): (bs: seq<Byte>)
    ensures 1 <= |bs| <= 4
    ensures |bs| == 1 <==> c as int < 0x80
    ensures bs[0] < 0x80 || 0xC2 <= bs[0] <= 0xF4
    ensures forall i :: 1 <= i < |bs| ==> IsContinuation(bs[i])
  {
    var n := c as int;
    if n < 0x80 then [n]
    else if n < 0x800 then [0xC0 + n / 64, 0x80 + n % 64]
    else if n < 0x10000 then [0xE0 + n / 4096, 0x80 + (n / 64) % 64, 0x80 + n % 64]
    else [0xF0 + n / 0x40000, 0x80 + (n / 4096) % 64, 0x80 + (n / 64) % 64, 0x80 + n % 64]
  }

  /** The UTF-8 encoding of a string: the concatenation of its scalar values' encodings. */
  function Encode(s: string): (bs: seq<Byte>)
    ensures |s| <= |bs| <= 4 * |s|
  {
    if |s| == 0 then [] else EncodeChar(s[0]) + Encode(s[1..])
  }

  /** Encoding distributes over concatenation. */
  lemma {:induction false} EncodeAppend(a: string, b: string)
    ensures Encode(a + b) == Encode(a) + Encode(b)
  {
    if |a| == 0 {
      assert a + b == b;
    } else {
      assert (a + b)[1..] == a[1..] + b;
      EncodeAppend(a[1..], b);
    }
  }

  /** A string of ASCII characters encodes to one byte per character, each its code point. */
  lemma {:induction false} EncodeAscii(s: string)
    requires forall i :: 0 <= i < |s| ==> s[i] as int < 0x80
    ensures |Encode(s)| == |s|
    ensures forall i :: 0 <= i < |s| ==> Encode(s)[i] == s[i] as int
  {
    if |s| > 0 {
      EncodeAscii(s[1..]);
    }
  }

  /** A single ASCII character encodes to the one byte of its code point. */
  lemma EncodeAsciiChar(c: char)
    requires c as int < 0x80
    ensures Encode([c]) == [c as int]
  {
    assert [c][1..] == [];
  }

  /**
   An ASCII character's byte occurs in the encoding exactly when the character occurs in the
   string: the bytes of a multi-byte encoding are all 0x80 or above.
   */
  lemma {:induction false} AsciiByteInEncode(s: string, c: char)
    requires c as int < 0x80
    ensures c as int in Encode(s) <==> c in s
  {
    if |s| > 0 {
      AsciiByteInEncode(s[1..], c);
      var head := EncodeChar(s[0]);
      assert c as int in head <==> s[0] == c by {
        if s[0] as int < 0x80 {
          assert head == [s[0] as int];
        } else {
          assert forall i :: 0 <= i < |head| ==> head[i] >= 0x80;
        }
      }
      assert s == [s[0]] + s[1..];
    }
  }

  const Replacement: char := 0xFFFD as char

  /**
   One step of the decoder at the front of `bs`: the scalar value decoded (U+FFFD for an
   ill-formed subpart) and the number of bytes consumed. The lower and upper bounds on the second
   byte after E0, ED, F0 and F4 are those of the Encoding Standard's decoder, which rule out
   overlong forms, surrogates and values above U+10FFFF.
   */
  function Step(bs: seq<Byte>): (r: (char, nat))
    requires |bs| > 0
    ensures 1 <= r.1 <= |bs| && r.1 <= 4
  {
    var b0: int := bs[0];
    var b1: int := if |bs| >= 2 then bs[1] else -1;
    var b2: int := if |bs| >= 3 then bs[2] else -1;
    var b3: int := if |bs| >= 4 then bs[3] else -1;
    if b0 < 0x80 then (b0 as char, 1)
    else if 0xC2 <= b0 <= 0xDF then
      if 0x80 <= b1 <= 0xBF then (((b0 - 0xC0) * 64 + (b1 - 0x80)) as char, 2)
      else (Replacement, 1)
    else if 0xE0 <= b0 <= 0xEF then
      var lower := if b0 == 0xE0 then 0xA0 else 0x80;
      var upper := if b0 == 0xED then 0x9F else 0xBF;
      if lower <= b1 <= upper then
        if 0x80 <= b2 <= 0xBF then (((b0 - 0xE0) * 4096 + (b1 - 0x80) * 64 + (b2 - 0x80)) as char, 3)
        else (Replacement, 2)
      else (Replacement, 1)
    else if 0xF0 <= b0 <= 0xF4 then
      var lower := if b0 == 0xF0 then 0x90 else 0x80;
      var upper := if b0 == 0xF4 then 0x8F else 0xBF;
      if lower <= b1 <= upper then
        if 0x80 <= b2 <= 0xBF then
          if 0x80 <= b3 <= 0xBF then
            (((b0 - 0xF0) * 0x40000 + (b1 - 0x80) * 4096 + (b2 - 0x80) * 64 + (b3 - 0x80)) as char, 4)
          else (Replacement, 3)
        else (Replacement, 2)
      else (Replacement, 1)
    else (Replacement, 1)
  }

  /** UTF-8 decode without BOM: never fails, each ill-formed subpart becoming U+FFFD. */
  function Decode(bs: seq<Byte>): (s: string)
    ensures |s| <= |bs|
    decreases |bs|
  {
    if |bs| == 0 then []
    else
      var (c, n) := Step(bs);
      [c] + Decode(bs[n..])
  }

  /** The decoder reads back exactly the scalar value the encoder wrote, consuming all of its bytes. */
  lemma StepEncodeChar(c: char, rest: seq<Byte>)
    ensures Step(EncodeChar(c) + rest) == (c, |EncodeChar(c)|)
  {
    var n := c as int;
    if n < 0x80 {
    } else if n < 0x800 {
      StepTwoBytes(n, rest);
    } else if n < 0x10000 {
      StepThreeBytes(n, rest);
    } else {
      StepFourBytes(n, rest);
    }
  }

  lemma StepTwoBytes(n: int, rest: seq<Byte>)
    requires 0x80 <= n < 0x800
    ensures Step([0xC0 + n / 64, 0x80 + n % 64] + rest) == (n as char, 2)
  {
    var q, r := n / 64, n % 64;
    assert q * 64 + r == n;
    var bs: seq<Byte> := [0xC0 + q, 0x80 + r] + rest;
    assert bs[0] == 0xC0 + q && bs[1] == 0x80 + r;
  }

  lemma StepThreeBytes(n: int, rest: seq<Byte>)
    requires 0x800 <= n < 0x10000 && !(0xD800 <= n < 0xE000)
    ensures Step([0xE0 + n / 4096, 0x80 + (n / 64) % 64, 0x80 + n % 64] + rest) == (n as char, 3)
  {
    var q, r := n / 64, n % 64;
    var q2, r2 := q / 64, q % 64;
    assert q * 64 + r == n;
    assert q2 * 64 + r2 == q;
    assert n / 4096 == q2;
    var bs: seq<Byte> := [0xE0 + q2, 0x80 + r2, 0x80 + r] + rest;
    assert bs[0] == 0xE0 + q2 && bs[1] == 0x80 + r2 && bs[2] == 0x80 + r;
  }

  lemma StepFourBytes(n: int, rest: seq<Byte>)
    requires 0x10000 <= n < 0x110000
    ensures Step([0xF0 + n / 0x40000, 0x80 + (n / 4096) % 64, 0x80 + (n / 64) % 64, 0x80 + n % 64] + rest) == (n as char, 4)
  {
    var q, r := n / 64, n % 64;
    var q2, r2 := q / 64, q % 64;
    var q3, r3 := q2 / 64, q2 % 64;
    assert q * 64 + r == n;
    assert q2 * 64 + r2 == q;
    assert q3 * 64 + r3 == q2;
    assert n / 4096 == q2;
    assert n / 0x40000 == q3;
    var bs: seq<Byte> := [0xF0 + q3, 0x80 + r3, 0x80 + r2, 0x80 + r] + rest;
    assert bs[0] == 0xF0 + q3 && bs[1] == 0x80 + r3 && bs[2] == 0x80 + r2 && bs[3] == 0x80 + r;
  }

  /** Round trip: decoding the UTF-8 encoding of any string gives the string back. */
  lemma {:induction false} DecodeEncode(s: string)
    ensures Decode(Encode(s)) == s
  {
    if |s| > 0 {
      var head := EncodeChar(s[0]);
      var bs := head + Encode(s[1..]);
      StepEncodeChar(s[0], Encode(s[1..]));
      assert bs[|head|..] == Encode(s[1..]);
      DecodeEncode(s[1..]);
    }
  }
}
