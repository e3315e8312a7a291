/**
 ECMA-262's `encodeURIComponent` (section 19.2.6): every code point outside the unreserved set
 becomes the %XX triplets of its UTF-8 bytes, hexadecimal digits in upper case.
 */
module UriComponent {
  import opened Common
  import Utf8

  /** The characters `encodeURIComponent` leaves alone: letters, decimal digits and - _ . ! ~ * ' ( ). */
  predicate IsUnreserved(c: char) {
    || ('A' <= c <= 'Z') || ('a' <= c <= 'z') || ('0' <= c <= '9')
    || c == '-' || c == '_' || c == '.' || c == '!' || c == '~' || c == '*' || c == '\'' || c == '(' || c == ')'
  }

  predicate IsUpperHexDigit(c: char) {
    ('0' <= c <= '9') || ('A' <= c <= 'F')
  }

  /** The upper-case hexadecimal digit of `n`. */
  function HexDigit(n: int): (c: char)
    requires 0 <= n < 16
    ensures IsUpperHexDigit(c)
  {
    if n < 10 then ('0' as int + n) as char else ('A' as int + n - 10) as char
  }

  /** `%XX` for one byte. */
  function Triplet(b: Byte): string {
    ['%', HexDigit(b / 16), HexDigit(b % 16)]
  }

  /** The %XX triplets of a byte sequence, in order. */
  function Triplets(bs: seq<Byte>): (s: string)
    ensures |s| == 3 * |bs|
    ensures forall i {:trigger Triplet(bs[i])} :: 0 <= i < |bs| ==> s[3 * i..3 * i + 3] == Triplet(bs[i])
  {
    if |bs| == 0 then []
    else
      var rest := Triplets(bs[1..]);
      var s := Triplet(bs[0]) + rest;
      assert forall i :: 1 <= i < |bs| ==> s[3 * i..3 * i + 3] == rest[3 * (i - 1)..3 * (i - 1) + 3];
      s
  }

  /** One code point as `encodeURIComponent` writes it. */
  function EncodeChar(c: char): string {
    if IsUnreserved(c) then [c] else Triplets(Utf8.EncodeChar(c))
  }

  /** JavaScript's `encodeURIComponent(s)`. */
  function Encode(s: string): (r: string)
    ensures |s| <= |r| <= 12 * |s|
    ensures (forall i :: 0 <= i < |s| ==> IsUnreserved(s[i])) ==> r == s
  {
    if |s| == 0 then [] else EncodeChar(s[0]) + Encode(s[1..])
  }

  /**
   The shape of `encodeURIComponent`'s output: a run of unreserved characters and
   `%` triplets of upper-case hexadecimal digits, nothing else.
   */
  predicate IsEncodedForm(s: string)
    decreases |s|
  {
    if |s| == 0 then true
    else if IsUnreserved(s[0]) then IsEncodedForm(s[1..])
    else |s| >= 3 && s[0] == '%' && IsUpperHexDigit(s[1]) && IsUpperHexDigit(s[2]) && IsEncodedForm(s[3..])
  }

  lemma {:induction false} EncodedFormAppend(a: string, b: string)
    requires IsEncodedForm(a) && IsEncodedForm(b)
    ensures IsEncodedForm(a + b)
    decreases |a|
  {
    if |a| == 0 {
      assert a + b == b;
    } else if IsUnreserved(a[0]) {
      assert (a + b)[1..] == a[1..] + b;
      EncodedFormAppend(a[1..], b);
    } else {
      assert (a + b)[3..] == a[3..] + b;
      EncodedFormAppend(a[3..], b);
    }
  }

  lemma {:induction false} TripletsEncodedForm(bs: seq<Byte>)
    ensures IsEncodedForm(Triplets(bs))
  {
    if |bs| > 0 {
      TripletsEncodedForm(bs[1..]);
      var t := Triplet(bs[0]);
      assert IsEncodedForm(t) by {
        assert t[3..] == [];
      }
      EncodedFormAppend(t, Triplets(bs[1..]));
    }
  }

  /** Whatever the input, the output of `encodeURIComponent` has the encoded shape. */
  lemma {:induction false} EncodeIsEncodedForm(s: string)
    ensures IsEncodedForm(Encode(s))
  {
    if |s| > 0 {
      EncodeIsEncodedForm(s[1..]);
      if IsUnreserved(s[0]) {
        assert IsEncodedForm([s[0]]) by {
          assert [s[0]][1..] == [];
        }
      } else {
        TripletsEncodedForm(Utf8.EncodeChar(s[0]));
      }
      EncodedFormAppend(EncodeChar(s[0]), Encode(s[1..]));
    }
  }

  /**
   Text of the encoded shape is ASCII and holds none of the characters that delimit a query
   (`&`, `=`, `#`) or that the form parser rewrites (`+`), so an encoded value cannot inject
   another parameter.
   */
  lemma {:induction false} EncodedFormIsInert(s: string)
    requires IsEncodedForm(s)
    ensures forall i :: 0 <= i < |s| ==> s[i] as int < 0x80
    ensures forall i :: 0 <= i < |s| ==> s[i] != '&' && s[i] != '=' && s[i] != '#' && s[i] != '+' && s[i] != '?'
    decreases |s|
  {
    if |s| > 0 {
      var k := if IsUnreserved(s[0]) then 1 else 3;
      EncodedFormIsInert(s[k..]);
      assert forall i :: k <= i < |s| ==> s[i] == s[k..][i - k];
    }
  }
}
