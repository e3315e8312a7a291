/**
 The hand-off from the forgot-password page to the verification page: the path the former
 navigates to is cut by the router into a search string, which the latter reads back through
 `URLSearchParams`. The lemmas here show that the email survives the trip unchanged and the
 purpose arrives as "recovery", whatever characters the email holds.
 */
module Handoff {
  import opened Common
  import Utf8
  import UriComponent
  import FormUrlencoded
  import ForgotPassword
  import VerifyOtp
  import Router

  /** ASCII text the form parser passes through untouched when it stands as a value: no `&` to split on and no `+` to rewrite. */
  predicate IsSafeValue(t: string) {
    forall i :: 0 <= i < |t| ==> t[i] as int < 0x80 && t[i] != '&' && t[i] != '+'
  }

  /** ASCII text that is also free of `=` and `%`, so it reads back as itself in any position. */
  predicate IsPlain(t: string) {
    IsSafeValue(t) && forall i :: 0 <= i < |t| ==> t[i] != '=' && t[i] != '%'
  }

  /** The fixed names and value of the hand-off query are plain. */
  lemma PlainLiterals()
    ensures IsPlain("email") && IsPlain("purpose") && IsPlain("recovery")
  {
  }

  /** `encodeURIComponent`'s output is a safe value. */
  lemma EncodedIsSafe(s: string)
    ensures IsSafeValue(UriComponent.Encode(s))
  {
    UriComponent.EncodeIsEncodedForm(s);
    UriComponent.EncodedFormIsInert(UriComponent.Encode(s));
  }

  /** A hexadecimal digit written by the encoder is read back by the decoder as the same value. */
  lemma HexDigitRoundTrip(n: int)
    requires 0 <= n < 16
    ensures FormUrlencoded.IsHexByte(UriComponent.HexDigit(n) as int)
    ensures FormUrlencoded.HexValue(UriComponent.HexDigit(n) as int) == n
  {
  }

  /** The bytes of one triplet: a `%` and two upper-case hexadecimal digits. */
  lemma TripletBytes(b: Byte)
    ensures Utf8.Encode(UriComponent.Triplet(b))
            == [0x25, UriComponent.HexDigit(b / 16) as int, UriComponent.HexDigit(b % 16) as int]
  {
    Utf8.EncodeAscii(UriComponent.Triplet(b));
  }

  /** Percent-decoding reads one triplet back as the byte it encodes. */
  lemma PercentDecodeTriplet(b: Byte, tail: seq<Byte>)
    ensures FormUrlencoded.PercentDecode(Utf8.Encode(UriComponent.Triplet(b)) + tail)
            == [b] + FormUrlencoded.PercentDecode(tail)
  {
    var hi, lo := UriComponent.HexDigit(b / 16), UriComponent.HexDigit(b % 16);
    TripletBytes(b);
    HexDigitRoundTrip(b / 16);
    HexDigitRoundTrip(b % 16);
    var all: seq<Byte> := [0x25, hi as int, lo as int] + tail;
    assert all[3..] == tail;
  }

  /**
   Proof step for the two lemmas below, not a property of the pages: concatenation regroups.
   Stated apart so that the solver proves it without the encoders' definitions in view.
   */
  lemma Regroup(a: seq<Byte>, b: seq<Byte>, c: seq<Byte>)
    ensures (a + b) + c == a + (b + c)
  {
  }

  /** Percent-decoding the bytes of a run of triplets yields the bytes that were encoded. */
  lemma {:induction false} PercentDecodeTriplets(bs: seq<Byte>, rest: seq<Byte>)
    ensures FormUrlencoded.PercentDecode(Utf8.Encode(UriComponent.Triplets(bs)) + rest)
            == bs + FormUrlencoded.PercentDecode(rest)
  {
    if |bs| == 0 {
      assert UriComponent.Triplets(bs) == [];
      assert Utf8.Encode([]) == [];
      assert [] + rest == rest;
    } else {
      var whole := Utf8.Encode(UriComponent.Triplets(bs)) + rest;
      var head := Utf8.Encode(UriComponent.Triplet(bs[0]));
      var tail := Utf8.Encode(UriComponent.Triplets(bs[1..])) + rest;
      var decoded := FormUrlencoded.PercentDecode(rest);
      assert whole == head + tail by {
        EncodeTripletsCons(bs, rest);
      }
      assert FormUrlencoded.PercentDecode(head + tail) == [bs[0]] + FormUrlencoded.PercentDecode(tail) by {
        PercentDecodeTriplet(bs[0], tail);
      }
      assert FormUrlencoded.PercentDecode(tail) == bs[1..] + decoded by {
        PercentDecodeTriplets(bs[1..], rest);
      }
      assert [bs[0]] + (bs[1..] + decoded) == bs + decoded by {
        Regroup([bs[0]], bs[1..], decoded);
        assert [bs[0]] + bs[1..] == bs;
      }
    }
  }

  /** The bytes of a run of escapes: the first byte's escape, then the rest's. */
  lemma EncodeTripletsCons(bs: seq<Byte>, rest: seq<Byte>)
    requires |bs| > 0
    ensures Utf8.Encode(UriComponent.Triplets(bs)) + rest
            == Utf8.Encode(UriComponent.Triplet(bs[0])) + (Utf8.Encode(UriComponent.Triplets(bs[1..])) + rest)
  {
    var t, more := UriComponent.Triplet(bs[0]), UriComponent.Triplets(bs[1..]);
    assert UriComponent.Triplets(bs) == t + more;
    Utf8.EncodeAppend(t, more);
    Regroup(Utf8.Encode(t), Utf8.Encode(more), rest);
  }

  /** Percent-decoding undoes `encodeURIComponent` on one code point, leaving its UTF-8 bytes. */
  lemma PercentDecodeEncodedChar(c: char, rest: seq<Byte>)
    ensures FormUrlencoded.PercentDecode(Utf8.Encode(UriComponent.EncodeChar(c)) + rest)
            == Utf8.EncodeChar(c) + FormUrlencoded.PercentDecode(rest)
  {
    if UriComponent.IsUnreserved(c) {
      Utf8.EncodeAscii([c]);
      var all := [c as int] + rest;
      assert all[1..] == rest;
    } else {
      PercentDecodeTriplets(Utf8.EncodeChar(c), rest);
    }
  }

  /** Round trip: percent-decoding the bytes of `encodeURIComponent(s)` gives the UTF-8 bytes of `s`. */
  lemma {:induction false} PercentDecodeEncode(s: string)
    ensures FormUrlencoded.PercentDecode(Utf8.Encode(UriComponent.Encode(s))) == Utf8.Encode(s)
  {
    if |s| == 0 {
      assert UriComponent.Encode(s) == [];
    } else {
      var head := UriComponent.EncodeChar(s[0]);
      var tail := UriComponent.Encode(s[1..]);
      Utf8.EncodeAppend(head, tail);
      PercentDecodeEncodedChar(s[0], Utf8.Encode(tail));
      PercentDecodeEncode(s[1..]);
    }
  }

  /** A plain ASCII text without `+` or `%` decodes to itself. */
  lemma DecodePlainComponent(t: string)
    requires IsPlain(t)
    ensures FormUrlencoded.DecodeComponent(Utf8.Encode(t)) == t
  {
    var bs := Utf8.Encode(t);
    Utf8.EncodeAscii(t);
    assert FormUrlencoded.ReplacePlus(bs) == bs;
    FormUrlencoded.PercentDecodePlain(bs);
    Utf8.DecodeEncode(t);
  }

  /** The value `encodeURIComponent` wrote decodes back to the original text. */
  lemma DecodeEncodedComponent(s: string)
    ensures FormUrlencoded.DecodeComponent(Utf8.Encode(UriComponent.Encode(s))) == s
  {
    var e := UriComponent.Encode(s);
    EncodedIsSafe(s);
    Utf8.EncodeAscii(e);
    var bs := Utf8.Encode(e);
    assert FormUrlencoded.ReplacePlus(bs) == bs;
    PercentDecodeEncode(s);
    Utf8.DecodeEncode(s);
  }

  /** Splitting at the first separator finds the one after a separator-free prefix. */
  lemma {:induction false} SplitAtFirstAfterPrefix(a: seq<Byte>, b: seq<Byte>, sep: Byte)
    requires sep !in a
    ensures FormUrlencoded.SplitAtFirst(a + [sep] + b, sep) == (a, Some(b))
  {
    if |a| == 0 {
      assert a + [sep] + b == [sep] + b;
      assert ([sep] + b)[1..] == b;
    } else {
      assert (a + [sep] + b)[1..] == a[1..] + [sep] + b;
      SplitAtFirstAfterPrefix(a[1..], b, sep);
      assert [a[0]] + a[1..] == a;
    }
  }

  /** No byte of an ASCII text equals the code of a character the text avoids. */
  lemma AsciiAvoids(t: string, c: char)
    requires forall i :: 0 <= i < |t| ==> t[i] as int < 0x80 && t[i] != c
    ensures c as int !in Utf8.Encode(t)
  {
    Utf8.EncodeAscii(t);
  }

  /** The bytes of `name=value` for a plain name and a safe value. */
  lemma EncodedTuple(name: string, value: string)
    requires IsPlain(name) && IsSafeValue(value)
    ensures Utf8.Encode(name + "=" + value) == Utf8.Encode(name) + [FormUrlencoded.EqualsSign] + Utf8.Encode(value)
    ensures FormUrlencoded.Ampersand !in Utf8.Encode(name + "=" + value)
    ensures |Utf8.Encode(name + "=" + value)| > 0
    ensures FormUrlencoded.SplitAtFirst(Utf8.Encode(name + "=" + value), FormUrlencoded.EqualsSign)
            == (Utf8.Encode(name), Some(Utf8.Encode(value)))
  {
    var n, v := Utf8.Encode(name), Utf8.Encode(value);
    Utf8.EncodeAppend(name + "=", value);
    Utf8.EncodeAppend(name, "=");
    Utf8.EncodeAsciiChar('=');
    AsciiAvoids(name, '&');
    AsciiAvoids(name, '=');
    AsciiAvoids(value, '&');
    SplitAtFirstAfterPrefix(n, v, FormUrlencoded.EqualsSign);
  }

  /** Two non-empty `&`-free byte sequences joined by `&` parse to their two tuples. */
  lemma ParseTwoSequences(p1: seq<Byte>, p2: seq<Byte>)
    requires |p1| > 0 && |p2| > 0
    requires FormUrlencoded.Ampersand !in p1 && FormUrlencoded.Ampersand !in p2
    ensures FormUrlencoded.ParseSequences(FormUrlencoded.SplitOn(p1 + [FormUrlencoded.Ampersand] + p2, FormUrlencoded.Ampersand))
            == [FormUrlencoded.ParseTuple(p1), FormUrlencoded.ParseTuple(p2)]
  {
    var parts: seq<seq<Byte>> := [p1, p2];
    assert parts[1..] == [p2];
    assert FormUrlencoded.Join(parts, FormUrlencoded.Ampersand) == p1 + [FormUrlencoded.Ampersand] + p2;
    FormUrlencoded.SplitJoin(parts, FormUrlencoded.Ampersand);
    assert parts[1..][1..] == [];
  }

  /** A `name=value` sequence with a plain name and a safe value parses to the decoded name and value. */
  lemma ParseOneTuple(name: string, value: string)
    requires IsPlain(name) && IsSafeValue(value)
    ensures FormUrlencoded.ParseTuple(Utf8.Encode(name + "=" + value))
            == FormUrlencoded.Pair(FormUrlencoded.DecodeComponent(Utf8.Encode(name)),
                                   FormUrlencoded.DecodeComponent(Utf8.Encode(value)))
  {
    EncodedTuple(name, value);
  }

  /** The recovery query as text: two `name=value` sequences joined by `&`. */
  lemma HandoffQueryText(email: string)
    ensures ForgotPassword.HandoffQuery(email)
            == ("email" + "=" + UriComponent.Encode(email)) + ("&" + ("purpose" + "=" + "recovery"))
  {
    assert "email=" == "email" + "=";
    assert "&purpose=recovery" == "&" + ("purpose" + "=" + "recovery");
  }

  /** The bytes of the recovery query: two `name=value` sequences joined by `&`. */
  lemma HandoffQueryBytes(email: string)
    ensures var first := "email" + "=" + UriComponent.Encode(email);
            var second := "purpose" + "=" + "recovery";
            Utf8.Encode(ForgotPassword.HandoffQuery(email))
            == Utf8.Encode(first) + [FormUrlencoded.Ampersand] + Utf8.Encode(second)
  {
    var first := "email" + "=" + UriComponent.Encode(email);
    var second := "purpose" + "=" + "recovery";
    HandoffQueryText(email);
    Utf8.EncodeAppend(first, "&" + second);
    Utf8.EncodeAppend("&", second);
    Utf8.EncodeAsciiChar('&');
  }

  /** The recovery query parses to exactly two tuples: the email, decoded, and the purpose. */
  lemma ParseHandoffQuery(email: string)
    ensures FormUrlencoded.Parse(ForgotPassword.HandoffQuery(email))
            == [FormUrlencoded.Pair("email", email), FormUrlencoded.Pair("purpose", "recovery")]
  {
    var e := UriComponent.Encode(email);
    var p1, p2 := Utf8.Encode("email" + "=" + e), Utf8.Encode("purpose" + "=" + "recovery");
    HandoffQueryBytes(email);
    EncodedIsSafe(email);
    PlainLiterals();
    assert FormUrlencoded.Ampersand !in p1 && |p1| > 0 by {
      EncodedTuple("email", e);
    }
    assert FormUrlencoded.Ampersand !in p2 && |p2| > 0 by {
      EncodedTuple("purpose", "recovery");
    }
    ParseTwoSequences(p1, p2);
    assert FormUrlencoded.ParseTuple(p1) == FormUrlencoded.Pair("email", email) by {
      ParseOneTuple("email", e);
      DecodePlainComponent("email");
      DecodeEncodedComponent(email);
    }
    assert FormUrlencoded.ParseTuple(p2) == FormUrlencoded.Pair("purpose", "recovery") by {
      ParseOneTuple("purpose", "recovery");
      DecodePlainComponent("purpose");
      DecodePlainComponent("recovery");
    }
  }

  /** The router cuts the hand-off path at its `?`: the search is `?` and the query, whole. */
  lemma SearchOfHandoff(email: string)
    ensures Router.SearchOf(ForgotPassword.HandoffPath(email)) == "?" + ForgotPassword.HandoffQuery(email)
  {
    var q := ForgotPassword.HandoffQuery(email);
    ForgotPassword.QueryDelimiters(email);
    assert '?' !in "/verify-otp" && '#' !in "/verify-otp";
    assert ForgotPassword.HandoffPath(email) == "/verify-otp" + "?" + q;
    Router.SearchOfPageAndQuery("/verify-otp", q);
  }

  /**
   Round trip across the two pages: after a successful recovery request, the verification page
   reads back the very email that was typed and the purpose "recovery".
   */
  lemma RecoveryHandoffRoundTrip(email: string)
    ensures VerifyOtp.ContextOf(FormUrlencoded.SearchParams(Router.SearchOf(ForgotPassword.HandoffPath(email))))
            == VerifyOtp.Context(email, "recovery")
  {
    var q := ForgotPassword.HandoffQuery(email);
    SearchOfHandoff(email);
    assert ("?" + q)[1..] == q;
    ParseHandoffQuery(email);
    var pairs := FormUrlencoded.Parse(q);
    assert FormUrlencoded.Get(pairs, "email") == Some(email);
    assert FormUrlencoded.Get(pairs, "purpose") == Some("recovery");
  }
}
