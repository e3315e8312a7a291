/**
 JavaScript string primitives the pages rely on, over Unicode scalar values:
 `.length`, which counts UTF-16 code units, and `String.prototype.trim`, which strips the
 WhiteSpace and LineTerminator code points of ECMA-262 from both ends.
 */
module JsString {

  /** Number of UTF-16 code units that encode `c`: two for a supplementary-plane scalar value. */
  function CodeUnits(c: char): nat {
    if c as int < 0x10000 then 1 else 2
  }

  /** A string all of whose scalar values lie in the Basic Multilingual Plane. */
  predicate IsBmp(s: string) {
    forall i :: 0 <= i < |s| ==> s[i] as int < 0x10000
  }

  /** JavaScript's `s.length`: the number of UTF-16 code units of `s`. */
  function Length(s: string): (n: nat)
    ensures |s| <= n <= 2 * |s|
    ensures n == |s| <==> IsBmp(s)
  {
    if |s| == 0 then 0
    else
      var n := CodeUnits(s[0]) + Length(s[1..]);
      assert IsBmp(s) <==> s[0] as int < 0x10000 && IsBmp(s[1..]) by {
        assert forall i :: 0 < i < |s| ==> s[i] == s[1..][i - 1];
      }
      n
  }

  /** `.length` of a concatenation is the sum of the parts' lengths. */
  lemma {:induction false} LengthAppend(a: string, b: string)
    ensures Length(a + b) == Length(a) + Length(b)
  {
    if |a| > 0 {
      assert (a + b)[1..] == a[1..] + b;
      LengthAppend(a[1..], b);
    } else {
      assert a + b == b;
    }
  }

  /** A single code point counts one UTF-16 code unit in the Basic Multilingual Plane and two outside it. */
  lemma LengthOne(c: char)
    ensures Length([c]) == (if c as int < 0x10000 then 1 else 2)
  {
    assert [c][1..] == [];
  }

  /** The code points `trim` removes: WhiteSpace (TAB, VT, FF, ZWNBSP and every Zs space) and LineTerminator. */
  predicate IsTrimmable(c: char) {
    var n := c as int;
    || n == 0x09 || n == 0x0B || n == 0x0C || n == 0xFEFF
    || n == 0x20 || n == 0xA0 || n == 0x1680 || (0x2000 <= n <= 0x200A)
    || n == 0x202F || n == 0x205F || n == 0x3000
    || n == 0x0A || n == 0x0D || n == 0x2028 || n == 0x2029
  }

  /** `s` with its leading trimmable code points removed. */
  function TrimStart(s: string): (r: string)
    ensures |r| <= |s| && r == s[|s| - |r|..]
    ensures r == [] || !IsTrimmable(r[0])
    ensures forall i :: 0 <= i < |s| - |r| ==> IsTrimmable(s[i])
  {
    if |s| > 0 && IsTrimmable(s[0]) then TrimStart(s[1..]) else s
  }

  /** `s` with its trailing trimmable code points removed. */
  function TrimEnd(s: string): (r: string)
    ensures |r| <= |s| && r == s[..|r|]
    ensures r == [] || !IsTrimmable(r[|r| - 1])
    ensures forall i :: |r| <= i < |s| ==> IsTrimmable(s[i])
  {
    if |s| > 0 && IsTrimmable(s[|s| - 1]) then TrimEnd(s[..|s| - 1]) else s
  }

  /** JavaScript's `s.trim()`. */
  function Trim(s: string): (r: string)
    ensures |r| <= |s|
    ensures r == [] || (!IsTrimmable(r[0]) && !IsTrimmable(r[|r| - 1]))
    ensures r == [] <==> forall i :: 0 <= i < |s| ==> IsTrimmable(s[i])
  {
    var t := TrimStart(s);
    assert TrimEnd(t) != [] ==> TrimEnd(t)[0] == t[0];
    TrimEnd(t)
  }

  /** How many code points `trim` drops from the front of `s`. */
  function LeadingCount(s: string): nat
  {
    |s| - |TrimStart(s)|
  }

  /**
   * `r` is the part of `s` that starts at `i` and is preceded and followed
   * only by trimmable code points.
   */
  predicate IsInnerSlice(s: string, i: nat, r: string) {
    && i + |r| <= |s|
    && r == s[i..i + |r|]
    && (forall k :: 0 <= k < i ==> IsTrimmable(s[k]))
    && (forall k :: i + |r| <= k < |s| ==> IsTrimmable(s[k]))
  }

  /**
   * `trim` keeps a contiguous slice of its input, starting after the
   * leading trimmable run, and drops only trimmable code points around it.
   */
  lemma {:induction false} TrimIsSlice(s: string)
    ensures IsInnerSlice(s, LeadingCount(s), Trim(s))
  {
    TrimStartEndIsSlice(s);
    assert Trim(s) == TrimEnd(TrimStart(s));
  }

  /** The same fact for the two halves of `trim`, before they are named `Trim` and `LeadingCount`. */
  lemma {:induction false} TrimStartEndIsSlice(s: string)
    ensures IsInnerSlice(s, |s| - |TrimStart(s)|, TrimEnd(TrimStart(s)))
  {
    var t := TrimStart(s);
    var r := TrimEnd(t);
    assert |t| <= |s| && t == s[|s| - |t|..];
    assert forall k :: 0 <= k < |s| - |t| ==> IsTrimmable(s[k]);
    assert |r| <= |t| && r == t[..|r|];
    assert forall k :: |r| <= k < |t| ==> IsTrimmable(t[k]);
    PrefixOfSuffix(s, t, r);
  }

  /**
   * A prefix `r` of a suffix `t` of `s`, where `s` has only trimmable code
   * points before `t` and `t` only trimmable ones after `r`, is an inner
   * slice of `s`.
   */
  lemma {:induction false} PrefixOfSuffix(s: string, t: string, r: string)
    requires |t| <= |s| && t == s[|s| - |t|..]
    requires forall k :: 0 <= k < |s| - |t| ==> IsTrimmable(s[k])
    requires |r| <= |t| && r == t[..|r|]
    requires forall k :: |r| <= k < |t| ==> IsTrimmable(t[k])
    ensures IsInnerSlice(s, |s| - |t|, r)
  {
    var i := |s| - |t|;
    forall k | i + |r| <= k < |s|
      ensures IsTrimmable(s[k])
    {
      assert s[k] == t[k - i];
    }
    assert r == s[i..i + |r|];
  }

  /**
   * What `trim` promises about its result `r` for input `s`: `r` is the
   * slice of `s` between its leading and trailing trimmable runs, has no
   * trimmable code point at either end, and is left alone by a second `trim`.
   */
  predicate IsTrimOf(s: string, r: string) {
    && IsInnerSlice(s, LeadingCount(s), r)
    && (r == [] || (!IsTrimmable(r[0]) && !IsTrimmable(r[|r| - 1])))
    && Trim(r) == r
  }

  /** A string without outer trimmable code points is left as it is. */
  lemma TrimKeepsTrimmed(s: string)
    requires s == [] || (!IsTrimmable(s[0]) && !IsTrimmable(s[|s| - 1]))
    ensures Trim(s) == s
  {
  }

  /** Trimming twice is trimming once, so re-trimming the stored token changes nothing. */
  lemma TrimIdempotent(s: string)
    ensures Trim(Trim(s)) == Trim(s)
  {
    TrimKeepsTrimmed(Trim(s));
  }

  /** `trim` keeps every promise `IsTrimOf` makes. */
  lemma TrimIsTrimOf(s: string)
    ensures IsTrimOf(s, Trim(s))
  {
    TrimIsSlice(s);
    TrimIdempotent(s);
  }
}
