/**
 The WHATWG URL Standard's application/x-www-form-urlencoded parser (section 5.1) and the
 `URLSearchParams` operations the verification page uses (section 6.2): construction from a
 search string and `get`.
 */
module FormUrlencoded {
  import opened Common
  import Utf8

  const Ampersand: Byte := 0x26
  const EqualsSign: Byte := 0x3D
  const PlusSign: Byte := 0x2B
  const PercentSign: Byte := 0x25
  const Space: Byte := 0x20

  predicate IsHexByte(b: Byte) {
    (0x30 <= b <= 0x39) || (0x41 <= b <= 0x46) || (0x61 <= b <= 0x66)
  }

  function HexValue(b: Byte): (v: int)
    requires IsHexByte(b)
    ensures 0 <= v < 16
  {
    if b <= 0x39 then b - 0x30 else if b <= 0x46 then b - 0x41 + 10 else b - 0x61 + 10
  }

  /** Percent-decoding (section 1.3): a `%` followed by two hexadecimal digits becomes that byte; any other byte, a lone `%` included, is kept. */
  function PercentDecode(bs: seq<Byte>): (r: seq<Byte>)
    ensures |r| <= |bs|
    decreases |bs|
  {
    if |bs| == 0 then []
    else if bs[0] == PercentSign && |bs| >= 3 && IsHexByte(bs[1]) && IsHexByte(bs[2]) then
      [HexValue(bs[1]) * 16 + HexValue(bs[2])] + PercentDecode(bs[3..])
    else [bs[0]] + PercentDecode(bs[1..])
  }

  /** Bytes with no `%` pass through percent-decoding unchanged. */
  lemma {:induction false} PercentDecodePlain(bs: seq<Byte>)
    requires PercentSign !in bs
    ensures PercentDecode(bs) == bs
    decreases |bs|
  {
    if |bs| > 0 {
      PercentDecodePlain(bs[1..]);
    }
  }

  /** Joins parts with `sep` between each neighbouring pair. */
  function Join(parts: seq<seq<Byte>>, sep: Byte): seq<Byte>
    requires |parts| >= 1
  {
    if |parts| == 1 then parts[0] else parts[0] + [sep] + Join(parts[1..], sep)
  }

  /** Strictly splitting on `sep`: the maximal runs between separators, empty runs included. */
  function SplitOn(bs: seq<Byte>, sep: Byte): (parts: seq<seq<Byte>>)
    ensures |parts| >= 1
    ensures forall i :: 0 <= i < |parts| ==> sep !in parts[i]
    ensures Join(parts, sep) == bs
    ensures sep !in bs ==> parts == [bs]
    decreases |bs|
  {
    if |bs| == 0 then [[]]
    else
      var rest := SplitOn(bs[1..], sep);
      if bs[0] == sep then [[]] + rest
      else
        var r := [[bs[0]] + rest[0]] + rest[1..];
        assert r[1..] == rest[1..];
        r
  }

  /** Splitting is determined by the joined text: the parts of a joined list are that list. */
  lemma {:induction false} SplitJoin(parts: seq<seq<Byte>>, sep: Byte)
    requires |parts| >= 1
    requires forall i :: 0 <= i < |parts| ==> sep !in parts[i]
    ensures SplitOn(Join(parts, sep), sep) == parts
    decreases |parts|, |parts[0]|
  {
    var a := parts[0];
    if |a| == 0 {
      if |parts| == 1 {
      } else {
        var tail := Join(parts[1..], sep);
        assert Join(parts, sep) == [sep] + tail;
        assert ([sep] + tail)[1..] == tail;
        SplitJoin(parts[1..], sep);
        assert parts == [[]] + parts[1..];
      }
    } else {
      var shorter := [a[1..]] + parts[1..];
      assert shorter[1..] == parts[1..];
      assert Join(parts, sep) == [a[0]] + Join(shorter, sep) by {
        if |parts| > 1 {
          assert Join(shorter, sep) == a[1..] + [sep] + Join(parts[1..], sep);
        }
      }
      assert ([a[0]] + Join(shorter, sep))[1..] == Join(shorter, sep);
      assert a[0] != sep;
      SplitJoin(shorter, sep);
      assert [a[0]] + a[1..] == a;
      assert parts == [[a[0]] + shorter[0]] + shorter[1..];
    }
  }

  /** Splits at the first `sep`: the bytes before it, and the bytes after it if it occurs at all. */
  function SplitAtFirst(bs: seq<Byte>, sep: Byte): (r: (seq<Byte>, Option<seq<Byte>>))
    ensures sep !in r.0
    ensures r.1.None? <==> sep !in bs
    ensures r.1.None? ==> r.0 == bs
    ensures r.1.Some? ==> bs == r.0 + [sep] + r.1.value
    decreases |bs|
  {
    if |bs| == 0 then ([], None)
    else if bs[0] == sep then ([], Some(bs[1..]))
    else
      var (before, after) := SplitAtFirst(bs[1..], sep);
      ([bs[0]] + before, after)
  }

  /** Every `+` becomes a space. */
  function ReplacePlus(bs: seq<Byte>): (r: seq<Byte>)
    ensures |r| == |bs|
    ensures forall i :: 0 <= i < |bs| ==> r[i] == (if bs[i] == PlusSign then Space else bs[i])
    ensures PlusSign !in r
    ensures PlusSign !in bs ==> r == bs
  {
    seq(|bs|, i requires 0 <= i < |bs| => if bs[i] == PlusSign then Space else bs[i])
  }

  /** A name-value tuple of the parsed list. */
  datatype Pair = Pair(name: string, value: string)

  /** Decodes one name or value: `+` to space, percent-decode, then UTF-8 decode without BOM. */
  function DecodeComponent(bs: seq<Byte>): string {
    Utf8.Decode(PercentDecode(ReplacePlus(bs)))
  }

  /** One non-empty `&`-separated sequence as a tuple: split at its first `=`, the value empty when there is none. */
  function ParseTuple(bs: seq<Byte>): Pair {
    var (name, value) := SplitAtFirst(bs, EqualsSign);
    Pair(DecodeComponent(name), DecodeComponent(value.GetOr([])))
  }

  /** The tuples of the non-empty sequences, in order. */
  function ParseSequences(sequences: seq<seq<Byte>>): (pairs: seq<Pair>)
    ensures |pairs| <= |sequences|
    ensures pairs == [] <==> forall i :: 0 <= i < |sequences| ==> |sequences[i]| == 0
  {
    if |sequences| == 0 then []
    else if |sequences[0]| == 0 then ParseSequences(sequences[1..])
    else [ParseTuple(sequences[0])] + ParseSequences(sequences[1..])
  }

  /** The application/x-www-form-urlencoded parser applied to the UTF-8 encoding of `input`. */
  function Parse(input: string): (pairs: seq<Pair>)
    ensures input == [] ==> pairs == []
    ensures '&' !in input && input != [] ==> pairs == [ParseTuple(Utf8.Encode(input))]
  {
    Utf8.AsciiByteInEncode(input, '&');
    ParseSequences(SplitOn(Utf8.Encode(input), Ampersand))
  }

  /** `new URLSearchParams(init)` (URL Standard section 6.2): one leading `?` is dropped, the rest parsed. */
  function SearchParams(init: string): (r: seq<Pair>)
    ensures init == [] || init == "?" ==> r == []
    ensures '&' !in init && init != [] && init != "?" ==> |r| == 1
  {
    if |init| > 0 && init[0] == '?' then Parse(init[1..]) else Parse(init)
  }

  /** `URLSearchParams.get(name)` (URL Standard section 6.2): the value of the first tuple with that name, or null. */
  function Get(pairs: seq<Pair>, name: string): (r: Option<string>)
    ensures r.None? <==> forall i :: 0 <= i < |pairs| ==> pairs[i].name != name
    ensures r.Some? ==> exists i :: 0 <= i < |pairs| && pairs[i] == Pair(name, r.value)
                                      && forall j :: 0 <= j < i ==> pairs[j].name != name
  {
    if |pairs| == 0 then None
    else if pairs[0].name == name then Some(pairs[0].value)
    else
      var r := Get(pairs[1..], name);
      assert forall i :: 1 <= i < |pairs| ==> pairs[i] == pairs[1..][i - 1];
      if r.Some? then
        var i :| 0 <= i < |pairs[1..]| && pairs[1..][i] == Pair(name, r.value)
                 && forall j :: 0 <= j < i ==> pairs[1..][j].name != name;
        assert pairs[i + 1] == Pair(name, r.value);
        r
      else r
  }
}
