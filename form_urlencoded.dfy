/**
 * The browser's `URLSearchParams` built from a string, and its `get`: the
 * application/x-www-form-urlencoded parser of section 5.1 of the WHATWG URL
 * Standard, with the percent-decoding of its section 1.3 and the UTF-8
 * decoder of the WHATWG Encoding Standard.
 */
module FormUrlencoded {
  import opened Wrappers
  import opened Hex
  import Utf8

  type Byte = Utf8.Byte

  const Ampersand: Byte := 0x26
  const EqualsSign: Byte := 0x3D
  const PlusSign: Byte := 0x2B
  const PercentSign: Byte := 0x25
  const Space: Byte := 0x20

  /** One name-value pair of the list a `URLSearchParams` object holds. */
  datatype Param = Param(name: string, value: string)

  /** The position of the first b in bs, or |bs| when there is none. */
  function IndexOfByte(bs: seq<Byte>, b: Byte): (i: nat)
    ensures i <= |bs|
    ensures i < |bs| ==> bs[i] == b
    ensures forall j :: 0 <= j < i ==> bs[j] != b
  {
    if bs == [] then 0
    else if bs[0] == b then 0
    else 1 + IndexOfByte(bs[1..], b)
  }

  /** "Strictly split" bs on sep: the pieces between the separators, empty ones included. */
  function Split(bs: seq<Byte>, sep: Byte): (r: seq<seq<Byte>>)
    ensures |r| >= 1
    ensures forall k :: 0 <= k < |r| ==> sep !in r[k]
    decreases |bs|
  {
    var i := IndexOfByte(bs, sep);
    if i == |bs| then [bs] else [bs[..i]] + Split(bs[i + 1..], sep)
  }

  /** The pieces put back together, one sep between neighbours. */
  function Join(parts: seq<seq<Byte>>, sep: Byte): seq<Byte>
    requires |parts| >= 1
  {
    if |parts| == 1 then parts[0] else parts[0] + [sep] + Join(parts[1..], sep)
  }

  /** Splitting loses nothing: joining the pieces gives the input back. */
  lemma {:induction false} JoinSplit(bs: seq<Byte>, sep: Byte)
    ensures Join(Split(bs, sep), sep) == bs
    decreases |bs|
  {
    var i := IndexOfByte(bs, sep);
    if i < |bs| {
      var tail := Split(bs[i + 1..], sep);
      var r := Split(bs, sep);
      assert r == [bs[..i]] + tail;
      assert r[0] == bs[..i] && r[1..] == tail;
      assert Join(r, sep) == bs[..i] + [sep] + Join(tail, sep);
      JoinSplit(bs[i + 1..], sep);
      assert bs == bs[..i] + [sep] + bs[i + 1..];
    }
  }

  /** Input without the separator is one piece. */
  lemma SplitWithout(bs: seq<Byte>, sep: Byte)
    requires sep !in bs
    ensures Split(bs, sep) == [bs]
  {
  }

  /** Every 0x2B (+) replaced by 0x20 (space). */
  function ReplacePlus(bs: seq<Byte>): (r: seq<Byte>)
    ensures |r| == |bs| && PlusSign !in r
    ensures PlusSign !in bs ==> r == bs
    ensures Space in r <==> Space in bs || PlusSign in bs
  {
    var r := seq(|bs|, i requires 0 <= i < |bs| => if bs[i] == PlusSign then Space else bs[i]);
    assert Space in bs || PlusSign in bs ==> Space in r by {
      if Space in bs || PlusSign in bs {
        var i :| 0 <= i < |bs| && (bs[i] == Space || bs[i] == PlusSign);
        assert r[i] == Space;
      }
    }
    assert Space in r ==> Space in bs || PlusSign in bs by {
      if Space in r {
        var i :| 0 <= i < |r| && r[i] == Space;
        assert bs[i] == Space || bs[i] == PlusSign;
      }
    }
    r
  }

  /** An octet that is an ASCII hex digit of either case. */
  predicate IsHexByte(b: Byte) {
    IsHexDigit(b as char)
  }

  /**
   * Percent-decode (section 1.3 of the URL Standard): `%` and two hex digits
   * become the octet they denote; a `%` not followed by two hex digits stays.
   */
  function PercentDecode(bs: seq<Byte>): (r: seq<Byte>)
    ensures |r| <= |bs|
    ensures PercentSign !in bs ==> r == bs
  {
    if bs == [] then []
    else if bs[0] == PercentSign && |bs| >= 3 && IsHexByte(bs[1]) && IsHexByte(bs[2]) then
      [HexValue(bs[1] as char) * 16 + HexValue(bs[2] as char)] + PercentDecode(bs[3..])
    else [bs[0]] + PercentDecode(bs[1..])
  }

  /** What the parser makes of the bytes of a name or a value. */
  function DecodeField(bs: seq<Byte>): string {
    Utf8.DecodeWithReplacement(PercentDecode(ReplacePlus(bs)))
  }

  /** One non-empty piece: the name before its first `=`, the value after it (empty when there is no `=`). */
  function ParsePair(bs: seq<Byte>): Param {
    var i := IndexOfByte(bs, EqualsSign);
    var name := bs[..i];
    var value := if i < |bs| then bs[i + 1..] else [];
    Param(DecodeField(name), DecodeField(value))
  }

  /** One pair per non-empty piece, in order. */
  function ParsePieces(pieces: seq<seq<Byte>>): (r: seq<Param>)
    ensures |r| <= |pieces|
  {
    if pieces == [] then []
    else if pieces[0] == [] then ParsePieces(pieces[1..])
    else [ParsePair(pieces[0])] + ParsePieces(pieces[1..])
  }

  /** The application/x-www-form-urlencoded parser: the pieces between `&`, empty ones skipped. */
  function Parse(bs: seq<Byte>): seq<Param> {
    ParsePieces(Split(bs, Ampersand))
  }

  /** `new URLSearchParams(init)` for a string init: a leading `?` is dropped, the rest is parsed as its UTF-8 octets. */
  function URLSearchParams(init: string): seq<Param> {
    var s := if |init| > 0 && init[0] == '?' then init[1..] else init;
    Parse(Utf8.Encode(s))
  }

  /** `params.get(name)`: the value of the first pair with that name, None (null) if there is none. */
  function Get(params: seq<Param>, name: string): (r: Option<string>)
    ensures r.Some? <==> exists i :: 0 <= i < |params| && params[i].name == name
    ensures r.Some? ==> exists i :: 0 <= i < |params| && params[i].name == name && params[i].value == r.value
                                  && forall j :: 0 <= j < i ==> params[j].name != name
  {
    if params == [] then None
    else if params[0].name == name then Some(params[0].value)
    else
      var r := Get(params[1..], name);
      assert forall i :: 1 <= i < |params| ==> params[i] == params[1..][i - 1];
      if r.Some? then
        ghost var k :| 0 <= k < |params[1..]| && params[1..][k].name == name && params[1..][k].value == r.value
                      && forall j :: 0 <= j < k ==> params[1..][j].name != name;
        assert params[k + 1].name == name && forall j :: 0 <= j < k + 1 ==> params[j].name != name;
        r
      else r
  }

  /** ASCII text without `&`, `=`, `+` or `%`: the parser carries it through unchanged. */
  predicate IsPlain(s: string) {
    forall i :: 0 <= i < |s| ==> s[i] as int < 0x80 && s[i] != '&' && s[i] != '=' && s[i] != '+' && s[i] != '%'
  }

  /** The octets of plain text hold none of the bytes the parser treats specially, and decode back to it. */
  lemma PlainField(s: string)
    requires IsPlain(s)
    ensures |Utf8.Encode(s)| == |s|
    ensures Ampersand !in Utf8.Encode(s) && EqualsSign !in Utf8.Encode(s)
    ensures DecodeField(Utf8.Encode(s)) == s
  {
    var bs := Utf8.Encode(s);
    Utf8.EncodeAscii(s);
    assert forall i :: 0 <= i < |bs| ==> bs[i] != Ampersand && bs[i] != EqualsSign && bs[i] != PlusSign && bs[i] != PercentSign;
    assert ReplacePlus(bs) == bs;
    Utf8.DecodeWithReplacementEncode(s);
  }

  /** IndexOfByte finds the first occurrence. */
  lemma {:induction false} IndexOfByteAt(bs: seq<Byte>, b: Byte, i: nat)
    requires i < |bs| && bs[i] == b && b !in bs[..i]
    ensures IndexOfByte(bs, b) == i
  {
    if i > 0 {
      assert bs[1..][..i - 1] == bs[1..i];
      assert bs[0] in bs[..i];
      IndexOfByteAt(bs[1..], b, i - 1);
    }
  }

  /** Octets with no `&` are one pair, when there are any. */
  lemma ParseOnePiece(bs: seq<Byte>)
    requires bs != [] && Ampersand !in bs
    ensures Parse(bs) == [ParsePair(bs)]
  {
    SplitWithout(bs, Ampersand);
    assert [bs][1..] == [];
  }

  /** The name is what precedes the first `=`, the value all that follows it. */
  lemma ParsePairAt(n: seq<Byte>, v: seq<Byte>)
    requires EqualsSign !in n
    ensures ParsePair(n + [EqualsSign] + v) == Param(DecodeField(n), DecodeField(v))
  {
    var bs := n + [EqualsSign] + v;
    assert bs[..|n|] == n && bs[|n|] == EqualsSign;
    IndexOfByteAt(bs, EqualsSign, |n|);
    assert bs[|n| + 1..] == v;
  }

  /** A query `name=value` of plain text, its name not starting with `?`, parses to exactly that pair. */
  lemma ParsePlainPair(name: string, value: string)
    requires IsPlain(name) && IsPlain(value) && name != [] && name[0] != '?'
    ensures URLSearchParams(name + "=" + value) == [Param(name, value)]
  {
    var s := name + "=" + value;
    assert s[0] == name[0];
    var n, v := Utf8.Encode(name), Utf8.Encode(value);
    PlainField(name);
    PlainField(value);
    Utf8.EncodeConcat(name + "=", value);
    Utf8.EncodeConcat(name, "=");
    assert Utf8.Encode("=") == [EqualsSign];
    var bs := n + [EqualsSign] + v;
    assert Utf8.Encode(s) == bs;
    assert Ampersand !in bs;
    ParseOnePiece(bs);
    ParsePairAt(n, v);
    assert Parse(bs) == [Param(name, value)];
    assert URLSearchParams(s) == Parse(Utf8.Encode(s));
  }

  /** A `+` in a value reaches the page as a space. */
  lemma PlusBecomesSpace(query: string)
    requires query == "p=+"
    ensures URLSearchParams(query) == [Param("p", " ")]
  {
    var n, v: seq<Byte> := [0x70], [PlusSign];
    var bs := n + [EqualsSign] + v;
    assert query[0] == 'p';
    assert Utf8.Encode(query) == bs by {
      Utf8.EncodeAscii(query);
    }
    ParseOnePiece(bs);
    ParsePairAt(n, v);
    assert DecodeField(n) == "p" by {
      Utf8.DecodeWithReplacementAscii(n);
    }
    assert DecodeField(v) == " " by {
      assert ReplacePlus(v) == [Space];
      Utf8.DecodeWithReplacementAscii([Space]);
    }
  }
}
