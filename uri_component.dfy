/**
 * ECMAScript's `encodeURIComponent` and `decodeURIComponent` (the abstract
 * operations Encode and Decode of the ECMAScript Language Specification,
 * section "URI Handling Functions"), on texts of scalar values.
 */
module UriComponent {
  import opened Wrappers
  import opened Hex
  import Utf8

  type Byte = Utf8.Byte

  /** The characters `encodeURIComponent` leaves as they are: ASCII letters, digits and `- _ . ! ~ * ' ( )`. */
  predicate IsUriUnreserved(c: char) {
    || 'A' <= c <= 'Z' || 'a' <= c <= 'z' || '0' <= c <= '9'
    || c == '-' || c == '_' || c == '.' || c == '!' || c == '~' || c == '*' || c == '\'' || c == '(' || c == ')'
  }

  /** `%XY` for each octet, XY its value in two upper-case hex digits. */
  function UpperEscapes(bs: seq<Byte>): (r: string)
    ensures forall i :: 0 <= i < |r| ==> r[i] == '%' || IsUpperHexDigit(r[i])
  {
    if bs == [] then []
    else ['%', UpperHexDigit(bs[0] / 16), UpperHexDigit(bs[0] % 16)] + UpperEscapes(bs[1..])
  }

  /** What `encodeURIComponent` writes for one character. */
  function EncodeChar(c: char): string {
    if IsUriUnreserved(c) then [c] else UpperEscapes(Utf8.EncodeScalar(c))
  }

  /**
   * `encodeURIComponent`: each unreserved character stays, every other one
   * becomes the escapes of its UTF-8 octets. The output is ASCII.
   */
  function EncodeURIComponent(s: string): (r: string)
    ensures forall i :: 0 <= i < |r| ==> IsUriUnreserved(r[i]) || r[i] == '%' || IsUpperHexDigit(r[i])
  {
    if s == [] then [] else EncodeChar(s[0]) + EncodeURIComponent(s[1..])
  }

  /** The octet of a `%` escape at the start of s, with hex digits of either case. */
  function ParseEscape(s: string): (r: Option<Byte>)
    ensures r.Some? ==> |s| >= 3
  {
    if |s| >= 3 && s[0] == '%' && IsHexDigit(s[1]) && IsHexDigit(s[2])
    then Some(HexValue(s[1]) * 16 + HexValue(s[2]))
    else None
  }

  /** The octets of `count` consecutive escapes at the start of s. */
  function ParseEscapes(s: string, count: nat): (r: Option<seq<Byte>>)
    ensures r.Some? ==> |r.value| == count && 3 * count <= |s|
  {
    if count == 0 then Some([])
    else
      match ParseEscape(s)
      case None => None
      case Some(b) =>
        match ParseEscapes(s[3..], count - 1)
        case None => None
        case Some(more) => Some([b] + more)
  }

  /** A decoded character in front of the decoding of the rest, if that succeeded. */
  function Prepend(c: char, rest: Option<string>): Option<string> {
    match rest
    case None => None
    case Some(t) => Some([c] + t)
  }

  /**
   * The character that the escapes at the start of s stand for, and the
   * number of characters they take: an escape whose octet starts a UTF-8
   * sequence of n octets must be followed by n - 1 more escapes, and the n
   * octets must encode a scalar value.
   */
  function DecodeEscapes(s: string): (r: Option<(char, nat)>)
    ensures r.Some? ==> 3 <= r.value.1 <= |s|
  {
    match ParseEscape(s)
    case None => None
    case Some(lead) =>
      var n := Utf8.SequenceLength(lead);
      if n == 0 then None
      else
        match ParseEscapes(s[3..], n - 1)
        case None => None
        case Some(more) =>
          match Utf8.DecodeScalar([lead] + more)
          case None => None
          case Some(c) => Some((c, 3 * n))
  }

  /**
   * `decodeURIComponent`: characters other than `%` stay, escapes are
   * decoded as UTF-8; malformed escapes throw URIError (None).
   */
  function DecodeURIComponent(s: string): (r: Option<string>)
    decreases |s|
  {
    if s == [] then Some([])
    else if s[0] != '%' then Prepend(s[0], DecodeURIComponent(s[1..]))
    else
      match DecodeEscapes(s)
      case None => None
      case Some((c, k)) => Prepend(c, DecodeURIComponent(s[k..]))
  }

  /** e is one escape `%XY` of the octet b, its digits of either case. */
  predicate IsEscapeOf(e: string, b: Byte) {
    && |e| == 3 && e[0] == '%' && IsHexDigit(e[1]) && IsHexDigit(e[2])
    && HexValue(e[1]) == b / 16 && HexValue(e[2]) == b % 16
  }

  /** s starts with one escape per octet of bs, in order. */
  predicate StartsWithEscapes(s: string, bs: seq<Byte>)
    decreases |bs|
  {
    bs == [] || (|s| >= 3 && IsEscapeOf(s[..3], bs[0]) && StartsWithEscapes(s[3..], bs[1..]))
  }

  /** s is nothing but one escape per octet of bs, in order. */
  predicate IsEscapedForm(s: string, bs: seq<Byte>) {
    |s| == 3 * |bs| && StartsWithEscapes(s, bs)
  }

  lemma {:induction false} UpperEscapesForm(bs: seq<Byte>)
    ensures IsEscapedForm(UpperEscapes(bs), bs)
  {
    if bs != [] {
      var e := UpperEscapes(bs);
      assert e[3..] == UpperEscapes(bs[1..]);
      UpperEscapesForm(bs[1..]);
    }
  }

  /** Whatever follows the escapes does not change that they are there. */
  lemma {:induction false} StartsWithEscapesAppend(e: string, bs: seq<Byte>, rest: string)
    requires StartsWithEscapes(e, bs)
    ensures StartsWithEscapes(e + rest, bs)
    decreases |bs|
  {
    if bs != [] {
      assert (e + rest)[..3] == e[..3];
      assert (e + rest)[3..] == e[3..] + rest;
      StartsWithEscapesAppend(e[3..], bs[1..], rest);
    }
  }

  /** Dropping the escapes of k octets leaves the escapes of the rest. */
  lemma {:induction false} StartsWithEscapesDrop(s: string, bs: seq<Byte>, k: nat)
    requires StartsWithEscapes(s, bs) && k <= |bs|
    ensures 3 * k <= |s| && StartsWithEscapes(s[3 * k..], bs[k..])
    decreases k
  {
    if k > 0 {
      StartsWithEscapesDrop(s[3..], bs[1..], k - 1);
      assert s[3..][3 * (k - 1)..] == s[3 * k..];
      assert bs[1..][k - 1..] == bs[k..];
    }
  }

  lemma ParseEscapeAt(s: string, b: Byte)
    requires |s| >= 3 && IsEscapeOf(s[..3], b)
    ensures ParseEscape(s) == Some(b)
  {
    assert s[..3][1] == s[1] && s[..3][2] == s[2];
  }

  /** The first k escapes parse to the first k octets. */
  lemma {:induction false} ParseEscapesForm(s: string, bs: seq<Byte>, k: nat)
    requires StartsWithEscapes(s, bs) && k <= |bs|
    ensures ParseEscapes(s, k) == Some(bs[..k])
    decreases k
  {
    if k > 0 {
      ParseEscapeAt(s, bs[0]);
      ParseEscapesForm(s[3..], bs[1..], k - 1);
      assert bs[1..][..k - 1] == bs[1..k];
      assert bs[..k] == [bs[0]] + bs[1..k];
    }
  }

  /** Percent-decoding an escaped form is strict UTF-8 decoding of its octets. */
  lemma {:induction false} DecodeEscapedForm(s: string, bs: seq<Byte>)
    requires IsEscapedForm(s, bs)
    ensures DecodeURIComponent(s) == Utf8.Decode(bs)
    decreases |bs|
  {
    if bs != [] {
      ParseEscapeAt(s, bs[0]);
      var n := Utf8.SequenceLength(bs[0]);
      if n != 0 {
        if |bs| < n {
          assert ParseEscapes(s[3..], n - 1).None?;
        } else {
          assert ParseEscapes(s[3..], n - 1) == Some(bs[1..n]) by {
            ParseEscapesForm(s[3..], bs[1..], n - 1);
            assert bs[1..][..n - 1] == bs[1..n];
          }
          assert [bs[0]] + bs[1..n] == bs[..n];
          StartsWithEscapesDrop(s, bs, n);
          DecodeEscapedForm(s[3 * n..], bs[n..]);
        }
      }
    }
  }

  /** The escapes at the start of s decode when their octets are a well-formed sequence. */
  lemma DecodeEscapesOf(s: string, lead: Byte, more: seq<Byte>, c: char)
    requires ParseEscape(s) == Some(lead) && Utf8.SequenceLength(lead) == |more| + 1
    requires ParseEscapes(s[3..], |more|) == Some(more)
    requires Utf8.DecodeScalar([lead] + more) == Some(c)
    ensures DecodeEscapes(s) == Some((c, 3 * (|more| + 1)))
  {
  }

  /** Escapes at the start of s that carry a complete, well-formed UTF-8 sequence decode to its scalar. */
  lemma DecodeEscapedSequence(s: string, octets: seq<Byte>, c: char)
    requires StartsWithEscapes(s, octets) && 1 <= |octets| <= 4 && Utf8.SequenceLength(octets[0]) == |octets|
    requires Utf8.DecodeScalar(octets) == Some(c)
    ensures DecodeEscapes(s) == Some((c, 3 * |octets|))
  {
    ParseEscapeAt(s, octets[0]);
    ParseEscapesForm(s[3..], octets[1..], |octets| - 1);
    assert octets[1..][..|octets| - 1] == octets[1..];
    assert [octets[0]] + octets[1..] == octets;
    DecodeEscapesOf(s, octets[0], octets[1..], c);
  }

  /** `decodeURIComponent` reads the escapes of one encoded scalar off the front of any text. */
  lemma DecodeEscapedScalar(c: char, rest: string)
    ensures DecodeURIComponent(UpperEscapes(Utf8.EncodeScalar(c)) + rest) == Prepend(c, DecodeURIComponent(rest))
  {
    var octets := Utf8.EncodeScalar(c);
    var e := UpperEscapes(octets);
    UpperEscapesForm(octets);
    StartsWithEscapesAppend(e, octets, rest);
    Utf8.DecodeScalarIff(octets, c);
    DecodeEscapedSequence(e + rest, octets, c);
    assert (e + rest)[0] == '%' && (e + rest)[|e|..] == rest;
  }

  /** `decodeURIComponent` inverts `encodeURIComponent`. */
  lemma {:induction false} DecodeEncodeURIComponent(s: string)
    ensures DecodeURIComponent(EncodeURIComponent(s)) == Some(s)
  {
    if s != [] {
      var rest := EncodeURIComponent(s[1..]);
      DecodeEncodeURIComponent(s[1..]);
      if IsUriUnreserved(s[0]) {
        assert ([s[0]] + rest)[1..] == rest;
      } else {
        DecodeEscapedScalar(s[0], rest);
      }
      assert [s[0]] + s[1..] == s;
    }
  }
}
