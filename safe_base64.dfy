/**
 * The URL-fragment codec of the lit.dev playground page: `encodeSafeBase64`
 * turns any text into a base64url token (RFC 4648 section 5) without `=`
 * padding, by way of the UTF-8 octets of the text; `decodeSafeBase64` undoes
 * it, failing where `atob` or `decodeURIComponent` would throw.
 */
module SafeBase64 {
  import opened Wrappers
  import opened Hex
  import Utf8
  import Base64
  import UriComponent

  type Byte = Utf8.Byte

  /**
   * `s.replace(/%([0-9A-F]{2})/g, (_, hex) => String.fromCharCode(parseInt(hex, 16)))`:
   * scanning from the left, each `%` followed by two upper-case hex digits
   * becomes the character with that code; every other character stays.
   */
  function CollapseEscapes(s: string): (r: string)
    ensures |r| <= |s|
  {
    if s == [] then []
    else if |s| >= 3 && s[0] == '%' && IsUpperHexDigit(s[1]) && IsUpperHexDigit(s[2]) then
      [(HexValue(s[1]) * 16 + HexValue(s[2])) as char] + CollapseEscapes(s[3..])
    else [s[0]] + CollapseEscapes(s[1..])
  }

  /** `s.replace(/x/g, y)` for single characters x and y. */
  function ReplaceAll(s: string, x: char, y: char): (r: string)
    ensures |r| == |s|
    ensures x != y ==> x !in r
    ensures x !in s ==> r == s
  {
    seq(|s|, i requires 0 <= i < |s| => if s[i] == x then y else s[i])
  }

  /** When y does not occur in s, replacing y by x undoes replacing x by y. */
  lemma ReplaceAllUndo(s: string, x: char, y: char)
    requires y !in s
    ensures ReplaceAll(ReplaceAll(s, x, y), y, x) == s
  {
  }

  /** Line 45: `+` becomes `-` and `/` becomes `_`. */
  function ToUrlAlphabet(s: string): string {
    ReplaceAll(ReplaceAll(s, '+', '-'), '/', '_')
  }

  /** Line 52: `-` becomes `+` and `_` becomes `/`. */
  function ToStdAlphabet(s: string): string {
    ReplaceAll(ReplaceAll(s, '-', '+'), '_', '/')
  }

  /** `s.indexOf(c)`: the first position of c, or -1. */
  function IndexOf(s: string, c: char): (r: int)
    ensures -1 <= r < |s|
    ensures r == -1 <==> c !in s
    ensures r >= 0 ==> s[r] == c && c !in s[..r]
  {
    if s == [] then -1
    else if s[0] == c then 0
    else
      var k := IndexOf(s[1..], c);
      assert s == [s[0]] + s[1..];
      if k == -1 then -1
      else
        assert s[..k + 1] == [s[0]] + s[1..][..k];
        k + 1
  }

  /** IndexOf finds the first occurrence. */
  lemma {:induction false} IndexOfAt(s: string, c: char, n: nat)
    requires n < |s| && s[n] == c && c !in s[..n]
    ensures IndexOf(s, c) == n
  {
    if n > 0 {
      assert s[0] in s[..n];
      assert s[1..][..n - 1] == s[1..n];
      IndexOfAt(s[1..], c, n - 1);
    }
  }

  /** Lines 47-48: the text up to its first `=`, or all of it. */
  function StripPad(s: string): string {
    var padIdx := IndexOf(s, '=');
    if padIdx >= 0 then s[..padIdx] else s
  }

  /** `encodeSafeBase64` (lines 30-49). */
  function EncodeSafeBase64(str: string): string {
    var percentEscaped := UriComponent.EncodeURIComponent(str);
    var utf8 := CollapseEscapes(percentEscaped);
    CollapseEscapesEncode(str);
    var base64 := Base64.Btoa(utf8).value;
    var base64url := ToUrlAlphabet(base64);
    StripPad(base64url)
  }

  /** Line 56: `'%'` and the hex code of a character, padded to two digits. */
  function EscapeChar(c: char): string {
    ['%'] + PadStart(ToHexString(c as int), 2, '0')
  }

  /** Lines 54-57: the characters escaped one by one and joined. */
  function EscapeEach(s: string): string {
    if s == [] then [] else EscapeChar(s[0]) + EscapeEach(s[1..])
  }

  /** `decodeSafeBase64` (lines 51-60); None where `atob` or `decodeURIComponent` throws. */
  function DecodeSafeBase64(base64url: string): Option<string> {
    var base64 := ToStdAlphabet(base64url);
    match Base64.Atob(base64)
    case None => None
    case Some(utf8) => UriComponent.DecodeURIComponent(EscapeEach(utf8))
  }

  // ---------------------------------------------------------------------------
  // The percent-escape steps reduce to plain octets.

  /** One upper-case escape at the front collapses to its octet. */
  lemma CollapseAt(t: string, b: Byte)
    requires |t| >= 3 && t[0] == '%' && t[1] == UpperHexDigit(b / 16) && t[2] == UpperHexDigit(b % 16)
    ensures CollapseEscapes(t) == [b as char] + CollapseEscapes(t[3..])
  {
  }

  /** The escapes of some octets, and whatever follows, start with the escape of the first octet. */
  lemma UpperEscapesCons(bs: seq<Byte>, rest: string)
    requires bs != []
    ensures var t := UriComponent.UpperEscapes(bs) + rest;
            && |t| >= 3 && t[0] == '%' && t[1] == UpperHexDigit(bs[0] / 16) && t[2] == UpperHexDigit(bs[0] % 16)
            && t[3..] == UriComponent.UpperEscapes(bs[1..]) + rest
  {
    var h := ['%', UpperHexDigit(bs[0] / 16), UpperHexDigit(bs[0] % 16)];
    var more := UriComponent.UpperEscapes(bs[1..]);
    assert UriComponent.UpperEscapes(bs) == h + more;
    AppendAssociates(h, more, rest);
    DropThree(h, more + rest);
  }

  lemma AppendAssociates(a: string, b: string, c: string)
    ensures (a + b) + c == a + (b + c)
  {
  }

  /** Three characters in front of x: they are its first three, and dropping them leaves x. */
  lemma DropThree(h: string, x: string)
    requires |h| == 3
    ensures var t := h + x; |t| >= 3 && t[0] == h[0] && t[1] == h[1] && t[2] == h[2] && t[3..] == x
  {
  }

  /** Collapsing the upper-case escapes of some octets gives them as a binary string, whatever follows. */
  lemma {:induction false} CollapseUpperEscapes(bs: seq<Byte>, rest: string)
    ensures CollapseEscapes(UriComponent.UpperEscapes(bs) + rest) == Base64.BinaryString(bs) + CollapseEscapes(rest)
  {
    if bs == [] {
      assert UriComponent.UpperEscapes(bs) + rest == rest;
    } else {
      var t := UriComponent.UpperEscapes(bs) + rest;
      UpperEscapesCons(bs, rest);
      CollapseAt(t, bs[0]);
      CollapseUpperEscapes(bs[1..], rest);
      BinaryStringCons(bs);
      ConsAssociates(bs[0] as char, Base64.BinaryString(bs[1..]), CollapseEscapes(rest));
    }
  }

  lemma BinaryStringCons(bs: seq<Byte>)
    requires bs != []
    ensures Base64.BinaryString(bs) == [bs[0] as char] + Base64.BinaryString(bs[1..])
  {
  }

  lemma ConsAssociates(c: char, a: string, b: string)
    ensures [c] + (a + b) == ([c] + a) + b
  {
  }

  /** Collapsing what `encodeURIComponent` wrote for one character, whatever follows. */
  lemma CollapseEncodeChar(c: char, rest: string)
    ensures CollapseEscapes(UriComponent.EncodeChar(c) + rest) == Base64.BinaryString(Utf8.EncodeScalar(c)) + CollapseEscapes(rest)
  {
    if UriComponent.IsUriUnreserved(c) {
      assert ([c] + rest)[0] == c && ([c] + rest)[1..] == rest;
      assert Base64.BinaryString([c as int]) == [c];
    } else {
      CollapseUpperEscapes(Utf8.EncodeScalar(c), rest);
    }
  }

  /** Lines 40-43 compute the UTF-8 octets of the text, as a binary string. */
  lemma {:induction false} CollapseEscapesEncode(s: string)
    ensures CollapseEscapes(UriComponent.EncodeURIComponent(s)) == Base64.BinaryString(Utf8.Encode(s))
  {
    if s != [] {
      CollapseEncodeChar(s[0], UriComponent.EncodeURIComponent(s[1..]));
      CollapseEscapesEncode(s[1..]);
      Base64.BinaryStringConcat(Utf8.EncodeScalar(s[0]), Utf8.Encode(s[1..]));
    }
  }

  /** The escape of an octet's character is `%` and its two lower-case hex digits. */
  lemma EscapeCharOctet(b: Byte)
    ensures EscapeChar(b as char) == ['%', LowerHexDigit(b / 16), LowerHexDigit(b % 16)]
    ensures UriComponent.IsEscapeOf(EscapeChar(b as char), b)
  {
    TwoDigits(b);
  }

  /** Re-escaping a binary string writes one lower-case escape per octet, which `decodeURIComponent` reads. */
  lemma {:induction false} EscapeEachForm(bs: seq<Byte>)
    ensures UriComponent.IsEscapedForm(EscapeEach(Base64.BinaryString(bs)), bs)
  {
    if bs != [] {
      var s := Base64.BinaryString(bs);
      var e := EscapeEach(s);
      assert s[0] == bs[0] as char && s[1..] == Base64.BinaryString(bs[1..]);
      var head := EscapeChar(bs[0] as char);
      EscapeCharOctet(bs[0]);
      assert e == head + EscapeEach(s[1..]);
      EscapeEachForm(bs[1..]);
      assert e[..3] == head && e[3..] == EscapeEach(s[1..]);
    }
  }

  /** Lines 54-58 are strict UTF-8 decoding of the octets of a binary string. */
  lemma ReescapeDecode(bs: seq<Byte>)
    ensures UriComponent.DecodeURIComponent(EscapeEach(Base64.BinaryString(bs))) == Utf8.Decode(bs)
  {
    EscapeEachForm(bs);
    UriComponent.DecodeEscapedForm(EscapeEach(Base64.BinaryString(bs)), bs);
  }

  // ---------------------------------------------------------------------------
  // Alphabets and padding.

  /** The characters of a token: the base64url alphabet of RFC 4648 section 5. */
  predicate IsTokenChar(c: char) {
    'A' <= c <= 'Z' || 'a' <= c <= 'z' || '0' <= c <= '9' || c == '-' || c == '_'
  }

  predicate IsTokenText(s: string) {
    forall i :: 0 <= i < |s| ==> IsTokenChar(s[i])
  }

  /** Base64 text maps to token text, and back. */
  lemma UrlAlphabetOfBase64(u: string)
    requires Base64.IsBase64Text(u)
    ensures IsTokenText(ToUrlAlphabet(u))
    ensures ToStdAlphabet(ToUrlAlphabet(u)) == u
  {
  }

  /** Token text maps to base64 text. */
  lemma StdAlphabetOfToken(t: string)
    requires IsTokenText(t)
    ensures Base64.IsBase64Text(ToStdAlphabet(t))
    ensures ToUrlAlphabet(ToStdAlphabet(t)) == t
  {
  }

  /** Padding is untouched by the change of alphabet, and is all that StripPad removes. */
  lemma StripPadding(u: string, p: string)
    requires Base64.IsBase64Text(u) && forall i :: 0 <= i < |p| ==> p[i] == '='
    ensures StripPad(ToUrlAlphabet(u + p)) == ToUrlAlphabet(u)
  {
    var w := ToUrlAlphabet(u + p);
    assert w[..|u|] == ToUrlAlphabet(u);
    assert '=' !in ToUrlAlphabet(u);
    if p != [] {
      assert w[|u|] == '=';
      IndexOfAt(w, '=', |u|);
    } else {
      assert w == ToUrlAlphabet(u);
    }
  }

  /** Octets(BinaryString(bs)) is bs. */
  lemma OctetsOfBinaryString(bs: seq<Byte>)
    ensures Base64.Octets(Base64.BinaryString(bs)) == bs
  {
  }

  /** The token is the unpadded base64 of the text's UTF-8 octets, in the url alphabet. */
  lemma EncodeSafeBase64Is(s: string)
    ensures EncodeSafeBase64(s) == ToUrlAlphabet(Base64.EncodeUnpadded(Utf8.Encode(s)))
  {
    var bs := Utf8.Encode(s);
    CollapseEscapesEncode(s);
    OctetsOfBinaryString(bs);
    assert Base64.Btoa(Base64.BinaryString(bs)).value == Base64.Encode(bs);
    Base64.EncodeIsUnpaddedThenPadding(bs);
    StripPadding(Base64.EncodeUnpadded(bs), Base64.Padding(|bs|));
  }

  /** The token is the output of `btoa` with `+` and `/` swapped and cut at its first `=`. */
  lemma EncodeSafeBase64CutsAtPadding(s: string)
    ensures Base64.Btoa(CollapseEscapes(UriComponent.EncodeURIComponent(s))).Some?
    ensures var b := Base64.Btoa(CollapseEscapes(UriComponent.EncodeURIComponent(s))).value;
            EncodeSafeBase64(s) == ToUrlAlphabet(if '=' in b then b[..IndexOf(b, '=')] else b)
  {
    var bs := Utf8.Encode(s);
    CollapseEscapesEncode(s);
    OctetsOfBinaryString(bs);
    var b := Base64.Encode(bs);
    var u, p := Base64.EncodeUnpadded(bs), Base64.Padding(|bs|);
    Base64.EncodeIsUnpaddedThenPadding(bs);
    EncodeSafeBase64Is(s);
    assert '=' !in u;
    if p != [] {
      assert b[|u|] == '=' && b[..|u|] == u;
      IndexOfAt(b, '=', |u|);
    } else {
      assert b == u;
    }
  }

  /** Every token character is a letter, a digit, `-` or `_`: no `+`, `/`, `=`, `%` or `&`. */
  lemma TokenAlphabet(s: string)
    ensures IsTokenText(EncodeSafeBase64(s))
  {
    EncodeSafeBase64Is(s);
    UrlAlphabetOfBase64(Base64.EncodeUnpadded(Utf8.Encode(s)));
  }

  /** A token's length never leaves remainder 1 modulo 4. */
  lemma TokenLength(s: string)
    ensures |EncodeSafeBase64(s)| % 4 != 1
  {
    EncodeSafeBase64Is(s);
    Base64.UnpaddedLength(Utf8.Encode(s));
  }

  /** Only the empty text gives the empty token. */
  lemma TokenEmpty(s: string)
    ensures EncodeSafeBase64(s) == "" <==> s == ""
  {
    EncodeSafeBase64Is(s);
    var bs := Utf8.Encode(s);
    if bs != [] {
      assert |Base64.EncodeUnpadded(bs)| >= 2;
    }
  }

  // ---------------------------------------------------------------------------
  // Decoding.

  /** `decodeSafeBase64` is `atob` after the change of alphabet, then strict UTF-8 decoding of the octets. */
  lemma DecodeSafeBase64Is(t: string)
    ensures DecodeSafeBase64(t) == match Base64.Atob(ToStdAlphabet(t))
                                   case None => None
                                   case Some(u) => Utf8.Decode(Base64.Octets(u))
  {
    match Base64.Atob(ToStdAlphabet(t))
    case None =>
    case Some(u) =>
      ReescapeDecode(Base64.Octets(u));
  }

  /** On token text, decoding fails exactly when the length leaves remainder 1 modulo 4 or the octets are not UTF-8. */
  lemma DecodeToken(t: string)
    requires IsTokenText(t)
    ensures DecodeSafeBase64(t).None? <==>
              |t| % 4 == 1 || Utf8.Decode(Base64.DecodeText(ToStdAlphabet(t))).None?
  {
    var b := ToStdAlphabet(t);
    StdAlphabetOfToken(t);
    DecodeSafeBase64Is(t);
    Base64.AtobFailsOnLength(b);
    if |t| % 4 != 1 {
      Base64.AtobBase64Text(b);
      OctetsOfBinaryString(Base64.DecodeText(b));
    }
  }

  /** Decoding fails on any character outside both base64 alphabets that is neither whitespace nor `=`. */
  lemma DecodeFailsOnForeignChar(t: string, i: nat)
    requires i < |t|
    requires !IsTokenChar(t[i]) && !Base64.IsBase64Char(t[i]) && !Base64.IsAsciiWhitespace(t[i]) && t[i] != '='
    ensures DecodeSafeBase64(t).None?
  {
    Base64.AtobFailsOnForeignChar(ToStdAlphabet(t), i);
  }

  /** Whitespace is neither `-` nor `_`, so line 52 leaves it in place and maps the text around it on its own. */
  lemma StdAlphabetAroundWhitespace(a: string, w: char, b: string)
    requires Base64.IsAsciiWhitespace(w)
    ensures ToStdAlphabet(a + [w] + b) == ToStdAlphabet(a) + [w] + ToStdAlphabet(b)
    ensures ToStdAlphabet(a + b) == ToStdAlphabet(a) + ToStdAlphabet(b)
  {
  }

  /** A token with TAB, LF, FF, CR or SPACE inside it decodes as the token without that character. */
  lemma DecodeIgnoresWhitespace(a: string, w: char, b: string)
    requires Base64.IsAsciiWhitespace(w)
    ensures DecodeSafeBase64(a + [w] + b) == DecodeSafeBase64(a + b)
  {
    StdAlphabetAroundWhitespace(a, w, b);
    Base64.AtobIgnoresWhitespace(ToStdAlphabet(a), w, ToStdAlphabet(b));
  }

  /** The round trip: every text comes back from its token. */
  lemma RoundTrip(s: string)
    ensures DecodeSafeBase64(EncodeSafeBase64(s)) == Some(s)
  {
    var bs := Utf8.Encode(s);
    var u := Base64.EncodeUnpadded(bs);
    EncodeSafeBase64Is(s);
    UrlAlphabetOfBase64(u);
    Base64.AtobEncodeUnpadded(bs);
    ReescapeDecode(bs);
    Utf8.DecodeEncode(s);
  }

  // ---------------------------------------------------------------------------
  // Examples.

  lemma EncodeEmptyText()
    ensures EncodeSafeBase64("") == "" && DecodeSafeBase64("") == Some("")
  {
    RoundTrip("");
  }

  lemma EncodeHello(s: string)
    requires s == "hello"
    ensures EncodeSafeBase64(s) == "aGVsbG8"
  {
    EncodeSafeBase64Is(s);
    HelloOctets(s);
    HelloBase64([0x68, 0x65, 0x6C, 0x6C, 0x6F]);
    UrlAlphabetKeeps("aGVsbG8");
  }

  lemma HelloOctets(s: string)
    requires s == "hello"
    ensures Utf8.Encode(s) == [0x68, 0x65, 0x6C, 0x6C, 0x6F]
  {
    Utf8.EncodeAscii(s);
  }

  lemma HelloBase64(bs: seq<Byte>)
    requires bs == [0x68, 0x65, 0x6C, 0x6C, 0x6F]
    ensures Base64.EncodeUnpadded(bs) == "aGVsbG8"
  {
    var g, h: seq<Byte> := [0x68, 0x65, 0x6C], [0x6C, 0x6F];
    assert bs[..3] == g && bs[3..] == h;
    var q, r := Base64.EncodeQuantum(g), Base64.EncodeQuantum(h);
    assert q == "aGVs" by {
      assert Base64.QuantumSextet(g, 0) == 26 && Base64.QuantumSextet(g, 1) == 6;
      assert Base64.QuantumSextet(g, 2) == 21 && Base64.QuantumSextet(g, 3) == 44;
    }
    assert r == "bG8" by {
      assert Base64.QuantumSextet(h, 0) == 27 && Base64.QuantumSextet(h, 1) == 6;
      assert Base64.QuantumSextet(h, 2) == 60;
    }
    assert Base64.EncodeUnpadded(bs) == q + r;
  }

  /** Text without `+` or `/` is left alone by the change to the url alphabet. */
  lemma UrlAlphabetKeeps(w: string)
    requires '+' !in w && '/' !in w
    ensures ToUrlAlphabet(w) == w
  {
  }

  /** The example of lines 35-39: U+1F603 is the octets F0 9F 98 83, whose base64 `8J+Ygw==` becomes `8J-Ygw`. */
  lemma EncodeSmiley(s: string)
    requires s == "\U{1F603}"
    ensures EncodeSafeBase64(s) == "8J-Ygw"
  {
    EncodeSafeBase64Is(s);
    SmileyOctets(s);
    SmileyBase64([0xF0, 0x9F, 0x98, 0x83]);
    SmileyUrlAlphabet("8J+Ygw");
  }

  lemma SmileyOctets(s: string)
    requires s == "\U{1F603}"
    ensures Utf8.Encode(s) == [0xF0, 0x9F, 0x98, 0x83]
  {
    assert Utf8.EncodeScalar(s[0]) == [0xF0, 0x9F, 0x98, 0x83];
    assert s[1..] == [];
  }

  lemma SmileyBase64(bs: seq<Byte>)
    requires bs == [0xF0, 0x9F, 0x98, 0x83]
    ensures Base64.EncodeUnpadded(bs) == "8J+Ygw"
  {
    var g, h: seq<Byte> := [0xF0, 0x9F, 0x98], [0x83];
    assert bs[..3] == g && bs[3..] == h;
    var q, r := Base64.EncodeQuantum(g), Base64.EncodeQuantum(h);
    assert q == "8J+Y" by {
      assert Base64.QuantumSextet(g, 0) == 60 && Base64.QuantumSextet(g, 1) == 9;
      assert Base64.QuantumSextet(g, 2) == 62 && Base64.QuantumSextet(g, 3) == 24;
    }
    assert r == "gw" by {
      assert Base64.QuantumSextet(h, 0) == 32 && Base64.QuantumSextet(h, 1) == 48;
    }
    assert Base64.EncodeUnpadded(bs) == q + r;
  }

  lemma SmileyUrlAlphabet(w: string)
    requires w == "8J+Ygw"
    ensures ToUrlAlphabet(w) == "8J-Ygw"
  {
    var v := ToUrlAlphabet(w);
    assert v[0] == '8' && v[1] == 'J' && v[2] == '-' && v[3] == 'Y' && v[4] == 'g' && v[5] == 'w';
  }

  /** Text that is not base64 at all is refused. */
  lemma DecodeNotBase64()
    ensures DecodeSafeBase64("not-valid-base64!!").None?
  {
    DecodeFailsOnForeignChar("not-valid-base64!!", 16);
  }

  /**
   * Decoding does not check that the bits after the last whole octet are
   * zero, so more than one token decodes to the same text: `QR` as well as
   * `QQ`, the token of `A`.
   */
  lemma DecodeNonCanonical(a: string, t: string)
    requires a == "A" && t == "QR"
    ensures EncodeSafeBase64(a) == "QQ"
    ensures DecodeSafeBase64(t) == Some(a)
  {
    EncodeSafeBase64Is(a);
    var bs: seq<Byte> := [0x41];
    assert a[1..] == [];
    assert Utf8.Encode(a) == bs;
    var q := Base64.EncodeQuantum(bs);
    assert q[0] == 'Q' && q[1] == 'Q' by {
      assert Base64.QuantumSextet(bs, 0) == 16 && Base64.QuantumSextet(bs, 1) == 16;
    }
    assert ToUrlAlphabet(q) == q;
    assert ToStdAlphabet(t) == t;
    Base64.AtobBase64Text(t);
    assert Base64.DecodeText(t) == bs by {
      assert Base64.SextetValue(t[0]) == 16 && Base64.SextetValue(t[1]) == 17;
    }
    DecodeSafeBase64Is(t);
    OctetsOfBinaryString(bs);
    Utf8.DecodeEncode(a);
  }
}
