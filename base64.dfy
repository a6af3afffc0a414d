/**
 * The browser's `btoa` and `atob` (HTML Living Standard, "forgiving-base64
 * encode" and "forgiving-base64 decode"), which apply the base64 encoding of
 * RFC 4648 section 4 to "binary strings": strings whose every character is
 * below U+0100 and stands for one octet.
 */
module Base64 {
  import opened Wrappers
  import Utf8

  type Byte = Utf8.Byte

  /** A character of the base64 alphabet (RFC 4648 section 4, Table 1). */
  predicate IsBase64Char(c: char) {
    'A' <= c <= 'Z' || 'a' <= c <= 'z' || '0' <= c <= '9' || c == '+' || c == '/'
  }

  /** Text made of base64 alphabet characters only. */
  predicate IsBase64Text(s: string) {
    forall i :: 0 <= i < |s| ==> IsBase64Char(s[i])
  }

  /** The value a base64 character encodes. */
  function SextetValue(c: char): (v: nat)
    requires IsBase64Char(c)
    ensures v < 64
  {
    if 'A' <= c <= 'Z' then c as int - 'A' as int
    else if 'a' <= c <= 'z' then c as int - 'a' as int + 26
    else if '0' <= c <= '9' then c as int - '0' as int + 52
    else if c == '+' then 62
    else 63
  }

  /** The base64 character for a six-bit value. */
  function SextetChar(v: nat): (c: char)
    requires v < 64
    ensures IsBase64Char(c) && SextetValue(c) == v
  {
    if v < 26 then ('A' as int + v) as char
    else if v < 52 then ('a' as int + v - 26) as char
    else if v < 62 then ('0' as int + v - 52) as char
    else if v == 62 then '+'
    else '/'
  }

  /** A string whose characters all stand for octets, as `btoa` demands. */
  predicate IsBinaryString(s: string) {
    forall i :: 0 <= i < |s| ==> s[i] as int < 0x100
  }

  /** The binary string whose n-th character has the n-th octet as its code. */
  function BinaryString(bs: seq<Byte>): (s: string)
    ensures IsBinaryString(s) && |s| == |bs|
  {
    seq(|bs|, i requires 0 <= i < |bs| => bs[i] as char)
  }

  /** The octets a binary string stands for. */
  function Octets(s: string): (bs: seq<Byte>)
    requires IsBinaryString(s)
    ensures BinaryString(bs) == s
  {
    seq(|s|, i requires 0 <= i < |s| => s[i] as int)
  }

  lemma BinaryStringConcat(a: seq<Byte>, b: seq<Byte>)
    ensures BinaryString(a + b) == BinaryString(a) + BinaryString(b)
  {
  }

  /** The i-th 6-bit group of a quantum of one to three octets, missing octets counting as zero bits. */
  function QuantumSextet(g: seq<Byte>, i: nat): (v: nat)
    requires 1 <= |g| <= 3 && i < 4
    ensures v < 64
  {
    var b0 := g[0] as int;
    var b1 := if |g| > 1 then g[1] as int else 0;
    var b2 := if |g| > 2 then g[2] as int else 0;
    if i == 0 then b0 / 4
    else if i == 1 then b0 % 4 * 16 + b1 / 16
    else if i == 2 then b1 % 16 * 4 + b2 / 64
    else b2 % 64
  }

  /**
   * The characters of one quantum of one to three octets: the 24-bit group
   * split into four 6-bit groups (RFC 4648 section 4), a partial group giving
   * two or three characters.
   */
  function EncodeQuantum(g: seq<Byte>): (r: string)
    requires 1 <= |g| <= 3
    ensures |r| == |g| + 1 && IsBase64Text(r)
  {
    seq(|g| + 1, i requires 0 <= i <= |g| => SextetChar(QuantumSextet(g, i)))
  }

  /** The `=` padding of RFC 4648 section 4 after n octets. */
  function Padding(n: nat): (r: string)
    ensures forall i :: 0 <= i < |r| ==> r[i] == '='
  {
    if n % 3 == 1 then "==" else if n % 3 == 2 then "=" else ""
  }

  /** Base64 with padding (RFC 4648 section 4): what `btoa` produces. */
  function Encode(bs: seq<Byte>): string
  {
    if |bs| == 0 then ""
    else if |bs| < 3 then EncodeQuantum(bs) + Padding(|bs|)
    else EncodeQuantum(bs[..3]) + Encode(bs[3..])
  }

  /** Base64 with the padding omitted, as RFC 4648 section 3.2 allows. */
  function EncodeUnpadded(bs: seq<Byte>): (r: string)
    ensures IsBase64Text(r)
  {
    if |bs| == 0 then ""
    else if |bs| < 3 then EncodeQuantum(bs)
    else EncodeQuantum(bs[..3]) + EncodeUnpadded(bs[3..])
  }

  /** One whole group adds four characters and leaves the padding as it was. */
  lemma UnpaddedLengthStep(bs: seq<Byte>)
    requires |bs| >= 3
    ensures |EncodeUnpadded(bs)| == 4 + |EncodeUnpadded(bs[3..])|
    ensures |Padding(|bs|)| == |Padding(|bs[3..]|)|
  {
    assert |bs| % 3 == |bs[3..]| % 3;
  }

  /** Without padding the length never leaves remainder 1 modulo 4; the padding completes a multiple of four. */
  lemma {:induction false} UnpaddedLength(bs: seq<Byte>)
    ensures |EncodeUnpadded(bs)| % 4 != 1
    ensures (|EncodeUnpadded(bs)| + |Padding(|bs|)|) % 4 == 0
  {
    if |bs| >= 3 {
      UnpaddedLength(bs[3..]);
      UnpaddedLengthStep(bs);
      var m, q := |EncodeUnpadded(bs[3..])|, |Padding(|bs[3..]|)|;
      assert (4 + m) % 4 == m % 4 && (4 + m + q) % 4 == (m + q) % 4;
    }
  }

  /** The padded encoding is the unpadded one followed by its padding and nothing else. */
  lemma {:induction false} EncodeIsUnpaddedThenPadding(bs: seq<Byte>)
    ensures Encode(bs) == EncodeUnpadded(bs) + Padding(|bs|)
  {
    if |bs| >= 3 {
      EncodeIsUnpaddedThenPadding(bs[3..]);
      assert Padding(|bs|) == Padding(|bs[3..]|);
    }
  }

  /** `btoa`: fails (throws InvalidCharacterError) on any character above U+00FF. */
  function Btoa(data: string): (r: Option<string>)
    ensures r.Some? <==> IsBinaryString(data)
  {
    if IsBinaryString(data) then Some(Encode(Octets(data))) else None
  }

  /** ASCII whitespace of the Infra Standard: TAB, LF, FF, CR and SPACE. */
  predicate IsAsciiWhitespace(c: char) {
    c == '\t' || c == '\n' || c == '\U{C}' || c == '\r' || c == ' '
  }

  /** Step 1 of forgiving-base64 decode: remove all ASCII whitespace. */
  function RemoveAsciiWhitespace(s: string): (r: string)
    ensures forall i :: 0 <= i < |r| ==> !IsAsciiWhitespace(r[i])
    ensures (forall i :: 0 <= i < |s| ==> !IsAsciiWhitespace(s[i])) ==> r == s
  {
    if s == [] then []
    else if IsAsciiWhitespace(s[0]) then RemoveAsciiWhitespace(s[1..])
    else [s[0]] + RemoveAsciiWhitespace(s[1..])
  }

  /** Step 2: when the length is a multiple of four, drop one or two final `=`. */
  function StripFinalPadding(d: string): (r: string)
    ensures r <= d
    ensures forall i :: |r| <= i < |d| ==> d[i] == '='
  {
    if |d| % 4 == 0 && |d| >= 2 && d[|d| - 1] == '=' && d[|d| - 2] == '=' then d[..|d| - 2]
    else if |d| % 4 == 0 && |d| >= 1 && d[|d| - 1] == '=' then d[..|d| - 1]
    else d
  }

  /** The octets carried by two to four base64 characters; the bits past the last whole octet are discarded. */
  function DecodeQuantum(q: string): (r: seq<Byte>)
    requires 2 <= |q| <= 4 && IsBase64Text(q)
    ensures |r| == |q| - 1
  {
    var v0, v1 := SextetValue(q[0]), SextetValue(q[1]);
    var v2 := if |q| > 2 then SextetValue(q[2]) else 0;
    var v3 := if |q| > 3 then SextetValue(q[3]) else 0;
    var octets: seq<Byte> := [v0 * 4 + v1 / 16, v1 % 16 * 16 + v2 / 4, v2 % 4 * 64 + v3];
    octets[..|q| - 1]
  }

  /** Steps 5 to 7: six bits per character, emitted as octets in groups of four characters. */
  function DecodeText(d: string): (r: seq<Byte>)
    requires IsBase64Text(d) && |d| % 4 != 1
  {
    if |d| == 0 then []
    else if |d| < 4 then DecodeQuantum(d)
    else DecodeQuantum(d[..4]) + DecodeText(d[4..])
  }

  /** `atob`: fails (throws InvalidCharacterError) as forgiving-base64 decode does. */
  function Atob(data: string): (r: Option<string>)
    ensures r.Some? ==> IsBinaryString(r.value)
  {
    var d := StripFinalPadding(RemoveAsciiWhitespace(data));
    if |d| % 4 == 1 then None
    else if !IsBase64Text(d) then None
    else Some(BinaryString(DecodeText(d)))
  }

  /** Decoding the characters of one quantum gives its octets back. */
  lemma DecodeEncodeQuantum(g: seq<Byte>)
    requires 1 <= |g| <= 3
    ensures DecodeQuantum(EncodeQuantum(g)) == g
  {
    var q := EncodeQuantum(g);
    var b0 := g[0] as int;
    var b1 := if |g| > 1 then g[1] as int else 0;
    var b2 := if |g| > 2 then g[2] as int else 0;
    var v0, v1 := b0 / 4, b0 % 4 * 16 + b1 / 16;
    var v2 := if |g| > 1 then b1 % 16 * 4 + b2 / 64 else 0;
    var v3 := if |g| > 2 then b2 % 64 else 0;
    assert SextetValue(q[0]) == v0 && SextetValue(q[1]) == v1;
    assert |g| > 1 ==> SextetValue(q[2]) == v2;
    assert |g| > 2 ==> SextetValue(q[3]) == v3;
    var r := DecodeQuantum(q);
    assert r[0] == g[0] by {
      assert v1 / 16 == b0 % 4;
    }
    assert |g| > 1 ==> r[1] == g[1] by {
      if |g| > 1 {
        assert v1 % 16 == b1 / 16 && v2 / 4 == b1 % 16;
      }
    }
    assert |g| > 2 ==> r[2] == g[2] by {
      if |g| > 2 {
        assert v2 % 4 == b2 / 64;
      }
    }
    assert |r| == |g|;
  }

  lemma {:induction false} DecodeEncodeUnpadded(bs: seq<Byte>)
    ensures |EncodeUnpadded(bs)| % 4 != 1 && DecodeText(EncodeUnpadded(bs)) == bs
  {
    UnpaddedLength(bs);
    if 0 < |bs| < 3 {
      DecodeEncodeQuantum(bs);
    } else if |bs| >= 3 {
      var q, rest := EncodeQuantum(bs[..3]), EncodeUnpadded(bs[3..]);
      assert (q + rest)[..4] == q && (q + rest)[4..] == rest;
      DecodeEncodeQuantum(bs[..3]);
      DecodeEncodeUnpadded(bs[3..]);
      assert bs == bs[..3] + bs[3..];
    }
  }

  /** Base64 text followed by `=` holds no whitespace, so step 1 leaves it alone. */
  lemma PaddedTextHasNoWhitespace(u: string, p: string)
    requires IsBase64Text(u)
    requires forall i :: 0 <= i < |p| ==> p[i] == '='
    ensures RemoveAsciiWhitespace(u + p) == u + p
  {
    var e := u + p;
    forall i | 0 <= i < |e| ensures !IsAsciiWhitespace(e[i]) {
      if i < |u| { assert e[i] == u[i]; } else { assert e[i] == p[i - |u|]; }
    }
  }

  /** Step 2 drops exactly the padding that completes a multiple of four, and nothing of base64 text. */
  lemma StripFinalPaddingOf(u: string, p: string)
    requires IsBase64Text(u) && |p| <= 2 && (|p| == 0 || (|u| + |p|) % 4 == 0)
    requires forall i :: 0 <= i < |p| ==> p[i] == '='
    ensures StripFinalPadding(u + p) == u
  {
    var e := u + p;
    if |p| == 2 {
      assert e[|e| - 1] == '=' && e[|e| - 2] == '=' && e[..|e| - 2] == u;
    } else if |p| == 1 {
      assert e[|e| - 1] == '=' && e[..|e| - 1] == u;
      assert |u| > 0 ==> e[|e| - 2] == u[|u| - 1];
    } else {
      assert e == u;
      assert |u| > 0 ==> e[|e| - 1] == u[|u| - 1];
    }
  }

  /** Base64 text followed by at most two `=` that complete a multiple of four characters passes the whitespace and padding steps of `atob` as the text alone. */
  lemma CleanPaddedText(u: string, p: string)
    requires IsBase64Text(u) && |p| <= 2 && (|p| == 0 || (|u| + |p|) % 4 == 0)
    requires forall i :: 0 <= i < |p| ==> p[i] == '='
    ensures StripFinalPadding(RemoveAsciiWhitespace(u + p)) == u
  {
    PaddedTextHasNoWhitespace(u, p);
    StripFinalPaddingOf(u, p);
  }


  /** `atob` of base64 text of a good length decodes every group. */
  lemma AtobBase64Text(d: string)
    requires IsBase64Text(d) && |d| % 4 != 1
    ensures Atob(d) == Some(BinaryString(DecodeText(d)))
  {
    CleanPaddedText(d, "");
    assert d + "" == d;
  }

  /** `atob` accepts base64 without its padding and gives the octets back. */
  lemma AtobEncodeUnpadded(bs: seq<Byte>)
    ensures Atob(EncodeUnpadded(bs)) == Some(BinaryString(bs))
  {
    UnpaddedLength(bs);
    AtobBase64Text(EncodeUnpadded(bs));
    DecodeEncodeUnpadded(bs);
  }

  /** `atob` accepts base64 with its padding and gives the octets back. */
  lemma AtobEncode(bs: seq<Byte>)
    ensures Atob(Encode(bs)) == Some(BinaryString(bs))
  {
    var u, p := EncodeUnpadded(bs), Padding(|bs|);
    EncodeIsUnpaddedThenPadding(bs);
    UnpaddedLength(bs);
    CleanPaddedText(u, p);
    AtobBase64Text(u);
    DecodeEncodeUnpadded(bs);
  }

  /** `atob` inverts `btoa`. */
  lemma AtobBtoa(data: string)
    requires IsBinaryString(data)
    ensures Atob(Btoa(data).value) == Some(data)
  {
    AtobEncode(Octets(data));
  }

  /** On base64 characters alone, `atob` fails exactly when the length leaves remainder 1 modulo 4. */
  lemma AtobFailsOnLength(d: string)
    requires IsBase64Text(d)
    ensures Atob(d).None? <==> |d| % 4 == 1
  {
    CleanPaddedText(d, "");
    assert d + "" == d;
  }

  /** Removing whitespace keeps every other character somewhere. */
  lemma {:induction false} RemoveAsciiWhitespaceKeeps(s: string, i: nat)
    requires i < |s| && !IsAsciiWhitespace(s[i])
    ensures exists j :: 0 <= j < |RemoveAsciiWhitespace(s)| && RemoveAsciiWhitespace(s)[j] == s[i]
  {
    var w := RemoveAsciiWhitespace(s);
    if i == 0 {
      assert w[0] == s[0];
    } else {
      RemoveAsciiWhitespaceKeeps(s[1..], i - 1);
      var j :| 0 <= j < |RemoveAsciiWhitespace(s[1..])| && RemoveAsciiWhitespace(s[1..])[j] == s[1..][i - 1];
      if IsAsciiWhitespace(s[0]) {
        assert w[j] == s[i];
      } else {
        assert w[j + 1] == s[i];
      }
    }
  }

  /** Whitespace removal works piece by piece: a text's result is its parts' results joined. */
  lemma {:induction false} RemoveAsciiWhitespaceConcat(a: string, b: string)
    ensures RemoveAsciiWhitespace(a + b) == RemoveAsciiWhitespace(a) + RemoveAsciiWhitespace(b)
  {
    if a != [] {
      assert (a + b)[0] == a[0];
      assert (a + b)[1..] == a[1..] + b;
      RemoveAsciiWhitespaceConcat(a[1..], b);
    } else {
      assert a + b == b;
    }
  }

  /**
   * Together with `RemoveAsciiWhitespaceConcat`, this fixes the result as the
   * non-whitespace characters of the text, in order: a whitespace character
   * leaves nothing, any other character stays.
   */
  lemma RemoveAsciiWhitespaceChar(c: char)
    ensures RemoveAsciiWhitespace([c]) == if IsAsciiWhitespace(c) then [] else [c]
  {
    assert [c][1..] == [];
  }

  /** A whitespace character anywhere in the input does not change what `atob` returns. */
  lemma AtobIgnoresWhitespace(a: string, w: char, b: string)
    requires IsAsciiWhitespace(w)
    ensures Atob(a + [w] + b) == Atob(a + b)
  {
    RemoveAsciiWhitespaceConcat(a + [w], b);
    RemoveAsciiWhitespaceConcat(a, [w]);
    RemoveAsciiWhitespaceChar(w);
    RemoveAsciiWhitespaceConcat(a, b);
    assert RemoveAsciiWhitespace(a) + [] == RemoveAsciiWhitespace(a);
  }

  /** `atob` fails on any character that is neither base64, whitespace nor `=`. */
  lemma AtobFailsOnForeignChar(data: string, i: nat)
    requires i < |data|
    requires !IsBase64Char(data[i]) && !IsAsciiWhitespace(data[i]) && data[i] != '='
    ensures Atob(data).None?
  {
    var w := RemoveAsciiWhitespace(data);
    var d := StripFinalPadding(w);
    RemoveAsciiWhitespaceKeeps(data, i);
    var j :| 0 <= j < |w| && w[j] == data[i];
    assert j < |d|;
    assert d[j] == data[i];
  }
}
