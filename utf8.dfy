/**
 * UTF-8 (RFC 3629, section 3): the encoding of Unicode scalar values as octets,
 * the strict decoder used by ECMAScript's decodeURIComponent, and the decoder
 * with replacement used by the WHATWG URL parser.
 */
module Utf8 {
  import opened Wrappers

  /** An octet. */
  type Byte = b: int | 0 <= b < 0x100

  /** A Unicode scalar value: a code point that is not a surrogate. */
  predicate IsScalarValue(cp: int) {
    0 <= cp < 0xD800 || 0xE000 <= cp < 0x11_0000
  }

  /** An octet of the form 10xxxxxx. */
  predicate IsContinuation(b: Byte) {
    0x80 <= b < 0xC0
  }

  /**
   * The number of octets announced by a leading octet: the count of its leading
   * 1 bits, or 1 for 0xxxxxxx; 0 when that count is 1 or more than 4, which no
   * UTF-8 sequence can start with.
   */
  function SequenceLength(lead: Byte): (n: nat)
    ensures n <= 4
    ensures n == 1 <==> lead < 0x80
    ensures n == 0 <==> (IsContinuation(lead) || 0xF8 <= lead)
  {
    if lead < 0x80 then 1
    else if lead < 0xC0 then 0
    else if lead < 0xE0 then 2
    else if lead < 0xF0 then 3
    else if lead < 0xF8 then 4
    else 0
  }

  /** The UTF-8 octets of one scalar value, following the table of RFC 3629 section 3. */
  function EncodeScalar(c: char): (r: seq<Byte>)
    ensures 1 <= |r| <= 4
    ensures |r| == SequenceLength(r[0])
    ensures forall i :: 1 <= i < |r| ==> IsContinuation(r[i])
    ensures c as int < 0x80 ==> r == [c as int]
  {
    var cp := c as int;
    if cp < 0x80 then [cp]
    else if cp < 0x800 then [0xC0 + cp / 0x40, 0x80 + cp % 0x40]
    else if cp < 0x1_0000 then [0xE0 + cp / 0x1000, 0x80 + cp / 0x40 % 0x40, 0x80 + cp % 0x40]
    else [0xF0 + cp / 0x4_0000, 0x80 + cp / 0x1000 % 0x40, 0x80 + cp / 0x40 % 0x40, 0x80 + cp % 0x40]
  }

  /** The UTF-8 encoding of a text. */
  function Encode(s: string): (r: seq<Byte>)
    ensures |s| <= |r| <= 4 * |s|
  {
    if s == [] then [] else EncodeScalar(s[0]) + Encode(s[1..])
  }

  /** The code point that the UTF-8 transformation reads from octets: the payload bits, in order. */
  function Assemble(octets: seq<Byte>): int
    requires 1 <= |octets| <= 4
  {
    var b0 := octets[0] as int;
    if |octets| == 1 then b0
    else if |octets| == 2 then b0 % 0x20 * 0x40 + octets[1] as int % 0x40
    else if |octets| == 3 then b0 % 0x10 * 0x1000 + octets[1] as int % 0x40 * 0x40 + octets[2] as int % 0x40
    else b0 % 0x08 * 0x4_0000 + octets[1] as int % 0x40 * 0x1000 + octets[2] as int % 0x40 * 0x40 + octets[3] as int % 0x40
  }

  /** Splitting off the six low bits of a number. */
  lemma SplitLowSix(x: nat, q: nat, r: nat)
    requires x == q * 0x40 + r && r < 0x40
    ensures x / 0x40 == q && x % 0x40 == r
  {
  }

  /** Taking six bits twice is taking twelve. */
  lemma ShiftTwelve(x: nat)
    ensures x / 0x1000 == x / 0x40 / 0x40
    ensures x / 0x40 == x / 0x1000 * 0x40 + x / 0x40 % 0x40
  {
    var q, r := x / 0x40, x % 0x40;
    var q2, r2 := q / 0x40, q % 0x40;
    assert x == q2 * 0x1000 + (r2 * 0x40 + r);
  }

  /** Taking six bits twice from x / 0x40 is taking eighteen from x. */
  lemma ShiftEighteen(x: nat)
    ensures x / 0x4_0000 == x / 0x1000 / 0x40
  {
    var q, r := x / 0x1000, x % 0x1000;
    var q2, r2 := q / 0x40, q % 0x40;
    assert x == q2 * 0x4_0000 + (r2 * 0x1000 + r);
  }

  /** A continuation octet carries its six payload bits unchanged. */
  lemma ContinuationPayload(x: nat)
    requires x < 0x40
    ensures (0x80 + x) % 0x40 == x
  {
    SplitLowSix(0x80 + x, 2, x);
  }

  /** The payload bits of a two-octet encoding make up the code point. */
  lemma AssembleTwo(cp: nat)
    requires 0x80 <= cp < 0x800
    ensures (0xC0 + cp / 0x40) % 0x20 * 0x40 + (0x80 + cp % 0x40) % 0x40 == cp
  {
    ContinuationPayload(cp % 0x40);
    SplitLowSix(cp, cp / 0x40, cp % 0x40);
    assert (0xC0 + cp / 0x40) % 0x20 == cp / 0x40;
  }

  /** The payload bits of a three-octet encoding make up the code point. */
  lemma AssembleThree(cp: nat)
    requires 0x800 <= cp < 0x1_0000
    ensures (0xE0 + cp / 0x1000) % 0x10 * 0x1000 + (0x80 + cp / 0x40 % 0x40) % 0x40 * 0x40 + (0x80 + cp % 0x40) % 0x40 == cp
  {
    ShiftTwelve(cp);
    ContinuationPayload(cp % 0x40);
    ContinuationPayload(cp / 0x40 % 0x40);
    assert (0xE0 + cp / 0x1000) % 0x10 == cp / 0x1000;
  }

  /** The payload bits of a four-octet encoding make up the code point. */
  lemma AssembleFour(cp: nat)
    requires 0x1_0000 <= cp < 0x11_0000
    ensures (0xF0 + cp / 0x4_0000) % 0x08 * 0x4_0000 + (0x80 + cp / 0x1000 % 0x40) % 0x40 * 0x1000
            + (0x80 + cp / 0x40 % 0x40) % 0x40 * 0x40 + (0x80 + cp % 0x40) % 0x40 == cp
  {
    ShiftTwelve(cp);
    ShiftTwelve(cp / 0x40);
    ShiftEighteen(cp);
    ContinuationPayload(cp % 0x40);
    ContinuationPayload(cp / 0x40 % 0x40);
    ContinuationPayload(cp / 0x1000 % 0x40);
    assert (0xF0 + cp / 0x4_0000) % 0x08 == cp / 0x4_0000;
  }

  /** Reading the payload bits of a scalar's octets gives the scalar back. */
  lemma AssembleEncodeScalar(c: char)
    ensures Assemble(EncodeScalar(c)) == c as int
  {
    var cp := c as int;
    if 0x80 <= cp < 0x800 {
      AssembleTwo(cp);
    } else if 0x800 <= cp < 0x1_0000 {
      AssembleThree(cp);
    } else if 0x1_0000 <= cp {
      AssembleFour(cp);
    }
  }

  /**
   * The scalar value that a complete sequence of octets encodes, if those
   * octets are a valid (shortest-form, non-surrogate, at most U+10FFFF) UTF-8
   * encoding of one code point.
   */
  function DecodeScalar(octets: seq<Byte>): (r: Option<char>)
    requires 1 <= |octets| <= 4
    ensures r.Some? ==> EncodeScalar(r.value) == octets
  {
    var cp := Assemble(octets);
    if IsScalarValue(cp) && EncodeScalar(cp as char) == octets then Some(cp as char) else None
  }

  /** Decoding one scalar succeeds on exactly the encodings of scalar values. */
  lemma DecodeScalarIff(octets: seq<Byte>, c: char)
    requires 1 <= |octets| <= 4
    ensures DecodeScalar(octets) == Some(c) <==> EncodeScalar(c) == octets
  {
    if EncodeScalar(c) == octets {
      AssembleEncodeScalar(c);
    }
  }

  /** Strict UTF-8 decoding: fails on any ill-formed sequence. */
  function Decode(bs: seq<Byte>): (r: Option<string>)
    decreases |bs|
  {
    if bs == [] then Some([])
    else
      var n := SequenceLength(bs[0]);
      if n == 0 || |bs| < n then None
      else
        match DecodeScalar(bs[..n])
        case None => None
        case Some(c) =>
          match Decode(bs[n..])
          case None => None
          case Some(rest) => Some([c] + rest)
  }

  /** Strict decoding recovers every encoded text. */
  lemma {:induction false} DecodeEncode(s: string)
    ensures Decode(Encode(s)) == Some(s)
  {
    if s != [] {
      var e, tail := EncodeScalar(s[0]), Encode(s[1..]);
      var bs := Encode(s);
      assert bs == e + tail;
      assert bs[0] == e[0] && bs[..|e|] == e && bs[|e|..] == tail;
      DecodeScalarIff(e, s[0]);
      DecodeEncode(s[1..]);
      assert [s[0]] + s[1..] == s;
    }
  }

  /** A successful strict decoding is the first scalar in front of the decoding of the rest. */
  lemma DecodeCons(bs: seq<Byte>)
    requires bs != [] && Decode(bs).Some?
    ensures 1 <= SequenceLength(bs[0]) <= |bs|
    ensures DecodeScalar(bs[..SequenceLength(bs[0])]).Some? && Decode(bs[SequenceLength(bs[0])..]).Some?
    ensures Decode(bs).value
         == [DecodeScalar(bs[..SequenceLength(bs[0])]).value] + Decode(bs[SequenceLength(bs[0])..]).value
  {
  }

  /** Encoding a text is encoding its first character in front of the rest. */
  lemma EncodeCons(c: char, t: string)
    ensures Encode([c] + t) == EncodeScalar(c) + Encode(t)
  {
    assert ([c] + t)[0] == c && ([c] + t)[1..] == t;
  }

  /** Strict decoding succeeds on nothing but encodings. */
  lemma {:induction false} EncodeDecode(bs: seq<Byte>)
    requires Decode(bs).Some?
    ensures Encode(Decode(bs).value) == bs
    decreases |bs|
  {
    if bs != [] {
      DecodeCons(bs);
      var n := SequenceLength(bs[0]);
      var head, tail := DecodeScalar(bs[..n]).value, Decode(bs[n..]).value;
      EncodeDecode(bs[n..]);
      EncodeDecodeStep(bs, n, head, tail);
    }
  }

  /** The encoding of a decoded scalar and the encoding of the decoded rest, put together. */
  lemma EncodeDecodeStep(bs: seq<Byte>, n: nat, head: char, tail: string)
    requires 1 <= n <= |bs| && EncodeScalar(head) == bs[..n] && Encode(tail) == bs[n..]
    ensures Encode([head] + tail) == bs
  {
    EncodeCons(head, tail);
    assert bs[..n] + bs[n..] == bs;
  }

  /** Strict decoding and encoding are inverse bijections between texts and well-formed octets. */
  lemma DecodeIff(bs: seq<Byte>, s: string)
    ensures Decode(bs) == Some(s) <==> Encode(s) == bs
  {
    if Encode(s) == bs {
      DecodeEncode(s);
    }
    if Decode(bs) == Some(s) {
      EncodeDecode(bs);
    }
  }

  lemma {:induction false} EncodeConcat(a: string, b: string)
    ensures Encode(a + b) == Encode(a) + Encode(b)
  {
    if a == [] {
      assert a + b == b;
    } else {
      assert (a + b)[0] == a[0] && (a + b)[1..] == a[1..] + b;
      EncodeConcat(a[1..], b);
    }
  }

  /** Text made of ASCII characters only. */
  predicate IsAscii(s: string) {
    forall i :: 0 <= i < |s| ==> s[i] as int < 0x80
  }

  /** On ASCII text, UTF-8 is one octet per character, equal to its code. */
  lemma {:induction false} EncodeAscii(s: string)
    requires IsAscii(s)
    ensures |Encode(s)| == |s|
    ensures forall i :: 0 <= i < |s| ==> Encode(s)[i] == s[i] as int
  {
    if s != [] {
      EncodeAscii(s[1..]);
    }
  }

  /** U+FFFD REPLACEMENT CHARACTER. */
  const Replacement: char := '\U{FFFD}'

  /**
   * "UTF-8 decode without BOM" of the WHATWG Encoding Standard (the UTF-8
   * decoder with error mode "replacement"): every well-formed sequence gives
   * its scalar value; each ill-formed part gives U+FFFD. A leading byte starts
   * a pending sequence (Pending) with the bounds the next byte must lie in.
   */
  function DecodeWithReplacement(bs: seq<Byte>): (r: string)
    decreases |bs|, 0
  {
    if bs == [] then []
    else
      var b := bs[0] as int;
      if b < 0x80 then [b as char] + DecodeWithReplacement(bs[1..])
      else if 0xC2 <= b < 0xE0 then Pending(bs[1..], 1, b % 0x20, 0x80, 0xBF)
      else if 0xE0 <= b < 0xF0 then
        Pending(bs[1..], 2, b % 0x10, if b == 0xE0 then 0xA0 else 0x80, if b == 0xED then 0x9F else 0xBF)
      else if 0xF0 <= b < 0xF5 then
        Pending(bs[1..], 3, b % 0x08, if b == 0xF0 then 0x90 else 0x80, if b == 0xF4 then 0x8F else 0xBF)
      else [Replacement] + DecodeWithReplacement(bs[1..])
  }

  /**
   * The states the WHATWG decoder can be in while it waits for `needed` more
   * continuation bytes, having read the payload bits `cp` so far, the next
   * byte required to lie in lower..upper. In each of them every completion
   * that passes the bounds is a scalar value.
   */
  predicate PendingState(needed: nat, cp: int, lower: Byte, upper: Byte) {
    && 0x80 <= lower <= upper <= 0xBF
    && if needed == 1 then
         && lower == 0x80 && upper == 0xBF
         && (|| 2 <= cp < 0x20
             || (0x20 <= cp < 0x400 && !(0x360 <= cp < 0x380))
             || 0x400 <= cp < 0x4400)
       else if needed == 2 then
         || (&& 0 <= cp < 0x10
             && lower == (if cp == 0 then 0xA0 else 0x80)
             && upper == (if cp == 0xD then 0x9F else 0xBF))
         || (0x10 <= cp < 0x110 && lower == 0x80 && upper == 0xBF)
       else
         && needed == 3 && 0 <= cp <= 4
         && lower == (if cp == 0 then 0x90 else 0x80)
         && upper == (if cp == 4 then 0x8F else 0xBF)
  }

  /** The WHATWG decoder in a pending state; its next byte is bs[0]. */
  function Pending(bs: seq<Byte>, needed: nat, cp: int, lower: Byte, upper: Byte): (r: string)
    requires PendingState(needed, cp, lower, upper)
    decreases |bs|, 1
  {
    if bs == [] then [Replacement]
    else if bs[0] < lower || upper < bs[0] then [Replacement] + DecodeWithReplacement(bs)
    else
      var next := cp * 0x40 + bs[0] % 0x40;
      if needed == 1 then [next as char] + DecodeWithReplacement(bs[1..])
      else Pending(bs[1..], needed - 1, next, 0x80, 0xBF)
  }

  /** One continuation byte within the bounds moves the decoder to the next pending state. */
  lemma PendingStep(bs: seq<Byte>, needed: nat, cp: int, lower: Byte, upper: Byte)
    requires PendingState(needed, cp, lower, upper) && needed > 1
    requires bs != [] && lower <= bs[0] <= upper
    ensures PendingState(needed - 1, cp * 0x40 + bs[0] % 0x40, 0x80, 0xBF)
    ensures Pending(bs, needed, cp, lower, upper) == Pending(bs[1..], needed - 1, cp * 0x40 + bs[0] % 0x40, 0x80, 0xBF)
  {
  }

  /** The WHATWG decoder reads ASCII octets as the characters with those codes. */
  lemma {:induction false} DecodeWithReplacementAscii(bs: seq<Byte>)
    requires forall i :: 0 <= i < |bs| ==> bs[i] < 0x80
    ensures |DecodeWithReplacement(bs)| == |bs|
    ensures forall i :: 0 <= i < |bs| ==> DecodeWithReplacement(bs)[i] as int == bs[i]
  {
    if bs != [] {
      DecodeWithReplacementAscii(bs[1..]);
    }
  }

  /** The last continuation byte completes the pending scalar. */
  lemma PendingLast(d: nat, rest: seq<Byte>, cp: int)
    requires d < 0x40 && PendingState(1, cp, 0x80, 0xBF)
    ensures IsScalarValue(cp * 0x40 + d)
    ensures Pending([0x80 + d] + rest, 1, cp, 0x80, 0xBF) == [(cp * 0x40 + d) as char] + DecodeWithReplacement(rest)
  {
    ContinuationPayload(d);
    assert ([0x80 + d] + rest)[1..] == rest;
  }

  /** Two continuation bytes, the first within the bounds, complete a scalar waiting for two. */
  lemma PendingTwo(d1: nat, d2: nat, rest: seq<Byte>, cp: int, lower: Byte, upper: Byte)
    requires PendingState(2, cp, lower, upper) && d1 < 0x40 && d2 < 0x40 && lower <= 0x80 + d1 <= upper
    ensures IsScalarValue((cp * 0x40 + d1) * 0x40 + d2)
    ensures Pending([0x80 + d1, 0x80 + d2] + rest, 2, cp, lower, upper)
         == [((cp * 0x40 + d1) * 0x40 + d2) as char] + DecodeWithReplacement(rest)
  {
    var bs: seq<Byte> := [0x80 + d1, 0x80 + d2] + rest;
    ContinuationPayload(d1);
    PendingStep(bs, 2, cp, lower, upper);
    assert bs[1..] == [0x80 + d2] + rest;
    PendingLast(d2, rest, cp * 0x40 + d1);
  }

  /** The WHATWG decoder reads a two-octet sequence. */
  lemma DecodeWithReplacementTwo(d0: nat, d1: nat, rest: seq<Byte>)
    requires 2 <= d0 < 0x20 && d1 < 0x40
    ensures IsScalarValue(d0 * 0x40 + d1)
    ensures DecodeWithReplacement([0xC0 + d0, 0x80 + d1] + rest)
         == [(d0 * 0x40 + d1) as char] + DecodeWithReplacement(rest)
  {
    var bs: seq<Byte> := [0xC0 + d0, 0x80 + d1] + rest;
    assert DecodeWithReplacement(bs) == Pending(bs[1..], 1, d0, 0x80, 0xBF);
    assert bs[1..] == [0x80 + d1] + rest;
    PendingLast(d1, rest, d0);
  }

  /** A lead octet E0 to EF puts the decoder in wait for two continuation octets. */
  lemma LeadThree(d0: nat, tail: seq<Byte>)
    requires d0 < 0x10
    ensures PendingState(2, d0, if d0 == 0 then 0xA0 else 0x80, if d0 == 0xD then 0x9F else 0xBF)
    ensures DecodeWithReplacement([0xE0 + d0] + tail)
         == Pending(tail, 2, d0, if d0 == 0 then 0xA0 else 0x80, if d0 == 0xD then 0x9F else 0xBF)
  {
    assert ([0xE0 + d0] + tail)[1..] == tail;
  }

  /** The WHATWG decoder reads a three-octet sequence. */
  lemma DecodeWithReplacementThree(d0: nat, d1: nat, d2: nat, rest: seq<Byte>)
    requires d0 < 0x10 && d1 < 0x40 && d2 < 0x40
    requires d0 == 0 ==> d1 >= 0x20
    requires d0 == 0xD ==> d1 < 0x20
    ensures IsScalarValue(d0 * 0x1000 + d1 * 0x40 + d2)
    ensures DecodeWithReplacement([0xE0 + d0, 0x80 + d1, 0x80 + d2] + rest)
         == [(d0 * 0x1000 + d1 * 0x40 + d2) as char] + DecodeWithReplacement(rest)
  {
    var tail: seq<Byte> := [0x80 + d1, 0x80 + d2] + rest;
    assert [0xE0 + d0, 0x80 + d1, 0x80 + d2] + rest == [0xE0 + d0] + tail;
    LeadThree(d0, tail);
    PendingTwo(d1, d2, rest, d0, if d0 == 0 then 0xA0 else 0x80, if d0 == 0xD then 0x9F else 0xBF);
    assert (d0 * 0x40 + d1) * 0x40 + d2 == d0 * 0x1000 + d1 * 0x40 + d2;
  }

  /** A lead octet F0 to F4 puts the decoder in wait for three continuation octets. */
  lemma LeadFour(d0: nat, tail: seq<Byte>)
    requires d0 <= 4
    ensures PendingState(3, d0, if d0 == 0 then 0x90 else 0x80, if d0 == 4 then 0x8F else 0xBF)
    ensures DecodeWithReplacement([0xF0 + d0] + tail)
         == Pending(tail, 3, d0, if d0 == 0 then 0x90 else 0x80, if d0 == 4 then 0x8F else 0xBF)
  {
    assert ([0xF0 + d0] + tail)[1..] == tail;
  }

  /** Three continuation octets, the first within the bounds, complete a scalar waiting for three. */
  lemma PendingThree(d1: nat, d2: nat, d3: nat, rest: seq<Byte>, cp: int, lower: Byte, upper: Byte)
    requires PendingState(3, cp, lower, upper) && d1 < 0x40 && d2 < 0x40 && d3 < 0x40 && lower <= 0x80 + d1 <= upper
    ensures IsScalarValue(((cp * 0x40 + d1) * 0x40 + d2) * 0x40 + d3)
    ensures Pending([0x80 + d1, 0x80 + d2, 0x80 + d3] + rest, 3, cp, lower, upper)
         == [(((cp * 0x40 + d1) * 0x40 + d2) * 0x40 + d3) as char] + DecodeWithReplacement(rest)
  {
    var bs: seq<Byte> := [0x80 + d1, 0x80 + d2, 0x80 + d3] + rest;
    ContinuationPayload(d1);
    PendingStep(bs, 3, cp, lower, upper);
    assert bs[1..] == [0x80 + d2, 0x80 + d3] + rest;
    PendingTwo(d2, d3, rest, cp * 0x40 + d1, 0x80, 0xBF);
  }

  /** The WHATWG decoder reads a four-octet sequence. */
  lemma DecodeWithReplacementFour(d0: nat, d1: nat, d2: nat, d3: nat, rest: seq<Byte>)
    requires d0 <= 4 && d1 < 0x40 && d2 < 0x40 && d3 < 0x40
    requires d0 == 0 ==> d1 >= 0x10
    requires d0 == 4 ==> d1 < 0x10
    ensures IsScalarValue(d0 * 0x4_0000 + d1 * 0x1000 + d2 * 0x40 + d3)
    ensures DecodeWithReplacement([0xF0 + d0, 0x80 + d1, 0x80 + d2, 0x80 + d3] + rest)
         == [(d0 * 0x4_0000 + d1 * 0x1000 + d2 * 0x40 + d3) as char] + DecodeWithReplacement(rest)
  {
    var tail: seq<Byte> := [0x80 + d1, 0x80 + d2, 0x80 + d3] + rest;
    assert [0xF0 + d0, 0x80 + d1, 0x80 + d2, 0x80 + d3] + rest == [0xF0 + d0] + tail;
    LeadFour(d0, tail);
    PendingThree(d1, d2, d3, rest, d0, if d0 == 0 then 0x90 else 0x80, if d0 == 4 then 0x8F else 0xBF);
    assert ((d0 * 0x40 + d1) * 0x40 + d2) * 0x40 + d3 == d0 * 0x4_0000 + d1 * 0x1000 + d2 * 0x40 + d3;
  }

  /** The WHATWG decoder reads one encoded scalar off the front of any octets. */
  lemma DecodeWithReplacementScalar(c: char, rest: seq<Byte>)
    ensures DecodeWithReplacement(EncodeScalar(c) + rest) == [c] + DecodeWithReplacement(rest)
  {
    var cp := c as int;
    if cp < 0x80 {
      assert (EncodeScalar(c) + rest)[1..] == rest;
    } else if cp < 0x800 {
      DecodeWithReplacementTwo(cp / 0x40, cp % 0x40, rest);
    } else if cp < 0x1_0000 {
      ScalarOfThree(c, rest);
    } else {
      ScalarOfFour(c, rest);
    }
  }

  lemma ScalarOfThree(c: char, rest: seq<Byte>)
    requires 0x800 <= c as int < 0x1_0000
    ensures DecodeWithReplacement(EncodeScalar(c) + rest) == [c] + DecodeWithReplacement(rest)
  {
    var cp := c as int;
    ShiftTwelve(cp);
    var d0, d1, d2 := cp / 0x1000, cp / 0x40 % 0x40, cp % 0x40;
    assert cp == d0 * 0x1000 + d1 * 0x40 + d2;
    DecodeWithReplacementThree(d0, d1, d2, rest);
  }

  lemma ScalarOfFour(c: char, rest: seq<Byte>)
    requires 0x1_0000 <= c as int
    ensures DecodeWithReplacement(EncodeScalar(c) + rest) == [c] + DecodeWithReplacement(rest)
  {
    var cp := c as int;
    ShiftTwelve(cp);
    ShiftTwelve(cp / 0x40);
    ShiftEighteen(cp);
    var d0, d1, d2, d3 := cp / 0x4_0000, cp / 0x1000 % 0x40, cp / 0x40 % 0x40, cp % 0x40;
    assert cp == d0 * 0x4_0000 + d1 * 0x1000 + d2 * 0x40 + d3;
    DecodeWithReplacementFour(d0, d1, d2, d3, rest);
  }

  /** The WHATWG decoder gives back every text from its UTF-8 encoding, with no replacement. */
  lemma {:induction false} DecodeWithReplacementEncode(s: string)
    ensures DecodeWithReplacement(Encode(s)) == s
  {
    if s != [] {
      DecodeWithReplacementScalar(s[0], Encode(s[1..]));
      DecodeWithReplacementEncode(s[1..]);
      assert [s[0]] + s[1..] == s;
    }
  }
}
