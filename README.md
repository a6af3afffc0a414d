# lit.dev playground: the URL-fragment codec and the hash sync

This project models the playground page of lit.dev,
`packages/lit-dev-content/src/pages/playground.ts`, and proves properties of
the model. The page packs a project's files into the URL fragment as
`#project=<token>` and reads them back on load and on every hash change.
Four parts are modelled:

- **The codec.** `encodeSafeBase64` (lines 30-49) writes text as a base64url
  token (RFC 4648 section 5) with the `=` padding cut off. `decodeSafeBase64`
  (lines 51-60) reads it back. Both steps that pass through percent-escapes
  are kept:
  - encoding is `encodeURIComponent`, then collapsing each `%XX` into one
    character;
  - decoding re-escapes every character as `%` and two lower-case hex digits,
    then applies `decodeURIComponent`.

  The browser built-ins the codec calls are modelled from their standards:
  - UTF-8 (RFC 3629 section 3), in module `Utf8`;
  - `btoa` and `atob`, the forgiving-base64 algorithms of the HTML Living
    Standard, in `Base64`. The ASCII whitespace removal of `atob` is included;
  - `encodeURIComponent` and `decodeURIComponent` of ECMAScript, in
    `UriComponent`;
  - `Number#toString(16)`, `padStart` and `parseInt(_, 16)`, in `Hex`.
- **Fragment parsing.** `new URLSearchParams(hash.slice(1))` and `get` are in
  `FormUrlencoded`. This is the application/x-www-form-urlencoded parser of
  section 5.1 of the WHATWG URL Standard, with the percent-decoding of its
  section 1.3 and the UTF-8 decoder with replacement of the WHATWG Encoding
  Standard.
- **The decision.** What `syncStateFromUrlHash` (lines 96-133) does for a
  given fragment is the pure function `Playground.Decide`. The page either
  loads the files under `extends: '/samples/base.json'`, or loads a sample.
  The sample is the URL's `sample` parameter if it matches
  `^[a-zA-Z0-9_\-\/]+$`, and `examples/hello-world-typescript` otherwise.
- **The page.** Class `Playground.PlaygroundPage` holds `location.hash`,
  `project.config` and `project.projectSrc`. Its method `Share` is the share
  button (lines 67-76). Its method `SyncStateFromUrlHash` is the hash handler,
  written with the handler's own local variables `urlFiles` and `sample`. Both
  methods are proved against `Decide` and `ShareHash`.

Text is a Dafny `string`, a sequence of Unicode scalar values. Octets are
integers 0..255.

`JSON.stringify` and `JSON.parse` are function-valued parameters. Of a parsed
value the model knows only one of three things:
- it is an array of `{name, content}` records;
- it is falsy;
- it is something else truthy.

A truthy value that is not an array makes `urlFiles.map` (line 124) throw a
TypeError outside the handler's `try` blocks. The model keeps this as the
outcome `Throws`, in which nothing is assigned.

`Object.fromEntries` is modelled on ordered lists of entries. A later entry
with the same name replaces the value of the earlier one, and the earlier one
keeps its place.

Where the code behaves differently from a plain base64url text codec, the
model follows the code:
- Text is restricted to scalar values, because `encodeURIComponent` throws on
  a lone surrogate.
- `atob` removes ASCII whitespace, so decoding accepts tokens with TAB, LF,
  FF, CR or SPACE inside them and decodes them as if it were absent
  (`SafeBase64.DecodeIgnoresWhitespace`).
- `atob` accepts the standard alphabet too, since `-`/`_` and `+`/`/` both
  end up as `+`/`/`.
- `atob` does not check that the bits after the last whole octet are zero.
  As a result, decoding is not injective: `QR` and `QQ` both decode to `A`
  (`SafeBase64.DecodeNonCanonical`).
- The round trip through percent-escapes is modelled as written. It is then
  proved equal to plain UTF-8 octets (`SafeBase64.CollapseEscapesEncode` and
  `SafeBase64.ReescapeDecode`).

## Model

| member | source | states |
|---|---|---|
| SafeBase64.RoundTrip | packages/lit-dev-content/src/pages/playground.ts:16-17 | Every text of scalar values decodes from its own token: `DecodeSafeBase64(EncodeSafeBase64(s)) == Some(s)`. |
| SafeBase64.EncodeSafeBase64 | packages/lit-dev-content/src/pages/playground.ts:30-49 | No contract of its own. What it computes is stated by `RoundTrip`, `EncodeSafeBase64Is`, `EncodeSafeBase64CutsAtPadding`, `TokenAlphabet`, `TokenLength` and `TokenEmpty`. |
| SafeBase64.DecodeSafeBase64 | packages/lit-dev-content/src/pages/playground.ts:51-60 | No contract of its own. What it computes is stated by `RoundTrip`, `DecodeSafeBase64Is`, `DecodeToken`, `DecodeFailsOnForeignChar` and `DecodeIgnoresWhitespace`. |
| SafeBase64.ToUrlAlphabet | packages/lit-dev-content/src/pages/playground.ts:45 | No contract of its own; see `UrlAlphabetOfBase64` and `UrlAlphabetKeeps`. |
| SafeBase64.ToStdAlphabet | packages/lit-dev-content/src/pages/playground.ts:52 | No contract of its own; see `StdAlphabetOfToken`. |
| SafeBase64.StripPad | packages/lit-dev-content/src/pages/playground.ts:47-48 | No contract of its own; see `StripPadding` and `EncodeSafeBase64CutsAtPadding`. |
| SafeBase64.EscapeChar | packages/lit-dev-content/src/pages/playground.ts:56 | No contract of its own; see `EscapeCharOctet`. |
| SafeBase64.EscapeEach | packages/lit-dev-content/src/pages/playground.ts:54-57 | No contract of its own; see `EscapeEachForm` and `ReescapeDecode`. |
| SafeBase64.CollapseEscapesEncode | packages/lit-dev-content/src/pages/playground.ts:35-43 | Collapsing the `%XX` escapes of `encodeURIComponent(s)` gives exactly the UTF-8 octets of `s`, each as a character below U+0100. |
| SafeBase64.CollapseEncodeChar | packages/lit-dev-content/src/pages/playground.ts:40-43 | One character's output of `encodeURIComponent` collapses to its UTF-8 octets, whatever text follows. |
| SafeBase64.CollapseUpperEscapes | packages/lit-dev-content/src/pages/playground.ts:41-43 | Upper-case escapes of octets collapse to those octets as a binary string, and the rest is collapsed independently. |
| SafeBase64.CollapseAt | packages/lit-dev-content/src/pages/playground.ts:41-43 | A leading `%` with two upper-case hex digits becomes the character of that octet. |
| SafeBase64.UpperEscapesCons | packages/lit-dev-content/src/pages/playground.ts:40-41 | The escapes of a non-empty octet sequence begin with the three-character escape of the first octet. |
| SafeBase64.BinaryStringCons | packages/lit-dev-content/src/pages/playground.ts:42 | The binary string of the octets is the first octet's character followed by the binary string of the rest. |
| SafeBase64.EncodeSafeBase64Is | packages/lit-dev-content/src/pages/playground.ts:30-49 | The token is the unpadded base64 of the UTF-8 octets of the text, in the url-safe alphabet. |
| SafeBase64.EncodeSafeBase64CutsAtPadding | packages/lit-dev-content/src/pages/playground.ts:44-48 | `btoa` accepts the collapsed string. The token is its output with `+`/`/` swapped for `-`/`_` and cut before the first `=`, if there is one. |
| SafeBase64.TokenAlphabet | packages/lit-dev-content/src/pages/playground.ts:22-25 | Every token character is in `[A-Za-z0-9-_]`; no `+`, `/` or `=` appears. |
| SafeBase64.TokenLength | packages/lit-dev-content/src/pages/playground.ts:46-48 | A token's length is never 1 modulo 4, so the stripped padding can be inferred. |
| SafeBase64.TokenEmpty | packages/lit-dev-content/src/pages/playground.ts:30-49 | The token is empty if and only if the text is empty. |
| SafeBase64.StripPadding | packages/lit-dev-content/src/pages/playground.ts:45-48 | Base64 text followed by `=` padding, after the change of alphabet and the cut at the first `=`, is the text alone in the url-safe alphabet. |
| SafeBase64.UrlAlphabetOfBase64 | packages/lit-dev-content/src/pages/playground.ts:45 | The change of alphabet maps base64 text to token text and is undone by the reverse change. |
| SafeBase64.StdAlphabetOfToken | packages/lit-dev-content/src/pages/playground.ts:52 | The reverse change maps token text to base64 text and is undone by the forward change. |
| SafeBase64.OctetsOfBinaryString | packages/lit-dev-content/src/pages/playground.ts:42 | Reading the octets of the binary string of some octets gives those octets. |
| SafeBase64.EscapeCharOctet | packages/lit-dev-content/src/pages/playground.ts:56 | An octet's character becomes `%` and two lower-case hex digits, and that is an escape of the octet. |
| SafeBase64.EscapeEachForm | packages/lit-dev-content/src/pages/playground.ts:54-57 | Re-escaping a binary string writes exactly one escape per octet, in order. |
| SafeBase64.ReescapeDecode | packages/lit-dev-content/src/pages/playground.ts:54-58 | `decodeURIComponent` of the re-escaped binary string is strict UTF-8 decoding of its octets. |
| SafeBase64.DecodeSafeBase64Is | packages/lit-dev-content/src/pages/playground.ts:51-60 | Decoding fails if `atob` fails on the text in the standard alphabet. Otherwise it is strict UTF-8 decoding of the octets `atob` gives. |
| SafeBase64.DecodeToken | packages/lit-dev-content/src/pages/playground.ts:52-58 | On token text, decoding fails if and only if the length is 1 modulo 4 or the decoded octets are not well-formed UTF-8. |
| SafeBase64.DecodeFailsOnForeignChar | packages/lit-dev-content/src/pages/playground.ts:53 | A character in neither base64 alphabet, and neither whitespace nor `=`, makes decoding fail. |
| SafeBase64.DecodeIgnoresWhitespace | packages/lit-dev-content/src/pages/playground.ts:51-60 | A token with a TAB, LF, FF, CR or SPACE inside it decodes exactly as the token without it. |
| SafeBase64.IndexOf | packages/lit-dev-content/src/pages/playground.ts:47 | `indexOf` returns -1 exactly when the character is absent; otherwise the position of its first occurrence. |
| SafeBase64.IndexOfAt | packages/lit-dev-content/src/pages/playground.ts:47 | An occurrence with none before it is the position `indexOf` returns. |
| SafeBase64.ReplaceAll | packages/lit-dev-content/src/pages/playground.ts:45 | Global replacement of one character keeps the length and leaves no `x` behind when `y` differs from it. Text without `x` is unchanged. |
| SafeBase64.ReplaceAllUndo | packages/lit-dev-content/src/pages/playground.ts:45 | When `y` does not occur in the text, replacing `y` by `x` undoes replacing `x` by `y`. |
| SafeBase64.CollapseEscapes | packages/lit-dev-content/src/pages/playground.ts:41-43 | Collapsing never makes the text longer. |
| SafeBase64.EncodeEmptyText | packages/lit-dev-content/src/pages/playground.ts:30-60 | The empty text encodes to the empty token and decodes back from it. |
| SafeBase64.EncodeHello | packages/lit-dev-content/src/pages/playground.ts:44-48 | `hello` encodes to `aGVsbG8`, which is `aGVsbG8=` without its padding. |
| SafeBase64.HelloOctets | packages/lit-dev-content/src/pages/playground.ts:40-43 | `hello` is the octets 68 65 6C 6C 6F. |
| SafeBase64.HelloBase64 | packages/lit-dev-content/src/pages/playground.ts:44 | The unpadded base64 of 68 65 6C 6C 6F is `aGVsbG8`. |
| SafeBase64.UrlAlphabetKeeps | packages/lit-dev-content/src/pages/playground.ts:45 | Text without `+` or `/` is unchanged by the change to the url-safe alphabet. |
| SafeBase64.EncodeSmiley | packages/lit-dev-content/src/pages/playground.ts:35-39 | U+1F603 becomes the octets F0 9F 98 83, and its token is `8J-Ygw` (base64 `8J+Ygw==`). |
| SafeBase64.SmileyOctets | packages/lit-dev-content/src/pages/playground.ts:35-39 | U+1F603 is the octets F0 9F 98 83. |
| SafeBase64.SmileyBase64 | packages/lit-dev-content/src/pages/playground.ts:44 | The unpadded base64 of F0 9F 98 83 is `8J+Ygw`. |
| SafeBase64.SmileyUrlAlphabet | packages/lit-dev-content/src/pages/playground.ts:45 | `8J+Ygw` becomes `8J-Ygw` in the url-safe alphabet. |
| SafeBase64.DecodeNotBase64 | packages/lit-dev-content/src/pages/playground.ts:53 | `not-valid-base64!!` does not decode. |
| SafeBase64.DecodeNonCanonical | packages/lit-dev-content/src/pages/playground.ts:51-60 | `A` encodes to `QQ`, yet `QR` also decodes to `A`. |
| UriComponent.EncodeURIComponent | packages/lit-dev-content/src/pages/playground.ts:40 | The output contains only unreserved characters, `%` and upper-case hex digits. |
| UriComponent.EncodeChar | packages/lit-dev-content/src/pages/playground.ts:40 | No contract of its own; see `UriComponent.DecodeEscapedScalar` and `SafeBase64.CollapseEncodeChar`. |
| UriComponent.DecodeURIComponent | packages/lit-dev-content/src/pages/playground.ts:58 | No contract of its own; see `DecodeEncodeURIComponent` and `DecodeEscapedForm`. |
| UriComponent.UpperEscapes | packages/lit-dev-content/src/pages/playground.ts:40 | Every escape character is `%` or an upper-case hex digit. |
| UriComponent.UpperEscapesForm | packages/lit-dev-content/src/pages/playground.ts:40 | The upper-case escapes of octets are one escape per octet and nothing else. |
| UriComponent.DecodeEncodeURIComponent | packages/lit-dev-content/src/pages/playground.ts:40 | `decodeURIComponent` inverts `encodeURIComponent` on all text. |
| UriComponent.DecodeEscapedScalar | packages/lit-dev-content/src/pages/playground.ts:58 | The escapes of one encoded scalar are read off the front of any text as that scalar. |
| UriComponent.DecodeEscapedSequence | packages/lit-dev-content/src/pages/playground.ts:58 | Escapes carrying one complete, well-formed UTF-8 sequence decode to its scalar and take three characters per octet. |
| UriComponent.DecodeEscapesOf | packages/lit-dev-content/src/pages/playground.ts:58 | A lead escape, the number of further escapes it announces, and a well-formed sequence decode together. |
| UriComponent.DecodeEscapedForm | packages/lit-dev-content/src/pages/playground.ts:58 | `decodeURIComponent` of one escape per octet, of either case, is strict UTF-8 decoding of the octets, failing when they are ill-formed. |
| UriComponent.ParseEscapesForm | packages/lit-dev-content/src/pages/playground.ts:58 | The first k escapes parse to the first k octets. |
| UriComponent.ParseEscapeAt | packages/lit-dev-content/src/pages/playground.ts:58 | An escape at the front parses to its octet. |
| UriComponent.ParseEscape | packages/lit-dev-content/src/pages/playground.ts:58 | A parsed escape takes at least three characters. |
| UriComponent.ParseEscapes | packages/lit-dev-content/src/pages/playground.ts:58 | A successful parse of `count` escapes gives `count` octets, and it succeeds only when the input holds at least `3 * count` characters. |
| UriComponent.DecodeEscapes | packages/lit-dev-content/src/pages/playground.ts:58 | A decoded escape sequence takes at least three characters and no more than there are. |
| UriComponent.StartsWithEscapesAppend | packages/lit-dev-content/src/pages/playground.ts:58 | Text that follows escapes does not change that the escapes are there. |
| UriComponent.StartsWithEscapesDrop | packages/lit-dev-content/src/pages/playground.ts:58 | Dropping the escapes of k octets leaves the escapes of the remaining octets. |
| Utf8.EncodeScalar | packages/lit-dev-content/src/pages/playground.ts:40 | One to four octets; the first announces the length; the rest are continuation octets; ASCII is its own code. |
| Utf8.Decode | packages/lit-dev-content/src/pages/playground.ts:58 | No contract of its own; see `DecodeEncode`, `EncodeDecode` and `DecodeIff`. |
| Utf8.DecodeWithReplacement | packages/lit-dev-content/src/pages/playground.ts:98 | No contract of its own; see `DecodeWithReplacementEncode`, `DecodeWithReplacementScalar` and `DecodeWithReplacementAscii`. |
| Utf8.Pending | packages/lit-dev-content/src/pages/playground.ts:98 | No contract of its own; see `PendingStep`, `PendingLast`, `PendingTwo` and `PendingThree`. |
| Utf8.Encode | packages/lit-dev-content/src/pages/playground.ts:40 | The encoding has between one and four octets per character. |
| Utf8.SequenceLength | packages/lit-dev-content/src/pages/playground.ts:58 | A lead octet announces 1 exactly when it is ASCII, and 0 exactly when it is a continuation octet or 0xF8 and above. |
| Utf8.AssembleEncodeScalar | packages/lit-dev-content/src/pages/playground.ts:40 | The payload bits of a scalar's octets, put back together, are the scalar. |
| Utf8.AssembleTwo | packages/lit-dev-content/src/pages/playground.ts:40 | The payload bits of a two-octet encoding make up the code point. |
| Utf8.AssembleThree | packages/lit-dev-content/src/pages/playground.ts:40 | The payload bits of a three-octet encoding make up the code point. |
| Utf8.AssembleFour | packages/lit-dev-content/src/pages/playground.ts:40 | The payload bits of a four-octet encoding make up the code point. |
| Utf8.DecodeScalar | packages/lit-dev-content/src/pages/playground.ts:58 | A decoded scalar encodes to the octets it was read from. |
| Utf8.DecodeScalarIff | packages/lit-dev-content/src/pages/playground.ts:58 | One sequence decodes to c if and only if it is c's encoding. |
| Utf8.DecodeEncode | packages/lit-dev-content/src/pages/playground.ts:58 | Strict decoding recovers every encoded text. |
| Utf8.EncodeDecode | packages/lit-dev-content/src/pages/playground.ts:58 | Strict decoding succeeds only on encodings: re-encoding its result gives the input back. |
| Utf8.EncodeDecodeStep | packages/lit-dev-content/src/pages/playground.ts:58 | The encodings of a decoded first scalar and of the decoded rest make up the octets again. |
| Utf8.DecodeIff | packages/lit-dev-content/src/pages/playground.ts:58 | Octets decode to s if and only if they are the encoding of s. |
| Utf8.DecodeCons | packages/lit-dev-content/src/pages/playground.ts:58 | A successful decoding is the first scalar followed by the successful decoding of the rest. |
| Utf8.EncodeCons | packages/lit-dev-content/src/pages/playground.ts:40 | Encoding a text is encoding its first character followed by encoding the rest. |
| Utf8.EncodeConcat | packages/lit-dev-content/src/pages/playground.ts:40 | Encoding distributes over concatenation. |
| Utf8.EncodeAscii | packages/lit-dev-content/src/pages/playground.ts:98 | ASCII text encodes as one octet per character, equal to its code. |
| Utf8.ContinuationPayload | packages/lit-dev-content/src/pages/playground.ts:40 | A continuation octet carries its six payload bits unchanged. |
| Utf8.PendingStep | packages/lit-dev-content/src/pages/playground.ts:98 | In the WHATWG decoder, one in-bounds continuation octet moves a pending sequence to its next state. |
| Utf8.PendingLast | packages/lit-dev-content/src/pages/playground.ts:98 | The last continuation octet completes a scalar value. |
| Utf8.PendingTwo | packages/lit-dev-content/src/pages/playground.ts:98 | Two continuation octets, the first within bounds, complete a scalar that is waiting for two. |
| Utf8.PendingThree | packages/lit-dev-content/src/pages/playground.ts:98 | Three continuation octets, the first within bounds, complete a scalar that is waiting for three. |
| Utf8.LeadThree | packages/lit-dev-content/src/pages/playground.ts:98 | A lead octet E0 to EF makes the WHATWG decoder wait for two continuation octets, with the bounds of the overlong and surrogate checks. |
| Utf8.LeadFour | packages/lit-dev-content/src/pages/playground.ts:98 | A lead octet F0 to F4 makes the WHATWG decoder wait for three continuation octets, with the bounds of the overlong and U+10FFFF checks. |
| Utf8.DecodeWithReplacementAscii | packages/lit-dev-content/src/pages/playground.ts:98 | The WHATWG decoder reads ASCII octets as the characters with those codes. |
| Utf8.DecodeWithReplacementTwo | packages/lit-dev-content/src/pages/playground.ts:98 | A two-octet sequence of the encoding table gives its scalar. |
| Utf8.DecodeWithReplacementThree | packages/lit-dev-content/src/pages/playground.ts:98 | A three-octet sequence outside the overlong and surrogate ranges gives its scalar. |
| Utf8.DecodeWithReplacementFour | packages/lit-dev-content/src/pages/playground.ts:98 | A four-octet sequence up to U+10FFFF, and not overlong, gives its scalar. |
| Utf8.DecodeWithReplacementScalar | packages/lit-dev-content/src/pages/playground.ts:98 | The WHATWG decoder reads one encoded scalar off the front of any octets. |
| Utf8.ScalarOfThree | packages/lit-dev-content/src/pages/playground.ts:98 | The WHATWG decoder reads a three-octet scalar off the front of any octets. |
| Utf8.ScalarOfFour | packages/lit-dev-content/src/pages/playground.ts:98 | The WHATWG decoder reads a four-octet scalar off the front of any octets. |
| Utf8.DecodeWithReplacementEncode | packages/lit-dev-content/src/pages/playground.ts:98 | The WHATWG decoder gives every text back from its UTF-8, with no replacement character. |
| Base64.SextetValue | packages/lit-dev-content/src/pages/playground.ts:53 | A base64 character's value is below 64. |
| Base64.SextetChar | packages/lit-dev-content/src/pages/playground.ts:44 | The character for a six-bit value is a base64 character with that value. |
| Base64.BinaryString | packages/lit-dev-content/src/pages/playground.ts:42 | One character per octet, none above U+00FF. That each character's code is its octet is the inverse property `SafeBase64.OctetsOfBinaryString` and `Base64.Octets`. |
| Base64.Encode | packages/lit-dev-content/src/pages/playground.ts:44 | No contract of its own; see `EncodeIsUnpaddedThenPadding`, `AtobEncode` and `AtobBtoa`. |
| Base64.DecodeText | packages/lit-dev-content/src/pages/playground.ts:53 | No contract of its own; see `DecodeEncodeUnpadded` and `AtobBase64Text`. |
| Base64.Octets | packages/lit-dev-content/src/pages/playground.ts:56 | The octets of a binary string give that string back. |
| Base64.BinaryStringConcat | packages/lit-dev-content/src/pages/playground.ts:42 | Binary strings distribute over concatenation. |
| Base64.QuantumSextet | packages/lit-dev-content/src/pages/playground.ts:44 | Each six-bit group of a quantum is below 64. |
| Base64.EncodeQuantum | packages/lit-dev-content/src/pages/playground.ts:44 | A quantum of n octets gives n + 1 base64 characters. |
| Base64.Padding | packages/lit-dev-content/src/pages/playground.ts:44 | The padding is all `=`. |
| Base64.EncodeUnpadded | packages/lit-dev-content/src/pages/playground.ts:44-48 | The unpadded encoding is base64 text. |
| Base64.UnpaddedLength | packages/lit-dev-content/src/pages/playground.ts:46-48 | The unpadded length is never 1 modulo 4, and the padding completes a multiple of four. |
| Base64.EncodeIsUnpaddedThenPadding | packages/lit-dev-content/src/pages/playground.ts:44-48 | `btoa`'s output is the unpadded encoding followed by the padding. |
| Base64.Btoa | packages/lit-dev-content/src/pages/playground.ts:44 | `btoa` succeeds exactly on binary strings. |
| Base64.RemoveAsciiWhitespace | packages/lit-dev-content/src/pages/playground.ts:53 | The result has no ASCII whitespace. Text without whitespace is unchanged. |
| Base64.StripFinalPadding | packages/lit-dev-content/src/pages/playground.ts:53 | The result is a prefix of the input, and only `=` is removed. |
| Base64.DecodeQuantum | packages/lit-dev-content/src/pages/playground.ts:53 | Two to four characters give one octet fewer than there are characters. |
| Base64.Atob | packages/lit-dev-content/src/pages/playground.ts:53 | A successful `atob` gives a binary string. |
| Base64.DecodeEncodeQuantum | packages/lit-dev-content/src/pages/playground.ts:44-53 | Decoding the characters of a quantum gives its octets back. |
| Base64.DecodeEncodeUnpadded | packages/lit-dev-content/src/pages/playground.ts:44-53 | The unpadded encoding has a decodable length and decodes to the octets. |
| Base64.CleanPaddedText | packages/lit-dev-content/src/pages/playground.ts:53 | Whitespace removal and the padding step leave base64 text plus valid padding as the text alone. |
| Base64.AtobBase64Text | packages/lit-dev-content/src/pages/playground.ts:53 | `atob` decodes every group of base64 text whose length is not 1 modulo 4. |
| Base64.AtobEncodeUnpadded | packages/lit-dev-content/src/pages/playground.ts:44-53 | `atob` accepts base64 without padding and returns the octets. |
| Base64.AtobEncode | packages/lit-dev-content/src/pages/playground.ts:44-53 | `atob` accepts padded base64 and returns the octets. |
| Base64.AtobBtoa | packages/lit-dev-content/src/pages/playground.ts:44-53 | `atob` inverts `btoa`. |
| Base64.AtobFailsOnLength | packages/lit-dev-content/src/pages/playground.ts:53 | On base64 characters alone, `atob` fails if and only if the length is 1 modulo 4. |
| Base64.RemoveAsciiWhitespaceKeeps | packages/lit-dev-content/src/pages/playground.ts:53 | Every non-whitespace character survives whitespace removal. |
| Base64.RemoveAsciiWhitespaceConcat | packages/lit-dev-content/src/pages/playground.ts:53 | Whitespace removal of a joined text is the removal of each part, joined; with `RemoveAsciiWhitespaceChar` this makes the result the non-whitespace characters in order. |
| Base64.RemoveAsciiWhitespaceChar | packages/lit-dev-content/src/pages/playground.ts:53 | A whitespace character is removed, and any other character is kept. |
| Base64.AtobIgnoresWhitespace | packages/lit-dev-content/src/pages/playground.ts:53 | A TAB, LF, FF, CR or SPACE anywhere in the input does not change what `atob` returns. |
| Base64.AtobFailsOnForeignChar | packages/lit-dev-content/src/pages/playground.ts:53 | A character that is not base64, whitespace or `=` makes `atob` fail. |
| Hex.HexValue | packages/lit-dev-content/src/pages/playground.ts:42 | A hex digit's value is below 16. |
| Hex.UpperHexDigit | packages/lit-dev-content/src/pages/playground.ts:40-41 | The upper-case digit of a value matches `[0-9A-F]` and reads back as the value. |
| Hex.LowerHexDigit | packages/lit-dev-content/src/pages/playground.ts:56 | The lower-case digit of a value is a hex digit outside `A-F` and reads back as the value. |
| Hex.PadStart | packages/lit-dev-content/src/pages/playground.ts:56 | The result is at least the target length, ends with the input, and is filler before it. |
| Hex.TwoDigits | packages/lit-dev-content/src/pages/playground.ts:56 | `b.toString(16).padStart(2, '0')` is the two lower-case hex digits of every octet. |
| Hex.ToHexString | packages/lit-dev-content/src/pages/playground.ts:56 | No contract of its own; see `TwoDigits`. |
| FormUrlencoded.IndexOfByte | packages/lit-dev-content/src/pages/playground.ts:98 | The position of the first occurrence, or the length when there is none. |
| FormUrlencoded.Split | packages/lit-dev-content/src/pages/playground.ts:98 | At least one piece, and no piece contains the separator. |
| FormUrlencoded.JoinSplit | packages/lit-dev-content/src/pages/playground.ts:98 | Joining the pieces on the separator gives the input back. |
| FormUrlencoded.SplitWithout | packages/lit-dev-content/src/pages/playground.ts:98 | Input without the separator is a single piece. |
| FormUrlencoded.ReplacePlus | packages/lit-dev-content/src/pages/playground.ts:98 | Same length, and no `+` is left. Input without `+` is unchanged. A space appears exactly when the input had a space or a `+`. |
| FormUrlencoded.PercentDecode | packages/lit-dev-content/src/pages/playground.ts:98 | Never longer than the input, and the identity on input without `%`. |
| FormUrlencoded.ParsePieces | packages/lit-dev-content/src/pages/playground.ts:98 | At most one pair per piece. |
| FormUrlencoded.Get | packages/lit-dev-content/src/pages/playground.ts:101 | `get` finds a value if and only if some pair has the name, and the value is that of the first such pair. |
| FormUrlencoded.URLSearchParams | packages/lit-dev-content/src/pages/playground.ts:98 | No contract of its own; see `ParsePlainPair` and `Playground.HashSurvivesParsing`. |
| FormUrlencoded.Parse | packages/lit-dev-content/src/pages/playground.ts:98 | No contract of its own; see `ParsePieces`, `ParseOnePiece` and `JoinSplit`. |
| FormUrlencoded.ParsePair | packages/lit-dev-content/src/pages/playground.ts:98 | No contract of its own; see `ParsePairAt`. |
| FormUrlencoded.DecodeField | packages/lit-dev-content/src/pages/playground.ts:98 | No contract of its own; see `PlainField` and `PlusBecomesSpace`. |
| FormUrlencoded.PlainField | packages/lit-dev-content/src/pages/playground.ts:98 | Plain ASCII text has no `&` or `=` octet and decodes to itself. |
| FormUrlencoded.IndexOfByteAt | packages/lit-dev-content/src/pages/playground.ts:98 | An occurrence with none before it is the one found. |
| FormUrlencoded.ParseOnePiece | packages/lit-dev-content/src/pages/playground.ts:98 | Non-empty input without `&` is exactly one pair. |
| FormUrlencoded.ParsePairAt | packages/lit-dev-content/src/pages/playground.ts:98 | The name is what comes before the first `=`; the value is everything after it. |
| FormUrlencoded.ParsePlainPair | packages/lit-dev-content/src/pages/playground.ts:98 | A query `name=value` of plain text parses to exactly that pair. |
| FormUrlencoded.PlusBecomesSpace | packages/lit-dev-content/src/pages/playground.ts:22-25 | A `+` in a value reaches the page as a space, which is why the token avoids `+`. |
| Playground.HashSurvivesParsing | packages/lit-dev-content/src/pages/playground.ts:76-101 | The fragment `#project=<token>` gives back the token as `project`, and no `sample`. |
| Playground.TokenIsPlain | packages/lit-dev-content/src/pages/playground.ts:22-25 | Token characters are plain ASCII: no `&`, `=`, `+` or `%`. |
| Playground.DecideCases | packages/lit-dev-content/src/pages/playground.ts:100-127 | The table of outcomes. A missing or empty `project`, a failed decode, failed JSON parsing or a falsy value load the sample. An array of records loads the files under the base config. Any other truthy value throws. |
| Playground.Decide | packages/lit-dev-content/src/pages/playground.ts:96-133 | No contract of its own. What it computes is stated by `DecideCases`, `DecideIsSafe`, `SampleSelection`, `EmptyHash` and `SampleFromHash`. `PlaygroundPage.SyncStateFromUrlHash` is proved against it. |
| Playground.UrlFiles | packages/lit-dev-content/src/pages/playground.ts:100-113 | No contract of its own; see `DecideCases`. |
| Playground.OutcomeOf | packages/lit-dev-content/src/pages/playground.ts:117-133 | No contract of its own; see `DecideCases` and `DecideIsSafe`. |
| Playground.HashQuery | packages/lit-dev-content/src/pages/playground.ts:98 | No contract of its own; see `HashSurvivesParsing`. |
| Playground.SampleSrc | packages/lit-dev-content/src/pages/playground.ts:133 | No contract of its own; see `SampleSrcIsSafe`. |
| Playground.IsSampleName | packages/lit-dev-content/src/pages/playground.ts:130 | No contract of its own; see `ChooseSample`, `DefaultSampleIsSampleName` and `SampleSrcIsSafe`. |
| Playground.SharedFiles | packages/lit-dev-content/src/pages/playground.ts:69-74 | No contract of its own; see `ShareThenSync` and `PlaygroundPage.Share`. |
| Playground.ShareHash | packages/lit-dev-content/src/pages/playground.ts:75-76 | No contract of its own; see `ShareThenSync` and `PlaygroundPage.Share`. |
| Playground.DecideIsSafe | packages/lit-dev-content/src/pages/playground.ts:117-133 | A sample load points under `/samples/` with no `..`. A file load extends `/samples/base.json` and names each file once. |
| Playground.SampleSelection | packages/lit-dev-content/src/pages/playground.ts:128-133 | When no files load, the URL's `sample` is used exactly when it is present and matches the whitelist. When `get('sample')` returns null or the name fails the whitelist, `examples/hello-world-typescript` is used. |
| Playground.SampleFromHash | packages/lit-dev-content/src/pages/playground.ts:96-133 | The fragment `#sample=abc` loads `/samples/abc/project.json`, whatever the JSON parser. |
| Playground.EmptyHash | packages/lit-dev-content/src/pages/playground.ts:96-133 | An empty fragment loads `/samples/examples/hello-world-typescript/project.json`. |
| Playground.ChooseSample | packages/lit-dev-content/src/pages/playground.ts:128-132 | The chosen sample always matches `^[a-zA-Z0-9_\-\/]+$`. |
| Playground.DefaultSampleIsSampleName | packages/lit-dev-content/src/pages/playground.ts:128 | The default sample passes the whitelist. |
| Playground.SampleSrcIsSafe | packages/lit-dev-content/src/pages/playground.ts:133 | A whitelisted sample gives a source under `/samples/` that ends in `/project.json`, with no other `.`. |
| Playground.IndexOfName | packages/lit-dev-content/src/pages/playground.ts:123-125 | The position of the first entry with the name, or the length when there is none. |
| Playground.Put | packages/lit-dev-content/src/pages/playground.ts:123-125 | Setting a property keeps the names distinct. |
| Playground.FromEntries | packages/lit-dev-content/src/pages/playground.ts:123-125 | The resulting object names each property once. |
| Playground.FromEntriesLastWins | packages/lit-dev-content/src/pages/playground.ts:123-125 | Each property holds the content of the last entry with its name, and no other name appears. |
| Playground.FromEntriesDistinct | packages/lit-dev-content/src/pages/playground.ts:123-125 | Entries with distinct names come out unchanged and in order. |
| Playground.IndexOfNameDistinct | packages/lit-dev-content/src/pages/playground.ts:123-125 | With distinct names, each entry is found at its own position. |
| Playground.ShareThenSync | packages/lit-dev-content/src/pages/playground.ts:67-126 | If the JSON serialiser's output is non-empty and parses back to the same records, the shared fragment loads the same files under the base config. |
| Playground.PlaygroundPage.constructor | packages/lit-dev-content/src/pages/playground.ts:96-97 | A page opened at a fragment, with nothing loaded yet. |
| Playground.PlaygroundPage.Share | packages/lit-dev-content/src/pages/playground.ts:67-76 | The fragment becomes `#project=` plus the token of the serialised files; nothing else changes. |
| Playground.PlaygroundPage.SyncStateFromUrlHash | packages/lit-dev-content/src/pages/playground.ts:96-133 | The new `config` or `projectSrc` is the one `Decide` gives for the fragment, and the other field is unchanged. When the handler throws, nothing changes. |
| Playground.ShareAndReload | packages/lit-dev-content/src/pages/playground.ts:67-126 | Sharing and then syncing leaves the fragment at `ShareHash` of the old config. The page is configured with the files it shared, under the base config, and `projectSrc` is unchanged. |

## Left out

- DOM and browser glue are not modelled: `querySelector`, the click and `hashchange` listeners, `classList` toggling, `customElements.whenDefined`, `requestAnimationFrame` and `scrollIntoView` (lines 62-67, 81-82, 115, 135-148). They have side effects only.
- The clipboard write and the snackbar (lines 77-78) are asynchronous browser I/O.
- The download button (lines 81-94) hands the files to the `tarts` library and a `Blob` URL, and that code is not part of this model. Its one piece of logic is `content ?? ''`.
- `JSON.stringify` and `JSON.parse` are opaque parameters. The JSON grammar is not modelled. The `console.error` logging on failure (lines 108, 111) is not modelled.
- A parsed array whose elements are not `{name, content}` records with string fields counts as "other truthy". The model does not follow what `map` and `Object.fromEntries` would make of such elements.
- `project.config` and `project.projectSrc` belong to a third-party element. Only the values assigned to them are modelled, not what the element does with them.
- Object key order: `Object.fromEntries` and `Object.entries` put integer-like keys first, in numeric order. The model keeps insertion order for every name. A file named `__proto__` is treated like any other name.
- `Playground.PlaygroundPage.Share` omits the clipboard write that follows it. The setter of `location.hash` is a plain assignment: URL normalisation of the fragment and the `hashchange` event it fires are not modelled.
- `Playground.ShareAndReload` calls the sync directly, standing in for the `hashchange` event.
- A file's `content` is always a string. An undefined `content` (which `JSON.stringify` would omit) is not modelled.
- Lone UTF-16 surrogates are not modelled. Text is a sequence of scalar values, so the throw of `encodeURIComponent` on an unpaired surrogate is outside the model.
- The awaits of the asynchronous handlers are not modelled, and neither is interleaving between two handler runs: each run is one atomic method call.
