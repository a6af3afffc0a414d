/**
 * Hexadecimal digits as JavaScript writes and reads them: `parseInt(_, 16)`,
 * `Number.prototype.toString(16)` and `String.prototype.padStart`.
 */
module Hex {

  /** The digits `[0-9A-F]`, the class of the regular expression in playground.ts. */
  predicate IsUpperHexDigit(c: char) {
    '0' <= c <= '9' || 'A' <= c <= 'F'
  }

  /** Any ASCII hex digit, of either case. */
  predicate IsHexDigit(c: char) {
    IsUpperHexDigit(c) || 'a' <= c <= 'f'
  }

  /** The value of a hex digit. */
  function HexValue(c: char): (v: nat)
    requires IsHexDigit(c)
    ensures v < 16
  {
    if '0' <= c <= '9' then c as int - '0' as int
    else if 'A' <= c <= 'F' then c as int - 'A' as int + 10
    else c as int - 'a' as int + 10
  }

  /** The upper-case digit for a value below 16. */
  function UpperHexDigit(v: nat): (c: char)
    requires v < 16
    ensures IsUpperHexDigit(c) && HexValue(c) == v
  {
    if v < 10 then ('0' as int + v) as char else ('A' as int + v - 10) as char
  }

  /** The lower-case digit for a value below 16. */
  function LowerHexDigit(v: nat): (c: char)
    requires v < 16
    ensures IsHexDigit(c) && !('A' <= c <= 'F') && HexValue(c) == v
  {
    if v < 10 then ('0' as int + v) as char else ('a' as int + v - 10) as char
  }

  /** `n.toString(16)` for a non-negative integer: lower-case digits, no leading zeros. */
  function ToHexString(n: nat): string
  {
    if n < 16 then [LowerHexDigit(n)] else ToHexString(n / 16) + [LowerHexDigit(n % 16)]
  }

  /** `s.padStart(len, fill)` for a one-character filler. */
  function PadStart(s: string, len: nat, fill: char): (r: string)
    ensures |r| == if |s| < len then len else |s|
    ensures r[|r| - |s|..] == s
    ensures forall i :: 0 <= i < |r| - |s| ==> r[i] == fill
  {
    if |s| < len then seq(len - |s|, _ => fill) + s else s
  }

  /** `b.toString(16).padStart(2, '0')` is two lower-case digits for every octet. */
  lemma TwoDigits(b: nat)
    requires b < 0x100
    ensures PadStart(ToHexString(b), 2, '0') == [LowerHexDigit(b / 16), LowerHexDigit(b % 16)]
  {
    if b >= 16 {
      assert ToHexString(b / 16) == [LowerHexDigit(b / 16)];
    }
  }
}
