/** Lower-case hexadecimal formatting of an unsigned integer, as Go's
    `fmt.Sprintf("%02x", v)` writes it: the shortest hex form of v, padded
    on the left with '0' to at least two digits. `ParseHex` is its inverse. */
module Hex {

  predicate IsHexDigit(c: char)
  {
    '0' <= c <= '9' || 'a' <= c <= 'f'
  }

  function DigitChar(d: nat): (c: char)
    requires d < 16
    ensures IsHexDigit(c)
  {
    if d < 10 then ('0' as int + d) as char else ('a' as int + d - 10) as char
  }

  function DigitValue(c: char): (d: nat)
    requires IsHexDigit(c)
    ensures d < 16 && DigitChar(d) == c
  {
    if c <= '9' then c as int - '0' as int else c as int - 'a' as int + 10
  }

  /** The shortest hex form of v ("0" for zero). */
  function HexDigits(v: nat): (s: string)
    ensures |s| >= 1
    ensures forall i :: 0 <= i < |s| ==> IsHexDigit(s[i])
    ensures v > 0 ==> s[0] != '0'
  {
    if v < 16 then [DigitChar(v)] else HexDigits(v / 16) + [DigitChar(v % 16)]
  }

  /** `%02x`: at least two lower-case hex digits, no padding beyond two
      digits, and the digits read back as the value printed. */
  function FormatHex02(v: nat): (s: string)
    ensures |s| >= 2
    ensures forall i :: 0 <= i < |s| ==> IsHexDigit(s[i])
    ensures |s| > 2 ==> s[0] != '0'
    ensures ParseHex(s) == v
  {
    if v < 16 then
      var s := ['0', DigitChar(v)];
      assert s[..1] == ['0'];
      assert ParseHex(s[..1]) == 0;
      s
    else
      ParseHexDigits(v);
      assert HexDigits(v) == HexDigits(v / 16) + [DigitChar(v % 16)];
      HexDigits(v)
  }

  /** The value of a string of hex digits. */
  function ParseHex(s: string): nat
    requires forall i :: 0 <= i < |s| ==> IsHexDigit(s[i])
  {
    if s == [] then 0 else 16 * ParseHex(s[..|s| - 1]) + DigitValue(s[|s| - 1])
  }

  lemma {:induction false} ParseHexDigits(v: nat)
    ensures ParseHex(HexDigits(v)) == v
  {
    if v >= 16 {
      ParseHexDigits(v / 16);
      var s := HexDigits(v);
      assert s[..|s| - 1] == HexDigits(v / 16);
    }
  }
}
