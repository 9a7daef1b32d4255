/** Hexadecimal text as the move command uses it: Python's `"%04x" % p`
    formatting and `int(s, 16)` parsing, restricted to the strings of hex
    digits that formatting produces. */
module Hex {

  predicate IsHexDigit(c: char) {
    ('0' <= c <= '9') || ('a' <= c <= 'f') || ('A' <= c <= 'F')
  }

  predicate IsHexString(s: string) {
    forall i :: 0 <= i < |s| ==> IsHexDigit(s[i])
  }

  /** The value of one hex digit, upper or lower case, as `int(c, 16)` reads it. */
  function DigitValue(c: char): (v: nat)
    requires IsHexDigit(c)
    ensures v < 16
  {
    if '0' <= c <= '9' then c as int - '0' as int
    else if 'a' <= c <= 'f' then c as int - 'a' as int + 10
    else c as int - 'A' as int + 10
  }

  /** The lower-case digit that `%x` prints for `d`. */
  function DigitChar(d: nat): (c: char)
    requires d < 16
    ensures IsHexDigit(c) && DigitValue(c) == d
    ensures !('A' <= c <= 'F')
  {
    if d < 10 then ('0' as int + d) as char else ('a' as int + d - 10) as char
  }

  /** `16` to the power `n`. */
  function Pow16(n: nat): nat {
    if n == 0 then 1 else 16 * Pow16(n - 1)
  }

  /** `int(s, 16)` on a non-empty string of hex digits, most significant
      first: `n` digits hold a number below `16^n`. */
  function ParseHex(s: string): (v: nat)
    requires |s| > 0 && IsHexString(s)
    ensures v < Pow16(|s|)
    decreases |s|
  {
    if |s| == 1 then DigitValue(s[0])
    else 16 * ParseHex(s[..|s| - 1]) + DigitValue(s[|s| - 1])
  }

  /** `"%04x" % p` for `p` that fits in four hex digits: zero-padded, lower
      case, most significant nibble first (the nibbles of the high byte,
      then those of the low byte). */
  function Format04x(p: nat): (s: string)
    requires p < 0x1_0000
    ensures |s| == 4 && IsHexString(s)
  {
    var high, low := p / 256, p % 256;
    [DigitChar(high / 16), DigitChar(high % 16), DigitChar(low / 16), DigitChar(low % 16)]
  }

  /** Two-digit strings parse as `16 * first + second`. */
  lemma ParseTwoDigits(s: string)
    requires |s| == 2 && IsHexString(s)
    ensures ParseHex(s) == 16 * DigitValue(s[0]) + DigitValue(s[1])
  {
    assert s[..1] == [s[0]];
  }

  /** Slicing the formatted target: the last two digits are the low byte,
      the first two the high byte. This is what the move command relies on. */
  lemma {:induction false} SlicesAreBytes(p: nat)
    requires p < 0x1_0000
    ensures ParseHex(Format04x(p)[2..]) == p % 256
    ensures ParseHex(Format04x(p)[..2]) == p / 256
  {
    var s, high, low := Format04x(p), p / 256, p % 256;
    assert s[2..] == [DigitChar(low / 16), DigitChar(low % 16)];
    assert s[..2] == [DigitChar(high / 16), DigitChar(high % 16)];
    ParseTwoDigits(s[2..]);
    ParseTwoDigits(s[..2]);
  }

  /** Parsing the whole formatted string gives the number back. */
  lemma {:induction false} FormatParseRoundTrip(p: nat)
    requires p < 0x1_0000
    ensures ParseHex(Format04x(p)) == p
  {
    var s := Format04x(p);
    SlicesAreBytes(p);
    assert s[..3][..2] == s[..2];
    assert ParseHex(s[..3]) == 16 * ParseHex(s[..2]) + DigitValue(s[2]);
    assert ParseHex(s) == 16 * ParseHex(s[..3]) + DigitValue(s[3]);
    assert s[2..] == [s[2], s[3]];
    ParseTwoDigits(s[2..]);
  }
}
