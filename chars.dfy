/** Character classes and numerals used by the translator.

    Python's `str.isspace`, `str.isalpha`, `str.isalnum` and `str.isdigit`
    are Unicode predicates; this model restricts them to their ASCII part
    (every ASCII character for which Python answers True, and no other). */
module Chars {

  /** `ch.isspace()` on ASCII: space, tab, line feed, vertical tab, form
      feed, carriage return and the four information separators 0x1C-0x1F. */
  predicate IsSpace(c: char) {
    c == ' ' || (9 <= c as int <= 13) || (28 <= c as int <= 31)
  }

  /** `ch.isdigit()` on ASCII. */
  predicate IsDigit(c: char) {
    '0' <= c <= '9'
  }

  /** `ch.isalpha()` on ASCII. */
  predicate IsAlpha(c: char) {
    ('a' <= c <= 'z') || ('A' <= c <= 'Z')
  }

  /** `ch.isalnum()` on ASCII. */
  predicate IsAlnum(c: char) {
    IsAlpha(c) || IsDigit(c)
  }

  /** The test of the hex-literal loop: `ch.isdigit() or ch.lower() in "abcdef"`. */
  predicate IsHexDigit(c: char) {
    IsDigit(c) || ('a' <= c <= 'f') || ('A' <= c <= 'F')
  }

  /** `ch.lower() == "x"`. */
  predicate IsHexMarker(c: char) {
    c == 'x' || c == 'X'
  }

  /** The value of one digit, case-insensitive; 0 for a non-digit. */
  function DigitValue(c: char): (d: nat)
    ensures IsDigit(c) ==> d == c as int - '0' as int && d < 10
    ensures IsHexDigit(c) ==> d < 16
  {
    if IsDigit(c) then c as int - '0' as int
    else if 'a' <= c <= 'f' then c as int - 'a' as int + 10
    else if 'A' <= c <= 'F' then c as int - 'A' as int + 10
    else 0
  }

  /** The digit character for a value below 16 (lower case, as Python's `hex`). */
  function DigitChar(d: nat): (c: char)
    requires d < 16
    ensures IsHexDigit(c) && DigitValue(c) == d
    ensures d < 10 ==> IsDigit(c)
  {
    if d < 10 then ('0' as int + d) as char else ('a' as int + d - 10) as char
  }

  predicate AllDigitsIn(s: string, base: nat)
  {
    forall k :: 0 <= k < |s| ==> (if base == 16 then IsHexDigit(s[k]) else IsDigit(s[k]))
  }

  /** The positional value of a digit string, most significant digit first:
      `int(s, 16)` for base 16, `int(s)` for base 10. */
  function ValueInBase(s: string, base: nat): nat
    decreases |s|
  {
    if |s| == 0 then 0 else base * ValueInBase(s[..|s| - 1], base) + DigitValue(s[|s| - 1])
  }

  /** `int(s, 16)` on a string of hex digits. */
  function HexValue(s: string): nat
  {
    ValueInBase(s, 16)
  }

  function LowerHex(c: char): char
  {
    if 'A' <= c <= 'F' then (c as int - 'A' as int + 'a' as int) as char else c
  }

  function LowerAll(s: string): (r: string)
    ensures |r| == |s|
    ensures forall k :: 0 <= k < |s| ==> r[k] == LowerHex(s[k])
  {
    seq(|s|, k requires 0 <= k < |s| => LowerHex(s[k]))
  }

  /** Hex digits are case-insensitive: lower-casing a literal keeps its value. */
  lemma {:induction false} HexValueIgnoresCase(s: string)
    ensures HexValue(LowerAll(s)) == HexValue(s)
    decreases |s|
  {
    if |s| > 0 {
      var p := s[..|s| - 1];
      assert LowerAll(s)[..|s| - 1] == LowerAll(p);
      HexValueIgnoresCase(p);
    }
  }

  /** Lower-case hex rendering of a natural number (used to rebuild tokens). */
  function HexString(n: nat): (s: string)
    ensures |s| > 0 && AllDigitsIn(s, 16)
    decreases n
  {
    if n < 16 then [DigitChar(n)] else HexString(n / 16) + [DigitChar(n % 16)]
  }

  lemma {:induction false} HexStringValue(n: nat)
    ensures HexValue(HexString(n)) == n
    decreases n
  {
    if n >= 16 {
      var s := HexString(n);
      assert s[..|s| - 1] == HexString(n / 16);
      HexStringValue(n / 16);
      assert ValueInBase(s, 16) == 16 * ValueInBase(HexString(n / 16), 16) + n % 16;
    } else {
      assert ValueInBase(HexString(n), 16) == 16 * ValueInBase([], 16) + n;
    }
  }

  /** `str(n)`: decimal rendering without leading zeros. */
  function DecimalString(n: nat): (s: string)
    ensures |s| > 0 && AllDigitsIn(s, 10)
    ensures s[0] == '0' ==> n == 0 && |s| == 1
    decreases n
  {
    if n < 10 then [DigitChar(n)] else DecimalString(n / 10) + [DigitChar(n % 10)]
  }

  /** The decimal text printed for a number reads back as that number. */
  lemma {:induction false} DecimalStringValue(n: nat)
    ensures ValueInBase(DecimalString(n), 10) == n
    decreases n
  {
    if n >= 10 {
      var s := DecimalString(n);
      assert s[..|s| - 1] == DecimalString(n / 10);
      DecimalStringValue(n / 10);
    }
  }
}
