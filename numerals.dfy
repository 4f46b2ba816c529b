/** Writing natural numbers as digit strings: plain decimal as
    `std::to_string` prints a non-negative `int`, and zero-padded fixed-width
    lowercase hexadecimal as a stream set to `hex`, `setw(w)` and
    `setfill('0')` prints an unsigned value that fits the width. */
module Numerals {

  const DigitChars := "0123456789abcdef"

  function DigitChar(d: nat): char
    requires d < 16
  {
    DigitChars[d]
  }

  /** The value of a digit character, in any base up to 16. */
  function DigitValue(c: char): (v: nat)
    ensures v < 16
  {
    if '0' <= c <= '9' then (c as int - '0' as int)
    else if 'a' <= c <= 'f' then (c as int - 'a' as int) + 10
    else 0
  }

  lemma DigitValueOfChar(d: nat)
    requires d < 16
    ensures DigitValue(DigitChar(d)) == d
  {
  }

  /** The number a digit string spells in `base`, most significant first. */
  function FromDigits(s: string, base: nat): nat {
    if |s| == 0 then 0 else FromDigits(s[..|s| - 1], base) * base + DigitValue(s[|s| - 1])
  }

  /** `std::to_string` of a non-negative value: decimal, no leading zeros. */
  function Decimal(n: nat): (s: string)
    ensures |s| > 0
    ensures forall i :: 0 <= i < |s| ==> '0' <= s[i] <= '9'
  {
    if n < 10 then [DigitChar(n)] else Decimal(n / 10) + [DigitChar(n % 10)]
  }

  /** The last `width` hexadecimal digits of `n`, padded with zeros. */
  function FixedHex(n: nat, width: nat): (s: string)
    ensures |s| == width
    ensures forall i :: 0 <= i < |s| ==> s[i] in DigitChars
  {
    if width == 0 then "" else FixedHex(n / 16, width - 1) + [DigitChar(n % 16)]
  }

  function Power(b: nat, e: nat): nat {
    if e == 0 then 1 else b * Power(b, e - 1)
  }

  /** Reading a decimal rendering back gives the number. */
  lemma {:induction false} DecimalRoundTrip(n: nat)
    ensures FromDigits(Decimal(n), 10) == n
  {
    if n < 10 {
      DigitValueOfChar(n);
    } else {
      DecimalRoundTrip(n / 10);
      var s := Decimal(n);
      assert s[..|s| - 1] == Decimal(n / 10);
      DigitValueOfChar(n % 10);
    }
  }

  /** Distinct numbers have distinct decimal renderings. */
  lemma DecimalInjective(a: nat, b: nat)
    requires Decimal(a) == Decimal(b)
    ensures a == b
  {
    DecimalRoundTrip(a);
    DecimalRoundTrip(b);
  }

  /** Reading a fixed-width hexadecimal rendering back gives the number,
      provided it fits the width. */
  lemma {:induction false} FixedHexRoundTrip(n: nat, width: nat)
    requires n < Power(16, width)
    ensures FromDigits(FixedHex(n, width), 16) == n
  {
    if width > 0 {
      FixedHexRoundTrip(n / 16, width - 1);
      var s := FixedHex(n, width);
      assert s[..|s| - 1] == FixedHex(n / 16, width - 1);
      DigitValueOfChar(n % 16);
    }
  }
}
