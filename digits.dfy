/** Fixed-width decimal digit strings: the building block of the date
    format `YYYY-MM-DD` and of decimal amounts. */
module Digits {

  predicate IsDigit(c: char) {
    '0' <= c <= '9'
  }

  predicate AllDigits(s: string) {
    forall i :: 0 <= i < |s| ==> IsDigit(s[i])
  }

  function Pow10(n: nat): (r: nat)
    ensures r >= 1
  {
    if n == 0 then 1 else 10 * Pow10(n - 1)
  }

  function DigitValue(c: char): (d: nat)
    requires IsDigit(c)
    ensures d < 10
  {
    (c as int) - ('0' as int)
  }

  function DigitChar(d: nat): (c: char)
    requires d < 10
    ensures IsDigit(c) && DigitValue(c) == d
  {
    (('0' as int) + d) as char
  }

  /** The value of a string of decimal digits, most significant first. */
  function DigitsToNat(s: string): (r: nat)
    requires AllDigits(s)
    ensures r < Pow10(|s|)
  {
    if s == [] then 0
    else
      var prefix := s[..|s| - 1];
      assert AllDigits(prefix);
      DigitsToNat(prefix) * 10 + DigitValue(s[|s| - 1])
  }

  /** The lowest `width` decimal digits of `n`, zero-padded on the left. */
  function NatToDigits(n: nat, width: nat): (s: string)
    ensures |s| == width && AllDigits(s)
  {
    if width == 0 then [] else NatToDigits(n / 10, width - 1) + [DigitChar(n % 10)]
  }

  /** The number of decimal digits needed to write `n` (at least one). */
  function Width(n: nat): (w: nat)
    ensures 1 <= w && n < Pow10(w)
  {
    if n < 10 then 1 else Width(n / 10) + 1
  }

  /** Writing a number that fits in `width` digits and reading it back
      gives the number. */
  lemma {:induction false} DigitsRoundTrip(n: nat, width: nat)
    requires n < Pow10(width)
    ensures DigitsToNat(NatToDigits(n, width)) == n
  {
    if width > 0 {
      var s := NatToDigits(n, width);
      assert s[..|s| - 1] == NatToDigits(n / 10, width - 1);
      DigitsRoundTrip(n / 10, width - 1);
    }
  }

  /** Reading a digit string and writing its value back at the same width
      gives the string: digit strings and their values are in one-to-one
      correspondence at each width. */
  lemma {:induction false} DigitsOfValue(s: string)
    requires AllDigits(s)
    ensures NatToDigits(DigitsToNat(s), |s|) == s
  {
    if s != [] {
      var prefix := s[..|s| - 1];
      assert AllDigits(prefix);
      var n := DigitsToNat(s);
      assert n / 10 == DigitsToNat(prefix) && n % 10 == DigitValue(s[|s| - 1]);
      DigitsOfValue(prefix);
      assert s == prefix + [s[|s| - 1]];
    }
  }
}
