/** Reading the amount field of the add-expense form as a decimal number.
    Amounts are exact rationals (`real`), not binary floating point. */
module Amounts {
  import opened Wrappers
  import opened Digits

  /** Position of the first '.' in `t`, or `|t|` when there is none. */
  function DotIndex(t: string): (k: nat)
    ensures k <= |t|
    ensures k < |t| ==> t[k] == '.'
    ensures forall i :: 0 <= i < k ==> t[i] != '.'
  {
    if t == [] || t[0] == '.' then 0 else DotIndex(t[1..]) + 1
  }

  /** An unsigned decimal: digits, optionally followed by a point and more
      digits, with at least one digit on one side of the point
      (`12`, `12.50`, `12.`, `.5`). */
  function ParseUnsigned(t: string): (r: Option<real>)
    ensures r.Some? ==> r.value >= 0.0
  {
    var k := DotIndex(t);
    var whole := t[..k];
    var frac := if k < |t| then t[k + 1..] else [];
    if AllDigits(whole) && AllDigits(frac) && |whole| + |frac| > 0 then
      Some(DecimalValue(whole, frac))
    else None
  }

  /** The value of `whole.frac`. */
  function DecimalValue(whole: string, frac: string): (v: real)
    requires AllDigits(whole) && AllDigits(frac)
    ensures v >= 0.0
  {
    DigitsToNat(whole) as real + DigitsToNat(frac) as real / Pow10(|frac|) as real
  }

  /** An optionally signed decimal. Everything else, the empty string
      included, is a format error. */
  function ParseAmount(s: string): (r: Option<real>)
    ensures r.Some? ==> s != []
    ensures r.Some? && r.value < 0.0 ==> s[0] == '-'
  {
    if s == [] then None
    else if s[0] == '-' then
      match ParseUnsigned(s[1..])
      case Some(v) => Some(-v)
      case None => None
    else if s[0] == '+' then ParseUnsigned(s[1..])
    else ParseUnsigned(s)
  }

  /** A whole number of cents written as `units.cc`. */
  function FormatCents(cents: nat): (s: string)
  {
    NatToDigits(cents / 100, Width(cents / 100)) + "." + NatToDigits(cents % 100, 2)
  }

  /** A digit string, a point and a digit string read as the whole part
      plus the fraction. */
  lemma ParsePointed(whole: string, frac: string)
    requires AllDigits(whole) && AllDigits(frac) && |whole| + |frac| > 0
    ensures ParseUnsigned(whole + "." + frac) == Some(DecimalValue(whole, frac))
  {
    var s := whole + "." + frac;
    forall i | 0 <= i < |whole| ensures s[i] != '.' {
      assert s[i] == whole[i] && IsDigit(whole[i]);
    }
    assert s[|whole|] == '.' && DotIndex(s) == |whole|;
    assert s[..|whole|] == whole && s[|whole| + 1..] == frac;
  }

  /** A digit string with no point reads as its whole value. */
  lemma ParseBare(whole: string)
    requires AllDigits(whole) && whole != []
    ensures ParseUnsigned(whole) == Some(DecimalValue(whole, []))
  {
    forall i | 0 <= i < |whole| ensures whole[i] != '.' {
      assert IsDigit(whole[i]);
    }
    assert DotIndex(whole) == |whole|;
    assert whole[..|whole|] == whole;
  }

  /** `t` spells the decimal with digit strings `whole` and `frac`: either
      `whole.frac` or, with no fraction, just `whole`; at least one digit
      in all. */
  predicate IsDecimal(t: string, whole: string, frac: string) {
    && AllDigits(whole) && AllDigits(frac) && |whole| + |frac| > 0
    && (t == whole + "." + frac || (frac == [] && t == whole))
  }

  /** The unsigned reader accepts exactly the decimal spellings, and reads
      each as its value. */
  lemma ParseUnsignedMeaning(t: string, v: real)
    ensures ParseUnsigned(t) == Some(v) <==>
            exists whole, frac :: IsDecimal(t, whole, frac) && v == DecimalValue(whole, frac)
  {
    if ParseUnsigned(t) == Some(v) {
      var k := DotIndex(t);
      var whole := t[..k];
      var frac := if k < |t| then t[k + 1..] else [];
      if k < |t| {
        assert t == whole + "." + frac;
      } else {
        assert t == whole;
      }
      assert IsDecimal(t, whole, frac);
    }
    if exists whole, frac :: IsDecimal(t, whole, frac) && v == DecimalValue(whole, frac) {
      var whole, frac :| IsDecimal(t, whole, frac) && v == DecimalValue(whole, frac);
      if t == whole + "." + frac {
        ParsePointed(whole, frac);
      } else {
        ParseBare(whole);
      }
    }
  }

  /** A leading sign is never part of an unsigned decimal. */
  lemma SignIsNotUnsigned(s: string)
    requires s != [] && (s[0] == '-' || s[0] == '+')
    ensures ParseUnsigned(s) == None
  {
    var k := DotIndex(s);
    if k > 0 {
      assert s[..k][0] == s[0];
      assert !IsDigit(s[0]);
    }
  }

  /** The signed reader: an unsigned decimal, or one after '+', reads as
      its value; one after '-' reads as its negation; nothing else is
      accepted. */
  lemma ParseAmountMeaning(s: string, v: real)
    ensures ParseAmount(s) == Some(v) <==>
            || ParseUnsigned(s) == Some(v)
            || (s != [] && s[0] == '+' && ParseUnsigned(s[1..]) == Some(v))
            || (s != [] && s[0] == '-' && ParseUnsigned(s[1..]) == Some(-v))
  {
    if s != [] && (s[0] == '-' || s[0] == '+') {
      SignIsNotUnsigned(s);
    }
  }

  /** Text that is not a decimal is a format error. */
  lemma ParseAmountRefusals()
    ensures ParseAmount("abc") == None
    ensures ParseAmount("1.2.3") == None
    ensures ParseAmount(".") == None
    ensures ParseAmount("-") == None
  {
    var t := "1.2.3";
    assert t[1] == '.' && DotIndex(t) == 1;
    assert t[2..][1] == '.' && !IsDigit(t[2..][1]);
    var u := "abc";
    assert !IsDigit(u[0]);
    assert DotIndex(u) > 0 ==> u[..DotIndex(u)][0] == 'a';
    var d := ".";
    assert DotIndex(d) == 0;
    assert ("-")[1..] == [];
  }

  /** Whole numbers and bare fractions read as expected. */
  lemma ParseAmountUnpointed()
    ensures ParseAmount("12") == Some(12.0)
    ensures ParseAmount(".5") == Some(0.5)
  {
    ParseBare("12");
    assert ['1', '2'][..1] == ['1'];
    assert DigitsToNat("12") == 12;
    ParsePointed([], "5");
    assert [] + "." + "5" == ".5";
    assert DigitsToNat("5") == 5;
    assert Pow10(1) == 10;
  }

  /** An amount written with two decimals is read back as that many
      hundredths. */
  lemma FormatCentsRoundTrip(cents: nat)
    ensures ParseUnsigned(FormatCents(cents)) == Some(cents as real / 100.0)
  {
    var whole, frac := NatToDigits(cents / 100, Width(cents / 100)), NatToDigits(cents % 100, 2);
    assert FormatCents(cents) == whole + "." + frac;
    ParsePointed(whole, frac);
    CentsValue(cents);
  }

  /** Whole units and two digits of hundredths make the amount in cents
      divided by 100. */
  lemma CentsValue(cents: nat)
    ensures DecimalValue(NatToDigits(cents / 100, Width(cents / 100)), NatToDigits(cents % 100, 2))
            == cents as real / 100.0
  {
    var units, rest := cents / 100, cents % 100;
    DigitsRoundTrip(units, Width(units));
    DigitsRoundTrip(rest, 2);
    assert Pow10(2) == 100;
    assert cents == 100 * units + rest;
    assert cents as real == 100.0 * units as real + rest as real;
  }

  /** Unsigned and negative two-decimal amounts both round-trip. */
  lemma SignedAmountRoundTrip(cents: nat)
    ensures ParseAmount(FormatCents(cents)) == Some(cents as real / 100.0)
    ensures ParseAmount("-" + FormatCents(cents)) == Some(-(cents as real / 100.0))
  {
    FormatCentsRoundTrip(cents);
    var s := FormatCents(cents);
    var w := Width(cents / 100);
    assert s[0] == NatToDigits(cents / 100, w)[0];
    assert IsDigit(s[0]);
    assert ("-" + s)[1..] == s;
  }

  /** "12.50" is twelve and a half. */
  lemma AmountExample()
    ensures ParseAmount("12.50") == Some(12.5)
  {
    var s := "12.50";
    assert s[2] == '.' && DotIndex(s) == 2;
    assert s[..2] == ['1', '2'] && ['1', '2'][..1] == ['1'];
    assert s[3..] == ['5', '0'] && ['5', '0'][..1] == ['5'];
    assert DigitsToNat(['1', '2']) == 12;
    assert DigitsToNat(['5', '0']) == 50;
    assert Pow10(2) == 100;
    assert DecimalValue(['1', '2'], ['5', '0']) == 12.0 + 50.0 / 100.0;
  }
}
