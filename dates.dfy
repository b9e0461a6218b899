/** Calendar dates without a time of day, as stored in an expense's `Date`
    field and written with the `YYYY-MM-DD` pattern (the `full-date` form of
    RFC 3339, section 5.6, with the month lengths and leap-year rule of its
    section 5.7). */
module Dates {
  import opened Wrappers
  import opened Digits

  datatype Date = Date(year: int, month: int, day: int)

  /** The year range of the date type the application stores. */
  const MinYear: int := 1
  const MaxYear: int := 9999

  /** Gregorian leap years: divisible by 4, except centuries not divisible
      by 400. */
  predicate IsLeapYear(year: int) {
    year % 4 == 0 && (year % 100 != 0 || year % 400 == 0)
  }

  function DaysInMonth(year: int, month: int): (n: int)
    requires 1 <= month <= 12
    ensures 28 <= n <= 31
    ensures n == 29 <==> month == 2 && IsLeapYear(year)
  {
    if month == 2 then (if IsLeapYear(year) then 29 else 28)
    else if month == 4 || month == 6 || month == 9 || month == 11 then 30
    else 31
  }

  predicate ValidDate(d: Date) {
    && MinYear <= d.year <= MaxYear
    && 1 <= d.month <= 12
    && 1 <= d.day <= DaysInMonth(d.year, d.month)
  }

  /** `YYYY-MM-DD`, each field zero-padded. */
  function FormatDate(d: Date): (s: string)
    requires ValidDate(d)
    ensures |s| == 10 && s[4] == '-' && s[7] == '-'
    ensures AllDigits(s[..4]) && AllDigits(s[5..7]) && AllDigits(s[8..])
  {
    var s := NatToDigits(d.year, 4) + "-" + NatToDigits(d.month, 2) + "-" + NatToDigits(d.day, 2);
    assert s[..4] == NatToDigits(d.year, 4);
    assert s[5..7] == NatToDigits(d.month, 2);
    assert s[8..] == NatToDigits(d.day, 2);
    s
  }

  /** Strict `YYYY-MM-DD` reading: four, two and two digits separated by
      dashes, naming a date that exists. Anything else is a format error. */
  function ParseDate(s: string): (r: Option<Date>)
    ensures r.Some? ==> ValidDate(r.value)
  {
    if |s| == 10 && s[4] == '-' && s[7] == '-'
       && AllDigits(s[..4]) && AllDigits(s[5..7]) && AllDigits(s[8..])
    then
      var d := Date(DigitsToNat(s[..4]), DigitsToNat(s[5..7]), DigitsToNat(s[8..]));
      if ValidDate(d) then Some(d) else None
    else None
  }

  /** Every valid date is read back from its own formatting. */
  lemma ParseFormatRoundTrip(d: Date)
    requires ValidDate(d)
    ensures ParseDate(FormatDate(d)) == Some(d)
  {
    var s := FormatDate(d);
    assert s[..4] == NatToDigits(d.year, 4);
    assert s[5..7] == NatToDigits(d.month, 2);
    assert s[8..] == NatToDigits(d.day, 2);
    DigitsRoundTrip(d.year, 4);
    DigitsRoundTrip(d.month, 2);
    DigitsRoundTrip(d.day, 2);
  }

  /** Every accepted string is the formatting of the date it was read as:
      the reader accepts only the canonical spelling. */
  lemma FormatParseRoundTrip(s: string)
    requires ParseDate(s).Some?
    ensures FormatDate(ParseDate(s).value) == s
  {
    var d := ParseDate(s).value;
    var year, month, day := s[..4], s[5..7], s[8..];
    assert d == Date(DigitsToNat(year), DigitsToNat(month), DigitsToNat(day));
    DigitsOfValue(year);
    DigitsOfValue(month);
    DigitsOfValue(day);
    assert FormatDate(d) == year + "-" + month + "-" + day;
    SplitAtDashes(s);
  }

  /** A ten-character string with dashes at 4 and 7 is its three fields
      joined by dashes. */
  lemma SplitAtDashes(s: string)
    requires |s| == 10 && s[4] == '-' && s[7] == '-'
    ensures s == s[..4] + "-" + s[5..7] + "-" + s[8..]
  {
    var t := s[..4] + "-" + s[5..7] + "-" + s[8..];
    assert |t| == 10;
    forall i | 0 <= i < 10 ensures s[i] == t[i] {
      if i < 4 {
      } else if i == 4 {
      } else if i < 7 {
        assert t[i] == s[5..7][i - 5];
      } else if i == 7 {
      } else {
        assert t[i] == s[8..][i - 8];
      }
    }
  }

  /** Two dates with the same `YYYY-MM-DD` spelling are the same date, so
      counting distinct spellings counts distinct dates. */
  lemma FormatDateInjective(d1: Date, d2: Date)
    requires ValidDate(d1) && ValidDate(d2)
    ensures FormatDate(d1) == FormatDate(d2) <==> d1 == d2
  {
    ParseFormatRoundTrip(d1);
    ParseFormatRoundTrip(d2);
  }

  /** Month 13 does not exist. */
  lemma MonthThirteenRejected()
    ensures ParseDate("2024-13-01") == None
  {
    var s := "2024-13-01";
    assert s[5..7] == ['1', '3'];
    assert DigitsToNat(['1']) == 1;
    assert DigitsToNat(s[5..7]) == 13;
  }

  /** February 29 exists in a leap year. */
  lemma LeapDayAccepted()
    ensures ParseDate("2024-02-29") == Some(Date(2024, 2, 29))
  {
    ParseFormatRoundTrip(Date(2024, 2, 29));
    assert FormatDate(Date(2024, 2, 29)) == "2024-02-29";
  }

  /** February 29 does not exist in a common year. */
  lemma LeapDayRejectedInCommonYear()
    ensures ParseDate("2023-02-29") == None
  {
    var s := "2023-02-29";
    assert s[..4] == ['2', '0', '2', '3'];
    assert DigitsToNat(['2']) == 2;
    assert DigitsToNat(['2', '0']) == 20;
    assert DigitsToNat(['2', '0', '2']) == 202;
    assert ['2', '0', '2', '3'][..3] == ['2', '0', '2'];
    assert s[5..7] == ['0', '2'] && s[8..] == ['2', '9'];
    assert DigitsToNat(['0']) == 0 && DigitsToNat(['0', '2']) == 2;
    assert DigitsToNat(['2', '9']) == 29;
    assert DigitsToNat(s[..4]) == 2023;
  }

  /** February 29 does not exist in a century year not divisible by 400. */
  lemma LeapDayRejectedInCentury()
    ensures ParseDate("1900-02-29") == None
  {
    var t := "1900-02-29";
    assert t[..4] == ['1', '9', '0', '0'];
    assert DigitsToNat(['1']) == 1;
    assert DigitsToNat(['1', '9']) == 19;
    assert DigitsToNat(['1', '9', '0']) == 190;
    assert ['1', '9', '0', '0'][..3] == ['1', '9', '0'];
    assert t[5..7] == ['0', '2'] && t[8..] == ['2', '9'];
    assert DigitsToNat(['0']) == 0 && DigitsToNat(['0', '2']) == 2;
    assert DigitsToNat(['2', '9']) == 29;
    assert DigitsToNat(t[..4]) == 1900;
  }

  /** "2024-01-15" is January 15, 2024. */
  lemma DateExample()
    ensures ParseDate("2024-01-15") == Some(Date(2024, 1, 15))
  {
    ParseFormatRoundTrip(Date(2024, 1, 15));
    assert NatToDigits(2024, 4) == "2024";
    assert FormatDate(Date(2024, 1, 15)) == "2024-01-15";
  }
}
