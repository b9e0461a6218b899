/** The summary figures shown above the expense list: the amount total,
    the record count and the number of distinct days. */
module Aggregates {
  import opened Wrappers
  import opened Dates
  import opened Records

  predicate AmountsNonNegative(rs: seq<Expense>) {
    forall e :: e in rs && e.amount.Some? ==> e.amount.value >= 0.0
  }

  /** What a record adds to the total: its amount, or nothing when the
      amount is missing or empty. */
  function AmountOf(e: Expense): (a: real)
    ensures a != 0.0 ==> e.amount.Some?
    ensures AmountsNonNegative([e]) ==> a >= 0.0
  {
    match e.amount
    case Some(a) => a
    case None => 0.0
  }

  /** The sum of the amounts of the records that carry one; never
      negative when no amount is. */
  function TotalAmount(rs: seq<Expense>): (t: real)
    ensures AmountsNonNegative(rs) ==> t >= 0.0
    ensures (forall e :: e in rs ==> e.amount.None?) ==> t == 0.0
  {
    if rs == [] then 0.0
    else
      assert AmountsNonNegative(rs) ==> AmountsNonNegative([rs[0]]) && AmountsNonNegative(rs[1..]);
      AmountOf(rs[0]) + TotalAmount(rs[1..])
  }

  /** Appending a record raises the total by that record's amount; a
      record without an amount leaves it unchanged. */
  lemma {:induction false} TotalAmountAppend(rs: seq<Expense>, e: Expense)
    ensures TotalAmount(rs + [e]) == TotalAmount(rs) + AmountOf(e)
    ensures e.amount.None? ==> TotalAmount(rs + [e]) == TotalAmount(rs)
  {
    if rs != [] {
      assert (rs + [e])[1..] == rs[1..] + [e];
      TotalAmountAppend(rs[1..], e);
    }
  }

  /** With non-negative amounts, a filtered total is between zero and the
      unfiltered total. */
  lemma {:induction false} FilteredTotalBounded(rs: seq<Expense>, selCategory: Option<string>, selDescription: Option<string>)
    requires AmountsNonNegative(rs)
    ensures 0.0 <= TotalAmount(Filtered(rs, selCategory, selDescription)) <= TotalAmount(rs)
  {
    if rs != [] {
      assert AmountsNonNegative(rs[1..]);
      FilteredTotalBounded(rs[1..], selCategory, selDescription);
      assert AmountOf(rs[0]) >= 0.0;
      var tail := Filtered(rs[1..], selCategory, selDescription);
      if Selected(rs[0], selCategory, selDescription) {
        assert Filtered(rs, selCategory, selDescription) == [rs[0]] + tail;
        assert ([rs[0]] + tail)[1..] == tail;
      } else {
        assert Filtered(rs, selCategory, selDescription) == tail;
      }
    }
  }

  /** Every stored date is a real calendar date. */
  predicate DatesValid(rs: seq<Expense>) {
    forall e :: e in rs && e.date.Some? ==> ValidDate(e.date.value)
  }

  /** The dates carried by the records that have one. */
  function DatesOf(rs: seq<Expense>): (ds: set<Date>) {
    set e | e in rs && e.date.Some? :: e.date.value
  }

  /** Formatting a set of valid dates loses none of them. */
  lemma FormattedCount(ds: set<Date>)
    requires forall d :: d in ds ==> ValidDate(d)
    ensures |set d | d in ds :: FormatDate(d)| == |ds|
    decreases |ds|
  {
    if ds != {} {
      var d :| d in ds;
      var rest := ds - {d};
      FormattedCount(rest);
      var whole := set x | x in ds :: FormatDate(x);
      var restImage := set x | x in rest :: FormatDate(x);
      assert whole == restImage + {FormatDate(d)};
      forall x | x in rest ensures FormatDate(x) != FormatDate(d) {
        FormatDateInjective(x, d);
      }
      assert FormatDate(d) !in restImage;
    }
  }

  /** A list of records carries no more distinct dates than it has
      records. */
  lemma {:induction false} DatesOfBounded(rs: seq<Expense>)
    ensures |DatesOf(rs)| <= |rs|
  {
    if rs != [] {
      var rest := rs[1..];
      DatesOfBounded(rest);
      assert rs == [rs[0]] + rest;
      var head: set<Date> := if rs[0].date.Some? then {rs[0].date.value} else {};
      assert DatesOf(rs) == head + DatesOf(rest);
    }
  }

  /** The `YYYY-MM-DD` spellings of those dates, as the listing collects
      them: one spelling per distinct calendar date. */
  function DayStrings(rs: seq<Expense>): (days: set<string>)
    requires DatesValid(rs)
    ensures |days| == |DatesOf(rs)|
    ensures forall e :: e in rs && e.date.Some? ==> FormatDate(e.date.value) in days
  {
    var ds := DatesOf(rs);
    FormattedCount(ds);
    assert (set e | e in rs && e.date.Some? :: FormatDate(e.date.value)) == set d | d in ds :: FormatDate(d);
    set e | e in rs && e.date.Some? :: FormatDate(e.date.value)
  }

  /** The number of distinct days among the records: the number of
      distinct calendar dates, at most the number of records. */
  function UniqueDays(rs: seq<Expense>): (n: nat)
    requires DatesValid(rs)
    ensures n == |DatesOf(rs)|
    ensures n <= |rs|
  {
    DatesOfBounded(rs);
    |DayStrings(rs)|
  }

  /** Appending a record adds its date, if it has one, to the dates. */
  lemma DatesOfAppend(rs: seq<Expense>, e: Expense)
    ensures DatesOf(rs + [e]) == DatesOf(rs) + (if e.date.Some? then {e.date.value} else {})
  {
    forall x | x in rs + [e] ensures x in rs || x == e { }
  }

  /** Appending a record adds one day exactly when it carries a date not
      seen before. */
  lemma UniqueDaysAppend(rs: seq<Expense>, e: Expense)
    requires DatesValid(rs + [e])
    ensures DatesValid(rs)
    ensures UniqueDays(rs + [e]) ==
            UniqueDays(rs) + (if e.date.Some? && e.date.value !in DatesOf(rs) then 1 else 0)
  {
    forall x | x in rs ensures x in rs + [e] { }
    DatesOfAppend(rs, e);
  }
}
