# Expense tracker: a verified model of the expense service

This project models the request-handling core of a small expense-tracking
web application. Users register with a unique username. An expenses page
lets a logged-in user add an expense, delete a batch of expenses by id, and
list the expenses filtered by category and description, with three summary
figures: the amount total, the record count and the number of distinct days.

The database is replaced by an in-memory `Database` class holding the two
collections as sequences (`users`, `expenses`) and two id counters. The
store operations the handlers call become functions over those sequences:
`distinct` is `Categories`/`Descriptions`, `find` is `Find`, and
`delete_many` is `DeleteMany`. `insert_one` and `save` append to a sequence.

Modules:

- `Wrappers`: `Option` and `Result`.
- `Digits`: fixed-width decimal digit strings and their values, with both
  round trips.
- `Dates`: Gregorian calendar dates. This covers leap years, month lengths,
  the strict `YYYY-MM-DD` reader `ParseDate` and the writer `FormatDate`.
  The shape is the `full-date` of RFC 3339, section 5.6. The day limits are
  those of RFC 3339, section 5.7. Years run from 1 to 9999, the range of
  the date type the application stores. RFC 3339 also admits year 0000;
  the application's date type refuses it, and the model follows the
  application.
- `Amounts`: the decimal reader for the amount field, with a round trip for
  two-decimal amounts.
- `Records`: the expense and user documents and the store operations
  `distinct`, `find` and `delete_many`. It also holds the reference
  definition of the filter (`Selected`, `Filtered`).
- `Aggregates`: the amount total and the distinct-day count. Their bounds
  are in their contracts, and their behaviour under an append is proved
  in lemmas.
- `App`: the handlers. The `Database` class has `Register`, `AddExpense`,
  `DeleteExpenses` and `ListExpenses`. Beside it are the validation
  function `CheckAdd`, the query builder `BuildQuery`, and login as
  `Authenticate`.

The acting user's id is an explicit parameter of `AddExpense`. The password
hash primitive is a parameter `hash: string -> string` of `Register` and
`Authenticate`.

## Model

| member | source | states |
|---|---|---|
| `Dates.DaysInMonth` | app.py:106 | month lengths lie between 28 and 31, and a month has 29 days exactly when it is February of a leap year |
| `Dates.FormatDate` | app.py:159 | the day is written as four digits, a dash, two digits, a dash and two digits |
| `Dates.ParseDate` | app.py:106 | every accepted date string names a date that exists |
| `Dates.ParseFormatRoundTrip` | app.py:105-110 | every valid date is read back from its own `YYYY-MM-DD` spelling |
| `Dates.FormatParseRoundTrip` | app.py:105-110 | every accepted string is exactly the spelling of the date it was read as |
| `Dates.FormatDateInjective` | app.py:158-161 | two dates have the same spelling if and only if they are equal |
| `Dates.MonthThirteenRejected` | app.py:105-110 | "2024-13-01" is not a date |
| `Dates.LeapDayAccepted` | app.py:106 | February 29 is accepted in 2024 |
| `Dates.LeapDayRejectedInCommonYear` | app.py:106 | February 29 is refused in 2023 |
| `Dates.LeapDayRejectedInCentury` | app.py:106 | February 29 is refused in 1900 |
| `Dates.DateExample` | app.py:106 | "2024-01-15" reads as January 15, 2024 |
| `Amounts.ParseUnsigned` | app.py:107 | an accepted unsigned decimal is non-negative |
| `Amounts.ParseAmount` | app.py:107 | the empty field is refused, and a negative amount must be written with a leading minus sign |
| `Amounts.ParseUnsignedMeaning` | app.py:107 | an unsigned field reads as v if and only if it is a digit string, optionally followed by a point and a digit string, with at least one digit in all, and v is the value of those digits |
| `Amounts.ParseAmountMeaning` | app.py:107 | a field reads as v if and only if it is such a decimal with value v, or that decimal after a plus sign, or a minus sign followed by a decimal of value -v |
| `Amounts.ParseAmountRefusals` | app.py:107-110 | "abc", "1.2.3", "." and "-" are refused |
| `Amounts.ParseAmountUnpointed` | app.py:107 | "12" reads as 12 and ".5" as 0.5 |
| `Amounts.FormatCentsRoundTrip` | app.py:107 | `units.cc` reads back as exactly that many hundredths |
| `Amounts.SignedAmountRoundTrip` | app.py:107 | two-decimal amounts round-trip with and without a minus sign |
| `Amounts.AmountExample` | app.py:107 | "12.50" reads as 12.5 |
| `Records.Distinct` | app.py:98-99 | the distinct list has no duplicates and holds exactly the values of the column |
| `Records.Categories` | app.py:164 | the category list has no duplicates and holds exactly the categories that some stored expense carries |
| `Records.Descriptions` | app.py:165 | the description list has no duplicates and holds exactly the descriptions that some stored expense carries |
| `Records.Matches` | app.py:147 | the empty query matches every record, and a matching record agrees with each field the query names |
| `Records.Find` | app.py:147-148 | the result holds exactly the stored records that agree with every field the query names, and is no longer than the store |
| `Records.Constrains` | app.py:142-145 | an absent or empty selection does not constrain the listing; a non-empty one does |
| `Records.Selected` | app.py:141-148 | with no constraining selection every record is selected; a selected record carries each constraining value; a record carrying both selected values is selected |
| `Records.Filtered` | app.py:141-148 | the filtered list holds exactly the records whose category equals a non-empty category selection and whose description equals a non-empty description selection |
| `Records.FindIsFiltered` | app.py:141-148 | a query that matches exactly the selected records finds the filtered list, in store order |
| `Records.UnfilteredIsEverything` | app.py:142-145 | an absent or empty selection constrains nothing, so the whole store is listed |
| `Records.DeleteMany` | app.py:130 | the survivors are exactly the records whose id is not selected |
| `Records.DeleteUnmatchedIsNoop` | app.py:130 | ids that match no record are ignored |
| `Records.DeleteKeepsIdsDistinct` | app.py:130 | after a deletion, no two surviving records share an id |
| `Records.DeleteSelectedShrinks` | app.py:130 | a selected record is gone afterwards, and the store is smaller |
| `Aggregates.AmountOf` | app.py:151-155 | a record without an amount contributes nothing, and a non-negative amount contributes a non-negative value |
| `Aggregates.TotalAmount` | app.py:151-155 | the total is never negative when no amount is, and is zero when no record carries an amount |
| `Aggregates.TotalAmountAppend` | app.py:151-155 | appending a record raises the total by its amount; a record without an amount adds nothing |
| `Aggregates.FilteredTotalBounded` | app.py:151-155 | with non-negative amounts, a filtered total lies between 0 and the unfiltered total |
| `Aggregates.FormattedCount` | app.py:158-161 | spelling a set of dates as strings loses none of them |
| `Aggregates.DatesOfBounded` | app.py:158-161 | a list carries no more distinct dates than it has records |
| `Aggregates.DayStrings` | app.py:158-161 | every dated record's day spelling is collected, and there are exactly as many spellings as distinct calendar dates |
| `Aggregates.UniqueDays` | app.py:157-161 | the distinct-day count is the number of distinct calendar dates among records that have a date, and is at most the record count |
| `Aggregates.DatesOfAppend` | app.py:158-161 | appending a record adds exactly its date, if it has one, to the set of dates |
| `Aggregates.UniqueDaysAppend` | app.py:158-161 | appending a record adds one day exactly when its date is new |
| `App.FindUser` | app.py:54 | the result is absent exactly when no user has the name; otherwise it is the first user with that name |
| `App.Authenticate` | app.py:74-79 | login succeeds only for a stored user with that name whose stored hash is the password's hash; when usernames are distinct, it succeeds exactly when such a user exists |
| `App.LoginAfterRegister` | app.py:59-62 | a freshly registered user can log in with the password, and not with one whose hash differs |
| `App.CheckAdd` | app.py:91-110 | the add is refused as an invalid selection exactly when the category or the description is missing from the form, or no stored record carries the category, or none carries the description, whatever the date and amount. It is refused as a format error exactly when the selection is valid and the date or amount is unreadable. When accepted, both selections were submitted, the date is valid, its spelling is the submitted string, and the amount is the parsed value |
| `App.EmptyStoreRejectsAdd` | app.py:98-103 | nothing can be added to an empty store |
| `App.AddAcceptedExample` | app.py:101-119 | "Food"/"Lunch"/"12.50"/"2024-01-15" is accepted with amount 12.5 and date 2024-01-15 when the store knows both values |
| `App.AddMonthThirteenRejected` | app.py:101-110 | a valid selection with month 13 is a format error |
| `App.BuildQuery` | app.py:141-145 | the query names the category (respectively description) exactly when that selection is present and non-empty, and it matches exactly the selected records |
| `App.Database.constructor` | app.py:19-21 | the database starts with no users and the given expense documents, with its invariant established |
| `App.Database.Register` | app.py:53-62 | a taken username is refused and nothing changes. Otherwise exactly one user is appended, under a fresh id, holding the password's hash. Usernames stay pairwise distinct, and the expenses are untouched |
| `App.Database.AddExpense` | app.py:91-121 | a refused form leaves the store unchanged, with the refusal `CheckAdd` gives. An accepted one appends exactly one record under a fresh id, carrying the acting user, the category, the description and the parsed amount and date; every earlier record stays as it was |
| `App.Database.DeleteExpenses` | app.py:124-135 | an empty selection is reported and changes nothing; otherwise exactly the selected ids are removed |
| `App.Database.ListExpenses` | app.py:137-165 | the listed records are the filtered list. The total count is its length, the total amount is the sum of its amounts, and the distinct-day count is its number of distinct dates, at most the count. The dropdown lists are the store's distinct values, independent of the filter |
| `App.Database.ListTwice` | app.py:147-165 | listing twice with no write in between yields the same page |
| `App.AddThenListUnfiltered` | app.py:151-157 | after an append, the unfiltered list gains exactly the new record, last, and its total rises by the new amount |

## Left out

- Flask routing, form and query-string access, flash messages, redirects and template rendering. These are web plumbing. The add and delete branches are separate methods rather than a dispatch on which form field is present.
- Session handling: `login_user`, `logout_user`, the user loader and the login-required guard. The acting user's id is a parameter instead.
- The database connection and driver. The collections are in-memory sequences. Ids come from a counter, which stands for the store's unique, never reused ids.
- Concurrency between requests. The code has none of its own.
- Authenticate: password hashing is a deterministic parameter `hash`. The salted hash's randomness and the real hash check are not modelled.
- ParseAmount: it reads only optionally signed decimals (`12`, `12.50`, `.5`, `12.`). Exponents, `inf`/`nan`, surrounding whitespace and digit-group underscores are not modelled. Amounts are exact rationals, so floating-point rounding of the value and of the sum is not modelled.
- ParseDate: it requires two-digit months and days. The single-digit forms that the application's date reader also accepts are not modelled.
- Malformed ids in a delete selection raise an unhandled exception in the application. Ids are numbers here, so that case does not arise.
- A missing category or description is modelled: it is refused as an invalid selection, since an absent value is not among the stored values. A missing `expense_ids` list is an empty selection, also modelled. A missing date or amount field makes the date or number reader raise a type error that the application does not catch; here the date and amount fields are always strings, so that case is not modelled. The same holds for missing register and login fields, which raise a lookup error.
- Stored documents are assumed to carry a category, a description, a numeric or absent/empty amount and an absent or valid date. A document with a string amount that cannot be read makes the listing raise an exception; such documents are not modelled.
- Records.Distinct: the order of the distinct lists is first occurrence. The store does not promise an order, so only the contents and the absence of duplicates are stated.
- Logout: it only clears session state, so it is not modelled.
