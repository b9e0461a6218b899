/** The request handlers of the application over an in-memory database:
    registration, login, and the expenses page (add, batch delete, filtered
    listing with summary figures). */
module App {
  import opened Wrappers
  import opened Dates
  import opened Amounts
  import opened Records
  import opened Aggregates

  // ---------------------------------------------------------------------
  // Users

  predicate UsernamesDistinct(users: seq<User>) {
    forall i, j :: 0 <= i < j < |users| ==> users[i].username != users[j].username
  }

  predicate UserIdsDistinct(users: seq<User>) {
    forall i, j :: 0 <= i < j < |users| ==> users[i].id != users[j].id
  }

  /** `User.objects(username=...).first()`: the first user with that name. */
  function FindUser(users: seq<User>, username: string): (r: Option<User>)
    ensures r.None? <==> forall u :: u in users ==> u.username != username
    ensures r.Some? ==> exists i :: 0 <= i < |users| && users[i] == r.value
                           && users[i].username == username
                           && forall j :: 0 <= j < i ==> users[j].username != username
  {
    if users == [] then None
    else if users[0].username == username then Some(users[0])
    else
      var r := FindUser(users[1..], username);
      assert forall u :: u in users[1..] ==> u in users;
      assert forall j :: 1 <= j < |users| ==> users[j] == users[1..][j - 1];
      r
  }

  /** Login: the user with that name exists and the password checks against
      the stored hash. Hashing is deterministic here: `hash` stands for the
      password-hash primitive the application calls. */
  function Authenticate(users: seq<User>, username: string, password: string, hash: string -> string): (r: Option<Id>)
    ensures r.Some? ==> exists u :: u in users && u.id == r.value
                           && u.username == username && u.passwordHash == hash(password)
    ensures UsernamesDistinct(users) ==>
              (r.Some? <==> exists u :: u in users && u.username == username && u.passwordHash == hash(password))
  {
    match FindUser(users, username)
    case Some(u) => if u.passwordHash == hash(password) then Some(u.id) else None
    case None => None
  }

  /** A user who just registered can log in with that password, and not
      with a password whose hash differs. */
  lemma LoginAfterRegister(users: seq<User>, id: Id, username: string, password: string,
                           preferredName: string, other: string, hash: string -> string)
    requires FindUser(users, username).None?
    ensures Authenticate(users + [User(id, username, hash(password), preferredName)], username, password, hash) == Some(id)
    ensures hash(other) != hash(password) ==>
            Authenticate(users + [User(id, username, hash(password), preferredName)], username, other, hash) == None
  {
  }

  // ---------------------------------------------------------------------
  // Adding an expense

  datatype AddError = InvalidSelection | InvalidFormat

  /** What an accepted add form yields: the selected category and
      description, and the parsed amount and date. */
  datatype Accepted = Accepted(category: string, description: string, amount: real, date: Date)

  /** The add form's validation. The category and description must each
      be submitted and already occur in the store (a closed vocabulary);
      only then are the date and the amount read. */
  function CheckAdd(rs: seq<Expense>, category: Option<string>, description: Option<string>,
                    amountStr: string, dateStr: string): (r: Result<Accepted, AddError>)
    ensures r == Failure(InvalidSelection) <==>
            || category.None? || description.None?
            || (forall e :: e in rs ==> e.category != category.value)
            || (forall e :: e in rs ==> e.description != description.value)
    ensures r == Failure(InvalidFormat) <==>
            && category.Some? && description.Some?
            && (exists e :: e in rs && e.category == category.value)
            && (exists e :: e in rs && e.description == description.value)
            && (ParseDate(dateStr).None? || ParseAmount(amountStr).None?)
    ensures r.Success? ==> && category == Some(r.value.category)
                           && description == Some(r.value.description)
                           && ValidDate(r.value.date)
                           && FormatDate(r.value.date) == dateStr
                           && ParseAmount(amountStr) == Some(r.value.amount)
  {
    if || category.None? || description.None?
       || category.value !in Categories(rs) || description.value !in Descriptions(rs)
    then Failure(InvalidSelection)
    else
      match (ParseDate(dateStr), ParseAmount(amountStr))
      case (Some(d), Some(a)) =>
        FormatParseRoundTrip(dateStr);
        Success(Accepted(category.value, description.value, a, d))
      case _ => Failure(InvalidFormat)
  }

  /** With an empty store nothing can be added: there is no category to
      match. */
  lemma EmptyStoreRejectsAdd(category: Option<string>, description: Option<string>, amountStr: string, dateStr: string)
    ensures CheckAdd([], category, description, amountStr, dateStr) == Failure(InvalidSelection)
  {
  }

  /** Adding "Food"/"Lunch" for 12.50 on 2024-01-15 to a store that knows
      both values is accepted. */
  lemma AddAcceptedExample(rs: seq<Expense>)
    requires exists e :: e in rs && e.category == "Food"
    requires exists e :: e in rs && e.description == "Lunch"
    ensures CheckAdd(rs, Some("Food"), Some("Lunch"), "12.50", "2024-01-15")
            == Success(Accepted("Food", "Lunch", 12.5, Date(2024, 1, 15)))
  {
    AmountExample();
    DateExample();
  }

  /** The same form with month 13 passes the selection check and is then
      refused as a format error. */
  lemma AddMonthThirteenRejected(rs: seq<Expense>)
    requires exists e :: e in rs && e.category == "Food"
    requires exists e :: e in rs && e.description == "Lunch"
    ensures CheckAdd(rs, Some("Food"), Some("Lunch"), "12.50", "2024-13-01") == Failure(InvalidFormat)
  {
    MonthThirteenRejected();
  }

  // ---------------------------------------------------------------------
  // Listing

  /** Builds the query document field by field from the filter selection. */
  method BuildQuery(selCategory: Option<string>, selDescription: Option<string>) returns (query: Query)
    ensures CategoryField in query <==> Constrains(selCategory)
    ensures DescriptionField in query <==> Constrains(selDescription)
    ensures forall e :: Matches(e, query) <==> Selected(e, selCategory, selDescription)
  {
    query := map[];
    if Constrains(selCategory) {
      query := query[CategoryField := selCategory.value];
    }
    if Constrains(selDescription) {
      query := query[DescriptionField := selDescription.value];
    }
  }

  /** What the expenses page shows. */
  datatype View = View(
    expenses: seq<Expense>,
    totalAmount: real,
    totalRecords: nat,
    uniqueDays: nat,
    categories: seq<string>,
    descriptions: seq<string>)

  datatype AddOutcome = Added(id: Id) | AddRejected(reason: AddError)
  datatype DeleteOutcome = Deleted | NoSelection
  datatype RegisterOutcome = Registered(id: Id) | DuplicateUsername

  /** The application's two collections. */
  class Database {
    var users: seq<User>
    var expenses: seq<Expense>
    var nextUserId: Id
    var nextExpenseId: Id

    /** Usernames are unique, ids are unique and below the next id to hand
        out, and stored dates are real dates. */
    ghost predicate Valid()
      reads this
    {
      && UsernamesDistinct(users)
      && UserIdsDistinct(users)
      && (forall u :: u in users ==> u.id < nextUserId)
      && IdsDistinct(expenses)
      && (forall e :: e in expenses ==> e.id < nextExpenseId)
      && DatesValid(expenses)
    }

    /** A database with no users and the given expense documents (written
        by other means: without them no expense can ever be added). */
    constructor (seed: seq<Expense>)
      requires IdsDistinct(seed) && DatesValid(seed)
      ensures Valid()
      ensures users == [] && expenses == seed
    {
      users := [];
      expenses := seed;
      nextUserId := 0;
      nextExpenseId := NextFreeId(seed);
    }

    /** Registration: a taken username is refused and nothing changes;
        otherwise exactly one user is appended, holding the password's
        hash. */
    method Register(username: string, password: string, preferredName: string, hash: string -> string)
      returns (outcome: RegisterOutcome)
      requires Valid()
      modifies this
      ensures Valid()
      ensures expenses == old(expenses) && nextExpenseId == old(nextExpenseId)
      ensures outcome == DuplicateUsername <==> exists u :: u in old(users) && u.username == username
      ensures outcome == DuplicateUsername ==> users == old(users) && nextUserId == old(nextUserId)
      ensures outcome.Registered? ==>
                && (forall u :: u in old(users) ==> u.id != outcome.id)
                && users == old(users) + [User(outcome.id, username, hash(password), preferredName)]
    {
      var existing := FindUser(users, username);
      if existing.Some? {
        outcome := DuplicateUsername;
        return;
      }
      var hashed := hash(password);
      var user := User(nextUserId, username, hashed, preferredName);
      users := users + [user];
      nextUserId := nextUserId + 1;
      outcome := Registered(user.id);
    }

    /** The add branch: validation as `CheckAdd`; a rejected form leaves the
        store unchanged, an accepted one appends exactly one record stamped
        with the acting user, under a fresh id. */
    method AddExpense(userId: Id, category: Option<string>, description: Option<string>,
                      amountStr: string, dateStr: string)
      returns (outcome: AddOutcome)
      requires Valid()
      modifies this
      ensures Valid()
      ensures users == old(users) && nextUserId == old(nextUserId)
      ensures match CheckAdd(old(expenses), category, description, amountStr, dateStr)
              case Failure(err) =>
                && outcome == AddRejected(err)
                && expenses == old(expenses) && nextExpenseId == old(nextExpenseId)
              case Success(acc) =>
                && outcome.Added?
                && (forall e :: e in old(expenses) ==> e.id != outcome.id)
                && expenses == old(expenses)
                   + [Expense(outcome.id, userId, acc.category, acc.description, Some(acc.amount), Some(acc.date))]
    {
      var validCategories := Categories(expenses);
      var validDescriptions := Descriptions(expenses);
      if || category.None? || description.None?
         || category.value !in validCategories || description.value !in validDescriptions
      {
        assert CheckAdd(expenses, category, description, amountStr, dateStr) == Failure(InvalidSelection);
        outcome := AddRejected(InvalidSelection);
        return;
      }
      var date := ParseDate(dateStr);
      var amount := ParseAmount(amountStr);
      if date.None? || amount.None? {
        assert CheckAdd(expenses, category, description, amountStr, dateStr) == Failure(InvalidFormat);
        outcome := AddRejected(InvalidFormat);
        return;
      }
      assert CheckAdd(expenses, category, description, amountStr, dateStr)
             == Success(Accepted(category.value, description.value, amount.value, date.value));
      var record := Expense(nextExpenseId, userId, category.value, description.value,
                            Some(amount.value), Some(date.value));
      AppendUnderFreshId(expenses, record, nextExpenseId);
      assert DatesValid(expenses + [record]);
      expenses := expenses + [record];
      nextExpenseId := nextExpenseId + 1;
      outcome := Added(record.id);
    }

    /** The delete branch: an empty selection changes nothing; otherwise
        exactly the records whose id is selected are removed. */
    method DeleteExpenses(ids: seq<Id>) returns (outcome: DeleteOutcome)
      requires Valid()
      modifies this
      ensures Valid()
      ensures users == old(users) && nextUserId == old(nextUserId) && nextExpenseId == old(nextExpenseId)
      ensures outcome == NoSelection <==> ids == []
      ensures outcome == NoSelection ==> expenses == old(expenses)
      ensures outcome == Deleted ==> expenses == DeleteMany(old(expenses), ids)
    {
      if ids != [] {
        DeleteKeepsIdsDistinct(expenses, ids);
        expenses := DeleteMany(expenses, ids);
        outcome := Deleted;
      } else {
        outcome := NoSelection;
      }
    }

    /** The listing: the filtered records in store order, their count,
        amount total and distinct-day count, and the distinct category and
        description lists of the whole store. */
    method ListExpenses(selCategory: Option<string>, selDescription: Option<string>) returns (v: View)
      requires Valid()
      ensures v.expenses == Filtered(expenses, selCategory, selDescription)
      ensures v.totalRecords == |v.expenses|
      ensures v.totalAmount == TotalAmount(v.expenses)
      ensures v.uniqueDays == |DatesOf(v.expenses)| <= v.totalRecords
      ensures v.categories == Categories(expenses) && v.descriptions == Descriptions(expenses)
    {
      var query := BuildQuery(selCategory, selDescription);
      var list := Find(expenses, query);
      FindIsFiltered(expenses, query, selCategory, selDescription);
      assert DatesValid(list);
      var totalAmount := TotalAmount(list);
      var totalRecords := |list|;
      var uniqueDays := UniqueDays(list);
      v := View(list, totalAmount, totalRecords, uniqueDays, Categories(expenses), Descriptions(expenses));
    }

    /** Listing twice with no write in between shows the same page. */
    method ListTwice(selCategory: Option<string>, selDescription: Option<string>) returns (first: View, second: View)
      requires Valid()
      ensures first == second
    {
      first := ListExpenses(selCategory, selDescription);
      second := ListExpenses(selCategory, selDescription);
    }
  }

  /** After a successful add, the unfiltered listing has one more record,
      the new one last, and its total rises by the new amount. */
  lemma AddThenListUnfiltered(rs: seq<Expense>, e: Expense)
    ensures Filtered(rs + [e], None, None) == rs + [e]
    ensures |Filtered(rs + [e], None, None)| == |Filtered(rs, None, None)| + 1
    ensures TotalAmount(Filtered(rs + [e], None, None)) == TotalAmount(Filtered(rs, None, None)) + AmountOf(e)
  {
    UnfilteredIsEverything(rs, None, None);
    UnfilteredIsEverything(rs + [e], None, None);
    TotalAmountAppend(rs, e);
  }
}
