/** The two collections of the application and the store operations the
    request handlers use on them: `distinct`, `find` with an equality
    query, and `delete_many` by a list of ids. */
module Records {
  import opened Wrappers
  import opened Dates

  /** Document identifiers, assigned by the store and never reused. */
  type Id = nat

  /** One document of the expense collection. `amount` is None when the
      document has no amount or an empty one, `date` is None when it has no
      date; documents written by the add form always carry both, but the
      collection may hold documents written by other means. */
  datatype Expense = Expense(
    id: Id,
    userId: Id,
    category: string,
    description: string,
    amount: Option<real>,
    date: Option<Date>)

  /** One document of the user collection; `passwordHash` holds the hash,
      never the password. */
  datatype User = User(id: Id, username: string, passwordHash: string, preferredName: string)

  predicate NoDuplicates<T(==)>(xs: seq<T>) {
    forall i, j :: 0 <= i < j < |xs| ==> xs[i] != xs[j]
  }

  predicate IdsDistinct(rs: seq<Expense>) {
    forall i, j :: 0 <= i < j < |rs| ==> rs[i].id != rs[j].id
  }

  /** The distinct values of a column: each value once, nothing else. */
  function Distinct(xs: seq<string>): (r: seq<string>)
    ensures NoDuplicates(r)
    ensures forall x :: x in r <==> x in xs
    ensures |r| <= |xs|
  {
    if xs == [] then []
    else
      var init := xs[..|xs| - 1];
      var r := Distinct(init);
      assert xs == init + [xs[|xs| - 1]];
      if xs[|xs| - 1] in r then r else r + [xs[|xs| - 1]]
  }

  /** `distinct('Category')`: every category some expense carries. */
  function Categories(rs: seq<Expense>): (r: seq<string>)
    ensures NoDuplicates(r)
    ensures forall c :: c in r <==> exists e :: e in rs && e.category == c
  {
    var column := seq(|rs|, i requires 0 <= i < |rs| => rs[i].category);
    forall e | e in rs ensures e.category in column {
      var i :| 0 <= i < |rs| && rs[i] == e;
      assert column[i] == e.category;
    }
    Distinct(column)
  }

  /** `distinct('Description')`: every description some expense carries. */
  function Descriptions(rs: seq<Expense>): (r: seq<string>)
    ensures NoDuplicates(r)
    ensures forall c :: c in r <==> exists e :: e in rs && e.description == c
  {
    var column := seq(|rs|, i requires 0 <= i < |rs| => rs[i].description);
    forall e | e in rs ensures e.description in column {
      var i :| 0 <= i < |rs| && rs[i] == e;
      assert column[i] == e.description;
    }
    Distinct(column)
  }

  /** An id above every id in use: where the store's id allocation starts
      over a collection that already holds documents. */
  function NextFreeId(rs: seq<Expense>): (n: Id)
    ensures forall e :: e in rs ==> e.id < n
  {
    if rs == [] then 0
    else
      var m := NextFreeId(rs[1..]);
      if rs[0].id < m then m else rs[0].id + 1
  }

  /** Appending a record under the next free id keeps the ids distinct
      and below the advanced counter. */
  lemma AppendUnderFreshId(rs: seq<Expense>, e: Expense, next: Id)
    requires IdsDistinct(rs) && (forall x :: x in rs ==> x.id < next)
    requires e.id == next
    ensures IdsDistinct(rs + [e])
    ensures forall x :: x in rs + [e] ==> x.id < next + 1
  {
    forall i | 0 <= i < |rs| ensures (rs + [e])[i].id != e.id {
      assert rs[i] in rs;
    }
  }

  // ---------------------------------------------------------------------
  // Queries

  /** The fields an equality query can constrain. */
  datatype Field = CategoryField | DescriptionField

  /** A query document: each present field must equal its value. */
  type Query = map<Field, string>

  function FieldValue(e: Expense, f: Field): (v: string) {
    match f
    case CategoryField => e.category
    case DescriptionField => e.description
  }

  /** A record matches a query when it agrees with every field the query
      names; the empty query matches everything. */
  predicate Matches(e: Expense, q: Query)
    ensures q == map[] ==> Matches(e, q)
    ensures Matches(e, q) && CategoryField in q ==> e.category == q[CategoryField]
    ensures Matches(e, q) && DescriptionField in q ==> e.description == q[DescriptionField]
  {
    forall f :: f in q ==> FieldValue(e, f) == q[f]
  }

  /** `find(query)`: the matching records, in store order. */
  function Find(rs: seq<Expense>, q: Query): (r: seq<Expense>)
    ensures |r| <= |rs|
    ensures forall e :: e in r <==> e in rs && Matches(e, q)
  {
    if rs == [] then []
    else (if Matches(rs[0], q) then [rs[0]] else []) + Find(rs[1..], q)
  }

  /** A filter selection constrains its field only when it is present and
      non-empty. */
  predicate Constrains(sel: Option<string>)
    ensures sel == None || sel == Some("") ==> !Constrains(sel)
    ensures sel.Some? && |sel.value| > 0 ==> Constrains(sel)
  {
    sel.Some? && sel.value != ""
  }

  /** The meaning of the list filter: a logical AND over the selections
      that constrain. */
  predicate Selected(e: Expense, selCategory: Option<string>, selDescription: Option<string>)
    ensures !Constrains(selCategory) && !Constrains(selDescription) ==> Selected(e, selCategory, selDescription)
    ensures Selected(e, selCategory, selDescription) && Constrains(selCategory) ==> e.category == selCategory.value
    ensures Selected(e, selCategory, selDescription) && Constrains(selDescription) ==> e.description == selDescription.value
    ensures selCategory == Some(e.category) && selDescription == Some(e.description) ==> Selected(e, selCategory, selDescription)
  {
    && (Constrains(selCategory) ==> e.category == selCategory.value)
    && (Constrains(selDescription) ==> e.description == selDescription.value)
  }

  /** The records a filter selects, in store order: the reference
      definition the query-based listing is proved against. */
  function Filtered(rs: seq<Expense>, selCategory: Option<string>, selDescription: Option<string>): (r: seq<Expense>)
    ensures |r| <= |rs|
    ensures forall e :: e in r <==> e in rs && Selected(e, selCategory, selDescription)
  {
    if rs == [] then []
    else
      (if Selected(rs[0], selCategory, selDescription) then [rs[0]] else [])
      + Filtered(rs[1..], selCategory, selDescription)
  }

  /** A query that matches exactly the selected records finds exactly the
      filtered list, in the same order. */
  lemma {:induction false} FindIsFiltered(rs: seq<Expense>, q: Query, selCategory: Option<string>, selDescription: Option<string>)
    requires forall e :: Matches(e, q) <==> Selected(e, selCategory, selDescription)
    ensures Find(rs, q) == Filtered(rs, selCategory, selDescription)
  {
    if rs != [] {
      FindIsFiltered(rs[1..], q, selCategory, selDescription);
    }
  }

  /** With no constraining selection the filter keeps the whole store. */
  lemma {:induction false} UnfilteredIsEverything(rs: seq<Expense>, selCategory: Option<string>, selDescription: Option<string>)
    requires !Constrains(selCategory) && !Constrains(selDescription)
    ensures Filtered(rs, selCategory, selDescription) == rs
  {
    if rs != [] {
      UnfilteredIsEverything(rs[1..], selCategory, selDescription);
    }
  }

  // ---------------------------------------------------------------------
  // Deletion

  /** `delete_many({'_id': {'$in': ids}})`: the records whose id is not
      selected, in store order. */
  function DeleteMany(rs: seq<Expense>, ids: seq<Id>): (r: seq<Expense>)
    ensures |r| <= |rs|
    ensures forall e :: e in r <==> e in rs && e.id !in ids
  {
    if rs == [] then []
    else (if rs[0].id in ids then [] else [rs[0]]) + DeleteMany(rs[1..], ids)
  }

  /** Ids that match no record are ignored: deleting only such ids leaves
      the store as it was. */
  lemma {:induction false} DeleteUnmatchedIsNoop(rs: seq<Expense>, ids: seq<Id>)
    requires forall e :: e in rs ==> e.id !in ids
    ensures DeleteMany(rs, ids) == rs
  {
    if rs != [] {
      DeleteUnmatchedIsNoop(rs[1..], ids);
    }
  }

  /** Deletion keeps the survivors' ids distinct. */
  lemma {:induction false} DeleteKeepsIdsDistinct(rs: seq<Expense>, ids: seq<Id>)
    requires IdsDistinct(rs)
    ensures IdsDistinct(DeleteMany(rs, ids))
  {
    if rs != [] {
      var rest := rs[1..];
      assert IdsDistinct(rest);
      DeleteKeepsIdsDistinct(rest, ids);
      var tail := DeleteMany(rest, ids);
      forall e | e in tail ensures e.id != rs[0].id {
        var k :| 0 <= k < |rest| && rest[k] == e;
        assert rs[k + 1] == e;
      }
    }
  }

  /** Deleting a selection that names a record removes that record and
      shrinks the store. */
  lemma {:induction false} DeleteSelectedShrinks(rs: seq<Expense>, ids: seq<Id>, k: nat)
    requires k < |rs| && rs[k].id in ids
    ensures rs[k] !in DeleteMany(rs, ids)
    ensures |DeleteMany(rs, ids)| < |rs|
  {
    if k > 0 {
      DeleteSelectedShrinks(rs[1..], ids, k - 1);
    }
  }
}
