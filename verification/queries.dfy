/** The read and delete endpoints over the store: list with case-insensitive
    filters and three orderings, retrieve and delete by name ignoring case,
    and the status summary. */
module Queries {
  import opened Wrappers
  import opened Text
  import opened Models

  // ---------------------------------------------------------------------
  // Listing
  // ---------------------------------------------------------------------

  /** A query parameter constrains the result only when it is present and
      non-empty. */
  predicate Given(param: Option<string>)
  {
    param.Some? && param.value != ""
  }

  /** `column__iexact=param` when the parameter is given; a null column
      never matches. */
  predicate ColumnMatches(column: Option<string>, param: Option<string>)
  {
    !Given(param) || (column.Some? && IEquals(column.value, param.value))
  }

  /** A row passes both filters of the list endpoint. */
  predicate Selected(c: Country, region: Option<string>, currency: Option<string>)
  {
    ColumnMatches(c.region, region) && ColumnMatches(c.currencyCode, currency)
  }

  /** The rows that pass the filters, in store order; each row occurs as
      often as in the store if selected, and not at all otherwise. */
  function Filter(store: Store, region: Option<string>, currency: Option<string>): (r: Store)
    ensures forall c :: multiset(r)[c] == if Selected(c, region, currency) then multiset(store)[c] else 0
    ensures |r| <= |store|
  {
    if |store| == 0 then []
    else
      assert store == [store[0]] + store[1..];
      (if Selected(store[0], region, currency) then [store[0]] else []) + Filter(store[1..], region, currency)
  }

  /** The three orderings of the list endpoint. */
  datatype Ordering = GdpDesc | GdpAsc | ByName

  function OrderingOf(sort: Option<string>): Ordering
  {
    if sort == Some("gdp_desc") then GdpDesc
    else if sort == Some("gdp_asc") then GdpAsc
    else ByName
  }

  /** Order on nullable GDP values: null sorts below every number. */
  predicate GdpLe(a: Option<real>, b: Option<real>)
  {
    a.None? || (b.Some? && a.value <= b.value)
  }

  /** `a` may come before `b` in the given ordering. */
  predicate Before(o: Ordering, a: Country, b: Country)
  {
    match o
    case GdpDesc => GdpLe(b.estimatedGdp, a.estimatedGdp)
    case GdpAsc => GdpLe(a.estimatedGdp, b.estimatedGdp)
    case ByName => StrLe(a.name, b.name)
  }

  /** Every pair of rows is in order. */
  predicate Sorted(o: Ordering, s: Store)
  {
    forall i, j :: 0 <= i < j < |s| ==> Before(o, s[i], s[j])
  }

  /** Each ordering relates any two rows one way or the other. */
  lemma BeforeTotal(o: Ordering, a: Country, b: Country)
    ensures Before(o, a, b) || Before(o, b, a)
  {
    if o == ByName {
      StrLeTotal(a.name, b.name);
    }
  }

  /** Each ordering is transitive. */
  lemma BeforeTrans(o: Ordering, a: Country, b: Country, c: Country)
    requires Before(o, a, b) && Before(o, b, c)
    ensures Before(o, a, c)
  {
    if o == ByName {
      StrLeTrans(a.name, b.name, c.name);
    }
  }

  /** The head of a sorted sequence comes before every later element. */
  lemma HeadFirst(o: Ordering, s: Store, x: Country)
    requires Sorted(o, s) && |s| > 0 && x in s[1..]
    ensures Before(o, s[0], x)
  {
  }

  /** Inserts `c` into a sorted sequence, before the first row it may precede. */
  function Insert(o: Ordering, c: Country, s: Store): (r: Store)
    requires Sorted(o, s)
    ensures Sorted(o, r)
    ensures multiset(r) == multiset(s) + multiset{c}
    decreases |s|
  {
    if |s| == 0 then [c]
    else if Before(o, c, s[0]) then
      assert forall x :: x in s ==> Before(o, c, x) by {
        forall x | x in s
          ensures Before(o, c, x)
        {
          if x != s[0] {
            assert x in s[1..];
            HeadFirst(o, s, x);
            BeforeTrans(o, c, s[0], x);
          }
        }
      }
      [c] + s
    else
      var rest := Insert(o, c, s[1..]);
      assert s == [s[0]] + s[1..];
      assert forall x :: x in rest ==> Before(o, s[0], x) by {
        forall x | x in rest
          ensures Before(o, s[0], x)
        {
          assert x in multiset(rest);
          if x == c {
            BeforeTotal(o, c, s[0]);
          } else {
            assert x in multiset(s[1..]);
            HeadFirst(o, s, x);
          }
        }
      }
      [s[0]] + rest
  }

  /** Insertion sort: an ordered permutation of its input. */
  function Sort(o: Ordering, s: Store): (r: Store)
    ensures Sorted(o, r)
    ensures multiset(r) == multiset(s)
    decreases |s|
  {
    if |s| == 0 then []
    else
      assert s == [s[0]] + s[1..];
      Insert(o, s[0], Sort(o, s[1..]))
  }

  /** The list endpoint: the filtered rows, ordered by the `sort` parameter.
      Rows equal under the chosen order may come in any order in the source;
      the model fixes one such order. */
  function List(store: Store, region: Option<string>, currency: Option<string>, sort: Option<string>)
    : (r: Store)
    ensures forall c :: multiset(r)[c] == if Selected(c, region, currency) then multiset(store)[c] else 0
    ensures forall c :: c in r <==> c in store && Selected(c, region, currency)
    ensures sort == Some("gdp_desc") ==>
      forall i, j :: 0 <= i < j < |r| ==> GdpLe(r[j].estimatedGdp, r[i].estimatedGdp)
    ensures sort == Some("gdp_asc") ==>
      forall i, j :: 0 <= i < j < |r| ==> GdpLe(r[i].estimatedGdp, r[j].estimatedGdp)
    ensures sort != Some("gdp_desc") && sort != Some("gdp_asc") ==>
      forall i, j :: 0 <= i < j < |r| ==> StrLe(r[i].name, r[j].name)
  {
    var o := OrderingOf(sort);
    var r := Sort(o, Filter(store, region, currency));
    assert forall c :: c in r <==> multiset(r)[c] > 0;
    assert forall c :: c in store <==> multiset(store)[c] > 0;
    r
  }

  // ---------------------------------------------------------------------
  // Retrieve and delete by name
  // ---------------------------------------------------------------------

  /** `DoesNotExist` (the 404 response) or `MultipleObjectsReturned`. */
  datatype QueryError = NotFound | MultipleMatches

  /** The retrieve endpoint: the one row whose name matches, ignoring case. */
  function Retrieve(store: Store, name: string): (r: Result<Country, QueryError>)
    ensures r == Err(NotFound) <==> !Known(store, name)
    ensures r.Ok? ==> r.value in store && IEquals(r.value.name, name)
    ensures r.Ok? ==> forall c :: c in store && IEquals(c.name, name) ==> c == r.value
    ensures r == Err(MultipleMatches) ==>
      exists i, j :: 0 <= i < j < |store| && IEquals(store[i].name, name) && IEquals(store[j].name, name)
    ensures NamesUnique(store) && Known(store, name) ==> r.Ok?
  {
    FindUnique(store, name);
    match Find(store, name)
    case Absent => Err(NotFound)
    case At(i) =>
      assert forall c :: c in store && IEquals(c.name, name) ==> c == store[i];
      Ok(store[i])
    case Ambiguous => Err(MultipleMatches)
  }

  /** The delete endpoint: removes the one row whose name matches, ignoring
      case, and keeps every other row in order. */
  function Delete(store: Store, name: string): (r: Result<Store, QueryError>)
    ensures r == Err(NotFound) <==> !Known(store, name)
    ensures r.Ok? ==> |r.value| == |store| - 1 && !Known(r.value, name)
    ensures r.Ok? ==>
      exists i :: 0 <= i < |store| && IEquals(store[i].name, name) && r.value == store[..i] + store[i + 1..]
    ensures r == Err(MultipleMatches) ==>
      exists i, j :: 0 <= i < j < |store| && IEquals(store[i].name, name) && IEquals(store[j].name, name)
    ensures NamesUnique(store) && Known(store, name) ==> r.Ok?
  {
    FindUnique(store, name);
    match Find(store, name)
    case Absent => Err(NotFound)
    case At(i) =>
      var rest := store[..i] + store[i + 1..];
      assert forall j :: 0 <= j < |rest| ==> rest[j] == store[if j < i then j else j + 1];
      Ok(rest)
    case Ambiguous => Err(MultipleMatches)
  }

  /** Deleting a name twice: the second delete finds nothing. */
  lemma DeleteTwice(store: Store, name: string)
    requires Delete(store, name).Ok?
    ensures Delete(Delete(store, name).value, name) == Err(NotFound)
  {
  }

  /** A delete keeps the store invariant and every row of another name. */
  lemma DeleteKeepsOthers(store: Store, name: string)
    requires NamesUnique(store) && Delete(store, name).Ok?
    ensures NamesUnique(Delete(store, name).value)
    ensures forall c :: c in store && !IEquals(c.name, name) ==> c in Delete(store, name).value
    ensures forall c :: c in Delete(store, name).value ==> c in store
  {
  }

  // ---------------------------------------------------------------------
  // Status
  // ---------------------------------------------------------------------

  /** The most recent `last_refreshed_at`, or null for an empty store. */
  function Latest(store: Store): (r: Option<int>)
    ensures r.None? <==> |store| == 0
    ensures r.Some? ==> exists i :: 0 <= i < |store| && store[i].lastRefreshedAt == r.value
    ensures r.Some? ==> forall i :: 0 <= i < |store| ==> store[i].lastRefreshedAt <= r.value
  {
    if |store| == 0 then None
    else
      match Latest(store[1..])
      case None => Some(store[0].lastRefreshedAt)
      case Some(t) =>
        Some(if store[0].lastRefreshedAt >= t then store[0].lastRefreshedAt else t)
  }

  datatype StatusReport = StatusReport(totalCountries: nat, lastRefreshedAt: Option<int>)

  /** The status endpoint: the row count and the latest refresh time. */
  function Status(store: Store): (r: StatusReport)
    ensures r.totalCountries == |store|
    ensures r.lastRefreshedAt.None? <==> |store| == 0
    ensures r.lastRefreshedAt.Some? ==>
      (exists c :: c in store && c.lastRefreshedAt == r.lastRefreshedAt.value) &&
      forall c :: c in store ==> c.lastRefreshedAt <= r.lastRefreshedAt.value
  {
    StatusReport(|store|, Latest(store))
  }
}
