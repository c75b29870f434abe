/** The refresh job: both upstream fetches, then an all-or-nothing merge of
    the fetched country entries into the store, deriving the currency code,
    exchange rate and estimated GDP of every named entry. */
module RefreshCountries {
  import opened Wrappers
  import opened Text
  import opened Models

  /** One element of an entry's `currencies` list; only `code` is read. */
  datatype Currency = Currency(code: Option<string>)

  /** One element of the country-directory JSON array. `None` stands for a
      missing key or a JSON null. */
  datatype Entry = Entry(
    name: Option<string>,
    capital: Option<string>,
    region: Option<string>,
    population: Option<int>,
    flag: Option<string>,
    currencies: Option<seq<Currency>>)

  /** The rate-table JSON object; `rates` is `None` when the key is missing. */
  datatype RatesPayload = RatesPayload(rates: Option<map<string, real>>)

  /** Why a refresh committed nothing: an upstream fetch raised (the 503
      response, naming the source), or a name lookup hit several rows. */
  datatype RefreshError = Unavailable(source: string) | MultipleMatches(name: string)

  const CountrySource: string := "restcountries.com"
  const RateSource: string := "open.er-api.com"

  /** Bounds of `random.randint(1000, 2000)`, both inclusive. */
  const MinMultiplier: int := 1000
  const MaxMultiplier: int := 2000

  /** The text of the 503 response's `details`. */
  function Details(source: string): (text: string)
    ensures Contains(text, source)
  {
    var text := "Could not fetch data from " + source;
    assert text[26..][..|source|] == source;
    ContainsAt(text, source, 26);
    text
  }

  /** Which upstream a failed fetch is blamed on, decided from the text of
      the exception message alone. */
  function SourceOf(message: string): (source: string)
    ensures source == CountrySource <==> Contains(message, "restcountries")
    ensures source == CountrySource || source == RateSource
  {
    if Contains(message, "restcountries") then CountrySource
    else if Contains(message, "open.er-api") then RateSource
    else RateSource
  }

  /** `rates_data.get('rates', {})`. */
  function RateTable(p: RatesPayload): map<string, real>
  {
    match p.rates
    case Some(m) => m
    case None => map[]
  }

  /** The entry has a truthy name; all others are skipped. */
  predicate Named(e: Entry)
  {
    e.name.Some? && e.name.value != ""
  }

  /** The `code` of the first listed currency, if the list is non-empty. */
  function FirstCode(e: Entry): Option<string>
  {
    match e.currencies
    case Some(cs) => if |cs| > 0 then cs[0].code else None
    case None => None
  }

  /** The rate looked up for a code, when the code is truthy and listed. */
  function RateOf(code: Option<string>, rates: map<string, real>): Option<real>
  {
    if code.Some? && code.value != "" && code.value in rates then Some(rates[code.value]) else None
  }

  /** A named entry can be merged without raising: it has a population, and
      the rate it divides by is not zero. */
  predicate Computable(e: Entry, rates: map<string, real>)
  {
    Named(e) ==>
      && e.population.Some?
      && (RateOf(FirstCode(e), rates).Some? ==> RateOf(FirstCode(e), rates).value != 0.0)
  }

  predicate ValidMultiplier(m: int)
  {
    MinMultiplier <= m <= MaxMultiplier
  }

  /** The seven columns a refresh writes for one entry. */
  datatype Derived = Derived(
    capital: Option<string>,
    region: Option<string>,
    population: int,
    currencyCode: Option<string>,
    exchangeRate: Option<real>,
    estimatedGdp: Option<real>,
    flagUrl: Option<string>)

  /** The values a refresh computes for a named entry, given the drawn multiplier `m`. */
  function Derive(e: Entry, rates: map<string, real>, m: int): (d: Derived)
    requires Named(e) && Computable(e, rates)
    ensures Some(d.population) == e.population
    ensures d.capital == e.capital && d.region == e.region && d.flagUrl == e.flag
    ensures (e.currencies.None? || |e.currencies.value| == 0) ==> d.currencyCode.None?
    ensures e.currencies.Some? && |e.currencies.value| > 0 ==> d.currencyCode == e.currencies.value[0].code
    ensures d.exchangeRate.Some? <==>
      d.currencyCode.Some? && d.currencyCode.value != "" && d.currencyCode.value in rates
    ensures d.exchangeRate.Some? ==> d.exchangeRate.value == rates[d.currencyCode.value]
    ensures d.estimatedGdp.Some? <==> d.exchangeRate.Some?
    ensures d.estimatedGdp.Some? ==>
      d.estimatedGdp.value * d.exchangeRate.value == (d.population * m) as real
  {
    var code := FirstCode(e);
    var rate := RateOf(code, rates);
    var population := e.population.value;
    var gdp := if rate.Some? then Some((population * m) as real / rate.value) else None;
    Derived(e.capital, e.region, population, code, rate, gdp, e.flag)
  }

  /** With a positive rate and a non-negative population, the estimate lies
      between the values the smallest and the largest multiplier give. */
  lemma GdpWithinMultiplierBounds(e: Entry, rates: map<string, real>, m: int)
    requires Named(e) && Computable(e, rates) && ValidMultiplier(m)
    requires e.population.Some? && e.population.value >= 0
    ensures var d := Derive(e, rates, m);
      d.exchangeRate.Some? && d.exchangeRate.value > 0.0 ==>
        (e.population.value * MinMultiplier) as real / d.exchangeRate.value <= d.estimatedGdp.value
        <= (e.population.value * MaxMultiplier) as real / d.exchangeRate.value
  {
  }

  /** The row `get_or_create` inserts for an unknown name, stamped with `now`. */
  function Create(name: string, d: Derived, now: int): Country
  {
    Country(name, d.capital, d.region, d.population, d.currencyCode,
            d.exchangeRate, d.estimatedGdp, d.flagUrl, now)
  }

  /** The row after `bulk_update` of the seven listed columns: the stored name
      and timestamp are kept. */
  function Overwrite(c: Country, d: Derived): (r: Country)
    ensures r.name == c.name && r.lastRefreshedAt == c.lastRefreshedAt
  {
    c.(capital := d.capital, region := d.region, population := d.population,
       currencyCode := d.currencyCode, exchangeRate := d.exchangeRate,
       estimatedGdp := d.estimatedGdp, flagUrl := d.flagUrl)
  }

  /** One iteration of the merge loop: skip a nameless entry, otherwise
      create or overwrite the row matching its name up to case. */
  function MergeEntry(store: Store, e: Entry, rates: map<string, real>, m: int, now: int)
    : (r: Result<Store, RefreshError>)
    requires Computable(e, rates)
    ensures !Named(e) ==> r == Ok(store)
    ensures Named(e) ==> (r.Err? <==> Find(store, e.name.value).Ambiguous?)
    ensures r.Ok? ==> |store| <= |r.value| <= |store| + 1
    ensures r.Ok? ==> forall i :: 0 <= i < |store| ==>
      r.value[i].name == store[i].name && r.value[i].lastRefreshedAt == store[i].lastRefreshedAt
    ensures r.Ok? && NamesUnique(store) ==> NamesUnique(r.value)
  {
    if !Named(e) then Ok(store)
    else
      var name := e.name.value;
      var d := Derive(e, rates, m);
      match Find(store, name)
      case Absent => Ok(store + [Create(name, d, now)])
      case At(i) => Ok(store[i := Overwrite(store[i], d)])
      case Ambiguous => Err(MultipleMatches(name))
  }

  /** What a refresh demands of the fetched data: one multiplier per entry,
      each in range, and every named entry computable. */
  predicate Mergeable(entries: seq<Entry>, rates: map<string, real>, ms: seq<int>)
  {
    && |ms| == |entries|
    && (forall k :: 0 <= k < |ms| ==> ValidMultiplier(ms[k]))
    && (forall k :: 0 <= k < |entries| ==> Computable(entries[k], rates))
  }

  /** No two named entries share a name up to case. */
  predicate DistinctNames(entries: seq<Entry>)
  {
    forall i, j :: 0 <= i < j < |entries| && Named(entries[i]) && Named(entries[j]) ==>
      !IEquals(entries[i].name.value, entries[j].name.value)
  }

  /** The merge loop over all entries, in order; the first error aborts it.
      Entries sharing a name up to case are excluded. For a stored name the
      source hands both to one `bulk_update`, which writes only the first;
      for a new name the first creates the row and the second overwrites it. */
  function MergeAll(store: Store, entries: seq<Entry>, rates: map<string, real>, ms: seq<int>, now: int)
    : (r: Result<Store, RefreshError>)
    requires Mergeable(entries, rates, ms) && DistinctNames(entries)
    ensures NamesUnique(store) ==> r.Ok? && NamesUnique(r.value)
    ensures r.Ok? ==> |store| <= |r.value| <= |store| + |entries|
    ensures r.Ok? ==> forall i :: 0 <= i < |store| ==>
      r.value[i].name == store[i].name && r.value[i].lastRefreshedAt == store[i].lastRefreshedAt
    decreases |entries|
  {
    if |entries| == 0 then Ok(store)
    else
      var n := |entries| - 1;
      DistinctPrefix(entries, n);
      match MergeAll(store, entries[..n], rates, ms[..n], now)
      case Err(err) => Err(err)
      case Ok(s) =>
        MergeEntry(s, entries[n], rates, ms[n], now)
  }

  /** The refresh endpoint: fetch countries, then rates, then merge. A failed
      fetch becomes `Unavailable`, blamed on the upstream its message names;
      on any error nothing is written. */
  function Refresh(store: Store, countries: Result<seq<Entry>, string>, rates: Result<RatesPayload, string>,
                   ms: seq<int>, now: int): (r: Result<Store, RefreshError>)
    requires countries.Ok? && rates.Ok? ==>
      Mergeable(countries.value, RateTable(rates.value), ms) && DistinctNames(countries.value)
    ensures countries.Err? || rates.Err? ==>
      && r.Err? && r.error.Unavailable?
      && (r.error.source == CountrySource <==>
            Contains(if countries.Err? then countries.error else rates.error, "restcountries"))
    ensures countries.Ok? && rates.Ok? && NamesUnique(store) ==> r.Ok? && NamesUnique(r.value)
    ensures r.Ok? ==> |store| <= |r.value| && forall i :: 0 <= i < |store| ==>
      r.value[i].name == store[i].name && r.value[i].lastRefreshedAt == store[i].lastRefreshedAt
  {
    match countries
    case Err(message) => Err(Unavailable(SourceOf(message)))
    case Ok(entries) =>
      match rates
      case Err(message) => Err(Unavailable(SourceOf(message)))
      case Ok(payload) => MergeAll(store, entries, RateTable(payload), ms, now)
  }

  /** The store as committed: the merged store on success, the old one on error. */
  function Committed(store: Store, r: Result<Store, RefreshError>): Store
  {
    match r
    case Ok(s) => s
    case Err(_) => store
  }

  // ---------------------------------------------------------------------
  // Reference definition of a successful merge: every stored row is
  // overwritten by the entry that names it, and the entries naming no stored
  // row are appended as new rows, in entry order.
  // ---------------------------------------------------------------------

  /** Entry `k` is named and names `name` up to case. */
  predicate Names(entries: seq<Entry>, k: int, name: string)
    requires 0 <= k < |entries|
  {
    Named(entries[k]) && IEquals(entries[k].name.value, name)
  }

  /** A stored row after the merge: overwritten by the last entry naming it. */
  function UpdateRecord(c: Country, entries: seq<Entry>, rates: map<string, real>, ms: seq<int>): Country
    requires Mergeable(entries, rates, ms)
    decreases |entries|
  {
    if |entries| == 0 then c
    else
      var n := |entries| - 1;
      if Names(entries, n, c.name) then Overwrite(c, Derive(entries[n], rates, ms[n]))
      else UpdateRecord(c, entries[..n], rates, ms[..n])
  }

  /** The old rows, each updated by the entries. */
  function Updated(store: Store, entries: seq<Entry>, rates: map<string, real>, ms: seq<int>): (r: Store)
    requires Mergeable(entries, rates, ms)
    ensures |r| == |store|
  {
    seq(|store|, i requires 0 <= i < |store| => UpdateRecord(store[i], entries, rates, ms))
  }

  /** The new rows: one per named entry whose name no old row has. */
  function Fresh(store: Store, entries: seq<Entry>, rates: map<string, real>, ms: seq<int>, now: int): Store
    requires Mergeable(entries, rates, ms)
    decreases |entries|
  {
    if |entries| == 0 then []
    else
      var n := |entries| - 1;
      var e := entries[n];
      Fresh(store, entries[..n], rates, ms[..n], now)
        + (if Named(e) && !Known(store, e.name.value)
           then [Create(e.name.value, Derive(e, rates, ms[n]), now)] else [])
  }

  function Expected(store: Store, entries: seq<Entry>, rates: map<string, real>, ms: seq<int>, now: int): Store
    requires Mergeable(entries, rates, ms)
  {
    Updated(store, entries, rates, ms) + Fresh(store, entries, rates, ms, now)
  }

  /** Row `c` is the one created for entry `k`, a named entry no old row matches. */
  predicate IsCreation(store: Store, entries: seq<Entry>, rates: map<string, real>, ms: seq<int>, now: int,
                       k: int, c: Country)
    requires Mergeable(entries, rates, ms) && 0 <= k < |entries|
  {
    && Named(entries[k])
    && !Known(store, entries[k].name.value)
    && c == Create(entries[k].name.value, Derive(entries[k], rates, ms[k]), now)
  }

  /** Row `c` is the creation of some entry. */
  predicate Created(store: Store, entries: seq<Entry>, rates: map<string, real>, ms: seq<int>, now: int, c: Country)
    requires Mergeable(entries, rates, ms)
  {
    exists k :: 0 <= k < |entries| && IsCreation(store, entries, rates, ms, now, k, c)
  }

  /** Every fresh row is the creation of some named entry no old row matches. */
  lemma {:induction false} FreshFromEntries(store: Store, entries: seq<Entry>, rates: map<string, real>,
                                            ms: seq<int>, now: int)
    requires Mergeable(entries, rates, ms)
    ensures forall c :: c in Fresh(store, entries, rates, ms, now) ==> Created(store, entries, rates, ms, now, c)
    decreases |entries|
  {
    if |entries| > 0 {
      var n := |entries| - 1;
      var P, Q := entries[..n], ms[..n];
      FreshFromEntries(store, P, rates, Q, now);
      var F := Fresh(store, entries, rates, ms, now);
      var G := Fresh(store, P, rates, Q, now);
      forall c | c in F
        ensures Created(store, entries, rates, ms, now, c)
      {
        if c in G {
          var k :| 0 <= k < |P| && IsCreation(store, P, rates, Q, now, k, c);
          assert entries[k] == P[k] && ms[k] == Q[k];
          assert IsCreation(store, entries, rates, ms, now, k, c);
        } else {
          assert IsCreation(store, entries, rates, ms, now, n, c);
        }
      }
    } else {
      assert Fresh(store, entries, rates, ms, now) == [];
    }
  }

  /** Every named entry that no old row matches has its fresh row. */
  lemma {:induction false} EntriesInFresh(store: Store, entries: seq<Entry>, rates: map<string, real>,
                                          ms: seq<int>, now: int, k: nat)
    requires Mergeable(entries, rates, ms)
    requires k < |entries| && Named(entries[k]) && !Known(store, entries[k].name.value)
    ensures Create(entries[k].name.value, Derive(entries[k], rates, ms[k]), now) in Fresh(store, entries, rates, ms, now)
    decreases |entries|
  {
    var n := |entries| - 1;
    if k < n {
      EntriesInFresh(store, entries[..n], rates, ms[..n], now, k);
    }
  }

  /** A row no named entry matches is left as it was. */
  lemma {:induction false} UpdateRecordNoMatch(c: Country, entries: seq<Entry>, rates: map<string, real>, ms: seq<int>)
    requires Mergeable(entries, rates, ms)
    requires forall k :: 0 <= k < |entries| ==> !Names(entries, k, c.name)
    ensures UpdateRecord(c, entries, rates, ms) == c
    decreases |entries|
  {
    if |entries| > 0 {
      var n := |entries| - 1;
      forall k | 0 <= k < n
        ensures !Names(entries[..n], k, c.name)
      {
        assert entries[..n][k] == entries[k];
        assert !Names(entries, k, c.name);
      }
      UpdateRecordNoMatch(c, entries[..n], rates, ms[..n]);
    }
  }

  /** With distinct names, the row an entry matches is overwritten by that entry. */
  lemma {:induction false} UpdateRecordMatch(c: Country, entries: seq<Entry>, rates: map<string, real>,
                                             ms: seq<int>, k: nat)
    requires Mergeable(entries, rates, ms) && DistinctNames(entries)
    requires k < |entries| && Names(entries, k, c.name)
    ensures UpdateRecord(c, entries, rates, ms) == Overwrite(c, Derive(entries[k], rates, ms[k]))
    decreases |entries|
  {
    var n := |entries| - 1;
    if k < n {
      assert !Names(entries, n, c.name);
      UpdateRecordMatch(c, entries[..n], rates, ms[..n], k);
    }
  }

  /** Updating keeps a row's name and timestamp. */
  lemma {:induction false} UpdateRecordIdentity(c: Country, entries: seq<Entry>, rates: map<string, real>, ms: seq<int>)
    requires Mergeable(entries, rates, ms)
    ensures UpdateRecord(c, entries, rates, ms).name == c.name
    ensures UpdateRecord(c, entries, rates, ms).lastRefreshedAt == c.lastRefreshedAt
    decreases |entries|
  {
    if |entries| > 0 {
      var n := |entries| - 1;
      UpdateRecordIdentity(c, entries[..n], rates, ms[..n]);
    }
  }

  lemma DistinctPrefix(entries: seq<Entry>, n: nat)
    requires DistinctNames(entries) && n <= |entries|
    ensures DistinctNames(entries[..n])
  {
  }

  /** Overwriting depends only on the old row's name and timestamp. */
  lemma OverwriteIdentity(a: Country, b: Country, d: Derived)
    requires a.name == b.name && a.lastRefreshedAt == b.lastRefreshedAt
    ensures Overwrite(a, d) == Overwrite(b, d)
  {
  }

  /** Updating keeps every old row's name and timestamp, position by position. */
  lemma UpdatedIdentity(store: Store, entries: seq<Entry>, rates: map<string, real>, ms: seq<int>)
    requires Mergeable(entries, rates, ms)
    ensures forall i :: 0 <= i < |store| ==>
      Updated(store, entries, rates, ms)[i].name == store[i].name &&
      Updated(store, entries, rates, ms)[i].lastRefreshedAt == store[i].lastRefreshedAt
  {
    forall i | 0 <= i < |store|
      ensures UpdateRecord(store[i], entries, rates, ms).name == store[i].name
      ensures UpdateRecord(store[i], entries, rates, ms).lastRefreshedAt == store[i].lastRefreshedAt
    {
      UpdateRecordIdentity(store[i], entries, rates, ms);
    }
  }

  /** A name no entry carries is carried by no fresh row. */
  lemma FreshAvoids(store: Store, entries: seq<Entry>, rates: map<string, real>, ms: seq<int>, now: int,
                    name: string)
    requires Mergeable(entries, rates, ms)
    requires forall k :: 0 <= k < |entries| ==> !Names(entries, k, name)
    ensures forall c :: c in Fresh(store, entries, rates, ms, now) ==> !IEquals(c.name, name)
  {
    FreshFromEntries(store, entries, rates, ms, now);
    forall c | c in Fresh(store, entries, rates, ms, now)
      ensures !IEquals(c.name, name)
    {
      assert Created(store, entries, rates, ms, now, c);
      var k :| 0 <= k < |entries| && IsCreation(store, entries, rates, ms, now, k, c);
      assert !Names(entries, k, name);
    }
  }

  /** With distinct names, the last entry's name is carried by no earlier entry. */
  lemma LastIsNew(entries: seq<Entry>, n: nat)
    requires DistinctNames(entries) && n == |entries| - 1 && Named(entries[n])
    ensures forall k :: 0 <= k < n ==> !Names(entries[..n], k, entries[n].name.value)
  {
    forall k | 0 <= k < n
      ensures !Names(entries[..n], k, entries[n].name.value)
    {
      assert entries[..n][k] == entries[k];
    }
  }

  /** Merge step for a named entry whose name an old row has: that row,
      at index `i`, is overwritten and nothing is appended. */
  lemma {:induction false} StepKnown(store: Store, entries: seq<Entry>, rates: map<string, real>,
                                     ms: seq<int>, now: int, i: nat)
    requires Mergeable(entries, rates, ms) && DistinctNames(entries) && NamesUnique(store)
    requires |entries| > 0 && Named(entries[|entries| - 1])
    requires i < |store| && IEquals(store[i].name, entries[|entries| - 1].name.value)
    requires NamesUnique(Expected(store, entries[..|entries| - 1], rates, ms[..|entries| - 1], now))
    ensures MergeEntry(Expected(store, entries[..|entries| - 1], rates, ms[..|entries| - 1], now),
                       entries[|entries| - 1], rates, ms[|entries| - 1], now)
            == Ok(Expected(store, entries, rates, ms, now))
  {
    var n := |entries| - 1;
    var P, Q := entries[..n], ms[..n];
    var e := entries[n];
    var name := e.name.value;
    var d := Derive(e, rates, ms[n]);
    var U := Updated(store, P, rates, Q);
    var F := Fresh(store, P, rates, Q, now);
    var R := U + F;
    UpdatedIdentity(store, P, rates, Q);
    LastIsNew(entries, n);
    FreshAvoids(store, P, rates, Q, now, name);
    forall j | 0 <= j < |R| && j != i
      ensures !IEquals(R[j].name, name)
    {
      if j < |store| {
        assert !IEquals(store[i].name, store[j].name);
      } else {
        assert R[j] in F;
      }
    }
    assert IEquals(R[i].name, name);
    assert Find(R, name) == At(i);
    var S := R[i := Overwrite(R[i], d)];
    OverwriteIdentity(R[i], store[i], d);
    forall j | 0 <= j < |store|
      ensures UpdateRecord(store[j], entries, rates, ms) == S[j]
    {
      if j != i {
        assert !IEquals(store[i].name, store[j].name);
      }
    }
    assert Updated(store, entries, rates, ms) == S[..|store|];
    assert Fresh(store, entries, rates, ms, now) == F;
    assert S == S[..|store|] + F;
  }

  /** Merge step for a named entry whose name no old row has: a new row is
      appended and the old rows are kept. */
  lemma {:induction false} StepUnknown(store: Store, entries: seq<Entry>, rates: map<string, real>,
                                       ms: seq<int>, now: int)
    requires Mergeable(entries, rates, ms) && DistinctNames(entries)
    requires |entries| > 0 && Named(entries[|entries| - 1])
    requires !Known(store, entries[|entries| - 1].name.value)
    ensures MergeEntry(Expected(store, entries[..|entries| - 1], rates, ms[..|entries| - 1], now),
                       entries[|entries| - 1], rates, ms[|entries| - 1], now)
            == Ok(Expected(store, entries, rates, ms, now))
  {
    var n := |entries| - 1;
    var P, Q := entries[..n], ms[..n];
    var e := entries[n];
    var name := e.name.value;
    var d := Derive(e, rates, ms[n]);
    var U := Updated(store, P, rates, Q);
    var F := Fresh(store, P, rates, Q, now);
    var R := U + F;
    UpdatedIdentity(store, P, rates, Q);
    LastIsNew(entries, n);
    FreshAvoids(store, P, rates, Q, now, name);
    forall j | 0 <= j < |R|
      ensures !IEquals(R[j].name, name)
    {
      if j >= |store| {
        assert R[j] in F;
      }
    }
    assert Find(R, name) == Absent;
    forall j | 0 <= j < |store|
      ensures UpdateRecord(store[j], entries, rates, ms) == U[j]
    {
      assert !IEquals(store[j].name, name);
    }
    assert Updated(store, entries, rates, ms) == U;
    assert Fresh(store, entries, rates, ms, now) == F + [Create(name, d, now)];
    assert MergeEntry(R, e, rates, ms[n], now) == Ok(R + [Create(name, d, now)]);
    assert R + [Create(name, d, now)] == U + (F + [Create(name, d, now)]);
  }

  /** Merge step for a nameless entry: nothing changes. */
  lemma StepNameless(store: Store, entries: seq<Entry>, rates: map<string, real>, ms: seq<int>, now: int)
    requires Mergeable(entries, rates, ms)
    requires |entries| > 0 && !Named(entries[|entries| - 1])
    ensures Expected(store, entries[..|entries| - 1], rates, ms[..|entries| - 1], now)
            == Expected(store, entries, rates, ms, now)
  {
    var n := |entries| - 1;
    assert Updated(store, entries, rates, ms) == Updated(store, entries[..n], rates, ms[..n]);
  }

  /** The merge fold computes the reference store, and the result keeps
      names unique. */
  lemma {:induction false} MergeAllIsExpected(store: Store, entries: seq<Entry>, rates: map<string, real>,
                                              ms: seq<int>, now: int)
    requires Mergeable(entries, rates, ms) && DistinctNames(entries) && NamesUnique(store)
    ensures MergeAll(store, entries, rates, ms, now) == Ok(Expected(store, entries, rates, ms, now))
    ensures NamesUnique(Expected(store, entries, rates, ms, now))
    decreases |entries|
  {
    if |entries| == 0 {
      assert Updated(store, entries, rates, ms) == store;
      assert Fresh(store, entries, rates, ms, now) == [];
      assert Expected(store, entries, rates, ms, now) == store;
    } else {
      var n := |entries| - 1;
      DistinctPrefix(entries, n);
      MergeAllIsExpected(store, entries[..n], rates, ms[..n], now);
      var R := Expected(store, entries[..n], rates, ms[..n], now);
      assert MergeAll(store, entries, rates, ms, now) == MergeEntry(R, entries[n], rates, ms[n], now);
      if !Named(entries[n]) {
        StepNameless(store, entries, rates, ms, now);
      } else if Known(store, entries[n].name.value) {
        var i :| 0 <= i < |store| && IEquals(store[i].name, entries[n].name.value);
        StepKnown(store, entries, rates, ms, now, i);
      } else {
        StepUnknown(store, entries, rates, ms, now);
      }
    }
  }

  // ---------------------------------------------------------------------
  // Properties of a refresh
  // ---------------------------------------------------------------------

  /** A failed fetch commits nothing and reports the upstream named by the
      exception message: the country directory exactly when the message
      mentions "restcountries", the rate table otherwise. */
  lemma FetchFailureCommitsNothing(store: Store, countries: Result<seq<Entry>, string>,
                                   rates: Result<RatesPayload, string>, ms: seq<int>, now: int)
    requires countries.Err? || rates.Err?
    ensures var r := Refresh(store, countries, rates, ms, now);
      var message := if countries.Err? then countries.error else rates.error;
      && r.Err? && r.error.Unavailable?
      && Committed(store, r) == store
      && (r.error.source == CountrySource <==> Contains(message, "restcountries"))
      && (r.error.source == CountrySource || r.error.source == RateSource)
      && Contains(Details(r.error.source), r.error.source)
  {
  }

  /** The two failures exercised by the service's tests: a country-directory
      timeout naming restcountries.com, whatever the rate fetch would give,
      and a rate-table failure whose message names no host, which falls back
      to open.er-api.com. */
  lemma TestedFailureMessages(store: Store, entries: seq<Entry>, rates: Result<RatesPayload, string>,
                              ms: seq<int>, now: int)
    ensures Refresh(store, Err("Connection timeout from restcountries.com"), rates, ms, now)
            == Err(Unavailable(CountrySource))
    ensures Refresh(store, Ok(entries), Err("API error"), ms, now) == Err(Unavailable(RateSource))
  {
    var timeout := "Connection timeout from restcountries.com";
    assert timeout[24..][..13] == "restcountries";
    ContainsAt(timeout, "restcountries", 24);
    ShorterLacks("API error", "restcountries");
  }

  /** Entries without a name are skipped: if no entry is named, the merge
      writes nothing. */
  lemma {:induction false} NamelessEntriesChangeNothing(store: Store, entries: seq<Entry>,
                                                        rates: map<string, real>, ms: seq<int>, now: int)
    requires Mergeable(entries, rates, ms)
    requires forall k :: 0 <= k < |entries| ==> !Named(entries[k])
    ensures MergeAll(store, entries, rates, ms, now) == Ok(store)
    decreases |entries|
  {
    if |entries| > 0 {
      var n := |entries| - 1;
      NamelessEntriesChangeNothing(store, entries[..n], rates, ms[..n], now);
    }
  }

  /** A row whose name an entry carries, up to case, gets exactly the seven
      derived columns of that entry; its name and timestamp stay. */
  lemma RefreshOverwritesMatched(store: Store, entries: seq<Entry>, payload: RatesPayload, ms: seq<int>,
                                 now: int, i: nat, k: nat)
    requires Mergeable(entries, RateTable(payload), ms) && DistinctNames(entries) && NamesUnique(store)
    requires i < |store| && k < |entries| && Names(entries, k, store[i].name)
    ensures var r := Refresh(store, Ok(entries), Ok(payload), ms, now);
      var d := Derive(entries[k], RateTable(payload), ms[k]);
      && r.Ok? && i < |r.value|
      && r.value[i] == Country(store[i].name, d.capital, d.region, d.population, d.currencyCode,
                               d.exchangeRate, d.estimatedGdp, d.flagUrl, store[i].lastRefreshedAt)
  {
    var rates := RateTable(payload);
    MergeAllIsExpected(store, entries, rates, ms, now);
    UpdateRecordMatch(store[i], entries, rates, ms, k);
  }

  /** A row whose name no entry carries is left exactly as it was. */
  lemma RefreshKeepsUnmatched(store: Store, entries: seq<Entry>, payload: RatesPayload, ms: seq<int>,
                              now: int, i: nat)
    requires Mergeable(entries, RateTable(payload), ms) && DistinctNames(entries) && NamesUnique(store)
    requires i < |store| && forall k :: 0 <= k < |entries| ==> !Names(entries, k, store[i].name)
    ensures var r := Refresh(store, Ok(entries), Ok(payload), ms, now);
      r.Ok? && i < |r.value| && r.value[i] == store[i]
  {
    var rates := RateTable(payload);
    MergeAllIsExpected(store, entries, rates, ms, now);
    UpdateRecordNoMatch(store[i], entries, rates, ms);
  }

  /** The rows after the old ones are exactly the creations, stamped `now`
      and spelled as in the entry, of the named entries that match no old row. */
  lemma RefreshAppendsUnknown(store: Store, entries: seq<Entry>, payload: RatesPayload, ms: seq<int>, now: int)
    requires Mergeable(entries, RateTable(payload), ms) && DistinctNames(entries) && NamesUnique(store)
    ensures var r := Refresh(store, Ok(entries), Ok(payload), ms, now);
      && r.Ok? && |store| <= |r.value|
      && (forall c :: c in r.value[|store|..] ==> Created(store, entries, RateTable(payload), ms, now, c))
      && (forall k :: 0 <= k < |entries| && Named(entries[k]) && !Known(store, entries[k].name.value) ==>
            Create(entries[k].name.value, Derive(entries[k], RateTable(payload), ms[k]), now) in r.value[|store|..])
  {
    var rates := RateTable(payload);
    MergeAllIsExpected(store, entries, rates, ms, now);
    FreshFromEntries(store, entries, rates, ms, now);
    var r := Expected(store, entries, rates, ms, now);
    assert r[|store|..] == Fresh(store, entries, rates, ms, now);
    forall k | 0 <= k < |entries| && Named(entries[k]) && !Known(store, entries[k].name.value)
      ensures Create(entries[k].name.value, Derive(entries[k], rates, ms[k]), now) in r[|store|..]
    {
      EntriesInFresh(store, entries, rates, ms, now, k);
    }
  }
}
