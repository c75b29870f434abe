/** The record store: one `Country` row per country, as the `Country` model
    declares it, and the case-insensitive lookup by name that every view uses. */
module Models {
  import opened Wrappers
  import opened Text

  /** One stored country. Nullable columns are `Option`s; decimals are reals;
      `lastRefreshedAt` is the `auto_now` timestamp, as an abstract tick count. */
  datatype Country = Country(
    name: string,
    capital: Option<string>,
    region: Option<string>,
    population: int,
    currencyCode: Option<string>,
    exchangeRate: Option<real>,
    estimatedGdp: Option<real>,
    flagUrl: Option<string>,
    lastRefreshedAt: int)

  /** The table, as the sequence of its rows in insertion order. */
  type Store = seq<Country>

  /** A row carries an estimated GDP exactly when it carries an exchange rate. */
  predicate GdpTracksRate(c: Country)
  {
    c.estimatedGdp.Some? <==> c.exchangeRate.Some?
  }

  /** Some stored row has `name`, ignoring case. */
  predicate Known(store: Store, name: string)
  {
    exists i :: 0 <= i < |store| && IEquals(store[i].name, name)
  }

  /** The store invariant the refresh maintains: no two rows share a name
      up to case, so every `name__iexact` lookup finds at most one row. */
  predicate NamesUnique(store: Store)
  {
    forall i, j :: 0 <= i < j < |store| ==> !IEquals(store[i].name, store[j].name)
  }

  /** The three outcomes of `Country.objects.get(name__iexact=...)`: no row
      (`DoesNotExist`), exactly one row, or several (`MultipleObjectsReturned`). */
  datatype Lookup = Absent | At(index: nat) | Ambiguous

  /** Case-insensitive lookup of a row by name. */
  function Find(store: Store, name: string): (r: Lookup)
    ensures r.Absent? <==> !Known(store, name)
    ensures r.At? ==> r.index < |store| && IEquals(store[r.index].name, name)
    ensures r.At? ==> forall j :: 0 <= j < |store| && j != r.index ==> !IEquals(store[j].name, name)
    ensures r.Ambiguous? ==>
      exists i, j :: 0 <= i < j < |store| && IEquals(store[i].name, name) && IEquals(store[j].name, name)
  {
    if |store| == 0 then Absent
    else
      var rest := Find(store[1..], name);
      if IEquals(store[0].name, name) then
        (if rest.Absent? then At(0) else Ambiguous)
      else
        match rest
        case At(i) => At(i + 1)
        case _ => rest
  }

  /** Under the store invariant a lookup is never ambiguous. */
  lemma FindUnique(store: Store, name: string)
    ensures NamesUnique(store) ==> !Find(store, name).Ambiguous?
    ensures NamesUnique(store) && Known(store, name) ==> Find(store, name).At?
  {
  }
}
