/** Properties that connect the endpoints: what a lookup sees after a
    refresh or a delete, and the derived-column invariant a refresh keeps. */
module EndpointProperties {
  import opened Wrappers
  import opened Text
  import opened Models
  import opened RefreshCountries
  import opened Queries

  /** After a successful refresh, every named entry can be retrieved by its
      name: the row carries the entry's first currency code, the rate the
      table lists for it, and a GDP exactly when it has a rate. A name that
      was already stored keeps its stored spelling and timestamp; a new one is
      spelled as in the entry and stamped `now`. */
  lemma RefreshThenRetrieve(store: Store, entries: seq<Entry>, payload: RatesPayload, ms: seq<int>,
                            now: int, k: nat)
    requires Mergeable(entries, RateTable(payload), ms) && DistinctNames(entries) && NamesUnique(store)
    requires k < |entries| && Named(entries[k])
    ensures var r := Refresh(store, Ok(entries), Ok(payload), ms, now);
      var e := entries[k];
      && r.Ok?
      && var found := Retrieve(r.value, e.name.value);
      && found.Ok?
      && found.value.currencyCode == FirstCode(e)
      && found.value.exchangeRate == RateOf(FirstCode(e), RateTable(payload))
      && GdpTracksRate(found.value)
      && Some(found.value.population) == e.population
      && (forall c :: c in store && IEquals(c.name, e.name.value) ==>
            found.value.name == c.name && found.value.lastRefreshedAt == c.lastRefreshedAt)
      && (!Known(store, e.name.value) ==> found.value.name == e.name.value && found.value.lastRefreshedAt == now)
  {
    var rates := RateTable(payload);
    var e := entries[k];
    var name := e.name.value;
    var s := Refresh(store, Ok(entries), Ok(payload), ms, now).value;
    var d := Derive(e, rates, ms[k]);
    if Known(store, name) {
      var i :| 0 <= i < |store| && IEquals(store[i].name, name);
      assert Names(entries, k, store[i].name);
      RefreshOverwritesMatched(store, entries, payload, ms, now, i, k);
      assert s[i] in s && IEquals(s[i].name, name);
      forall c | c in store && IEquals(c.name, name)
        ensures c == store[i]
      {
        var j :| 0 <= j < |store| && store[j] == c;
      }
    } else {
      RefreshAppendsUnknown(store, entries, payload, ms, now);
      var c := Create(name, d, now);
      assert c in s[|store|..];
      assert c in s && IEquals(c.name, name);
    }
  }

  /** A refresh keeps the invariant that a row has an estimated GDP exactly
      when it has an exchange rate. */
  lemma RefreshKeepsGdpTracksRate(store: Store, entries: seq<Entry>, payload: RatesPayload, ms: seq<int>,
                                  now: int)
    requires Mergeable(entries, RateTable(payload), ms) && DistinctNames(entries) && NamesUnique(store)
    requires forall c :: c in store ==> GdpTracksRate(c)
    ensures var r := Refresh(store, Ok(entries), Ok(payload), ms, now);
      r.Ok? && forall c :: c in r.value ==> GdpTracksRate(c)
  {
    var rates := RateTable(payload);
    RefreshAppendsUnknown(store, entries, payload, ms, now);
    var s := Refresh(store, Ok(entries), Ok(payload), ms, now).value;
    forall j | 0 <= j < |s|
      ensures GdpTracksRate(s[j])
    {
      if j < |store| {
        if k :| 0 <= k < |entries| && Names(entries, k, store[j].name) {
          RefreshOverwritesMatched(store, entries, payload, ms, now, j, k);
        } else {
          RefreshKeepsUnmatched(store, entries, payload, ms, now, j);
          assert store[j] in store;
        }
      } else {
        assert s[j] in s[|store|..];
        assert Created(store, entries, rates, ms, now, s[j]);
      }
    }
  }

  /** Once a delete succeeds, neither retrieve nor a second delete finds
      the name. */
  lemma DeleteThenRetrieve(store: Store, name: string)
    requires Delete(store, name).Ok?
    ensures Retrieve(Delete(store, name).value, name) == Err(NotFound)
    ensures Delete(Delete(store, name).value, name) == Err(NotFound)
  {
  }
}
