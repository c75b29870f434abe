# Country store — Dafny model

A model of the country service of a small Django REST application. The
service pulls a country directory and a currency exchange-rate table from two
upstream APIs, merges them into a table of `Country` rows (deriving a currency
code, an exchange rate and an estimated GDP for each country), and answers
list, retrieve and status requests over the table. Its code also holds a delete
view, which the URL table shadows (see "## Left out"), and a serializer hook
that checks the mandatory fields of incoming data, which no endpoint calls.

The model treats the table as an immutable sequence of `Country` records and
every endpoint as a pure function over it:

- `wrappers.dfy` — `Option` (null / missing) and `Result` (value or error).
- `text.dfy` — ASCII lower-casing and the case-insensitive equality that stands
  for `__iexact`, Python's substring test, and the code-point order of names.
- `models.dfy` — the `Country` record (the columns of the `Country` model), the
  store, the uniqueness invariant on names up to case, and the lookup by name
  with its three outcomes (no row, one row, several rows).
- `refresh.dfy` — the refresh endpoint: the two fetch outcomes as inputs, the
  blame of a failed fetch on an upstream, the derived columns, the upsert of
  one entry, the merge loop as a fold, and a reference definition of the merged
  store (old rows overwritten by the entry naming them, unknown names appended
  in entry order) proved equal to the fold.
- `queries.dfy` — the list filters and orderings (an insertion sort proved to
  return an ordered permutation), retrieve, delete and status.
- `serializers.dfy` — `validate` and the representation step.
- `endpoint_properties.dfy` — properties that connect endpoints: a refreshed name can be
  retrieved with the derived columns, the GDP/rate invariant survives a refresh,
  a deleted name is gone.

The randomness of the refresh is a parameter: `ms[k]` is the multiplier drawn
for entry `k`, required to lie in [1000, 2000]. The clock is the parameter
`now`. The fetches are inputs of type `Result<seq<Entry>, string>` and
`Result<RatesPayload, string>`, the error string being the exception message.

Three behaviours of the code that the model keeps as they are:

- An existing row that a refresh updates keeps its old `last_refreshed_at`:
  `bulk_update` writes only the seven listed columns and does not apply
  `auto_now`. Only newly created rows are stamped with `now`.
- A failed fetch is blamed on an upstream by the text of the exception message
  (`restcountries.com` exactly when the message contains `restcountries`,
  `open.er-api.com` otherwise), not by which call failed. A country-directory
  failure whose message does not mention `restcountries` is reported as a
  rate-table failure.
- The estimate is computed whenever the currency code has a rate, with no guard
  for a missing population or a zero rate; the model requires both away.

## Model

| member | source | states |
|---|---|---|
| Models.Find | countries/views.py:153 | a lookup by name ignoring case yields no row exactly when no row matches, the single matching row when exactly one matches, and an ambiguity only when two rows match |
| Models.FindUnique | countries/views.py:57-58 | when stored names are unique up to case, a name lookup is never ambiguous and finds a row for every known name |
| RefreshCountries.SourceOf | countries/views.py:89-96 | a fetch failure is blamed on restcountries.com exactly when its message contains "restcountries", otherwise on open.er-api.com |
| RefreshCountries.Details | countries/views.py:97 | the 503 details text names the blamed source |
| RefreshCountries.Refresh | countries/views.py:18-97 | a failed fetch, countries checked first, gives an Unavailable error blamed on restcountries.com exactly when the failing fetch's message contains "restcountries"; with both fetches successful and stored names unique up to case the merge succeeds and keeps them unique; a success keeps every old row in place with its name and timestamp |
| RefreshCountries.MergeAll | countries/views.py:31-82 | over distinct-named entries the loop never fails on a store with unique names and keeps them unique; a success adds at most one row per entry and keeps old rows in place with their names and timestamps |
| RefreshCountries.FetchFailureCommitsNothing | countries/views.py:19-31 | if either fetch fails the refresh is an Unavailable error, the committed store is the old one, the named source follows the message of the failing fetch, and the details text names that source |
| RefreshCountries.TestedFailureMessages | countries/tests.py:57-104 | a countries failure "Connection timeout from restcountries.com" is blamed on restcountries.com whatever the rate fetch gives; a rate failure "API error" after a successful countries fetch falls back to open.er-api.com |
| RefreshCountries.Derive | countries/views.py:40-55 | capital, region, population and flag are copied; the currency code is the first listed currency's code or null; the rate is set exactly when that code is non-empty and in the rate table, and equals its entry; the GDP is set exactly when the rate is, and GDP times rate equals population times the multiplier |
| RefreshCountries.GdpWithinMultiplierBounds | countries/views.py:53-55 | with a positive rate and non-negative population the estimate lies between population*1000/rate and population*2000/rate |
| RefreshCountries.MergeEntry | countries/views.py:35-79 | an entry without a truthy name changes nothing; a named entry fails only on an ambiguous lookup; otherwise at most one row is added, old rows keep position, name and timestamp, and unique names stay unique |
| RefreshCountries.NamelessEntriesChangeNothing | countries/views.py:35-38 | a merge over entries none of which has a name leaves the store exactly as it was |
| RefreshCountries.MergeAllIsExpected | countries/views.py:31-82 | the merge loop over distinct-named entries succeeds on a store with unique names and yields exactly the reference store (old rows updated by the entry naming them, then one new row per unknown named entry in entry order), whose names are unique |
| RefreshCountries.RefreshOverwritesMatched | countries/views.py:71-82 | a stored row named by an entry, ignoring case, ends with exactly that entry's seven derived columns and its own stored name and timestamp |
| RefreshCountries.RefreshKeepsUnmatched | countries/views.py:57-82 | a stored row that no entry names is unchanged by the refresh |
| RefreshCountries.RefreshAppendsUnknown | countries/views.py:57-69 | the rows after the old ones are exactly creations of named entries matching no old row, spelled as the entry spells them and stamped now, and every such entry has its row |
| Queries.Filter | countries/views.py:131-137 | each row is kept, as often as it is stored, exactly when its region and currency code equal the given parameters ignoring case; an absent or empty parameter imposes nothing |
| Queries.Sort | countries/views.py:139-145 | the result is ordered by the chosen key and is a permutation of the input |
| Queries.List | countries/views.py:127-148 | the result is a permutation of the filtered rows, non-increasing in GDP for gdp_desc, non-decreasing for gdp_asc, ascending by name for any other sort value, null GDP lowest |
| Queries.Retrieve | countries/views.py:150-157 | NotFound exactly when no row matches the name ignoring case; otherwise the one stored row that matches; never ambiguous on a store with unique names |
| Queries.Delete | countries/views.py:159-166 | NotFound exactly when no row matches; a success removes exactly one matching row, keeps the rest in order, and leaves no row of that name |
| Queries.DeleteTwice | countries/views.py:159-166 | after a successful delete, deleting the same name again yields NotFound |
| Queries.DeleteKeepsOthers | countries/views.py:162-163 | a delete keeps every row of another name, adds nothing, and preserves unique names |
| Queries.Latest | countries/views.py:171-172 | the latest timestamp is null exactly for an empty store and otherwise is some row's timestamp and at least every row's |
| Queries.Status | countries/views.py:168-176 | the count is the number of rows; the timestamp is null exactly when the store is empty, and otherwise the maximum refresh time over the rows |
| Serializers.Validate | countries/serializers.py:18-28 | the data passes unchanged exactly when nothing is missing; otherwise "Validation failed" with one "is required" detail per missing field, where name and currency_code are missing when absent or empty and population when absent or zero |
| Serializers.Represent | countries/serializers.py:9-16 | only exchange_rate and estimated_gdp change; a null stays null and a number is replaced by its rounding to two and one places respectively |
| EndpointProperties.RefreshThenRetrieve | countries/tests.py:52-55 | after a successful refresh each named entry is retrievable, with the first listed currency code, the table's rate for it, a GDP exactly when a rate, and the stored spelling and timestamp if it was known, else the entry's spelling and now |
| EndpointProperties.RefreshKeepsGdpTracksRate | countries/views.py:50-55 | if every stored row has a GDP exactly when it has a rate, the same holds of every row after a refresh |
| EndpointProperties.DeleteThenRetrieve | countries/views.py:159-166 | after a successful delete both retrieve and delete of that name yield NotFound |

## Left out

- The HTTP fetches, their 10-second timeouts, status checks and JSON decoding are I/O; their outcomes are the inputs `countries` and `rates`.
- The Django ORM, `transaction.atomic`, `get_or_create` and `bulk_update` are a foreign persistence layer; atomicity is modelled by returning an error and committing the old store (`Committed`).
- Entries with the same name up to case in one fetch are excluded by the precondition `DistinctNames` of `Refresh` and `MergeAll`. For a name already stored, both entries reach one `bulk_update`, which writes only the first of them; for a new name, the first entry creates the row and the second overwrites it. With the precondition every row is touched at most once, so the deferred `bulk_update` equals an immediate update.
- A named entry without a population, or whose rate is zero, makes the source raise; the precondition `Computable` excludes both.
- A `rates` key present with a JSON null is read by the model as an empty table, like a missing key. The source does the same unless some named entry has a truthy currency code: then the membership test at views.py:52 raises a `TypeError` and the transaction rolls back. On such input, for example one entry with currencies `[XAF]`, the model commits rows with a null rate where the source commits nothing.
- A name lookup matching several rows raises `MultipleObjectsReturned` in the source, an unhandled error; the model returns an error value (`MultipleMatches`) and commits nothing.
- The clock: one instant `now` stands for the whole refresh, so every row one refresh creates carries the same `last_refreshed_at`; in the source `auto_now` stamps each creation separately, and the status after a refresh reports the last creation's time.
- `random.randint` is replaced by the supplied multipliers; the model takes one per entry even where the source draws none.
- Floating-point division and `round(float(...), n)` are not modelled: division is on reals and the rounding functions are parameters of `Represent`.
- Column limits of the schema (`max_length`, decimal digits and places) and the case-sensitive `unique=True` constraint are database behaviour and not modelled.
- How the database collation implements `iexact` and orders names: ASCII lower-casing and code-point order stand in for them; nulls in the GDP orderings sort lowest.
- Queries.List: rows that tie under the sort key come in an order the database chooses; the model's insertion sort fixes one such order, and its contract states only ordering and permutation.
- Queries.Delete models `DeleteCountryView.delete` (views.py:159-166) as written; urls.py:8-9 give the retrieve view the same pattern first, so over HTTP a DELETE reaches the retrieve view and answers 405.
- Serializers.Validate models the `validate` hook (serializers.py:18-28) as written; no endpoint of the service calls `is_valid()`, so the service never runs it.
- `generate_summary_image` and the image endpoint draw and read a PNG file; this is rendering and filesystem I/O.
- URL routing, concurrency between simultaneous refreshes, and the HTTP response envelopes (status codes, the fixed `error` and `message` strings) are not modelled; of the response bodies only the 503 `details` text is.
