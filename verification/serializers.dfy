/** The country serializer: validation of direct writes, which reports every
    missing mandatory field, and the representation step, which rounds the
    two decimal columns for display. */
module Serializers {
  import opened Wrappers
  import opened Models

  /** The fields of a direct write as the serializer receives them; a field
      that was not supplied is `None`. */
  datatype CountryData = CountryData(
    name: Option<string>,
    capital: Option<string>,
    region: Option<string>,
    population: Option<int>,
    currencyCode: Option<string>,
    exchangeRate: Option<real>,
    estimatedGdp: Option<real>,
    flagUrl: Option<string>)

  /** The `ValidationError` payload: `error` plus one `details` entry per
      missing field. */
  datatype ValidationError = ValidationError(error: string, details: map<string, string>)

  const ValidationFailed: string := "Validation failed"
  const IsRequired: string := "is required"

  /** The keys of the three mandatory fields, as they appear in `details`. */
  const NameKey: string := "name"
  const PopulationKey: string := "population"
  const CurrencyKey: string := "currency_code"

  /** The mandatory fields a write lacks. A string is missing when absent or
      empty, a population when absent or zero (Python falsiness). */
  function MissingFields(data: CountryData): set<string>
  {
    (if data.name.None? || data.name == Some("") then {NameKey} else {})
    + (if data.population.None? || data.population == Some(0) then {PopulationKey} else {})
    + (if data.currencyCode.None? || data.currencyCode == Some("") then {CurrencyKey} else {})
  }

  /** Adds `key: "is required"` to the error map when `missing` holds. */
  function Require(errors: map<string, string>, missing: bool, key: string): map<string, string>
  {
    if missing then errors[key := IsRequired] else errors
  }

  /** `CountrySerializer.validate`: the data unchanged when nothing mandatory
      is missing, otherwise an error whose details name exactly the missing
      fields. */
  function Validate(data: CountryData): (r: Result<CountryData, ValidationError>)
    ensures r.Ok? <==> MissingFields(data) == {}
    ensures r.Ok? ==> r.value == data
    ensures r.Err? ==> r.error.error == ValidationFailed
    ensures r.Err? ==> r.error.details.Keys == MissingFields(data)
    ensures r.Err? ==> forall k :: k in r.error.details ==> r.error.details[k] == IsRequired
    ensures r.Err? ==> (NameKey in r.error.details <==> data.name.None? || data.name == Some(""))
    ensures r.Err? ==> (PopulationKey in r.error.details <==> data.population.None? || data.population == Some(0))
    ensures r.Err? ==> (CurrencyKey in r.error.details <==> data.currencyCode.None? || data.currencyCode == Some(""))
  {
    var errors := Require(map[], data.name.None? || data.name == Some(""), NameKey);
    var errors := Require(errors, data.population.None? || data.population == Some(0), PopulationKey);
    var errors := Require(errors, data.currencyCode.None? || data.currencyCode == Some(""), CurrencyKey);
    if errors != map[] then
      assert errors.Keys == MissingFields(data);
      Err(ValidationError(ValidationFailed, errors))
    else
      assert NameKey !in errors && PopulationKey !in errors && CurrencyKey !in errors;
      Ok(data)
  }

  /** `to_representation` of a row. The float conversion and rounding to two
      and one decimal places are floating-point operations supplied as
      `round2` and `round1`; only the two decimal columns change, and a null
      column stays null. */
  function Represent(c: Country, round2: real -> real, round1: real -> real): (r: Country)
    ensures r.(exchangeRate := c.exchangeRate, estimatedGdp := c.estimatedGdp) == c
    ensures c.exchangeRate.None? <==> r.exchangeRate.None?
    ensures c.estimatedGdp.None? <==> r.estimatedGdp.None?
    ensures c.exchangeRate.Some? ==> r.exchangeRate.value == round2(c.exchangeRate.value)
    ensures c.estimatedGdp.Some? ==> r.estimatedGdp.value == round1(c.estimatedGdp.value)
  {
    var rate := match c.exchangeRate
      case Some(x) => Some(round2(x))
      case None => None;
    var gdp := match c.estimatedGdp
      case Some(x) => Some(round1(x))
      case None => None;
    c.(exchangeRate := rate, estimatedGdp := gdp)
  }
}
