/** The detail page's hook: the state `loadCountryDetail` leaves behind once
    its fetches have answered, and the two values derived from it. The
    fetches are parameters: the country lookup reports every failure as a
    missing country and the border lookup every failure as an empty list, so
    their answers are all the load depends on. */
module UseCountryDetail {
  import opened Js
  import opened Api

  /** The errors the load can record. `NameUnreadable` is the engine's
      TypeError for reading `name.common` off a country without a name; its
      wording is the engine's. */
  datatype LoadError = NoCode | NotFound | NameUnreadable

  function Message(e: LoadError): string {
    match e
    case NoCode => "No country code provided"
    case NotFound => "Country not found"
    case NameUnreadable => "TypeError"
  }

  /** The hook's state. */
  datatype DetailState = DetailState(
    country: Option<Country>,
    borderCountries: seq<Country>,
    isLoading: bool,
    isBordersLoading: bool,
    error: Option<LoadError>)

  /** Before the first load. */
  const Initial := DetailState(None, [], true, false, None)

  /** `!countryCode`: no code, or the empty one. */
  predicate HasCode(code: Option<string>) {
    code.Some? && code.value != []
  }

  /** `countryData.borders && countryData.borders.length > 0` */
  predicate HasBorderCodes(c: Country) {
    c.borders.Some? && |c.borders.value| > 0
  }

  /** `loadCountryDetail` run from state `prior` for `code`, where the country
      lookup answered `found` and the border lookup (made only when the
      country lists borders) answered `borders`. */
  function LoadDetail(prior: DetailState, code: Option<string>, found: Option<Country>, borders: seq<Country>): (r: DetailState)
    ensures !r.isLoading
    ensures !HasCode(code) ==>
      r == prior.(error := Some(NoCode), isLoading := false)
    ensures HasCode(code) && found.None? ==>
      && r.error == Some(NotFound) && r.country == None && r.borderCountries == []
      && r.isBordersLoading == prior.isBordersLoading
    ensures HasCode(code) && found.Some? && found.value.name.Unnamed? ==>
      && r.error == Some(NameUnreadable) && r.country == None && r.borderCountries == []
      && r.isBordersLoading == prior.isBordersLoading
    ensures HasCode(code) && found.Some? && !found.value.name.Unnamed? ==>
      && r.error == None && r.country == found
      && r.borderCountries == (if HasBorderCodes(found.value) then borders else [])
      && r.isBordersLoading == (if HasBorderCodes(found.value) then false else prior.isBordersLoading)
  {
    if !HasCode(code) then prior.(error := Some(NoCode), isLoading := false)
    else
      // setIsLoading(true); setError(null)
      var loading := prior.(isLoading := true, error := None);
      match found
      case None =>
        loading.(error := Some(NotFound), country := None, borderCountries := [], isLoading := false)
      case Some(c) =>
        var shown := loading.(country := Some(c));
        if c.name.Unnamed? then
          // the log line reads `countryData.name.common` and throws
          shown.(error := Some(NameUnreadable), country := None, borderCountries := [], isLoading := false)
        else if HasBorderCodes(c) then
          shown.(isBordersLoading := false, borderCountries := borders, isLoading := false)
        else
          shown.(borderCountries := [], isLoading := false)
  }

  /** `hasBorders` */
  predicate HasBorders(s: DetailState) {
    |s.borderCountries| > 0
  }

  /** `isValidCountry`: a country is shown and no error is recorded (every
      error message is non-empty, so a recorded error is truthy). */
  predicate IsValidCountry(s: DetailState) {
    s.country.Some? && s.error.None?
  }

  /** Every recorded message is truthy, which is what lets `isValidCountry`
      test the error as a value being present. */
  lemma MessagesNonEmpty(e: LoadError)
    ensures Message(e) != []
  {
  }

  /** The page shows a country exactly when there is a code and the lookup
      found a country with a name; then the border list is whatever the
      border lookup answered, if the country lists borders. */
  lemma ValidExactlyWhenFound(prior: DetailState, code: Option<string>, found: Option<Country>, borders: seq<Country>)
    ensures var r := LoadDetail(prior, code, found, borders);
      && (HasCode(code) ==>
            (IsValidCountry(r) <==> found.Some? && !found.value.name.Unnamed?))
      && (!HasCode(code) ==> !IsValidCountry(r))
      && (HasCode(code) && HasBorders(r) ==>
            IsValidCountry(r) && HasBorderCodes(found.value) && r.borderCountries == borders)
  {
  }

  /** With a code, the result depends on the prior state only through the
      border-loading flag; without one, only the error and the loading flag
      change. */
  lemma PriorIrrelevant(p: DetailState, q: DetailState, code: Option<string>, found: Option<Country>, borders: seq<Country>)
    requires HasCode(code) && p.isBordersLoading == q.isBordersLoading
    ensures LoadDetail(p, code, found, borders) == LoadDetail(q, code, found, borders)
  {
  }

  /** Running the load twice with the same answers leaves the state of the
      first run. */
  lemma LoadIdempotent(prior: DetailState, code: Option<string>, found: Option<Country>, borders: seq<Country>)
    ensures var r := LoadDetail(prior, code, found, borders);
      LoadDetail(r, code, found, borders) == r
  {
  }

  /** From the initial state nothing is ever left loading. */
  lemma FirstLoadSettles(code: Option<string>, found: Option<Country>, borders: seq<Country>)
    ensures var r := LoadDetail(Initial, code, found, borders);
      !r.isLoading && !r.isBordersLoading
  {
  }
}
