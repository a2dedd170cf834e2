# World Explorer core, in Dafny

A model of the logic that sits under the React pages of *rest-country-react*
(World Explorer Pro):

- the input validators: the IPv4 and IPv6 patterns, the search-type
  classifier, the sanitiser, the country-name check, the IP formatter and the
  IP-pattern extractor;
- the geographic store: `initialState`, `ActionTypes`, the `geoReducer`
  transition function with its `localStorage` writes, and the provider's
  mount effect that reloads the saved search history;
- the REST Countries helpers: `filterCountries`, `getCapital`,
  `getNativeName`, `getCurrencies`, `getLanguages` and `getFlag`;
- the list-page hook: the load outcome, the filtered view, the region list and
  the two counters;
- the detail-page hook: the load outcome and the derived `hasBorders` and
  `isValidCountry`;
- the theme provider: the initial dark/light choice, `toggleTheme` and the
  `theme` string.

One module per source file, plus `Js`, which holds the JavaScript string
semantics they share: `trim`, `toLowerCase`, `includes`, `split`, `join`,
`slice` and the code-point order that `sort` uses. The helpers in `api.js`
accept any JSON, so `Api` defines a JSON value type (`Json`) with
truthiness, `||`, `?.`, `Object.values` and the element rendering of
`Array.prototype.join`. Everything is a pure function. Each browser or
network service becomes a parameter:

- a fetch result is an argument of the hook that uses it;
- `localStorage` is a map from keys to parsed values, and every write carries
  a flag saying whether it succeeded;
- `matchMedia` is a boolean argument;
- the body's `dark` class is a field of the theme state.

The IPv4 regular expression is modelled over the `.`-separated fields of
the address. Its octet alternative is proved equal to "one to three digits
whose value is at most 255". Leading zeros are accepted.

The IPv6 regular expression is modelled alternative by alternative over the
`:`-separated fields. The compressed alternatives together are proved equal
to the compressed form of section 2.2 of RFC 4291. The zone-index branch
follows section 11 of RFC 4007.

The IPv4 octet embedded in the IPv6 pattern is `25[0-5]|(2[0-4]|1?[0-9])?[0-9]`.
It differs from the stand-alone IPv4 octet: it refuses a three-digit field
with a leading zero such as `010`. The model follows the code here, and
`Validators.EmbeddedOctetIsDecimalOctet` states the difference.

The history replay and the country filter's name fallback are the two places
where the code's behaviour disagrees with what it evidently intends. See
"Findings".

## Model

| member | source | states |
|---|---|---|
| Validators.OctetPatternIsDecimalOctet | src/utils/validators.js:37 | an octet alternative of the IPv4 pattern accepts exactly the numerals of one to three digits whose value is at most 255, leading zeros included |
| Validators.IPv4IsDottedQuad | src/utils/validators.js:22-40 | `isValidIPAddress` accepts a string iff it is non-empty and consists of exactly four `.`-separated octets |
| Validators.IPv4FromFields | src/utils/validators.js:22-40 | four dot-free fields joined with `.` split back into those fields, and are accepted iff every field is an octet |
| Validators.DottedDecimalAccepted | src/utils/validators.js:22-40 | every `a.b.c.d` written in decimal with each value at most 255 is accepted and splits back into its four numerals |
| Validators.IPv4Chars | src/utils/validators.js:37 | an accepted IPv4 address consists of digits and dots only, and has at least one digit |
| Validators.IPv4AcceptsPublicResolver | src/utils/validators.js:19-39 | "8.8.8.8" is accepted |
| Validators.IPv4AcceptsPrivateAddress | src/utils/validators.js:19-39 | "192.168.1.1" is accepted |
| Validators.IPv4AcceptsBroadcast | src/utils/validators.js:19-39 | "255.255.255.255" is accepted |
| Validators.IPv4AcceptsLeadingZero | src/utils/validators.js:33-39 | "010.1.1.1" is accepted: the pattern allows leading zeros |
| Validators.IPv4RejectsOctetAbove255 | src/utils/validators.js:20-39 | "256.1.1.1" is refused |
| Validators.IPv4RejectsLetters | src/utils/validators.js:20-39 | "abc.def.ghi.jkl" is refused |
| Validators.IPv4RejectsTwoFields | src/utils/validators.js:20-39 | "192.168" is refused |
| Validators.EmbeddedOctetIsDecimalOctet | src/utils/validators.js:61 | the IPv4 octet inside the IPv6 pattern accepts the decimal octets except three-digit ones with a leading zero |
| Validators.InnerDoubleColonIsRfcCompressed | src/utils/validators.js:61 | the six inner `::` alternatives together accept exactly the addresses with at least one group on each side of `::` and at most seven groups in all |
| Validators.IPv6FromFields | src/utils/validators.js:53-64 | a non-empty text whose `:`-fields form the full form, a `::` form with groups on both sides, or the `::ffff:` IPv4-mapped form is accepted |
| Validators.IPv6AcceptsFullForm | src/utils/validators.js:48-63 | any eight groups of one to four hex digits joined by `:` are accepted, which covers "2001:0db8:85a3:0000:0000:8a2e:0370:7334" |
| Validators.IPv6AcceptsCompressed | src/utils/validators.js:48-63 | "2001:db8:85a3::8a2e:370:7334" is accepted |
| Validators.IPv6AcceptsMappedIPv4 | src/utils/validators.js:48-63 | "::ffff:192.168.1.1" is accepted |
| Validators.IPv6HasColon | src/utils/validators.js:53-64 | every accepted IPv6 address contains a colon; in particular the empty string is refused |
| Validators.DetectSearchType | src/utils/validators.js:77-99 | blank input gives null; the result is 'ip' iff the trimmed query is an IPv4 or IPv6 address; it is 'country' iff the trimmed query is not an address and has an ASCII letter or whitespace |
| Validators.DetectBlank | src/utils/validators.js:79-81 | the empty and the all-space query give null |
| Validators.DetectIgnoresPadding | src/utils/validators.js:79-84 | surrounding whitespace never changes the classification |
| Validators.DetectIPv4IsIp | src/utils/validators.js:84-89 | a valid IPv4 address is classified 'ip' |
| Validators.PaddedIPv4IsIp | src/utils/validators.js:84-89 | a valid IPv4 address with whitespace around it is still 'ip', since the address test runs on the trimmed query |
| Validators.LettersOnlyIsCountry | src/utils/validators.js:91-95 | a non-empty query of ASCII letters only is 'country' |
| Validators.DigitsOnlyUnclassified | src/utils/validators.js:91-98 | a non-empty query of digits only (such as "12345") gives null |
| Validators.NoSeparatorIsNotIp | src/utils/validators.js:37-61 | a string of digits alone is neither an IPv4 nor an IPv6 address |
| Validators.UnclassifiedQuery | src/utils/validators.js:91-98 | a trimmed query that is no address and has no ASCII letter or whitespace gives null |
| Validators.SanitizeSearchInput | src/utils/validators.js:110-121 | the result has at most 100 characters, none of them `<`, `>`, `'` or `"`, is a subsequence of the input, and is the first 100 characters of the trimmed input with those four removed |
| Validators.SanitizeFiltersCompose | src/utils/validators.js:118-119 | removing the brackets and then the quotes is one pass removing all four characters |
| Validators.SanitizeTwice | src/utils/validators.js:110-121 | sanitising a sanitised string only trims it again |
| Validators.SanitizeNotIdempotent | src/utils/validators.js:110-121 | sanitising is not idempotent: a removed character can expose whitespace, as "< a" gives " a", and a second pass gives "a" |
| Validators.SanitizeFixpoint | src/utils/validators.js:110-121 | a trimmed input of at most 100 characters with none of the four is returned unchanged |
| Validators.CountryNameIgnoresPadding | src/utils/validators.js:134-151 | the country-name check judges the trimmed name, so surrounding whitespace never changes the verdict |
| Validators.CountryNameRefusals | src/utils/validators.js:139-150 | a name shorter than two characters once trimmed, or with a digit in it, is refused |
| Validators.CountryNameIsNotIp | src/utils/validators.js:134-151 | no accepted country name is an IPv4 or IPv6 address once trimmed |
| Validators.CountryNameDetected | src/utils/validators.js:91-95 | an accepted country name with an ASCII letter or whitespace is classified 'country' |
| Validators.AccentedNameUnclassified | src/utils/validators.js:93-98 | an accepted country name without ASCII letters or whitespace is classified null, since the classifier's letter test is ASCII-only |
| Validators.FormatIPAddress | src/utils/validators.js:161-171 | a text without "::" (in particular one without a colon) is returned as it is; otherwise the result is exactly two characters longer |
| Validators.FormatOnlyAddsSpaces | src/utils/validators.js:161-171 | formatting only inserts spaces: removing spaces from input and output gives the same text |
| Validators.FormatFirstDoubleColon | src/utils/validators.js:164-167 | only the first "::" is padded to " :: " |
| Validators.ExtractIPPattern | src/utils/validators.js:179-184 | the result holds only digits, `.` and `:`, is a subsequence of the input, and keeps every copy of each such character of the input |
| Validators.ExtractIdempotent | src/utils/validators.js:179-184 | extracting twice is extracting once |
| Validators.ExtractAppend | src/utils/validators.js:179-184 | extraction distributes over concatenation |
| Validators.ExtractKeepsIPv4 | src/utils/validators.js:179-184 | a valid IPv4 address is left unchanged |
| Api.GetCapital | src/services/api.js:166-171 | the result is always truthy: the first capital when the argument is a non-empty array whose first element is truthy, 'N/A' otherwise |
| Api.CapitalOfCityList | src/services/api.js:166-171 | for a list of city names the result is the first name, or 'N/A' for an empty list or an empty first name |
| Api.GetNativeName | src/services/api.js:178-186 | the result is truthy; 'N/A' for a missing or non-object argument; for a first entry under a non-empty key, its common name when truthy, else its official name when truthy, else 'N/A' |
| Api.NativeNameOfRecords | src/services/api.js:178-186 | for native-name records the result is the first record's common name, else its official name, else 'N/A' |
| Api.GetCurrencies | src/services/api.js:193-201 | 'N/A' for a missing or non-object argument or when no currency has a name; otherwise the ", "-join of the currency names in entry order |
| Api.CurrencyNamesOfRecords | src/services/api.js:196-198 | the names kept are those of the currency records with a non-empty name, in order |
| Api.CurrenciesOfRecords | src/services/api.js:193-201 | for currency records the result is the ", "-listing of the non-empty names, or 'N/A' |
| Api.GetLanguages | src/services/api.js:208-213 | 'N/A' for a missing or non-object argument or no truthy value; otherwise the ", "-join of the truthy values in order |
| Api.LanguageNamesOfRecords | src/services/api.js:211 | the values kept are the non-empty language names, in order |
| Api.LanguagesOfRecords | src/services/api.js:208-213 | for language records the result is the ", "-listing of the non-empty names, or 'N/A' |
| Api.ListingRoundTrip | src/services/api.js:200 | splitting a ", "-listing at the commas and trimming each piece gives back the names, when they are non-empty, comma-free and trimmed |
| Api.GetFlag | src/services/api.js:220-223 | the PNG flag when it is truthy, else the SVG flag when it is truthy, else '' |
| Api.FlagOfRecord | src/services/api.js:220-223 | for a flag record the result is the PNG URL unless it is empty, then the SVG URL |
| Api.FlagMissing | src/services/api.js:221 | a missing flags object gives '' |
| Api.NameAsWritten | src/services/api.js:136-141 | the name expression throws exactly for a name object without a non-empty common name; a bare string is used as is and a missing name gives '' |
| Api.FilterCountriesAsWritten | src/services/api.js:133-149 | the filter as written throws iff some country's name expression throws |
| Api.FilterAsWrittenThrows | src/services/api.js:136-141 | a single country whose name object has no common name makes the filter throw |
| Api.DisplayName | src/services/api.js:136 | the searched name agrees with the name expression wherever it does not throw, and is '' where it does |
| Api.FilterCountries | src/services/api.js:133-149 | the result is an order-preserving subsequence of the input holding exactly the countries whose lower-cased name contains the lower-cased query and whose region is the selected one (or none is selected) |
| Api.FilterAsWrittenAgrees | src/services/api.js:133-149 | when no name expression throws, the filter as written returns the same list |
| Api.FilterCountriesUnfiltered | src/services/api.js:133-147 | with an empty query and no region every country is kept |
| Api.FilterCountriesIdempotent | src/services/api.js:133-149 | filtering twice with the same query and region is filtering once |
| Api.FilterCountriesAppend | src/services/api.js:134-148 | filtering distributes over concatenation of country lists |
| UseCountries.LoadCountries | src/hooks/useCountries.js:35-56 | loading always ends; an empty fetch result records 'No countries data received' and keeps the old list, a non-empty one becomes the list with no error |
| UseCountries.LoadOnMount | src/hooks/useCountries.js:30-59 | after the mount load there is an error exactly when no country was loaded, and the total is the number fetched |
| UseCountries.FilteredCountriesAsWritten | src/hooks/useCountries.js:62-70 | the view as the code computes it: empty before anything is loaded; it throws while rendering exactly when some loaded country's name expression throws; otherwise it equals the corrected view |
| UseCountries.FilteredCountries | src/hooks/useCountries.js:63-70 | the corrected view, with the non-throwing filter applied to the loaded list; the guard for an empty list changes nothing |
| UseCountries.FilteredCountBounded | src/hooks/useCountries.js:99-100 | the filtered count never exceeds the total, and equals it with no query and no region; whenever the code's own filter returns, its count is this one |
| UseCountries.Dedup | src/hooks/useCountries.js:77 | deduplication keeps exactly the values of the input, each once |
| UseCountries.PresentRegions | src/hooks/useCountries.js:78 | dropping falsy regions keeps exactly the present non-empty ones, and keeps them distinct |
| UseCountries.SortDistinct | src/hooks/useCountries.js:78 | sorting distinct strings gives a strictly ascending list of the same strings |
| UseCountries.AvailableRegions | src/hooks/useCountries.js:73-79 | the region list is strictly ascending in code-point order and holds exactly the non-empty regions of the loaded countries |
| UseCountries.StrictlySortedUnique | src/hooks/useCountries.js:78 | two strictly ascending lists with the same elements are equal |
| UseCountries.RegionsIgnoreOrder | src/hooks/useCountries.js:73-79 | the region list depends only on which countries are loaded, not on their order |
| GeoContext.ParseType | src/context/GeoContext.js:68 | a type selects a case only if it is that case's name |
| GeoContext.ParseTypeName | src/context/GeoContext.js:43-56 | each action type's name selects its own case of the reducer |
| GeoContext.ParseTypeUnknown | src/context/GeoContext.js:186-188 | a type reaches the default case iff it is none of the twelve names |
| GeoContext.Persist | src/context/GeoContext.js:107-125 | a failed storage call leaves storage alone; a successful one sets its key to the value, or removes its key and leaves every other key and value as it was |
| GeoContext.AddToHistory | src/context/GeoContext.js:104-105 | the new history starts with the entry, continues with a prefix of the old history, and has at most 10 entries |
| GeoContext.AddComparisonItem | src/context/GeoContext.js:157-158 | the new items are the last two of the old items with the new one appended: the new item last, preceded by the last old item if there is one |
| GeoContext.RemoveById | src/context/GeoContext.js:168-170 | removal is an order-preserving subsequence that keeps every copy of each item whose id differs from the given one and no copy of the others |
| GeoContext.ReduceCase | src/context/GeoContext.js:67-190 | a case throws exactly when it reads a member of a missing payload, or when a compared item is null during removal |
| GeoContext.Reduce | src/context/GeoContext.js:186-188 | an unrecognised action returns the state unchanged and writes nothing |
| GeoContext.Dispatch | src/context/GeoContext.js:217 | a dispatch throws exactly when the reducer does |
| GeoContext.Encode | src/context/GeoContext.js:242-291 | each action creator dispatches the type of its own case |
| GeoContext.CommandEffect | src/context/GeoContext.js:76-146 | only removing a comparison item can throw; setting results sets results and type and clears the searching flag and the error; setting an error sets it and clears the flag and the results; location and map view set their two fields |
| GeoContext.SetterEffect | src/context/GeoContext.js:69-153 | setting the query, the searching flag or the selected location stores the payload in that one field and writes nothing to storage |
| GeoContext.ReducePreservesValid | src/context/GeoContext.js:16-188 | the initial state is valid, and every action keeps at most 10 history entries, at most two compared items, and comparison mode on exactly when items remain |
| GeoContext.ReduceFrame | src/context/GeoContext.js:67-190 | every action changes only the fields its case names, and only the two history cases touch storage |
| GeoContext.CaseFrame | src/context/GeoContext.js:67-190 | the fields each case writes are the ones listed for it |
| GeoContext.HistoryPersistence | src/context/GeoContext.js:102-130 | the history after an add or a clear does not depend on whether storage works; when it works the key holds the new history after an add and is gone after a clear |
| GeoContext.ReplayFrame | src/context/GeoContext.js:226-231 | replaying saved items changes nothing but the history |
| GeoContext.ReplayHistory | src/context/GeoContext.js:226-231 | replaying a list puts its items, reversed, in front of the old history, cut at 10 |
| GeoContext.ReplayState | src/context/GeoContext.js:226-231 | the state after a replay is the old state with that history |
| GeoContext.ReplayStore | src/context/GeoContext.js:102-112 | after a replay with working storage the key holds the final history; with failing storage nothing changes |
| GeoContext.MountAsWrittenReverses | src/context/GeoContext.js:220-236 | on a fresh page the mount effect as written loads the first 10 of the reversed saved history |
| GeoContext.MountAsWrittenFlips | src/context/GeoContext.js:220-236 | a saved history [a, b] comes back as [b, a], and with working storage it is saved back as [b, a] |
| GeoContext.MountRestores | src/context/GeoContext.js:220-236 | the corrected mount restores the first 10 entries of the saved history in their saved order and saves them back |
| GeoContext.MountStable | src/context/GeoContext.js:220-236 | a second reload after the corrected mount restores the same state |
| GeoContext.AddComparisonEffect | src/context/GeoContext.js:155-164 | adding a comparison item keeps the last two of the old items with the new one appended (the new item, preceded by the last old item if any) and turns comparison mode on |
| GeoContext.RemoveComparisonEffect | src/context/GeoContext.js:166-176 | removing by id keeps, in order and with every copy, exactly the items with another id, and comparison mode is on iff some remain |
| GeoContext.RemoveByIdAppend | src/context/GeoContext.js:168-170 | removal works item by item: removing from a concatenation is removing from each part |
| GeoContext.ClearComparisonEffect | src/context/GeoContext.js:178-184 | clearing empties the items and turns comparison mode off |
| UseCountryDetail.LoadDetail | src/hooks/useCountryDetail.js:34-83 | loading always ends; without a code only the error changes; a missing country records 'Country not found' and clears country and borders; a nameless country throws at the log line with the same clearing; a found country is shown with the fetched borders if it lists any, else none, and no error |
| UseCountryDetail.MessagesNonEmpty | src/hooks/useCountryDetail.js:103 | every recorded error is truthy, so `!error` means no error |
| UseCountryDetail.ValidExactlyWhenFound | src/hooks/useCountryDetail.js:102-103 | with a code the country is valid iff the lookup found a country with a name; without one it never is; borders are shown only for a valid country that lists borders |
| UseCountryDetail.PriorIrrelevant | src/hooks/useCountryDetail.js:41-82 | with a code, the result depends on the earlier state only through the border-loading flag |
| UseCountryDetail.LoadIdempotent | src/hooks/useCountryDetail.js:34-86 | running the load again with the same answers changes nothing |
| UseCountryDetail.FirstLoadSettles | src/hooks/useCountryDetail.js:16-83 | from the initial state the load leaves neither loading flag set |
| ThemeProvider.Mount | src/components/theme/ThemeProvider.jsx:27-41 | after mount the theme is dark iff the saved value is 'dark', or there is no saved value and the system prefers dark; the body class matches |
| ThemeProvider.SavedLightWins | src/components/theme/ThemeProvider.jsx:35 | a saved non-empty value other than 'dark' gives light whatever the system prefers |
| ThemeProvider.Toggle | src/components/theme/ThemeProvider.jsx:44-53 | a toggle flips the flag, the body class follows, and the new theme's name is stored unless the write fails |
| ThemeProvider.ToggleTwice | src/components/theme/ThemeProvider.jsx:44-53 | toggling twice restores the flag, and the whole state when the stored name already matched |
| ThemeProvider.TogglesAfterMount | src/components/theme/ThemeProvider.jsx:37-52 | after the mount and n toggles the body class equals the flag, which is the mounted choice flipped n times |
| ThemeProvider.ReloadKeepsChoice | src/components/theme/ThemeProvider.jsx:29-52 | after a toggle a reload comes back to the chosen theme whatever the system prefers |
| ThemeProvider.Theme | src/components/theme/ThemeProvider.jsx:59 | the theme string is 'dark' or 'light' |
| ThemeProvider.ThemeNamesFlag | src/components/theme/ThemeProvider.jsx:59 | the theme string is 'dark' iff the flag is set, and 'light' iff it is not |

## Left out

- Network access: `fetchAllCountries` with its fallbacks, `fetchCountryByCode`, `fetchCountriesByCodes` and `testApiConnection` are HTTP I/O. The hooks take their answers as arguments: null for every failed country lookup, an empty list for every failed list lookup.
- `formatNumber` depends on the locale through `toLocaleString`.
- React scheduling: effect timing, batching, strict-mode double calls and unmount races. Each hook is modelled by the state it settles in. Re-running the detail load for a new code is modelled by passing the earlier state in.
- The context plumbing: `createContext`, `useGeo`, `useTheme` and the provider components. The throw when they are used outside a provider is left out too.
- Console logging has no effect on state and is dropped.
- Numbers are integers. Floating point, `NaN` and map coordinates as real numbers are not modelled; coordinates and zoom are opaque payloads.
- `null` and `undefined` are one value, `Null`. So `item.id !== id` with an item lacking `id` and an id of `null` removes the item, where JavaScript would keep it.
- Strict equality on objects and arrays is modelled as equality of contents, not of references.
- An object's keys are kept in insertion order. JavaScript lists integer-like keys first; the API's keys are language and currency codes, so this never applies to them.
- `JSON.stringify` and `JSON.parse` are treated as exact inverses. Storage holds the parsed value, or a mark that the text was empty or did not parse.
- A dispatched action is always an object. Payloads are arbitrary JSON, and the creators' payload objects are modelled as written.
- `toLowerCase` maps ASCII letters only. Unicode case mapping is not modelled.
- String order is code-point order. Without a comparator `sort` compares UTF-16 code units, and the two orders agree for text within the Basic Multilingual Plane.
- Strings are sequences of code points, not UTF-16 code units. So lengths, `slice(0, 100)` in the sanitiser and the sort order match JavaScript only for text within the Basic Multilingual Plane. For example, 60 copies of U+1F600 keep all 60 in the model, where JavaScript keeps 50.
- UseCountryDetail.Message: the wording of the engine's TypeError message is not modelled. A fixed non-empty text stands in for it, and only its truthiness matters to the hook.
- The theme provider's reads of `localStorage` and `matchMedia` are assumed not to throw.
- ThemeProvider.Toggle: the `setItem` call in `toggleTheme` is not inside a `try`. When it throws (`ok` false), the exception escapes `toggleTheme` after the flag and the body class have already changed. The model gives the resulting state but does not model the exception reaching the caller.
- UseCountryDetail.LoadDetail: `fetchCountryByCode` itself reads `name.common` inside its own `try` and returns null for a nameless country. So the page then shows 'Country not found', and the `NameUnreadable` path cannot be reached from the real fetch. The `found` parameter allows more answers than the fetch can give.
- The first render, before the theme effect runs, shows light whatever is saved. It is not modelled.
- The country fields the list logic reads are typed: a name is missing, a string, or an object with an optional common name. Other name values, such as numbers, are not represented.
- UseCountries.FilteredCountries: this is the corrected view, and `FilteredCount` counts it. The code's own view is `FilteredCountriesAsWritten`, which throws while rendering, as the second finding describes.
- UseCountries.FilteredCountBounded: the bound is stated for the corrected view. The code computes `filteredCount` only when its own filter returns, and the lemma proves that the two counts then agree. A render that throws has no count.
- The plain setters `setSearchQuery` and `setSelectedRegion` of the list hook only store their argument, so they have no separate model.

## Findings

| source | as written | input that shows it | evidently intended | confidence | as-written member | corrected member |
|---|---|---|---|---|---|---|
| src/context/GeoContext.js:226-231 | The saved history is newest first. The mount effect replays it in stored order through `ADD_TO_HISTORY`, which prepends, so the history loads reversed and is saved back reversed. | storage holds `[a, b]` with `a` the newest search; after mount the history is `[b, a]`, and every reload flips it again | the saved history comes back in its saved order, e.g. by replaying it oldest first | not executed; high | GeoContext.MountAsWrittenFlips | GeoContext.MountRestores |
| src/services/api.js:136 | `country.name?.common \|\| country.name \|\| ''` falls back to the name object itself when `common` is missing or empty. `.toLowerCase()` then throws, and the whole filter fails. | a country whose name is `{ official: "X" }` with no `common` | such a country is searched under the empty name and the filter still returns a list | not executed; medium | Api.FilterAsWrittenThrows | Api.FilterCountries |
