/** The pure part of the REST Countries client: filtering the country list by
    name and region, and the helpers that turn optional API fields into display
    strings. The helpers accept whatever JSON the API sent, so they are modelled
    over a JSON value type; the list logic works on a typed country record. */
module Api {
  import opened Js

  // ===========================================================================
  // JSON values

  /** A value produced by `JSON.parse`. `Null` stands for both `null` and
      `undefined`; numbers are integers. An object is its list of entries in
      key order. */
  datatype Json =
    | Null
    | Bool(b: bool)
    | Num(n: int)
    | Str(s: string)
    | Arr(items: seq<Json>)
    | Obj(entries: seq<Entry>)

  datatype Entry = Entry(key: string, value: Json)

  /** JavaScript truthiness: `null`, `undefined`, `false`, `0` and `''` are falsy. */
  predicate Truthy(v: Json) {
    match v
    case Null => false
    case Bool(b) => b
    case Num(n) => n != 0
    case Str(s) => s != []
    case Arr(_) => true
    case Obj(_) => true
  }

  /** `a || b` */
  function Or(a: Json, b: Json): (r: Json)
    ensures Truthy(r) <==> Truthy(a) || Truthy(b)
    ensures Truthy(a) ==> r == a
  {
    if Truthy(a) then a else b
  }

  /** `typeof v === 'object'` for a value already known to be truthy. */
  predicate IsObject(v: Json) {
    v.Arr? || v.Obj?
  }

  /** The value of the first entry named `key`; `undefined` when there is none. */
  function Lookup(es: seq<Entry>, key: string): (r: Json)
    ensures r != Null ==> exists i :: 0 <= i < |es| && es[i] == Entry(key, r)
    ensures (forall i :: 0 <= i < |es| ==> es[i].key != key) ==> r == Null
  {
    if es == [] then Null
    else if es[0].key == key then es[0].value
    else Lookup(es[1..], key)
  }

  /** `v?.key`: an object's property; `undefined` for every other value (the
      properties read here never exist on strings, numbers or arrays). */
  function Prop(v: Json, key: string): (r: Json)
    ensures !v.Obj? ==> r == Null
    ensures r != Null ==> v.Obj? && exists i :: 0 <= i < |v.entries| && v.entries[i] == Entry(key, r)
  {
    if v.Obj? then Lookup(v.entries, key) else Null
  }

  /** `Object.values(v)` of an array or an object. */
  function Values(v: Json): (r: seq<Json>)
    ensures v.Arr? ==> r == v.items
    ensures v.Obj? ==> |r| == |v.entries| && forall i :: 0 <= i < |r| ==> r[i] == v.entries[i].value
    ensures !IsObject(v) ==> r == []
  {
    match v
    case Arr(items) => items
    case Obj(es) => seq(|es|, i requires 0 <= i < |es| => es[i].value)
    case _ => []
  }

  /** How `Array.prototype.join` renders one element. */
  function JoinText(v: Json): (t: string)
    ensures v.Str? ==> t == v.s
    ensures v == Null ==> t == []
    decreases v
  {
    match v
    case Null => ""
    case Bool(b) => if b then "true" else "false"
    case Num(n) => IntToDecimal(n)
    case Str(s) => s
    case Arr(items) => Join(seq(|items|, i requires 0 <= i < |items| => JoinText(items[i])), ",")
    case Obj(_) => "[object Object]"
  }

  /** `vs.join(', ')` */
  function JoinList(vs: seq<Json>): string {
    Join(seq(|vs|, i requires 0 <= i < |vs| => JoinText(vs[i])), ", ")
  }

  /** The text the helpers show for a missing value. */
  const NotAvailable: Json := Str("N/A")

  // ===========================================================================
  // getCapital, getNativeName, getCurrencies, getLanguages, getFlag

  /** `getCapital(capitals)`: the first capital of a non-empty array when it
      is truthy, 'N/A' otherwise. The result is never falsy. */
  function GetCapital(capitals: Json): (r: Json)
    ensures Truthy(r)
    ensures r == NotAvailable || (capitals.Arr? && |capitals.items| > 0 && r == capitals.items[0])
    ensures capitals.Arr? && |capitals.items| > 0 && Truthy(capitals.items[0]) ==> r == capitals.items[0]
  {
    if !Truthy(capitals) || !capitals.Arr? || |capitals.items| == 0 then NotAvailable
    else Or(capitals.items[0], NotAvailable)
  }

  /** The key and value `Object.keys(v)[0]` designates; an array's first key
      is its index "0". */
  function FirstMember(v: Json): (r: Option<Entry>)
    ensures r.Some? ==> IsObject(v)
    ensures v.Obj? && v.entries != [] ==> r == Some(v.entries[0])
    ensures v.Arr? && v.items != [] ==> r == Some(Entry("0", v.items[0]))
  {
    match v
    case Obj(es) => if es == [] then None else Some(es[0])
    case Arr(items) => if items == [] then None else Some(Entry("0", items[0]))
    case _ => None
  }

  /** `getNativeName(nativeNames)`: the `common` name of the first language
      entry, else its `official` name, else 'N/A'; also 'N/A' for a missing
      or non-object argument, no entries, an empty first key or a falsy first
      entry. */
  function GetNativeName(names: Json): (r: Json)
    ensures Truthy(r)
    ensures r == NotAvailable
         || (FirstMember(names).Some? && FirstMember(names).value.key != []
             && var e := FirstMember(names).value.value;
                r == Prop(e, "common") || r == Prop(e, "official"))
    ensures !Truthy(names) || !IsObject(names) ==> r == NotAvailable
    ensures Truthy(names) && FirstMember(names).Some? && FirstMember(names).value.key != [] ==>
      var e := FirstMember(names).value.value;
      && (Truthy(Prop(e, "common")) ==> r == Prop(e, "common"))
      && (!Truthy(Prop(e, "common")) && Truthy(Prop(e, "official")) ==> r == Prop(e, "official"))
      && (!Truthy(Prop(e, "common")) && !Truthy(Prop(e, "official")) ==> r == NotAvailable)
  {
    if !Truthy(names) || !IsObject(names) then NotAvailable
    else match FirstMember(names)
      case None => NotAvailable
      case Some(first) =>
        if first.key == [] || !Truthy(first.value) then NotAvailable
        else Or(Or(Prop(first.value, "common"), Prop(first.value, "official")), NotAvailable)
  }

  /** The names of the currencies that are present and have a truthy name,
      in entry order: `.filter(c => c && c.name).map(c => c.name)`. */
  function CurrencyNames(vs: seq<Json>): (r: seq<Json>)
    ensures |r| <= |vs|
    ensures forall i :: 0 <= i < |r| ==> Truthy(r[i])
  {
    if vs == [] then []
    else if Truthy(vs[0]) && Truthy(Prop(vs[0], "name")) then [Prop(vs[0], "name")] + CurrencyNames(vs[1..])
    else CurrencyNames(vs[1..])
  }

  /** `getCurrencies(currencies)`: the currency names joined with ", ", or
      'N/A' for a missing or non-object argument or when no currency has a
      name. */
  function GetCurrencies(currencies: Json): (r: Json)
    ensures r.Str?
    ensures !Truthy(currencies) || !IsObject(currencies) ==> r == NotAvailable
    ensures CurrencyNames(Values(currencies)) == [] ==> r == NotAvailable
    ensures Truthy(currencies) && CurrencyNames(Values(currencies)) != []
      ==> r == Str(JoinList(CurrencyNames(Values(currencies))))
  {
    if !Truthy(currencies) || !IsObject(currencies) then NotAvailable
    else
      var names := CurrencyNames(Values(currencies));
      if |names| > 0 then Str(JoinList(names)) else NotAvailable
  }

  /** `.filter(Boolean)` */
  function TruthyOnly(vs: seq<Json>): (r: seq<Json>)
    ensures |r| <= |vs|
    ensures forall i :: 0 <= i < |r| ==> Truthy(r[i])
    ensures forall v :: v in vs && Truthy(v) ==> v in r
    ensures forall v :: v in r ==> v in vs
  {
    if vs == [] then []
    else if Truthy(vs[0]) then [vs[0]] + TruthyOnly(vs[1..])
    else TruthyOnly(vs[1..])
  }

  /** `getLanguages(languages)`: the truthy language names joined with ", ",
      or 'N/A' for a missing or non-object argument or when there are none. */
  function GetLanguages(languages: Json): (r: Json)
    ensures r.Str?
    ensures !Truthy(languages) || !IsObject(languages) ==> r == NotAvailable
    ensures TruthyOnly(Values(languages)) == [] ==> r == NotAvailable
    ensures Truthy(languages) && TruthyOnly(Values(languages)) != []
      ==> r == Str(JoinList(TruthyOnly(Values(languages))))
  {
    if !Truthy(languages) || !IsObject(languages) then NotAvailable
    else
      var list := TruthyOnly(Values(languages));
      if |list| > 0 then Str(JoinList(list)) else NotAvailable
  }

  /** `getFlag(flags)`: the PNG address if truthy, else the SVG address if
      truthy, else ''. */
  function GetFlag(flags: Json): (r: Json)
    ensures Truthy(Prop(flags, "png")) ==> r == Prop(flags, "png")
    ensures !Truthy(Prop(flags, "png")) && Truthy(Prop(flags, "svg")) ==> r == Prop(flags, "svg")
    ensures !Truthy(Prop(flags, "png")) && !Truthy(Prop(flags, "svg")) ==> r == Str("")
  {
    if !Truthy(flags) then Str("")
    else Or(Or(Prop(flags, "png"), Prop(flags, "svg")), Str(""))
  }

  // ===========================================================================
  // The helpers on the shapes the REST Countries API documents

  datatype NativeName = NativeName(lang: string, official: string, common: string)

  datatype Currency = Currency(code: string, name: string, symbol: string)

  datatype Language = Language(code: string, name: string)

  datatype Flags = Flags(png: string, svg: string)

  function StrItems(xs: seq<string>): (r: seq<Json>)
    ensures |r| == |xs| && forall i :: 0 <= i < |xs| ==> r[i] == Str(xs[i])
  {
    seq(|xs|, i requires 0 <= i < |xs| => Str(xs[i]))
  }

  /** `{ official, common }` */
  function NativeNameObject(n: NativeName): Json {
    Obj([Entry("official", Str(n.official)), Entry("common", Str(n.common))])
  }

  function EncodeNativeNames(ns: seq<NativeName>): Json {
    Obj(seq(|ns|, i requires 0 <= i < |ns| => Entry(ns[i].lang, NativeNameObject(ns[i]))))
  }

  /** `{ name, symbol }` */
  function CurrencyObject(c: Currency): Json {
    Obj([Entry("name", Str(c.name)), Entry("symbol", Str(c.symbol))])
  }

  function CurrencyEntries(cs: seq<Currency>): (es: seq<Entry>)
    ensures |es| == |cs|
  {
    if cs == [] then [] else [Entry(cs[0].code, CurrencyObject(cs[0]))] + CurrencyEntries(cs[1..])
  }

  function EncodeCurrencies(cs: seq<Currency>): Json {
    Obj(CurrencyEntries(cs))
  }

  function LanguageEntries(ls: seq<Language>): (es: seq<Entry>)
    ensures |es| == |ls|
  {
    if ls == [] then [] else [Entry(ls[0].code, Str(ls[0].name))] + LanguageEntries(ls[1..])
  }

  function EncodeLanguages(ls: seq<Language>): Json {
    Obj(LanguageEntries(ls))
  }

  lemma StrItemsCons(x: string, xs: seq<string>)
    ensures StrItems([x] + xs) == [Str(x)] + StrItems(xs)
  {
  }

  /** The values of an object with one more entry in front. */
  lemma ValuesCons(e: Entry, es: seq<Entry>)
    ensures Values(Obj([e] + es)) == [e.value] + Values(Obj(es))
  {
  }

  /** Looking up the second of two differently named entries. */
  lemma LookupSecond(a: Entry, b: Entry)
    requires a.key != b.key
    ensures Lookup([a, b], a.key) == a.value
    ensures Lookup([a, b], b.key) == b.value
  {
    assert [a, b][1..] == [b];
  }

  function EncodeFlags(f: Flags): Json {
    Obj([Entry("png", Str(f.png)), Entry("svg", Str(f.svg))])
  }

  /** How a list of names is shown: joined with ", ", or "N/A" when empty. */
  function Listing(names: seq<string>): (t: string)
    ensures names == [] ==> t == "N/A"
    ensures |names| == 1 ==> t == names[0]
  {
    if names == [] then "N/A" else Join(names, ", ")
  }

  /** The non-empty names, in order. */
  function NonEmpty(names: seq<string>): (r: seq<string>)
    ensures |r| <= |names|
    ensures forall i :: 0 <= i < |r| ==> r[i] != []
    ensures forall x :: x in r ==> x in names
  {
    if names == [] then []
    else if names[0] != [] then [names[0]] + NonEmpty(names[1..])
    else NonEmpty(names[1..])
  }

  function CurrencyNameList(cs: seq<Currency>): (r: seq<string>)
    ensures |r| == |cs| && forall i :: 0 <= i < |cs| ==> r[i] == cs[i].name
  {
    seq(|cs|, i requires 0 <= i < |cs| => cs[i].name)
  }

  function LanguageNameList(ls: seq<Language>): (r: seq<string>)
    ensures |r| == |ls| && forall i :: 0 <= i < |ls| ==> r[i] == ls[i].name
  {
    seq(|ls|, i requires 0 <= i < |ls| => ls[i].name)
  }

  /** A capital list shows its first city, or "N/A" when there is none or it
      is empty. */
  lemma CapitalOfCityList(cities: seq<string>)
    ensures GetCapital(Arr(StrItems(cities)))
         == Str(if cities != [] && cities[0] != [] then cities[0] else "N/A")
  {
  }

  /** Native names show the first language's common name, falling back to
      its official name. */
  lemma NativeNameOfRecords(ns: seq<NativeName>)
    ensures GetNativeName(EncodeNativeNames(ns))
         == Str(if ns == [] || ns[0].lang == [] then "N/A"
                else if ns[0].common != [] then ns[0].common
                else if ns[0].official != [] then ns[0].official
                else "N/A")
  {
    if ns != [] {
      var e := NativeNameObject(ns[0]);
      assert EncodeNativeNames(ns).entries[0] == Entry(ns[0].lang, e);
      assert "official"[0] != "common"[0];
      LookupSecond(Entry("official", Str(ns[0].official)), Entry("common", Str(ns[0].common)));
    }
  }

  lemma {:induction false} CurrencyNamesOfRecords(cs: seq<Currency>)
    ensures CurrencyNames(Values(EncodeCurrencies(cs))) == StrItems(NonEmpty(CurrencyNameList(cs)))
    decreases |cs|
  {
    if cs != [] {
      var rest := Values(EncodeCurrencies(cs[1..]));
      var names := CurrencyNameList(cs);
      CurrencyNamesOfRecords(cs[1..]);
      ValuesCons(Entry(cs[0].code, CurrencyObject(cs[0])), CurrencyEntries(cs[1..]));
      assert Values(EncodeCurrencies(cs)) == [CurrencyObject(cs[0])] + rest;
      assert ([CurrencyObject(cs[0])] + rest)[1..] == rest;
      assert names == [cs[0].name] + CurrencyNameList(cs[1..]);
      assert "name"[0] != "symbol"[0];
      LookupSecond(Entry("name", Str(cs[0].name)), Entry("symbol", Str(cs[0].symbol)));
      StrItemsCons(names[0], NonEmpty(names[1..]));
    }
  }

  /** Rendering a list of strings with `join` is joining the strings. */
  lemma JoinListOfStrings(xs: seq<string>)
    ensures JoinList(StrItems(xs)) == Join(xs, ", ")
  {
    assert seq(|xs|, i requires 0 <= i < |xs| => JoinText(StrItems(xs)[i])) == xs;
  }

  /** The currencies of a country are listed by name, in order, skipping
      those without a name. */
  lemma CurrenciesOfRecords(cs: seq<Currency>)
    ensures GetCurrencies(EncodeCurrencies(cs)) == Str(Listing(NonEmpty(CurrencyNameList(cs))))
  {
    CurrencyNamesOfRecords(cs);
    JoinListOfStrings(NonEmpty(CurrencyNameList(cs)));
  }

  lemma {:induction false} LanguageNamesOfRecords(ls: seq<Language>)
    ensures TruthyOnly(Values(EncodeLanguages(ls))) == StrItems(NonEmpty(LanguageNameList(ls)))
    decreases |ls|
  {
    if ls != [] {
      var rest := Values(EncodeLanguages(ls[1..]));
      var names := LanguageNameList(ls);
      LanguageNamesOfRecords(ls[1..]);
      ValuesCons(Entry(ls[0].code, Str(ls[0].name)), LanguageEntries(ls[1..]));
      assert Values(EncodeLanguages(ls)) == [Str(ls[0].name)] + rest;
      assert ([Str(ls[0].name)] + rest)[1..] == rest;
      assert names == [ls[0].name] + LanguageNameList(ls[1..]);
      StrItemsCons(names[0], NonEmpty(names[1..]));
    }
  }

  /** The languages of a country are listed by name, in order, skipping
      empty names. */
  lemma LanguagesOfRecords(ls: seq<Language>)
    ensures GetLanguages(EncodeLanguages(ls)) == Str(Listing(NonEmpty(LanguageNameList(ls))))
  {
    LanguageNamesOfRecords(ls);
    JoinListOfStrings(NonEmpty(LanguageNameList(ls)));
  }

  /** The PNG flag is preferred; the SVG flag is the fallback. */
  lemma FlagOfRecord(f: Flags)
    ensures GetFlag(EncodeFlags(f)) == Str(if f.png != [] then f.png else f.svg)
  {
    assert "png"[0] != "svg"[0];
    LookupSecond(Entry("png", Str(f.png)), Entry("svg", Str(f.svg)));
  }

  /** Without a flags object the result is ''. */
  lemma FlagMissing()
    ensures GetFlag(Null) == Str("")
  {
  }

  // ===========================================================================
  // Reading a listing back

  /** A ", "-joined list is the ","-joined list of the same items with a
      space put in front of all but the first. */
  function Spaced(xs: seq<string>): (r: seq<string>)
    requires xs != []
    ensures |r| == |xs| && r[0] == xs[0]
    ensures forall i :: 1 <= i < |xs| ==> r[i] == " " + xs[i]
  {
    [xs[0]] + seq(|xs| - 1, i requires 0 <= i < |xs| - 1 => " " + xs[i + 1])
  }

  lemma {:induction false} JoinCommaSpace(xs: seq<string>)
    requires xs != []
    ensures Join(xs, ", ") == Join(Spaced(xs), ",")
    decreases |xs|
  {
    if |xs| > 1 {
      JoinCommaSpace(xs[1..]);
      var s := Spaced(xs);
      var t := Spaced(xs[1..]);
      assert s[1..] == [" " + t[0]] + t[1..];
      JoinExtendHeadStr(" ", t, ",");
    }
  }

  /** Prefixing the first item prefixes the joined string. */
  lemma JoinExtendHeadStr(p: string, xs: seq<string>, sep: string)
    requires xs != []
    ensures Join([p + xs[0]] + xs[1..], sep) == p + Join(xs, sep)
  {
    var r := [p + xs[0]] + xs[1..];
    assert r[1..] == xs[1..];
  }

  /** Splitting a listing at the commas and trimming each piece gives the
      names back, provided the names are trimmed, non-empty and comma-free. */
  lemma ListingRoundTrip(names: seq<string>)
    requires names != []
    requires forall i :: 0 <= i < |names| ==> names[i] != [] && ',' !in names[i] && Trim(names[i]) == names[i]
    ensures var parts := Split(Listing(names), ',');
      |parts| == |names| && forall i :: 0 <= i < |names| ==> Trim(parts[i]) == names[i]
  {
    var sp := Spaced(names);
    JoinCommaSpace(names);
    forall i | 0 <= i < |sp| ensures ',' !in sp[i] {
      if i > 0 {
        assert sp[i] == " " + names[i];
      }
    }
    SplitJoin(sp, ',');
    assert Split(Listing(names), ',') == sp;
    forall i | 1 <= i < |names| ensures Trim(sp[i]) == names[i] {
      TrimSpaced(names[i]);
    }
  }

  /** A space in front of a trimmed name is trimmed away again. */
  lemma TrimSpaced(x: string)
    requires Trim(x) == x
    ensures Trim(" " + x) == x
  {
    assert " " + x + [] == " " + x;
    TrimPadding(" ", x, []);
  }

  // ===========================================================================
  // filterCountries

  /** The `name` field of a country as it may arrive. */
  datatype CountryName =
    | Unnamed                               // missing, `null` or `undefined`
    | PlainName(text: string)               // a bare string
    | NameRecord(common: Option<string>)    // the usual `{ common, official, … }` object

  /** The country fields the list logic reads. */
  datatype Country = Country(code: string, name: CountryName, region: Option<string>, borders: Option<seq<string>>)

  /** A computation that returns a value or throws a TypeError. */
  datatype Outcome<T> = Returned(value: T) | Thrown

  /** `country.name?.common || country.name || ''`, as the code writes it,
      followed by `.toLowerCase()`: a name object whose `common` is missing
      or empty is itself truthy, so the fallback yields the object and the
      call throws. */
  function NameAsWritten(n: CountryName): (r: Outcome<string>)
    ensures r.Thrown? <==> n.NameRecord? && (n.common == None || n.common == Some([]))
    ensures n.Unnamed? ==> r == Returned([])
    ensures n.PlainName? ==> r == Returned(n.text)
  {
    match n
    case Unnamed => Returned([])
    case PlainName(t) => Returned(t)
    case NameRecord(c) => if c.Some? && c.value != [] then Returned(c.value) else Thrown
  }

  /** The name shown and searched: the common name, a bare string name, or ''
      when there is none. */
  function DisplayName(n: CountryName): (r: string)
    ensures NameAsWritten(n).Returned? ==> r == NameAsWritten(n).value
    ensures NameAsWritten(n).Thrown? ==> r == []
  {
    match n
    case Unnamed => []
    case PlainName(t) => t
    case NameRecord(c) => if c.Some? then c.value else []
  }

  /** The filter's test: the lower-cased name contains the lower-cased query,
      and the region filter is off or equals the country's region. */
  predicate Matches(c: Country, query: string, region: string) {
    && Includes(ToLower(DisplayName(c.name)), ToLower(query))
    && (region == [] || c.region == Some(region))
  }

  /** `filterCountries(countries, query, region)` as written: the countries
      are tested in order and the first one whose name resolves to the name
      object throws. */
  function FilterCountriesAsWritten(cs: seq<Country>, query: string, region: string): (r: Outcome<seq<Country>>)
    ensures r.Thrown? <==> exists i :: 0 <= i < |cs| && NameAsWritten(cs[i].name).Thrown?
  {
    if cs == [] then Returned([])
    else if NameAsWritten(cs[0].name).Thrown? then Thrown
    else
      var rest := FilterCountriesAsWritten(cs[1..], query, region);
      assert forall i :: 1 <= i < |cs| ==> cs[i] == cs[1..][i - 1];
      if rest.Thrown? then Thrown
      else if Matches(cs[0], query, region) then Returned([cs[0]] + rest.value)
      else rest
  }

  /** `filterCountries(countries, query, region)`: the countries that match,
      in their original order. */
  function FilterCountries(cs: seq<Country>, query: string, region: string): (r: seq<Country>)
    ensures IsSubsequence(r, cs)
    ensures forall c :: c in r ==> Matches(c, query, region)
    ensures forall c :: c in cs && Matches(c, query, region) ==> c in r
    ensures |r| <= |cs|
  {
    if cs == [] then []
    else
      var rest := FilterCountries(cs[1..], query, region);
      if Matches(cs[0], query, region) then
        [cs[0]] + rest
      else
        SubsequenceExtend(rest, cs);
        rest
  }

  /** With no query and no region every country is kept. */
  lemma {:induction false} FilterCountriesUnfiltered(cs: seq<Country>)
    ensures FilterCountries(cs, [], []) == cs
    decreases |cs|
  {
    if cs != [] {
      IncludesEmpty(ToLower(DisplayName(cs[0].name)));
      assert ToLower([]) == [];
      FilterCountriesUnfiltered(cs[1..]);
    }
  }

  /** Filtering twice with the same query and region is filtering once. */
  lemma {:induction false} FilterCountriesIdempotent(cs: seq<Country>, query: string, region: string)
    ensures FilterCountries(FilterCountries(cs, query, region), query, region) == FilterCountries(cs, query, region)
    decreases |cs|
  {
    if cs != [] {
      FilterCountriesIdempotent(cs[1..], query, region);
    }
  }

  /** Filtering distributes over concatenation. */
  lemma {:induction false} FilterCountriesAppend(a: seq<Country>, b: seq<Country>, query: string, region: string)
    ensures FilterCountries(a + b, query, region) == FilterCountries(a, query, region) + FilterCountries(b, query, region)
    decreases |a|
  {
    if a == [] {
      assert a + b == b;
    } else {
      assert (a + b)[1..] == a[1..] + b;
      FilterCountriesAppend(a[1..], b, query, region);
    }
  }

  /** The code as written agrees with the filter whenever no country's name
      resolves to the name object. */
  lemma {:induction false} FilterAsWrittenAgrees(cs: seq<Country>, query: string, region: string)
    requires forall i :: 0 <= i < |cs| ==> NameAsWritten(cs[i].name).Returned?
    ensures FilterCountriesAsWritten(cs, query, region) == Returned(FilterCountries(cs, query, region))
    decreases |cs|
  {
    if cs != [] {
      assert forall i :: 0 <= i < |cs[1..]| ==> cs[1..][i] == cs[i + 1];
      FilterAsWrittenAgrees(cs[1..], query, region);
    }
  }

  /** One country whose name object has no common name makes the call throw,
      whatever the query and region. */
  lemma FilterAsWrittenThrows(c: Country, query: string, region: string)
    requires c.name == NameRecord(None)
    ensures FilterCountriesAsWritten([c], query, region).Thrown?
    ensures FilterCountries([c], query, region) == (if query == [] && (region == [] || c.region == Some(region)) then [c] else [])
  {
    IncludesEmpty([]);
    if query != [] {
      assert |ToLower(query)| > 0;
      assert !Includes([], ToLower(query));
    }
  }
}
