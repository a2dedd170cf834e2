/** The list page's hook: the outcome of loading all countries, the filtered
    view, the region choices and the two counters. The fetch itself is a
    parameter: whatever it delivers is the input of `LoadCountries`. */
module UseCountries {
  import opened Js
  import opened Api

  /** The hook's state. */
  datatype CountriesState = CountriesState(
    allCountries: seq<Country>,
    isLoading: bool,
    error: Option<string>,
    searchQuery: string,
    selectedRegion: string)

  /** The state before the load finishes: nothing loaded yet. */
  const Initial := CountriesState([], true, None, "", "")

  const NoDataMessage := "No countries data received"

  // ===========================================================================
  // loadCountries

  /** The state once `loadCountries` has run with the list the fetch returned.
      The fetch reports every failure as an empty list, so an empty list is
      the only error. The query and region are whatever the user set
      meanwhile. */
  function LoadCountries(s: CountriesState, countries: seq<Country>): (r: CountriesState)
    ensures !r.isLoading
    ensures r.error == None <==> countries != []
    ensures r.error != None ==> r.error == Some(NoDataMessage) && r.allCountries == s.allCountries
    ensures r.error == None ==> r.allCountries == countries
    ensures r.searchQuery == s.searchQuery && r.selectedRegion == s.selectedRegion
  {
    if |countries| == 0 then s.(isLoading := false, error := Some(NoDataMessage))
    else s.(isLoading := false, error := None, allCountries := countries)
  }

  /** The load runs once, on mount, while nothing is loaded: afterwards there
      is an error exactly when no country was loaded. */
  lemma LoadOnMount(query: string, region: string, countries: seq<Country>)
    ensures var r := LoadCountries(Initial.(searchQuery := query, selectedRegion := region), countries);
      && (r.error == None <==> r.allCountries != [])
      && (r.allCountries == countries)
      && TotalCountries(r) == |countries|
  {
  }

  // ===========================================================================
  // filteredCountries, totalCountries, filteredCount

  /** `filteredCountries`: nothing before countries are loaded, the filtered
      list afterwards. The guard for an empty list is a shortcut only: the
      result is always the filter applied to the loaded list. */
  function FilteredCountries(s: CountriesState): (r: seq<Country>)
    ensures r == FilterCountries(s.allCountries, s.searchQuery, s.selectedRegion)
  {
    if |s.allCountries| == 0 then [] else FilterCountries(s.allCountries, s.searchQuery, s.selectedRegion)
  }

  /** `filteredCountries` as the code computes it: `filterCountries` as
      written throws while rendering when a loaded country's name is an object
      without a usable common name (see `Api.FilterCountriesAsWritten`);
      otherwise the view is the corrected one. */
  function FilteredCountriesAsWritten(s: CountriesState): (r: Outcome<seq<Country>>)
    ensures s.allCountries == [] ==> r == Returned([])
    ensures r.Thrown? <==>
      exists i :: 0 <= i < |s.allCountries| && NameAsWritten(s.allCountries[i].name).Thrown?
    ensures r.Returned? ==> r.value == FilteredCountries(s)
  {
    if |s.allCountries| == 0 then Returned([])
    else
      var r := FilterCountriesAsWritten(s.allCountries, s.searchQuery, s.selectedRegion);
      if r.Returned? then
        FilterAsWrittenAgrees(s.allCountries, s.searchQuery, s.selectedRegion);
        r
      else r
  }

  function TotalCountries(s: CountriesState): nat {
    |s.allCountries|
  }

  function FilteredCount(s: CountriesState): nat {
    |FilteredCountries(s)|
  }

  /** The filtered count never exceeds the total, and with no query and no
      region the two agree. The code reaches `filteredCount` only when its
      filter returns, and then its count is this one. */
  lemma FilteredCountBounded(s: CountriesState)
    ensures FilteredCount(s) <= TotalCountries(s)
    ensures s.searchQuery == [] && s.selectedRegion == [] ==> FilteredCount(s) == TotalCountries(s)
    ensures FilteredCountriesAsWritten(s).Returned? ==>
      |FilteredCountriesAsWritten(s).value| == FilteredCount(s)
  {
    if s.searchQuery == [] && s.selectedRegion == [] {
      FilterCountriesUnfiltered(s.allCountries);
    }
  }

  // ===========================================================================
  // availableRegions

  /** `[...new Set(xs)]`: the first occurrence of each value, in order. */
  function Dedup(xs: seq<Option<string>>): (r: seq<Option<string>>)
    ensures forall x :: x in r <==> x in xs
    ensures forall i, j :: 0 <= i < j < |r| ==> r[i] != r[j]
    decreases |xs|
  {
    if xs == [] then []
    else
      var r := Dedup(xs[..|xs| - 1]);
      assert forall x :: x in xs <==> x in xs[..|xs| - 1] || x == xs[|xs| - 1] by {
        assert xs == xs[..|xs| - 1] + [xs[|xs| - 1]];
      }
      if xs[|xs| - 1] in r then r else r + [xs[|xs| - 1]]
  }

  /** `.filter(Boolean)` on regions: missing and empty regions dropped. */
  function PresentRegions(rs: seq<Option<string>>): (r: seq<string>)
    ensures forall x :: x in r <==> x != [] && Some(x) in rs
    ensures (forall i, j :: 0 <= i < j < |rs| ==> rs[i] != rs[j]) ==>
              forall i, j :: 0 <= i < j < |r| ==> r[i] != r[j]
  {
    if rs == [] then []
    else
      var rest := PresentRegions(rs[1..]);
      assert forall x :: x in rs <==> x == rs[0] || x in rs[1..] by {
        assert rs == [rs[0]] + rs[1..];
      }
      if rs[0].Some? && rs[0].value != [] then
        assert (forall i, j :: 0 <= i < j < |rs| ==> rs[i] != rs[j]) ==> rs[0] !in rs[1..] by {
          if forall i, j :: 0 <= i < j < |rs| ==> rs[i] != rs[j] {
            forall k | 0 <= k < |rs[1..]| ensures rs[1..][k] != rs[0] {
              assert rs[1..][k] == rs[k + 1];
            }
          }
        }
        [rs[0].value] + rest
      else rest
  }

  /** Ascending in code-point order, without repeats. */
  predicate StrictlySorted(xs: seq<string>) {
    forall i, j :: 0 <= i < j < |xs| ==> StrLess(xs[i], xs[j])
  }

  /** Inserting a new string into a strictly sorted list. */
  function Insert(x: string, xs: seq<string>): (r: seq<string>)
    requires StrictlySorted(xs) && x !in xs
    ensures StrictlySorted(r)
    ensures forall y :: y in r <==> y == x || y in xs
    ensures |r| == |xs| + 1
  {
    if xs == [] then [x]
    else if StrLess(x, xs[0]) then
      forall j | 0 <= j < |xs| ensures StrLess(x, xs[j]) {
        if j > 0 { StrLessTransitive(x, xs[0], xs[j]); }
      }
      [x] + xs
    else
      StrLessTotal(x, xs[0]);
      var rest := Insert(x, xs[1..]);
      assert forall y :: y in rest ==> StrLess(xs[0], y) by {
        forall y | y in rest ensures StrLess(xs[0], y) {
          if y != x {
            var k :| 0 <= k < |xs[1..]| && xs[1..][k] == y;
            assert xs[k + 1] == y;
          }
        }
      }
      assert forall y :: y in xs <==> y == xs[0] || y in xs[1..] by {
        assert xs == [xs[0]] + xs[1..];
      }
      [xs[0]] + rest
  }

  /** `.sort()` of distinct strings: ascending code-point order. */
  function SortDistinct(xs: seq<string>): (r: seq<string>)
    requires forall i, j :: 0 <= i < j < |xs| ==> xs[i] != xs[j]
    ensures StrictlySorted(r)
    ensures forall y :: y in r <==> y in xs
    ensures |r| == |xs|
  {
    if xs == [] then []
    else
      assert forall y :: y in xs <==> y == xs[0] || y in xs[1..] by {
        assert xs == [xs[0]] + xs[1..];
      }
      Insert(xs[0], SortDistinct(xs[1..]))
  }

  function RegionsOf(cs: seq<Country>): (r: seq<Option<string>>)
    ensures |r| == |cs| && forall i :: 0 <= i < |cs| ==> r[i] == cs[i].region
  {
    seq(|cs|, i requires 0 <= i < |cs| => cs[i].region)
  }

  /** `availableRegions`: the distinct regions that are present, sorted.
      Deduplication runs before the missing regions are dropped, as in the
      code; the order of the two steps does not matter. */
  function AvailableRegions(all: seq<Country>): (r: seq<string>)
    ensures StrictlySorted(r)
    ensures forall x :: x in r <==> x != [] && exists c :: c in all && c.region == Some(x)
  {
    if |all| == 0 then []
    else
      var rs := RegionsOf(all);
      assert forall x :: Some(x) in rs <==> exists c :: c in all && c.region == Some(x) by {
        forall x ensures Some(x) in rs <==> exists c :: c in all && c.region == Some(x) {
          if Some(x) in rs {
            var i :| 0 <= i < |rs| && rs[i] == Some(x);
            assert all[i] in all;
          }
          if exists c :: c in all && c.region == Some(x) {
            var c :| c in all && c.region == Some(x);
            var i :| 0 <= i < |all| && all[i] == c;
            assert rs[i] == Some(x);
          }
        }
      }
      SortDistinct(PresentRegions(Dedup(rs)))
  }

  /** A strictly sorted list is determined by its elements: the region list
      is the one sorted enumeration of the set of present regions. */
  lemma {:induction false} StrictlySortedUnique(a: seq<string>, b: seq<string>)
    requires StrictlySorted(a) && StrictlySorted(b)
    requires forall x :: x in a <==> x in b
    ensures a == b
    decreases |a|
  {
    if a != [] {
      assert a[0] in b;
    }
    if b != [] {
      assert b[0] in a;
    }
    if a != [] && b != [] {
      HeadIsLeast(a, b[0]);
      HeadIsLeast(b, a[0]);
      StrLessAntisymmetric(a[0], b[0]);
      assert a[0] == b[0];
      forall x ensures x in a[1..] <==> x in b[1..] {
        SortedTail(a, x);
        SortedTail(b, x);
      }
      StrictlySortedUnique(a[1..], b[1..]);
      assert a == [a[0]] + a[1..] && b == [b[0]] + b[1..];
    }
  }

  lemma HeadIsLeast(a: seq<string>, x: string)
    requires StrictlySorted(a) && x in a
    ensures x == a[0] || StrLess(a[0], x)
  {
  }

  lemma StrLessAntisymmetric(a: string, b: string)
    ensures !(StrLess(a, b) && StrLess(b, a))
  {
    if StrLess(a, b) {
      StrLessAsymmetric(a, b);
    }
  }

  /** In a strictly sorted list the tail holds every element but the head. */
  lemma SortedTail(a: seq<string>, x: string)
    requires StrictlySorted(a) && a != []
    ensures x in a[1..] <==> x in a && x != a[0]
  {
    if x in a[1..] {
      var k :| 0 <= k < |a[1..]| && a[1..][k] == x;
      assert StrLess(a[0], a[k + 1]);
      if x == a[0] { StrLessIrreflexive(x); }
    }
    if x in a && x != a[0] {
      var k :| 0 <= k < |a| && a[k] == x;
      assert a[1..][k - 1] == x;
    }
  }

  /** The region list does not depend on the order of the countries. */
  lemma RegionsIgnoreOrder(a: seq<Country>, b: seq<Country>)
    requires forall c :: c in a <==> c in b
    ensures AvailableRegions(a) == AvailableRegions(b)
  {
    var ra := AvailableRegions(a);
    var rb := AvailableRegions(b);
    forall x ensures x in ra <==> x in rb {
    }
    StrictlySortedUnique(ra, rb);
  }
}
