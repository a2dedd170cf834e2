/** The geographic store: a reducer over a record state driven by string-typed
    actions, its writes to `localStorage`, and the provider's mount effect that
    reloads the saved search history. Payloads are arbitrary JSON values; the
    browser storage is a map from keys to what `JSON.parse` makes of the text
    stored there, and every write carries a flag saying whether it succeeded. */
module GeoContext {
  import opened Js
  import opened Api

  // ===========================================================================
  // State

  /** `initialState`'s shape. `searchHistory`, `comparisonMode` and
      `comparisonItems` keep their types under every action; every other field
      holds whatever payload was dispatched. */
  datatype GeoState = GeoState(
    searchQuery: Json,
    searchType: Json,
    searchResults: Json,
    searchHistory: seq<Json>,
    isSearching: Json,
    searchError: Json,
    userLocation: Json,
    userIP: Json,
    mapCenter: Json,
    mapZoom: Json,
    selectedLocation: Json,
    comparisonMode: bool,
    comparisonItems: seq<Json>)

  /** World view, nothing searched, nothing compared. */
  const Initial := GeoState(
    Str(""), Null, Null, [], Bool(false), Null, Null, Null,
    Arr([Num(0), Num(0)]), Num(2), Null, false, [])

  /** The storage key and the two bounds the reducer hard-codes. */
  const HistoryKey := "searchHistory"
  const MaxHistory := 10
  const MaxComparison := 2

  // ===========================================================================
  // Action types

  /** The members of `ActionTypes`. */
  datatype ActionType =
    | SET_SEARCH_QUERY
    | SET_SEARCH_RESULTS
    | SET_SEARCH_ERROR
    | SET_IS_SEARCHING
    | ADD_TO_HISTORY
    | CLEAR_HISTORY
    | SET_USER_LOCATION
    | SET_MAP_VIEW
    | SET_SELECTED_LOCATION
    | ADD_COMPARISON_ITEM
    | REMOVE_COMPARISON_ITEM
    | CLEAR_COMPARISON

  /** The string each member stands for: its own name. */
  function TypeName(k: ActionType): string {
    match k
    case SET_SEARCH_QUERY => "SET_SEARCH_QUERY"
    case SET_SEARCH_RESULTS => "SET_SEARCH_RESULTS"
    case SET_SEARCH_ERROR => "SET_SEARCH_ERROR"
    case SET_IS_SEARCHING => "SET_IS_SEARCHING"
    case ADD_TO_HISTORY => "ADD_TO_HISTORY"
    case CLEAR_HISTORY => "CLEAR_HISTORY"
    case SET_USER_LOCATION => "SET_USER_LOCATION"
    case SET_MAP_VIEW => "SET_MAP_VIEW"
    case SET_SELECTED_LOCATION => "SET_SELECTED_LOCATION"
    case ADD_COMPARISON_ITEM => "ADD_COMPARISON_ITEM"
    case REMOVE_COMPARISON_ITEM => "REMOVE_COMPARISON_ITEM"
    case CLEAR_COMPARISON => "CLEAR_COMPARISON"
  }

  /** The only member whose name a string can be, told apart by its length
      and at most two of its characters. */
  function NameCandidate(t: string): Option<ActionType> {
    match |t|
    case 12 => Some(SET_MAP_VIEW)
    case 13 => Some(CLEAR_HISTORY)
    case 14 => Some(ADD_TO_HISTORY)
    case 16 =>
      if t[4] == 'I' then Some(SET_IS_SEARCHING)
      else if t[0] == 'C' then Some(CLEAR_COMPARISON)
      else if t[11] == 'Q' then Some(SET_SEARCH_QUERY)
      else Some(SET_SEARCH_ERROR)
    case 17 => Some(SET_USER_LOCATION)
    case 18 => Some(SET_SEARCH_RESULTS)
    case 19 => Some(ADD_COMPARISON_ITEM)
    case 21 => Some(SET_SELECTED_LOCATION)
    case 22 => Some(REMOVE_COMPARISON_ITEM)
    case _ => None
  }

  lemma NameCandidateOfName(k: ActionType)
    ensures NameCandidate(TypeName(k)) == Some(k)
  {
    match k
    case SET_SEARCH_QUERY => assert |TypeName(k)| == 16 && TypeName(k)[4] == 'S' && TypeName(k)[0] == 'S' && TypeName(k)[11] == 'Q';
    case SET_SEARCH_ERROR => assert |TypeName(k)| == 16 && TypeName(k)[4] == 'S' && TypeName(k)[0] == 'S' && TypeName(k)[11] == 'E';
    case SET_IS_SEARCHING => assert |TypeName(k)| == 16 && TypeName(k)[4] == 'I';
    case CLEAR_COMPARISON => assert |TypeName(k)| == 16 && TypeName(k)[4] == 'R' && TypeName(k)[0] == 'C';
    case _ =>
  }

  /** The `case` of the reducer's `switch` that an `action.type` selects, if
      any: the member whose name the type is (`===`). */
  function ParseType(t: Json): (r: Option<ActionType>)
    ensures r.Some? ==> t == Str(TypeName(r.value))
  {
    if t.Str? && NameCandidate(t.s).Some? && TypeName(NameCandidate(t.s).value) == t.s then
      NameCandidate(t.s)
    else None
  }

  /** Each name selects its own case, and a type that is none of the names
      reaches `default`. */
  lemma ParseTypeName(k: ActionType)
    ensures ParseType(Str(TypeName(k))) == Some(k)
  {
    NameCandidateOfName(k);
  }

  lemma ParseTypeUnknown(t: Json)
    ensures ParseType(t) == None <==> forall k :: t != Str(TypeName(k))
  {
    if ParseType(t) == None {
      forall k ensures t != Str(TypeName(k)) {
        ParseTypeName(k);
      }
    }
  }

  // ===========================================================================
  // Actions and storage writes

  /** A dispatched `{ type, payload }` object; an absent payload is `Null`. */
  datatype RawAction = RawAction(actionType: Json, payload: Json)

  /** The value `localStorage.getItem` finds under a key, as `JSON.parse`
      reads it: a value, or text that is empty or does not parse. */
  datatype Stored = Parsed(value: Json) | Unparsable

  type Store = map<string, Stored>

  /** The storage call a reducer case makes. */
  datatype StorageWrite = NoWrite | SetItem(key: string, value: Json) | RemoveItem(key: string)

  /** The new state and the storage call made on the way. */
  datatype Step = Step(state: GeoState, write: StorageWrite)

  /** A storage call; a call that throws (`ok` false) is caught and leaves the
      storage as it was. */
  function Persist(store: Store, w: StorageWrite, ok: bool): (r: Store)
    ensures !ok || w.NoWrite? ==> r == store
    ensures ok && w.SetItem? ==> r == store[w.key := Parsed(w.value)]
    ensures ok && w.RemoveItem? ==> r == store - {w.key}
  {
    if !ok then store
    else match w
      case NoWrite => store
      case SetItem(k, v) => store[k := Parsed(v)]
      case RemoveItem(k) => store - {k}
  }

  // ===========================================================================
  // The reducer

  /** `[entry, ...history].slice(0, 10)` */
  function AddToHistory(history: seq<Json>, entry: Json): (r: seq<Json>)
    ensures |r| == if |history| < MaxHistory then |history| + 1 else MaxHistory
    ensures r[0] == entry && r[1..] == history[..|r| - 1]
  {
    Take([entry] + history, MaxHistory)
  }

  /** `[...items, item].slice(-2)` */
  function AddComparisonItem(items: seq<Json>, item: Json): (r: seq<Json>)
    ensures |r| == if |items| < MaxComparison then |items| + 1 else MaxComparison
    ensures r[|r| - 1] == item && r == (items + [item])[|items| + 1 - |r|..]
  {
    var all := items + [item];
    if |all| <= MaxComparison then all else all[|all| - MaxComparison..]
  }

  /** `items.filter(item => item.id !== id)` for items none of which is null:
      every copy of a kept item stays, every copy of a dropped one goes. */
  function RemoveById(items: seq<Json>, id: Json): (r: seq<Json>)
    ensures IsSubsequence(r, items)
    ensures forall x :: x in r <==> x in items && Prop(x, "id") != id
    ensures forall x :: multiset(r)[x] == if Prop(x, "id") != id then multiset(items)[x] else 0
    decreases |items|
  {
    if items == [] then []
    else
      var rest := RemoveById(items[1..], id);
      assert forall x :: x in items <==> x == items[0] || x in items[1..] by {
        assert items == [items[0]] + items[1..];
      }
      assert multiset(items) == multiset([items[0]]) + multiset(items[1..]) by {
        assert items == [items[0]] + items[1..];
      }
      if Prop(items[0], "id") != id then
        assert ([items[0]] + rest)[1..] == rest;
        [items[0]] + rest
      else
        SubsequenceExtend(rest, items);
        rest
  }

  /** Removal looks at the first item and then at the rest. */
  lemma RemoveByIdHead(items: seq<Json>, id: Json)
    requires items != []
    ensures RemoveById(items, id)
         == (if Prop(items[0], "id") != id then [items[0]] else []) + RemoveById(items[1..], id)
  {
  }

  /** Removal works item by item: removing from a concatenation removes from
      each part. */
  lemma {:induction false} RemoveByIdAppend(a: seq<Json>, b: seq<Json>, id: Json)
    ensures RemoveById(a + b, id) == RemoveById(a, id) + RemoveById(b, id)
    decreases |a|
  {
    if a == [] {
      assert a + b == b;
    } else {
      RemoveByIdAppend(a[1..], b, id);
      RemoveByIdAppendStep(a, b, id);
    }
  }

  lemma RemoveByIdAppendStep(a: seq<Json>, b: seq<Json>, id: Json)
    requires a != []
    requires RemoveById(a[1..] + b, id) == RemoveById(a[1..], id) + RemoveById(b, id)
    ensures RemoveById(a + b, id) == RemoveById(a, id) + RemoveById(b, id)
  {
    var p := if Prop(a[0], "id") != id then [a[0]] else [];
    var rr, rb := RemoveById(a[1..], id), RemoveById(b, id);
    AppendTail(a, b);
    RemoveByIdHead(a + b, id);
    assert RemoveById(a + b, id) == p + (rr + rb);
    RemoveByIdHead(a, id);
    AppendAssociative(p, rr, rb);
  }

  lemma AppendTail<T>(a: seq<T>, b: seq<T>)
    requires a != []
    ensures (a + b)[0] == a[0] && (a + b)[1..] == a[1..] + b
  {
  }

  lemma AppendAssociative<T>(p: seq<T>, q: seq<T>, r: seq<T>)
    ensures p + (q + r) == (p + q) + r
  {
  }

  /** One case of `geoReducer`. The member accesses on `action.payload` and on
      the comparison items throw when they hit `null` or `undefined`. */
  function ReduceCase(s: GeoState, k: ActionType, p: Json): (r: Outcome<Step>)
    ensures r.Thrown? <==>
      || (k in {SET_SEARCH_RESULTS, SET_USER_LOCATION, SET_MAP_VIEW} && p == Null)
      || (k == REMOVE_COMPARISON_ITEM && Null in s.comparisonItems)
  {
    match k
    case SET_SEARCH_QUERY => Returned(Step(s.(searchQuery := p), NoWrite))
    case SET_SEARCH_RESULTS =>
      if p == Null then Thrown
      else Returned(Step(s.(searchResults := Prop(p, "results"), searchType := Prop(p, "type"),
                            isSearching := Bool(false), searchError := Null), NoWrite))
    case SET_SEARCH_ERROR =>
      Returned(Step(s.(searchError := p, isSearching := Bool(false), searchResults := Null), NoWrite))
    case SET_IS_SEARCHING => Returned(Step(s.(isSearching := p), NoWrite))
    case ADD_TO_HISTORY =>
      var h := AddToHistory(s.searchHistory, p);
      Returned(Step(s.(searchHistory := h), SetItem(HistoryKey, Arr(h))))
    case CLEAR_HISTORY => Returned(Step(s.(searchHistory := []), RemoveItem(HistoryKey)))
    case SET_USER_LOCATION =>
      if p == Null then Thrown
      else Returned(Step(s.(userLocation := Prop(p, "location"), userIP := Prop(p, "ip")), NoWrite))
    case SET_MAP_VIEW =>
      if p == Null then Thrown
      else Returned(Step(s.(mapCenter := Prop(p, "center"), mapZoom := Prop(p, "zoom")), NoWrite))
    case SET_SELECTED_LOCATION => Returned(Step(s.(selectedLocation := p), NoWrite))
    case ADD_COMPARISON_ITEM =>
      Returned(Step(s.(comparisonMode := true, comparisonItems := AddComparisonItem(s.comparisonItems, p)), NoWrite))
    case REMOVE_COMPARISON_ITEM =>
      if Null in s.comparisonItems then Thrown
      else
        var items := RemoveById(s.comparisonItems, p);
        Returned(Step(s.(comparisonItems := items, comparisonMode := |items| > 0), NoWrite))
    case CLEAR_COMPARISON => Returned(Step(s.(comparisonMode := false, comparisonItems := []), NoWrite))
  }

  /** `geoReducer(state, action)`: an unknown type returns the state as it is. */
  function Reduce(s: GeoState, a: RawAction): (r: Outcome<Step>)
    ensures ParseType(a.actionType) == None ==> r == Returned(Step(s, NoWrite))
  {
    match ParseType(a.actionType)
    case None => Returned(Step(s, NoWrite))
    case Some(k) => ReduceCase(s, k, a.payload)
  }

  /** The state together with the browser storage. */
  datatype Session = Session(state: GeoState, store: Store)

  /** `dispatch(action)`: the reducer's result and its storage call applied. */
  function Dispatch(x: Session, a: RawAction, ok: bool): (r: Outcome<Session>)
    ensures r.Thrown? <==> Reduce(x.state, a).Thrown?
  {
    match Reduce(x.state, a)
    case Thrown => Thrown
    case Returned(step) => Returned(Session(step.state, Persist(x.store, step.write, ok)))
  }

  // ===========================================================================
  // Action creators

  /** The members of the context's `actions` object, with their arguments. */
  datatype Command =
    | SetSearchQuery(query: Json)
    | SetSearchResults(results: Json, kind: Json)
    | SetSearchError(error: Json)
    | SetIsSearching(flag: Json)
    | AddToHistoryItem(item: Json)
    | ClearHistory
    | SetUserLocation(location: Json, ip: Json)
    | SetMapView(center: Json, zoom: Json)
    | SetSelectedLocation(location: Json)
    | AddComparison(item: Json)
    | RemoveComparison(id: Json)
    | ClearComparison

  function KindOf(c: Command): ActionType {
    match c
    case SetSearchQuery(_) => SET_SEARCH_QUERY
    case SetSearchResults(_, _) => SET_SEARCH_RESULTS
    case SetSearchError(_) => SET_SEARCH_ERROR
    case SetIsSearching(_) => SET_IS_SEARCHING
    case AddToHistoryItem(_) => ADD_TO_HISTORY
    case ClearHistory => CLEAR_HISTORY
    case SetUserLocation(_, _) => SET_USER_LOCATION
    case SetMapView(_, _) => SET_MAP_VIEW
    case SetSelectedLocation(_) => SET_SELECTED_LOCATION
    case AddComparison(_) => ADD_COMPARISON_ITEM
    case RemoveComparison(_) => REMOVE_COMPARISON_ITEM
    case ClearComparison => CLEAR_COMPARISON
  }

  /** A two-field payload object `{ a, b }`. */
  function Pair(ka: string, a: Json, kb: string, b: Json): Json {
    Obj([Entry(ka, a), Entry(kb, b)])
  }

  /** The action object each creator dispatches. */
  function Encode(c: Command): (a: RawAction)
    ensures a.actionType == Str(TypeName(KindOf(c)))
  {
    var t := Str(TypeName(KindOf(c)));
    match c
    case SetSearchQuery(q) => RawAction(t, q)
    case SetSearchResults(results, kind) => RawAction(t, Pair("results", results, "type", kind))
    case SetSearchError(e) => RawAction(t, e)
    case SetIsSearching(f) => RawAction(t, f)
    case AddToHistoryItem(item) => RawAction(t, item)
    case ClearHistory => RawAction(t, Null)
    case SetUserLocation(location, ip) => RawAction(t, Pair("location", location, "ip", ip))
    case SetMapView(center, zoom) => RawAction(t, Pair("center", center, "zoom", zoom))
    case SetSelectedLocation(l) => RawAction(t, l)
    case AddComparison(item) => RawAction(t, item)
    case RemoveComparison(id) => RawAction(t, id)
    case ClearComparison => RawAction(t, Null)
  }

  /** Reading back a two-field payload gives each field. */
  lemma PairFields(ka: string, a: Json, kb: string, b: Json)
    requires ka != kb
    ensures Prop(Pair(ka, a, kb, b), ka) == a && Prop(Pair(ka, a, kb, b), kb) == b
  {
    LookupSecond(Entry(ka, a), Entry(kb, b));
  }

  /** What each action creator does to the state: the cases the code spells
      out, reached through the string type. The only creator that can throw
      is `removeComparisonItem`, and only when a compared item is `null`. */
  lemma CommandEffect(s: GeoState, c: Command)
    ensures Reduce(s, Encode(c)).Thrown? <==> c.RemoveComparison? && Null in s.comparisonItems
    ensures c.SetSearchResults? ==> Reduce(s, Encode(c)) == Returned(Step(s.(
              searchResults := c.results, searchType := c.kind, isSearching := Bool(false), searchError := Null), NoWrite))
    ensures c.SetSearchError? ==> Reduce(s, Encode(c)) == Returned(Step(s.(
              searchError := c.error, isSearching := Bool(false), searchResults := Null), NoWrite))
    ensures c.SetUserLocation? ==> Reduce(s, Encode(c)) == Returned(Step(s.(
              userLocation := c.location, userIP := c.ip), NoWrite))
    ensures c.SetMapView? ==> Reduce(s, Encode(c)) == Returned(Step(s.(
              mapCenter := c.center, mapZoom := c.zoom), NoWrite))
  {
    ParseTypeName(KindOf(c));
    match c
    case SetSearchResults(results, kind) =>
      assert "results"[0] != "type"[0];
      PairFields("results", results, "type", kind);
    case SetUserLocation(location, ip) =>
      assert "location"[0] != "ip"[0];
      PairFields("location", location, "ip", ip);
    case SetMapView(center, zoom) =>
      assert "center"[0] != "zoom"[0];
      PairFields("center", center, "zoom", zoom);
    case _ =>
  }

  /** The three plain setters store their payload in their own field;
      `SET_IS_SEARCHING` touches neither the error nor the results. */
  lemma SetterEffect(s: GeoState, c: Command)
    ensures c.SetSearchQuery? ==>
      Reduce(s, Encode(c)) == Returned(Step(s.(searchQuery := c.query), NoWrite))
    ensures c.SetIsSearching? ==>
      Reduce(s, Encode(c)) == Returned(Step(s.(isSearching := c.flag), NoWrite))
    ensures c.SetSelectedLocation? ==>
      Reduce(s, Encode(c)) == Returned(Step(s.(selectedLocation := c.location), NoWrite))
  {
    ParseTypeName(KindOf(c));
  }

  // ===========================================================================
  // Invariants

  /** History at most 10 long, at most two compared items, and comparison mode
      on exactly when something is compared. */
  predicate Valid(s: GeoState) {
    && |s.searchHistory| <= MaxHistory
    && |s.comparisonItems| <= MaxComparison
    && (s.comparisonMode <==> |s.comparisonItems| > 0)
  }

  /** The initial state is valid and every action keeps a state valid. */
  lemma ReducePreservesValid(s: GeoState, a: RawAction)
    ensures Valid(Initial)
    ensures Valid(s) && Reduce(s, a).Returned? ==> Valid(Reduce(s, a).value.state)
  {
    if Valid(s) && ParseType(a.actionType) == Some(REMOVE_COMPARISON_ITEM) && Null !in s.comparisonItems {
      SubsequenceLength(RemoveById(s.comparisonItems, a.payload), s.comparisonItems);
    }
  }

  /** The state fields, to say which of them an action writes. */
  datatype Field =
    | SearchQuery | SearchType | SearchResults | SearchHistory | IsSearching | SearchError
    | UserLocation | UserIP | MapCenter | MapZoom | SelectedLocation | ComparisonMode | ComparisonItems

  /** The fields each case of the reducer names. */
  function Writes(k: ActionType): set<Field> {
    match k
    case SET_SEARCH_QUERY => {SearchQuery}
    case SET_SEARCH_RESULTS => {SearchResults, SearchType, IsSearching, SearchError}
    case SET_SEARCH_ERROR => {SearchError, IsSearching, SearchResults}
    case SET_IS_SEARCHING => {IsSearching}
    case ADD_TO_HISTORY => {SearchHistory}
    case CLEAR_HISTORY => {SearchHistory}
    case SET_USER_LOCATION => {UserLocation, UserIP}
    case SET_MAP_VIEW => {MapCenter, MapZoom}
    case SET_SELECTED_LOCATION => {SelectedLocation}
    case ADD_COMPARISON_ITEM => {ComparisonMode, ComparisonItems}
    case REMOVE_COMPARISON_ITEM => {ComparisonItems, ComparisonMode}
    case CLEAR_COMPARISON => {ComparisonMode, ComparisonItems}
  }

  /** `s` and `t` agree on every field outside `fs`. */
  predicate SameExcept(s: GeoState, t: GeoState, fs: set<Field>) {
    && (SearchQuery !in fs ==> t.searchQuery == s.searchQuery)
    && (SearchType !in fs ==> t.searchType == s.searchType)
    && (SearchResults !in fs ==> t.searchResults == s.searchResults)
    && (SearchHistory !in fs ==> t.searchHistory == s.searchHistory)
    && (IsSearching !in fs ==> t.isSearching == s.isSearching)
    && (SearchError !in fs ==> t.searchError == s.searchError)
    && (UserLocation !in fs ==> t.userLocation == s.userLocation)
    && (UserIP !in fs ==> t.userIP == s.userIP)
    && (MapCenter !in fs ==> t.mapCenter == s.mapCenter)
    && (MapZoom !in fs ==> t.mapZoom == s.mapZoom)
    && (SelectedLocation !in fs ==> t.selectedLocation == s.selectedLocation)
    && (ComparisonMode !in fs ==> t.comparisonMode == s.comparisonMode)
    && (ComparisonItems !in fs ==> t.comparisonItems == s.comparisonItems)
  }

  /** Every action changes only the fields its case names, an unknown action
      changes nothing, and only the two history actions touch storage. */
  lemma ReduceFrame(s: GeoState, a: RawAction)
    ensures Reduce(s, a).Returned? ==>
      var t := Reduce(s, a).value;
      && SameExcept(s, t.state, if ParseType(a.actionType).Some? then Writes(ParseType(a.actionType).value) else {})
      && (t.write != NoWrite ==> ParseType(a.actionType) in {Some(ADD_TO_HISTORY), Some(CLEAR_HISTORY)})
  {
    if ParseType(a.actionType).Some? {
      CaseFrame(s, ParseType(a.actionType).value, a.payload);
    }
  }

  lemma CaseFrame(s: GeoState, k: ActionType, p: Json)
    ensures ReduceCase(s, k, p).Returned? ==>
      && SameExcept(s, ReduceCase(s, k, p).value.state, Writes(k))
      && (ReduceCase(s, k, p).value.write != NoWrite ==> k in {ADD_TO_HISTORY, CLEAR_HISTORY})
  {
    match k
    case SET_SEARCH_QUERY =>
    case SET_SEARCH_RESULTS =>
    case SET_SEARCH_ERROR =>
    case SET_IS_SEARCHING =>
    case ADD_TO_HISTORY =>
    case CLEAR_HISTORY =>
    case SET_USER_LOCATION =>
    case SET_MAP_VIEW =>
    case SET_SELECTED_LOCATION =>
    case ADD_COMPARISON_ITEM =>
    case REMOVE_COMPARISON_ITEM =>
    case CLEAR_COMPARISON =>
  }

  // ===========================================================================
  // Search history and storage

  /** `ADD_TO_HISTORY` and `CLEAR_HISTORY`: the new history does not depend on
      whether the storage call succeeds; when it does, the key holds the new
      history after an add and is gone after a clear. */
  lemma HistoryPersistence(x: Session, item: Json, ok: bool)
    ensures var add := Dispatch(x, Encode(AddToHistoryItem(item)), ok);
      && add.Returned?
      && add.value.state == x.state.(searchHistory := AddToHistory(x.state.searchHistory, item))
      && add.value.state == Dispatch(x, Encode(AddToHistoryItem(item)), !ok).value.state
      && (ok ==> add.value.store == x.store[HistoryKey := Parsed(Arr(add.value.state.searchHistory))])
      && (!ok ==> add.value.store == x.store)
    ensures var clear := Dispatch(x, Encode(ClearHistory), ok);
      && clear.Returned?
      && clear.value.state == x.state.(searchHistory := [])
      && (ok ==> HistoryKey !in clear.value.store)
      && (!ok ==> clear.value.store == x.store)
  {
    ParseTypeName(ADD_TO_HISTORY);
    ParseTypeName(CLEAR_HISTORY);
  }

  /** One `ADD_TO_HISTORY` dispatch, which never throws. */
  function AddDispatch(x: Session, item: Json, ok: bool): (r: Session)
    ensures Dispatch(x, Encode(AddToHistoryItem(item)), ok) == Returned(r)
  {
    ParseTypeName(ADD_TO_HISTORY);
    var h := AddToHistory(x.state.searchHistory, item);
    Session(x.state.(searchHistory := h), Persist(x.store, SetItem(HistoryKey, Arr(h)), ok))
  }

  /** `history.forEach(item => dispatch({ type: ADD_TO_HISTORY, payload: item }))` */
  function Replay(x: Session, items: seq<Json>, ok: bool): Session
    decreases |items|
  {
    if items == [] then x else Replay(AddDispatch(x, items[0], ok), items[1..], ok)
  }

  function Reverse(xs: seq<Json>): (r: seq<Json>)
    ensures |r| == |xs| && forall i :: 0 <= i < |xs| ==> r[i] == xs[|xs| - 1 - i]
    decreases |xs|
  {
    if xs == [] then [] else Reverse(xs[1..]) + [xs[0]]
  }

  lemma ReverseReverse(xs: seq<Json>)
    ensures Reverse(Reverse(xs)) == xs
  {
  }

  /** Truncating twice at the same length truncates once. */
  lemma TakeAppendTake(a: seq<Json>, b: seq<Json>, n: nat)
    ensures Take(a + Take(b, n), n) == Take(a + b, n)
  {
    if |b| > n {
      assert (a + b[..n]) == (a + b)[..|a| + n];
    }
  }

  /** Replaying leaves every field but the history alone. */
  lemma {:induction false} ReplayFrame(x: Session, items: seq<Json>, ok: bool)
    ensures Replay(x, items, ok).state == x.state.(searchHistory := Replay(x, items, ok).state.searchHistory)
    decreases |items|
  {
    if items != [] {
      ReplayFrame(AddDispatch(x, items[0], ok), items[1..], ok);
    }
  }

  /** Replaying a list adds its items one by one at the head: the history
      becomes the reversed list in front of the old history, cut at 10. */
  lemma {:induction false} ReplayHistory(x: Session, items: seq<Json>, ok: bool)
    requires items != []
    ensures Replay(x, items, ok).state.searchHistory == Take(Reverse(items) + x.state.searchHistory, MaxHistory)
    decreases |items|
  {
    var x1 := AddDispatch(x, items[0], ok);
    assert Replay(x, items, ok) == Replay(x1, items[1..], ok);
    if items[1..] == [] {
      assert Reverse(items) == Reverse(items[1..]) + [items[0]] == [items[0]];
    } else {
      ReplayHistory(x1, items[1..], ok);
      ReverseStep(items, x.state.searchHistory);
    }
  }

  /** The inductive step of `ReplayHistory`, on sequences alone. */
  lemma ReverseStep(items: seq<Json>, h: seq<Json>)
    requires items != []
    ensures Take(Reverse(items[1..]) + Take([items[0]] + h, MaxHistory), MaxHistory)
         == Take(Reverse(items) + h, MaxHistory)
  {
    var r := Reverse(items[1..]);
    assert Reverse(items) == r + [items[0]];
    TakeAppendTake(r, [items[0]] + h, MaxHistory);
    assert r + ([items[0]] + h) == (r + [items[0]]) + h;
  }

  /** The two together: the state after a replay. */
  lemma ReplayState(x: Session, items: seq<Json>, ok: bool)
    requires items != []
    ensures Replay(x, items, ok).state
         == x.state.(searchHistory := Take(Reverse(items) + x.state.searchHistory, MaxHistory))
  {
    ReplayFrame(x, items, ok);
    ReplayHistory(x, items, ok);
  }

  /** With storage working, every step rewrites the key, so after a replay it
      holds the final history; with storage failing nothing is written. */
  lemma {:induction false} ReplayStore(x: Session, items: seq<Json>, ok: bool)
    ensures var y := Replay(x, items, ok);
      && (!ok || items == [] ==> y.store == x.store)
      && (ok && items != [] ==> y.store == x.store[HistoryKey := Parsed(Arr(y.state.searchHistory))])
    decreases |items|
  {
    if items != [] {
      var x1 := AddDispatch(x, items[0], ok);
      ReplayStore(x1, items[1..], ok);
      if ok && items[1..] != [] {
        var v := Parsed(Arr(Replay(x, items, ok).state.searchHistory));
        assert x1.store[HistoryKey := v] == x.store[HistoryKey := v];
      }
    }
  }

  /** The mount effect as written: a saved array is replayed in its stored
      order. Missing or unparsable text, and a saved value that is not an
      array (it has no `forEach`), leave the session alone. */
  function MountAsWritten(x: Session, ok: bool): Session {
    if HistoryKey in x.store && x.store[HistoryKey].Parsed? && x.store[HistoryKey].value.Arr? then
      Replay(x, x.store[HistoryKey].value.items, ok)
    else x
  }

  /** The saved newest-first history, when storage holds an array there. */
  function SavedHistory(store: Store): seq<Json> {
    if HistoryKey in store && store[HistoryKey].Parsed? && store[HistoryKey].value.Arr? then
      store[HistoryKey].value.items
    else []
  }

  /** On a fresh page the written mount effect loads the saved history
      reversed: the oldest saved search comes first. */
  lemma MountAsWrittenReverses(store: Store, ok: bool)
    ensures MountAsWritten(Session(Initial, store), ok).state.searchHistory
         == Take(Reverse(SavedHistory(store)), MaxHistory)
  {
    if HistoryKey in store && store[HistoryKey].Parsed? && store[HistoryKey].value.Arr? {
      if SavedHistory(store) != [] {
        ReplayState(Session(Initial, store), SavedHistory(store), ok);
        assert Reverse(SavedHistory(store)) + [] == Reverse(SavedHistory(store));
      }
    }
  }

  /** Two saved searches `[a, b]` (newest first) come back as `[b, a]`, and
      storage is rewritten in that order, so every reload flips them. */
  lemma MountAsWrittenFlips(a: Json, b: Json, ok: bool)
    requires a != b
    ensures var store := map[HistoryKey := Parsed(Arr([a, b]))];
      var y := MountAsWritten(Session(Initial, store), ok);
      && y.state.searchHistory == [b, a]
      && y.state.searchHistory != SavedHistory(store)
      && (ok ==> y.store == map[HistoryKey := Parsed(Arr([b, a]))])
  {
    var store := map[HistoryKey := Parsed(Arr([a, b]))];
    MountAsWrittenReverses(store, ok);
    ReplayStore(Session(Initial, store), [a, b], ok);
    assert SavedHistory(store) == [a, b];
    assert Reverse([a, b]) == [b, a];
  }

  /** The mount effect with the replay running oldest first, so that each
      prepend lands in front of the older ones. */
  function Mount(x: Session, ok: bool): Session {
    if HistoryKey in x.store && x.store[HistoryKey].Parsed? && x.store[HistoryKey].value.Arr? then
      Replay(x, Reverse(x.store[HistoryKey].value.items), ok)
    else x
  }

  /** On a fresh page the saved history comes back as saved (its first 10
      entries), and with storage working it is saved back unchanged. */
  lemma MountRestores(store: Store, ok: bool)
    ensures var y := Mount(Session(Initial, store), ok);
      && y.state == Initial.(searchHistory := Take(SavedHistory(store), MaxHistory))
      && (ok && SavedHistory(store) != [] ==> y.store == store[HistoryKey := Parsed(Arr(y.state.searchHistory))])
      && (!ok || SavedHistory(store) == [] ==> y.store == store)
  {
    var saved := SavedHistory(store);
    if saved != [] {
      ReplayState(Session(Initial, store), Reverse(saved), ok);
      ReplayStore(Session(Initial, store), Reverse(saved), ok);
      ReverseReverse(saved);
      assert Reverse(Reverse(saved)) + [] == saved;
    } else if HistoryKey in store && store[HistoryKey].Parsed? && store[HistoryKey].value.Arr? {
      assert Reverse(saved) == [];
    }
  }

  /** Reloading again restores the same history: the mount is stable. */
  lemma MountStable(store: Store, ok: bool)
    ensures var y := Mount(Session(Initial, store), ok);
      Mount(Session(Initial, y.store), ok).state == y.state
  {
    var y := Mount(Session(Initial, store), ok);
    MountRestores(store, ok);
    MountRestores(y.store, ok);
    var h := Take(SavedHistory(store), MaxHistory);
    if ok && SavedHistory(store) != [] {
      assert SavedHistory(y.store) == h;
    } else {
      assert y.store == store;
    }
  }

  // ===========================================================================
  // Comparison

  /** `ADD_COMPARISON_ITEM` keeps the last two of the old items followed by the
      new one and turns comparison mode on. */
  lemma AddComparisonEffect(s: GeoState, item: Json)
    ensures var r := Reduce(s, Encode(AddComparison(item)));
      && r.Returned? && r.value.state.comparisonMode
      && r.value.state.comparisonItems == AddComparisonItem(s.comparisonItems, item)
  {
    ParseTypeName(ADD_COMPARISON_ITEM);
  }

  /** `REMOVE_COMPARISON_ITEM` drops every item with the given id, keeps the
      rest in order, and leaves the mode on exactly when something remains. */
  lemma RemoveComparisonEffect(s: GeoState, id: Json)
    requires Null !in s.comparisonItems
    ensures var r := Reduce(s, Encode(RemoveComparison(id)));
      && r.Returned?
      && IsSubsequence(r.value.state.comparisonItems, s.comparisonItems)
      && (forall x :: x in r.value.state.comparisonItems <==> x in s.comparisonItems && Prop(x, "id") != id)
      && (forall x :: multiset(r.value.state.comparisonItems)[x]
                       == if Prop(x, "id") != id then multiset(s.comparisonItems)[x] else 0)
      && r.value.state.comparisonItems == RemoveById(s.comparisonItems, id)
      && (r.value.state.comparisonMode <==> r.value.state.comparisonItems != [])
  {
    ParseTypeName(REMOVE_COMPARISON_ITEM);
    var items := RemoveById(s.comparisonItems, id);
    assert Reduce(s, Encode(RemoveComparison(id)))
        == Returned(Step(s.(comparisonItems := items, comparisonMode := |items| > 0), NoWrite));
  }

  /** `CLEAR_COMPARISON` empties the items and turns the mode off. */
  lemma ClearComparisonEffect(s: GeoState)
    ensures var r := Reduce(s, Encode(ClearComparison));
      r.Returned? && !r.value.state.comparisonMode && r.value.state.comparisonItems == []
  {
    ParseTypeName(CLEAR_COMPARISON);
  }
}
