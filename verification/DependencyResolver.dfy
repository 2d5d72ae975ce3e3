/**
  The closure of a set of libraries under their dependencies: rounds that resolve the pending
  queries and fetch the libraries they name, until a round names no library that is missing.
 */
module DependencyResolver {
  import opened CdnModel
  import opened GraphLayers
  import opened PyDict
  import opened VersionIndexing
  import opened VersionSelection
  import opened Wrappers

  // ---------- One round, as functions ----------

  function FlatDependencies(libs: seq<Library>): (r: seq<LibraryQuery>)
    ensures forall q :: q in r <==> exists lib <- libs :: q in lib.dependencies
  {
    if libs == [] then []
    else
      assert libs == [libs[0]] + libs[1..];
      libs[0].dependencies + FlatDependencies(libs[1..])
  }

  predicate Asks(queries: seq<LibraryQuery>, key: string) {
    exists q <- queries :: QueryKey(q) == key
  }

  lemma AsksLast(queries: seq<LibraryQuery>, q: LibraryQuery, key: string)
    ensures Asks(queries + [q], key) <==> Asks(queries, key) || QueryKey(q) == key
  {
    assert forall p :: p in queries + [q] <==> p in queries || p == q;
    assert q in queries + [q];
    if Asks(queries, key) {
      var p :| p in queries && QueryKey(p) == key;
      assert p in queries + [q];
    }
  }

  /** The queries whose key stands nowhere before them. */
  function FirstOfEachKey(queries: seq<LibraryQuery>): (r: seq<LibraryQuery>) {
    if queries == [] then []
    else
      var n := |queries| - 1;
      var before := FirstOfEachKey(queries[..n]);
      if Asks(before, QueryKey(queries[n])) then before else before + [queries[n]]
  }

  /** Removing duplicates keeps each key once and loses none. */
  lemma {:induction false} FirstOfEachKeyKeepsKeys(queries: seq<LibraryQuery>)
    ensures forall q <- FirstOfEachKey(queries) :: q in queries
    ensures forall k :: Asks(FirstOfEachKey(queries), k) <==> Asks(queries, k)
    ensures forall i, j :: 0 <= i < j < |FirstOfEachKey(queries)| ==>
      QueryKey(FirstOfEachKey(queries)[i]) != QueryKey(FirstOfEachKey(queries)[j])
  {
    if queries != [] {
      var n := |queries| - 1;
      var init, q := queries[..n], queries[n];
      assert queries == init + [q];
      FirstOfEachKeyKeepsKeys(init);
      var before := FirstOfEachKey(init);
      forall k
        ensures Asks(FirstOfEachKey(queries), k) <==> Asks(queries, k)
      {
        AsksLast(init, q, k);
        AsksLast(before, q, k);
      }
      forall i | 0 <= i < |before|
        ensures before[i] in before && Asks(before, QueryKey(before[i]))
      {
        assert before[i] in before;
      }
    }
  }

  function Unresolved(queries: seq<LibraryQuery>, resolutions: Resolutions): (r: seq<LibraryQuery>)
    ensures forall q :: q in r <==> q in queries && QueryKey(q) !in resolutions
  {
    if queries == [] then []
    else
      var rest := Unresolved(queries[1..], resolutions);
      if QueryKey(queries[0]) in resolutions then rest else [queries[0]] + rest
  }

  /** The queries a round has to resolve. */
  function Pending(libs: seq<Library>, resolutions: Resolutions): (r: seq<LibraryQuery>)
  {
    Unresolved(FirstOfEachKey(FlatDependencies(libs)), resolutions)
  }

  lemma PendingIsUnresolved(libs: seq<Library>, resolutions: Resolutions, q: LibraryQuery)
    requires q in Pending(libs, resolutions)
    ensures QueryKey(q) !in resolutions && exists lib <- libs :: q in lib.dependencies
  {
    FirstOfEachKeyKeepsKeys(FlatDependencies(libs));
  }

  lemma PendingIsComplete(libs: seq<Library>, resolutions: Resolutions, lib: Library, q: LibraryQuery)
    requires lib in libs && q in lib.dependencies
    ensures QueryKey(q) in resolutions || Asks(Pending(libs, resolutions), QueryKey(q))
  {
    var flat := FlatDependencies(libs);
    FirstOfEachKeyKeepsKeys(flat);
    assert q in flat && Asks(flat, QueryKey(q));
    var p :| p in FirstOfEachKey(flat) && QueryKey(p) == QueryKey(q);
    assert QueryKey(q) !in resolutions ==> p in Pending(libs, resolutions);
  }

  /** The queries that name no published version: what the round reports as errors. */
  function NotFoundAmong(index: Index, queries: seq<LibraryQuery>): (r: seq<LibraryQuery>)
    ensures forall q :: q in r <==> q in queries && ResolveVersion(index, q).LibraryNotFound?
  {
    if queries == [] then []
    else
      var n := |queries| - 1;
      assert queries == queries[..n] + [queries[n]];
      var before := NotFoundAmong(index, queries[..n]);
      if ResolveVersion(index, queries[n]).LibraryNotFound? then before + [queries[n]] else before
  }

  /** Some query resolves to the entry. */
  ghost predicate IsEntryOf(index: Index, queries: seq<LibraryQuery>, e: ResolvedQuery) {
    exists q <- queries :: ResolveVersion(index, q) == Resolved(e)
  }

  /** The entries of the queries that resolve; an unreadable query leaves none. */
  function Entries(index: Index, queries: seq<LibraryQuery>): (r: seq<ResolvedQuery>)
    ensures forall e :: e in r <==> IsEntryOf(index, queries, e)
  {
    if queries == [] then []
    else
      var n := |queries| - 1;
      assert queries == queries[..n] + [queries[n]];
      var before := Entries(index, queries[..n]);
      var answer := ResolveVersion(index, queries[n]);
      if answer.Resolved? then before + [answer.entry] else before
  }

  function EntryKey(e: ResolvedQuery): string {
    e.name + "#" + e.query
  }

  /** `resolutions.update({key: entry ...})`. */
  function Recorded(resolutions: Resolutions, entries: seq<ResolvedQuery>): (r: Resolutions)
    ensures forall k :: k in r <==> k in resolutions || exists e <- entries :: EntryKey(e) == k
    ensures forall k <- r :: (k in resolutions && r[k] == resolutions[k]) || (r[k] in entries && EntryKey(r[k]) == k)
  {
    if entries == [] then resolutions
    else
      var n := |entries| - 1;
      assert forall e <- entries :: e == entries[n] || e in entries[..n];
      Recorded(resolutions, entries[..n])[EntryKey(entries[n]) := entries[n]]
  }

  /** Symbol to entry, last one wins, for the symbols that are no key of the data cache. */
  function MissingPairs(entries: seq<ResolvedQuery>, fullData: map<string, Library>): (r: seq<(Symbol, ResolvedQuery)>)
    ensures forall p <- r :: p.1 in entries && p.0 == p.1.exportedSymbol && p.0 !in fullData
    ensures forall e <- entries :: e.exportedSymbol in fullData || (e.exportedSymbol, e) in r
  {
    if entries == [] then []
    else
      var n := |entries| - 1;
      assert forall e <- entries :: e == entries[n] || e in entries[..n];
      var before := MissingPairs(entries[..n], fullData);
      if entries[n].exportedSymbol in fullData then before else before + [(entries[n].exportedSymbol, entries[n])]
  }

  function Missing(entries: seq<ResolvedQuery>, fullData: map<string, Library>): (d: Dict<Symbol, ResolvedQuery>)
    ensures Valid(d)
  {
    FromPairs(MissingPairs(entries, fullData))
  }

  function FirstExtra(extra: seq<Library>, name: string, v: Version): (r: Option<Library>)
    ensures r.Some? ==> r.value in extra && r.value.name == name && r.value.version == v
    ensures r.None? ==> forall lib <- extra :: !(lib.name == name && lib.version == v)
  {
    if extra == [] then None
    else if extra[0].name == name && extra[0].version == v then Some(extra[0])
    else FirstExtra(extra[1..], name, v)
  }

  /** The document under the name and the version's index text. */
  function GetDocument(documents: seq<Document>, name: string, numberText: string): (r: Option<Document>)
    ensures r.Some? ==>
      r.value in documents && r.value.name == name && GetVersionNumberStr(r.value.version) == numberText
    ensures r.None? ==> forall d <- documents :: !(d.name == name && GetVersionNumberStr(d.version) == numberText)
  {
    if documents == [] then None
    else if documents[0].name == name && GetVersionNumberStr(documents[0].version) == numberText then Some(documents[0])
    else GetDocument(documents[1..], name, numberText)
  }

  /** `None` is the 404 of the database. */
  function GetData(index: Index, name: string, v: Version): Option<Library> {
    match FirstExtra(index.extra, name, v)
    case Some(lib) => Some(lib)
    case None =>
      match GetDocument(index.documents, name, GetVersionNumberStr(v))
      case None => None
      case Some(d) => Some(Library(name, v, ExportedSymbol(index, name), ApiKey(v), d.bundle, d.dependencies))
  }

  /** The libraries of the missing entries that can be fetched, in order. */
  function FetchAll(index: Index, entries: seq<ResolvedQuery>): (r: seq<Library>)
    ensures |r| <= |entries|
    ensures forall lib :: lib in r <==> exists e <- entries :: GetData(index, e.name, e.version) == Some(lib)
  {
    if entries == [] then []
    else
      var n := |entries| - 1;
      assert forall e <- entries :: e == entries[n] || e in entries[..n];
      var before := FetchAll(index, entries[..n]);
      match GetData(index, entries[n].name, entries[n].version)
      case Some(lib) => before + [lib]
      case None => before
  }

  /** `full_data_cache.update({lib.exportedSymbol: lib ...})`: the keys are short symbols. */
  function Cached(fullData: map<string, Library>, libs: seq<Library>): (r: map<string, Library>)
    ensures forall k :: k in r <==> k in fullData || exists lib <- libs :: lib.exportedSymbol == k
  {
    if libs == [] then fullData
    else
      var n := |libs| - 1;
      assert forall lib <- libs :: lib == libs[n] || lib in libs[..n];
      Cached(fullData, libs[..n])[libs[n].exportedSymbol := libs[n]]
  }

  // ---------- The rounds ----------

  datatype Closure =
    | Closed(libraries: seq<Library>, resolutions: Resolutions, fullData: map<string, Library>)
    | DependenciesError(errors: seq<LibraryQuery>)

  /** `universe` holds the key of every query the libraries or the index can ask. */
  ghost predicate Covers(universe: set<string>, index: Index, libs: seq<Library>) {
    && (forall lib <- libs, q <- lib.dependencies :: QueryKey(q) in universe)
    && (forall lib <- index.extra, q <- lib.dependencies :: QueryKey(q) in universe)
    && (forall d <- index.documents, q <- d.dependencies :: QueryKey(q) in universe)
  }

  lemma FetchedAreCovered(universe: set<string>, index: Index, libs: seq<Library>, entries: seq<ResolvedQuery>)
    requires Covers(universe, index, libs)
    ensures Covers(universe, index, FetchAll(index, entries))
  {
    forall lib, q | lib in FetchAll(index, entries) && q in lib.dependencies
      ensures QueryKey(q) in universe
    {
      var e :| e in entries && GetData(index, e.name, e.version) == Some(lib);
    }
  }

  lemma EntryHasQuery(index: Index, queries: seq<LibraryQuery>, e: ResolvedQuery) returns (q: LibraryQuery)
    requires e in Entries(index, queries)
    ensures q in queries && ResolveVersion(index, q) == Resolved(e)
    ensures EntryKey(e) == QueryKey(q)
  {
    q :| q in queries && ResolveVersion(index, q) == Resolved(e);
  }

  /** A round that finds missing libraries resolves a key of the universe for the first time. */
  lemma RoundShrinks(universe: set<string>, index: Index, libs: seq<Library>, resolutions: Resolutions,
                     fullData: map<string, Library>)
    requires Covers(universe, index, libs)
    ensures var entries := Entries(index, Pending(libs, resolutions));
      Missing(entries, fullData).keys != [] ==>
        |universe - Recorded(resolutions, entries).Keys| < |universe - resolutions.Keys|
  {
    var entries := Entries(index, Pending(libs, resolutions));
    if entries != [] {
      var k := NewKey(universe, index, libs, resolutions);
      DifferenceShrinks(universe, resolutions.Keys, Recorded(resolutions, entries).Keys, k);
    } else {
      assert MissingPairs(entries, fullData) == [];
    }
  }

  lemma NewKey(universe: set<string>, index: Index, libs: seq<Library>, resolutions: Resolutions) returns (k: string)
    requires Covers(universe, index, libs)
    requires Entries(index, Pending(libs, resolutions)) != []
    ensures var recorded := Recorded(resolutions, Entries(index, Pending(libs, resolutions)));
      k in universe && k !in resolutions && k in recorded && resolutions.Keys <= recorded.Keys
  {
    var e := Entries(index, Pending(libs, resolutions))[0];
    assert e in Entries(index, Pending(libs, resolutions));
    var q := EntryHasQuery(index, Pending(libs, resolutions), e);
    PendingIsUnresolved(libs, resolutions, q);
    k := QueryKey(q);
  }

  lemma DifferenceShrinks<T>(universe: set<T>, a: set<T>, b: set<T>, x: T)
    requires x in universe && x !in a && x in b && a <= b
    ensures |universe - b| < |universe - a|
  {
    SubsetSize(universe - b, universe - a - {x});
  }

  lemma SubsetSize<T>(a: set<T>, b: set<T>)
    requires a <= b
    ensures |a| <= |b|
  {
    assert b == a + (b - a);
  }

  ghost function Resolve(universe: set<string>, index: Index, libs: seq<Library>, resolutions: Resolutions,
                         fullData: map<string, Library>): Closure
    requires Covers(universe, index, libs)
    decreases |universe - resolutions.Keys|
  {
    var pending := Pending(libs, resolutions);
    var errors := NotFoundAmong(index, pending);
    if errors != [] then DependenciesError(errors)
    else
      var entries := Entries(index, pending);
      var missing := Missing(entries, fullData);
      var resolutions' := Recorded(resolutions, entries);
      if missing.keys == [] then Closed(libs, resolutions', fullData)
      else
        var fetched := FetchAll(index, Values(missing));
        FetchedAreCovered(universe, index, libs, Values(missing));
        RoundShrinks(universe, index, libs, resolutions, fullData);
        match Resolve(universe, index, fetched, resolutions', Cached(fullData, fetched))
        case Closed(rest, r, f) => Closed(libs + rest, r, f)
        case DependenciesError(e) => DependenciesError(e)
  }

  // ---------- Soundness of the entries ----------

  /** Every recorded entry is what its query resolves to. */
  ghost predicate Sound(index: Index, resolutions: Resolutions) {
    forall k <- resolutions :: IsResolutionOf(index, k, resolutions[k])
  }

  ghost predicate IsResolutionOf(index: Index, key: string, e: ResolvedQuery) {
    exists q :: QueryKey(q) == key && ResolveVersion(index, q) == Resolved(e)
  }

  lemma RecordedIsSound(index: Index, resolutions: Resolutions, queries: seq<LibraryQuery>)
    requires Sound(index, resolutions)
    ensures Sound(index, Recorded(resolutions, Entries(index, queries)))
  {
    var r := Recorded(resolutions, Entries(index, queries));
    forall k | k in r
      ensures IsResolutionOf(index, k, r[k])
    {
      if !(k in resolutions && r[k] == resolutions[k]) {
        var q := EntryHasQuery(index, queries, r[k]);
      }
    }
  }

  /** The version of an entry is published, its symbol that of its name and version. */
  lemma ResolvedIsPublished(index: Index, q: LibraryQuery)
    requires ResolveVersion(index, q).Resolved?
    ensures var e := ResolveVersion(index, q).entry;
      && e.name == q.name && e.query == q.version
      && e.version in Published(index, q.name)
      && e.exportedSymbol == FullExportedSymbol(index, q.name, e.version)
  {
    var query := EffectiveQuery(index, q);
    var versions := ListAllVersions(index, q.name).value;
    SameMembers(index, q.name);
    FixedChoice(versions, query);
    if !IsFixed(query) {
      RangeChoiceIsCandidate(index, query, versions);
    }
  }

  // ---------- What can be obtained ----------

  /** The query asks for the library and is answered with the version. */
  ghost predicate Gets(index: Index, q: LibraryQuery, name: string, v: Version) {
    q.name == name && ResolveVersion(index, q).Resolved? && ResolveVersion(index, q).entry.version == v
  }

  /** Some query is answered with the version. */
  ghost predicate Obtainable(index: Index, name: string, v: Version) {
    exists q :: Gets(index, q, name, v)
  }

  ghost predicate Available(index: Index, name: string) {
    exists v :: Obtainable(index, name, v)
  }

  /**
    What can be obtained: of a name that `using` imposes, what any query is answered with; of another
    one, each published version whose text can be read as a query.
   */
  lemma ObtainableExactly(index: Index, name: string, v: Version)
    ensures Obtainable(index, name, v) ==> v in Published(index, name)
    ensures name in index.using ==> (Obtainable(index, name, v) <==> Gets(index, LibraryQuery(name, "*"), name, v))
    ensures name !in index.using && index.parses(VersionText(v)) ==>
      (Obtainable(index, name, v) <==> v in Published(index, name))
  {
    forall q | Gets(index, q, name, v)
      ensures v in Published(index, name)
      ensures name in index.using ==> Gets(index, LibraryQuery(name, "*"), name, v)
    {
      ResolvedIsPublished(index, q);
    }
    if v in Published(index, name) && name !in index.using && index.parses(VersionText(v)) {
      TextResolves(index, name, v);
      assert Gets(index, LibraryQuery(name, VersionText(v)), name, v);
    }
  }

  lemma IsObtainable(index: Index, q: LibraryQuery, name: string, v: Version)
    requires Gets(index, q, name, v)
    ensures Obtainable(index, name, v) && Available(index, name)
  {
    assert Obtainable(index, name, v);
  }

  /** A library of the index carries the symbols of its name and version. */
  ghost predicate WellNamed(index: Index, lib: Library) {
    lib.exportedSymbol == ExportedSymbol(index, lib.name) && lib.apiKey == ApiKey(lib.version)
  }

  ghost predicate WellFormed(index: Index) {
    forall lib <- index.extra :: WellNamed(index, lib)
  }

  /** Every published version can be fetched, under its own name, version and symbol. */
  lemma PublishedIsFetched(index: Index, name: string, v: Version)
    requires WellFormed(index) && v in Published(index, name)
    ensures var r := GetData(index, name, v);
      && r.Some? && r.value.name == name && r.value.version == v && WellNamed(index, r.value)
      && FullSymbol(r.value) == FullExportedSymbol(index, name, v)
  {
    if FirstExtra(index.extra, name, v).None? {
      var d :| d in index.documents && d.name == name && d.version == v;
    }
  }

  /** The first library of the extra index under a name and version. */
  ghost predicate FirstExtraAt(index: Index, i: int, name: string, v: Version) {
    && 0 <= i < |index.extra| && index.extra[i].name == name && index.extra[i].version == v
    && forall j :: 0 <= j < i ==> !(index.extra[j].name == name && index.extra[j].version == v)
  }

  lemma {:induction false} ExtraComesFirst(extra: seq<Library>, i: nat, name: string, v: Version)
    requires i < |extra| && extra[i].name == name && extra[i].version == v
    requires forall j :: 0 <= j < i ==> !(extra[j].name == name && extra[j].version == v)
    ensures FirstExtra(extra, name, v) == Some(extra[i])
  {
    if i > 0 {
      assert forall j :: 0 <= j < i - 1 ==> extra[1..][j] == extra[j + 1];
      ExtraComesFirst(extra[1..], i - 1, name, v);
    }
  }

  /** The library of the extra index is taken as it is, whatever is published besides. */
  lemma ExtraIsFetched(index: Index, i: int, name: string, v: Version)
    requires FirstExtraAt(index, i, name, v)
    ensures GetData(index, name, v) == Some(index.extra[i])
  {
    ExtraComesFirst(index.extra, i, name, v);
  }

  /** A document of the library, with the same index text: the same version, if versions are indexable. */
  ghost predicate DocumentOf(index: Index, lib: Library, d: Document) {
    && d in index.documents && d.name == lib.name
    && GetVersionNumberStr(d.version) == GetVersionNumberStr(lib.version)
    && ((forall d <- index.documents :: Indexable(d.version)) ==> d.version == lib.version)
    && lib.bundle == d.bundle && lib.dependencies == d.dependencies && lib.apiKey == ApiKey(lib.version)
    && lib.exportedSymbol ==
         if lib.name in index.exportedSymbols then index.exportedSymbols[lib.name] else lib.name
  }

  /** The library is its first entry in the extra index or, without one, made from a document. */
  ghost predicate IsOwn(index: Index, lib: Library) {
    if lib.version in ExtraVersions(index.extra, lib.name)
    then exists i :: FirstExtraAt(index, i, lib.name, lib.version) && lib == index.extra[i]
    else exists d :: DocumentOf(index, lib, d)
  }

  /** What is fetched is its own entry or document, with its bundle and its dependencies. */
  lemma FetchedIsOwn(index: Index, name: string, v: Version)
    requires WellFormed(index) && v in Published(index, name)
    ensures GetData(index, name, v).Some? && IsOwn(index, GetData(index, name, v).value)
  {
    PublishedIsFetched(index, name, v);
    var lib := GetData(index, name, v).value;
    if v in ExtraVersions(index.extra, name) {
      var i := FirstOfExtra(index, name, v);
      ExtraIsFetched(index, i, name, v);
    } else {
      var d := GetDocument(index.documents, name, GetVersionNumberStr(v)).value;
      if forall d <- index.documents :: Indexable(d.version) {
        var own :| own in index.documents && own.name == name && own.version == v;
        TextReflectsOrder(d.version, v);
      }
      assert DocumentOf(index, lib, d);
    }
  }

  lemma FirstOfExtra(index: Index, name: string, v: Version) returns (i: nat)
    requires v in ExtraVersions(index.extra, name)
    ensures FirstExtraAt(index, i, name, v)
  {
    var lib :| lib in index.extra && lib.name == name && lib.version == v;
    i := 0;
    while !(index.extra[i].name == name && index.extra[i].version == v)
      invariant i < |index.extra|
      invariant forall j :: 0 <= j < i ==> !(index.extra[j].name == name && index.extra[j].version == v)
      decreases |index.extra| - i
    {
      i := i + 1;
    }
  }

  /** When the versions are indexable, the document fetched is the one published under the version. */
  lemma FetchedIsOwnDocument(index: Index, name: string, v: Version)
    requires v in Published(index, name)
    requires forall d <- index.documents :: Indexable(d.version)
    requires FirstExtra(index.extra, name, v).None?
    ensures var r := GetData(index, name, v);
      r.Some? && exists d <- index.documents ::
        d.name == name && d.version == v && r.value.dependencies == d.dependencies && r.value.bundle == d.bundle
  {
    var own :| own in index.documents && own.name == name && own.version == v;
    var d := GetDocument(index.documents, name, GetVersionNumberStr(v)).value;
    TextReflectsOrder(d.version, v);
  }

  // ---------- Reachability ----------

  /** Some query of `a` resolves to `b`. */
  ghost predicate DependsOn(index: Index, a: Library, b: Library) {
    exists q <- a.dependencies ::
      ResolveVersion(index, q).Resolved? &&
      GetData(index, q.name, ResolveVersion(index, q).entry.version) == Some(b)
  }

  ghost function Dependence(index: Index): (Library, Library) -> bool {
    (a, b) => DependsOn(index, a, b)
  }

  ghost predicate Chain<T>(link: (T, T) -> bool, route: seq<T>) {
    forall i :: 0 < i < |route| ==> link(route[i - 1], route[i])
  }

  ghost predicate Route(index: Index, libs: seq<Library>, route: seq<Library>, b: Library) {
    && |route| > 0 && route[0] in libs && route[|route| - 1] == b
    && Chain(Dependence(index), route)
  }

  ghost predicate Reachable(index: Index, libs: seq<Library>, b: Library) {
    exists route :: Route(index, libs, route, b)
  }

  lemma StartIsReachable(index: Index, libs: seq<Library>, b: Library)
    requires b in libs
    ensures Reachable(index, libs, b)
  {
    assert Route(index, libs, [b], b);
  }

  lemma ChainFrom<T>(link: (T, T) -> bool, a: T, route: seq<T>)
    requires route != [] && link(a, route[0]) && Chain(link, route)
    ensures Chain(link, [a] + route)
  {
  }

  lemma ReachableThrough(index: Index, libs: seq<Library>, fetched: seq<Library>, b: Library)
    requires Reachable(index, fetched, b)
    requires forall c <- fetched :: exists a <- libs :: DependsOn(index, a, c)
    ensures Reachable(index, libs, b)
  {
    var route :| Route(index, fetched, route, b);
    var a :| a in libs && DependsOn(index, a, route[0]);
    ChainFrom(Dependence(index), a, route);
    assert Route(index, libs, [a] + route, b);
  }

  lemma MissingAreEntries(entries: seq<ResolvedQuery>, fullData: map<string, Library>, e: ResolvedQuery)
    returns (s: Symbol)
    requires e in Values(Missing(entries, fullData))
    ensures e in entries && e.exportedSymbol == s && s in Missing(entries, fullData).keys
  {
    var missing := Missing(entries, fullData);
    var i :| 0 <= i < |missing.keys| && Values(missing)[i] == e;
    s := missing.keys[i];
    var j := ValueHasLastPair(MissingPairs(entries, fullData), s);
    assert MissingPairs(entries, fullData)[j] in MissingPairs(entries, fullData);
  }

  /** An entry whose symbol is no key of the data cache leaves a value with its symbol. */
  lemma EntryIsMissing(entries: seq<ResolvedQuery>, fullData: map<string, Library>, e: ResolvedQuery)
    returns (m: ResolvedQuery)
    requires e in entries && e.exportedSymbol !in fullData
    ensures m in Values(Missing(entries, fullData)) && m in entries && m.exportedSymbol == e.exportedSymbol
  {
    var pairs := MissingPairs(entries, fullData);
    var missing := Missing(entries, fullData);
    var k :| 0 <= k < |pairs| && pairs[k] == (e.exportedSymbol, e);
    assert pairs[k].0 == e.exportedSymbol;
    KeysOfPairs(pairs, e.exportedSymbol);
    assert e.exportedSymbol in missing.vals && e.exportedSymbol in missing.keys;
    var i :| 0 <= i < |missing.keys| && missing.keys[i] == e.exportedSymbol;
    m := Values(missing)[i];
    var s := MissingAreEntries(entries, fullData, m);
    var j := ValueHasLastPair(pairs, e.exportedSymbol);
    assert pairs[j] in pairs;
  }

  /** The libraries a round fetches. */
  function RoundFetch(index: Index, libs: seq<Library>, resolutions: Resolutions,
                      fullData: map<string, Library>): seq<Library> {
    FetchAll(index, Values(Missing(Entries(index, Pending(libs, resolutions)), fullData)))
  }

  /** What a round fetches is what a query of its libraries resolves to. */
  lemma FetchedIsDependency(index: Index, libs: seq<Library>, resolutions: Resolutions, fullData: map<string, Library>,
                            c: Library)
    returns (q: LibraryQuery)
    requires c in RoundFetch(index, libs, resolutions, fullData)
    ensures ResolveVersion(index, q).Resolved?
    ensures GetData(index, q.name, ResolveVersion(index, q).entry.version) == Some(c)
    ensures ResolveVersion(index, q).entry.version in Published(index, q.name)
    ensures exists a <- libs :: DependsOn(index, a, c)
  {
    var pending := Pending(libs, resolutions);
    var entries := Entries(index, pending);
    var e :| e in Values(Missing(entries, fullData)) && GetData(index, e.name, e.version) == Some(c);
    var s := MissingAreEntries(entries, fullData, e);
    q := EntryHasQuery(index, pending, e);
    PendingIsUnresolved(libs, resolutions, q);
    ResolvedIsPublished(index, q);
    var a :| a in libs && q in a.dependencies;
    assert DependsOn(index, a, c);
  }

  // ---------- Properties of the closure ----------

  /** The keys of the data cache are short symbols of libraries that can be obtained. */
  ghost predicate ShortKeys(index: Index, fullData: map<string, Library>) {
    forall k <- fullData :: exists name :: Available(index, name) && k == ExportedSymbol(index, name)
  }

  ghost predicate AskedByReachable(index: Index, libs: seq<Library>, q: LibraryQuery) {
    exists a :: Reachable(index, libs, a) && q in a.dependencies
  }

  /** A reachable library asks a query under the key that cannot be read: its exception was dropped. */
  ghost predicate Unreadable(index: Index, libs: seq<Library>, key: string) {
    exists p :: QueryKey(p) == key && ResolveVersion(index, p).Dropped? && AskedByReachable(index, libs, p)
  }

  ghost predicate Extends(resolutions: Resolutions, resolutions': Resolutions) {
    forall k <- resolutions :: k in resolutions' && resolutions'[k] == resolutions[k]
  }

  lemma RecordedExtends(index: Index, libs: seq<Library>, resolutions: Resolutions)
    ensures Extends(resolutions, Recorded(resolutions, Entries(index, Pending(libs, resolutions))))
  {
    var entries := Entries(index, Pending(libs, resolutions));
    forall k | k in resolutions
      ensures Recorded(resolutions, entries)[k] == resolutions[k]
    {
      var e := Recorded(resolutions, entries)[k];
      if e in entries && EntryKey(e) == k {
        var q := EntryHasQuery(index, Pending(libs, resolutions), e);
        PendingIsUnresolved(libs, resolutions, q);
      }
    }
  }

  /** The rounds only append libraries and entries, and the entries stay sound. */
  lemma {:induction false} ClosureExtends(universe: set<string>, index: Index, libs: seq<Library>,
                                          resolutions: Resolutions, fullData: map<string, Library>, c: Closure)
    requires Covers(universe, index, libs) && Sound(index, resolutions)
    requires c == Resolve(universe, index, libs, resolutions, fullData) && c.Closed?
    ensures libs <= c.libraries && Extends(resolutions, c.resolutions) && Sound(index, c.resolutions)
    decreases |universe - resolutions.Keys|
  {
    var entries := Entries(index, Pending(libs, resolutions));
    RecordedExtends(index, libs, resolutions);
    RecordedIsSound(index, resolutions, Pending(libs, resolutions));
    if Missing(entries, fullData).keys != [] {
      var next := NextRound(universe, index, libs, resolutions, fullData, c);
      var fetched := RoundFetch(index, libs, resolutions, fullData);
      ClosureExtends(universe, index, fetched, Recorded(resolutions, entries), Cached(fullData, fetched), next);
    }
  }

  /** The closure of a round that fetches libraries is that of the next round, after its own libraries. */
  lemma NextRound(universe: set<string>, index: Index, libs: seq<Library>, resolutions: Resolutions,
                  fullData: map<string, Library>, c: Closure) returns (next: Closure)
    requires Covers(universe, index, libs)
    requires c == Resolve(universe, index, libs, resolutions, fullData)
    requires NotFoundAmong(index, Pending(libs, resolutions)) == []
    requires Missing(Entries(index, Pending(libs, resolutions)), fullData).keys != []
    ensures var fetched := RoundFetch(index, libs, resolutions, fullData);
      var recorded := Recorded(resolutions, Entries(index, Pending(libs, resolutions)));
      && Covers(universe, index, fetched)
      && |universe - recorded.Keys| < |universe - resolutions.Keys|
      && next == Resolve(universe, index, fetched, recorded, Cached(fullData, fetched))
    ensures c.Closed? ==> next.Closed? && c == Closed(libs + next.libraries, next.resolutions, next.fullData)
    ensures c.DependenciesError? ==> c == next
  {
    var fetched := RoundFetch(index, libs, resolutions, fullData);
    FetchedAreCovered(universe, index, libs, Values(Missing(Entries(index, Pending(libs, resolutions)), fullData)));
    RoundShrinks(universe, index, libs, resolutions, fullData);
    next := Resolve(universe, index, fetched, Recorded(resolutions, Entries(index, Pending(libs, resolutions))),
                    Cached(fullData, fetched));
  }

  /** Every dependency query of `libs` has an entry, unless it cannot be read. */
  ghost predicate AllResolved(index: Index, start: seq<Library>, libs: seq<Library>, resolutions: Resolutions) {
    forall lib <- libs, q <- lib.dependencies :: QueryKey(q) in resolutions || Unreadable(index, start, QueryKey(q))
  }

  /** Every dependency query of every library returned has an entry, unless it cannot be read. */
  lemma {:induction false} ClosureIsResolved(universe: set<string>, index: Index, libs: seq<Library>,
                                             resolutions: Resolutions, fullData: map<string, Library>, c: Closure)
    requires Covers(universe, index, libs) && Sound(index, resolutions)
    requires c == Resolve(universe, index, libs, resolutions, fullData) && c.Closed?
    ensures AllResolved(index, libs, c.libraries, c.resolutions)
    decreases |universe - resolutions.Keys|
  {
    var entries := Entries(index, Pending(libs, resolutions));
    RoundResolves(index, libs, resolutions);
    if Missing(entries, fullData).keys != [] {
      var recorded := Recorded(resolutions, entries);
      var next := NextRound(universe, index, libs, resolutions, fullData, c);
      var fetched := RoundFetch(index, libs, resolutions, fullData);
      RecordedIsSound(index, resolutions, Pending(libs, resolutions));
      ClosureIsResolved(universe, index, fetched, recorded, Cached(fullData, fetched), next);
      ClosureExtends(universe, index, fetched, recorded, Cached(fullData, fetched), next);
      UnreadableThrough(index, libs, resolutions, fullData);
      ResolvedTogether(index, libs, fetched, next.libraries, recorded, next.resolutions);
    }
  }

  lemma ResolvedTogether(index: Index, libs: seq<Library>, fetched: seq<Library>, rest: seq<Library>,
                         recorded: Resolutions, resolutions: Resolutions)
    requires AllResolved(index, libs, libs, recorded) && Extends(recorded, resolutions)
    requires AllResolved(index, fetched, rest, resolutions)
    requires forall key :: Unreadable(index, fetched, key) ==> Unreadable(index, libs, key)
    ensures AllResolved(index, libs, libs + rest, resolutions)
  {
  }

  lemma UnreadableThrough(index: Index, libs: seq<Library>, resolutions: Resolutions, fullData: map<string, Library>)
    ensures forall key :: Unreadable(index, RoundFetch(index, libs, resolutions, fullData), key) ==>
            Unreadable(index, libs, key)
  {
    var fetched := RoundFetch(index, libs, resolutions, fullData);
    forall key | Unreadable(index, fetched, key)
      ensures Unreadable(index, libs, key)
    {
      var p :| QueryKey(p) == key && ResolveVersion(index, p).Dropped? && AskedByReachable(index, fetched, p);
      AskedThrough(index, libs, resolutions, fullData, p);
    }
  }

  lemma AskedByStart(index: Index, libs: seq<Library>, lib: Library, q: LibraryQuery)
    requires lib in libs && q in lib.dependencies
    ensures AskedByReachable(index, libs, q)
  {
    StartIsReachable(index, libs, lib);
  }

  /** A pending query leaves an entry under its key, unless it cannot be read. */
  lemma PendingIsRecorded(index: Index, libs: seq<Library>, resolutions: Resolutions, p: LibraryQuery)
    requires NotFoundAmong(index, Pending(libs, resolutions)) == [] && p in Pending(libs, resolutions)
    ensures QueryKey(p) in Recorded(resolutions, Entries(index, Pending(libs, resolutions))) ||
            Unreadable(index, libs, QueryKey(p))
  {
    var pending := Pending(libs, resolutions);
    assert p !in NotFoundAmong(index, pending);
    match ResolveVersion(index, p)
    case Resolved(e) =>
      assert IsEntryOf(index, pending, e);
      assert EntryKey(e) == QueryKey(p);
    case Dropped =>
      PendingIsUnresolved(libs, resolutions, p);
      DroppedIsUnreadable(index, libs, p);
    case LibraryNotFound =>
  }

  lemma DroppedIsUnreadable(index: Index, libs: seq<Library>, p: LibraryQuery)
    requires ResolveVersion(index, p).Dropped? && exists a <- libs :: p in a.dependencies
    ensures Unreadable(index, libs, QueryKey(p))
  {
    var a :| a in libs && p in a.dependencies;
    AskedByStart(index, libs, a, p);
  }

  lemma RoundResolves(index: Index, libs: seq<Library>, resolutions: Resolutions)
    requires NotFoundAmong(index, Pending(libs, resolutions)) == []
    ensures AllResolved(index, libs, libs, Recorded(resolutions, Entries(index, Pending(libs, resolutions))))
  {
    forall lib, q | lib in libs && q in lib.dependencies
      ensures QueryKey(q) in Recorded(resolutions, Entries(index, Pending(libs, resolutions))) ||
              Unreadable(index, libs, QueryKey(q))
    {
      PendingIsComplete(libs, resolutions, lib, q);
      if QueryKey(q) !in resolutions {
        var p :| p in Pending(libs, resolutions) && QueryKey(p) == QueryKey(q);
        PendingIsRecorded(index, libs, resolutions, p);
      }
    }
  }

  lemma FetchKeepsShortKeys(index: Index, libs: seq<Library>, resolutions: Resolutions, fullData: map<string, Library>)
    requires WellFormed(index) && ShortKeys(index, fullData)
    ensures ShortKeys(index, Cached(fullData, RoundFetch(index, libs, resolutions, fullData)))
  {
    var fetched := RoundFetch(index, libs, resolutions, fullData);
    forall k | k in Cached(fullData, fetched)
      ensures exists name :: Available(index, name) && k == ExportedSymbol(index, name)
    {
      if k !in fullData {
        var lib :| lib in fetched && lib.exportedSymbol == k;
        var q := FetchedIsDependency(index, libs, resolutions, fullData, lib);
        PublishedIsFetched(index, q.name, ResolveVersion(index, q).entry.version);
        IsObtainable(index, q, q.name, ResolveVersion(index, q).entry.version);
      }
    }
  }

  /** The symbol of an entry made this round is a key of the data cache or that of a library fetched this round. */
  lemma RoundFetchesSymbols(index: Index, libs: seq<Library>, resolutions: Resolutions, fullData: map<string, Library>,
                            e: ResolvedQuery)
    requires WellFormed(index) && e in Entries(index, Pending(libs, resolutions))
    ensures e.exportedSymbol in fullData || e.exportedSymbol in Symbols(RoundFetch(index, libs, resolutions, fullData))
  {
    if e.exportedSymbol !in fullData {
      var entries := Entries(index, Pending(libs, resolutions));
      var fetched := RoundFetch(index, libs, resolutions, fullData);
      var m := EntryIsMissing(entries, fullData, e);
      var p := EntryHasQuery(index, Pending(libs, resolutions), m);
      ResolvedIsPublished(index, p);
      PublishedIsFetched(index, m.name, m.version);
      var lib := GetData(index, m.name, m.version).value;
      assert lib in fetched && FullSymbol(lib) == e.exportedSymbol;
      var i :| 0 <= i < |fetched| && fetched[i] == lib;
      assert Symbols(fetched)[i] == e.exportedSymbol;
    }
  }

  /** What a round fetches carries no symbol that is a key of the data cache. */
  lemma RoundAvoidsCache(index: Index, libs: seq<Library>, resolutions: Resolutions, fullData: map<string, Library>)
    requires WellFormed(index)
    ensures forall m <- RoundFetch(index, libs, resolutions, fullData) :: FullSymbol(m) !in fullData
  {
    var entries := Entries(index, Pending(libs, resolutions));
    forall m | m in RoundFetch(index, libs, resolutions, fullData)
      ensures FullSymbol(m) !in fullData
    {
      var e :| e in Values(Missing(entries, fullData)) && GetData(index, e.name, e.version) == Some(m);
      var s := MissingAreEntries(entries, fullData, e);
      var j := ValueHasLastPair(MissingPairs(entries, fullData), s);
      assert MissingPairs(entries, fullData)[j] in MissingPairs(entries, fullData);
      var q := EntryHasQuery(index, Pending(libs, resolutions), e);
      ResolvedIsPublished(index, q);
      PublishedIsFetched(index, e.name, e.version);
    }
  }

  lemma SymbolsOfPart(part: seq<Library>, libs: seq<Library>)
    requires forall lib <- part :: lib in libs
    ensures forall s <- Symbols(part) :: s in Symbols(libs)
  {
    forall s | s in Symbols(part)
      ensures s in Symbols(libs)
    {
      var i :| 0 <= i < |part| && Symbols(part)[i] == s;
      assert part[i] in part;
      var j :| 0 <= j < |libs| && libs[j] == part[i];
      assert Symbols(libs)[j] == s;
    }
  }

  /** Every entry that is not in `before` names the symbol of one of `libs` or a key of the data cache. */
  ghost predicate NewSymbolsIn(before: Resolutions, after: Resolutions, libs: seq<Library>,
                               fullData: map<string, Library>) {
    forall k <- after :: k in before || after[k].exportedSymbol in Symbols(libs) || after[k].exportedSymbol in fullData
  }

  lemma RoundHasSymbols(index: Index, libs: seq<Library>, resolutions: Resolutions, fullData: map<string, Library>)
    requires WellFormed(index)
    ensures NewSymbolsIn(resolutions, Recorded(resolutions, Entries(index, Pending(libs, resolutions))),
                         RoundFetch(index, libs, resolutions, fullData), fullData)
  {
    var recorded := Recorded(resolutions, Entries(index, Pending(libs, resolutions)));
    forall k | k in recorded && k !in resolutions
      ensures recorded[k].exportedSymbol in Symbols(RoundFetch(index, libs, resolutions, fullData)) ||
              recorded[k].exportedSymbol in fullData
    {
      RoundFetchesSymbols(index, libs, resolutions, fullData, recorded[k]);
    }
  }

  lemma LastRoundHasSymbols(index: Index, libs: seq<Library>, resolutions: Resolutions, fullData: map<string, Library>)
    requires WellFormed(index)
    requires Missing(Entries(index, Pending(libs, resolutions)), fullData).keys == []
    ensures NewSymbolsIn(resolutions, Recorded(resolutions, Entries(index, Pending(libs, resolutions))), [], fullData)
  {
    RoundHasSymbols(index, libs, resolutions, fullData);
    assert RoundFetch(index, libs, resolutions, fullData) == [];
  }

  lemma NewSymbolsCompose(before: Resolutions, between: Resolutions, after: Resolutions, fetched: seq<Library>,
                          rest: seq<Library>, early: map<string, Library>, late: map<string, Library>)
    requires NewSymbolsIn(before, between, fetched, early) && Extends(between, after) && early.Keys <= late.Keys
    requires fetched <= rest && NewSymbolsIn(between, after, rest[|fetched|..], late)
    ensures NewSymbolsIn(before, after, rest, late)
  {
    SymbolsOfPart(fetched, rest);
    SymbolsOfPart(rest[|fetched|..], rest);
  }

  /** The data cache only grows, by short symbols of libraries that can be obtained. */
  lemma {:induction false} ClosureGrowsCache(universe: set<string>, index: Index, libs: seq<Library>,
                                             resolutions: Resolutions, fullData: map<string, Library>, c: Closure)
    requires Covers(universe, index, libs) && WellFormed(index) && ShortKeys(index, fullData)
    requires c == Resolve(universe, index, libs, resolutions, fullData) && c.Closed?
    ensures fullData.Keys <= c.fullData.Keys && ShortKeys(index, c.fullData)
    decreases |universe - resolutions.Keys|
  {
    var entries := Entries(index, Pending(libs, resolutions));
    if Missing(entries, fullData).keys != [] {
      var fetched := RoundFetch(index, libs, resolutions, fullData);
      var next := NextRound(universe, index, libs, resolutions, fullData, c);
      FetchKeepsShortKeys(index, libs, resolutions, fullData);
      ClosureGrowsCache(universe, index, fetched, Recorded(resolutions, entries), Cached(fullData, fetched), next);
    }
  }

  /** Every entry made by the rounds names the symbol of a library they fetched, or a key of the data cache. */
  lemma {:induction false} ClosureHasSymbols(universe: set<string>, index: Index, libs: seq<Library>,
                                             resolutions: Resolutions, fullData: map<string, Library>, c: Closure)
    requires Covers(universe, index, libs) && Sound(index, resolutions) && WellFormed(index) &&
             ShortKeys(index, fullData)
    requires c == Resolve(universe, index, libs, resolutions, fullData) && c.Closed?
    ensures libs <= c.libraries && NewSymbolsIn(resolutions, c.resolutions, c.libraries[|libs|..], c.fullData)
    decreases |universe - resolutions.Keys|
  {
    var entries := Entries(index, Pending(libs, resolutions));
    var fetched := RoundFetch(index, libs, resolutions, fullData);
    var recorded := Recorded(resolutions, entries);
    if Missing(entries, fullData).keys != [] {
      RoundHasSymbols(index, libs, resolutions, fullData);
      var next := NextRound(universe, index, libs, resolutions, fullData, c);
      RecordedIsSound(index, resolutions, Pending(libs, resolutions));
      FetchKeepsShortKeys(index, libs, resolutions, fullData);
      ClosureHasSymbols(universe, index, fetched, recorded, Cached(fullData, fetched), next);
      ClosureExtends(universe, index, fetched, recorded, Cached(fullData, fetched), next);
      ClosureGrowsCache(universe, index, fetched, recorded, Cached(fullData, fetched), next);
      NewSymbolsCompose(resolutions, recorded, next.resolutions, fetched, next.libraries, fullData, next.fullData);
      assert (libs + next.libraries)[|libs|..] == next.libraries;
    } else {
      LastRoundHasSymbols(index, libs, resolutions, fullData);
      assert libs[|libs|..] == [];
    }
  }

  ghost predicate NoneCarries(libs: seq<Library>, s: Symbol) {
    forall lib <- libs :: FullSymbol(lib) != s
  }

  /** A symbol that is a key of the data cache is never fetched any more. */
  lemma {:induction false} ClosureAvoidsCache(universe: set<string>, index: Index, libs: seq<Library>,
                                              resolutions: Resolutions, fullData: map<string, Library>, c: Closure,
                                              s: Symbol)
    requires Covers(universe, index, libs) && WellFormed(index) && s in fullData
    requires c == Resolve(universe, index, libs, resolutions, fullData) && c.Closed?
    ensures libs <= c.libraries && NoneCarries(c.libraries[|libs|..], s)
    decreases |universe - resolutions.Keys|
  {
    var entries := Entries(index, Pending(libs, resolutions));
    if Missing(entries, fullData).keys != [] {
      var fetched := RoundFetch(index, libs, resolutions, fullData);
      var next := NextRound(universe, index, libs, resolutions, fullData, c);
      assert NoneCarries(fetched, s) by {
        RoundAvoidsCache(index, libs, resolutions, fullData);
      }
      ClosureAvoidsCache(universe, index, fetched, Recorded(resolutions, entries), Cached(fullData, fetched), next, s);
      NoneCarriesTogether(fetched, next.libraries, s);
      assert (libs + next.libraries)[|libs|..] == next.libraries;
    } else {
      assert libs[|libs|..] == [];
    }
  }

  lemma NoneCarriesTogether(fetched: seq<Library>, libs: seq<Library>, s: Symbol)
    requires fetched <= libs && NoneCarries(fetched, s) && NoneCarries(libs[|fetched|..], s)
    ensures NoneCarries(libs, s)
  {
    assert libs == fetched + libs[|fetched|..];
  }

  // ---------- Names without a number sign ----------

  /** No query the libraries or the index can ask has a `#` in its name. */
  ghost predicate PlainQueries(index: Index, libs: seq<Library>) {
    && (forall lib <- libs, q <- lib.dependencies :: '#' !in q.name)
    && (forall lib <- index.extra, q <- lib.dependencies :: '#' !in q.name)
    && (forall d <- index.documents, q <- d.dependencies :: '#' !in q.name)
  }

  ghost predicate PlainEntries(resolutions: Resolutions) {
    forall k <- resolutions :: '#' !in resolutions[k].name
  }

  /** A key gives such a query back. */
  lemma PlainKey(name: string, version: string, name': string, version': string)
    requires '#' !in name && '#' !in name' && name + "#" + version == name' + "#" + version'
    ensures name == name' && version == version'
  {
    var key := name + "#" + version;
    assert key[|name|] == '#' && key[|name'|] == '#';
    assert forall i :: 0 <= i < |name| ==> key[i] == name[i] && name[i] in name;
    assert forall i :: 0 <= i < |name'| ==> key[i] == name'[i] && name'[i] in name';
    assert key[..|name|] == name && key[..|name'|] == name';
    assert key[|name| + 1..] == version && key[|name'| + 1..] == version';
  }

  lemma FetchedArePlain(index: Index, libs: seq<Library>, resolutions: Resolutions, fullData: map<string, Library>)
    requires PlainQueries(index, libs)
    ensures PlainQueries(index, RoundFetch(index, libs, resolutions, fullData))
  {
  }

  lemma RecordedArePlain(index: Index, libs: seq<Library>, resolutions: Resolutions)
    requires PlainQueries(index, libs) && PlainEntries(resolutions)
    ensures PlainEntries(Recorded(resolutions, Entries(index, Pending(libs, resolutions))))
  {
    var entries := Entries(index, Pending(libs, resolutions));
    forall e | e in entries
      ensures '#' !in e.name
    {
      var q := EntryHasQuery(index, Pending(libs, resolutions), e);
      PendingIsUnresolved(libs, resolutions, q);
      ResolvedIsPublished(index, q);
    }
  }

  lemma {:induction false} ClosureIsPlain(universe: set<string>, index: Index, libs: seq<Library>,
                                          resolutions: Resolutions, fullData: map<string, Library>, c: Closure)
    requires Covers(universe, index, libs) && PlainQueries(index, libs) && PlainEntries(resolutions)
    requires c == Resolve(universe, index, libs, resolutions, fullData) && c.Closed?
    ensures PlainEntries(c.resolutions)
    decreases |universe - resolutions.Keys|
  {
    var entries := Entries(index, Pending(libs, resolutions));
    RecordedArePlain(index, libs, resolutions);
    if Missing(entries, fullData).keys != [] {
      var fetched := RoundFetch(index, libs, resolutions, fullData);
      var next := NextRound(universe, index, libs, resolutions, fullData, c);
      FetchedArePlain(index, libs, resolutions, fullData);
      ClosureIsPlain(universe, index, fetched, Recorded(resolutions, entries), Cached(fullData, fetched), next);
    }
  }

  /** The entry under the key of a plain query is what that query resolves to. */
  lemma EntryOfPlainQuery(index: Index, resolutions: Resolutions, q: LibraryQuery)
    requires Sound(index, resolutions) && PlainEntries(resolutions) && '#' !in q.name && QueryKey(q) in resolutions
    ensures ResolveVersion(index, q) == Resolved(resolutions[QueryKey(q)])
  {
    var e := resolutions[QueryKey(q)];
    assert IsResolutionOf(index, QueryKey(q), e);
    var p :| QueryKey(p) == QueryKey(q) && ResolveVersion(index, p) == Resolved(e);
    ResolvedIsPublished(index, p);
    PlainKey(p.name, p.version, q.name, q.version);
  }

  /** Every library returned is reachable from the start. */
  lemma {:induction false} ClosureIsReachable(universe: set<string>, index: Index, libs: seq<Library>,
                                              resolutions: Resolutions, fullData: map<string, Library>, c: Closure,
                                              b: Library)
    requires Covers(universe, index, libs)
    requires c == Resolve(universe, index, libs, resolutions, fullData) && c.Closed? && b in c.libraries
    ensures Reachable(index, libs, b)
    decreases |universe - resolutions.Keys|
  {
    if b in libs {
      StartIsReachable(index, libs, b);
    } else {
      var fetched := RoundFetch(index, libs, resolutions, fullData);
      var recorded := Recorded(resolutions, Entries(index, Pending(libs, resolutions)));
      var next := NextRound(universe, index, libs, resolutions, fullData, c);
      ClosureIsReachable(universe, index, fetched, recorded, Cached(fullData, fetched), next, b);
      FetchedAreDependencies(index, libs, resolutions, fullData);
      ReachableThrough(index, libs, fetched, b);
    }
  }

  lemma FetchedAreDependencies(index: Index, libs: seq<Library>, resolutions: Resolutions,
                               fullData: map<string, Library>)
    ensures forall c <- RoundFetch(index, libs, resolutions, fullData) :: exists a <- libs :: DependsOn(index, a, c)
  {
    forall c | c in RoundFetch(index, libs, resolutions, fullData)
      ensures exists a <- libs :: DependsOn(index, a, c)
    {
      var q := FetchedIsDependency(index, libs, resolutions, fullData, c);
    }
  }

  /** The library is what is fetched for its name and its version, which can be obtained. */
  ghost predicate Fetchable(index: Index, lib: Library) {
    Obtainable(index, lib.name, lib.version) && GetData(index, lib.name, lib.version) == Some(lib)
  }

  ghost predicate AllPublished(index: Index, libs: seq<Library>) {
    forall lib <- libs :: WellNamed(index, lib) && lib.version in Published(index, lib.name) && Fetchable(index, lib)
  }

  lemma FetchedArePublished(index: Index, libs: seq<Library>, resolutions: Resolutions, fullData: map<string, Library>)
    requires WellFormed(index)
    ensures AllPublished(index, RoundFetch(index, libs, resolutions, fullData))
  {
    forall c | c in RoundFetch(index, libs, resolutions, fullData)
      ensures WellNamed(index, c) && c.version in Published(index, c.name) && Fetchable(index, c)
    {
      var q := FetchedIsDependency(index, libs, resolutions, fullData, c);
      IsObtainable(index, q, q.name, ResolveVersion(index, q).entry.version);
      PublishedIsFetched(index, q.name, ResolveVersion(index, q).entry.version);
    }
  }

  lemma PublishedTogether(index: Index, fetched: seq<Library>, libs: seq<Library>)
    requires fetched <= libs && AllPublished(index, fetched) && AllPublished(index, libs[|fetched|..])
    ensures AllPublished(index, libs)
  {
    assert libs == fetched + libs[|fetched|..];
  }

  /** The libraries the rounds append are published, under the symbols of their name and version. */
  lemma {:induction false} ClosureIsPublished(universe: set<string>, index: Index, libs: seq<Library>,
                                              resolutions: Resolutions, fullData: map<string, Library>, c: Closure)
    requires Covers(universe, index, libs) && WellFormed(index)
    requires c == Resolve(universe, index, libs, resolutions, fullData) && c.Closed?
    ensures libs <= c.libraries && AllPublished(index, c.libraries[|libs|..])
    decreases |universe - resolutions.Keys|
  {
    var entries := Entries(index, Pending(libs, resolutions));
    if Missing(entries, fullData).keys != [] {
      var fetched := RoundFetch(index, libs, resolutions, fullData);
      var next := NextRound(universe, index, libs, resolutions, fullData, c);
      ClosureIsPublished(universe, index, fetched, Recorded(resolutions, entries), Cached(fullData, fetched), next);
      FetchedArePublished(index, libs, resolutions, fullData);
      PublishedTogether(index, fetched, next.libraries);
      assert (libs + next.libraries)[|libs|..] == next.libraries;
    }
  }

  /** The queries of reachable libraries for which nothing suitable is published. */
  ghost predicate GenuineErrors(index: Index, libs: seq<Library>, errors: seq<LibraryQuery>) {
    forall q <- errors :: ResolveVersion(index, q).LibraryNotFound? && AskedByReachable(index, libs, q)
  }

  lemma AskedThrough(index: Index, libs: seq<Library>, resolutions: Resolutions, fullData: map<string, Library>,
                     q: LibraryQuery)
    requires AskedByReachable(index, RoundFetch(index, libs, resolutions, fullData), q)
    ensures AskedByReachable(index, libs, q)
  {
    var fetched := RoundFetch(index, libs, resolutions, fullData);
    var a :| Reachable(index, fetched, a) && q in a.dependencies;
    forall c | c in fetched
      ensures exists a <- libs :: DependsOn(index, a, c)
    {
      var p := FetchedIsDependency(index, libs, resolutions, fullData, c);
    }
    ReachableThrough(index, libs, fetched, a);
  }

  lemma RoundErrors(index: Index, libs: seq<Library>, resolutions: Resolutions)
    ensures GenuineErrors(index, libs, NotFoundAmong(index, Pending(libs, resolutions)))
  {
    forall q | q in NotFoundAmong(index, Pending(libs, resolutions))
      ensures AskedByReachable(index, libs, q)
    {
      PendingIsUnresolved(libs, resolutions, q);
      var a :| a in libs && q in a.dependencies;
      StartIsReachable(index, libs, a);
    }
  }

  lemma GenuineThrough(index: Index, libs: seq<Library>, resolutions: Resolutions, fullData: map<string, Library>,
                       errors: seq<LibraryQuery>)
    requires GenuineErrors(index, RoundFetch(index, libs, resolutions, fullData), errors)
    ensures GenuineErrors(index, libs, errors)
  {
    forall q | q in errors
      ensures AskedByReachable(index, libs, q)
    {
      AskedThrough(index, libs, resolutions, fullData, q);
    }
  }

  /** A failure has a cause, and names only genuine ones. */
  lemma {:induction false} ErrorsAreReachable(universe: set<string>, index: Index, libs: seq<Library>,
                                              resolutions: Resolutions, fullData: map<string, Library>,
                                              failure: Closure)
    requires Covers(universe, index, libs)
    requires failure == Resolve(universe, index, libs, resolutions, fullData) && failure.DependenciesError?
    ensures failure.errors != [] && GenuineErrors(index, libs, failure.errors)
    decreases |universe - resolutions.Keys|
  {
    if NotFoundAmong(index, Pending(libs, resolutions)) != [] {
      RoundErrors(index, libs, resolutions);
    } else {
      var fetched := RoundFetch(index, libs, resolutions, fullData);
      var recorded := Recorded(resolutions, Entries(index, Pending(libs, resolutions)));
      var next := NextRound(universe, index, libs, resolutions, fullData, failure);
      ErrorsAreReachable(universe, index, fetched, recorded, Cached(fullData, fetched), next);
      GenuineThrough(index, libs, resolutions, fullData, failure.errors);
    }
  }
}
