/**
  The request that asks for a loading graph: the caches it creates and fills, the closure of the
  requested libraries and its layering.
 */
module LoadingTreeRequest {
  import opened CdnModel
  import opened ConcurrentResolution
  import opened DependencyResolver
  import opened GraphLayers
  import opened PyDict
  import opened Sequences
  import opened VersionIndexing
  import opened VersionSelection
  import opened Wrappers

  // ---------- The specification of the request ----------

  const ROOT_NAME := "!!root!!"

  function Root(request: seq<LibraryQuery>): Library {
    Library(ROOT_NAME, Version(1, 0, 0, NoTag), ROOT_NAME, "1", "", request)
  }

  function WithoutRoot(libs: seq<Library>): (r: seq<Library>)
    ensures forall lib :: lib in r <==> lib in libs && lib.name != ROOT_NAME
  {
    if libs == [] then []
    else
      var rest := WithoutRoot(libs[1..]);
      if libs[0].name != ROOT_NAME then [libs[0]] + rest else rest
  }

  /** What the asset id and the URL of a library are made from. */
  datatype Asset = Asset(name: string, version: Version, bundle: string)

  function ItemPairs(index: Index, libs: seq<Library>): (r: seq<(Symbol, Asset)>)
    ensures |r| == |libs|
    ensures forall i :: 0 <= i < |libs| ==>
      r[i] == (FullExportedSymbol(index, libs[i].name, libs[i].version),
               Asset(libs[i].name, libs[i].version, libs[i].bundle))
  {
    seq(|libs|, i requires 0 <= i < |libs| =>
      (FullExportedSymbol(index, libs[i].name, libs[i].version), Asset(libs[i].name, libs[i].version, libs[i].bundle)))
  }

  function Items(index: Index, libs: seq<Library>): map<Symbol, Asset> {
    FromPairs(ItemPairs(index, libs)).vals
  }

  datatype TreeResult =
    | Response(lock: seq<Library>, graph: GraphResult<Asset>)
    | Errors(errors: seq<LibraryQuery>)

  function KeysOf(queries: seq<LibraryQuery>): (r: set<string>)
    ensures forall q <- queries :: QueryKey(q) in r
  {
    set q <- queries :: QueryKey(q)
  }

  /** The keys of all the queries a request can meet. */
  ghost function Universe(index: Index, request: seq<LibraryQuery>): (r: set<string>)
    ensures Covers(r, index, [Root(request)])
  {
    KeysOf(request)
    + (set lib <- index.extra, q <- lib.dependencies :: QueryKey(q))
    + (set d <- index.documents, q <- d.dependencies :: QueryKey(q))
  }

  ghost function ClosureOf(index: Index, request: seq<LibraryQuery>): Closure {
    Resolve(Universe(index, request), index, [Root(request)], map[], map[])
  }

  ghost function LoadingTree(index: Index, request: seq<LibraryQuery>): TreeResult {
    match ClosureOf(index, request)
    case DependenciesError(errors) => Errors(errors)
    case Closed(libs, resolutions, _) =>
      var lock := WithoutRoot(libs);
      Response(lock, LoadingGraph(lock, Items(index, lock), resolutions))
  }

  // ---------- The caches of a request ----------

  datatype RoundResult = Round(entries: seq<ResolvedQuery>) | RoundErrors(errors: seq<LibraryQuery>)
  datatype ClosureResult = Libraries(libraries: seq<Library>) | Failure(errors: seq<LibraryQuery>)

  function RoundOf(index: Index, libs: seq<Library>, resolutions: Resolutions): RoundResult {
    var pending := Pending(libs, resolutions);
    var errors := NotFoundAmong(index, pending);
    if errors != [] then RoundErrors(errors) else Round(Entries(index, pending))
  }

  class Session {
    const index: Index
    var versionsCache: map<string, seq<Version>>
    var resolutionsCache: Resolutions
    var fullDataCache: map<string, Library>

    constructor (index: Index)
      ensures this.index == index
      ensures versionsCache == map[] && resolutionsCache == map[] && fullDataCache == map[]
    {
      this.index := index;
      versionsCache, resolutionsCache, fullDataCache := map[], map[], map[];
    }

    method ListAllVersionsWithCache(name: string) returns (r: Option<seq<Version>>)
      requires Coherent(index, versionsCache)
      modifies this`versionsCache
      ensures Coherent(index, versionsCache) && r == ListAllVersions(index, name)
      ensures versionsCache == if r.Some? then old(versionsCache)[name := r.value] else old(versionsCache)
    {
      if name in versionsCache {
        CachedListing(index, versionsCache, name);
        return Some(versionsCache[name]);
      }
      r := ListAllVersions(index, name);
      if r.Some? {
        CoherentUpdate(index, versionsCache, name, r.value);
        versionsCache := versionsCache[name := r.value];
      }
    }

    /** One task of the gathering: the cache is consulted, the answer does not depend on it. */
    method ResolveOne(q: LibraryQuery) returns (r: Resolution)
      requires Coherent(index, versionsCache)
      modifies this`versionsCache
      ensures Coherent(index, versionsCache) && r == ResolveVersion(index, q)
      ensures versionsCache == WithListing(index, q, old(versionsCache))
    {
      if !index.parses(EffectiveQuery(index, q)) {
        return Dropped;
      }
      var listed := ListAllVersionsWithCache(q.name);
      r := ResolveAmong(index, q, listed);
    }

    method RemoveDuplicates(libraries: seq<LibraryQuery>) returns (result: seq<LibraryQuery>)
      ensures result == FirstOfEachKey(libraries)
    {
      result := [];
      var keys := [];
      for i := 0 to |libraries|
        invariant result == FirstOfEachKey(libraries[..i])
        invariant forall k :: k in keys <==> Asks(result, k)
      {
        assert libraries[..i + 1][..i] == libraries[..i];
        var key := QueryKey(libraries[i]);
        if key !in keys {
          forall k
            ensures k in keys + [key] <==> Asks(result + [libraries[i]], k)
          {
            AsksLast(result, libraries[i], k);
          }
          keys := keys + [key];
          result := result + [libraries[i]];
        }
      }
      assert libraries[..|libraries|] == libraries;
    }

    /** The gathered tasks, in the order of the queries. */
    method ResolveAll(pending: seq<LibraryQuery>) returns (entries: seq<ResolvedQuery>, errors: seq<LibraryQuery>)
      requires Coherent(index, versionsCache)
      modifies this`versionsCache
      ensures Coherent(index, versionsCache)
      ensures versionsCache == CacheAfter(index, pending, old(versionsCache))
      ensures entries == Entries(index, pending) && errors == NotFoundAmong(index, pending)
    {
      entries, errors := [], [];
      for i := 0 to |pending|
        invariant Coherent(index, versionsCache)
        invariant versionsCache == CacheAfter(index, pending[..i], old(versionsCache))
        invariant entries == Entries(index, pending[..i]) && errors == NotFoundAmong(index, pending[..i])
      {
        assert pending[..i + 1][..i] == pending[..i];
        var resolution := ResolveOne(pending[i]);
        match resolution
        case Resolved(entry) => entries := entries + [entry];
        case LibraryNotFound => errors := errors + [pending[i]];
        case Dropped =>
      }
      assert pending[..|pending|] == pending;
    }

    method ResolveDependenciesVersionQueries(fromLibraries: seq<Library>) returns (r: RoundResult)
      requires Coherent(index, versionsCache)
      modifies this`versionsCache, this`resolutionsCache
      ensures Coherent(index, versionsCache)
      ensures versionsCache == CacheAfter(index, Pending(fromLibraries, old(resolutionsCache)), old(versionsCache))
      ensures r == RoundOf(index, fromLibraries, old(resolutionsCache))
      ensures resolutionsCache ==
        if r.RoundErrors? then old(resolutionsCache) else Recorded(old(resolutionsCache), r.entries)
    {
      var unique := RemoveDuplicates(FlatDependencies(fromLibraries));
      var entries, errors := ResolveAll(Unresolved(unique, resolutionsCache));
      if errors != [] {
        return RoundErrors(errors);
      }
      resolutionsCache := Recorded(resolutionsCache, entries);
      r := Round(entries);
    }

    method FetchDependenciesData(missing: seq<ResolvedQuery>) returns (fetched: seq<Library>)
      modifies this`fullDataCache
      ensures fetched == FetchAll(index, missing) && fullDataCache == Cached(old(fullDataCache), fetched)
    {
      fetched := [];
      for i := 0 to |missing|
        invariant fetched == FetchAll(index, missing[..i]) && fullDataCache == old(fullDataCache)
      {
        assert missing[..i + 1][..i] == missing[..i];
        var data := GetData(index, missing[i].name, missing[i].version);
        if data.Some? {
          fetched := fetched + [data.value];
        }
      }
      assert missing[..|missing|] == missing;
      fullDataCache := Cached(fullDataCache, fetched);
    }

    /** Terminates on every index, cyclic ones included: each round resolves a new key. */
    method ResolveDependenciesRecursive(fromLibraries: seq<Library>, ghost universe: set<string>)
      returns (r: ClosureResult)
      requires Coherent(index, versionsCache) && Covers(universe, index, fromLibraries)
      modifies this
      ensures Coherent(index, versionsCache)
      ensures match Resolve(universe, index, fromLibraries, old(resolutionsCache), old(fullDataCache))
        case Closed(libs, resolutions, fullData) =>
          r == Libraries(libs) && resolutionsCache == resolutions && fullDataCache == fullData
        case DependenciesError(errors) => r == Failure(errors)
      decreases |universe - resolutionsCache.Keys|
    {
      ghost var closure := Resolve(universe, index, fromLibraries, resolutionsCache, fullDataCache);
      var round := ResolveDependenciesVersionQueries(fromLibraries);
      if round.RoundErrors? {
        return Failure(round.errors);
      }
      var missing := Missing(round.entries, fullDataCache);
      if missing.keys == [] {
        return Libraries(fromLibraries);
      }
      ghost var next := NextRound(universe, index, fromLibraries, old(resolutionsCache), old(fullDataCache), closure);
      var fetched := FetchDependenciesData(Values(missing));
      r := ResolveDependenciesRecursive(fetched, universe);
      if r.Libraries? {
        r := Libraries(fromLibraries + r.libraries);
      }
    }
  }

  method ResolveLoadingTree(index: Index, request: seq<LibraryQuery>) returns (r: TreeResult)
    ensures r == LoadingTree(index, request)
  {
    var session := new Session(index);
    ghost var universe := Universe(index, request);
    var closure := session.ResolveDependenciesRecursive([Root(request)], universe);
    match closure
    case Failure(errors) =>
      r := Errors(errors);
    case Libraries(libs) =>
      var lock := WithoutRoot(libs);
      r := Response(lock, LoadingGraph(lock, Items(index, lock), session.resolutionsCache));
  }

  // ---------- What the answer shows ----------

  /** The asset is that of the last library of the lock that has the symbol. */
  ghost predicate IsAssetOf(lock: seq<Library>, s: Symbol, a: Asset) {
    exists j :: LastAt(Symbols(lock), j, s) && a == Asset(lock[j].name, lock[j].version, lock[j].bundle)
  }

  ghost predicate ShowsLayer(lock: seq<Library>, layer: seq<Symbol>, assets: seq<Asset>) {
    |assets| == |layer| && forall k :: 0 <= k < |layer| ==> IsAssetOf(lock, layer[k], assets[k])
  }

  /** The definition shows a valid layering of the lock, each symbol by the asset of its last library. */
  ghost predicate Shows(g: DependencyGraph, lock: seq<Library>, layers: seq<seq<Symbol>>,
                        definition: seq<seq<Asset>>) {
    && ValidLayering(g, SymbolSet(lock), layers) && Tight(g, layers) && InOrder(layers, Symbols(lock))
    && |definition| == |layers|
    && forall i :: 0 <= i < |layers| ==> ShowsLayer(lock, layers[i], definition[i])
  }

  /** A symbol of the lock depends on what the queries of its last library resolve to. */
  ghost predicate DependsAs(index: Index, lock: seq<Library>, g: DependencyGraph) {
    && g.Keys == SymbolSet(lock)
    && forall j, s :: LastAt(Symbols(lock), j, s) ==> s in g && AnswersQueries(index, lock[j].dependencies, g[s])
  }

  ghost predicate AnswersQueries(index: Index, queries: seq<LibraryQuery>, symbols: seq<Symbol>) {
    && |symbols| == |queries|
    && forall k :: 0 <= k < |queries| ==>
         && ResolveVersion(index, queries[k]).Resolved?
         && symbols[k] == ResolveVersion(index, queries[k]).entry.exportedSymbol
  }

  lemma ItemIsAsset(index: Index, lock: seq<Library>, s: Symbol)
    requires AllPublished(index, lock) && s in Items(index, lock)
    ensures IsAssetOf(lock, s, Items(index, lock)[s])
  {
    var pairs := ItemPairs(index, lock);
    var j := ValueHasLastPair(pairs, s);
    forall i | 0 <= i < |lock|
      ensures pairs[i].0 == Symbols(lock)[i]
    {
      assert lock[i] in lock;
    }
    assert LastAt(Symbols(lock), j, s);
  }

  lemma RealisedIsShown(index: Index, lock: seq<Library>, g: DependencyGraph, layers: seq<seq<Symbol>>,
                        definition: seq<seq<Asset>>)
    requires AllPublished(index, lock) && Items(index, lock).Keys == SymbolSet(lock)
    requires Realises(g, Symbols(lock), Items(index, lock), layers, definition)
    ensures Shows(g, lock, layers, definition)
  {
    forall i, k | 0 <= i < |layers| && 0 <= k < |layers[i]|
      ensures IsAssetOf(lock, layers[i][k], definition[i][k])
    {
      assert ListsLayer(Items(index, lock), layers[i], definition[i]);
      ItemIsAsset(index, lock, layers[i][k]);
    }
    forall i | 0 <= i < |layers|
      ensures ShowsLayer(lock, layers[i], definition[i])
    {
      assert ListsLayer(Items(index, lock), layers[i], definition[i]);
    }
  }

  /** What a graph or a report of the layering says of the lock. */
  lemma AnswerShowsLock(index: Index, lock: seq<Library>, resolutions: Resolutions, graph: GraphResult<Asset>)
    requires AllPublished(index, lock) && Resolvable(lock, resolutions)
    requires Items(index, lock).Keys == SymbolSet(lock)
    requires graph == LoadingGraph(lock, Items(index, lock), resolutions)
    ensures graph.Graph? ==> exists layers :: Shows(GraphOf(lock, resolutions), lock, layers, graph.definition)
    ensures graph.CircularDependencies? ==> exists stuck ::
      && NeverLoad(GraphOf(lock, resolutions), SymbolSet(lock), stuck)
      && ReportsEach(lock, stuck, resolutions, graph.packages)
  {
    LoadingGraphOutcome(lock, Items(index, lock), resolutions, graph);
    match graph
    case Graph(definition) =>
      var layers :|
        Realises(GraphOf(lock, resolutions), Symbols(lock), Items(index, lock), layers, graph.definition);
      RealisedIsShown(index, lock, GraphOf(lock, resolutions), layers, definition);
    case CircularDependencies(packages) =>
      var stuck := ReportIsExact(lock, Items(index, lock), resolutions, graph);
      ReportIsOwn(index, lock, stuck, resolutions, packages);
    case KeyError =>
  }

  /**
    The report has the package of the last library of each stuck symbol, with exactly its queries,
    in order, whose symbol is stuck or outside the lock, and no other package.
   */
  ghost predicate ReportsEach(lock: seq<Library>, stuck: set<Symbol>, resolutions: Resolutions,
                              packages: map<(string, Version), seq<LibraryQuery>>) {
    && (forall j :: SpeaksFor(lock, stuck, j) ==>
          && (lock[j].name, lock[j].version) in packages
          && IsFilter(packages[(lock[j].name, lock[j].version)], lock[j].dependencies,
                      Unavailable(stuck, SymbolSet(lock), resolutions)))
    && (forall p <- packages :: exists j :: SpeaksFor(lock, stuck, j) && p == (lock[j].name, lock[j].version))
  }

  lemma ReportIsOwn(index: Index, lock: seq<Library>, stuck: set<Symbol>, resolutions: Resolutions,
                    packages: map<(string, Version), seq<LibraryQuery>>)
    requires AllPublished(index, lock) && IsReport(lock, stuck, SymbolSet(lock), resolutions, packages)
    ensures ReportsEach(lock, stuck, resolutions, packages)
  {
    forall j | SpeaksFor(lock, stuck, j)
      ensures PackageOf(lock[j]) in packages
      ensures ReportedFor(lock, stuck, SymbolSet(lock), resolutions, PackageOf(lock[j]),
                          packages[PackageOf(lock[j])], j)
    {
      var p := PackageOf(lock[j]);
      assert p in packages;
      var i :| ReportedFor(lock, stuck, SymbolSet(lock), resolutions, p, packages[p], i);
      assert lock[i] in lock && lock[j] in lock;
      assert FullSymbol(lock[i]) == FullSymbol(lock[j]);
    }
    forall p | p in packages
      ensures exists j :: SpeaksFor(lock, stuck, j) && p == (lock[j].name, lock[j].version)
    {
      var j :| ReportedFor(lock, stuck, SymbolSet(lock), resolutions, p, packages[p], j);
    }
  }

  // ---------- The outcome of a request ----------

  /** Every query of the request and of the index is readable. */
  ghost predicate Readable(index: Index, request: seq<LibraryQuery>) {
    && (forall q <- request :: index.parses(EffectiveQuery(index, q)))
    && (forall lib <- index.extra, q <- lib.dependencies :: index.parses(EffectiveQuery(index, q)))
    && (forall d <- index.documents, q <- d.dependencies :: index.parses(EffectiveQuery(index, q)))
  }

  lemma NothingUnreadable(index: Index, request: seq<LibraryQuery>, key: string)
    requires Readable(index, request)
    ensures !Unreadable(index, [Root(request)], key)
  {
    forall p | AskedByReachable(index, [Root(request)], p)
      ensures index.parses(EffectiveQuery(index, p))
    {
      var a :| Reachable(index, [Root(request)], a) && p in a.dependencies;
      var route :| Route(index, [Root(request)], route, a);
      if |route| > 1 {
        assert Dependence(index)(route[|route| - 2], route[|route| - 1]);
      }
    }
  }

  /** The queries of the request and of the index have no `#` in their names. */
  ghost predicate Plain(index: Index, request: seq<LibraryQuery>) {
    PlainQueries(index, [Root(request)])
  }

  lemma AskedIsPlain(index: Index, request: seq<LibraryQuery>, p: LibraryQuery)
    requires Plain(index, request) && AskedByReachable(index, [Root(request)], p)
    ensures '#' !in p.name
  {
    var a :| Reachable(index, [Root(request)], a) && p in a.dependencies;
    var route :| Route(index, [Root(request)], route, a);
    if |route| > 1 {
      assert Dependence(index)(route[|route| - 2], route[|route| - 1]);
    }
  }

  lemma {:induction false} WithoutRootOf(root: Library, libs: seq<Library>)
    requires root.name == ROOT_NAME
    ensures WithoutRoot([root] + libs) == WithoutRoot(libs)
  {
    assert ([root] + libs)[1..] == libs;
  }

  /** The lock holds published libraries only. */
  lemma LockIsPublished(index: Index, request: seq<LibraryQuery>, c: Closure)
    requires WellFormed(index) && c == ClosureOf(index, request) && c.Closed?
    ensures [Root(request)] <= c.libraries && WithoutRoot(c.libraries) == WithoutRoot(c.libraries[1..])
    ensures AllPublished(index, c.libraries[1..]) && AllPublished(index, WithoutRoot(c.libraries))
  {
    ClosureIsPublished(Universe(index, request), index, [Root(request)], map[], map[], c);
    assert c.libraries == [Root(request)] + c.libraries[1..];
    WithoutRootOf(Root(request), c.libraries[1..]);
  }

  /** Names and versions give the symbols back: the items are exactly those of the lock. */
  lemma ItemsOfLock(index: Index, lock: seq<Library>)
    requires AllPublished(index, lock)
    ensures forall s :: s in Items(index, lock) <==> s in Symbols(lock)
  {
    var pairs := ItemPairs(index, lock);
    forall i | 0 <= i < |lock|
      ensures pairs[i].0 == Symbols(lock)[i]
    {
      assert lock[i] in lock;
    }
    forall s
      ensures s in Items(index, lock) <==> s in Symbols(lock)
    {
      KeysOfPairs(pairs, s);
    }
  }

  lemma SymbolsAreCarried(libs: seq<Library>, s: Symbol)
    ensures s in Symbols(libs) <==> exists m <- libs :: FullSymbol(m) == s
  {
    if s in Symbols(libs) {
      var i :| 0 <= i < |libs| && Symbols(libs)[i] == s;
      assert libs[i] in libs;
    }
    if m :| m in libs && FullSymbol(m) == s {
      var i :| 0 <= i < |libs| && libs[i] == m;
      assert Symbols(libs)[i] == s;
    }
  }

  /** Every dependency of the lock names a symbol of the lock. */
  ghost predicate ClosedLock(lock: seq<Library>, resolutions: Resolutions) {
    && Resolvable(lock, resolutions)
    && forall lib <- lock, q <- lib.dependencies :: resolutions[QueryKey(q)].exportedSymbol in Symbols(lock)
  }

  lemma ClosedLockIsNotDangling(lock: seq<Library>, resolutions: Resolutions, known: set<Symbol>)
    requires ClosedLock(lock, resolutions) && forall s <- Symbols(lock) :: s in known
    ensures !Dangling(GraphOf(lock, resolutions), known)
  {
    var g := GraphOf(lock, resolutions);
    forall s, t | s in g && t in g[s]
      ensures t in known
    {
      LastWithDecides(lock, s, resolutions);
      var lib := LastWith(lock, s);
      var k :| 0 <= k < |lib.dependencies| && DependencySymbols(lib, resolutions)[k] == t;
      assert lib.dependencies[k] in lib.dependencies;
    }
  }

  // ---------- Short symbols against full ones ----------

  /** A full symbol determines its short symbol and its key of digits. */
  lemma FullSymbolParts(s: string, k: string, s': string, k': string)
    requires (forall i :: 0 <= i < |k| ==> '0' <= k[i] <= '9') && (forall i :: 0 <= i < |k'| ==> '0' <= k'[i] <= '9')
    requires s + "_APIv" + k == s' + "_APIv" + k'
    ensures s == s' && k == k'
  {
    var t, n, n' := s + "_APIv" + k, |s| + 5, |s'| + 5;
    assert t[n - 1] == 'v' && t[n' - 1] == 'v';
    assert forall i :: n <= i < |t| ==> t[i] == k[i - n];
    assert forall i :: n' <= i < |t| ==> t[i] == k'[i - n'];
    assert n == n';
    assert t[..|s|] == s && t[..|s'|] == s';
    assert t[n..] == k && t[n'..] == k';
  }

  lemma ApiKeyIsDigits(v: Version)
    ensures forall i :: 0 <= i < |ApiKey(v)| ==> '0' <= ApiKey(v)[i] <= '9'
  {
  }

  lemma SameFullSymbol(index: Index, name: string, v: Version, name': string, v': Version)
    requires FullExportedSymbol(index, name, v) == FullExportedSymbol(index, name', v')
    ensures ExportedSymbol(index, name) == ExportedSymbol(index, name')
  {
    ApiKeyIsDigits(v);
    ApiKeyIsDigits(v');
    FullSymbolParts(ExportedSymbol(index, name), ApiKey(v), ExportedSymbol(index, name'), ApiKey(v'));
  }

  /** The table of exported symbols leaves the name of the root alone. */
  ghost predicate RootIsOwn(index: Index) {
    ROOT_NAME !in index.exportedSymbols &&
      forall name <- index.exportedSymbols :: index.exportedSymbols[name] != ROOT_NAME
  }

  // ---------- When the lock is closed ----------

  /**
    The full symbol of a dependency of `c` is the short symbol of some library that can be obtained,
    and not the symbol of `c` itself: once that library is cached, the dependency is taken for fetched.
   */
  ghost predicate LiveClash(index: Index, name: string, c: Library, d: LibraryQuery) {
    && Available(index, name) && Fetchable(index, c) && c.name != ROOT_NAME
    && d in c.dependencies && ResolveVersion(index, d).Resolved?
    && ResolveVersion(index, d).entry.exportedSymbol == ExportedSymbol(index, name)
    && ResolveVersion(index, d).entry.exportedSymbol != FullSymbol(c)
  }

  ghost predicate HasLiveClash(index: Index) {
    exists name, c, d :: LiveClash(index, name, c, d)
  }

  /** A library that can be obtained depends on a published one that has the name of the root, which no lock keeps. */
  ghost predicate RootDependency(index: Index, c: Library, d: LibraryQuery) {
    && Fetchable(index, c) && c.name != ROOT_NAME
    && d in c.dependencies && d.name == ROOT_NAME && ResolveVersion(index, d).Resolved?
  }

  ghost predicate HasRootDependency(index: Index) {
    exists c, d :: RootDependency(index, c, d)
  }

  /** The index hides no dependency: no such clash, no such name. */
  ghost predicate HidesNothing(index: Index) {
    !HasLiveClash(index) && !HasRootDependency(index)
  }

  /** The entry under the key of a dependency is its own, and its symbol was fetched or is a key of the data cache. */
  lemma EntryOfDependency(index: Index, request: seq<LibraryQuery>, c: Closure, q: LibraryQuery)
    requires WellFormed(index) && Plain(index, request) && c == ClosureOf(index, request) && c.Closed?
    requires '#' !in q.name && QueryKey(q) in c.resolutions
    ensures ResolveVersion(index, q) == Resolved(c.resolutions[QueryKey(q)])
    ensures var s := c.resolutions[QueryKey(q)].exportedSymbol; s in Symbols(c.libraries[1..]) || s in c.fullData
  {
    var universe := Universe(index, request);
    ClosureExtends(universe, index, [Root(request)], map[], map[], c);
    ClosureIsPlain(universe, index, [Root(request)], map[], map[], c);
    EntryOfPlainQuery(index, c.resolutions, q);
    ClosureHasSymbols(universe, index, [Root(request)], map[], map[], c);
  }

  /** A symbol the closure carries is one of the lock, unless it is that of a library with the name of the root. */
  lemma CarriedByLock(index: Index, request: seq<LibraryQuery>, c: Closure, name: string, v: Version)
    requires WellFormed(index) && RootIsOwn(index) && c == ClosureOf(index, request) && c.Closed? && name != ROOT_NAME
    requires FullExportedSymbol(index, name, v) in Symbols(c.libraries[1..])
    ensures FullExportedSymbol(index, name, v) in Symbols(WithoutRoot(c.libraries))
  {
    var s := FullExportedSymbol(index, name, v);
    LockIsPublished(index, request, c);
    SymbolsAreCarried(c.libraries[1..], s);
    var m :| m in c.libraries[1..] && FullSymbol(m) == s;
    SameFullSymbol(index, m.name, m.version, name, v);
    assert m.name != ROOT_NAME;
    SymbolsAreCarried(WithoutRoot(c.libraries), s);
  }

  /** A library that can be obtained has a dependency whose query the range parser refuses. */
  ghost predicate UnreadableDependency(index: Index, c: Library, d: LibraryQuery) {
    && Fetchable(index, c) && c.name != ROOT_NAME
    && d in c.dependencies && !index.parses(EffectiveQuery(index, d))
  }

  ghost predicate HasUnreadableDependency(index: Index) {
    exists c, d :: UnreadableDependency(index, c, d)
  }

  /** On an index that hides nothing, a dependency with an entry names a symbol of the lock. */
  lemma DependencyIsLocked(index: Index, request: seq<LibraryQuery>, c: Closure, lib: Library, q: LibraryQuery)
    requires WellFormed(index) && RootIsOwn(index) && Plain(index, request) && HidesNothing(index)
    requires c == ClosureOf(index, request) && c.Closed?
    requires lib in WithoutRoot(c.libraries) && q in lib.dependencies && QueryKey(q) in c.resolutions
    ensures c.resolutions[QueryKey(q)].exportedSymbol in Symbols(WithoutRoot(c.libraries))
  {
    var e := c.resolutions[QueryKey(q)];
    LockIsPublished(index, request, c);
    DependenciesArePlain(index, request, lib, q);
    EntryOfDependency(index, request, c, q);
    ResolvedIsPublished(index, q);
    assert !RootDependency(index, lib, q);
    if e.exportedSymbol in c.fullData {
      ClosureGrowsCache(Universe(index, request), index, [Root(request)], map[], map[], c);
      var name :| Available(index, name) && e.exportedSymbol == ExportedSymbol(index, name);
      assert LiveClash(index, name, lib, q) <==> e.exportedSymbol != FullSymbol(lib);
      SymbolsAreCarried(WithoutRoot(c.libraries), e.exportedSymbol);
    } else {
      CarriedByLock(index, request, c, q.name, e.version);
    }
  }

  lemma DependenciesArePlain(index: Index, request: seq<LibraryQuery>, lib: Library, q: LibraryQuery)
    requires Plain(index, request) && Fetchable(index, lib) && q in lib.dependencies
    ensures '#' !in q.name
  {
  }

  /** The libraries the request itself names are fetched in the first round. */
  lemma RequestedAreFetched(index: Index, request: seq<LibraryQuery>, c: Closure, q: LibraryQuery)
    requires WellFormed(index) && c == ClosureOf(index, request) && c.Closed? && q in request
    requires ResolveVersion(index, q).Resolved? && Plain(index, request)
    ensures ResolveVersion(index, q).entry.exportedSymbol in Symbols(c.libraries[1..])
  {
    var root, e := [Root(request)], ResolveVersion(index, q).entry;
    RequestedIsEntry(index, request, q);
    RoundFetchesSymbols(index, root, map[], map[], e);
    var m := EntryIsMissing(Entries(index, Pending(root, map[])), map[], e);
    FirstFetchHasSymbol(index, request, c, e.exportedSymbol);
  }

  lemma InPrefix(part: seq<Library>, libs: seq<Library>, m: Library)
    requires part <= libs && m in part
    ensures m in libs
  {
    var i :| 0 <= i < |part| && part[i] == m;
    assert libs[i] == m;
  }

  lemma FirstFetchHasSymbol(index: Index, request: seq<LibraryQuery>, c: Closure, s: Symbol)
    requires WellFormed(index) && c == ClosureOf(index, request) && c.Closed?
    requires Missing(Entries(index, Pending([Root(request)], map[])), map[]).keys != []
    requires s in Symbols(RoundFetch(index, [Root(request)], map[], map[]))
    ensures s in Symbols(c.libraries[1..])
  {
    var fetched := RoundFetch(index, [Root(request)], map[], map[]);
    var next := FirstFetch(index, request, c);
    SymbolsAreCarried(fetched, s);
    var m :| m in fetched && FullSymbol(m) == s;
    InPrefix(fetched, next.libraries, m);
    SymbolsAreCarried(next.libraries, s);
  }

  lemma RequestedIsEntry(index: Index, request: seq<LibraryQuery>, q: LibraryQuery)
    requires Plain(index, request) && q in request && ResolveVersion(index, q).Resolved?
    ensures ResolveVersion(index, q).entry in Entries(index, Pending([Root(request)], map[]))
  {
    var root := [Root(request)];
    assert Root(request) in root;
    PendingIsComplete(root, map[], Root(request), q);
    var p :| p in Pending(root, map[]) && QueryKey(p) == QueryKey(q);
    PendingIsUnresolved(root, map[], p);
    PlainKey(p.name, p.version, q.name, q.version);
  }

  /** A request whose first round finds missing libraries: what it fetches stands after the root. */
  lemma FirstFetch(index: Index, request: seq<LibraryQuery>, c: Closure) returns (next: Closure)
    requires WellFormed(index) && c == ClosureOf(index, request) && c.Closed?
    requires Missing(Entries(index, Pending([Root(request)], map[])), map[]).keys != []
    ensures var fetched := RoundFetch(index, [Root(request)], map[], map[]);
      var recorded := Recorded(map[], Entries(index, Pending([Root(request)], map[])));
      && Covers(Universe(index, request), index, fetched) && next.Closed?
      && next == Resolve(Universe(index, request), index, fetched, recorded, Cached(map[], fetched))
      && c == Closed([Root(request)] + next.libraries, next.resolutions, next.fullData)
      && c.libraries[1..] == next.libraries && fetched <= next.libraries
  {
    var universe, root := Universe(index, request), [Root(request)];
    var fetched := RoundFetch(index, root, map[], map[]);
    next := NextRound(universe, index, root, map[], map[], c);
    ClosureIsPublished(universe, index, fetched, Recorded(map[], Entries(index, Pending(root, map[]))),
                       Cached(map[], fetched), next);
  }

  /** A readable request leaves no query of its lock without entry. */
  lemma ReadableIsResolvable(index: Index, request: seq<LibraryQuery>, c: Closure)
    requires Readable(index, request) && c == ClosureOf(index, request) && c.Closed?
    ensures Resolvable(c.libraries, c.resolutions) && Resolvable(WithoutRoot(c.libraries), c.resolutions)
  {
    ClosureIsResolved(Universe(index, request), index, [Root(request)], map[], map[], c);
    forall key
      ensures !Unreadable(index, [Root(request)], key)
    {
      NothingUnreadable(index, request, key);
    }
  }

  /**
    A request on an index that hides nothing, every query of which is readable, fails with the queries
    of reachable libraries that nothing published satisfies, or locks a closed set of reachable
    published libraries that holds every requested symbol.
   */
  lemma LockIsClosed(index: Index, request: seq<LibraryQuery>, c: Closure)
    requires WellFormed(index) && RootIsOwn(index) && HidesNothing(index)
    requires Plain(index, request) && Readable(index, request) && c == ClosureOf(index, request)
    ensures c.DependenciesError? ==> c.errors != [] && GenuineErrors(index, [Root(request)], c.errors)
    ensures c.Closed? ==>
      var lock := WithoutRoot(c.libraries);
      && ClosedLock(lock, c.resolutions)
      && AllPublished(index, lock)
      && (forall lib <- lock :: Reachable(index, [Root(request)], lib))
      && (forall q <- request :: q.name != ROOT_NAME ==>
            QueryKey(q) in c.resolutions && c.resolutions[QueryKey(q)].exportedSymbol in Symbols(lock))
  {
    var universe := Universe(index, request);
    if c.DependenciesError? {
      ErrorsAreReachable(universe, index, [Root(request)], map[], map[], c);
    } else {
      LockIsPublished(index, request, c);
      ReadableIsResolvable(index, request, c);
      forall lib, q | lib in WithoutRoot(c.libraries) && q in lib.dependencies
        ensures c.resolutions[QueryKey(q)].exportedSymbol in Symbols(WithoutRoot(c.libraries))
      {
        DependencyIsLocked(index, request, c, lib, q);
      }
      forall lib | lib in WithoutRoot(c.libraries)
        ensures Reachable(index, [Root(request)], lib)
      {
        ClosureIsReachable(universe, index, [Root(request)], map[], map[], c, lib);
      }
      RequestIsLocked(index, request, c);
    }
  }

  lemma RequestIsLocked(index: Index, request: seq<LibraryQuery>, c: Closure)
    requires WellFormed(index) && RootIsOwn(index) && Plain(index, request) && Readable(index, request)
    requires c == ClosureOf(index, request) && c.Closed?
    ensures forall q <- request :: q.name != ROOT_NAME ==>
      QueryKey(q) in c.resolutions && c.resolutions[QueryKey(q)].exportedSymbol in Symbols(WithoutRoot(c.libraries))
  {
    LockIsPublished(index, request, c);
    ReadableIsResolvable(index, request, c);
    forall q | q in request && q.name != ROOT_NAME
      ensures QueryKey(q) in c.resolutions &&
              c.resolutions[QueryKey(q)].exportedSymbol in Symbols(WithoutRoot(c.libraries))
    {
      assert Root(request) in [Root(request)] && Root(request) in c.libraries;
      EntryOfDependency(index, request, c, q);
      RequestedAreFetched(index, request, c, q);
      ResolvedIsPublished(index, q);
      CarriedByLock(index, request, c, q.name, c.resolutions[QueryKey(q)].version);
    }
  }

  /**
    Such a request never meets an unknown key, and its loading graph is a valid layering of the
    lock unless the lock has a dependency cycle, the only cause of `CircularDependencies`.
   */
  lemma OnlyCyclesFail(index: Index, request: seq<LibraryQuery>, c: Closure, r: TreeResult)
    requires WellFormed(index) && RootIsOwn(index) && HidesNothing(index)
    requires Plain(index, request) && Readable(index, request)
    requires c == ClosureOf(index, request) && r == LoadingTree(index, request) && r.Response?
    ensures c.Closed? && r.lock == WithoutRoot(c.libraries) && Resolvable(r.lock, c.resolutions)
    ensures !r.graph.KeyError?
    ensures r.graph.CircularDependencies? <==> HasCycle(GraphOf(r.lock, c.resolutions))
    ensures DependsAs(index, r.lock, GraphOf(r.lock, c.resolutions))
    ensures r.graph.Graph? ==>
      exists layers :: Shows(GraphOf(r.lock, c.resolutions), r.lock, layers, r.graph.definition)
  {
    LockIsClosed(index, request, c);
    ItemsOfLock(index, r.lock);
    ItemKeysOfLock(index, r.lock);
    GraphOfLock(index, request, c);
    AnswerShowsLock(index, r.lock, c.resolutions, r.graph);
    ClosedLockIsNotDangling(r.lock, c.resolutions, Items(index, r.lock).Keys);
    LoadingGraphOutcome(r.lock, Items(index, r.lock), c.resolutions, r.graph);
  }

  lemma KeyErrorIsUnresolved(index: Index, request: seq<LibraryQuery>, c: Closure, r: TreeResult)
    requires WellFormed(index) && c == ClosureOf(index, request) && r == LoadingTree(index, request) && r.Response?
    ensures r.graph.KeyError? <==> !Resolvable(r.lock, c.resolutions)
  {
    LockIsPublished(index, request, c);
    ItemsOfLock(index, r.lock);
    LoadingGraphOutcome(r.lock, Items(index, r.lock), c.resolutions, r.graph);
  }

  lemma EntryIsReadable(index: Index, request: seq<LibraryQuery>, c: Closure, q: LibraryQuery)
    requires WellFormed(index) && Plain(index, request) && c == ClosureOf(index, request) && c.Closed?
    requires '#' !in q.name && QueryKey(q) in c.resolutions
    ensures index.parses(EffectiveQuery(index, q))
  {
    EntryOfDependency(index, request, c, q);
  }

  lemma NoEntryIsUnreadable(index: Index, request: seq<LibraryQuery>, c: Closure, lib: Library, q: LibraryQuery)
    requires Plain(index, request) && c == ClosureOf(index, request) && c.Closed?
    requires lib in c.libraries && q in lib.dependencies && '#' !in q.name && QueryKey(q) !in c.resolutions
    ensures !index.parses(EffectiveQuery(index, q))
  {
    ClosureIsResolved(Universe(index, request), index, [Root(request)], map[], map[], c);
    assert Unreadable(index, [Root(request)], QueryKey(q));
    var p :| QueryKey(p) == QueryKey(q) && ResolveVersion(index, p).Dropped? &&
      AskedByReachable(index, [Root(request)], p);
    AskedIsPlain(index, request, p);
    PlainKey(p.name, p.version, q.name, q.version);
  }

  /** A library of the lock has a query that cannot be read. */
  ghost predicate HasUnreadableQuery(index: Index, lock: seq<Library>) {
    exists lib <- lock, q <- lib.dependencies :: !index.parses(EffectiveQuery(index, q))
  }

  ghost predicate EntryIffReadable(index: Index, resolutions: Resolutions, q: LibraryQuery) {
    QueryKey(q) in resolutions <==> index.parses(EffectiveQuery(index, q))
  }

  lemma QueriesDecide(index: Index, lock: seq<Library>, resolutions: Resolutions)
    requires forall lib <- lock, q <- lib.dependencies :: EntryIffReadable(index, resolutions, q)
    ensures Resolvable(lock, resolutions) <==> !HasUnreadableQuery(index, lock)
  {
    if HasUnreadableQuery(index, lock) {
      var lib, q :| lib in lock && q in lib.dependencies && !index.parses(EffectiveQuery(index, q));
      assert EntryIffReadable(index, resolutions, q);
    } else {
      forall lib, q | lib in lock && q in lib.dependencies
        ensures QueryKey(q) in resolutions
      {
        assert EntryIffReadable(index, resolutions, q);
      }
    }
  }

  lemma DependencyEntry(index: Index, request: seq<LibraryQuery>, c: Closure, lib: Library, q: LibraryQuery)
    requires Plain(index, request) && WellFormed(index) && c == ClosureOf(index, request) && c.Closed?
    requires lib in c.libraries && Fetchable(index, lib) && q in lib.dependencies
    ensures EntryIffReadable(index, c.resolutions, q)
  {
    DependenciesArePlain(index, request, lib, q);
    if QueryKey(q) in c.resolutions {
      EntryIsReadable(index, request, c, q);
    } else {
      NoEntryIsUnreadable(index, request, c, lib, q);
    }
  }

  /** The queries of the lock have their entries exactly when they can all be read. */
  lemma ResolvableIsReadable(index: Index, request: seq<LibraryQuery>, c: Closure, lock: seq<Library>)
    requires WellFormed(index) && Plain(index, request) && c == ClosureOf(index, request) && c.Closed?
    requires lock == WithoutRoot(c.libraries)
    ensures Resolvable(lock, c.resolutions) <==> !HasUnreadableQuery(index, lock)
  {
    LockIsPublished(index, request, c);
    forall lib, q | lib in lock && q in lib.dependencies
      ensures EntryIffReadable(index, c.resolutions, q)
    {
      DependencyEntry(index, request, c, lib, q);
    }
    QueriesDecide(index, lock, c.resolutions);
  }

  /** The layering meets an unknown key exactly when a library of the lock has a query that cannot be read. */
  lemma KeyErrorIsUnreadable(index: Index, request: seq<LibraryQuery>, c: Closure, r: TreeResult)
    requires WellFormed(index) && Plain(index, request)
    requires c == ClosureOf(index, request) && r == LoadingTree(index, request) && r.Response?
    ensures r.graph.KeyError? <==> HasUnreadableQuery(index, r.lock)
  {
    KeyErrorIsUnresolved(index, request, c, r);
    ResolvableIsReadable(index, request, c, r.lock);
  }

  lemma ItemKeysOfLock(index: Index, lock: seq<Library>)
    requires AllPublished(index, lock)
    ensures Items(index, lock).Keys == SymbolSet(lock)
  {
    ItemsOfLock(index, lock);
    forall s
      ensures s in Items(index, lock).Keys <==> s in SymbolSet(lock)
    {
      SymbolsAreCarried(lock, s);
    }
  }

  /**
    What any request answered by a lock ends with, whatever the index hides: an unknown key for a
    query that cannot be read, or else `CircularDependencies` for a cycle or a symbol outside of the
    lock, or else a valid layering.
   */
  lemma TreeOutcome(index: Index, request: seq<LibraryQuery>, c: Closure, r: TreeResult)
    requires WellFormed(index) && Plain(index, request)
    requires c == ClosureOf(index, request) && r == LoadingTree(index, request) && r.Response?
    ensures c.Closed? && r.lock == WithoutRoot(c.libraries)
    ensures r.graph.KeyError? <==> HasUnreadableQuery(index, r.lock)
    ensures !HasUnreadableQuery(index, r.lock) ==>
      var g := GraphOf(r.lock, c.resolutions);
      && DependsAs(index, r.lock, g)
      && (r.graph.CircularDependencies? <==> HasCycle(g) || Dangling(g, SymbolSet(r.lock)))
      && (r.graph.CircularDependencies? ==> exists stuck ::
            NeverLoad(g, SymbolSet(r.lock), stuck) && ReportsEach(r.lock, stuck, c.resolutions, r.graph.packages))
      && (r.graph.Graph? ==> exists layers :: Shows(g, r.lock, layers, r.graph.definition))
  {
    KeyErrorIsUnreadable(index, request, c, r);
    KeyErrorIsUnresolved(index, request, c, r);
    LockIsPublished(index, request, c);
    ItemKeysOfLock(index, r.lock);
    LoadingGraphOutcome(r.lock, Items(index, r.lock), c.resolutions, r.graph);
    if !HasUnreadableQuery(index, r.lock) {
      GraphOfLock(index, request, c);
      AnswerShowsLock(index, r.lock, c.resolutions, r.graph);
    }
  }

  /** The graph of a lock without unknown keys, in terms of the index. */
  lemma GraphOfLock(index: Index, request: seq<LibraryQuery>, c: Closure)
    requires WellFormed(index) && Plain(index, request) && c == ClosureOf(index, request) && c.Closed?
    requires Resolvable(WithoutRoot(c.libraries), c.resolutions)
    ensures DependsAs(index, WithoutRoot(c.libraries), GraphOf(WithoutRoot(c.libraries), c.resolutions))
  {
    var lock := WithoutRoot(c.libraries);
    SymbolSetIsKeys(lock, c.resolutions);
    LockIsPublished(index, request, c);
    forall j, s | LastAt(Symbols(lock), j, s)
      ensures s in GraphOf(lock, c.resolutions)
      ensures AnswersQueries(index, lock[j].dependencies, GraphOf(lock, c.resolutions)[s])
    {
      LastDecides(lock, j, s, c.resolutions);
      assert lock[j] in lock;
      forall k | 0 <= k < |lock[j].dependencies|
        ensures ResolveVersion(index, lock[j].dependencies[k]) ==
                Resolved(c.resolutions[QueryKey(lock[j].dependencies[k])])
      {
        DependenciesArePlain(index, request, lock[j], lock[j].dependencies[k]);
        EntryOfDependency(index, request, c, lock[j].dependencies[k]);
      }
    }
  }

  /** The libraries of a lock are their own entries or documents, bundles and dependencies included. */
  lemma LockIsOwn(index: Index, request: seq<LibraryQuery>, c: Closure)
    requires WellFormed(index) && c == ClosureOf(index, request) && c.Closed?
    ensures forall lib <- WithoutRoot(c.libraries) :: IsOwn(index, lib)
  {
    LockIsPublished(index, request, c);
    forall lib | lib in WithoutRoot(c.libraries)
      ensures IsOwn(index, lib)
    {
      FetchedIsOwn(index, lib.name, lib.version);
    }
  }

  // ---------- What the missing clash condition costs ----------

  /** `b` is what `q` resolves to and its only dependency, under another key, resolves to symbol `b.exportedSymbol`. */
  ghost predicate Clash(index: Index, q: LibraryQuery, b: Library, d: LibraryQuery) {
    && ResolveVersion(index, q).Resolved?
    && GetData(index, q.name, ResolveVersion(index, q).entry.version) == Some(b)
    && b.dependencies == [d] && QueryKey(d) != QueryKey(q)
    && ResolveVersion(index, d).Resolved?
    && ResolveVersion(index, d).entry.exportedSymbol == b.exportedSymbol
  }

  lemma PendingOfOne(lib: Library, q: LibraryQuery, resolutions: Resolutions)
    requires lib.dependencies == [q] && QueryKey(q) !in resolutions
    ensures Pending([lib], resolutions) == [q]
  {
    assert [lib][1..] == [] && [q] + [] == [q];
    assert FlatDependencies([lib]) == [q];
    assert [q][..0] == [] && [] + [q] == [q];
    assert FirstOfEachKey([]) == [] && !Asks([], QueryKey(q));
    assert FirstOfEachKey([q]) == [q];
    assert Unresolved([q], resolutions) == [q];
  }

  lemma EntriesOfOne(index: Index, q: LibraryQuery, e: ResolvedQuery)
    requires ResolveVersion(index, q) == Resolved(e)
    ensures Entries(index, [q]) == [e] && NotFoundAmong(index, [q]) == [] && EntryKey(e) == QueryKey(q)
  {
    assert [q][..0] == [];
    assert Entries(index, []) == [] && NotFoundAmong(index, []) == [];
  }

  lemma RecordedOfOne(resolutions: Resolutions, e: ResolvedQuery)
    ensures Recorded(resolutions, [e]) == resolutions[EntryKey(e) := e]
  {
    assert [e][..0] == [];
    assert Recorded(resolutions, []) == resolutions;
  }

  /** A round of one library with one new query that resolves. */
  lemma RoundOfOne(index: Index, lib: Library, q: LibraryQuery, resolutions: Resolutions)
    requires lib.dependencies == [q] && QueryKey(q) !in resolutions && ResolveVersion(index, q).Resolved?
    ensures Pending([lib], resolutions) == [q] && NotFoundAmong(index, [q]) == []
    ensures Entries(index, [q]) == [ResolveVersion(index, q).entry]
    ensures Recorded(resolutions, [ResolveVersion(index, q).entry]) ==
            resolutions[QueryKey(q) := ResolveVersion(index, q).entry]
  {
    PendingOfOne(lib, q, resolutions);
    EntriesOfOne(index, q, ResolveVersion(index, q).entry);
    RecordedOfOne(resolutions, ResolveVersion(index, q).entry);
  }

  /** The second round of such a request finds its symbol among the short symbols and stops. */
  lemma ClashStops(universe: set<string>, index: Index, q: LibraryQuery, b: Library, d: LibraryQuery,
                   resolutions: Resolutions, fullData: map<string, Library>)
    requires Covers(universe, index, [b]) && Clash(index, q, b, d)
    requires QueryKey(d) !in resolutions && b.exportedSymbol in fullData
    ensures Resolve(universe, index, [b], resolutions, fullData) ==
      Closed([b], resolutions[QueryKey(d) := ResolveVersion(index, d).entry], fullData)
  {
    RoundOfOne(index, b, d, resolutions);
    assert MissingPairs([ResolveVersion(index, d).entry], fullData) == [];
  }

  /** The first round fetches the library. */
  lemma ClashFetches(index: Index, q: LibraryQuery, b: Library, d: LibraryQuery)
    requires Clash(index, q, b, d)
    ensures RoundFetch(index, [Root([q])], map[], map[]) == [b]
    ensures Missing(Entries(index, Pending([Root([q])], map[])), map[]).keys != []
    ensures Cached(map[], [b]) == map[b.exportedSymbol := b]
  {
    RoundOfOne(index, Root([q]), q, map[]);
    var e := ResolveVersion(index, q).entry;
    OneMissing(index, e, b);
  }

  lemma OneMissing(index: Index, e: ResolvedQuery, b: Library)
    requires GetData(index, e.name, e.version) == Some(b)
    ensures Missing([e], map[]).keys == [e.exportedSymbol]
    ensures FetchAll(index, Values(Missing([e], map[]))) == [b]
    ensures Cached(map[], [b]) == map[b.exportedSymbol := b]
  {
    assert [e][..0] == [] && [b][..0] == [];
    assert MissingPairs([], map[]) == [];
    var pairs := [(e.exportedSymbol, e)];
    assert MissingPairs([e], map[]) == pairs;
    assert pairs[..0] == [];
    assert FromPairs(pairs).keys == [e.exportedSymbol];
    assert Values(FromPairs(pairs)) == [e];
    assert FetchAll(index, []) == [];
  }

  /**
    A library that exports under the full symbol of its own dependency: the data cache answers for
    the dependency, which is never fetched, and the request fails with `CircularDependencies`
    although the lock has no cycle.
   */
  lemma ClashGivesSpuriousCycle(index: Index, q: LibraryQuery, b: Library, d: LibraryQuery, c: Closure, r: TreeResult)
    requires WellFormed(index) && b.name != ROOT_NAME && Clash(index, q, b, d)
    requires c == ClosureOf(index, [q]) && r == LoadingTree(index, [q])
    ensures LiveClash(index, b.name, b, d)
    ensures c.Closed? && r.Response? && r.lock == [b] && r.graph.CircularDependencies?
    ensures Resolvable([b], c.resolutions) && !HasCycle(GraphOf([b], c.resolutions))
  {
    var e := ResolveVersion(index, q).entry;
    ResolvedIsPublished(index, q);
    ResolvedIsPublished(index, d);
    IsObtainable(index, q, q.name, e.version);
    PublishedIsFetched(index, q.name, e.version);
    assert |FullSymbol(b)| > |b.exportedSymbol|;
    ClashCloses(index, q, b, d, c);
    LockOfOne(Root([q]), b);
    StuckOnOne(index, b, d, c.resolutions);
  }

  /** The only version of a library is the answer to `*`. */
  lemma OnlyVersion(index: Index, name: string, v: Version)
    requires index.extra == [] && index.using == map[] && index.parses("*") && index.satisfies("*", v)
    requires DocumentVersions(index.documents, name) == [v] && v.prerelease == NoTag
    ensures ResolveVersion(index, LibraryQuery(name, "*")) ==
      Resolved(ResolvedQuery(name, "*", v, FullExportedSymbol(index, name, v)))
  {
    assert [v][1..] == [] && [] + [v] == [v] && [v] + [] == [v];
    assert SortByText([]) == [] && SortByText([v]) == [v];
    assert Reversed([v]) == [v];
    assert SortDescending([]) == [] && SortDescending([v]) == [v];
    assert ListAllVersions(index, name) == Some([v]);
    assert UpTo("*", '-') == "*" by { assert "*"[1..] == ""; }
    assert '*' in "*" && !IsFixed("*");
    assert FirstInRange(index, "*", [v]) == Some(v);
  }

  lemma TwoDocuments(first: Document, second: Document)
    requires |first.name| < |second.name|
    ensures DocumentVersions([first, second], first.name) == [first.version]
    ensures DocumentVersions([first, second], second.name) == [second.version]
  {
    var documents := [first, second];
    assert documents[1..] == [second] && [second][1..] == [];
    assert DocumentVersions([second], first.name) == [] && DocumentVersions([second], second.name) == [second.version];
  }

  /** What is fetched for the only document of a name. */
  lemma OnlyData(index: Index, doc: Document)
    requires index.extra == [] && doc in index.documents
    requires forall d <- index.documents :: Indexable(d.version) && (d.name == doc.name ==> d == doc)
    ensures GetData(index, doc.name, doc.version) == Some(Library(
      doc.name, doc.version, ExportedSymbol(index, doc.name), ApiKey(doc.version), doc.bundle, doc.dependencies))
  {
    PublishedIsFetched(index, doc.name, doc.version);
    FetchedIsOwnDocument(index, doc.name, doc.version);
  }

  /** An index of a library that depends on the only other one, whose full symbol it exports. */
  lemma ClashOfTwo(index: Index, dependency: Document, dependant: Document, b: Library)
    requires index.documents == [dependency, dependant] && index.extra == [] && index.using == map[]
    requires index.exportedSymbols == map[] && index.parses("*") && forall v :: index.satisfies("*", v)
    requires Indexable(dependency.version) && Indexable(dependant.version)
    requires dependency.version.prerelease == dependant.version.prerelease == NoTag
    requires dependant.name == dependency.name + "_APIv" + ApiKey(dependency.version)
    requires dependant.dependencies == [LibraryQuery(dependency.name, "*")]
    requires b == Library(dependant.name, dependant.version, dependant.name, ApiKey(dependant.version),
                          dependant.bundle, dependant.dependencies)
    ensures Clash(index, LibraryQuery(dependant.name, "*"), b, LibraryQuery(dependency.name, "*"))
  {
    TwoResolve(index, dependency, dependant);
    OnlyData(index, dependant);
    var q, d := LibraryQuery(dependant.name, "*"), LibraryQuery(dependency.name, "*");
    assert |QueryKey(d)| < |QueryKey(q)|;
    var e := ResolvedQuery(d.name, "*", dependency.version, FullExportedSymbol(index, d.name, dependency.version));
    var e' := ResolvedQuery(q.name, "*", dependant.version, FullExportedSymbol(index, q.name, dependant.version));
    ClashParts(index, q, b, d, e', e);
  }

  lemma TwoResolve(index: Index, first: Document, second: Document)
    requires index.documents == [first, second] && |first.name| < |second.name| && index.extra == [] &&
             index.using == map[]
    requires index.parses("*") && forall v :: index.satisfies("*", v)
    requires first.version.prerelease == second.version.prerelease == NoTag
    ensures ResolveVersion(index, LibraryQuery(first.name, "*")) ==
      Resolved(ResolvedQuery(first.name, "*", first.version, FullExportedSymbol(index, first.name, first.version)))
    ensures ResolveVersion(index, LibraryQuery(second.name, "*")) ==
      Resolved(ResolvedQuery(second.name, "*", second.version, FullExportedSymbol(index, second.name, second.version)))
  {
    TwoDocuments(first, second);
    OnlyVersion(index, first.name, first.version);
    OnlyVersion(index, second.name, second.version);
  }

  lemma ClashParts(index: Index, q: LibraryQuery, b: Library, d: LibraryQuery, entry: ResolvedQuery, e: ResolvedQuery)
    requires ResolveVersion(index, q) == Resolved(entry) && ResolveVersion(index, d) == Resolved(e)
    requires GetData(index, q.name, entry.version) == Some(b) && b.dependencies == [d] && QueryKey(d) != QueryKey(q)
    requires e.exportedSymbol == b.exportedSymbol
    ensures Clash(index, q, b, d)
  {
  }

  /** It happens: library `a_APIv1` depends on library `a`, both at 1.0.0. */
  lemma ClashHappens() returns (index: Index, q: LibraryQuery, b: Library)
    ensures WellFormed(index)
    ensures var r := LoadingTree(index, [q]); r.Response? && r.lock == [b] && r.graph.CircularDependencies?
  {
    var v := Version(1, 0, 0, NoTag);
    var d := LibraryQuery("a", "*");
    var dependency, dependant := Document("a", v, "", []), Document("a_APIv1", v, "", [d]);
    index := Index([dependency, dependant], [], map[], map[], _ => true, (_, _) => true);
    q, b := LibraryQuery("a_APIv1", "*"), Library("a_APIv1", v, "a_APIv1", ApiKey(v), "", [d]);
    assert ApiKey(v) == "1" && "a" + "_APIv" + "1" == "a_APIv1";
    ClashOfTwo(index, dependency, dependant, b);
    ClashGivesSpuriousCycle(index, q, b, d, ClosureOf(index, [q]), LoadingTree(index, [q]));
  }

  lemma DroppedOfOne(index: Index, q: LibraryQuery)
    requires ResolveVersion(index, q).Dropped?
    ensures Entries(index, [q]) == [] && NotFoundAmong(index, [q]) == []
  {
    assert [q][..0] == [];
    assert Entries(index, []) == [] && NotFoundAmong(index, []) == [];
  }

  /** The round of a library whose one dependency cannot be read finds nothing missing and stops. */
  lemma DroppedStops(universe: set<string>, index: Index, b: Library, d: LibraryQuery, resolutions: Resolutions,
                     fullData: map<string, Library>)
    requires Covers(universe, index, [b]) && b.dependencies == [d] && ResolveVersion(index, d).Dropped?
    requires QueryKey(d) !in resolutions
    ensures Resolve(universe, index, [b], resolutions, fullData) == Closed([b], resolutions, fullData)
  {
    PendingOfOne(b, d, resolutions);
    DroppedOfOne(index, d);
  }

  /** A request for a library whose one dependency cannot be read answers an unknown key. */
  lemma DroppedIsUnknown(index: Index, q: LibraryQuery, b: Library, d: LibraryQuery)
    requires WellFormed(index) && Plain(index, [q]) && b.name != ROOT_NAME
    requires ResolveVersion(index, q).Resolved? &&
             GetData(index, q.name, ResolveVersion(index, q).entry.version) == Some(b)
    requires b.dependencies == [d] && QueryKey(d) != QueryKey(q) && !index.parses(EffectiveQuery(index, d))
    ensures var r := LoadingTree(index, [q]); r.Response? && r.lock == [b] && r.graph.KeyError?
  {
    var universe, c, e := Universe(index, [q]), ClosureOf(index, [q]), ResolveVersion(index, q).entry;
    RoundOfOne(index, Root([q]), q, map[]);
    OneMissing(index, e, b);
    var next := NextRound(universe, index, [Root([q])], map[], map[], c);
    DroppedStops(universe, index, b, d, map[QueryKey(q) := e], map[b.exportedSymbol := b]);
    LockOfOne(Root([q]), b);
    KeyErrorIsUnreadable(index, [q], c, LoadingTree(index, [q]));
  }

  /** It happens: library `b` depends on `d` with a query that the range parser refuses. */
  lemma UnreadableHappens() returns (index: Index, q: LibraryQuery, b: Library)
    ensures WellFormed(index) && Plain(index, [q])
    ensures var r := LoadingTree(index, [q]); r.Response? && r.lock == [b] && r.graph.KeyError?
  {
    var v, d := Version(1, 0, 0, NoTag), LibraryQuery("d", "?");
    var doc := Document("b", v, "", [d]);
    index := Index([doc], [], map[], map[], t => t != "?", (_, _) => true);
    q, b := LibraryQuery("b", "*"), Library("b", v, "b", ApiKey(v), "", [d]);
    assert QueryKey(d)[0] == 'd' && QueryKey(q)[0] == 'b';
    UnreadableOfOne(index, doc, d, q, b);
  }

  lemma UnreadableOfOne(index: Index, doc: Document, d: LibraryQuery, q: LibraryQuery, b: Library)
    requires index.documents == [doc] && index.extra == [] && index.using == map[] && index.exportedSymbols == map[]
    requires index.parses("*") && !index.parses(d.version) && forall v :: index.satisfies("*", v)
    requires Indexable(doc.version) && doc.version.prerelease == NoTag && doc.dependencies == [d]
    requires '#' !in doc.name && '#' !in d.name && doc.name != ROOT_NAME
    requires q == LibraryQuery(doc.name, "*") && QueryKey(d) != QueryKey(q)
    requires b == Library(doc.name, doc.version, doc.name, ApiKey(doc.version), doc.bundle, [d])
    ensures WellFormed(index) && Plain(index, [q])
    ensures var r := LoadingTree(index, [q]); r.Response? && r.lock == [b] && r.graph.KeyError?
  {
    OneDocument(doc);
    OnlyVersion(index, doc.name, doc.version);
    OnlyData(index, doc);
    DroppedIsUnknown(index, q, b, d);
  }

  lemma OneDocument(doc: Document)
    ensures DocumentVersions([doc], doc.name) == [doc.version]
  {
    assert [doc][1..] == [];
  }

  lemma LockOfOne(root: Library, b: Library)
    requires root.name == ROOT_NAME && b.name != ROOT_NAME
    ensures WithoutRoot([root] + [b]) == [b]
  {
    assert ([root] + [b])[1..] == [b] && [b][1..] == [];
    assert WithoutRoot([b]) == [b];
  }

  lemma StuckOnOne(index: Index, b: Library, d: LibraryQuery, resolutions: Resolutions)
    requires WellNamed(index, b) && b.dependencies == [d] && QueryKey(d) in resolutions
    requires resolutions[QueryKey(d)].exportedSymbol == b.exportedSymbol
    ensures LoadingGraph([b], Items(index, [b]), resolutions).CircularDependencies?
    ensures Resolvable([b], resolutions) && !HasCycle(GraphOf([b], resolutions))
  {
    SingleLibraryGraph(b, d, resolutions);
    ItemsOfOne(index, b);
    LoadingGraphOutcome([b], Items(index, [b]), resolutions, LoadingGraph([b], Items(index, [b]), resolutions));
  }

  lemma ClashCloses(index: Index, q: LibraryQuery, b: Library, d: LibraryQuery, c: Closure)
    requires Clash(index, q, b, d) && c == ClosureOf(index, [q])
    ensures c == Closed([Root([q])] + [b],
      map[QueryKey(q) := ResolveVersion(index, q).entry][QueryKey(d) := ResolveVersion(index, d).entry],
      map[b.exportedSymbol := b])
  {
    var universe := Universe(index, [q]);
    var e := ResolveVersion(index, q).entry;
    RoundOfOne(index, Root([q]), q, map[]);
    ClashFetches(index, q, b, d);
    var next := NextRound(universe, index, [Root([q])], map[], map[], c);
    ClashStops(universe, index, q, b, d, map[QueryKey(q) := e], map[b.exportedSymbol := b]);
  }

  lemma SingleLibraryGraph(b: Library, d: LibraryQuery, resolutions: Resolutions)
    requires b.dependencies == [d] && QueryKey(d) in resolutions
    requires resolutions[QueryKey(d)].exportedSymbol == b.exportedSymbol
    ensures Resolvable([b], resolutions)
    ensures GraphOf([b], resolutions) == map[FullSymbol(b) := [b.exportedSymbol]]
    ensures !HasCycle(GraphOf([b], resolutions))
    ensures Dangling(GraphOf([b], resolutions), {FullSymbol(b)})
  {
    assert [] + [b] == [b] && Resolvable([b], resolutions);
    assert GraphOf([], resolutions) == map[];
    GraphOfExtension([], b, resolutions);
    assert DependencySymbols(b, resolutions) == [b.exportedSymbol];
    assert |FullSymbol(b)| > |b.exportedSymbol|;
    OneDanglingEdge(FullSymbol(b), b.exportedSymbol);
  }

  lemma OneDanglingEdge(s: Symbol, t: Symbol)
    requires s != t
    ensures var g := map[s := [t]]; !HasCycle(g) && Dangling(g, {s})
  {
    var g, known := map[s := [t]], {s};
    assert g[s][0] == t;
    assert s in g && t in g[s] && t !in known;
    assert Dangling(g, known);
    forall p | |p| >= 2 && Path(g, p)
      ensures p[0] != p[|p| - 1]
    {
      assert p[1] in g && p[1] in g[p[0]];
    }
  }

  lemma ItemsOfOne(index: Index, b: Library)
    requires WellNamed(index, b)
    ensures Items(index, [b]).Keys == {FullSymbol(b)}
  {
    var pairs := ItemPairs(index, [b]);
    forall s
      ensures s in Items(index, [b]) <==> s == FullSymbol(b)
    {
      KeysOfPairs(pairs, s);
      assert pairs[0].0 == FullSymbol(b);
    }
  }
}
