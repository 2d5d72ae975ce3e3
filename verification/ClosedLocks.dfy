/**
  The indexes on which every request locks a closed set of libraries and the layering never misses a
  key: exactly those that hide no dependency behind the data cache or the name of the root, and whose
  dependencies can be read.
 */
module ClosedLocks {
  import opened CdnModel
  import opened DependencyResolver
  import opened GraphLayers
  import opened LoadingTreeRequest
  import opened PyDict
  import opened VersionIndexing
  import opened VersionSelection
  import opened Wrappers

  // ---------- Requests that succeed ----------

  /** No query of a library of the index asks for what is not published. */
  ghost predicate NothingMissing(index: Index) {
    && (forall lib <- index.extra, q <- lib.dependencies :: !ResolveVersion(index, q).LibraryNotFound?)
    && (forall d <- index.documents, q <- d.dependencies :: !ResolveVersion(index, q).LibraryNotFound?)
  }

  /** No name of the index has a `#`. */
  ghost predicate PlainIndex(index: Index) {
    && PlainQueries(index, [])
    && (forall lib <- index.extra :: '#' !in lib.name)
    && (forall d <- index.documents :: '#' !in d.name)
  }

  ghost predicate WellBehaved(index: Index) {
    WellFormed(index) && RootIsOwn(index) && PlainIndex(index) && NothingMissing(index)
  }

  ghost predicate Satisfiable(index: Index, request: seq<LibraryQuery>) {
    forall q <- request :: ResolveVersion(index, q).Resolved?
  }

  ghost predicate HasClosedLock(index: Index, request: seq<LibraryQuery>) {
    var c := ClosureOf(index, request);
    c.Closed? && ClosedLock(WithoutRoot(c.libraries), c.resolutions)
  }

  /** The request is answered with a lock, whose layering meets an unknown key. */
  ghost predicate MissesKey(index: Index, request: seq<LibraryQuery>) {
    var r := LoadingTree(index, request);
    r.Response? && r.graph.KeyError?
  }

  lemma AskedIsPublished(index: Index, request: seq<LibraryQuery>, p: LibraryQuery)
    requires NothingMissing(index) && Satisfiable(index, request) && AskedByReachable(index, [Root(request)], p)
    ensures !ResolveVersion(index, p).LibraryNotFound?
  {
    var a :| Reachable(index, [Root(request)], a) && p in a.dependencies;
    var route :| Route(index, [Root(request)], route, a);
    if |route| > 1 {
      assert Dependence(index)(route[|route| - 2], route[|route| - 1]);
    }
  }

  lemma ResolvedIsPlain(index: Index, q: LibraryQuery)
    requires PlainIndex(index) && ResolveVersion(index, q).Resolved?
    ensures '#' !in q.name
  {
    ResolvedIsPublished(index, q);
  }

  lemma SatisfiableIsPlain(index: Index, request: seq<LibraryQuery>)
    requires PlainIndex(index) && Satisfiable(index, request)
    ensures Plain(index, request)
  {
    assert PlainQueries(index, []);
    assert Root(request).dependencies == request;
    forall q | q in request
      ensures '#' !in q.name
    {
      ResolvedIsPlain(index, q);
    }
  }

  /** A satisfiable request has no errors. */
  lemma SatisfiableCloses(index: Index, request: seq<LibraryQuery>, c: Closure)
    requires NothingMissing(index) && Satisfiable(index, request) && c == ClosureOf(index, request)
    ensures c.Closed?
  {
    if c.DependenciesError? {
      ErrorsAreReachable(Universe(index, request), index, [Root(request)], map[], map[], c);
      var p := c.errors[0];
      assert AskedByReachable(index, [Root(request)], p) && ResolveVersion(index, p).LibraryNotFound?;
      AskedIsPublished(index, request, p);
    }
  }

  // ---------- The first round ----------

  /** No two queries of the request resolve to one symbol. */
  ghost predicate DistinctSymbols(index: Index, request: seq<LibraryQuery>)
    requires Satisfiable(index, request)
  {
    forall p <- request, q <- request ::
      ResolveVersion(index, p).entry.exportedSymbol == ResolveVersion(index, q).entry.exportedSymbol ==> p == q
  }

  /** What a request for distinct symbols asks for is fetched in the first round. */
  lemma AskedIsFetched(index: Index, request: seq<LibraryQuery>, q: LibraryQuery, lib: Library)
    requires WellFormed(index) && Plain(index, request)
    requires Satisfiable(index, request) && DistinctSymbols(index, request) && q in request
    requires Gets(index, q, lib.name, lib.version) && GetData(index, lib.name, lib.version) == Some(lib)
    ensures lib in RoundFetch(index, [Root(request)], map[], map[])
    ensures Missing(Entries(index, Pending([Root(request)], map[])), map[]).keys != []
  {
    var root := [Root(request)];
    var entries := Entries(index, Pending(root, map[]));
    ResolvedIsPublished(index, q);
    RequestedIsEntry(index, request, q);
    var m := EntryIsMissing(entries, map[], ResolveVersion(index, q).entry);
    var p := EntryHasQuery(index, Pending(root, map[]), m);
    PendingIsUnresolved(root, map[], p);
  }

  /** What the first round fetches carries symbols the request resolves to. */
  lemma FetchedIsAsked(index: Index, request: seq<LibraryQuery>, m: Library) returns (p: LibraryQuery)
    requires WellFormed(index) && m in RoundFetch(index, [Root(request)], map[], map[])
    ensures p in request && ResolveVersion(index, p).Resolved?
    ensures FullSymbol(m) == ResolveVersion(index, p).entry.exportedSymbol
  {
    var root := [Root(request)];
    var entries := Entries(index, Pending(root, map[]));
    var e :| e in Values(Missing(entries, map[])) && GetData(index, e.name, e.version) == Some(m);
    var s := MissingAreEntries(entries, map[], e);
    p := EntryHasQuery(index, Pending(root, map[]), e);
    PendingIsUnresolved(root, map[], p);
    ResolvedIsPublished(index, p);
    PublishedIsFetched(index, e.name, e.version);
  }

  /** A symbol none of its queries resolves to is not fetched. */
  lemma UnaskedIsNotFetched(index: Index, request: seq<LibraryQuery>, s: Symbol)
    requires WellFormed(index) && Satisfiable(index, request)
    requires forall p <- request :: ResolveVersion(index, p).entry.exportedSymbol != s
    ensures NoneCarries(RoundFetch(index, [Root(request)], map[], map[]), s)
  {
    forall m | m in RoundFetch(index, [Root(request)], map[], map[])
      ensures FullSymbol(m) != s
    {
      var p := FetchedIsAsked(index, request, m);
    }
  }

  /** What the first round fetches is in the closure. */
  lemma FirstFetchIsKept(index: Index, request: seq<LibraryQuery>, c: Closure, m: Library)
    requires WellFormed(index) && c == ClosureOf(index, request) && c.Closed?
    requires Missing(Entries(index, Pending([Root(request)], map[])), map[]).keys != []
    requires m in RoundFetch(index, [Root(request)], map[], map[])
    ensures m in c.libraries
  {
    var next := FirstFetch(index, request, c);
    InPrefix(RoundFetch(index, [Root(request)], map[], map[]), next.libraries, m);
  }

  /** A symbol that the first round caches without fetching it is in no lock. */
  lemma CachedIsMissing(index: Index, request: seq<LibraryQuery>, c: Closure, s: Symbol)
    requires WellFormed(index) && c == ClosureOf(index, request) && c.Closed?
    requires Missing(Entries(index, Pending([Root(request)], map[])), map[]).keys != []
    requires var fetched := RoundFetch(index, [Root(request)], map[], map[]);
      s in Cached(map[], fetched) && NoneCarries(fetched, s)
    ensures NoneCarries(WithoutRoot(c.libraries), s)
  {
    var fetched := RoundFetch(index, [Root(request)], map[], map[]);
    var recorded := Recorded(map[], Entries(index, Pending([Root(request)], map[])));
    var next := FirstFetch(index, request, c);
    ClosureAvoidsCache(Universe(index, request), index, fetched, recorded, Cached(map[], fetched), next, s);
    NoneCarriesTogether(fetched, next.libraries, s);
    NoneCarriesWithoutRoot(Root(request), next.libraries, s);
  }

  lemma NoneCarriesWithoutRoot(root: Library, libs: seq<Library>, s: Symbol)
    requires root.name == ROOT_NAME && NoneCarries(libs, s)
    ensures NoneCarries(WithoutRoot([root] + libs), s)
  {
    WithoutRootOf(root, libs);
  }

  lemma InLock(libs: seq<Library>, lib: Library)
    requires lib in libs && lib.name != ROOT_NAME
    ensures lib in WithoutRoot(libs)
  {
  }

  /** The request for one library locks it. */
  lemma RequestOfOne(index: Index, q: LibraryQuery, lib: Library, c: Closure)
    requires WellBehaved(index) && lib.name != ROOT_NAME && c == ClosureOf(index, [q])
    requires Gets(index, q, lib.name, lib.version) && GetData(index, lib.name, lib.version) == Some(lib)
    ensures Satisfiable(index, [q]) && Plain(index, [q]) && c.Closed? && lib in WithoutRoot(c.libraries)
  {
    SatisfiableIsPlain(index, [q]);
    SatisfiableCloses(index, [q], c);
    AskedIsFetched(index, [q], q, lib);
    FirstFetchIsKept(index, [q], c, lib);
    InLock(c.libraries, lib);
  }

  // ---------- What is hidden opens a lock ----------

  lemma NoSymbol(libs: seq<Library>, s: Symbol)
    requires NoneCarries(libs, s)
    ensures s !in Symbols(libs)
  {
    SymbolsAreCarried(libs, s);
  }

  /** A dependency of a locked library whose symbol no locked library carries. */
  lemma OpenLock(index: Index, request: seq<LibraryQuery>, c: Closure, lib: Library, d: LibraryQuery)
    requires WellFormed(index) && Plain(index, request) && c == ClosureOf(index, request) && c.Closed?
    requires lib in WithoutRoot(c.libraries) && d in lib.dependencies && ResolveVersion(index, d).Resolved?
    requires NoneCarries(WithoutRoot(c.libraries), ResolveVersion(index, d).entry.exportedSymbol)
    ensures !ClosedLock(WithoutRoot(c.libraries), c.resolutions)
  {
    LockIsPublished(index, request, c);
    NoSymbol(WithoutRoot(c.libraries), ResolveVersion(index, d).entry.exportedSymbol);
    DependenciesArePlain(index, request, lib, d);
    if QueryKey(d) in c.resolutions {
      EntryOfDependency(index, request, c, d);
    }
  }

  lemma SymbolsDiffer(index: Index, name: string, v: Version, name': string, v': Version)
    requires ExportedSymbol(index, name) != ExportedSymbol(index, name')
    ensures FullExportedSymbol(index, name, v) != FullExportedSymbol(index, name', v')
  {
    if FullExportedSymbol(index, name, v) == FullExportedSymbol(index, name', v') {
      SameFullSymbol(index, name, v, name', v');
    }
  }

  ghost predicate Fit(index: Index, request: seq<LibraryQuery>, s: Symbol) {
    && Satisfiable(index, request) && DistinctSymbols(index, request)
    && forall p <- request :: ResolveVersion(index, p).entry.exportedSymbol != s
  }

  ghost predicate ResolvesTo(index: Index, p: LibraryQuery, s: Symbol) {
    ResolveVersion(index, p).Resolved? && ResolveVersion(index, p).entry.exportedSymbol == s
  }

  lemma TwoAreFit(index: Index, p: LibraryQuery, q: LibraryQuery, s: Symbol, t: Symbol, u: Symbol)
    requires ResolvesTo(index, p, s) && ResolvesTo(index, q, t) && s != u && t != u
    ensures Fit(index, [q], u) && (s != t ==> Fit(index, [p, q], u))
  {
  }

  lemma GotSymbol(index: Index, q: LibraryQuery, name: string, v: Version)
    requires Gets(index, q, name, v)
    ensures ResolvesTo(index, q, FullExportedSymbol(index, name, v)) && v in Published(index, name)
  {
    ResolvedIsPublished(index, q);
  }

  /** The request that meets a clash: `p` gets the library whose short symbol it is, `q` the dependant. */
  function ClashRequest(index: Index, p: LibraryQuery, q: LibraryQuery): seq<LibraryQuery> {
    if ExportedSymbol(index, p.name) == ExportedSymbol(index, q.name) then [q] else [p, q]
  }

  /** It asks for distinct symbols, of which none is the short one. */
  lemma ClashRequestIsFit(index: Index, p: LibraryQuery, v: Version, q: LibraryQuery, lib: Library, d: LibraryQuery)
    requires WellFormed(index) && LiveClash(index, p.name, lib, d)
    requires Gets(index, p, p.name, v) && Gets(index, q, lib.name, lib.version)
    ensures Fit(index, ClashRequest(index, p, q), ExportedSymbol(index, p.name))
  {
    var s, t := FullExportedSymbol(index, p.name, v), FullExportedSymbol(index, lib.name, lib.version);
    assert ResolvesTo(index, p, s) by { GotSymbol(index, p, p.name, v); }
    assert ResolvesTo(index, q, t) by { GotSymbol(index, q, lib.name, lib.version); }
    assert FullSymbol(lib) == t by {
      GotSymbol(index, q, lib.name, lib.version);
      PublishedIsFetched(index, lib.name, lib.version);
    }
    assert |s| > |ExportedSymbol(index, p.name)|;
    TwoAreFit(index, p, q, s, t, ExportedSymbol(index, p.name));
    if ExportedSymbol(index, p.name) != ExportedSymbol(index, q.name) {
      SymbolsDiffer(index, p.name, v, lib.name, lib.version);
    }
  }

  /** Some library that the first round fetches has the short symbol. */
  lemma ClashIsCached(index: Index, p: LibraryQuery, v: Version, q: LibraryQuery, lib: Library,
                      request: seq<LibraryQuery>)
    requires WellFormed(index) && Plain(index, request) && request == ClashRequest(index, p, q)
    requires Satisfiable(index, request) && DistinctSymbols(index, request)
    requires Gets(index, p, p.name, v) && Gets(index, q, lib.name, lib.version)
    requires GetData(index, lib.name, lib.version) == Some(lib)
    ensures ExportedSymbol(index, p.name) in Cached(map[], RoundFetch(index, [Root(request)], map[], map[]))
  {
    GotSymbol(index, p, p.name, v);
    GotSymbol(index, q, lib.name, lib.version);
    PublishedIsFetched(index, p.name, v);
    PublishedIsFetched(index, lib.name, lib.version);
    if ExportedSymbol(index, p.name) == ExportedSymbol(index, q.name) {
      AskedIsFetched(index, request, q, lib);
    } else {
      AskedIsFetched(index, request, p, GetData(index, p.name, v).value);
    }
  }

  /** Its first round fetches the dependant and caches the short symbol without fetching it. */
  lemma ClashRound(index: Index, p: LibraryQuery, v: Version, q: LibraryQuery, lib: Library, d: LibraryQuery,
                   request: seq<LibraryQuery>)
    requires WellBehaved(index) && LiveClash(index, p.name, lib, d) && request == ClashRequest(index, p, q)
    requires Gets(index, p, p.name, v) && Gets(index, q, lib.name, lib.version)
    ensures Satisfiable(index, request) && Plain(index, request)
    ensures Missing(Entries(index, Pending([Root(request)], map[])), map[]).keys != []
    ensures var fetched := RoundFetch(index, [Root(request)], map[], map[]);
      && lib in fetched
      && ExportedSymbol(index, p.name) in Cached(map[], fetched)
      && NoneCarries(fetched, ExportedSymbol(index, p.name))
  {
    ClashRequestIsFit(index, p, v, q, lib, d);
    SatisfiableIsPlain(index, request);
    UnaskedIsNotFetched(index, request, ExportedSymbol(index, p.name));
    AskedIsFetched(index, request, q, lib);
    ClashIsCached(index, p, v, q, lib, request);
  }

  /** A live clash opens the lock of some satisfiable request. */
  lemma ClashOpensLock(index: Index, name: string, lib: Library, d: LibraryQuery) returns (request: seq<LibraryQuery>)
    requires WellBehaved(index) && LiveClash(index, name, lib, d)
    ensures Satisfiable(index, request) && !HasClosedLock(index, request)
  {
    var v :| Obtainable(index, name, v);
    var p :| Gets(index, p, name, v);
    var q :| Gets(index, q, lib.name, lib.version);
    request := ClashRequest(index, p, q);
    ClashRound(index, p, v, q, lib, d, request);
    var c := ClosureOf(index, request);
    SatisfiableCloses(index, request, c);
    CachedIsMissing(index, request, c, ExportedSymbol(index, name));
    FirstFetchIsKept(index, request, c, lib);
    InLock(c.libraries, lib);
    OpenLock(index, request, c, lib, d);
  }

  /** So does a dependency on a library that has the name of the root. */
  lemma RootOpensLock(index: Index, lib: Library, d: LibraryQuery) returns (request: seq<LibraryQuery>)
    requires WellBehaved(index) && RootDependency(index, lib, d)
    ensures Satisfiable(index, request) && !HasClosedLock(index, request)
  {
    var q :| Gets(index, q, lib.name, lib.version);
    request := [q];
    var c := ClosureOf(index, request);
    RequestOfOne(index, q, lib, c);
    ResolvedIsPublished(index, d);
    NoRootSymbol(index, request, c, ResolveVersion(index, d).entry.version);
    OpenLock(index, request, c, lib, d);
  }

  lemma NoRootSymbol(index: Index, request: seq<LibraryQuery>, c: Closure, v: Version)
    requires WellFormed(index) && RootIsOwn(index) && c == ClosureOf(index, request) && c.Closed?
    ensures NoneCarries(WithoutRoot(c.libraries), FullExportedSymbol(index, ROOT_NAME, v))
  {
    LockIsPublished(index, request, c);
    forall m | m in WithoutRoot(c.libraries)
      ensures FullSymbol(m) != FullExportedSymbol(index, ROOT_NAME, v)
    {
      assert FullSymbol(m) == FullExportedSymbol(index, m.name, m.version);
      SymbolsDiffer(index, m.name, m.version, ROOT_NAME, v);
    }
  }

  // ---------- What cannot be read misses a key ----------

  /** A library with an unreadable dependency misses a key in some satisfiable request. */
  lemma UnreadableMissesKey(index: Index, lib: Library, d: LibraryQuery) returns (request: seq<LibraryQuery>)
    requires WellBehaved(index) && UnreadableDependency(index, lib, d)
    ensures Satisfiable(index, request) && MissesKey(index, request) && !HasClosedLock(index, request)
  {
    var q :| Gets(index, q, lib.name, lib.version);
    request := [q];
    var c, r := ClosureOf(index, request), LoadingTree(index, request);
    RequestOfOne(index, q, lib, c);
    assert r.Response? && lib in r.lock;
    KeyErrorIsUnreadable(index, request, c, r);
    KeyErrorIsUnresolved(index, request, c, r);
  }

  /** Without such a dependency every query of a lock can be read. */
  lemma LockIsReadable(index: Index, request: seq<LibraryQuery>, c: Closure)
    requires WellFormed(index) && Plain(index, request) && !HasUnreadableDependency(index)
    requires c == ClosureOf(index, request) && c.Closed?
    ensures !HasUnreadableQuery(index, WithoutRoot(c.libraries)) && Resolvable(WithoutRoot(c.libraries), c.resolutions)
  {
    LockIsPublished(index, request, c);
    forall lib, q | lib in WithoutRoot(c.libraries) && q in lib.dependencies
      ensures index.parses(EffectiveQuery(index, q))
    {
      assert !UnreadableDependency(index, lib, q);
    }
    ResolvableIsReadable(index, request, c, WithoutRoot(c.libraries));
  }

  /**
    On an index without queries for what is not published, some satisfiable request misses a key
    exactly when a library that can be obtained has a dependency that cannot be read.
   */
  lemma KeysAreMissedExactly(index: Index)
    requires WellBehaved(index)
    ensures (exists request :: Satisfiable(index, request) && MissesKey(index, request)) <==>
            HasUnreadableDependency(index)
  {
    if HasUnreadableDependency(index) {
      var lib, d :| UnreadableDependency(index, lib, d);
      var request := UnreadableMissesKey(index, lib, d);
    } else {
      forall request | Satisfiable(index, request)
        ensures !MissesKey(index, request)
      {
        SatisfiableIsReadable(index, request);
      }
    }
  }

  lemma SatisfiableIsReadable(index: Index, request: seq<LibraryQuery>)
    requires WellFormed(index) && PlainIndex(index) && !HasUnreadableDependency(index) && Satisfiable(index, request)
    ensures !MissesKey(index, request)
  {
    var c, r := ClosureOf(index, request), LoadingTree(index, request);
    SatisfiableIsPlain(index, request);
    if r.Response? {
      LockIsReadable(index, request, c);
      KeyErrorIsUnreadable(index, request, c, r);
    }
  }

  // ---------- When all locks are closed ----------

  lemma NothingHiddenCloses(index: Index, request: seq<LibraryQuery>)
    requires WellBehaved(index) && HidesNothing(index) && !HasUnreadableDependency(index) && Satisfiable(index, request)
    ensures HasClosedLock(index, request)
  {
    var c := ClosureOf(index, request);
    SatisfiableIsPlain(index, request);
    SatisfiableCloses(index, request, c);
    LockIsReadable(index, request, c);
    forall lib, q | lib in WithoutRoot(c.libraries) && q in lib.dependencies
      ensures c.resolutions[QueryKey(q)].exportedSymbol in Symbols(WithoutRoot(c.libraries))
    {
      DependencyIsLocked(index, request, c, lib, q);
    }
  }

  /**
    On such an index, every satisfiable request locks a closed set of libraries exactly when the
    index hides nothing and what can be obtained depends on nothing unreadable: no full symbol of a
    dependency is the short symbol of a library that can be obtained, its dependant's own symbol
    aside, and no dependency has the name of the root.
   */
  lemma LocksAreClosedExactly(index: Index)
    requires WellBehaved(index)
    ensures (forall request :: Satisfiable(index, request) ==> HasClosedLock(index, request)) <==>
            HidesNothing(index) && !HasUnreadableDependency(index)
  {
    if HasUnreadableDependency(index) {
      var lib, d :| UnreadableDependency(index, lib, d);
      var request := UnreadableMissesKey(index, lib, d);
    } else if HasLiveClash(index) {
      var name, lib, d :| LiveClash(index, name, lib, d);
      var request := ClashOpensLock(index, name, lib, d);
    } else if HasRootDependency(index) {
      var lib, d :| RootDependency(index, lib, d);
      var request := RootOpensLock(index, lib, d);
    } else {
      forall request | Satisfiable(index, request)
        ensures HasClosedLock(index, request)
      {
        NothingHiddenCloses(index, request);
      }
    }
  }
}
