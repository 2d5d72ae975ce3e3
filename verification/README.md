# A verified model of the YouWol backends

The project models, in Dafny, the parts of the local YouWol server that compute rather than move
data: how the CDN resolves a list of library queries into an ordered loading graph, how versions are
indexed and chosen, the persisted browser cache, the tree of drives and folders, the explorer totals
of a published package, the release commands, the URL patterns and the positions of story documents.
`dafny verify dfyconfig.toml` checks everything.

Code that computes a value is a function; code that changes things step by step is a class or a
method, proved equal to a function of the old state (`Session`, `BrowserCacheStore`, `TreeDb`,
`Explorers`, `VersionFile`, `DocumentsTable`). The theorems are lemmas about those functions. Tasks
that the code gathers with `asyncio` are state machines whose steps end at the suspension points,
and the results hold for every schedule.

| file | what it holds |
|---|---|
| `LoadingGraph.dfy` | the records of the CDN; the layering of a closed set of libraries |
| `VersionIndexing.dfy`, `VersionSelection.dfy`, `QueryTexts.dfy` | version numbers and their text; listing and choice of versions; what query texts ask for |
| `DependencyResolver.dfy`, `RoundOrder.dfy`, `ConcurrentResolution.dfy`, `LoadingTree.dfy` | the closure; the order of its rounds; its gathered tasks; the whole request |
| `ClosedLocks.dfy` | the indexes on which every lock is closed and no key is missed |
| `Base64Url.dfy`, `BrowserCache.dfy` | line encoding; the log, its recovery, its mirror in memory |
| `TreeStore.dfy`, `EnsurePath.dfy`, `DefaultDrive.dfy` | the forest of folders and the calls that grow it |
| `ExplorerData.dfy` | records and totals of a package's directories |
| `ReleaseVersions.dfy` | the release commands and the order of PEP 440 |
| `UrlMatch.dfy` | URL patterns |
| `StoryPositions.dfy` | positions as text, the documents table |
| `PyDict.dfy`, `Sequences.dfy`, `Text.dfy`, `Decimal.dfy`, `Wrappers.dfy` | dictionaries, first and last places and filters, strings, decimal text, options |

## Reading the model

**The CDN.** An `Index` is what a request can see: the documents of the database, the extra index of
the request, the versions imposed by `using`, the table of exported symbols, and two arbitrary
predicates standing for the semantic-version library, `parses` and `satisfies`. The short symbol
(`Library.exportedSymbol`) and the full one (`ResolvedQuery.exportedSymbol`, `FullSymbol`) are kept
apart as in the code: the data cache is filled under the short symbol and consulted under the full
one, so termination rests on the keys of `resolutionsCache` and not on hits in that cache.
Dictionaries built from lists keep the last value of a key, so several libraries may share a symbol.

**What the code does not do.** Some statements one would expect are false, and are proved so, each
with the exact condition under which they hold.

- An unreadable query raises an exception that the gathering drops: the query has no entry, and the
  layering meets an unknown key exactly when a library of the lock has such a query
  (`KeyErrorIsUnreadable`, and `UnreadableHappens` for one index). Before the call: on an index
  without queries for what is not published, some satisfiable request misses a key exactly when a
  library that can be obtained has a dependency the range parser refuses (`KeysAreMissedExactly`).
- The data cache is filled under short symbols and asked for full ones, so a library whose short
  symbol is the full symbol of a dependency hides that dependency once it is cached. And no lock
  keeps a library that has the name of the root. On such an index, every satisfiable request locks a
  closed set of libraries exactly when no dependency is unreadable, nor hidden in one of these two
  ways, a dependant that has the hidden symbol itself aside (`LocksAreClosedExactly`). Then
  `CircularDependencies` is exactly a cycle (`OnlyCyclesFail`). In general it is a cycle or a symbol
  outside the lock (`TreeOutcome`); `ClashGivesSpuriousCycle` and `ClashHappens` show the error
  without a cycle.
- What can be obtained is what some query is answered with: a published version whose text can be
  read or, for a name that `using` imposes, the version it imposes (`ObtainableExactly`).
- A library known only from the extra index is not sorted and the first version in range is taken:
  that is the latest one in every range exactly when the extra index lists the versions latest
  first, but for a second form of a version listed earlier (`ExtraOnlyIsLatestIfSorted`).
- A minor or a patch of 1000 gives two versions one number (`BoundsAreTight`). Text order is version
  order on all versions below a major exactly if that major is at most 1000 (`MajorBoundIsTight`).
- `maxCount` zero evicts nothing, since `s[-0:]` is the whole list (`ZeroMaxCountEvictsNothing`).
- Recovery bounds the log but not the memory: memory mirrors the log exactly when nothing is evicted
  (`MemoryMirrorsLog`). Clearing the file alone leaves records in memory that the log has lost
  (`ClearingFileAlone`).
- Creating an existing folder again moves it. A forest stays one exactly when the new parent is
  missing, or is neither the folder nor below it and gives its children the drive and the group they
  have (`RecreationKeepsForest`; `RecreationCanLoop` shows a loop).
- `ensure_path` stops at a present last folder whatever is missing above it: on any store it leaves
  the whole path there exactly when no folder of it was there, or everything above the deepest one
  was (`PathIsEnsuredExactly`, and `OrphanHappens` for one store).
- The path of a folder entry loses every `./`, so the folders of a directory named with a final dot
  are looked up under a wrong key. The explorer is right exactly when no directory whose name ends
  with a dot has a sub-directory; otherwise the call raises, or a directory keeps the size -1
  (`CreateExplorerData`, and `DottedParentHappens` for one package).
- `prepare_post_dev` on a plain final version goes back, and so does a release candidate whose target
  respells the current release with fewer or more components (`StepOrder`, `RespelledTargetsGoBack`).
- A path segment that is literally `*` is not captured by a `*` of the pattern (`MatchRebuildsPath`),
  and a `**` captures nothing at all when the path stops just before it (`TailIsCaptured`).
- A story position keeps its family in order exactly when the next whole position and the fraction
  fit six digits (`PutKeepsOrder`). Without room it sorts first as text and is given again: a new
  document can replace the previous one (`NextReplaces`). On an unlucky clock that takes 250000
  appends (`LimitIsReached`, `RoomIsTight`).
- A bound past six digits is compared by its first six digits alone (`FilterPastWidth`).

**Numbers.** Version numbers are computed by the code in double precision, sizes are Python integers,
clocks are parameters. Story positions count millionths, and the fraction of the clock may round up to
a whole.

## Model

| member | source | states |
|---|---|---|
| `GraphLayers.LoadingGraphOutcome` | src/youwol/backends/cdn/loading_graph_implementation.py:85-161 | The layering fails with `CircularDependencies` exactly when the symbol graph has a cycle or a dependency outside the items, with an unknown key exactly when a query is unresolved or a symbol has no item, and otherwise answers the items of a valid layering, in each layer in the order of the list |
| `GraphLayers.PeeledIsValid` | src/youwol/backends/cdn/loading_graph_implementation.py:95-161 | Every full symbol stands exactly once, after all its dependencies, and none waits without need; duplicate symbols in the list included |
| `GraphLayers.PeeledInOrder` | src/youwol/backends/cdn/loading_graph_implementation.py:107-112 | In each layer the symbols stand in the order in which the libraries first list them |
| `GraphLayers.PeelOutcome` | src/youwol/backends/cdn/loading_graph_implementation.py:126-161 | The rounds get stuck if and only if the graph has a cycle or a dangling dependency |
| `GraphLayers.StuckIsBlocked` | src/youwol/backends/cdn/loading_graph_implementation.py:131-152 | A stuck round leaves a non-empty part of the graph in which every symbol waits for an unknown one or for one of that part |
| `GraphLayers.EndlessGraphHasCycle` | src/youwol/backends/cdn/loading_graph_implementation.py:131-152 | A finite graph in which every symbol has a successor has a cycle, by the pigeonhole principle |
| `GraphLayers.GraphOfRest` | src/youwol/backends/cdn/loading_graph_implementation.py:98-117 | What a round leaves has the same dependencies as before, the last library of a symbol deciding |
| `GraphLayers.LayeringIsMinimal` | src/youwol/backends/cdn/loading_graph_implementation.py:95-161 | No valid layering places a symbol in an earlier layer |
| `GraphLayers.LayerCountIsLongestChain` | src/youwol/backends/cdn/loading_graph_implementation.py:126-161 | For a non-empty input the number of layers is the length of the longest dependency chain |
| `GraphLayers.NoEmptyLayer` | src/youwol/backends/cdn/loading_graph_implementation.py:107-129 | For a non-empty input no layer is empty |
| `GraphLayers.ReportNamesTheBlockers` | src/youwol/backends/cdn/loading_graph_implementation.py:131-152 | Each package reported has at least one dependency, and all are unknown or stuck |
| `GraphLayers.StuckNeverLoads` | src/youwol/backends/cdn/loading_graph_implementation.py:131-152 | The symbols a peeling stops on are the largest set in which each waits for an unknown symbol or for one of the set |
| `GraphLayers.ReportIsExact` | src/youwol/backends/cdn/loading_graph_implementation.py:131-152 | `CircularDependencies` reports the package of the last library of every such symbol and no other, and for each package exactly the queries of such a library, in order, whose symbol is unknown or never loads |
| `GraphLayers.LastWithDecides` | src/youwol/backends/cdn/loading_graph_implementation.py:98-104 | The dependencies of a shared symbol are those of the last library that carries it |
| `GraphLayers.LastDecides` | src/youwol/backends/cdn/loading_graph_implementation.py:98-104 | The library at the last place of a symbol gives its dependencies, query by query |
| `VersionIndexing.NumberReflectsOrder` | src/youwol/backends/cdn/utils_indexing.py:45-57 | With minor and patch below 1000 the number is injective and strictly monotone in major, minor, patch and tag rank |
| `VersionIndexing.PrereleasesPrecedeRelease` | src/youwol/backends/cdn/utils_indexing.py:48-57 | Exactly the allowed tags sort before their release, exactly `next` after it |
| `VersionIndexing.BoundsAreTight` | src/youwol/backends/cdn/utils_indexing.py:57 | From 1000 on, a minor or a patch gives another version the same number |
| `VersionIndexing.TextReflectsOrder` | src/youwol/backends/cdn/utils_indexing.py:60-63 | The ten-character text orders exactly as the number and determines the version |
| `VersionIndexing.NegativeText` | src/youwol/backends/cdn/utils_indexing.py:45-63 | Exactly the allowed prereleases of 0.0.0 have a negative number, and their text has its zeros before the sign |
| `VersionIndexing.TextOrderExactly` | src/youwol/backends/cdn/utils_indexing.py:45-63 | With all numbers below 1000 the text order is the version order, except that it reverses the prereleases of 0.0.0 among themselves |
| `VersionIndexing.UnpaddedText` | src/youwol/backends/cdn/utils_indexing.py:60-63 | For a number of ten digits or more nothing is padded, and the text starts with the leading digit of the number |
| `VersionIndexing.MajorBoundIsTight` | src/youwol/backends/cdn/utils_indexing.py:60-63 | Text order is version order on all versions below a major if and only if that major is at most 1000 |
| `VersionIndexing.ThousandSortsEarly` | src/youwol/backends/cdn/utils_indexing.py:60-63 | 1000.0.0 comes after 200.0.0 and its text before |
| `VersionSelection.SortsAgree` | src/youwol/backends/cdn/utils.py:634-640 | The text sort of the listing and the numeric sort give the same list |
| `VersionSelection.SortIsDescending` | src/youwol/backends/cdn/loading_graph_implementation.py:187-191 | The merged list of versions is in descending order of number |
| `VersionSelection.RangeChoiceIsCandidate` | src/youwol/backends/cdn/loading_graph_implementation.py:268-289 | A range query fails only if no listed version is in range with its `-wip` stripped, and otherwise answers a listed one |
| `VersionSelection.OneFormIsPublished` | src/youwol/backends/cdn/loading_graph_implementation.py:276-289 | One of the two forms of the chosen version is published: the last `LibraryNotFound` branch is never taken |
| `VersionSelection.RangeChoiceIsGreatest` | src/youwol/backends/cdn/loading_graph_implementation.py:268-289 | On a sorted list the choice is the greatest candidate, and a release wins over its own `-wip` |
| `VersionSelection.LatestCompatible` | src/youwol/backends/cdn/loading_graph_implementation.py:232-302 | For a library of the database, a range query is answered with the greatest published version in range and fails exactly when there is none |
| `VersionSelection.FixedChoice` | src/youwol/backends/cdn/loading_graph_implementation.py:265-266 | A fixed query is answered with the version of that text, if there is one |
| `VersionSelection.TextIsOwn` | src/youwol/backends/cdn/loading_graph_implementation.py:265-266 | Different versions have different texts |
| `VersionSelection.TextResolves` | src/youwol/backends/cdn/loading_graph_implementation.py:232-302 | Asked by its text, a published version is the answer |
| `QueryTexts.FixedExactly` | src/youwol/backends/cdn/loading_graph_implementation.py:246-251 | A query is a range if and only if one of `<` `>` `*` `^` `~` `x` or the word `latest` stands before its first dash |
| `QueryTexts.LatestInRange` | src/youwol/backends/cdn/loading_graph_implementation.py:240-302 | For a library of the database, `^v`, `~v`, `>v`, `>=v`, `<v`, `<=v`, `X.x`, `X.Y.x`, `*` and `latest`, asked for or imposed, are answered with the latest published version in range, and fail exactly when there is none |
| `QueryTexts.StripTakesWip` | src/youwol/backends/cdn/loading_graph_implementation.py:268-271 | What is compared with the range is the version text without its final `-wip` |
| `QueryTexts.AddPutsWip` | src/youwol/backends/cdn/loading_graph_implementation.py:276-284 | What is looked for next is the version whose text has `-wip` added |
| `QueryTexts.TextHasNumbers` | src/youwol/backends/cdn/loading_graph_implementation.py:249-250 | Before its dash the text of a version is its three numbers with points between |
| `QueryTexts.ApiKeyIsLine` | src/youwol/utils/http_clients/cdn_backend/models.py:26-32 | Two versions share the key of their symbols if and only if their first number that is not zero stands at the same place and is the same, or both are patches of 0.0 and the same |
| `VersionSelection.ListedChoiceIsLatest` | src/youwol/backends/cdn/loading_graph_implementation.py:268-289 | Taken as they are listed, versions give the greatest candidate in every range if and only if they descend, but for those of which a form stands earlier |
| `VersionSelection.ExtraOnlyIsLatestIfSorted` | src/youwol/backends/cdn/loading_graph_implementation.py:209-229 | For a library that only the extra index knows, a range query is answered with the latest version in every range if and only if the extra list descends so |
| `VersionSelection.ExtraOnlyIsNotSorted` | src/youwol/backends/cdn/loading_graph_implementation.py:209-229 | A case of the other kind: known only from the extra index, 1.0.0 listed before 2.0.0 is chosen over it |
| `DependencyResolver.FirstOfEachKeyKeepsKeys` | src/youwol/backends/cdn/loading_graph_implementation.py:561-576 | Removing duplicates keeps each query key once and loses none |
| `DependencyResolver.RoundShrinks` | src/youwol/backends/cdn/loading_graph_implementation.py:316-346 | A round that finds missing libraries resolves a key of the universe for the first time, so the rounds end on every index |
| `DependencyResolver.ResolvedIsPublished` | src/youwol/backends/cdn/loading_graph_implementation.py:232-302 | An entry names a published version and the full symbol of that name and version |
| `DependencyResolver.ObtainableExactly` | src/youwol/backends/cdn/loading_graph_implementation.py:240-302 | A version can be obtained only if it is published. Of a name that `using` imposes, it can be if and only if the query `*`, whose text does not count, is answered with it; of another name, a version whose text can be read can be if and only if it is published |
| `DependencyResolver.PublishedIsFetched` | src/youwol/backends/cdn/loading_graph_implementation.py:467-506 | Every published version can be fetched, under its own name, version and symbol |
| `DependencyResolver.ExtraIsFetched` | src/youwol/backends/cdn/loading_graph_implementation.py:479-483 | The first library of the extra index under a name and version is fetched as it is, whatever the documents hold |
| `DependencyResolver.FetchedIsOwn` | src/youwol/backends/cdn/loading_graph_implementation.py:479-506 | What is fetched is that library or, without one, has the bundle and the dependencies of a document with its index text, the document of its version when versions are indexable |
| `DependencyResolver.FetchedIsOwnDocument` | src/youwol/backends/cdn/loading_graph_implementation.py:484-489 | With indexable versions, the document found by index text is the one published under the version |
| `DependencyResolver.ClosureExtends` | src/youwol/backends/cdn/loading_graph_implementation.py:305-360 | The rounds only append libraries and entries, and each entry is what its query resolves to |
| `DependencyResolver.ClosureIsResolved` | src/youwol/backends/cdn/loading_graph_implementation.py:305-432 | Every dependency query of every library returned has an entry, unless it cannot be read |
| `DependencyResolver.ClosureHasSymbols` | src/youwol/backends/cdn/loading_graph_implementation.py:305-464 | On every index, each entry made names the symbol of a library that was fetched, or a key of the data cache |
| `DependencyResolver.ClosureAvoidsCache` | src/youwol/backends/cdn/loading_graph_implementation.py:325-346 | A symbol that is a key of the data cache is never fetched afterwards |
| `DependencyResolver.ClosureIsReachable` | src/youwol/backends/cdn/loading_graph_implementation.py:305-360 | Every library returned is reachable from the start through resolved queries |
| `DependencyResolver.ClosureIsPublished` | src/youwol/backends/cdn/loading_graph_implementation.py:340-360 | The libraries appended are published and carry the symbols of their name and version |
| `DependencyResolver.ErrorsAreReachable` | src/youwol/backends/cdn/loading_graph_implementation.py:412-419 | A failure names at least one query, and only queries of reachable libraries that nothing published satisfies |
| `RoundOrder.PendingIsExact` | src/youwol/backends/cdn/loading_graph_implementation.py:363-397 | A round resolves, of the dependencies of its libraries, the first query of each key that has no resolution, in order |
| `RoundOrder.ErrorsAreExact` | src/youwol/backends/cdn/loading_graph_implementation.py:412-419 | Its errors are those of its queries that nothing answers, in order |
| `RoundOrder.EntriesAreExact` | src/youwol/backends/cdn/loading_graph_implementation.py:420-429 | Its entries are what its other readable queries resolve to, one for each and in order |
| `RoundOrder.FetchIsExact` | src/youwol/backends/cdn/loading_graph_implementation.py:325-346 | It fetches, for each symbol of its entries that is no key of the data cache, once and in the order of first appearance, what the last entry of the symbol names |
| `ConcurrentResolution.CacheIsTransparent` | src/youwol/backends/cdn/loading_graph_implementation.py:164-229 | For every interleaving of the gathered tasks, each answers what it answers alone without cache, and the cache ends as after a sequential run |
| `ConcurrentResolution.RoundIsTransparent` | src/youwol/backends/cdn/loading_graph_implementation.py:398-429 | The resolutions recorded after any interleaving are those of the sequential round |
| `ConcurrentResolution.StepMakesProgress` | src/youwol/backends/cdn/loading_graph_implementation.py:232-259 | Every step of an unfinished task leaves fewer steps |
| `ConcurrentResolution.NothingLeft` | src/youwol/backends/cdn/loading_graph_implementation.py:398-411 | The tasks are all finished exactly when no step is left, at most two for each |
| `ConcurrentResolution.EveryRunCanEnd` | src/youwol/backends/cdn/loading_graph_implementation.py:398-411 | Every interleaving can be continued until all the tasks are done |
| `ConcurrentResolution.CacheSparesTheDatabase` | src/youwol/backends/cdn/loading_graph_implementation.py:172-180 | A task whose library is in the cache answers from it without asking the database |
| `ConcurrentResolution.BothAskTheDatabase` | src/youwol/backends/cdn/loading_graph_implementation.py:164-185 | Two tasks on one library can both ask the database before either fills the cache |
| `ConcurrentResolution.EntriesAreSequential` | src/youwol/backends/cdn/loading_graph_implementation.py:420-422 | The entries collected from the answers are those of the sequential round |
| `LoadingTreeRequest.Session.ListAllVersionsWithCache` | src/youwol/backends/cdn/loading_graph_implementation.py:164-229 | The answer is that of the index whatever the cache holds, and the cache gains it |
| `LoadingTreeRequest.Session.ResolveOne` | src/youwol/backends/cdn/loading_graph_implementation.py:232-302 | One task answers what its query resolves to and keeps the cache coherent |
| `LoadingTreeRequest.Session.RemoveDuplicates` | src/youwol/backends/cdn/loading_graph_implementation.py:561-576 | The loop keeps the first query of each key, in order |
| `LoadingTreeRequest.Session.ResolveAll` | src/youwol/backends/cdn/loading_graph_implementation.py:398-422 | The gathered tasks give the entries and the errors of the pending queries |
| `LoadingTreeRequest.Session.ResolveDependenciesVersionQueries` | src/youwol/backends/cdn/loading_graph_implementation.py:363-432 | One round: the entries of the pending queries, recorded unless there are errors |
| `LoadingTreeRequest.Session.FetchDependenciesData` | src/youwol/backends/cdn/loading_graph_implementation.py:435-464 | The missing libraries that can be fetched, in order, cached under their short symbols |
| `LoadingTreeRequest.Session.ResolveDependenciesRecursive` | src/youwol/backends/cdn/loading_graph_implementation.py:305-360 | The recursion ends on every index, cyclic ones included, with the libraries and the caches of the closure |
| `LoadingTreeRequest.ResolveLoadingTree` | src/youwol/backends/cdn/root_paths.py:404-501 | The request answers the lock and the graph of the closure of its root, or its errors |
| `LoadingTreeRequest.LockIsClosed` | src/youwol/backends/cdn/root_paths.py:452-486 | With readable queries, on an index that hides no dependency, the lock is closed, published, reachable and holds every requested symbol; otherwise the errors are genuine |
| `LoadingTreeRequest.LockIsOwn` | src/youwol/backends/cdn/root_paths.py:452-477 | Each library of a lock is its own entry of the extra index or has the bundle and the dependencies of its own document |
| `LoadingTreeRequest.OnlyCyclesFail` | src/youwol/backends/cdn/root_paths.py:452-493 | Such a request meets no unknown key, fails with `CircularDependencies` exactly on a cycle of the lock, and otherwise shows a valid layering of it: each symbol by name, version and bundle of the last library of the lock that has it, depending on what the queries of that library resolve to |
| `LoadingTreeRequest.KeyErrorIsUnreadable` | src/youwol/backends/cdn/root_paths.py:452-493 | The layering meets an unknown key if and only if a library of the lock has a query that the range parser refuses |
| `LoadingTreeRequest.UnreadableHappens` | src/youwol/backends/cdn/root_paths.py:452-493 | An index of one document on which it happens |
| `LoadingTreeRequest.TreeOutcome` | src/youwol/backends/cdn/root_paths.py:452-493 | What any answered request ends with on any index: an unknown key exactly for an unreadable query of the lock; else `CircularDependencies` exactly for a cycle or a symbol outside the lock, reporting each library that never loads with exactly its queries that keep it waiting; else a valid layering, each symbol shown by the last library of the lock that has it |
| `ClosedLocks.LocksAreClosedExactly` | src/youwol/backends/cdn/loading_graph_implementation.py:330-346 | On an index without queries for what is not published, every satisfiable request has a closed lock if and only if, for the libraries that can be obtained, no dependency is unreadable, no full symbol of a dependency is the short symbol of a library that can be obtained, the own symbol of its dependant aside, and no dependency has the name of the root |
| `ClosedLocks.ClashOpensLock` | src/youwol/backends/cdn/loading_graph_implementation.py:330-346 | For each such clash, a satisfiable request of one or two queries whose lock is not closed |
| `ClosedLocks.RootOpensLock` | src/youwol/backends/cdn/root_paths.py:475-477 | For each dependency with the name of the root, a satisfiable request whose lock is not closed |
| `ClosedLocks.KeysAreMissedExactly` | src/youwol/backends/cdn/root_paths.py:452-493 | On such an index, some satisfiable request meets an unknown key if and only if a library that can be obtained has a dependency that the range parser refuses |
| `ClosedLocks.UnreadableMissesKey` | src/youwol/backends/cdn/root_paths.py:452-493 | For each such dependency, a satisfiable request that meets an unknown key |
| `LoadingTreeRequest.ClashGivesSpuriousCycle` | src/youwol/backends/cdn/loading_graph_implementation.py:330-338 | A request of one query, for a library whose only dependency has the full symbol that is the short symbol of the library: it locks that library alone and fails with `CircularDependencies`, and the lock has no cycle |
| `LoadingTreeRequest.ClashHappens` | src/youwol/backends/cdn/loading_graph_implementation.py:330-338 | An index of two documents on which it happens: `a_APIv1` depends on `a`, both at 1.0.0 |
| `Base64Url.DecodeEncode` | src/youwol/app/environment/browser_cache_store.py:488-496 | Decoding gives back every byte sequence that was encoded |
| `Base64Url.EncodedIsOneLine` | src/youwol/app/environment/browser_cache_store.py:469-472 | No encoded text holds a newline, and none is empty but that of no bytes |
| `BrowserCache.AppendIsRead` | src/youwol/app/environment/browser_cache_store.py:172-175 | Writing the line of a record at the end of a log appends the record to what is read back |
| `BrowserCache.WrittenIsRead` | src/youwol/app/environment/browser_cache_store.py:383-386 | Writing records under a headline and reading the file gives back the same records |
| `BrowserCache.RecoveryIsLatestValid` | src/youwol/app/environment/browser_cache_store.py:371-388 | Recovery gives a key its latest record that is decodable, present and unexpired, and no other key |
| `BrowserCache.KeptIsClean` | src/youwol/app/environment/browser_cache_store.py:415-419 | A rewrite keeps valid records with distinct keys, at most `maxCount` of them |
| `BrowserCache.OldestKeysAreEvicted` | src/youwol/app/environment/browser_cache_store.py:371-419 | After recovery the log holds, of the records that are decodable, present and unexpired, the last one of each of the `maxCount` keys that appear first latest, in the order of those appearances: the keys first recorded are evicted first |
| `BrowserCache.CompactionIsIdempotent` | src/youwol/app/environment/browser_cache_store.py:367-419 | After recovery the log is clean and within `maxCount`; recovering again at the same instant keeps the same records and rewrites nothing |
| `BrowserCache.ZeroMaxCountEvictsNothing` | src/youwol/app/environment/browser_cache_store.py:415-419 | With `maxCount` zero every live key is kept and the log is rewritten at every recovery |
| `BrowserCache.MemoryMirrorsLog` | src/youwol/app/environment/browser_cache_store.py:383-419 | The replay of the recovered log is the recovered memory if and only if nothing is evicted |
| `BrowserCache.RecoveredMirrors` | src/youwol/app/environment/browser_cache_store.py:357-428 | A store recovered from at most `maxCount` live keys mirrors the log it leaves |
| `BrowserCache.CallKeepsMirror` | src/youwol/app/environment/browser_cache_store.py:172-175 | Every call but the clearing of the file alone keeps memory equal to the replay of the log without the missing keys |
| `BrowserCache.ClearingFileAlone` | src/youwol/app/environment/browser_cache_store.py:316-323 | After clearing the file alone memory stays within the log if and only if it is empty |
| `BrowserCache.RunMirrorsLog` | src/youwol/app/environment/browser_cache_store.py:100-268 | Along every run of writes, reads and full clears memory is the last-write-wins replay of the log, minus only keys that a read has dropped |
| `BrowserCache.PerformIsPlay` | src/youwol/app/environment/browser_cache_store.py:100-268 | While the store holds its file open, its calls are those of the memory and the log |
| `BrowserCache.StoreMirrorsLog` | src/youwol/app/environment/browser_cache_store.py:100-428 | The same for the store itself: from the initialisation by the first identified request on, with at most `maxCount` live keys in the log found, and along every such run |
| `BrowserCache.FirstRequest` | src/youwol/app/environment/browser_cache_store.py:327-365 | The first request changes nothing without user, in memory mode only sets the session, and in disk mode without file starts one that holds the headline |
| `BrowserCache.BrowserRequests` | src/youwol/app/environment/browser_cache_store.py:478-486 | A request is served if and only if it is a `GET` whose user agent names one of the six browsers, in whatever letters |
| `BrowserCache.CacheableResponses` | src/youwol/app/environment/browser_cache_store.py:136-150 | A response is cached if and only if it has the directive, mentions `max-age=` and none of `no-cache`, `no-store` and `max-age=0` |
| `BrowserCache.BrowserCacheStore.SanityCheck` | src/youwol/app/environment/browser_cache_store.py:367-387 | The loop keeps the valid records in order and counts the others |
| `BrowserCache.BrowserCacheStore.InitCache` | src/youwol/app/environment/browser_cache_store.py:327-428 | The first request of an identified user recovers memory and log, later ones change nothing |
| `BrowserCache.BrowserCacheStore.CacheIfNeeded` | src/youwol/app/environment/browser_cache_store.py:100-177 | A qualifying response is recorded in memory and, in disk mode, in the log; any other changes nothing more than the initialisation |
| `BrowserCache.BrowserCacheStore.TryGet` | src/youwol/app/environment/browser_cache_store.py:179-268 | The record of the key is answered if its file has the announced length; a missing file drops the key from memory |
| `BrowserCache.BrowserCacheStore.ClearItems` | src/youwol/app/environment/browser_cache_store.py:298-325 | Memory and file are cleared as asked, the count is that of the records before; without an open file the call fails after clearing memory |
| `TreeStore.CreationKeepsForest` | src/youwol/backends/tree_db/utils.py:399-443 | A creation with a fresh id keeps the store a forest rooted at drives and changes no entry |
| `TreeStore.RunsKeepForests` | src/youwol/backends/tree_db/utils.py:399-443 | Every run of creations with fresh ids leaves a forest that extends the one it starts from |
| `TreeStore.RunCreates` | src/youwol/backends/tree_db/utils.py:399-443 | In the end every entry asked for is there as asked, but for folders whose parent was missing then |
| `TreeStore.RecreationKeepsForest` | src/youwol/backends/tree_db/utils.py:399-426 | Creating an existing folder of a forest again leaves a forest if and only if the parent is missing, or is neither the folder nor below it and has the drive and group of the folder's children |
| `TreeStore.CarriesItsDrive` | src/youwol/backends/tree_db/utils.py:410-422 | In a forest every folder carries the id and the group of a drive that exists |
| `TreeStore.CreatedAsAsked` | src/youwol/backends/tree_db/utils.py:399-443 | A creation writes the entry asked for, field by field, with the group and the drive of the parent, and changes nothing without parent |
| `TreeStore.RecreationCanLoop` | src/youwol/backends/tree_db/utils.py:414-423 | A folder created again under its own child leaves no forest |
| `TreeStore.PathIsUnique` | src/youwol/backends/tree_db/utils.py:349-369 | The path from a drive's child down to a folder is unique |
| `TreeStore.TreeDb.CreateDrive` | src/youwol/backends/tree_db/utils.py:429-443 | The drive is stored under its id |
| `TreeStore.TreeDb.CreateFolder` | src/youwol/backends/tree_db/utils.py:399-426 | The folder is stored with its parent's group and drive, or refused with 404 when there is no parent |
| `TreeStore.TreeDb.GetFoldersRec` | src/youwol/backends/tree_db/utils.py:349-369 | On a forest the walk up ends, and answers the parent-linked, repetition-free path from the drive's child down to the folder |
| `EnsurePath.EnsureDrive` | src/youwol/app/routers/commons.py:75-91 | The drive is created only if it is missing |
| `EnsurePath.EnsurePath` | src/youwol/app/routers/commons.py:27-72 | The recursive call leaves the store of the specification, and fails when a creation is refused |
| `EnsurePath.PathIsEnsured` | src/youwol/app/routers/commons.py:27-91 | From a forest that agrees with a well-formed path the call succeeds: drive and folders are present, the store is a forest, no entry is changed, and exactly what was missing is added |
| `EnsurePath.PathIsEnsuredExactly` | src/youwol/app/routers/commons.py:27-91 | On any store the call on a well-formed path succeeds, changes no entry, and leaves drive and path there if and only if no folder of the path was there or everything above the deepest one that was |
| `EnsurePath.PresentAbove` | src/youwol/app/routers/commons.py:36-44 | In a forest a present last folder has its whole path above it, so stopping early is sound |
| `EnsurePath.OrphanIsNotRepaired` | src/youwol/app/routers/commons.py:36-44 | A present last folder stops the call and nothing is added; when that leaves the path incomplete the store was no forest |
| `EnsurePath.OrphanHappens` | src/youwol/app/routers/commons.py:36-44 | A store with a folder but without its parent, on which the path stays incomplete |
| `DefaultDrive.EnsureFolder` | src/youwol/backends/tree_db/utils.py:532-557 | The folder is created only if it is missing, under the parent asked for |
| `DefaultDrive.GetDefaultDrive` | src/youwol/backends/tree_db/utils.py:446-511 | A call that runs alone leaves the specified store |
| `DefaultDrive.TargetIsSettled` | src/youwol/backends/tree_db/utils.py:446-511 | That store has the drive and the five folders, each the one there at the start or a child of its parent, and nothing else is changed |
| `DefaultDrive.FirstCallCreates` | src/youwol/backends/tree_db/utils.py:456-511 | For a group without entries it holds exactly the drive and the five folders more, with the ids, parents and names of the source |
| `DefaultDrive.StepKeepsInv` | src/youwol/backends/tree_db/utils.py:446-557 | Every step of every caller keeps the store between the start and the store of a single call |
| `DefaultDrive.InterleavingsAgree` | src/youwol/backends/tree_db/utils.py:446-557 | However any number of callers interleave, none fails, and as soon as one has ended the store is the one a single call leaves |
| `DefaultDrive.SomeTurnAdvances` | src/youwol/backends/tree_db/utils.py:472-511 | Wherever a run has come to, an unfinished caller has a turn that leaves it fewer steps and moves no other caller |
| `DefaultDrive.EveryRunCanEnd` | src/youwol/backends/tree_db/utils.py:446-557 | Every run of any number of callers can be continued until all have ended, with the store of a single call |
| `DefaultDrive.RaceOnDrive` | src/youwol/backends/tree_db/utils.py:456-470 | Two callers can both find the drive missing before either creates it |
| `DefaultDrive.FolderTakesFourSteps` | src/youwol/backends/tree_db/utils.py:532-557 | The creation of a folder is not atomic: reading it and looking for its parent twice change nothing, the fourth step writes it |
| `ExplorerData.DotSlashMatters` | src/youwol/backends/cdn/utils.py:452-454 | Removing `./` leaves a base path as it is exactly when it holds none |
| `ExplorerData.WalkHasDistinctKeys` | src/youwol/backends/cdn/utils.py:437-440 | No two directories walked have the same key |
| `ExplorerData.FillRecords` | src/youwol/backends/cdn/utils.py:437-457 | The loop gives each directory its record with no totals yet, and fails exactly when a file has no upload |
| `ExplorerData.Explorers.ComputeFolders` | src/youwol/backends/cdn/utils.py:407-412 | The recursion over the folder entries has the outcome of the specification, a missing record included |
| `ExplorerData.Explorers.ComputeAttributesRec` | src/youwol/backends/cdn/utils.py:403-418 | The recursion ends on any records, cut off by a missing one, with the records, the sum and the count of the specification |
| `ExplorerData.RecordIsFinished` | src/youwol/backends/cdn/utils.py:403-418 | Where the folder entries name their records, the recursion answers the sum and the count over all files below, finishes every record below and touches no other |
| `ExplorerData.IntactByNames` | src/youwol/backends/cdn/utils.py:452-454 | The folder entries name their records if and only if no directory whose name ends with a dot has a sub-directory |
| `ExplorerData.BrokenFolder` | src/youwol/backends/cdn/utils.py:441-455 | Otherwise the record of some directory is out of reach and keeps its missing size |
| `ExplorerData.SizesComplete` | src/youwol/backends/cdn/utils.py:411-417 | Filling in the sizes gives each folder entry its child's total, and the sums are those over the files below |
| `ExplorerData.CreateExplorerData` | src/youwol/backends/cdn/utils.py:400-470 | The call fails when a file or the zip has no upload. With complete uploads each directory has a record whose size and count are those of all files below it, and there is no other record, if and only if no directory whose name ends with a dot has a sub-directory; otherwise the call fails or a directory keeps the size -1 |
| `ExplorerData.DottedParentHappens` | src/youwol/backends/cdn/utils.py:452-454 | A package on which it goes wrong: directory `v.` with a sub-directory `x` |
| `ExplorerData.PathsAreDistinct` | src/youwol/backends/cdn/utils.py:437-450 | The paths of the files of a package are distinct |
| `ExplorerData.RootHoldsAllUploads` | src/youwol/backends/cdn/utils.py:429-465 | Conservation: the root's size is the total size of all uploads, original zip included, and its count their number |
| `ReleaseVersions.SuffixesInOrder` | version_management.py:143-242 | The suffixes of one release are ordered as PEP 440 lists them, whatever their numbers |
| `ReleaseVersions.NumbersInOrder` | version_management.py:143-242 | Within one kind of suffix the number decides, before that of `dev` |
| `ReleaseVersions.OrderIsStrict` | version_management.py:146 | The order is strict and total, up to trailing zeros of the release |
| `ReleaseVersions.LessTransitive` | version_management.py:146 | The order is transitive |
| `ReleaseVersions.ShapeIsKept` | version_management.py:143-242 | The shape X.Y.Z, with a candidate or a post number and perhaps in development, is kept by every command |
| `ReleaseVersions.PaddedIsNotBefore` | version_management.py:146-153 | A target not before a release has its first three components not before it |
| `ReleaseVersions.CandidateOrder` | version_management.py:143-163 | A release candidate is after the current version, unless its target respells the current release past its first candidate: then it is before |
| `ReleaseVersions.StepOrder` | version_management.py:143-242 | A command that succeeds writes a later version, but in exactly two cases, in which it writes an earlier one |
| `ReleaseVersions.OnlyPostDevGoesBack` | version_management.py:196-207 | With three-component targets the only such case is `prepare_post_dev` on a plain final version |
| `ReleaseVersions.RespelledTargetsGoBack` | version_management.py:151-163 | Two targets that go back: 1.2 after 1.2.0rc3.dev, and 1.2.3.4 after 1.2.3.post1.dev |
| `ReleaseVersions.StepExactly` | version_management.py:131-240 | When each command raises and leaves the file alone; otherwise it writes the current version, and the released one only for a candidate or a final release |
| `ReleaseVersions.WritesLeast` | version_management.py:143-240 | Each command writes the least version of its kind that follows: the next micro, the next number of the candidate or post release, the candidate or release of the number under development |
| `ReleaseVersions.RunsMoveForward` | version_management.py:143-242 | Along every run without such a step versions strictly increase at each success, keep their shape, and the released version is never after the current one |
| `ReleaseVersions.VersionFile.PrepareReleaseCandidate` | version_management.py:143-165 | The command writes the candidate of the target to both entries of the file, or raises and writes nothing |
| `ReleaseVersions.VersionFile.RestoreDevelopment` | version_management.py:170-191 | The command writes the next development version, or raises on one |
| `ReleaseVersions.VersionFile.PreparePostDevelopment` | version_management.py:196-209 | The command writes the next post development version, or raises |
| `ReleaseVersions.VersionFile.NextDevelopment` | version_management.py:214-226 | The command writes the development version of the next micro, or raises |
| `ReleaseVersions.VersionFile.PrepareFinalRelease` | version_management.py:231-240 | The command writes the final or post release to both entries, or raises |
| `UrlMatch.MatchParts` | src/youwol/utils/request_info_factory.py:24-54 | The loop succeeds exactly when the path matches segment by segment, with equal length without `**` and at least the pattern's length minus one with a trailing one, and answers the captures |
| `UrlMatch.UrlMatch` | src/youwol/utils/request_info_factory.py:18-54 | The method must match too; a pattern without exactly one colon or with a misplaced `**` is an error |
| `UrlMatch.MatchingExactly` | src/youwol/utils/request_info_factory.py:18-54 | Stated on the segments between the slashes: another method is no match, an early `**` is an error, otherwise a match is one segment for each of the pattern with any number under a final `**`; the captures are the method for `*`, in order the segments that differ from theirs, and the non-empty ones under `**` if it is reached |
| `UrlMatch.TwoColonsAreError` | src/youwol/utils/request_info_factory.py:19 | A pattern with more than one colon is an error |
| `UrlMatch.NoColonIsError` | src/youwol/utils/request_info_factory.py:19 | So is one without |
| `UrlMatch.CapturesRebuild` | src/youwol/utils/request_info_factory.py:34-50 | The captures in the places of the wildcards give the path back, up to empty segments of the tail |
| `UrlMatch.MatchRebuildsPath` | src/youwol/utils/request_info_factory.py:34-50 | They do so if and only if no `*` of the pattern matched the text `*` itself |
| `UrlMatch.RebuiltText` | src/youwol/utils/request_info_factory.py:27 | Without empty tail segments the text of the path is given back |
| `UrlMatch.TailIsCaptured` | src/youwol/utils/request_info_factory.py:37-39 | The tail is captured exactly when the path has at least as many segments as the pattern |
| `StoryPositions.ParseFormat` | src/youwol/backends/stories/utils.py:71-72 | Reading a written position gives it back |
| `StoryPositions.NextIsGreater` | src/youwol/backends/stories/utils.py:64-67 | The next position is strictly greater, even when the fraction rounds up, by at most two |
| `StoryPositions.TextOrderIsNumeric` | src/youwol/backends/stories/utils.py:70-72 | Below 1000000 text order is numeric order, negative bounds included |
| `StoryPositions.PutKeepsOrder` | src/youwol/backends/stories/root_paths.py:559-598 | A document that is put replaces none, and its family stays in order as numbers and as texts if and only if the next whole position and the fraction fit the width |
| `StoryPositions.RunsKeepOrder` | src/youwol/backends/stories/root_paths.py:559-598 | At any instants, 250000 documents under each parent are all kept, with strictly increasing positions within the fixed width |
| `StoryPositions.ChildrenInOrder` | src/youwol/backends/stories/root_paths.py:513-538 | The children listed from a position within the width are the first `count` of the documents created under the parent that are numerically not before it, in the order of their creation |
| `StoryPositions.ChildrenAreSorted` | src/youwol/backends/stories/root_paths.py:513-523 | On any table and with any bound, the children listed are the first `count` of the documents under the parent whose text is not before the text of the bound, in ascending order of text |
| `StoryPositions.FilterPastWidth` | src/youwol/backends/stories/root_paths.py:513-519 | A position passes a bound from 1000000 on if and only if its whole part is greater than the first six digits of the bound; so some position passes, though smaller, if and only if those digits are not 999999 |
| `StoryPositions.LimitIsReached` | src/youwol/backends/stories/utils.py:58-67 | When the clock always rounds up the n-th sibling is at 499999 + 2n, so the 250000th is at 999999 |
| `StoryPositions.NextReplaces` | src/youwol/backends/stories/root_paths.py:559-598 | Without room the next position is too long and comes first as text: of two documents added at the same fraction of a second the second replaces the first |
| `StoryPositions.RoomIsTight` | src/youwol/backends/stories/root_paths.py:559-598 | After 250000 documents on a clock that always rounds up, two more at the same fraction of a second leave only one more |
| `StoryPositions.DocumentsTable.PutDocument` | src/youwol/backends/stories/root_paths.py:547-600 | The document is written after the greatest position of its siblings, as text |
| `StoryPositions.DocumentsTable.GetChildren` | src/youwol/backends/stories/root_paths.py:504-539 | On a table in order, with a bound within the width, the answer is the first `count` documents under the parent whose position is numerically not before the bound, in the order of their creation; on any table it is the sorted text filter |

## Left out

- HTTP, routing, websockets, authentication, shell commands, uploads, zip and compression: input and output only.
- Errors of the database other than 404: a lookup succeeds or answers 404.
- The semantic-version library: `parses` and `satisfies` are arbitrary; prerelease tags outside the allowed list, several prerelease identifiers and build metadata have no place in the encoding.
- VersionIndexing.NumberReflectsOrder: the code multiplies in double precision, which is exact for numbers below 2^53; the model uses integers.
- VersionIndexing.TextReflectsOrder: a prerelease of 0.0.0, whose number is negative, is left to `TextOrderExactly`.
- The limit of 1000 listed versions: the listing of the model is complete.
- The `parent` field of a query and the detail of the errors, and the root library's own version text: no effect on the result.
- Symbols other than the full one of a library (aliases, fingerprint, namespace, type, id): carried along unchanged.
- LoadingTreeRequest.ResolveLoadingTree: an asset's id and URL are represented by the name, version and bundle they are made from.
- LoadingTreeRequest.OnlyCyclesFail: requested names have no `#`, the separator of a stored query (the queries of the index are split at it, `loading_graph_implementation.py:501-504`, `root_paths.py:413-416`), and the constant table of exported symbols (`utils/http_clients/cdn_backend/models.py:48`) leaves the name of the root alone.
- ClosedLocks.LocksAreClosedExactly: no dependency of the index asks for what is not published; otherwise a clash may only show in requests that end with errors, which have no lock. `ClosedLocks.KeysAreMissedExactly` has the same hypothesis.
- `retrieve_dependency_paths`: may not terminate on cycles, and only serves messages.
- BrowserCache.WrittenIsRead: JSON is a pair of functions of which only the round trip is required; text that is not UTF-8 or JSON that is not an object, on which the code raises, reads as an unreadable record.
- BrowserCache.BrowserCacheStore.TryGet: byte ranges are not modelled; a length that changed between announcement and reading is.
- BrowserCache.BrowserCacheStore.CacheIfNeeded: the `ignore` and `disable_write` callbacks, and the clock arithmetic of `max-age`, which comes in as the expiration time.
- File buffering, and crashes in the middle of a line.
- DefaultDrive.GetDefaultDrive: the response object; the id of the system folder found is taken to be the id it was asked under.
- Folder moves, renames, deletions and the trash: not part of this model; a folder that is created again is part of it (`RecreationKeepsForest`).
- EnsurePath.EnsurePath: an error other than 404 on the first lookup, which the code ignores, does not occur.
- ExplorerData.CreateExplorerData: the walk is given as a tree of proper names, distinct in each directory; links and unreadable directories are not part of it.
- ReleaseVersions.StepOrder: versions are components, not text; an omitted number reads as zero and two base versions are the same text when their release components are the same. Epochs and local parts, the changelog and the commits are left out.
- StoryPositions.TextOrderIsNumeric: the bound is a number of millionths, so a bound that rounds to a negative zero is not represented.
- StoryPositions.DocumentsTable.GetChildren: a negative count, which would drop documents from the end.
- `move_document` and `get_children_rec` of the stories: the first writes an unpadded position, the second reads a column that documents do not have.
- Context logging, reporters and the bounded log buffer: no effect on results.
