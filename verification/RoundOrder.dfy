/** The order of a round: what it resolves, what it reports and what it fetches, in terms of its libraries. */
module RoundOrder {
  import opened CdnModel
  import opened DependencyResolver
  import opened GraphLayers
  import opened PyDict
  import opened Sequences
  import opened VersionIndexing
  import opened VersionSelection
  import opened Wrappers

  // ---------- The queries of a round ----------

  function QueryKeys(queries: seq<LibraryQuery>): (r: seq<string>)
    ensures |r| == |queries| && forall i :: 0 <= i < |r| ==> r[i] == QueryKey(queries[i])
  {
    seq(|queries|, i requires 0 <= i < |queries| => QueryKey(queries[i]))
  }

  lemma QueryKeysAppended(queries: seq<LibraryQuery>, q: LibraryQuery)
    ensures QueryKeys(queries + [q]) == QueryKeys(queries) + [QueryKey(q)]
  {
  }

  /** The dependencies of the libraries, one library after the other. */
  lemma {:induction false} FlatOfTwo(a: seq<Library>, b: seq<Library>)
    ensures FlatDependencies(a + b) == FlatDependencies(a) + FlatDependencies(b)
    ensures |b| == 1 ==> FlatDependencies(b) == b[0].dependencies
  {
    if a == [] {
      assert a + b == b;
    } else {
      assert (a + b)[1..] == a[1..] + b;
      FlatOfTwo(a[1..], b);
    }
    if |b| == 1 {
      assert b[1..] == [];
    }
  }

  /** The query stands at the first place of its key. */
  ghost predicate IsFirstOfKey(queries: seq<LibraryQuery>, q: LibraryQuery) {
    exists i :: FirstAt(QueryKeys(queries), i, QueryKey(q)) && queries[i] == q
  }

  /** Each key once: the first query that has it, in the order of the first places. */
  ghost predicate AreFirsts(r: seq<LibraryQuery>, queries: seq<LibraryQuery>) {
    && InFirstOrder(QueryKeys(r), QueryKeys(queries))
    && (forall q <- r :: IsFirstOfKey(queries, q))
    && (forall key :: key in QueryKeys(r) <==> key in QueryKeys(queries))
  }

  lemma InKeys(queries: seq<LibraryQuery>, key: string)
    ensures key in QueryKeys(queries) <==> Asks(queries, key)
  {
    if key in QueryKeys(queries) {
      var i :| 0 <= i < |queries| && QueryKeys(queries)[i] == key;
      assert queries[i] in queries;
    }
    if Asks(queries, key) {
      var q :| q in queries && QueryKey(q) == key;
      var i :| 0 <= i < |queries| && queries[i] == q;
      assert QueryKeys(queries)[i] == key;
    }
  }

  lemma FirstOfLonger(queries: seq<LibraryQuery>, q: LibraryQuery, p: LibraryQuery)
    requires IsFirstOfKey(queries, p)
    ensures IsFirstOfKey(queries + [q], p)
  {
    var i :| FirstAt(QueryKeys(queries), i, QueryKey(p)) && queries[i] == p;
    QueryKeysAppended(queries, q);
    assert FirstAt(QueryKeys(queries + [q]), i, QueryKey(p));
  }

  lemma OrderOfLonger(keys: seq<string>, listed: seq<string>, key: string)
    requires InFirstOrder(keys, listed) && forall k <- keys :: k in listed
    ensures InFirstOrder(keys, listed + [key])
    ensures key !in listed ==> InFirstOrder(keys + [key], listed + [key])
  {
    var more, longer := keys + [key], listed + [key];
    forall k, i | k in listed && FirstAt(longer, i, k)
      ensures FirstAt(listed, i, k)
    {
      var j :| 0 <= j < |listed| && listed[j] == k;
      assert forall x :: 0 <= x < |listed| ==> longer[x] == listed[x];
    }
    if key !in listed {
      forall a, b, i, j | 0 <= a < b < |more| && FirstAt(longer, i, more[a]) && FirstAt(longer, j, more[b])
        ensures i < j
      {
        assert more[a] in keys;
        assert b < |keys| ==> more[b] in keys;
      }
    }
  }

  lemma {:induction false} FirstOfEachKeyIsExact(queries: seq<LibraryQuery>)
    ensures AreFirsts(FirstOfEachKey(queries), queries)
  {
    if queries != [] {
      var init, q := queries[..|queries| - 1], queries[|queries| - 1];
      assert queries == init + [q];
      FirstOfEachKeyIsExact(init);
      FirstsOfLonger(FirstOfEachKey(init), init, q);
    }
  }

  lemma FirstsOfLonger(before: seq<LibraryQuery>, init: seq<LibraryQuery>, q: LibraryQuery)
    requires AreFirsts(before, init)
    ensures AreFirsts(if Asks(before, QueryKey(q)) then before else before + [q], init + [q])
  {
    var r, queries := if Asks(before, QueryKey(q)) then before else before + [q], init + [q];
    QueryKeysAppended(init, q);
    QueryKeysAppended(before, q);
    InKeys(before, QueryKey(q));
    OrderOfLonger(QueryKeys(before), QueryKeys(init), QueryKey(q));
    forall p | p in r
      ensures IsFirstOfKey(queries, p)
    {
      if p in before {
        FirstOfLonger(init, q, p);
      } else {
        assert FirstAt(QueryKeys(queries), |init|, QueryKey(q)) && queries[|init|] == q;
      }
    }
  }

  ghost function New(resolutions: Resolutions): LibraryQuery -> bool {
    (q: LibraryQuery) => QueryKey(q) !in resolutions
  }

  lemma {:induction false} UnresolvedIsFilter(queries: seq<LibraryQuery>, resolutions: Resolutions)
    ensures IsFilter(Unresolved(queries, resolutions), queries, New(resolutions))
  {
    if queries == [] {
      EmptyFilter(New(resolutions));
    } else {
      assert queries == [queries[0]] + queries[1..];
      UnresolvedIsFilter(queries[1..], resolutions);
      FilterPrepended(queries[0], Unresolved(queries[1..], resolutions), queries[1..], New(resolutions));
    }
  }

  /**
    What a round resolves: of the dependencies of its libraries, the first query of each key, in
    order, for the keys without resolution.
   */
  lemma PendingIsExact(libs: seq<Library>, resolutions: Resolutions)
    ensures exists firsts ::
      AreFirsts(firsts, FlatDependencies(libs)) && IsFilter(Pending(libs, resolutions), firsts, New(resolutions))
  {
    FirstOfEachKeyIsExact(FlatDependencies(libs));
    UnresolvedIsFilter(FirstOfEachKey(FlatDependencies(libs)), resolutions);
  }

  // ---------- Its errors and its entries ----------

  ghost function NotFound(index: Index): LibraryQuery -> bool {
    (q: LibraryQuery) => ResolveVersion(index, q).LibraryNotFound?
  }

  /** The errors of a round: its queries without answer, in order. */
  lemma {:induction false} ErrorsAreExact(index: Index, queries: seq<LibraryQuery>)
    ensures IsFilter(NotFoundAmong(index, queries), queries, NotFound(index))
  {
    if queries == [] {
      EmptyFilter(NotFound(index));
    } else {
      var init, q := queries[..|queries| - 1], queries[|queries| - 1];
      assert queries == init + [q];
      ErrorsAreExact(index, init);
      FilterExtended(NotFoundAmong(index, init), init, q, NotFound(index), NotFoundAmong(index, queries), queries);
    }
  }

  ghost function Found(index: Index): LibraryQuery -> bool {
    (q: LibraryQuery) => ResolveVersion(index, q).Resolved?
  }

  /** The entries are what the queries resolve to, one for each. */
  ghost predicate AnswersOf(index: Index, queries: seq<LibraryQuery>, entries: seq<ResolvedQuery>) {
    && |entries| == |queries|
    && forall i :: 0 <= i < |queries| ==> ResolveVersion(index, queries[i]) == Resolved(entries[i])
  }

  /** The entries of a round: what its queries resolve to, in order, for those that do. */
  lemma {:induction false} EntriesAreExact(index: Index, queries: seq<LibraryQuery>) returns (found: seq<LibraryQuery>)
    ensures IsFilter(found, queries, Found(index)) && AnswersOf(index, found, Entries(index, queries))
  {
    if queries == [] {
      EmptyFilter(Found(index));
      found := [];
    } else {
      var init, q := queries[..|queries| - 1], queries[|queries| - 1];
      assert queries == init + [q];
      var before := EntriesAreExact(index, init);
      FilterAppended(before, init, q, Found(index));
      found := if Found(index)(q) then before + [q] else before;
    }
  }

  // ---------- What it fetches ----------

  function EntrySymbols(entries: seq<ResolvedQuery>): (r: seq<Symbol>)
    ensures |r| == |entries| && forall i :: 0 <= i < |r| ==> r[i] == entries[i].exportedSymbol
  {
    seq(|entries|, i requires 0 <= i < |entries| => entries[i].exportedSymbol)
  }

  ghost function NoKeyOf(fullData: map<string, Library>): Symbol -> bool {
    (s: Symbol) => s !in fullData
  }

  function PairsOf(entries: seq<ResolvedQuery>): (r: seq<(Symbol, ResolvedQuery)>)
    ensures |r| == |entries| && forall i :: 0 <= i < |r| ==> r[i] == (entries[i].exportedSymbol, entries[i])
  {
    seq(|entries|, i requires 0 <= i < |entries| => (entries[i].exportedSymbol, entries[i]))
  }

  ghost function PairIsNew(fullData: map<string, Library>): ((Symbol, ResolvedQuery)) -> bool {
    (p: (Symbol, ResolvedQuery)) => p.0 !in fullData
  }

  lemma {:induction false} MissingIsFilter(entries: seq<ResolvedQuery>, fullData: map<string, Library>)
    ensures IsFilter(MissingPairs(entries, fullData), PairsOf(entries), PairIsNew(fullData))
  {
    if entries == [] {
      EmptyFilter(PairIsNew(fullData));
      assert PairsOf(entries) == [];
    } else {
      var init, e := entries[..|entries| - 1], entries[|entries| - 1];
      assert PairsOf(entries) == PairsOf(init) + [(e.exportedSymbol, e)];
      MissingIsFilter(init, fullData);
      FilterExtended(MissingPairs(init, fullData), PairsOf(init), (e.exportedSymbol, e), PairIsNew(fullData),
                     MissingPairs(entries, fullData), PairsOf(entries));
    }
  }

  /** The filtered pairs have the filtered keys. */
  lemma FilteredPairs(pairs: seq<(Symbol, ResolvedQuery)>, entries: seq<ResolvedQuery>, fullData: map<string, Library>)
    requires IsFilter(pairs, PairsOf(entries), PairIsNew(fullData))
    ensures IsFilter(KeyList(pairs), EntrySymbols(entries), NoKeyOf(fullData))
  {
    FilterMapped(pairs, PairsOf(entries), PairIsNew(fullData), (p: (Symbol, ResolvedQuery)) => p.0,
                 KeyList(pairs), EntrySymbols(entries), NoKeyOf(fullData));
  }

  ghost predicate LastEntry(entries: seq<ResolvedQuery>, s: Symbol, e: ResolvedQuery) {
    exists k :: LastAt(EntrySymbols(entries), k, s) && entries[k] == e
  }

  /** The last of the filtered pairs with a symbol is made from the last entry of the symbol. */
  lemma LastPair(pairs: seq<(Symbol, ResolvedQuery)>, entries: seq<ResolvedQuery>, fullData: map<string, Library>,
                 i: nat)
    requires IsFilter(pairs, PairsOf(entries), PairIsNew(fullData))
    requires i < |pairs| && forall j :: i < j < |pairs| ==> pairs[j].0 != pairs[i].0
    ensures LastEntry(entries, pairs[i].0, pairs[i].1)
  {
    var all := PairsOf(entries);
    var places :| Picks(pairs, all, places) && KeepsAt(all, places, PairIsNew(fullData));
    assert places[i] in places && all[places[i]] == pairs[i] && PairIsNew(fullData)(pairs[i]);
    forall k | places[i] < k < |entries|
      ensures entries[k].exportedSymbol != pairs[i].0
    {
      assert all[k].0 == entries[k].exportedSymbol;
      if PairIsNew(fullData)(all[k]) {
        var j := LaterIsPicked(pairs, all, places, PairIsNew(fullData), i, k);
      }
    }
    assert LastAt(EntrySymbols(entries), places[i], pairs[i].0);
  }

  /** Every entry is fetched, in order. */
  lemma {:induction false} FetchIsOneByOne(index: Index, entries: seq<ResolvedQuery>)
    requires forall e <- entries :: GetData(index, e.name, e.version).Some?
    ensures |FetchAll(index, entries)| == |entries|
    ensures forall i :: 0 <= i < |entries| ==>
      Some(FetchAll(index, entries)[i]) == GetData(index, entries[i].name, entries[i].version)
  {
    if entries != [] {
      var init, e := entries[..|entries| - 1], entries[|entries| - 1];
      assert entries == init + [e];
      FetchIsOneByOne(index, init);
    }
  }

  /**
    What a round fetches: for each symbol of its entries that is no key of the data cache, once and
    in the order of first appearance, what the last entry of the symbol names.
   */
  lemma FetchIsExact(index: Index, libs: seq<Library>, resolutions: Resolutions, fullData: map<string, Library>)
    requires WellFormed(index)
    ensures var listed := EntrySymbols(Entries(index, Pending(libs, resolutions)));
      var symbols := Symbols(RoundFetch(index, libs, resolutions, fullData));
      && InFirstOrder(symbols, listed) && NoDuplicates(symbols)
      && forall s :: s in symbols <==> s in listed && s !in fullData
    ensures forall lib <- RoundFetch(index, libs, resolutions, fullData) ::
      IsLastAnswer(index, Entries(index, Pending(libs, resolutions)), lib)
  {
    var entries := Entries(index, Pending(libs, resolutions));
    var d, fetched := Missing(entries, fullData), RoundFetch(index, libs, resolutions, fullData);
    FetchOfMissing(index, libs, resolutions, fullData);
    MissingInOrder(entries, fullData);
    forall lib | lib in fetched
      ensures IsLastAnswer(index, entries, lib)
    {
      var i :| 0 <= i < |fetched| && fetched[i] == lib;
      assert Symbols(fetched)[i] == d.keys[i];
      LastAnswer(index, entries, fullData, d.keys[i], lib);
    }
  }

  lemma MissingInOrder(entries: seq<ResolvedQuery>, fullData: map<string, Library>)
    ensures var keys := Missing(entries, fullData).keys;
      && InFirstOrder(keys, EntrySymbols(entries)) && NoDuplicates(keys)
      && forall s :: s in keys <==> s in EntrySymbols(entries) && s !in fullData
  {
    var pairs, d := MissingPairs(entries, fullData), Missing(entries, fullData);
    MissingIsFilter(entries, fullData);
    FilteredPairs(pairs, entries, fullData);
    KeysInOrder(pairs);
    KeysOfMissing(pairs, d);
    FilterMembers(KeyList(pairs), EntrySymbols(entries), NoKeyOf(fullData));
    FirstOrderOfWhole(d.keys, KeyList(pairs), EntrySymbols(entries), NoKeyOf(fullData));
  }

  /** The library is what the last entry of its symbol names. */
  ghost predicate IsLastAnswer(index: Index, entries: seq<ResolvedQuery>, lib: Library) {
    exists e :: LastEntry(entries, FullSymbol(lib), e) && GetData(index, e.name, e.version) == Some(lib)
  }

  lemma KeysOfMissing(pairs: seq<(Symbol, ResolvedQuery)>, d: Dict<Symbol, ResolvedQuery>)
    requires d == FromPairs(pairs)
    ensures forall s :: s in d.keys <==> s in KeyList(pairs)
  {
    forall s
      ensures s in d.keys <==> s in KeyList(pairs)
    {
      KeysOfPairs(pairs, s);
      if s in KeyList(pairs) {
        var i :| 0 <= i < |pairs| && KeyList(pairs)[i] == s;
      }
      if HasKey(pairs, s) {
        var i :| 0 <= i < |pairs| && pairs[i].0 == s;
        assert KeyList(pairs)[i] == s;
      }
    }
  }

  /** The libraries fetched carry the missing symbols, one for each. */
  lemma FetchOfMissing(index: Index, libs: seq<Library>, resolutions: Resolutions, fullData: map<string, Library>)
    requires WellFormed(index)
    ensures var entries := Entries(index, Pending(libs, resolutions)); var d := Missing(entries, fullData);
      var fetched := RoundFetch(index, libs, resolutions, fullData);
      && Symbols(fetched) == d.keys
      && forall i :: 0 <= i < |d.keys| ==>
           && d.keys[i] in d.vals
           && GetData(index, d.vals[d.keys[i]].name, d.vals[d.keys[i]].version) == Some(fetched[i])
  {
    var entries := Entries(index, Pending(libs, resolutions));
    var d := Missing(entries, fullData);
    forall i | 0 <= i < |d.keys|
      ensures Carries(index, Values(d)[i], d.keys[i])
    {
      MissingIsFetched(index, libs, resolutions, fullData, d.keys[i]);
    }
    FetchCarries(index, Values(d), d.keys);
  }

  /** What the entry names is there and carries the symbol. */
  ghost predicate Carries(index: Index, e: ResolvedQuery, s: Symbol) {
    var r := GetData(index, e.name, e.version);
    r.Some? && FullSymbol(r.value) == s
  }

  lemma FetchCarries(index: Index, entries: seq<ResolvedQuery>, symbols: seq<Symbol>)
    requires |symbols| == |entries| && forall i :: 0 <= i < |entries| ==> Carries(index, entries[i], symbols[i])
    ensures Symbols(FetchAll(index, entries)) == symbols
    ensures forall i :: 0 <= i < |entries| ==>
      GetData(index, entries[i].name, entries[i].version) == Some(FetchAll(index, entries)[i])
  {
    forall e | e in entries
      ensures GetData(index, e.name, e.version).Some?
    {
      var i :| 0 <= i < |entries| && entries[i] == e;
      assert Carries(index, entries[i], symbols[i]);
    }
    FetchIsOneByOne(index, entries);
    assert forall i :: 0 <= i < |entries| ==> Carries(index, entries[i], symbols[i]);
  }

  lemma MissingIsFetched(index: Index, libs: seq<Library>, resolutions: Resolutions, fullData: map<string, Library>,
                         s: Symbol)
    requires WellFormed(index) && s in Missing(Entries(index, Pending(libs, resolutions)), fullData).vals
    ensures Carries(index, Missing(Entries(index, Pending(libs, resolutions)), fullData).vals[s], s)
  {
    var entries := Entries(index, Pending(libs, resolutions));
    var pairs := MissingPairs(entries, fullData);
    var i := ValueHasLastPair(pairs, s);
    assert pairs[i] in pairs;
    var q := EntryHasQuery(index, Pending(libs, resolutions), pairs[i].1);
    ResolvedIsPublished(index, q);
    PublishedIsFetched(index, q.name, pairs[i].1.version);
  }

  lemma LastAnswer(index: Index, entries: seq<ResolvedQuery>, fullData: map<string, Library>, s: Symbol, lib: Library)
    requires s in Missing(entries, fullData).vals && FullSymbol(lib) == s
    requires var e := Missing(entries, fullData).vals[s]; GetData(index, e.name, e.version) == Some(lib)
    ensures IsLastAnswer(index, entries, lib)
  {
    var pairs := MissingPairs(entries, fullData);
    MissingIsFilter(entries, fullData);
    var i := ValueHasLastPair(pairs, s);
    LastPair(pairs, entries, fullData, i);
  }
}
