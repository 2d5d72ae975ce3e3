/** The records exchanged by the CDN backend when it resolves a loading graph. */
module CdnModel {
  import opened VersionIndexing

  /** A full exported symbol, `name_APIvK`: one slot of the loading graph. */
  type Symbol = string

  datatype LibraryQuery = LibraryQuery(name: string, version: string)

  datatype Library = Library(
    name: string,
    version: Version,
    exportedSymbol: string,
    apiKey: string,
    bundle: string,
    dependencies: seq<LibraryQuery>)

  datatype ResolvedQuery = ResolvedQuery(name: string, query: string, version: Version, exportedSymbol: Symbol)

  function QueryKey(q: LibraryQuery): string {
    q.name + "#" + q.version
  }

  function FullSymbol(lib: Library): Symbol {
    lib.exportedSymbol + "_APIv" + lib.apiKey
  }
}

/**
  The layering of a loading graph: the libraries whose dependencies are all loaded are peeled off
  round after round, until none is left or a round peels nothing.
 */
module GraphLayers {
  import opened CdnModel
  import opened PyDict
  import opened Sequences
  import opened VersionIndexing

  type Resolutions = map<string, ResolvedQuery>

  // ---------- The computation ----------

  function Symbols(libs: seq<Library>): (r: seq<Symbol>)
    ensures |r| == |libs| && forall i :: 0 <= i < |libs| ==> r[i] == FullSymbol(libs[i])
  {
    seq(|libs|, i requires 0 <= i < |libs| => FullSymbol(libs[i]))
  }

  /** Every dependency query of `libs` has been resolved, so no lookup raises `KeyError`. */
  predicate Resolvable(libs: seq<Library>, resolutions: Resolutions) {
    forall lib <- libs, q <- lib.dependencies :: QueryKey(q) in resolutions
  }

  /** The symbols `lib` depends on, one for each of its dependency queries. */
  function DependencySymbols(lib: Library, resolutions: Resolutions): (r: seq<Symbol>)
    requires Resolvable([lib], resolutions)
    ensures |r| == |lib.dependencies|
    ensures forall i :: 0 <= i < |r| ==> r[i] == resolutions[QueryKey(lib.dependencies[i])].exportedSymbol
  {
    assert lib in [lib];
    seq(|lib.dependencies|, i requires 0 <= i < |lib.dependencies| =>
      resolutions[QueryKey(lib.dependencies[i])].exportedSymbol)
  }

  function DependencyPairs(libs: seq<Library>, resolutions: Resolutions): (r: seq<(Symbol, seq<Symbol>)>)
    requires Resolvable(libs, resolutions)
    ensures |r| == |libs|
    ensures forall i :: 0 <= i < |libs| ==>
      libs[i] in libs && r[i] == (FullSymbol(libs[i]), DependencySymbols(libs[i], resolutions))
  {
    seq(|libs|, i requires 0 <= i < |libs| =>
      assert libs[i] in libs; (FullSymbol(libs[i]), DependencySymbols(libs[i], resolutions)))
  }

  /** Symbol to dependency symbols; when libraries share a symbol, the last one decides. */
  function Dependencies(libs: seq<Library>, resolutions: Resolutions): (d: Dict<Symbol, seq<Symbol>>)
    requires Resolvable(libs, resolutions)
    ensures Valid(d)
    ensures forall s :: s in d.vals <==> s in Symbols(libs)
  {
    var pairs := DependencyPairs(libs, resolutions);
    var d := FromPairs(pairs);
    assert forall s :: s in d.vals <==> s in Symbols(libs) by {
      forall s
        ensures s in d.vals <==> s in Symbols(libs)
      {
        KeysOfPairs(pairs, s);
        if s in Symbols(libs) {
          var i :| 0 <= i < |libs| && Symbols(libs)[i] == s;
          assert pairs[i].0 == s;
        }
        if HasKey(pairs, s) {
          var i :| 0 <= i < |pairs| && pairs[i].0 == s;
          assert Symbols(libs)[i] == s;
        }
      }
    }
    d
  }

  /** All the dependencies are known and not waiting in this round. */
  predicate Ready(deps: seq<Symbol>, known: set<Symbol>, waiting: seq<Symbol>) {
    forall t <- deps :: t in known && t !in waiting
  }

  /** The keys of `keys`, in order, whose dependencies are ready. */
  function FulfilledAmong(
      keys: seq<Symbol>, deps: map<Symbol, seq<Symbol>>, known: set<Symbol>, waiting: seq<Symbol>): (r: seq<Symbol>)
    requires forall k <- keys :: k in deps
    ensures forall s :: s in r <==> s in keys && Ready(deps[s], known, waiting)
    ensures NoDuplicates(keys) ==> NoDuplicates(r)
  {
    if keys == [] then []
    else
      var n := |keys| - 1;
      var before := FulfilledAmong(keys[..n], deps, known, waiting);
      if Ready(deps[keys[n]], known, waiting) then before + [keys[n]] else before
  }

  function Fulfilled(remaining: seq<Library>, known: set<Symbol>, resolutions: Resolutions): (r: seq<Symbol>)
    requires Resolvable(remaining, resolutions)
    ensures NoDuplicates(r) && forall s <- r :: s in Symbols(remaining)
  {
    var d := Dependencies(remaining, resolutions);
    FulfilledAmong(d.keys, d.vals, known, Symbols(remaining))
  }

  /** The libraries whose symbol is not among `done`. */
  function Without(libs: seq<Library>, done: seq<Symbol>): (r: seq<Library>)
    ensures |r| <= |libs|
    ensures forall lib :: lib in r <==> lib in libs && FullSymbol(lib) !in done
  {
    if libs == [] then []
    else
      var n := |libs| - 1;
      var before := Without(libs[..n], done);
      if FullSymbol(libs[n]) in done then before else before + [libs[n]]
  }

  datatype Peeling = Peeled(layers: seq<seq<Symbol>>) | Stuck(remaining: seq<Library>)

  /** The rounds, on symbols. `known` is the set of symbols the response can name. */
  function Peel(remaining: seq<Library>, known: set<Symbol>, resolutions: Resolutions): (r: Peeling)
    requires Resolvable(remaining, resolutions)
    ensures r.Stuck? ==> Resolvable(r.remaining, resolutions)
    decreases |remaining|
  {
    var fulfilled := Fulfilled(remaining, known, resolutions);
    var next := Without(remaining, fulfilled);
    if next == [] then Peeled([fulfilled])
    else if |next| == |remaining| then Stuck(remaining)
    else
      match Peel(next, known, resolutions)
      case Peeled(layers) => Peeled([fulfilled] + layers)
      case Stuck(stuck) => Stuck(stuck)
  }

  datatype GraphResult<A> =
    | Graph(definition: seq<seq<A>>)
    | CircularDependencies(packages: map<(string, Version), seq<LibraryQuery>>)
    | KeyError

  function Assets<A>(layer: seq<Symbol>, items: map<Symbol, A>): (r: seq<A>)
    requires forall s <- layer :: s in items
    ensures |r| == |layer| && forall i :: 0 <= i < |layer| ==> r[i] == items[layer[i]]
  {
    seq(|layer|, i requires 0 <= i < |layer| => items[layer[i]])
  }

  function Definition<A>(layers: seq<seq<Symbol>>, items: map<Symbol, A>): (r: seq<seq<A>>)
    requires forall layer <- layers, s <- layer :: s in items
    ensures |r| == |layers| && forall i :: 0 <= i < |layers| ==> layers[i] in layers && r[i] == Assets(layers[i], items)
  {
    seq(|layers|, i requires 0 <= i < |layers| => assert layers[i] in layers; Assets(layers[i], items))
  }

  /** The last library of `libs` that has symbol `s`. */
  function LastWith(libs: seq<Library>, s: Symbol): (lib: Library)
    requires s in Symbols(libs)
    ensures lib in libs && FullSymbol(lib) == s
  {
    var n := |libs| - 1;
    if FullSymbol(libs[n]) == s then libs[n]
    else
      assert s in Symbols(libs[..n]) by {
        var i :| 0 <= i < |libs| && Symbols(libs)[i] == s;
        assert Symbols(libs[..n])[i] == s;
      }
      LastWith(libs[..n], s)
  }

  /** The queries of `lib` whose symbol is not available. */
  function MissingQueries(queries: seq<LibraryQuery>, known: set<Symbol>, waiting: seq<Symbol>,
                          resolutions: Resolutions): (r: seq<LibraryQuery>)
    requires forall q <- queries :: QueryKey(q) in resolutions
    ensures forall q :: q in r <==> q in queries && !Ready([resolutions[QueryKey(q)].exportedSymbol], known, waiting)
  {
    if queries == [] then []
    else
      var rest := MissingQueries(queries[1..], known, waiting, resolutions);
      if Ready([resolutions[QueryKey(queries[0])].exportedSymbol], known, waiting) then rest else [queries[0]] + rest
  }

  function ReportPair(lib: Library, stuck: seq<Library>, known: set<Symbol>, resolutions: Resolutions)
      : ((string, Version), seq<LibraryQuery>)
    requires Resolvable(stuck, resolutions) && lib in stuck
  {
    ((lib.name, lib.version), MissingQueries(lib.dependencies, known, Symbols(stuck), resolutions))
  }

  function ReportPairs(
      keys: seq<Symbol>, stuck: seq<Library>, known: set<Symbol>, resolutions: Resolutions)
      : (r: seq<((string, Version), seq<LibraryQuery>)>)
    requires Resolvable(stuck, resolutions) && forall s <- keys :: s in Symbols(stuck)
    ensures |r| == |keys|
    ensures forall i :: 0 <= i < |keys| ==>
      keys[i] in keys && r[i] == ReportPair(LastWith(stuck, keys[i]), stuck, known, resolutions)
  {
    seq(|keys|, i requires 0 <= i < |keys| =>
      assert keys[i] in keys; ReportPair(LastWith(stuck, keys[i]), stuck, known, resolutions))
  }

  /** The report of a stuck round: package to the dependencies it still misses. */
  function NotFounds(stuck: seq<Library>, known: set<Symbol>, resolutions: Resolutions)
      : map<(string, Version), seq<LibraryQuery>>
    requires Resolvable(stuck, resolutions)
  {
    var d := Dependencies(stuck, resolutions);
    assert forall s <- d.keys :: s in d.vals;
    FromPairs(ReportPairs(d.keys, stuck, known, resolutions)).vals
  }

  function LoadingGraph<A>(remaining: seq<Library>, items: map<Symbol, A>, resolutions: Resolutions): GraphResult<A> {
    if !Resolvable(remaining, resolutions) then KeyError
    else
      match Peel(remaining, items.Keys, resolutions)
      case Stuck(stuck) =>
        CircularDependencies(NotFounds(stuck, items.Keys, resolutions))
      case Peeled(layers) =>
        if forall layer <- layers, s <- layer :: s in items then Graph(Definition(layers, items)) else KeyError
  }

  // ---------- Layerings of a dependency graph ----------

  type DependencyGraph = map<Symbol, seq<Symbol>>

  ghost function GraphOf(libs: seq<Library>, resolutions: Resolutions): DependencyGraph
    requires Resolvable(libs, resolutions)
  {
    Dependencies(libs, resolutions).vals
  }

  ghost predicate In(layers: seq<seq<Symbol>>, i: int, s: Symbol) {
    0 <= i < |layers| && s in layers[i]
  }

  ghost predicate PlacedBelow(layers: seq<seq<Symbol>>, i: int, s: Symbol) {
    exists j :: j < i && In(layers, j, s)
  }

  /** What `s` depends on is known, and loaded before layer `i` if it is a symbol of the graph. */
  ghost predicate LoadsAfter(g: DependencyGraph, known: set<Symbol>, layers: seq<seq<Symbol>>, i: int, s: Symbol) {
    s in g && forall t <- g[s] :: t in known && (t in g ==> PlacedBelow(layers, i, t))
  }

  /** Every symbol of the graph, and no other, stands once, after all the symbols it depends on. */
  ghost predicate ValidLayering(g: DependencyGraph, known: set<Symbol>, layers: seq<seq<Symbol>>) {
    && (forall i :: 0 <= i < |layers| ==> NoDuplicates(layers[i]))
    && (forall i, j, s :: In(layers, i, s) && In(layers, j, s) ==> i == j)
    && (forall s {:trigger PlacedBelow(layers, |layers|, s)} :: s in g ==> PlacedBelow(layers, |layers|, s))
    && (forall i, s {:trigger LoadsAfter(g, known, layers, i, s)} :: In(layers, i, s) ==>
       LoadsAfter(g, known, layers, i, s))
  }

  ghost predicate HeldBack(g: DependencyGraph, layers: seq<seq<Symbol>>, i: int, s: Symbol) {
    s in g && exists t <- g[s] :: In(layers, i - 1, t)
  }

  /** Nothing waits without need: a symbol past the first layer depends on one of the layer before. */
  ghost predicate Tight(g: DependencyGraph, layers: seq<seq<Symbol>>) {
    forall i, s {:trigger HeldBack(g, layers, i, s)} :: 0 < i && In(layers, i, s) ==> HeldBack(g, layers, i, s)
  }

  /** A chain of symbols of the graph, each depending on the next one. */
  ghost predicate Path(g: DependencyGraph, p: seq<Symbol>) {
    && |p| > 0
    && (forall i :: 0 <= i < |p| ==> p[i] in g)
    && (forall i :: 0 < i < |p| ==> p[i] in g[p[i - 1]])
  }

  ghost predicate HasCycle(g: DependencyGraph) {
    exists p :: |p| >= 2 && Path(g, p) && p[0] == p[|p| - 1]
  }

  /** Some dependency is on a symbol the response cannot name. */
  ghost predicate Dangling(g: DependencyGraph, known: set<Symbol>) {
    exists s, t :: s in g && t in g[s] && t !in known
  }

  // ---------- One round ----------

  /** The symbols fulfilled by a round: all their dependencies are known and not waiting. */
  ghost predicate IsFirstLayer(g: DependencyGraph, known: set<Symbol>, first: seq<Symbol>) {
    && NoDuplicates(first)
    && forall s :: s in first <==> s in g && forall t <- g[s] :: t in known && t !in g
  }

  lemma FulfilledIsFirstLayer(remaining: seq<Library>, known: set<Symbol>, resolutions: Resolutions)
    requires Resolvable(remaining, resolutions)
    ensures IsFirstLayer(GraphOf(remaining, resolutions), known, Fulfilled(remaining, known, resolutions))
  {
    var d := Dependencies(remaining, resolutions);
    assert forall k :: k in d.keys <==> k in d.vals;
    assert forall s :: s in d.vals <==> s in Symbols(remaining);
  }

  /** Appending a library sets the dependencies of its symbol. */
  lemma GraphOfExtension(libs: seq<Library>, lib: Library, resolutions: Resolutions)
    requires Resolvable(libs, resolutions) && Resolvable([lib], resolutions)
    ensures Resolvable(libs + [lib], resolutions)
    ensures GraphOf(libs + [lib], resolutions) ==
            GraphOf(libs, resolutions)[FullSymbol(lib) := DependencySymbols(lib, resolutions)]
  {
    assert lib in [lib];
    var all := DependencyPairs(libs + [lib], resolutions);
    assert all[..|libs|] == DependencyPairs(libs, resolutions);
  }

  lemma ResolvableParts(init: seq<Library>, lib: Library, resolutions: Resolutions)
    requires Resolvable(init + [lib], resolutions)
    ensures Resolvable(init, resolutions) && Resolvable([lib], resolutions)
  {
    assert forall l <- init :: l in init + [lib];
    assert lib in init + [lib];
  }

  lemma ResolvableRest(libs: seq<Library>, done: seq<Symbol>, resolutions: Resolutions)
    requires Resolvable(libs, resolutions)
    ensures Resolvable(Without(libs, done), resolutions)
  {
  }

  lemma UpdateThenRemove<K, V>(m: map<K, V>, gone: set<K>, k: K, v: V)
    ensures k in gone ==> m[k := v] - gone == m - gone
    ensures k !in gone ==> m[k := v] - gone == (m - gone)[k := v]
  {
  }

  /** The round's survivors have the same dependencies as before: their last library survives too. */
  lemma {:induction false} GraphOfRest(libs: seq<Library>, done: seq<Symbol>, resolutions: Resolutions)
    requires Resolvable(libs, resolutions)
    ensures Resolvable(Without(libs, done), resolutions)
    ensures GraphOf(Without(libs, done), resolutions) == GraphOf(libs, resolutions) - (set s <- done)
  {
    ResolvableRest(libs, done, resolutions);
    if libs != [] {
      var n := |libs| - 1;
      var init, lib := libs[..n], libs[n];
      assert libs == init + [lib];
      ResolvableParts(init, lib, resolutions);
      GraphOfRest(init, done, resolutions);
      GraphOfExtension(init, lib, resolutions);
      GraphOfExtension(Without(init, done), lib, resolutions);
      UpdateThenRemove(GraphOf(init, resolutions), (set s <- done), FullSymbol(lib),
        DependencySymbols(lib, resolutions));
    }
  }

  lemma {:induction false} WithoutRemoves(libs: seq<Library>, done: seq<Symbol>, i: nat)
    requires i < |libs| && FullSymbol(libs[i]) in done
    ensures |Without(libs, done)| < |libs|
  {
    var n := |libs| - 1;
    if i < n {
      WithoutRemoves(libs[..n], done, i);
    }
  }

  /** A round that removes no library fulfils no symbol. */
  lemma NothingFulfilled(libs: seq<Library>, done: seq<Symbol>)
    requires forall s <- done :: s in Symbols(libs)
    requires |Without(libs, done)| == |libs|
    ensures done == []
  {
    if done != [] {
      var s := done[0];
      assert s in Symbols(libs);
      var i :| 0 <= i < |libs| && Symbols(libs)[i] == s;
      WithoutRemoves(libs, done, i);
    }
  }

  // ---------- Success ----------

  lemma InPrepended(first: seq<Symbol>, rest: seq<seq<Symbol>>)
    ensures forall i, s :: In([first] + rest, i, s) <==> (i == 0 && s in first) || In(rest, i - 1, s)
  {
  }

  lemma PlacedInPrepended(first: seq<Symbol>, rest: seq<seq<Symbol>>, i: int, s: Symbol)
    requires (i > 0 && s in first) || PlacedBelow(rest, i - 1, s)
    ensures PlacedBelow([first] + rest, i, s)
  {
    InPrepended(first, rest);
    if PlacedBelow(rest, i - 1, s) {
      var j :| j < i - 1 && In(rest, j, s);
      assert In([first] + rest, j + 1, s);
    } else {
      assert In([first] + rest, 0, s);
    }
  }

  lemma LoadsAfterPrepended(g: DependencyGraph, known: set<Symbol>, first: seq<Symbol>, rest: seq<seq<Symbol>>, i: int,
                            s: Symbol)
    requires IsFirstLayer(g, known, first) && In([first] + rest, i, s)
    requires var g' := g - (set s <- first); ValidLayering(g', known, rest)
    ensures LoadsAfter(g, known, [first] + rest, i, s)
  {
    var g' := g - (set s <- first);
    InPrepended(first, rest);
    if i > 0 {
      assert LoadsAfter(g', known, rest, i - 1, s) && g'[s] == g[s];
      forall t | t in g[s] && t in g
        ensures PlacedBelow([first] + rest, i, t)
      {
        assert t in first || PlacedBelow(rest, i - 1, t);
        PlacedInPrepended(first, rest, i, t);
      }
    }
  }

  /** Prepending the symbols fulfilled now to a layering of the rest gives a layering of all. */
  lemma PrependLayer(g: DependencyGraph, known: set<Symbol>, first: seq<Symbol>, rest: seq<seq<Symbol>>)
    requires IsFirstLayer(g, known, first)
    requires var g' := g - (set s <- first); ValidLayering(g', known, rest)
    ensures ValidLayering(g, known, [first] + rest)
  {
    var layers := [first] + rest;
    var g' := g - (set s <- first);
    forall s | s in g
      ensures PlacedBelow(layers, |layers|, s)
    {
      assert s in first || PlacedBelow(rest, |rest|, s);
      PlacedInPrepended(first, rest, |layers|, s);
    }
    forall i, s | In(layers, i, s)
      ensures LoadsAfter(g, known, layers, i, s)
    {
      LoadsAfterPrepended(g, known, first, rest, i, s);
    }
    forall i, j, s | In(layers, i, s) && In(layers, j, s)
      ensures i == j
    {
      InPrepended(first, rest);
      assert In(rest, i - 1, s) ==> LoadsAfter(g', known, rest, i - 1, s);
      assert In(rest, j - 1, s) ==> LoadsAfter(g', known, rest, j - 1, s);
    }
  }

  lemma HeldBackPrepended(g: DependencyGraph, known: set<Symbol>, first: seq<Symbol>, rest: seq<seq<Symbol>>, i: int,
                          s: Symbol)
    requires IsFirstLayer(g, known, first) && 0 < i && In([first] + rest, i, s)
    requires var g' := g - (set s <- first); ValidLayering(g', known, rest) && Tight(g', rest)
    ensures HeldBack(g, [first] + rest, i, s)
  {
    var g' := g - (set s <- first);
    InPrepended(first, rest);
    assert LoadsAfter(g', known, rest, i - 1, s) && g'[s] == g[s] && s !in first;
    if i == 1 {
      var t :| t in g[s] && !(t in known && t !in g);
      assert !PlacedBelow(rest, 0, t);
      assert In([first] + rest, 0, t);
    } else {
      assert HeldBack(g', rest, i - 1, s);
      var t :| t in g'[s] && In(rest, i - 2, t);
      assert In([first] + rest, i - 1, t);
    }
  }

  lemma PrependTight(g: DependencyGraph, known: set<Symbol>, first: seq<Symbol>, rest: seq<seq<Symbol>>)
    requires IsFirstLayer(g, known, first)
    requires var g' := g - (set s <- first); ValidLayering(g', known, rest) && Tight(g', rest)
    ensures Tight(g, [first] + rest)
  {
    forall i, s | 0 < i && In([first] + rest, i, s)
      ensures HeldBack(g, [first] + rest, i, s)
    {
      HeldBackPrepended(g, known, first, rest, i, s);
    }
  }

  /** Successful peeling yields a valid layering in which nothing waits without need. */
  lemma {:induction false} PeeledIsValid(remaining: seq<Library>, known: set<Symbol>, resolutions: Resolutions,
                                         layers: seq<seq<Symbol>>)
    requires Resolvable(remaining, resolutions) && Peel(remaining, known, resolutions) == Peeled(layers)
    ensures ValidLayering(GraphOf(remaining, resolutions), known, layers) &&
            Tight(GraphOf(remaining, resolutions), layers)
    decreases |remaining|
  {
    var g := GraphOf(remaining, resolutions);
    var first := Fulfilled(remaining, known, resolutions);
    var next := Without(remaining, first);
    FulfilledIsFirstLayer(remaining, known, resolutions);
    GraphOfRest(remaining, first, resolutions);
    var rest := layers[1..];
    assert layers == [first] + rest;
    if next == [] {
      NoRest(g - (set s <- first), known);
    } else {
      PeeledIsValid(next, known, resolutions, rest);
    }
    PrependLayer(g, known, first, rest);
    PrependTight(g, known, first, rest);
  }

  lemma NoRest(g: DependencyGraph, known: set<Symbol>)
    requires g == map[]
    ensures ValidLayering(g, known, []) && Tight(g, [])
  {
  }

  /** In every valid layering each symbol sits at least as deep as in a tight one. */
  lemma {:induction false} TightIsEarliest(g: DependencyGraph, known: set<Symbol>, layers: seq<seq<Symbol>>,
                                           other: seq<seq<Symbol>>, i: nat, j: nat, s: Symbol)
    requires ValidLayering(g, known, layers) && Tight(g, layers) && ValidLayering(g, known, other)
    requires In(layers, i, s) && In(other, j, s)
    ensures i <= j
    decreases i
  {
    if i > 0 {
      assert HeldBack(g, layers, i, s);
      var t :| t in g[s] && In(layers, i - 1, t);
      assert LoadsAfter(g, known, layers, i - 1, t) && LoadsAfter(g, known, other, j, s);
      assert PlacedBelow(other, j, t);
      var j' :| j' < j && In(other, j', t);
      TightIsEarliest(g, known, layers, other, i - 1, j', t);
    }
  }

  /** A chain climbs at least one layer per link. */
  lemma {:induction false} ChainDescends(g: DependencyGraph, known: set<Symbol>, layers: seq<seq<Symbol>>,
                                         p: seq<Symbol>, i: nat)
    returns (j: nat)
    requires ValidLayering(g, known, layers) && Path(g, p) && In(layers, i, p[0])
    ensures In(layers, j, p[|p| - 1]) && j + |p| - 1 <= i
  {
    if |p| == 1 {
      j := i;
    } else {
      assert LoadsAfter(g, known, layers, i, p[0]);
      assert p[1] in g[p[0]] && PlacedBelow(layers, i, p[1]);
      var k :| k < i && In(layers, k, p[1]);
      assert Path(g, p[1..]);
      j := ChainDescends(g, known, layers, p[1..], k);
    }
  }

  /** From a symbol of layer `i` a chain of `i + 1` symbols leads down to the first layer. */
  lemma {:induction false} ChainFrom(g: DependencyGraph, known: set<Symbol>, layers: seq<seq<Symbol>>, i: nat,
                                     s: Symbol)
    returns (p: seq<Symbol>)
    requires ValidLayering(g, known, layers) && Tight(g, layers) && In(layers, i, s)
    ensures Path(g, p) && |p| == i + 1 && p[0] == s
    decreases i
  {
    assert LoadsAfter(g, known, layers, i, s);
    if i == 0 {
      p := [s];
    } else {
      assert HeldBack(g, layers, i, s);
      var t :| t in g[s] && In(layers, i - 1, t);
      var rest := ChainFrom(g, known, layers, i - 1, t);
      p := [s] + rest;
      assert forall k :: 0 < k < |p| ==> p[k] == rest[k - 1];
    }
  }

  lemma Place(g: DependencyGraph, known: set<Symbol>, layers: seq<seq<Symbol>>, s: Symbol) returns (i: nat)
    requires ValidLayering(g, known, layers) && s in g
    ensures In(layers, i, s) && LoadsAfter(g, known, layers, i, s)
  {
    assert PlacedBelow(layers, |layers|, s);
    i :| In(layers, i, s);
  }

  lemma LayeredIsAcyclic(g: DependencyGraph, known: set<Symbol>, layers: seq<seq<Symbol>>)
    requires ValidLayering(g, known, layers)
    ensures !HasCycle(g) && !Dangling(g, known)
  {
    forall s, t | s in g && t in g[s]
      ensures t in known
    {
      var i := Place(g, known, layers, s);
    }
    forall p | |p| >= 2 && Path(g, p)
      ensures p[0] != p[|p| - 1]
    {
      var i := Place(g, known, layers, p[0]);
      var j := ChainDescends(g, known, layers, p, i);
    }
  }

  // ---------- Failure ----------

  /** The symbol waits for one that is waiting itself or unknown. */
  ghost predicate Waits(g: DependencyGraph, known: set<Symbol>, s: Symbol) {
    s in g && exists t <- g[s] :: t in g || t !in known
  }

  ghost predicate Blocked(g: DependencyGraph, known: set<Symbol>) {
    forall s {:trigger Waits(g, known, s)} :: s in g ==> Waits(g, known, s)
  }

  ghost predicate HasSuccessor(g: DependencyGraph, s: Symbol) {
    s in g && exists t <- g[s] :: t in g
  }

  ghost predicate Endless(g: DependencyGraph) {
    forall s {:trigger HasSuccessor(g, s)} :: s in g ==> HasSuccessor(g, s)
  }

  /** A stuck peeling stops on a non-empty blocked part of the graph. */
  lemma {:induction false} StuckIsBlocked(remaining: seq<Library>, known: set<Symbol>, resolutions: Resolutions,
                                          stuck: seq<Library>)
    requires Resolvable(remaining, resolutions) && Peel(remaining, known, resolutions) == Stuck(stuck)
    ensures var h := GraphOf(stuck, resolutions); var g := GraphOf(remaining, resolutions);
      && h != map[] && (forall s <- h :: s in g && h[s] == g[s]) && Blocked(h, known)
    decreases |remaining|
  {
    var g := GraphOf(remaining, resolutions);
    var first := Fulfilled(remaining, known, resolutions);
    var next := Without(remaining, first);
    FulfilledIsFirstLayer(remaining, known, resolutions);
    if |next| == |remaining| {
      NothingFulfilled(remaining, first);
      forall s | s in g
        ensures Waits(g, known, s)
      {
        assert s !in first;
      }
    } else {
      GraphOfRest(remaining, first, resolutions);
      StuckIsBlocked(next, known, resolutions, stuck);
    }
  }

  /** A walk of `n` links that never leaves a graph in which every symbol has a successor. */
  lemma {:induction false} Walk(g: DependencyGraph, s: Symbol, n: nat) returns (p: seq<Symbol>)
    requires s in g && Endless(g)
    ensures Path(g, p) && |p| == n + 1 && p[0] == s
    decreases n
  {
    if n == 0 {
      p := [s];
    } else {
      assert HasSuccessor(g, s);
      var t :| t in g[s] && t in g;
      var rest := Walk(g, t, n - 1);
      p := [s] + rest;
      assert forall k :: 0 < k < |p| ==> p[k] == rest[k - 1];
    }
  }

  lemma {:induction false} Pigeonhole<T>(p: seq<T>, s: set<T>)
    requires |p| > |s| && forall x <- p :: x in s
    ensures exists i, j :: 0 <= i < j < |p| && p[i] == p[j]
  {
    var last := p[|p| - 1];
    var init := p[..|p| - 1];
    if last in init {
      var i :| 0 <= i < |init| && init[i] == last;
      assert p[i] == p[|p| - 1];
    } else {
      assert forall x <- init :: x in p && x in s - {last};
      assert last in p;
      Pigeonhole(init, s - {last});
      var i, j :| 0 <= i < j < |init| && init[i] == init[j];
      assert p[i] == p[j];
    }
  }

  lemma RepeatIsCycle(g: DependencyGraph, p: seq<Symbol>, i: nat, j: nat)
    requires Path(g, p) && i < j < |p| && p[i] == p[j]
    ensures HasCycle(g)
  {
    var cycle := p[i..j + 1];
    forall k | 0 < k < |cycle|
      ensures cycle[k] in g[cycle[k - 1]]
    {
      assert cycle[k] == p[i + k] && cycle[k - 1] == p[i + k - 1];
    }
    assert Path(g, cycle);
  }

  /** A finite graph in which every symbol has a successor contains a cycle. */
  lemma EndlessGraphHasCycle(g: DependencyGraph, s: Symbol)
    requires s in g && Endless(g)
    ensures HasCycle(g)
  {
    var p := Walk(g, s, |g.Keys|);
    assert forall x <- p :: x in g.Keys;
    Pigeonhole(p, g.Keys);
    var i, j :| 0 <= i < j < |p| && p[i] == p[j];
    RepeatIsCycle(g, p, i, j);
  }

  lemma CycleOfPart(g: DependencyGraph, h: DependencyGraph)
    requires HasCycle(h) && forall s <- h :: s in g && h[s] == g[s]
    ensures HasCycle(g)
  {
    var p :| |p| >= 2 && Path(h, p) && p[0] == p[|p| - 1];
    assert Path(g, p);
  }

  lemma BlockedHasCause(g: DependencyGraph, h: DependencyGraph, known: set<Symbol>)
    requires h != map[] && (forall s <- h :: s in g && h[s] == g[s]) && Blocked(h, known)
    ensures HasCycle(g) || Dangling(g, known)
  {
    if !Dangling(g, known) {
      var s :| s in h;
      forall a | a in h
        ensures HasSuccessor(h, a)
      {
        assert Waits(h, known, a);
      }
      EndlessGraphHasCycle(h, s);
      CycleOfPart(g, h);
    }
  }

  // ---------- Order within a layer ----------

  ghost function NotIn(done: seq<Symbol>): Symbol -> bool {
    (s: Symbol) => s !in done
  }

  lemma {:induction false} RestIsFilter(libs: seq<Library>, done: seq<Symbol>)
    ensures IsFilter(Symbols(Without(libs, done)), Symbols(libs), NotIn(done))
  {
    if libs == [] {
      assert Symbols(libs) == [] && Symbols(Without(libs, done)) == [];
      EmptyFilter(NotIn(done));
    } else {
      var n := |libs| - 1;
      var x := FullSymbol(libs[n]);
      RestIsFilter(libs[..n], done);
      SymbolsAppended(libs[..n], libs[n]);
      SymbolsAppended(Without(libs[..n], done), libs[n]);
      assert libs == libs[..n] + [libs[n]];
      FilterExtended(Symbols(Without(libs[..n], done)), Symbols(libs[..n]), x, NotIn(done),
                     Symbols(Without(libs, done)), Symbols(libs));
    }
  }

  lemma SymbolsAppended(libs: seq<Library>, lib: Library)
    ensures Symbols(libs + [lib]) == Symbols(libs) + [FullSymbol(lib)]
  {
  }

  ghost function ReadyIn(deps: map<Symbol, seq<Symbol>>, known: set<Symbol>, waiting: seq<Symbol>): Symbol -> bool {
    (s: Symbol) => s in deps && Ready(deps[s], known, waiting)
  }

  lemma {:induction false} FulfilledIsFilter(keys: seq<Symbol>, deps: map<Symbol, seq<Symbol>>, known: set<Symbol>,
                                             waiting: seq<Symbol>)
    requires forall k <- keys :: k in deps
    ensures IsFilter(FulfilledAmong(keys, deps, known, waiting), keys, ReadyIn(deps, known, waiting))
  {
    var keep := ReadyIn(deps, known, waiting);
    if keys == [] {
      EmptyFilter(keep);
    } else {
      var init, last := keys[..|keys| - 1], keys[|keys| - 1];
      assert keys == init + [last];
      FulfilledAppended(init, last, deps, known, waiting);
      FulfilledIsFilter(init, deps, known, waiting);
      FilterExtended(FulfilledAmong(init, deps, known, waiting), init, last, keep,
                     FulfilledAmong(keys, deps, known, waiting), keys);
    }
  }

  lemma FulfilledAppended(keys: seq<Symbol>, key: Symbol, deps: map<Symbol, seq<Symbol>>, known: set<Symbol>,
                          waiting: seq<Symbol>)
    requires key in deps && forall k <- keys :: k in deps
    ensures var before := FulfilledAmong(keys, deps, known, waiting);
      FulfilledAmong(keys + [key], deps, known, waiting) ==
        if ReadyIn(deps, known, waiting)(key) then before + [key] else before
  {
    assert (keys + [key])[..|keys|] == keys;
  }

  lemma FulfilledInOrder(remaining: seq<Library>, known: set<Symbol>, resolutions: Resolutions)
    requires Resolvable(remaining, resolutions)
    ensures InFirstOrder(Fulfilled(remaining, known, resolutions), Symbols(remaining))
  {
    var d, pairs := Dependencies(remaining, resolutions), DependencyPairs(remaining, resolutions);
    KeysInOrder(pairs);
    assert KeyList(pairs) == Symbols(remaining);
    FulfilledIsFilter(d.keys, d.vals, known, Symbols(remaining));
    FilterKeepsFirstOrder(Fulfilled(remaining, known, resolutions), d.keys, Symbols(remaining),
                          ReadyIn(d.vals, known, Symbols(remaining)));
  }

  /** The symbols of each layer stand in the order in which the libraries list them. */
  lemma {:induction false} PeeledInOrder(remaining: seq<Library>, known: set<Symbol>, resolutions: Resolutions,
                                         layers: seq<seq<Symbol>>)
    requires Resolvable(remaining, resolutions) && Peel(remaining, known, resolutions) == Peeled(layers)
    ensures InOrder(layers, Symbols(remaining))
    decreases |remaining|
  {
    var first, next := FirstRound(remaining, known, resolutions, layers);
    FulfilledInOrder(remaining, known, resolutions);
    if next != [] {
      PeeledInOrder(next, known, resolutions, layers[1..]);
      RestInOrder(remaining, first, known, resolutions, layers[1..]);
      PrependInOrder(first, layers[1..], Symbols(remaining), layers);
    }
  }

  lemma PrependInOrder(first: seq<Symbol>, rest: seq<seq<Symbol>>, listed: seq<Symbol>, layers: seq<seq<Symbol>>)
    requires InFirstOrder(first, listed) && InOrder(rest, listed) && layers == [first] + rest
    ensures InOrder(layers, listed)
  {
  }

  lemma RestInOrder(remaining: seq<Library>, first: seq<Symbol>, known: set<Symbol>, resolutions: Resolutions,
                    rest: seq<seq<Symbol>>)
    requires var next := Without(remaining, first);
      Resolvable(next, resolutions) && Peel(next, known, resolutions) == Peeled(rest) && InOrder(rest, Symbols(next))
    ensures InOrder(rest, Symbols(remaining))
  {
    var next := Without(remaining, first);
    PeeledIsValid(next, known, resolutions, rest);
    LayersCover(GraphOf(next, resolutions), known, rest);
    RestIsFilter(remaining, first);
    forall i | 0 <= i < |rest|
      ensures InFirstOrder(rest[i], Symbols(remaining))
    {
      assert rest[i] in rest;
      FirstOrderOfWhole(rest[i], Symbols(next), Symbols(remaining), NotIn(first));
    }
  }

  // ---------- Main results ----------

  /** The rounds get stuck exactly when the graph has a cycle or names an unknown symbol. */
  lemma PeelOutcome(remaining: seq<Library>, known: set<Symbol>, resolutions: Resolutions, r: Peeling)
    requires Resolvable(remaining, resolutions) && r == Peel(remaining, known, resolutions)
    ensures r.Stuck? <==> HasCycle(GraphOf(remaining, resolutions)) || Dangling(GraphOf(remaining, resolutions), known)
    ensures r.Peeled? ==>
      ValidLayering(GraphOf(remaining, resolutions), known, r.layers) &&
        Tight(GraphOf(remaining, resolutions), r.layers)
  {
    var g := GraphOf(remaining, resolutions);
    match r
    case Peeled(layers) =>
      PeeledIsValid(remaining, known, resolutions, layers);
      LayeredIsAcyclic(g, known, layers);
    case Stuck(stuck) =>
      StuckIsBlocked(remaining, known, resolutions, stuck);
      BlockedHasCause(g, GraphOf(stuck, resolutions), known);
  }

  /** In each layer the symbols stand in the order in which they are first listed. */
  ghost predicate InOrder(layers: seq<seq<Symbol>>, listed: seq<Symbol>) {
    forall i :: 0 <= i < |layers| ==> InFirstOrder(layers[i], listed)
  }

  ghost predicate ListsLayer<A>(items: map<Symbol, A>, layer: seq<Symbol>, assets: seq<A>) {
    |assets| == |layer| && forall k :: 0 <= k < |layer| ==> layer[k] in items && assets[k] == items[layer[k]]
  }

  /** `definition` lists, layer by layer, the assets of a valid layering. */
  ghost predicate Realises<A>(g: DependencyGraph, listed: seq<Symbol>, items: map<Symbol, A>,
                              layers: seq<seq<Symbol>>, definition: seq<seq<A>>) {
    && ValidLayering(g, items.Keys, layers) && Tight(g, layers) && InOrder(layers, listed)
    && |definition| == |layers|
    && forall i :: 0 <= i < |layers| ==> ListsLayer(items, layers[i], definition[i])
  }

  /**
    The three outcomes of the loading graph, on every input: a valid layering; `CircularDependencies`,
    exactly for a cycle or a dependency on an unknown symbol; `KeyError`, exactly for a query
    without resolution or, failing the above, a symbol without asset.
   */
  lemma LoadingGraphOutcome<A>(remaining: seq<Library>, items: map<Symbol, A>, resolutions: Resolutions,
                               r: GraphResult<A>)
    requires r == LoadingGraph(remaining, items, resolutions)
    ensures !Resolvable(remaining, resolutions) ==> r == KeyError
    ensures Resolvable(remaining, resolutions) ==>
      var g := GraphOf(remaining, resolutions);
      && (r.CircularDependencies? <==> HasCycle(g) || Dangling(g, items.Keys))
      && (r.KeyError? <==> !HasCycle(g) && !Dangling(g, items.Keys) && !(g.Keys <= items.Keys))
      && (r.Graph? ==> exists layers :: Realises(g, Symbols(remaining), items, layers, r.definition))
  {
    if Resolvable(remaining, resolutions) {
      PeelOutcome(remaining, items.Keys, resolutions, Peel(remaining, items.Keys, resolutions));
      match Peel(remaining, items.Keys, resolutions)
      case Stuck(_) =>
      case Peeled(layers) =>
        PeeledInOrder(remaining, items.Keys, resolutions, layers);
        PeeledOutcome(GraphOf(remaining, resolutions), Symbols(remaining), items, layers);
    }
  }

  lemma PeeledOutcome<A>(g: DependencyGraph, listed: seq<Symbol>, items: map<Symbol, A>, layers: seq<seq<Symbol>>)
    requires ValidLayering(g, items.Keys, layers) && Tight(g, layers) && InOrder(layers, listed)
    ensures (forall layer <- layers, s <- layer :: s in items) <==> g.Keys <= items.Keys
    ensures g.Keys <= items.Keys ==> Realises(g, listed, items, layers, Definition(layers, items))
  {
    LayersCover(g, items.Keys, layers);
  }

  lemma LayersCover(g: DependencyGraph, known: set<Symbol>, layers: seq<seq<Symbol>>)
    requires ValidLayering(g, known, layers)
    ensures forall layer <- layers, s <- layer :: s in g
    ensures forall s <- g :: exists layer <- layers :: s in layer
  {
    forall s | s in g
      ensures exists layer <- layers :: s in layer
    {
      var i := Place(g, known, layers, s);
      assert layers[i] in layers;
    }
    forall layer, s | layer in layers && s in layer
      ensures s in g
    {
      var i :| 0 <= i < |layers| && layers[i] == layer;
      assert In(layers, i, s) && LoadsAfter(g, known, layers, i, s);
    }
  }

  /** No valid layering places a symbol earlier. */
  lemma LayeringIsMinimal(remaining: seq<Library>, known: set<Symbol>, resolutions: Resolutions,
                          layers: seq<seq<Symbol>>, other: seq<seq<Symbol>>, i: nat, j: nat, s: Symbol)
    requires Resolvable(remaining, resolutions)
    requires Peel(remaining, known, resolutions) == Peeled(layers)
    requires ValidLayering(GraphOf(remaining, resolutions), known, other)
    requires In(layers, i, s) && In(other, j, s)
    ensures i <= j
  {
    PeeledIsValid(remaining, known, resolutions, layers);
    TightIsEarliest(GraphOf(remaining, resolutions), known, layers, other, i, j, s);
  }

  lemma {:induction false} WithoutNothing(libs: seq<Library>)
    ensures Without(libs, []) == libs
  {
    if libs != [] {
      WithoutNothing(libs[..|libs| - 1]);
    }
  }

  lemma RemovingNeedsSymbols(libs: seq<Library>, done: seq<Symbol>)
    requires |Without(libs, done)| != |libs|
    ensures done != []
  {
    WithoutNothing(libs);
  }

  /** One round of a peeling that gets through: the layers are its own and those of the rest. */
  lemma FirstRound(remaining: seq<Library>, known: set<Symbol>, resolutions: Resolutions, layers: seq<seq<Symbol>>)
    returns (first: seq<Symbol>, next: seq<Library>)
    requires Resolvable(remaining, resolutions) && Peel(remaining, known, resolutions) == Peeled(layers)
    ensures first == Fulfilled(remaining, known, resolutions)
    ensures next == Without(remaining, first) && Resolvable(next, resolutions)
    ensures next == [] ==> layers == [first]
    ensures next != [] ==>
      |next| < |remaining| && layers == [first] + layers[1..] && Peel(next, known, resolutions) == Peeled(layers[1..])
  {
    first := Fulfilled(remaining, known, resolutions);
    next := Without(remaining, first);
    ResolvableRest(remaining, first, resolutions);
  }


  ghost predicate NoneEmpty(layers: seq<seq<Symbol>>) {
    forall i :: 0 <= i < |layers| ==> layers[i] != []
  }

  lemma NoneEmptyPrepended(layers: seq<seq<Symbol>>)
    requires layers != [] && layers[0] != [] && NoneEmpty(layers[1..])
    ensures NoneEmpty(layers)
  {
    forall i | 0 < i < |layers|
      ensures layers[i] != []
    {
      assert layers[i] == layers[1..][i - 1];
    }
  }

  lemma {:induction false} NoEmptyLayer(remaining: seq<Library>, known: set<Symbol>, resolutions: Resolutions,
                                        layers: seq<seq<Symbol>>)
    requires Resolvable(remaining, resolutions) && remaining != []
    requires Peel(remaining, known, resolutions) == Peeled(layers)
    ensures layers != [] && NoneEmpty(layers)
    decreases |remaining|
  {
    var first, next := FirstRound(remaining, known, resolutions, layers);
    RemovingNeedsSymbols(remaining, first);
    assert layers[0] == first;
    if next != [] {
      NoEmptyLayer(next, known, resolutions, layers[1..]);
      NoneEmptyPrepended(layers);
    }
  }

  /**
    For a non-empty input there are as many layers as symbols on a longest dependency chain.
    (The empty input gives one empty layer.)
   */
  lemma LayerCountIsLongestChain(remaining: seq<Library>, known: set<Symbol>, resolutions: Resolutions,
                                 layers: seq<seq<Symbol>>)
    requires Resolvable(remaining, resolutions) && remaining != []
    requires Peel(remaining, known, resolutions) == Peeled(layers)
    ensures exists p :: Path(GraphOf(remaining, resolutions), p) && |p| == |layers|
    ensures forall p :: Path(GraphOf(remaining, resolutions), p) ==> |p| <= |layers|
  {
    var g := GraphOf(remaining, resolutions);
    PeeledIsValid(remaining, known, resolutions, layers);
    NoEmptyLayer(remaining, known, resolutions, layers);
    var last := |layers| - 1;
    assert In(layers, last, layers[last][0]);
    var longest := ChainFrom(g, known, layers, last, layers[last][0]);
    forall p | Path(g, p)
      ensures |p| <= |layers|
    {
      var i := Place(g, known, layers, p[0]);
      var j := ChainDescends(g, known, layers, p, i);
    }
  }

  /**
    The report of a stuck round names, for each package, at least one dependency, and each named
    dependency is on an unknown symbol or on one that is stuck itself.
   */
  lemma ReportNamesTheBlockers(remaining: seq<Library>, known: set<Symbol>, resolutions: Resolutions,
                               stuck: seq<Library>, package: (string, Version))
    requires Resolvable(remaining, resolutions) && Peel(remaining, known, resolutions) == Stuck(stuck)
    requires package in NotFounds(stuck, known, resolutions)
    ensures NamesBlockers(NotFounds(stuck, known, resolutions)[package], stuck, known, resolutions)
  {
    StuckIsBlocked(remaining, known, resolutions, stuck);
    ReportOfBlocked(stuck, known, resolutions, package);
  }

  // ---------- The symbols that never load ----------

  function SymbolSet(libs: seq<Library>): set<Symbol> {
    set lib <- libs :: FullSymbol(lib)
  }

  lemma SymbolSetIsKeys(libs: seq<Library>, resolutions: Resolutions)
    requires Resolvable(libs, resolutions)
    ensures SymbolSet(libs) == GraphOf(libs, resolutions).Keys
    ensures forall s :: s in SymbolSet(libs) <==> s in Symbols(libs)
  {
    forall s
      ensures s in SymbolSet(libs) <==> s in Symbols(libs)
    {
      if lib :| lib in libs && FullSymbol(lib) == s {
        var i :| 0 <= i < |libs| && libs[i] == lib;
        assert Symbols(libs)[i] == s;
      }
      if s in Symbols(libs) {
        var i :| 0 <= i < |libs| && Symbols(libs)[i] == s;
        assert libs[i] in libs;
      }
    }
  }

  /** Each symbol of the set waits for an unknown one or for one of the set. */
  ghost predicate WaitTogether(g: DependencyGraph, known: set<Symbol>, stuck: set<Symbol>) {
    stuck <= g.Keys && forall s <- stuck :: exists t <- g[s] :: t in stuck || t !in known
  }

  /** The symbols that no order can load: the largest set of symbols that wait together. */
  ghost predicate NeverLoad(g: DependencyGraph, known: set<Symbol>, stuck: set<Symbol>) {
    WaitTogether(g, known, stuck) && forall other :: WaitTogether(g, known, other) ==> other <= stuck
  }

  /** A round fulfils none of the symbols that wait together. */
  lemma WaitingStays(remaining: seq<Library>, known: set<Symbol>, resolutions: Resolutions, other: set<Symbol>,
                     next: seq<Library>)
    requires Resolvable(remaining, resolutions) && WaitTogether(GraphOf(remaining, resolutions), known, other)
    requires next == Without(remaining, Fulfilled(remaining, known, resolutions))
    ensures Resolvable(next, resolutions) && WaitTogether(GraphOf(next, resolutions), known, other)
  {
    var g, first := GraphOf(remaining, resolutions), Fulfilled(remaining, known, resolutions);
    FulfilledIsFirstLayer(remaining, known, resolutions);
    GraphOfRest(remaining, first, resolutions);
    forall s | s in other
      ensures s !in first
    {
      var t :| t in g[s] && (t in other || t !in known);
      assert t in known && t !in g ==> t !in other;
    }
  }

  lemma {:induction false} WaitingIsStuck(remaining: seq<Library>, known: set<Symbol>, resolutions: Resolutions,
                                          stuck: seq<Library>, other: set<Symbol>)
    requires Resolvable(remaining, resolutions) && Peel(remaining, known, resolutions) == Stuck(stuck)
    requires WaitTogether(GraphOf(remaining, resolutions), known, other)
    ensures other <= SymbolSet(stuck)
    decreases |remaining|
  {
    var next := Without(remaining, Fulfilled(remaining, known, resolutions));
    WaitingStays(remaining, known, resolutions, other, next);
    SymbolSetIsKeys(remaining, resolutions);
    if |next| != |remaining| {
      WaitingIsStuck(next, known, resolutions, stuck, other);
    }
  }

  /** The symbols a peeling stops on are those that never load. */
  lemma StuckNeverLoads(remaining: seq<Library>, known: set<Symbol>, resolutions: Resolutions, stuck: seq<Library>)
    requires Resolvable(remaining, resolutions) && Peel(remaining, known, resolutions) == Stuck(stuck)
    ensures NeverLoad(GraphOf(remaining, resolutions), known, SymbolSet(stuck))
  {
    var g, h := GraphOf(remaining, resolutions), GraphOf(stuck, resolutions);
    StuckIsBlocked(remaining, known, resolutions, stuck);
    SymbolSetIsKeys(stuck, resolutions);
    forall s | s in SymbolSet(stuck)
      ensures s in g && exists t <- g[s] :: t in SymbolSet(stuck) || t !in known
    {
      assert Waits(h, known, s);
    }
    forall other | WaitTogether(g, known, other)
      ensures other <= SymbolSet(stuck)
    {
      WaitingIsStuck(remaining, known, resolutions, stuck, other);
    }
  }

  lemma {:induction false} LastOfRest(libs: seq<Library>, done: seq<Symbol>, s: Symbol)
    requires s in Symbols(libs) && s !in done
    ensures s in Symbols(Without(libs, done)) && LastWith(Without(libs, done), s) == LastWith(libs, s)
  {
    var n := |libs| - 1;
    var before := Without(libs[..n], done);
    if FullSymbol(libs[n]) == s {
      SymbolsAppended(before, libs[n]);
      assert Symbols(before + [libs[n]])[|before|] == s;
    } else {
      assert libs == libs[..n] + [libs[n]];
      SymbolIsEarlier(libs[..n], libs[n], s);
      LastOfRest(libs[..n], done, s);
      if FullSymbol(libs[n]) !in done {
        SymbolsAppended(before, libs[n]);
        assert (before + [libs[n]])[..|before|] == before;
        assert s in Symbols(before + [libs[n]]);
      }
    }
  }

  /** The last library of a symbol that is stuck is among the stuck ones. */
  lemma {:induction false} LastOfStuck(remaining: seq<Library>, known: set<Symbol>, resolutions: Resolutions,
                                       stuck: seq<Library>, s: Symbol)
    requires Resolvable(remaining, resolutions) && Peel(remaining, known, resolutions) == Stuck(stuck)
    requires s in Symbols(stuck)
    ensures s in Symbols(remaining) && LastWith(stuck, s) == LastWith(remaining, s)
    decreases |remaining|
  {
    var first := Fulfilled(remaining, known, resolutions);
    var next := Without(remaining, first);
    if |next| != |remaining| {
      ResolvableRest(remaining, first, resolutions);
      LastOfStuck(next, known, resolutions, stuck, s);
      SurvivorIsOld(remaining, first, s);
      LastOfRest(remaining, first, s);
    }
  }

  lemma SurvivorIsOld(libs: seq<Library>, done: seq<Symbol>, s: Symbol)
    requires s in Symbols(Without(libs, done))
    ensures s in Symbols(libs) && s !in done
  {
    var i :| 0 <= i < |Without(libs, done)| && Symbols(Without(libs, done))[i] == s;
    var lib := Without(libs, done)[i];
    assert lib in Without(libs, done);
    var j :| 0 <= j < |libs| && libs[j] == lib;
    assert Symbols(libs)[j] == s;
  }

  // ---------- The report ----------

  function PackageOf(lib: Library): (string, Version) {
    (lib.name, lib.version)
  }

  /** The queries whose symbol is unknown or stuck. */
  ghost function Unavailable(stuck: set<Symbol>, known: set<Symbol>, resolutions: Resolutions): LibraryQuery -> bool {
    (q: LibraryQuery) => QueryKey(q) in resolutions &&
      (resolutions[QueryKey(q)].exportedSymbol in stuck || resolutions[QueryKey(q)].exportedSymbol !in known)
  }

  /** The last library of a stuck symbol. */
  ghost predicate SpeaksFor(libs: seq<Library>, stuck: set<Symbol>, j: int) {
    0 <= j < |libs| && FullSymbol(libs[j]) in stuck && LastAt(Symbols(libs), j, FullSymbol(libs[j]))
  }

  /** The package has, in order, the queries of such a library that cannot be answered. */
  ghost predicate ReportedFor(libs: seq<Library>, stuck: set<Symbol>, known: set<Symbol>, resolutions: Resolutions,
                              package: (string, Version), missing: seq<LibraryQuery>, j: int) {
    && SpeaksFor(libs, stuck, j) && package == PackageOf(libs[j])
    && IsFilter(missing, libs[j].dependencies, Unavailable(stuck, known, resolutions))
  }

  /** The report has the package of every stuck symbol and no other. */
  ghost predicate IsReport(libs: seq<Library>, stuck: set<Symbol>, known: set<Symbol>, resolutions: Resolutions,
                           packages: map<(string, Version), seq<LibraryQuery>>) {
    && (forall j :: SpeaksFor(libs, stuck, j) ==> PackageOf(libs[j]) in packages)
    && (forall p <- packages :: exists j :: ReportedFor(libs, stuck, known, resolutions, p, packages[p], j))
  }

  lemma {:induction false} MissingIsFilter(queries: seq<LibraryQuery>, known: set<Symbol>, waiting: seq<Symbol>,
                                           resolutions: Resolutions, stuck: set<Symbol>)
    requires (forall q <- queries :: QueryKey(q) in resolutions) && forall s :: s in stuck <==> s in waiting
    ensures IsFilter(MissingQueries(queries, known, waiting, resolutions), queries,
                     Unavailable(stuck, known, resolutions))
  {
    var keep := Unavailable(stuck, known, resolutions);
    if queries == [] {
      EmptyFilter(keep);
    } else {
      var q, rest := queries[0], MissingQueries(queries[1..], known, waiting, resolutions);
      assert queries == [q] + queries[1..];
      assert keep(q) <==> !Ready([resolutions[QueryKey(q)].exportedSymbol], known, waiting) by {
        assert resolutions[QueryKey(q)].exportedSymbol in [resolutions[QueryKey(q)].exportedSymbol];
      }
      MissingIsFilter(queries[1..], known, waiting, resolutions, stuck);
      FilterExtendedFront(q, rest, queries[1..], keep, MissingQueries(queries, known, waiting, resolutions), queries);
    }
  }

  /** The pair reported for a stuck symbol. */
  lemma PairOfStuck(remaining: seq<Library>, known: set<Symbol>, resolutions: Resolutions, stuck: seq<Library>,
                    s: Symbol) returns (j: nat)
    requires Resolvable(remaining, resolutions) && Peel(remaining, known, resolutions) == Stuck(stuck)
    requires s in Symbols(stuck)
    ensures var p := ReportPair(LastWith(stuck, s), stuck, known, resolutions);
      ReportedFor(remaining, SymbolSet(stuck), known, resolutions, p.0, p.1, j) && FullSymbol(remaining[j]) == s
  {
    LastOfStuck(remaining, known, resolutions, stuck, s);
    j := LastWithIsLast(remaining, s);
    SymbolSetIsKeys(stuck, resolutions);
    MissingIsFilter(remaining[j].dependencies, known, Symbols(stuck), resolutions, SymbolSet(stuck));
  }

  lemma ReportIsComplete(remaining: seq<Library>, known: set<Symbol>, resolutions: Resolutions, stuck: seq<Library>)
    requires Resolvable(remaining, resolutions) && Peel(remaining, known, resolutions) == Stuck(stuck)
    ensures IsReport(remaining, SymbolSet(stuck), known, resolutions, NotFounds(stuck, known, resolutions))
  {
    var d := Dependencies(stuck, resolutions);
    assert forall s <- d.keys :: s in d.vals;
    var pairs := ReportPairs(d.keys, stuck, known, resolutions);
    var packages := NotFounds(stuck, known, resolutions);
    SymbolSetIsKeys(stuck, resolutions);
    forall p | p in packages
      ensures exists j :: ReportedFor(remaining, SymbolSet(stuck), known, resolutions, p, packages[p], j)
    {
      var i := ValueHasLastPair(pairs, p);
      assert d.keys[i] in d.keys;
      var j := PairOfStuck(remaining, known, resolutions, stuck, d.keys[i]);
    }
    forall j | SpeaksFor(remaining, SymbolSet(stuck), j)
      ensures PackageOf(remaining[j]) in packages
    {
      var s := FullSymbol(remaining[j]);
      var i := PairOfStuck(remaining, known, resolutions, stuck, s);
      assert i == j;
      assert s in d.vals && s in d.keys;
      var k :| 0 <= k < |d.keys| && d.keys[k] == s;
      assert pairs[k].0 == PackageOf(remaining[j]);
      KeysOfPairs(pairs, PackageOf(remaining[j]));
    }
  }

  /**
    `CircularDependencies` reports the packages of the symbols that never load, and for each of them
    the queries whose symbol is unknown or never loads.
   */
  lemma ReportIsExact<A>(remaining: seq<Library>, items: map<Symbol, A>, resolutions: Resolutions, r: GraphResult<A>)
    returns (stuck: set<Symbol>)
    requires r == LoadingGraph(remaining, items, resolutions) && r.CircularDependencies?
    ensures Resolvable(remaining, resolutions) && NeverLoad(GraphOf(remaining, resolutions), items.Keys, stuck)
    ensures IsReport(remaining, stuck, items.Keys, resolutions, r.packages)
  {
    var libs := Peel(remaining, items.Keys, resolutions).remaining;
    stuck := SymbolSet(libs);
    StuckNeverLoads(remaining, items.Keys, resolutions, libs);
    ReportIsComplete(remaining, items.Keys, resolutions, libs);
  }

  ghost predicate NamesBlockers(missing: seq<LibraryQuery>, stuck: seq<Library>, known: set<Symbol>,
                                resolutions: Resolutions) {
    && missing != []
    && forall q <- missing :: QueryKey(q) in resolutions &&
         (resolutions[QueryKey(q)].exportedSymbol in Symbols(stuck) ||
           resolutions[QueryKey(q)].exportedSymbol !in known)
  }

  lemma ReportOfBlocked(stuck: seq<Library>, known: set<Symbol>, resolutions: Resolutions, package: (string, Version))
    requires Resolvable(stuck, resolutions) && Blocked(GraphOf(stuck, resolutions), known)
    requires package in NotFounds(stuck, known, resolutions)
    ensures NamesBlockers(NotFounds(stuck, known, resolutions)[package], stuck, known, resolutions)
  {
    var d := Dependencies(stuck, resolutions);
    assert forall s <- d.keys :: s in d.vals;
    var pairs := ReportPairs(d.keys, stuck, known, resolutions);
    var i := ValueHasLastPair(pairs, package);
    var s := d.keys[i];
    assert s in d.keys;
    assert s in GraphOf(stuck, resolutions);
    assert Waits(GraphOf(stuck, resolutions), known, s);
    MissingOfWaiting(stuck, known, resolutions, s);
    assert pairs[i] == ReportPair(LastWith(stuck, s), stuck, known, resolutions);
  }

  lemma MissingOfWaiting(stuck: seq<Library>, known: set<Symbol>, resolutions: Resolutions, s: Symbol)
    requires Resolvable(stuck, resolutions) && Waits(GraphOf(stuck, resolutions), known, s)
    ensures NamesBlockers(ReportPair(LastWith(stuck, s), stuck, known, resolutions).1, stuck, known, resolutions)
  {
    var lib := LastWith(stuck, s);
    LastWithDecides(stuck, s, resolutions);
    var h := GraphOf(stuck, resolutions);
    var t :| t in DependencySymbols(lib, resolutions) && (t in h || t !in known);
    assert t in Symbols(stuck) || t !in known;
    var k :| 0 <= k < |lib.dependencies| && DependencySymbols(lib, resolutions)[k] == t;
    MissingWhenBlocked(lib.dependencies, known, Symbols(stuck), resolutions, k);
  }

  /** A query whose symbol is waiting or unknown is reported. */
  lemma MissingWhenBlocked(queries: seq<LibraryQuery>, known: set<Symbol>, waiting: seq<Symbol>,
                           resolutions: Resolutions, k: nat)
    requires k < |queries| && forall q <- queries :: QueryKey(q) in resolutions
    requires queries[k] in queries &&
      (resolutions[QueryKey(queries[k])].exportedSymbol in waiting ||
        resolutions[QueryKey(queries[k])].exportedSymbol !in known)
    ensures var missing := MissingQueries(queries, known, waiting, resolutions);
      && queries[k] in missing
      && forall q <- missing :: q in queries &&
           (resolutions[QueryKey(q)].exportedSymbol in waiting || resolutions[QueryKey(q)].exportedSymbol !in known)
  {
    forall t: Symbol
      ensures Ready([t], known, waiting) <==> t in known && t !in waiting
    {
      assert t in [t];
    }
  }

  /** The dependencies of a symbol are those of the last library that has it. */
  lemma {:induction false} LastWithDecides(libs: seq<Library>, s: Symbol, resolutions: Resolutions)
    requires Resolvable(libs, resolutions) && s in Symbols(libs)
    ensures Resolvable([LastWith(libs, s)], resolutions)
    ensures GraphOf(libs, resolutions)[s] == DependencySymbols(LastWith(libs, s), resolutions)
  {
    var n := |libs| - 1;
    var init, lib := libs[..n], libs[n];
    assert libs == init + [lib];
    ResolvableParts(init, lib, resolutions);
    assert GraphOf(libs, resolutions) ==
           GraphOf(init, resolutions)[FullSymbol(lib) := DependencySymbols(lib, resolutions)] by {
      GraphOfExtension(init, lib, resolutions);
    }
    if FullSymbol(lib) != s {
      SymbolIsEarlier(init, lib, s);
      LastWithDecides(init, s, resolutions);
    }
  }

  /** The library at the last place of a symbol decides its dependencies. */
  lemma LastDecides(libs: seq<Library>, j: int, s: Symbol, resolutions: Resolutions)
    requires Resolvable(libs, resolutions) && LastAt(Symbols(libs), j, s)
    ensures s in GraphOf(libs, resolutions) && |GraphOf(libs, resolutions)[s]| == |libs[j].dependencies|
    ensures forall k :: 0 <= k < |libs[j].dependencies| ==>
      && libs[j].dependencies[k] in libs[j].dependencies && libs[j] in libs
      && GraphOf(libs, resolutions)[s][k] == resolutions[QueryKey(libs[j].dependencies[k])].exportedSymbol
  {
    LastWithDecides(libs, s, resolutions);
    var i := LastWithIsLast(libs, s);
    assert i == j;
    assert libs[j] in libs;
  }

  lemma {:induction false} LastWithIsLast(libs: seq<Library>, s: Symbol) returns (j: nat)
    requires s in Symbols(libs)
    ensures LastAt(Symbols(libs), j, s) && LastWith(libs, s) == libs[j]
  {
    var n := |libs| - 1;
    if FullSymbol(libs[n]) == s {
      j := n;
    } else {
      assert libs == libs[..n] + [libs[n]];
      SymbolIsEarlier(libs[..n], libs[n], s);
      j := LastWithIsLast(libs[..n], s);
      assert forall i :: 0 <= i < n ==> Symbols(libs[..n])[i] == Symbols(libs)[i];
    }
  }

  lemma SymbolIsEarlier(init: seq<Library>, lib: Library, s: Symbol)
    requires s in Symbols(init + [lib]) && FullSymbol(lib) != s
    ensures s in Symbols(init)
  {
    var i :| 0 <= i < |init| + 1 && Symbols(init + [lib])[i] == s;
    assert Symbols(init)[i] == s;
  }
}
