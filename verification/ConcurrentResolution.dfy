/**
  The gathered resolution of a round's queries: every task consults the shared cache of versions,
  waits for the database when its library is not there, and fills the cache. The tasks interleave
  in any order.
 */
module ConcurrentResolution {
  import opened CdnModel
  import opened DependencyResolver
  import opened VersionIndexing
  import opened VersionSelection
  import opened Wrappers

  type VersionsCache = map<string, seq<Version>>

  // ---------- The run without concurrency ----------

  /** The cache once `q` has been resolved. */
  function WithListing(index: Index, q: LibraryQuery, cache: VersionsCache): VersionsCache {
    if !index.parses(EffectiveQuery(index, q)) then cache
    else
      match ListAllVersions(index, q.name)
      case Some(versions) => cache[q.name := versions]
      case None => cache
  }

  /** The cache once `queries` have been resolved one after the other. */
  function CacheAfter(index: Index, queries: seq<LibraryQuery>, cache: VersionsCache): VersionsCache {
    if queries == [] then cache
    else WithListing(index, queries[|queries| - 1], CacheAfter(index, queries[..|queries| - 1], cache))
  }

  /** A cached list is what the database and the extra index answer. */
  ghost predicate Coherent(index: Index, cache: VersionsCache) {
    forall name <- cache :: ListAllVersions(index, name) == Some(cache[name])
  }

  lemma CachedListing(index: Index, cache: VersionsCache, name: string)
    requires Coherent(index, cache) && name in cache
    ensures ListAllVersions(index, name) == Some(cache[name]) && cache[name := cache[name]] == cache
  {
  }

  lemma CoherentUpdate(index: Index, cache: VersionsCache, name: string, versions: seq<Version>)
    requires Coherent(index, cache) && ListAllVersions(index, name) == Some(versions)
    ensures Coherent(index, cache[name := versions])
  {
  }

  // ---------- The tasks ----------

  /** `Hit`: the library was seen in the cache; `Querying`: the database has been asked. */
  datatype Task = Start | Hit | Querying | Done(answer: Resolution)

  datatype State = State(tasks: seq<Task>, cache: VersionsCache)

  function Initial(n: nat, cache: VersionsCache): State {
    State(seq(n, i => Start), cache)
  }

  /** One step of task `i`, up to its next suspension point; a finished task does nothing. */
  function Step(index: Index, queries: seq<LibraryQuery>, s: State, i: nat): State
    requires |s.tasks| == |queries| && i < |queries|
  {
    var q := queries[i];
    match s.tasks[i]
    case Start =>
      if !index.parses(EffectiveQuery(index, q)) then s.(tasks := s.tasks[i := Done(Dropped)])
      else if q.name in s.cache then s.(tasks := s.tasks[i := Hit])
      else s.(tasks := s.tasks[i := Querying])
    case Hit =>
      var cached := if q.name in s.cache then Some(s.cache[q.name]) else None;
      s.(tasks := s.tasks[i := Done(ResolveAmong(index, q, cached))])
    case Querying =>
      var listed := ListAllVersions(index, q.name);
      State(s.tasks[i := Done(ResolveAmong(index, q, listed))],
            if listed.Some? then s.cache[q.name := listed.value] else s.cache)
    case Done(_) => s
  }

  predicate Schedules(schedule: seq<nat>, n: nat) {
    forall k :: 0 <= k < |schedule| ==> schedule[k] < n
  }

  /** The state after the steps of a schedule: which task moves at each instant. */
  function Run(index: Index, queries: seq<LibraryQuery>, s: State, schedule: seq<nat>): State
    requires |s.tasks| == |queries| && Schedules(schedule, |queries|)
    decreases |schedule|
  {
    if schedule == [] then s else Run(index, queries, Step(index, queries, s, schedule[0]), schedule[1..])
  }

  ghost predicate AllDone(s: State) {
    forall t <- s.tasks :: t.Done?
  }

  // ---------- Invariant ----------

  ghost predicate TaskInv(index: Index, q: LibraryQuery, t: Task, cache: VersionsCache) {
    match t
    case Start => true
    case Hit => index.parses(EffectiveQuery(index, q)) && q.name in cache
    case Querying => index.parses(EffectiveQuery(index, q))
    case Done(answer) =>
      && answer == ResolveVersion(index, q)
      && (index.parses(EffectiveQuery(index, q)) && ListAllVersions(index, q.name).Some? ==> q.name in cache)
  }

  ghost predicate Inv(index: Index, queries: seq<LibraryQuery>, cache0: VersionsCache, s: State) {
    && |s.tasks| == |queries|
    && Coherent(index, s.cache)
    && cache0.Keys <= s.cache.Keys
    && (forall name <- s.cache :: name in cache0 || AsksFor(index, queries, name))
    && (forall i :: 0 <= i < |queries| ==> TaskInv(index, queries[i], s.tasks[i], s.cache))
  }

  lemma TaskInvLater(index: Index, q: LibraryQuery, t: Task, cache: VersionsCache, later: VersionsCache)
    requires TaskInv(index, q, t, cache) && cache.Keys <= later.Keys
    ensures TaskInv(index, q, t, later)
  {
  }

  /** The step of one task keeps its invariant and the coherence of the cache. */
  lemma TaskStep(index: Index, queries: seq<LibraryQuery>, s: State, i: nat, s': State)
    requires |s.tasks| == |queries| && i < |queries| && Coherent(index, s.cache)
    requires TaskInv(index, queries[i], s.tasks[i], s.cache) && s' == Step(index, queries, s, i)
    ensures |s'.tasks| == |queries| && TaskInv(index, queries[i], s'.tasks[i], s'.cache)
    ensures forall j :: 0 <= j < |queries| && j != i ==> s'.tasks[j] == s.tasks[j]
    ensures Coherent(index, s'.cache) && s.cache.Keys <= s'.cache.Keys
    ensures forall name <- s'.cache ::
      name in s.cache || (name == queries[i].name && index.parses(EffectiveQuery(index, queries[i])))
  {
    var q := queries[i];
    match s.tasks[i]
    case Start =>
    case Hit => CachedListing(index, s.cache, q.name);
    case Querying =>
      var listed := ListAllVersions(index, q.name);
      if listed.Some? {
        CoherentUpdate(index, s.cache, q.name, listed.value);
      }
    case Done(_) =>
  }

  lemma StepKeepsInv(index: Index, queries: seq<LibraryQuery>, cache0: VersionsCache, s: State, i: nat)
    requires Inv(index, queries, cache0, s) && i < |queries|
    ensures Inv(index, queries, cache0, Step(index, queries, s, i))
  {
    var s' := Step(index, queries, s, i);
    assert queries[i] in queries;
    TaskStep(index, queries, s, i, s');
    forall j | 0 <= j < |queries|
      ensures TaskInv(index, queries[j], s'.tasks[j], s'.cache)
    {
      if j != i {
        TaskInvLater(index, queries[j], s.tasks[j], s.cache, s'.cache);
      }
    }
  }

  lemma {:induction false} RunKeepsInv(index: Index, queries: seq<LibraryQuery>, cache0: VersionsCache, s: State,
                                       schedule: seq<nat>)
    requires Inv(index, queries, cache0, s) && Schedules(schedule, |queries|)
    ensures Inv(index, queries, cache0, Run(index, queries, s, schedule))
    decreases |schedule|
  {
    if schedule != [] {
      StepKeepsInv(index, queries, cache0, s, schedule[0]);
      RunKeepsInv(index, queries, cache0, Step(index, queries, s, schedule[0]), schedule[1..]);
    }
  }

  // ---------- The cache is transparent ----------

  lemma {:induction false} CacheAfterIsCoherent(index: Index, queries: seq<LibraryQuery>, cache: VersionsCache)
    requires Coherent(index, cache)
    ensures Coherent(index, CacheAfter(index, queries, cache))
  {
    if queries != [] {
      CacheAfterIsCoherent(index, queries[..|queries| - 1], cache);
    }
  }

  /** Some readable query asks for a library of that name. */
  ghost predicate AsksFor(index: Index, queries: seq<LibraryQuery>, name: string) {
    exists q <- queries :: q.name == name && index.parses(EffectiveQuery(index, q))
  }

  lemma AsksForLast(index: Index, queries: seq<LibraryQuery>, q: LibraryQuery, name: string)
    ensures AsksFor(index, queries + [q], name) <==>
      AsksFor(index, queries, name) || (q.name == name && index.parses(EffectiveQuery(index, q)))
  {
    assert forall p :: p in queries + [q] <==> p in queries || p == q;
    if AsksFor(index, queries, name) {
      var p :| p in queries && p.name == name && index.parses(EffectiveQuery(index, p));
      assert p in queries + [q];
    }
    assert q in queries + [q];
  }

  lemma {:induction false} CacheAfterMembers(index: Index, queries: seq<LibraryQuery>, cache: VersionsCache,
                                             name: string)
    ensures name in CacheAfter(index, queries, cache) <==>
      name in cache || (ListAllVersions(index, name).Some? && AsksFor(index, queries, name))
  {
    if queries != [] {
      var n := |queries| - 1;
      assert queries == queries[..n] + [queries[n]];
      AsksForLast(index, queries[..n], queries[n], name);
      CacheAfterMembers(index, queries[..n], cache, name);
    }
  }

  /** Two coherent caches of the same libraries are the same cache. */
  lemma CoherentIsUnique(index: Index, a: VersionsCache, b: VersionsCache)
    requires Coherent(index, a) && Coherent(index, b) && forall name :: name in a <==> name in b
    ensures a == b
  {
    forall name | name in a
      ensures a[name] == b[name]
    {
      assert ListAllVersions(index, name) == Some(a[name]) == Some(b[name]);
    }
  }

  /** In a final state the cache holds the libraries the sequential run caches. */
  lemma FinalCacheMembers(index: Index, queries: seq<LibraryQuery>, cache0: VersionsCache, s: State, name: string)
    requires Coherent(index, cache0) && Inv(index, queries, cache0, s) && AllDone(s)
    ensures name in s.cache <==> name in CacheAfter(index, queries, cache0)
  {
    CacheAfterMembers(index, queries, cache0, name);
    if name in s.cache && name !in cache0 {
      assert ListAllVersions(index, name) == Some(s.cache[name]);
    }
    if name in CacheAfter(index, queries, cache0) && name !in cache0 {
      var q :| q in queries && q.name == name && index.parses(EffectiveQuery(index, q));
      var i :| 0 <= i < |queries| && queries[i] == q;
      assert s.tasks[i] in s.tasks;
      assert TaskInv(index, queries[i], s.tasks[i], s.cache);
    }
  }

  /**
    Whatever the interleaving, once all tasks are done each has answered what it answers alone
    and without cache, and the cache is the one the sequential run leaves.
   */
  lemma CacheIsTransparent(index: Index, queries: seq<LibraryQuery>, cache0: VersionsCache, schedule: seq<nat>,
                           s: State)
    requires Coherent(index, cache0) && Schedules(schedule, |queries|)
    requires s == Run(index, queries, Initial(|queries|, cache0), schedule) && AllDone(s)
    ensures |s.tasks| == |queries|
    ensures forall i :: 0 <= i < |queries| ==> s.tasks[i] == Done(ResolveVersion(index, queries[i]))
    ensures s.cache == CacheAfter(index, queries, cache0)
  {
    RunKeepsInv(index, queries, cache0, Initial(|queries|, cache0), schedule);
    FinalAnswers(index, queries, cache0, s);
    FinalCache(index, queries, cache0, s);
  }

  lemma FinalAnswers(index: Index, queries: seq<LibraryQuery>, cache0: VersionsCache, s: State)
    requires Inv(index, queries, cache0, s) && AllDone(s)
    ensures forall i :: 0 <= i < |queries| ==> s.tasks[i] == Done(ResolveVersion(index, queries[i]))
  {
    forall i | 0 <= i < |queries|
      ensures s.tasks[i] == Done(ResolveVersion(index, queries[i]))
    {
      assert s.tasks[i] in s.tasks;
      assert TaskInv(index, queries[i], s.tasks[i], s.cache);
    }
  }

  lemma FinalCache(index: Index, queries: seq<LibraryQuery>, cache0: VersionsCache, s: State)
    requires Coherent(index, cache0) && Inv(index, queries, cache0, s) && AllDone(s)
    ensures s.cache == CacheAfter(index, queries, cache0)
  {
    forall name
      ensures name in s.cache <==> name in CacheAfter(index, queries, cache0)
    {
      FinalCacheMembers(index, queries, cache0, s, name);
    }
    CacheAfterIsCoherent(index, queries, cache0);
    CoherentIsUnique(index, s.cache, CacheAfter(index, queries, cache0));
  }

  // ---------- What the round makes of the answers ----------

  function AnsweredEntries(tasks: seq<Task>): (r: seq<ResolvedQuery>) {
    if tasks == [] then []
    else
      var n := |tasks| - 1;
      var before := AnsweredEntries(tasks[..n]);
      if tasks[n].Done? && tasks[n].answer.Resolved? then before + [tasks[n].answer.entry] else before
  }

  /** The entries a round records do not depend on the interleaving either. */
  lemma {:induction false} EntriesAreSequential(index: Index, queries: seq<LibraryQuery>, tasks: seq<Task>)
    requires |tasks| == |queries|
    requires forall i :: 0 <= i < |queries| ==> tasks[i] == Done(ResolveVersion(index, queries[i]))
    ensures AnsweredEntries(tasks) == Entries(index, queries)
  {
    if queries != [] {
      var n := |queries| - 1;
      EntriesAreSequential(index, queries[..n], tasks[..n]);
    }
  }

  /** The resolutions recorded after any interleaving are those of the sequential round. */
  lemma RoundIsTransparent(index: Index, queries: seq<LibraryQuery>, cache0: VersionsCache, schedule: seq<nat>,
                           s: State, resolutions: map<string, ResolvedQuery>)
    requires Coherent(index, cache0) && Schedules(schedule, |queries|)
    requires s == Run(index, queries, Initial(|queries|, cache0), schedule) && AllDone(s)
    ensures Recorded(resolutions, AnsweredEntries(s.tasks)) == Recorded(resolutions, Entries(index, queries))
  {
    CacheIsTransparent(index, queries, cache0, schedule, s);
    EntriesAreSequential(index, queries, s.tasks);
  }

  // ---------- Every fair run ends ----------

  function StepsLeft(t: Task): nat {
    match t
    case Start => 2
    case Hit => 1
    case Querying => 1
    case Done(_) => 0
  }

  function TotalLeft(tasks: seq<Task>): nat {
    if tasks == [] then 0 else StepsLeft(tasks[0]) + TotalLeft(tasks[1..])
  }

  lemma {:induction false} UpdateLeft(tasks: seq<Task>, i: nat, t: Task)
    requires i < |tasks|
    ensures TotalLeft(tasks[i := t]) == TotalLeft(tasks) - StepsLeft(tasks[i]) + StepsLeft(t)
  {
    if i == 0 {
      assert tasks[i := t][1..] == tasks[1..];
    } else {
      UpdateLeft(tasks[1..], i - 1, t);
      assert tasks[i := t][1..] == tasks[1..][i - 1 := t];
    }
  }

  /** A step of an unfinished task brings the end nearer: no run moves more than twice per task. */
  lemma StepMakesProgress(index: Index, queries: seq<LibraryQuery>, s: State, i: nat)
    requires |s.tasks| == |queries| && i < |queries| && !s.tasks[i].Done?
    ensures TotalLeft(Step(index, queries, s, i).tasks) < TotalLeft(s.tasks)
  {
    UpdateLeft(s.tasks, i, Step(index, queries, s, i).tasks[i]);
  }

  /** Tasks are unfinished exactly while steps are left, at most two for each. */
  lemma {:induction false} NothingLeft(tasks: seq<Task>)
    ensures TotalLeft(tasks) == 0 <==> forall i :: 0 <= i < |tasks| ==> tasks[i].Done?
    ensures TotalLeft(tasks) <= 2 * |tasks|
  {
    if tasks != [] {
      NothingLeft(tasks[1..]);
      assert forall i :: 0 < i < |tasks| ==> tasks[i] == tasks[1..][i - 1];
      assert tasks[0].Done? <==> StepsLeft(tasks[0]) == 0;
    }
  }

  /** Two tasks on one library can both ask the database before either fills the cache. */
  lemma BothAskTheDatabase(index: Index, name: string, a: string, b: string, cache: VersionsCache)
    requires name !in cache
    requires index.parses(EffectiveQuery(index, LibraryQuery(name, a)))
    requires index.parses(EffectiveQuery(index, LibraryQuery(name, b)))
    ensures var queries := [LibraryQuery(name, a), LibraryQuery(name, b)];
      Run(index, queries, Initial(2, cache), [0, 1]) == State([Querying, Querying], cache)
  {
    var queries := [LibraryQuery(name, a), LibraryQuery(name, b)];
    var s0 := Initial(2, cache);
    var s1 := Step(index, queries, s0, 0);
    assert s1.tasks == [Querying, Start];
    var s2 := Step(index, queries, s1, 1);
    assert s2.tasks == [Querying, Querying];
    assert [0, 1][1..] == [1] && [1][1..] == [];
    assert Run(index, queries, s2, []) == s2;
    assert Run(index, queries, s1, [1]) == s2;
  }

  /** A task whose library is in the cache does not ask the database: it answers from the cache. */
  lemma CacheSparesTheDatabase(index: Index, queries: seq<LibraryQuery>, s: State, i: nat)
    requires |s.tasks| == |queries| && i < |queries| && s.tasks[i].Start?
    requires index.parses(EffectiveQuery(index, queries[i])) && queries[i].name in s.cache
    ensures var hit := Step(index, queries, s, i);
      && hit == State(s.tasks[i := Hit], s.cache)
      && Step(index, queries, hit, i) ==
           State(s.tasks[i := Done(ResolveAmong(index, queries[i], Some(s.cache[queries[i].name])))], s.cache)
  {
    assert s.tasks[i := Hit][i := Done(ResolveAmong(index, queries[i], Some(s.cache[queries[i].name])))] ==
           s.tasks[i := Done(ResolveAmong(index, queries[i], Some(s.cache[queries[i].name])))];
  }

  lemma {:induction false} RunOneMore(index: Index, queries: seq<LibraryQuery>, s: State, schedule: seq<nat>, i: nat)
    requires |s.tasks| == |queries| && Schedules(schedule, |queries|) && i < |queries|
    ensures |Run(index, queries, s, schedule).tasks| == |queries| && Schedules(schedule + [i], |queries|)
    ensures Run(index, queries, s, schedule + [i]) == Step(index, queries, Run(index, queries, s, schedule), i)
    decreases |schedule|
  {
    if schedule == [] {
      assert [i][1..] == [] && [] + [i] == [i];
      assert Run(index, queries, Step(index, queries, s, i), []) == Step(index, queries, s, i);
    } else {
      assert (schedule + [i])[1..] == schedule[1..] + [i];
      RunOneMore(index, queries, Step(index, queries, s, schedule[0]), schedule[1..], i);
    }
  }

  /** Every run can be continued until all its tasks are done. */
  lemma {:induction false} EveryRunCanEnd(index: Index, queries: seq<LibraryQuery>, cache0: VersionsCache,
                                          schedule: seq<nat>) returns (more: seq<nat>)
    requires Schedules(schedule, |queries|)
    ensures Schedules(more, |queries|) && schedule <= more
    ensures AllDone(Run(index, queries, Initial(|queries|, cache0), more))
    decreases TotalLeft(Run(index, queries, Initial(|queries|, cache0), schedule).tasks)
  {
    var s0 := Initial(|queries|, cache0);
    var s := Run(index, queries, s0, schedule);
    RunHasTasks(index, queries, s0, schedule);
    if AllDone(s) {
      more := schedule;
    } else {
      var t :| t in s.tasks && !t.Done?;
      var i :| 0 <= i < |s.tasks| && s.tasks[i] == t;
      RunOneMore(index, queries, s0, schedule, i);
      StepMakesProgress(index, queries, s, i);
      more := EveryRunCanEnd(index, queries, cache0, schedule + [i]);
    }
  }

  lemma {:induction false} RunHasTasks(index: Index, queries: seq<LibraryQuery>, s: State, schedule: seq<nat>)
    requires |s.tasks| == |queries| && Schedules(schedule, |queries|)
    ensures |Run(index, queries, s, schedule).tasks| == |queries|
    decreases |schedule|
  {
    if schedule != [] {
      RunHasTasks(index, queries, Step(index, queries, s, schedule[0]), schedule[1..]);
    }
  }
}
