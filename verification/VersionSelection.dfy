/** The database of published libraries, the listing of versions and the choice of one. */
module VersionSelection {
  import opened CdnModel
  import opened Decimal
  import opened Text
  import opened VersionIndexing
  import opened Wrappers

  /** A published library: the row under (library_name, version_number). */
  datatype Document = Document(name: string, version: Version, bundle: string, dependencies: seq<LibraryQuery>)

  /**
    What a request can see, constant while it is served. `parses` and `satisfies` stand for the
    range parser: whether it accepts a query, and whether a version is in the range of a query.
   */
  datatype Index = Index(
    documents: seq<Document>,
    extra: seq<Library>,
    using: map<string, string>,
    exportedSymbols: map<string, string>,
    parses: string -> bool,
    satisfies: (string, Version) -> bool)

  // ---------- Sorting ----------

  function InsertDescending(v: Version, s: seq<Version>): (r: seq<Version>)
    ensures multiset(r) == multiset(s) + multiset{v}
  {
    if s == [] || GetVersionNumber(s[0]) <= GetVersionNumber(v) then [v] + s
    else
      assert s == [s[0]] + s[1..];
      [s[0]] + InsertDescending(v, s[1..])
  }

  /** The stable `sorted(..., key=get_version_number, reverse=True)`. */
  function SortDescending(s: seq<Version>): (r: seq<Version>)
    ensures multiset(r) == multiset(s)
  {
    if s == [] then []
    else
      assert s == [s[0]] + s[1..];
      InsertDescending(s[0], SortDescending(s[1..]))
  }

  lemma PrependedMultiset<T>(s: seq<T>, rest: seq<T>, x: T)
    requires s != [] && multiset(rest) == multiset(s[1..]) + multiset{x}
    ensures multiset([s[0]] + rest) == multiset(s) + multiset{x}
  {
    assert s == [s[0]] + s[1..];
  }

  function InsertByText(v: Version, s: seq<Version>): (r: seq<Version>)
    ensures multiset(r) == multiset(s) + multiset{v}
  {
    if s == [] || !LexLess(GetVersionNumberStr(s[0]), GetVersionNumberStr(v)) then [v] + s
    else
      var rest := InsertByText(v, s[1..]);
      PrependedMultiset(s, rest, v);
      [s[0]] + rest
  }

  function SortByText(s: seq<Version>): (r: seq<Version>)
    ensures multiset(r) == multiset(s)
  {
    if s == [] then []
    else
      assert s == [s[0]] + s[1..];
      InsertByText(s[0], SortByText(s[1..]))
  }

  function Reversed<T>(s: seq<T>): (r: seq<T>)
    ensures |r| == |s| && forall i :: 0 <= i < |s| ==> r[i] == s[|s| - 1 - i]
  {
    if s == [] then [] else Reversed(s[1..]) + [s[0]]
  }

  // ---------- Listing ----------

  function DocumentVersions(documents: seq<Document>, name: string): (r: seq<Version>)
    ensures forall v :: v in r <==> exists d <- documents :: d.name == name && d.version == v
  {
    if documents == [] then []
    else
      var rest := DocumentVersions(documents[1..], name);
      if documents[0].name == name then [documents[0].version] + rest else rest
  }

  function ExtraVersions(extra: seq<Library>, name: string): (r: seq<Version>)
    ensures forall v :: v in r <==> exists lib <- extra :: lib.name == name && lib.version == v
  {
    if extra == [] then []
    else
      var rest := ExtraVersions(extra[1..], name);
      if extra[0].name == name then [extra[0].version] + rest else rest
  }

  function NotAmong(s: seq<Version>, listed: seq<Version>): (r: seq<Version>)
    ensures forall v :: v in r <==> v in s && v !in listed
  {
    if s == [] then []
    else
      var rest := NotAmong(s[1..], listed);
      if s[0] in listed then rest else [s[0]] + rest
  }

  /** The versions of the database, sorted by their index text, latest first. */
  function ListVersions(index: Index, name: string): seq<Version> {
    Reversed(SortByText(DocumentVersions(index.documents, name)))
  }

  /** The versions a query on `name` chooses from; `None` is the answer 404. */
  function ListAllVersions(index: Index, name: string): Option<seq<Version>> {
    var listed := ListVersions(index, name);
    var extra := ExtraVersions(index.extra, name);
    if listed != [] then Some(SortDescending(listed + NotAmong(extra, listed)))
    else if extra != [] then Some(extra)
    else None
  }

  // ---------- Choice ----------

  function StripWip(v: Version): Version {
    match v.prerelease
    case Wip => v.(prerelease := NoTag)
    case AlphaWip => v.(prerelease := Alpha)
    case BetaWip => v.(prerelease := Beta)
    case _ => v
  }

  /** `f"{v}-wip"`, when that is a version the CDN accepts. */
  function AddWip(v: Version): Option<Version> {
    match v.prerelease
    case NoTag => Some(v.(prerelease := Wip))
    case Alpha => Some(v.(prerelease := AlphaWip))
    case Beta => Some(v.(prerelease := BetaWip))
    case _ => None
  }

  function UpTo(s: string, c: char): (r: string) {
    if s == "" || s[0] == c then "" else [s[0]] + UpTo(s[1..], c)
  }

  /** The query names one version: its base holds no range character, no `x` and no `latest`. */
  predicate IsFixed(query: string) {
    var base := UpTo(query, '-');
    && (forall c <- base :: c !in {'>', '<', '*', '^', '~', 'x'})
    && !Contains(base, "latest")
  }

  function FirstWithText(versions: seq<Version>, text: string): Option<Version> {
    if versions == [] then None
    else if VersionText(versions[0]) == text then Some(versions[0])
    else FirstWithText(versions[1..], text)
  }

  /** `next(selector.filter(v.replace("-wip", "") for v in versions))`. */
  function FirstInRange(index: Index, query: string, versions: seq<Version>): Option<Version> {
    if versions == [] then None
    else if index.satisfies(query, StripWip(versions[0])) then Some(StripWip(versions[0]))
    else FirstInRange(index, query, versions[1..])
  }

  function Choose(index: Index, query: string, versions: seq<Version>): Option<Version> {
    if IsFixed(query) then FirstWithText(versions, query)
    else
      match FirstInRange(index, query, versions)
      case None => None
      case Some(s) =>
        if s in versions then Some(s)
        else if AddWip(s).Some? && AddWip(s).value in versions then AddWip(s)
        else None
  }

  function ApiKey(v: Version): string {
    if v.major != 0 then ToString(v.major)
    else if v.minor != 0 then "0" + ToString(v.minor)
    else "00" + ToString(v.patch)
  }

  function ExportedSymbol(index: Index, name: string): string {
    if name in index.exportedSymbols then index.exportedSymbols[name] else name
  }

  function FullExportedSymbol(index: Index, name: string, v: Version): Symbol {
    ExportedSymbol(index, name) + "_APIv" + ApiKey(v)
  }

  function EffectiveQuery(index: Index, q: LibraryQuery): string {
    if q.name in index.using then index.using[q.name] else q.version
  }

  /** `Dropped`: the exception of an unreadable query, which the gathering ignores. */
  datatype Resolution = Resolved(entry: ResolvedQuery) | LibraryNotFound | Dropped

  /** What `resolve_version` makes of the listed versions. */
  function ResolveAmong(index: Index, q: LibraryQuery, listed: Option<seq<Version>>): Resolution {
    if listed.None? then LibraryNotFound
    else
      match Choose(index, EffectiveQuery(index, q), listed.value)
      case None => LibraryNotFound
      case Some(v) => Resolved(ResolvedQuery(q.name, q.version, v, FullExportedSymbol(index, q.name, v)))
  }

  function ResolveVersion(index: Index, q: LibraryQuery): Resolution {
    if !index.parses(EffectiveQuery(index, q)) then Dropped
    else ResolveAmong(index, q, ListAllVersions(index, q.name))
  }

  // ---------- Properties of the sorts ----------

  ghost predicate Descending(s: seq<Version>) {
    forall i, j :: 0 <= i < j < |s| ==> GetVersionNumber(s[i]) >= GetVersionNumber(s[j])
  }

  lemma MembersOf(s: seq<Version>, t: seq<Version>)
    requires multiset(s) == multiset(t)
    ensures forall v :: v in s <==> v in t
  {
    assert forall v :: v in multiset(s) <==> v in s;
    assert forall v :: v in multiset(t) <==> v in t;
  }

  lemma ConsDescending(v: Version, s: seq<Version>)
    requires Descending(s) && forall w <- s :: GetVersionNumber(w) <= GetVersionNumber(v)
    ensures Descending([v] + s)
  {
    var r := [v] + s;
    assert forall j :: 0 < j < |r| ==> r[j] == s[j - 1] && s[j - 1] in s;
  }

  lemma MembersOfInsertion(v: Version, s: seq<Version>, r: seq<Version>)
    requires multiset(r) == multiset(s) + multiset{v}
    ensures forall w :: w in r <==> w == v || w in s
  {
    assert forall w :: w in r <==> w in multiset(r);
    assert forall w :: w in s <==> w in multiset(s);
  }

  lemma {:induction false} InsertKeepsDescending(v: Version, s: seq<Version>)
    requires Descending(s)
    ensures Descending(InsertDescending(v, s))
  {
    if s == [] || GetVersionNumber(s[0]) <= GetVersionNumber(v) {
      assert forall w <- s :: GetVersionNumber(w) <= GetVersionNumber(v);
      ConsDescending(v, s);
    } else {
      InsertKeepsDescending(v, s[1..]);
      MembersOfInsertion(v, s[1..], InsertDescending(v, s[1..]));
      ConsDescending(s[0], InsertDescending(v, s[1..]));
    }
  }

  lemma {:induction false} SortIsDescending(s: seq<Version>)
    ensures Descending(SortDescending(s))
  {
    if s != [] {
      SortIsDescending(s[1..]);
      InsertKeepsDescending(s[0], SortDescending(s[1..]));
    }
  }

  ghost predicate Ascending(s: seq<Version>) {
    forall i, j :: 0 <= i < j < |s| ==> GetVersionNumber(s[i]) <= GetVersionNumber(s[j])
  }

  lemma ConsAscending(v: Version, s: seq<Version>)
    requires Ascending(s) && forall w <- s :: GetVersionNumber(v) <= GetVersionNumber(w)
    ensures Ascending([v] + s)
  {
    var r := [v] + s;
    assert forall j :: 0 < j < |r| ==> r[j] == s[j - 1] && s[j - 1] in s;
  }

  lemma TextOrderIsNumberOrder(v: Version, w: Version)
    requires Indexable(v) && Indexable(w)
    ensures LexLess(GetVersionNumberStr(v), GetVersionNumberStr(w)) <==> GetVersionNumber(v) < GetVersionNumber(w)
  {
    TextReflectsOrder(v, w);
    NumberReflectsOrder(v, w);
  }

  lemma {:induction false} InsertByTextAscends(v: Version, s: seq<Version>)
    requires Indexable(v) && (forall w <- s :: Indexable(w)) && Ascending(s)
    ensures Ascending(InsertByText(v, s))
  {
    if s == [] {
    } else {
      TextOrderIsNumberOrder(s[0], v);
      if !LexLess(GetVersionNumberStr(s[0]), GetVersionNumberStr(v)) {
        assert forall w <- s :: GetVersionNumber(v) <= GetVersionNumber(w);
        ConsAscending(v, s);
      } else {
        InsertByTextAscends(v, s[1..]);
        MembersOfInsertion(v, s[1..], InsertByText(v, s[1..]));
        ConsAscending(s[0], InsertByText(v, s[1..]));
      }
    }
  }

  lemma ReversedAscending(s: seq<Version>)
    requires Ascending(s)
    ensures Descending(Reversed(s))
  {
  }

  lemma {:induction false} ReversedMultiset<T>(s: seq<T>)
    ensures multiset(Reversed(s)) == multiset(s)
  {
    if s != [] {
      ReversedMultiset(s[1..]);
      assert s == [s[0]] + s[1..];
    }
  }

  lemma {:induction false} TextSortAscends(s: seq<Version>)
    requires forall v <- s :: Indexable(v)
    ensures Ascending(SortByText(s))
  {
    if s != [] {
      TextSortAscends(s[1..]);
      MembersOf(SortByText(s[1..]), s[1..]);
      InsertByTextAscends(s[0], SortByText(s[1..]));
    }
  }

  /** The text sort of the database listing is a numeric sort: same versions, latest first. */
  lemma ListingIsDescending(s: seq<Version>)
    requires forall v <- s :: Indexable(v)
    ensures multiset(Reversed(SortByText(s))) == multiset(s)
    ensures Descending(Reversed(SortByText(s)))
  {
    ReversedMultiset(SortByText(s));
    TextSortAscends(s);
    ReversedAscending(SortByText(s));
  }

  /** Two numerically sorted lists of the same versions are the same list. */
  lemma {:induction false} SortedIsUnique(s: seq<Version>, t: seq<Version>)
    requires multiset(s) == multiset(t) && Descending(s) && Descending(t)
    requires forall v <- s :: Bounded(v)
    ensures s == t
  {
    assert |s| == |multiset(s)| == |multiset(t)| == |t|;
    if s != [] {
      assert s[0] == t[0] by {
        MembersOf(s, t);
        SameHead(s, t);
      }
      assert multiset(s[1..]) == multiset(t[1..]) by {
        TailMultiset(s);
        TailMultiset(t);
      }
      SortedIsUnique(s[1..], t[1..]);
      assert s == [s[0]] + s[1..] && t == [t[0]] + t[1..];
    }
  }

  lemma TailMultiset<T>(s: seq<T>)
    requires s != []
    ensures multiset(s[1..]) == multiset(s) - multiset{s[0]}
  {
    assert s == [s[0]] + s[1..];
  }

  lemma SameHead(s: seq<Version>, t: seq<Version>)
    requires s != [] && t != [] && (forall v :: v in s <==> v in t) && Descending(s) && Descending(t)
    requires forall v <- s :: Bounded(v)
    ensures s[0] == t[0]
  {
    assert s[0] in t && t[0] in s;
    var i :| 0 <= i < |t| && t[i] == s[0];
    var j :| 0 <= j < |s| && s[j] == t[0];
    NumberReflectsOrder(s[0], t[0]);
  }

  /** The text sort and the numeric sort of the published versions agree. */
  lemma SortsAgree(s: seq<Version>)
    requires forall v <- s :: Indexable(v)
    ensures Reversed(SortByText(s)) == SortDescending(s)
  {
    ListingIsDescending(s);
    SortIsDescending(s);
    MembersOf(Reversed(SortByText(s)), s);
    SortedIsUnique(Reversed(SortByText(s)), SortDescending(s));
  }

  // ---------- Properties of the choice ----------

  lemma {:induction false} FirstInRangeIsFirst(index: Index, query: string, versions: seq<Version>) returns (k: nat)
    ensures k <= |versions|
    ensures forall i :: 0 <= i < k ==> !index.satisfies(query, StripWip(versions[i]))
    ensures FirstInRange(index, query, versions) == if k == |versions| then None else Some(StripWip(versions[k]))
    ensures k < |versions| ==> index.satisfies(query, StripWip(versions[k]))
  {
    if versions == [] || index.satisfies(query, StripWip(versions[0])) {
      k := 0;
    } else {
      var k' := FirstInRangeIsFirst(index, query, versions[1..]);
      k := k' + 1;
      assert forall i :: 0 < i < k ==> versions[i] == versions[1..][i - 1];
    }
  }

  /** Neither form of the stripped version missing: the last `LibraryNotFound` branch is never taken. */
  lemma OneFormIsPublished(v: Version, versions: seq<Version>)
    requires v in versions
    ensures StripWip(v) in versions || (AddWip(StripWip(v)) == Some(v))
  {
  }

  /** The version is published and its stripped form is in the range. */
  ghost predicate Candidate(index: Index, query: string, versions: seq<Version>, v: Version) {
    v in versions && index.satisfies(query, StripWip(v))
  }

  /** A range query fails only if no candidate exists, and otherwise answers one, sorted list or not. */
  lemma RangeChoiceIsCandidate(index: Index, query: string, versions: seq<Version>)
    requires !IsFixed(query)
    ensures Choose(index, query, versions).None? <==> forall v <- versions :: !Candidate(index, query, versions, v)
    ensures Choose(index, query, versions).Some? ==>
            Candidate(index, query, versions, Choose(index, query, versions).value)
  {
    var k := FirstInRangeIsFirst(index, query, versions);
    if k < |versions| {
      OneFormIsPublished(versions[k], versions);
      assert Candidate(index, query, versions, versions[k]);
    } else {
      forall v | v in versions
        ensures !Candidate(index, query, versions, v)
      {
        var i :| 0 <= i < |versions| && versions[i] == v;
      }
    }
  }

  lemma WipPrecedesItsRelease(v: Version)
    ensures GetVersionNumber(v) <= GetVersionNumber(StripWip(v))
    ensures GetVersionNumber(v) == GetVersionNumber(StripWip(v)) <==> v == StripWip(v)
  {
    DeltaValues(v.prerelease);
    DeltaValues(StripWip(v).prerelease);
  }

  /** On a sorted list no candidate is greater than the first one. */
  lemma FirstIsGreatest(index: Index, query: string, versions: seq<Version>, k: nat)
    requires Descending(versions) && k < |versions|
    requires forall i :: 0 <= i < k ==> !index.satisfies(query, StripWip(versions[i]))
    ensures forall v :: Candidate(index, query, versions, v) ==> GetVersionNumber(v) <= GetVersionNumber(versions[k])
  {
    forall v | Candidate(index, query, versions, v)
      ensures GetVersionNumber(v) <= GetVersionNumber(versions[k])
    {
      var i :| 0 <= i < |versions| && versions[i] == v;
      assert k <= i;
    }
  }

  /** On a sorted list the choice is the greatest candidate; a release wins over its own `-wip`. */
  lemma RangeChoiceIsGreatest(index: Index, query: string, versions: seq<Version>, r: Version)
    requires !IsFixed(query) && Descending(versions)
    requires Choose(index, query, versions) == Some(r)
    ensures forall v :: Candidate(index, query, versions, v) ==> GetVersionNumber(v) <= GetVersionNumber(r)
    ensures StripWip(r) in versions ==> r == StripWip(r)
  {
    var k := FirstInRangeIsFirst(index, query, versions);
    ChosenForm(index, query, versions, k);
    FirstIsGreatest(index, query, versions, k);
    FormIsGreater(versions, k);
  }

  lemma FormIsGreater(versions: seq<Version>, k: nat)
    requires k < |versions|
    ensures GetVersionNumber(versions[k]) <= GetVersionNumber(FormAt(versions, k))
    ensures StripWip(FormAt(versions, k)) == StripWip(versions[k])
  {
    WipPrecedesItsRelease(versions[k]);
  }

  /** The choice is the release of the first version in range, or that version itself. */
  lemma ChosenForm(index: Index, query: string, versions: seq<Version>, k: nat)
    requires !IsFixed(query) && k < |versions|
    requires FirstInRange(index, query, versions) == Some(StripWip(versions[k]))
    ensures Choose(index, query, versions) == Some(FormAt(versions, k))
  {
    OneFormIsPublished(versions[k], versions);
  }

  /** The answer to a range query: the greatest candidate, its release if both forms are there. */
  ghost predicate IsLatest(index: Index, query: string, published: seq<Version>, r: Option<Version>) {
    && (r.None? <==> forall v :: !Candidate(index, query, published, v))
    && (r.Some? ==>
          && Candidate(index, query, published, r.value)
          && (forall v :: Candidate(index, query, published, v) ==> GetVersionNumber(v) <= GetVersionNumber(r.value))
          && (StripWip(r.value) in published ==> r.value == StripWip(r.value)))
  }

  lemma GreatestAmong(index: Index, query: string, versions: seq<Version>, published: seq<Version>)
    requires !IsFixed(query) && Descending(versions) && forall v :: v in versions <==> v in published
    ensures IsLatest(index, query, published, Choose(index, query, versions))
  {
    assert forall v :: Candidate(index, query, versions, v) <==> Candidate(index, query, published, v);
    RangeChoiceIsCandidate(index, query, versions);
    if Choose(index, query, versions).Some? {
      RangeChoiceIsGreatest(index, query, versions, Choose(index, query, versions).value);
    }
  }

  function Published(index: Index, name: string): seq<Version> {
    DocumentVersions(index.documents, name) + ExtraVersions(index.extra, name)
  }

  function VersionOf(r: Resolution): Option<Version> {
    if r.Resolved? then Some(r.entry.version) else None
  }

  /**
    For a library of the database, a range query is answered with the published version that has
    the greatest number among those whose stripped form is in the range, and fails exactly when
    there is none.
   */
  lemma LatestCompatible(index: Index, q: LibraryQuery)
    requires index.parses(EffectiveQuery(index, q)) && !IsFixed(EffectiveQuery(index, q))
    requires ListVersions(index, q.name) != []
    ensures !ResolveVersion(index, q).Dropped?
    ensures IsLatest(index, EffectiveQuery(index, q), Published(index, q.name), VersionOf(ResolveVersion(index, q)))
  {
    var listed, extra := ListVersions(index, q.name), ExtraVersions(index.extra, q.name);
    var versions := ListAllVersions(index, q.name).value;
    SameMembers(index, q.name);
    SortIsDescending(listed + NotAmong(extra, listed));
    GreatestAmong(index, EffectiveQuery(index, q), versions, Published(index, q.name));
  }

  lemma SameMembers(index: Index, name: string)
    requires ListAllVersions(index, name).Some?
    ensures forall v :: v in ListAllVersions(index, name).value <==>
      v in Published(index, name)
  {
    var docs, extra := DocumentVersions(index.documents, name), ExtraVersions(index.extra, name);
    var listed := ListVersions(index, name);
    ReversedMultiset(SortByText(docs));
    MembersOf(listed, docs);
    MembersOf(SortDescending(listed + NotAmong(extra, listed)), listed + NotAmong(extra, listed));
    if listed == [] {
      assert |docs| == |multiset(docs)| == |multiset(listed)| == |listed|;
    }
  }

  /** A fixed query is answered with the version of that text, if it is published. */
  lemma {:induction false} FixedChoice(versions: seq<Version>, text: string)
    ensures FirstWithText(versions, text).None? <==> forall v <- versions :: VersionText(v) != text
    ensures FirstWithText(versions, text).Some? ==>
      FirstWithText(versions, text).value in versions && VersionText(FirstWithText(versions, text).value) == text
  {
    if versions != [] {
      assert versions == [versions[0]] + versions[1..];
      FixedChoice(versions[1..], text);
    }
  }

  // ---------- Version texts as queries ----------

  lemma {:induction false} UpToSeparator(a: string, b: string, c: char)
    requires c !in a && (b == "" || b[0] == c)
    ensures UpTo(a + b, c) == a
  {
    if a == "" {
      assert a + b == b;
    } else {
      assert (a + b)[1..] == a[1..] + b;
      assert a == [a[0]] + a[1..];
      UpToSeparator(a[1..], b, c);
    }
  }

  lemma DigitsAvoid(s: string, c: char)
    requires (forall i :: 0 <= i < |s| ==> '0' <= s[i] <= '9') && !('0' <= c <= '9')
    ensures c !in s
  {
  }

  lemma ThreeParts(a: string, b: string, c: string)
    requires '.' !in a && '.' !in b && '.' !in c
    ensures Split(a + "." + b + "." + c, '.') == [a, b, c]
  {
    SplitConcat(a + "." + b, c, '.');
    SplitConcat(a, b, '.');
    SplitOfOne(a, '.');
    SplitOfOne(b, '.');
    SplitOfOne(c, '.');
  }

  lemma NumbersDecide(v: Version, w: Version)
    requires NumbersText(v) == NumbersText(w)
    ensures v.major == w.major && v.minor == w.minor && v.patch == w.patch
  {
    DigitsAvoid(ToString(v.major), '.');
    DigitsAvoid(ToString(v.minor), '.');
    DigitsAvoid(ToString(v.patch), '.');
    DigitsAvoid(ToString(w.major), '.');
    DigitsAvoid(ToString(w.minor), '.');
    DigitsAvoid(ToString(w.patch), '.');
    ThreeParts(ToString(v.major), ToString(v.minor), ToString(v.patch));
    ThreeParts(ToString(w.major), ToString(w.minor), ToString(w.patch));
    var parts, parts' := Split(NumbersText(v), '.'), Split(NumbersText(w), '.');
    assert parts[0] == parts'[0] && parts[1] == parts'[1] && parts[2] == parts'[2];
    ValueOfToString(v.major);
    ValueOfToString(v.minor);
    ValueOfToString(v.patch);
    ValueOfToString(w.major);
    ValueOfToString(w.minor);
    ValueOfToString(w.patch);
  }

  lemma {:induction false} NumbersHaveNo(v: Version, c: char)
    requires c != '.' && !('0' <= c <= '9')
    ensures c !in NumbersText(v)
  {
    DigitsAvoid(ToString(v.major), c);
    DigitsAvoid(ToString(v.minor), c);
    DigitsAvoid(ToString(v.patch), c);
  }

  lemma BaseOfText(v: Version)
    ensures UpTo(VersionText(v), '-') == NumbersText(v)
  {
    NumbersHaveNo(v, '-');
    UpToSeparator(NumbersText(v), Tag(v.prerelease), '-');
  }

  /** Different versions have different texts. */
  lemma TextIsOwn(v: Version, w: Version)
    requires VersionText(v) == VersionText(w)
    ensures v == w
  {
    BaseOfText(v);
    BaseOfText(w);
    NumbersDecide(v, w);
    var n := |NumbersText(v)|;
    assert VersionText(v)[n..] == Tag(v.prerelease) && VersionText(w)[n..] == Tag(w.prerelease);
  }

  lemma {:induction false} ContainsFirst(s: string, part: string)
    requires part != "" && Contains(s, part)
    ensures part[0] in s
  {
    if !(part <= s) {
      ContainsFirst(s[1..], part);
    }
  }

  /** The text of a version is a query for that version alone. */
  lemma TextIsFixed(v: Version)
    ensures IsFixed(VersionText(v))
  {
    BaseOfText(v);
    forall c | c in {'>', '<', '*', '^', '~', 'x', 'l'}
      ensures c !in NumbersText(v)
    {
      NumbersHaveNo(v, c);
    }
    if Contains(NumbersText(v), "latest") {
      ContainsFirst(NumbersText(v), "latest");
    }
  }

  /** Asked by its text, a published version is the answer. */
  lemma TextResolves(index: Index, name: string, v: Version)
    requires v in Published(index, name) && name !in index.using && index.parses(VersionText(v))
    ensures ResolveVersion(index, LibraryQuery(name, VersionText(v))) ==
      Resolved(ResolvedQuery(name, VersionText(v), v, FullExportedSymbol(index, name, v)))
  {
    var text, listed := VersionText(v), ListAllVersions(index, name);
    TextIsFixed(v);
    PublishedIsListed(index, name, v);
    FixedChoice(listed.value, text);
    TextIsOwn(FirstWithText(listed.value, text).value, v);
  }

  lemma PublishedIsListed(index: Index, name: string, v: Version)
    requires v in Published(index, name)
    ensures ListAllVersions(index, name).Some? && v in ListAllVersions(index, name).value
  {
    if ListVersions(index, name) == [] {
      NothingListed(index, name);
    }
    SameMembers(index, name);
  }

  // ---------- Libraries known only from the extra index ----------

  /** The form in which the version at a place of the list is chosen. */
  function FormAt(versions: seq<Version>, i: nat): Version
    requires i < |versions|
  {
    if StripWip(versions[i]) in versions then StripWip(versions[i]) else versions[i]
  }

  /** A form of the version at place `j` stands before place `i`. */
  ghost predicate SeenBefore(versions: seq<Version>, i: nat, j: nat)
    requires i <= |versions| && j < |versions|
  {
    exists k :: 0 <= k < i && StripWip(versions[k]) == StripWip(versions[j])
  }

  /** The list descends, but for versions of which a form stood earlier. */
  ghost predicate FirstsDescend(versions: seq<Version>) {
    forall i, j {:trigger SeenBefore(versions, i, j)} :: 0 <= i < j < |versions| && !SeenBefore(versions, i, j) ==>
      GetVersionNumber(versions[j]) <= GetVersionNumber(FormAt(versions, i))
  }

  function InRange(range: set<Version>): (string, Version) -> bool {
    (_, v) => v in range
  }

  function WithRange(index: Index, range: set<Version>): Index {
    index.(satisfies := InRange(range))
  }

  /** The choice among the listed versions is the latest one. */
  ghost predicate ChoosesLatest(index: Index, query: string, versions: seq<Version>) {
    IsLatest(index, query, versions, Choose(index, query, versions))
  }

  lemma SameForm(versions: seq<Version>, k: nat, i: nat)
    requires k < |versions| && i < |versions| && StripWip(versions[k]) == StripWip(versions[i])
    ensures FormAt(versions, k) == FormAt(versions, i)
  {
    OneFormIsPublished(versions[k], versions);
    OneFormIsPublished(versions[i], versions);
  }

  lemma DescendingFirstsSuffice(index: Index, query: string, versions: seq<Version>)
    requires !IsFixed(query) && FirstsDescend(versions)
    ensures ChoosesLatest(index, query, versions)
  {
    var k := FirstInRangeIsFirst(index, query, versions);
    RangeChoiceIsCandidate(index, query, versions);
    if k < |versions| {
      ChosenForm(index, query, versions, k);
      forall v | Candidate(index, query, versions, v)
        ensures GetVersionNumber(v) <= GetVersionNumber(FormAt(versions, k))
      {
        LatestOfFirsts(index, query, versions, k, v);
      }
    }
  }

  lemma LatestOfFirsts(index: Index, query: string, versions: seq<Version>, k: nat, v: Version)
    requires FirstsDescend(versions) && k < |versions| && Candidate(index, query, versions, v)
    requires forall i :: 0 <= i < k ==> !index.satisfies(query, StripWip(versions[i]))
    ensures GetVersionNumber(v) <= GetVersionNumber(FormAt(versions, k))
  {
    var j :| 0 <= j < |versions| && versions[j] == v;
    if j == k {
      FormIsGreater(versions, k);
    } else {
      assert !SeenBefore(versions, k, j);
    }
  }

  /** A later version that is greater than an earlier choice is missed in the range of the two. */
  lemma DescendingFirstsAreNeeded(index: Index, query: string, versions: seq<Version>, i: nat, j: nat)
    requires !IsFixed(query) && i < j < |versions| && !SeenBefore(versions, i, j)
    requires GetVersionNumber(versions[j]) > GetVersionNumber(FormAt(versions, i))
    ensures !ChoosesLatest(WithRange(index, {StripWip(versions[i]), StripWip(versions[j])}), query, versions)
  {
    var narrow := WithRange(index, {StripWip(versions[i]), StripWip(versions[j])});
    var k := FirstInRangeIsFirst(narrow, query, versions);
    assert narrow.satisfies(query, StripWip(versions[i])) && narrow.satisfies(query, StripWip(versions[j]));
    assert k <= i;
    assert k < i ==> StripWip(versions[k]) != StripWip(versions[j]);
    assert StripWip(versions[k]) == StripWip(versions[i]);
    ChosenForm(narrow, query, versions, k);
    SameForm(versions, k, i);
    assert Candidate(narrow, query, versions, versions[j]);
  }

  /** Listed as they come, versions are chosen well in every range exactly when their first forms descend. */
  lemma ListedChoiceIsLatest(index: Index, query: string, versions: seq<Version>)
    requires !IsFixed(query)
    ensures (forall range: set<Version> :: ChoosesLatest(WithRange(index, range), query, versions)) <==>
            FirstsDescend(versions)
  {
    if FirstsDescend(versions) {
      forall range: set<Version>
        ensures ChoosesLatest(WithRange(index, range), query, versions)
      {
        DescendingFirstsSuffice(WithRange(index, range), query, versions);
      }
    } else {
      var i, j :| 0 <= i < j < |versions| && !SeenBefore(versions, i, j) &&
        GetVersionNumber(versions[j]) > GetVersionNumber(FormAt(versions, i));
      DescendingFirstsAreNeeded(index, query, versions, i, j);
    }
  }

  lemma NothingListed(index: Index, name: string)
    requires ListVersions(index, name) == []
    ensures DocumentVersions(index.documents, name) == [] && Published(index, name) == ExtraVersions(index.extra, name)
  {
    var docs := DocumentVersions(index.documents, name);
    ReversedMultiset(SortByText(docs));
    assert |docs| == |multiset(docs)| == |multiset(ListVersions(index, name))| == 0;
  }

  /** The answer in a given range is the latest published version of that range. */
  ghost predicate AnswersLatest(index: Index, q: LibraryQuery, range: set<Version>) {
    IsLatest(WithRange(index, range), EffectiveQuery(index, q), Published(index, q.name),
      VersionOf(ResolveVersion(WithRange(index, range), q)))
  }

  lemma AnswerIsListedChoice(index: Index, q: LibraryQuery, range: set<Version>)
    requires index.parses(EffectiveQuery(index, q)) && !IsFixed(EffectiveQuery(index, q))
    requires ListVersions(index, q.name) == [] && ExtraVersions(index.extra, q.name) != []
    ensures AnswersLatest(index, q, range) <==>
      ChoosesLatest(WithRange(index, range), EffectiveQuery(index, q), ExtraVersions(index.extra, q.name))
  {
    var narrow := WithRange(index, range);
    NothingListed(index, q.name);
    assert EffectiveQuery(narrow, q) == EffectiveQuery(index, q);
    assert ListVersions(narrow, q.name) == ListVersions(index, q.name);
    assert ListAllVersions(narrow, q.name) == Some(ExtraVersions(index.extra, q.name));
  }

  /**
    For a library that only the extra index knows, a range query is answered with the latest version
    in whatever range exactly when the extra index lists its versions latest first, but for forms of
    a version listed earlier.
   */
  lemma ExtraOnlyIsLatestIfSorted(index: Index, q: LibraryQuery)
    requires index.parses(EffectiveQuery(index, q)) && !IsFixed(EffectiveQuery(index, q))
    requires ListVersions(index, q.name) == [] && ExtraVersions(index.extra, q.name) != []
    ensures (forall range: set<Version> :: AnswersLatest(index, q, range)) <==>
            FirstsDescend(ExtraVersions(index.extra, q.name))
  {
    var query, versions := EffectiveQuery(index, q), ExtraVersions(index.extra, q.name);
    forall range: set<Version>
      ensures AnswersLatest(index, q, range) <==> ChoosesLatest(WithRange(index, range), query, versions)
    {
      AnswerIsListedChoice(index, q, range);
    }
    ListedChoiceIsLatest(index, query, versions);
  }

  /** Known only from the extra index, versions are not sorted: the first in range is taken. */
  lemma ExtraOnlyIsNotSorted(index: Index, earlier: Library, later: Library, q: LibraryQuery)
    requires index.documents == [] && index.extra == [earlier, later] && earlier.name == later.name == q.name
    requires earlier.version == Version(1, 0, 0, NoTag) && later.version == Version(2, 0, 0, NoTag)
    requires index.parses(EffectiveQuery(index, q)) && !IsFixed(EffectiveQuery(index, q))
    requires index.satisfies(EffectiveQuery(index, q), earlier.version) &&
             index.satisfies(EffectiveQuery(index, q), later.version)
    ensures ResolveVersion(index, q).Resolved? && ResolveVersion(index, q).entry.version == earlier.version
  {
    assert ListVersions(index, q.name) == [];
    assert index.extra[1..] == [later] && index.extra[1..][1..] == [];
    assert ExtraVersions(index.extra[1..][1..], q.name) == [];
    assert ExtraVersions(index.extra, q.name) == [earlier.version, later.version];
  }
}
