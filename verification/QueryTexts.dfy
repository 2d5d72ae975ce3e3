/** What the texts of queries and of versions mean for the choice of a version. */
module QueryTexts {
  import opened CdnModel
  import opened Decimal
  import opened Text
  import opened VersionIndexing
  import opened VersionSelection
  import opened Wrappers

  // ---------- Which queries are fixed ----------

  /** The part of the text before place `i` holds no dash. */
  ghost predicate InBase(query: string, i: int) {
    0 <= i <= |query| && forall j :: 0 <= j < i ==> query[j] != '-'
  }

  ghost predicate RangeCharacterAt(query: string, i: int) {
    0 <= i && InBase(query, i + 1) && query[i] in {'>', '<', '*', '^', '~', 'x'}
  }

  ghost predicate LatestWordAt(query: string, i: int) {
    InBase(query, i + 6) && PartAt(query, "latest", i)
  }

  /** The text asks for a range: a range character, an `x` or the word `latest` stands before any dash. */
  ghost predicate AsksRange(query: string) {
    (exists i :: RangeCharacterAt(query, i)) || (exists i :: LatestWordAt(query, i))
  }

  lemma {:induction false} UpToIsBase(s: string, c: char)
    ensures UpTo(s, c) <= s && c !in UpTo(s, c)
    ensures |UpTo(s, c)| < |s| ==> s[|UpTo(s, c)|] == c
  {
    if s != "" && s[0] != c {
      UpToIsBase(s[1..], c);
      assert s == [s[0]] + s[1..];
    }
  }

  /** The base of a query reaches exactly to its first dash. */
  lemma BaseReaches(query: string, i: int)
    ensures InBase(query, i) <==> 0 <= i <= |UpTo(query, '-')|
  {
    UpToIsBase(query, '-');
    var base := UpTo(query, '-');
    assert forall j :: 0 <= j < |base| ==> query[j] == base[j] && base[j] in base;
  }

  /** A query is fixed exactly if it asks for no range. */
  lemma FixedExactly(query: string)
    ensures IsFixed(query) <==> !AsksRange(query)
  {
    var base := UpTo(query, '-');
    UpToIsBase(query, '-');
    ContainsAt(base, "latest");
    forall i
      ensures InBase(query, i) <==> 0 <= i <= |base|
    {
      BaseReaches(query, i);
    }
    RangeCharacters(query, base);
    LatestWords(query, base);
  }

  lemma RangeCharacters(query: string, base: string)
    requires base <= query && forall i :: InBase(query, i) <==> 0 <= i <= |base|
    ensures (exists i :: RangeCharacterAt(query, i)) <==> exists c <- base :: c in {'>', '<', '*', '^', '~', 'x'}
  {
    if c :| c in base && c in {'>', '<', '*', '^', '~', 'x'} {
      var i :| 0 <= i < |base| && base[i] == c;
      assert RangeCharacterAt(query, i);
    }
    if i :| RangeCharacterAt(query, i) {
      assert i + 1 <= |base|;
      assert base[i] == query[i] && base[i] in base;
    }
  }

  lemma LatestWords(query: string, base: string)
    requires base <= query && forall i :: InBase(query, i) <==> 0 <= i <= |base|
    ensures (exists i :: LatestWordAt(query, i)) <==> exists i :: PartAt(base, "latest", i)
  {
    if i :| PartAt(base, "latest", i) {
      assert query[i..i + 6] == base[i..i + 6];
      assert LatestWordAt(query, i);
    }
    if i :| LatestWordAt(query, i) {
      assert i + 6 <= |base| && base[i..i + 6] == query[i..i + 6];
      assert PartAt(base, "latest", i);
    }
  }

  // ---------- Usual forms of a range ----------

  datatype Range =
    | Caret(v: Version)
    | Tilde(v: Version)
    | Above(v: Version)
    | From(v: Version)
    | Below(v: Version)
    | NotAbove(v: Version)
    | InMajor(major: nat)
    | InMinor(major: nat, minor: nat)
    | Any
    | Latest

  function RangeText(r: Range): string {
    match r
    case Caret(v) => "^" + VersionText(v)
    case Tilde(v) => "~" + VersionText(v)
    case Above(v) => ">" + VersionText(v)
    case From(v) => ">=" + VersionText(v)
    case Below(v) => "<" + VersionText(v)
    case NotAbove(v) => "<=" + VersionText(v)
    case InMajor(major) => ToString(major) + ".x"
    case InMinor(major, minor) => ToString(major) + "." + ToString(minor) + ".x"
    case Any => "*"
    case Latest => "latest"
  }

  lemma StartsAsRange(query: string)
    requires query != "" && query[0] in {'>', '<', '*', '^', '~'}
    ensures AsksRange(query)
  {
    assert RangeCharacterAt(query, 0);
  }

  lemma EndsAsRange(s: string)
    requires '-' !in s
    ensures AsksRange(s + ".x")
  {
    var query := s + ".x";
    assert forall j :: 0 <= j < |s| ==> query[j] == s[j] && s[j] in s;
    assert RangeCharacterAt(query, |s| + 1);
  }

  lemma RangeTextAsks(r: Range)
    ensures AsksRange(RangeText(r))
  {
    match r
    case InMajor(major) =>
      EndsAsRange(ToString(major));
    case InMinor(major, minor) =>
      assert RangeText(r) == (ToString(major) + "." + ToString(minor)) + ".x";
      EndsAsRange(ToString(major) + "." + ToString(minor));
    case Latest =>
      assert LatestWordAt("latest", 0);
    case _ =>
      StartsAsRange(RangeText(r));
  }

  /**
    A query in a usual range form, its own or imposed, for a library of the database is answered
    with the latest published version in the range.
   */
  lemma LatestInRange(index: Index, q: LibraryQuery, r: Range)
    requires RangeText(r) == if q.name in index.using then index.using[q.name] else q.version
    requires index.parses(RangeText(r)) && exists d <- index.documents :: d.name == q.name
    ensures !ResolveVersion(index, q).Dropped?
    ensures IsLatest(index, RangeText(r), Published(index, q.name), VersionOf(ResolveVersion(index, q)))
  {
    RangeTextAsks(r);
    FixedExactly(RangeText(r));
    DocumentIsListed(index, q.name);
    LatestCompatible(index, q);
  }

  lemma DocumentIsListed(index: Index, name: string)
    requires exists d <- index.documents :: d.name == name
    ensures ListVersions(index, name) != []
  {
    var d :| d in index.documents && d.name == name;
    assert d.version in DocumentVersions(index.documents, name);
    ReversedMultiset(SortByText(DocumentVersions(index.documents, name)));
    MembersOf(ListVersions(index, name), DocumentVersions(index.documents, name));
  }

  // ---------- Texts of versions ----------

  /** Before the dash stand the three numbers, separated by points. */
  lemma TextHasNumbers(v: Version)
    ensures Split(UpTo(VersionText(v), '-'), '.') == [ToString(v.major), ToString(v.minor), ToString(v.patch)]
  {
    BaseOfText(v);
    DigitsAvoid(ToString(v.major), '.');
    DigitsAvoid(ToString(v.minor), '.');
    DigitsAvoid(ToString(v.patch), '.');
    ThreeParts(ToString(v.major), ToString(v.minor), ToString(v.patch));
  }

  ghost predicate EndsWithWip(v: Version) {
    exists w :: VersionText(v) == VersionText(w) + "-wip"
  }

  /** Only the texts of the tags with `wip` end with a `p`. */
  lemma LastCharacter(v: Version)
    ensures VersionText(v)[|VersionText(v)| - 1] == 'p' <==> v.prerelease in {Wip, AlphaWip, BetaWip}
  {
    var text, numbers, tag := VersionText(v), NumbersText(v), Tag(v.prerelease);
    assert text == numbers + tag;
    if tag != "" {
      assert text[|text| - 1] == tag[|tag| - 1];
    } else {
      var patch := ToString(v.patch);
      assert text[|text| - 1] == patch[|patch| - 1];
    }
  }

  /** Stripping takes the final `-wip` off the text, if there is one, and leaves the others alone. */
  lemma StripTakesWip(v: Version)
    ensures if EndsWithWip(v) then VersionText(v) == VersionText(StripWip(v)) + "-wip" else StripWip(v) == v
    ensures !EndsWithWip(StripWip(v))
  {
    TagWithWip(v);
    forall w, u | VersionText(u) == VersionText(w) + "-wip"
      ensures u.prerelease in {Wip, AlphaWip, BetaWip}
    {
      LastCharacter(u);
      assert VersionText(u)[|VersionText(u)| - 1] == "-wip"[3];
    }
  }

  lemma TagWithWip(v: Version)
    ensures v.prerelease in {Wip, AlphaWip, BetaWip} ==> VersionText(v) == VersionText(StripWip(v)) + "-wip"
  {
    var s := StripWip(v);
    assert "-alpha-wip" == "-alpha" + "-wip" && "-beta-wip" == "-beta" + "-wip" && "-wip" == "" + "-wip";
    if v.prerelease in {Wip, AlphaWip, BetaWip} {
      assert Tag(v.prerelease) == Tag(s.prerelease) + "-wip";
      assert VersionText(v) == NumbersText(s) + (Tag(s.prerelease) + "-wip") == VersionText(s) + "-wip";
    }
  }

  /** Adding puts `-wip` after the text, when that is the text of a version. */
  lemma AddPutsWip(v: Version, w: Version)
    ensures AddWip(v) == Some(w) <==> VersionText(w) == VersionText(v) + "-wip"
  {
    if AddWip(v) == Some(w) {
      TagWithWip(w);
    }
    if VersionText(w) == VersionText(v) + "-wip" {
      StripTakesWip(w);
      assert EndsWithWip(w);
      assert VersionText(w)[..|VersionText(w)| - 4] == VersionText(v);
      assert VersionText(w)[..|VersionText(w)| - 4] == VersionText(StripWip(w));
      TextIsOwn(v, StripWip(w));
    }
  }

  // ---------- Keys of compatible versions ----------

  /** Versions with the same first number that is not zero, at the same place, or patches of 0.0. */
  ghost predicate SameLine(v: Version, w: Version) {
    if v.major > 0 || w.major > 0 then v.major == w.major
    else if v.minor > 0 || w.minor > 0 then v.minor == w.minor
    else v.patch == w.patch
  }

  lemma {:induction false} NoLeadingZero(n: nat)
    requires n > 0
    ensures ToString(n)[0] != '0'
  {
    if n >= 10 {
      NoLeadingZero(n / 10);
    }
  }

  /** What the key of a version starts with tells which of its numbers is the first that is not zero. */
  lemma ApiKeyStart(v: Version)
    ensures v.major > 0 ==> ApiKey(v)[0] != '0'
    ensures v.major == 0 && v.minor > 0 ==> |ApiKey(v)| > 1 && ApiKey(v)[0] == '0' && ApiKey(v)[1] != '0'
    ensures v.major == 0 && v.minor == 0 ==> |ApiKey(v)| > 1 && ApiKey(v)[0] == '0' && ApiKey(v)[1] == '0'
  {
    if v.major > 0 {
      NoLeadingZero(v.major);
    } else if v.minor > 0 {
      NoLeadingZero(v.minor);
    }
  }

  /** Two versions have one key, and so share the symbols of their library, exactly if they are of one line. */
  lemma ApiKeyIsLine(v: Version, w: Version)
    ensures ApiKey(v) == ApiKey(w) <==> SameLine(v, w)
  {
    ApiKeyStart(v);
    ApiKeyStart(w);
    if ApiKey(v) == ApiKey(w) {
      if v.major > 0 {
        ValueOfToString(v.major);
        ValueOfToString(w.major);
      } else if v.minor > 0 {
        assert ApiKey(v)[1..] == ToString(v.minor) && ApiKey(w)[1..] == ToString(w.minor);
        ValueOfToString(v.minor);
        ValueOfToString(w.minor);
      } else {
        assert ApiKey(v)[2..] == ToString(v.patch) && ApiKey(w)[2..] == ToString(w.patch);
        ValueOfToString(v.patch);
        ValueOfToString(w.patch);
      }
    }
  }
}
