/** Matching the method and the path of a request with a pattern of path segments and wildcards. */
module UrlMatch {
  import opened Sequences
  import opened Text
  import opened Wrappers

  datatype Capture = Part(text: string) | Tail(parts: seq<string>)

  datatype Outcome = ValueError | NoMatch | Match(replaced: seq<Capture>)

  // ---------- What a pattern means ----------

  /** The segments end with `**`, which stands for any number of path segments. */
  predicate HasTail(segments: seq<string>) {
    segments != [] && segments[|segments| - 1] == "**"
  }

  /** The number of segments that stand for one path segment each. */
  function FixedCount(segments: seq<string>): (n: nat)
    ensures n <= |segments|
  {
    if HasTail(segments) then |segments| - 1 else |segments|
  }

  predicate MisplacedTail(segments: seq<string>) {
    exists i :: 0 <= i < |segments| - 1 && segments[i] == "**"
  }

  predicate Fits(part: string, segment: string) {
    segment == "*" || part == segment
  }

  /** The path matches segment by segment. */
  predicate SegmentsMatch(parts: seq<string>, segments: seq<string>) {
    && (if HasTail(segments) then |parts| >= |segments| - 1 else |parts| == |segments|)
    && forall i :: 0 <= i < FixedCount(segments) ==> Fits(parts[i], segments[i])
  }

  /** What is captured: a segment that differs from its `*`, and the segments under `**` if there are any. */
  function Captures(parts: seq<string>, segments: seq<string>): seq<Capture> {
    if parts == [] || segments == [] then []
    else if segments == ["**"] then [Tail(NonEmpty(parts))]
    else (if parts[0] != segments[0] then [Part(parts[0])] else []) + Captures(parts[1..], segments[1..])
  }

  function MethodCapture(verb: string, expected: string): seq<Capture> {
    if expected == "*" then [Part(verb)] else []
  }

  function Matching(verb: string, path: string, pattern: string): Outcome {
    var sides := Split(pattern, ':');
    if |sides| != 2 then ValueError
    else if !Fits(verb, sides[0]) then NoMatch
    else
      var parts, segments := Split(path, '/'), Split(sides[1], '/');
      if MisplacedTail(segments) then ValueError
      else if SegmentsMatch(parts, segments) then Match(MethodCapture(verb, sides[0]) + Captures(parts, segments))
      else NoMatch
  }

  // ---------- The loop ----------

  lemma CaptureStep(parts: seq<string>, segments: seq<string>, i: nat, replaced: seq<Capture>)
    requires i < |parts| && i < FixedCount(segments) && Fits(parts[i], segments[i])
    ensures replaced + Captures(parts[i..], segments[i..]) ==
      (if parts[i] == segments[i] then replaced else replaced + [Part(parts[i])]) +
        Captures(parts[i + 1..], segments[i + 1..])
  {
    assert parts[i..][1..] == parts[i + 1..] && segments[i..][1..] == segments[i + 1..];
    assert segments[i..][|segments| - 1 - i] == segments[|segments| - 1];
  }

  method MatchParts(parts: seq<string>, segments: seq<string>, captured: seq<Capture>) returns (r: Outcome)
    requires parts != [] && segments != []
    ensures r ==
      if MisplacedTail(segments) then ValueError
      else if SegmentsMatch(parts, segments) then Match(captured + Captures(parts, segments))
      else NoMatch
  {
    var last := |segments| - 1;
    if "**" !in segments && |parts| != |segments| {
      return NoMatch;
    }
    if MisplacedTail(segments) {
      return ValueError;
    }
    var replaced := captured;
    for i := 0 to |parts|
      invariant i <= |segments| && (HasTail(segments) ==> i <= last)
      invariant forall j :: 0 <= j < i ==> Fits(parts[j], segments[j])
      invariant replaced + Captures(parts[i..], segments[i..]) == captured + Captures(parts, segments)
      invariant 0 < i == |parts| < |segments| ==> segments[i] == "**"
    {
      if i >= |segments| {
        return NoMatch;
      }
      if i >= last && segments[last] == "**" {
        assert segments[i..] == ["**"];
        return Match(replaced + [Tail(NonEmpty(parts[i..]))]);
      }
      if i == |parts| - 1 && i + 1 < |segments| && segments[i + 1] != "**" {
        return NoMatch;
      }
      if !Fits(parts[i], segments[i]) {
        return NoMatch;
      }
      CaptureStep(parts, segments, i, replaced);
      if parts[i] != segments[i] {
        replaced := replaced + [Part(parts[i])];
      }
    }
    r := Match(replaced);
  }

  method UrlMatch(verb: string, path: string, pattern: string) returns (r: Outcome)
    ensures r == Matching(verb, path, pattern)
  {
    var sides := Split(pattern, ':');
    if |sides| != 2 {
      return ValueError;
    }
    if sides[0] != "*" && sides[0] != verb {
      return NoMatch;
    }
    var replaced := [];
    if sides[0] == "*" {
      replaced := [Part(verb)];
    }
    r := MatchParts(Split(path, '/'), Split(sides[1], '/'), replaced);
  }

  // ---------- What the captures are worth ----------

  /** The segments with the captures in the places of the wildcards, in order; all must be used. */
  function Rebuild(segments: seq<string>, replaced: seq<Capture>): Option<seq<string>> {
    if segments == [] then if replaced == [] then Some([]) else None
    else if segments == ["**"] then
      if replaced == [] then Some([])
      else if |replaced| == 1 && replaced[0].Tail? then Some(replaced[0].parts)
      else None
    else if segments[0] == "*" then
      if replaced == [] || replaced[0].Tail? then None
      else Before(replaced[0].text, Rebuild(segments[1..], replaced[1..]))
    else Before(segments[0], Rebuild(segments[1..], replaced))
  }

  function Before(part: string, rest: Option<seq<string>>): Option<seq<string>> {
    match rest
    case None => None
    case Some(parts) => Some([part] + parts)
  }

  /** The path without the empty segments of its tail. */
  function Squeezed(parts: seq<string>, segments: seq<string>): seq<string>
    requires |parts| >= FixedCount(segments)
  {
    parts[..FixedCount(segments)] + NonEmpty(parts[FixedCount(segments)..])
  }

  /** A segment of the path that is `*` itself, in the place of a `*`. */
  predicate IsLiteralStar(parts: seq<string>, segments: seq<string>, i: nat) {
    i < |parts| && i < |segments| && parts[i] == segments[i] == "*"
  }

  predicate NoLiteralStar(parts: seq<string>, segments: seq<string>) {
    forall i :: 0 <= i < |parts| ==> !IsLiteralStar(parts, segments, i)
  }

  lemma StarsOfRest(parts: seq<string>, segments: seq<string>)
    requires parts != [] && segments != []
    ensures NoLiteralStar(parts, segments) <==>
            !(parts[0] == segments[0] == "*") && NoLiteralStar(parts[1..], segments[1..])
  {
    var p, s := parts[1..], segments[1..];
    assert IsLiteralStar(parts, segments, 0) <==> parts[0] == segments[0] == "*";
    forall i | 0 <= i < |p|
      ensures IsLiteralStar(p, s, i) == IsLiteralStar(parts, segments, i + 1)
    {
    }
    forall i | 0 < i < |parts|
      ensures IsLiteralStar(parts, segments, i) == IsLiteralStar(p, s, i - 1)
    {
    }
  }

  lemma RestMatches(parts: seq<string>, segments: seq<string>)
    requires SegmentsMatch(parts, segments) && !MisplacedTail(segments) && FixedCount(segments) > 0
    ensures parts != [] && segments[0] != "**" && Fits(parts[0], segments[0])
    ensures SegmentsMatch(parts[1..], segments[1..]) && !MisplacedTail(segments[1..])
    ensures Squeezed(parts, segments) == [parts[0]] + Squeezed(parts[1..], segments[1..])
  {
    var p, s := parts[1..], segments[1..];
    assert FixedCount(s) == FixedCount(segments) - 1;
    assert forall i :: 0 <= i < |s| ==> s[i] == segments[i + 1];
    assert forall i :: 0 <= i < |p| ==> p[i] == parts[i + 1];
    assert parts[FixedCount(segments)..] == p[FixedCount(s)..];
  }

  /** The number of `*` among the segments. */
  function Stars(segments: seq<string>): nat {
    if segments == [] then 0 else (if segments[0] == "*" then 1 else 0) + Stars(segments[1..])
  }

  function PartCount(replaced: seq<Capture>): nat {
    if replaced == [] then 0 else (if replaced[0].Part? then 1 else 0) + PartCount(replaced[1..])
  }

  /** Captures that rebuild a path have one part for each `*`. */
  lemma {:induction false} RebuildUsesAllParts(segments: seq<string>, replaced: seq<Capture>)
    requires Rebuild(segments, replaced).Some?
    ensures PartCount(replaced) == Stars(segments)
  {
    if segments != [] && segments != ["**"] {
      RebuildUsesAllParts(segments[1..], if segments[0] == "*" then replaced[1..] else replaced);
    }
  }

  /** There are fewer captured parts than `*` as soon as one of them matched itself. */
  lemma {:induction false} PartsOfCaptures(parts: seq<string>, segments: seq<string>)
    requires SegmentsMatch(parts, segments) && !MisplacedTail(segments)
    ensures PartCount(Captures(parts, segments)) <= Stars(segments)
    ensures PartCount(Captures(parts, segments)) == Stars(segments) <==> NoLiteralStar(parts, segments)
    decreases |segments|
  {
    if FixedCount(segments) > 0 {
      RestMatches(parts, segments);
      StarsOfRest(parts, segments);
      PartsOfCaptures(parts[1..], segments[1..]);
      var rest := Captures(parts[1..], segments[1..]);
      assert ([Part(parts[0])] + rest)[1..] == rest && [] + rest == rest;
    } else {
      assert segments == [] || segments == ["**"];
    }
  }

  /** Without a `*` that matched itself, the captures give the path back, up to empty segments of the tail. */
  lemma {:induction false} CapturesRebuild(parts: seq<string>, segments: seq<string>)
    requires SegmentsMatch(parts, segments) && !MisplacedTail(segments) && NoLiteralStar(parts, segments)
    ensures Rebuild(segments, Captures(parts, segments)) == Some(Squeezed(parts, segments))
    decreases |segments|
  {
    if FixedCount(segments) > 0 {
      RestMatches(parts, segments);
      StarsOfRest(parts, segments);
      CapturesRebuild(parts[1..], segments[1..]);
      var rest := Captures(parts[1..], segments[1..]);
      assert ([Part(parts[0])] + rest)[1..] == rest && [] + rest == rest;
    } else {
      assert segments == [] || segments == ["**"];
      assert parts[0..] == parts && Squeezed(parts, segments) == NonEmpty(parts);
    }
  }

  predicate HasTailCapture(replaced: seq<Capture>) {
    replaced != [] && replaced[|replaced| - 1].Tail?
  }

  /** The tail is captured exactly when the path has at least as many segments as the pattern. */
  lemma {:induction false} TailIsCaptured(parts: seq<string>, segments: seq<string>)
    requires SegmentsMatch(parts, segments) && !MisplacedTail(segments)
    ensures HasTailCapture(Captures(parts, segments)) <==> HasTail(segments) && |parts| >= |segments|
    decreases |segments|
  {
    if FixedCount(segments) > 0 {
      RestMatches(parts, segments);
      TailIsCaptured(parts[1..], segments[1..]);
      assert HasTail(segments[1..]) <==> HasTail(segments);
    } else {
      assert segments == [] || segments == ["**"];
    }
  }

  /**
    Putting the captures of a match in the places of the wildcards gives the path back, up to empty
    segments of the tail, exactly when no `*` of the pattern matched the text `*` itself.
   */
  lemma MatchRebuildsPath(parts: seq<string>, segments: seq<string>, replaced: seq<Capture>)
    requires SegmentsMatch(parts, segments) && !MisplacedTail(segments) && replaced == Captures(parts, segments)
    ensures Rebuild(segments, replaced).Some? <==> NoLiteralStar(parts, segments)
    ensures Rebuild(segments, replaced).Some? ==> Rebuild(segments, replaced).value == Squeezed(parts, segments)
  {
    PartsOfCaptures(parts, segments);
    if NoLiteralStar(parts, segments) {
      CapturesRebuild(parts, segments);
    }
    if Rebuild(segments, replaced).Some? {
      RebuildUsesAllParts(segments, replaced);
    }
  }

  /** Nothing is squeezed out of a path without empty tail segments: its text is given back. */
  lemma RebuiltText(path: string, parts: seq<string>, segments: seq<string>)
    requires parts == Split(path, '/') && SegmentsMatch(parts, segments)
    requires "" !in parts[FixedCount(segments)..]
    ensures Join(Squeezed(parts, segments), '/') == path
  {
    var n := FixedCount(segments);
    AllNonEmpty(parts[n..]);
    assert parts == parts[..n] + parts[n..];
    JoinSplit(path, '/');
  }

  // ---------- What is matched, and what is captured ----------

  /** The path fits the segments: each fits its own, and any number of them a final `**`. */
  ghost predicate PathFits(parts: seq<string>, segments: seq<string>)
    requires segments != []
  {
    var n := |segments| - 1;
    if segments[n..] == ["**"]
    then |parts| >= n && forall i :: 0 <= i < n ==> segments[i] == "*" || parts[i] == segments[i]
    else |parts| == n + 1 && forall i :: 0 <= i <= n ==> segments[i] == "*" || parts[i] == segments[i]
  }

  /** The segments of the path over those of the pattern that stand for one each. */
  ghost function Pairs(parts: seq<string>, segments: seq<string>): (r: seq<(string, string)>)
    ensures |r| <= |parts| && |r| <= |segments| && forall i :: 0 <= i < |r| ==> r[i] == (parts[i], segments[i])
    ensures |r| == |parts| || |r| == |segments| || segments[|r|..] == ["**"]
  {
    if parts == [] || segments == [] || segments == ["**"] then []
    else
      var rest := Pairs(parts[1..], segments[1..]);
      assert forall i :: 0 < i < |rest| + 1 ==> parts[i] == parts[1..][i - 1] && segments[i] == segments[1..][i - 1];
      assert segments[|rest| + 1..] == segments[1..][|rest|..];
      [(parts[0], segments[0])] + rest
  }

  ghost function Differ(): ((string, string)) -> bool {
    (p: (string, string)) => p.0 != p.1
  }

  ghost function NotEmpty(): string -> bool {
    (part: string) => part != ""
  }

  ghost function AsParts(pairs: seq<(string, string)>): (r: seq<Capture>)
    ensures |r| == |pairs| && forall i :: 0 <= i < |r| ==> r[i] == Part(pairs[i].0)
  {
    seq(|pairs|, i requires 0 <= i < |pairs| => Part(pairs[i].0))
  }

  /**
    The captures are, in order, the segments of the path that differ from theirs in the pattern, and
    then, if the path reaches a final `**`, its segments from there on without the empty ones.
   */
  ghost predicate AreCaptures(parts: seq<string>, segments: seq<string>, captures: seq<Capture>) {
    exists kept, tail :: AreMade(parts, segments, kept, tail, captures)
  }

  ghost predicate AreMade(parts: seq<string>, segments: seq<string>, kept: seq<(string, string)>, tail: seq<string>,
                          captures: seq<Capture>) {
    var pairs := Pairs(parts, segments);
    && IsFilter(kept, pairs, Differ()) && IsFilter(tail, parts[|pairs|..], NotEmpty())
    && captures == AsParts(kept) + if |pairs| < |parts| && |pairs| < |segments| then [Tail(tail)] else []
  }

  lemma {:induction false} NonEmptyIsFilter(parts: seq<string>, r: seq<string>)
    requires r == NonEmpty(parts)
    ensures IsFilter(r, parts, NotEmpty())
  {
    if parts == [] {
      EmptyFilter(NotEmpty());
    } else {
      var init, last := parts[..|parts| - 1], parts[|parts| - 1];
      assert parts == init + [last];
      NonEmptyAppend(init, last);
      NonEmptyIsFilter(init, NonEmpty(init));
      FilterExtended(NonEmpty(init), init, last, NotEmpty(), r, parts);
    }
  }

  lemma {:induction false} CapturesAreExact(parts: seq<string>, segments: seq<string>)
    ensures AreCaptures(parts, segments, Captures(parts, segments))
  {
    if parts == [] || segments == [] || segments == ["**"] {
      NonEmptyIsFilter(parts, NonEmpty(parts));
      EmptyFilter(Differ());
      assert parts[0..] == parts && AsParts([]) == [];
      assert AreMade(parts, segments, [], NonEmpty(parts), Captures(parts, segments));
    } else {
      CapturesAreExact(parts[1..], segments[1..]);
      var kept, tail :| AreMade(parts[1..], segments[1..], kept, tail, Captures(parts[1..], segments[1..]));
      CapturesOfMore(parts, segments, kept, tail);
    }
  }

  lemma PairsOfMore(parts: seq<string>, segments: seq<string>)
    requires parts != [] && segments != [] && segments != ["**"]
    ensures Pairs(parts, segments) == [(parts[0], segments[0])] + Pairs(parts[1..], segments[1..])
    ensures parts[|Pairs(parts, segments)|..] == parts[1..][|Pairs(parts[1..], segments[1..])|..]
  {
  }

  lemma CapturesOfMore(parts: seq<string>, segments: seq<string>, kept: seq<(string, string)>, tail: seq<string>)
    requires parts != [] && segments != [] && segments != ["**"]
    requires AreMade(parts[1..], segments[1..], kept, tail, Captures(parts[1..], segments[1..]))
    ensures AreCaptures(parts, segments, Captures(parts, segments))
  {
    var p := (parts[0], segments[0]);
    var more := if p.0 != p.1 then [p] + kept else kept;
    PairsOfMore(parts, segments);
    assert IsFilter(more, Pairs(parts, segments), Differ()) by {
      FilterPrepended(p, kept, Pairs(parts[1..], segments[1..]), Differ());
    }
    CapturesOfFirst(parts, segments, kept, tail, more);
    assert AreMade(parts, segments, more, tail, Captures(parts, segments));
  }

  lemma CapturesOfFirst(parts: seq<string>, segments: seq<string>, kept: seq<(string, string)>, tail: seq<string>,
                        more: seq<(string, string)>)
    requires parts != [] && segments != [] && segments != ["**"]
    requires var pairs := Pairs(parts[1..], segments[1..]);
      Captures(parts[1..], segments[1..]) ==
        AsParts(kept) + if |pairs| < |parts| - 1 && |pairs| < |segments| - 1 then [Tail(tail)] else []
    requires more == if parts[0] != segments[0] then [(parts[0], segments[0])] + kept else kept
    ensures var pairs := Pairs(parts, segments);
      Captures(parts, segments) ==
        AsParts(more) + if |pairs| < |parts| && |pairs| < |segments| then [Tail(tail)] else []
  {
    PairsOfMore(parts, segments);
    var first := if parts[0] != segments[0] then [Part(parts[0])] else [];
    var end := if |Pairs(parts, segments)| < |parts| && |Pairs(parts, segments)| < |segments| then [Tail(tail)] else [];
    AsPartsOfMore(parts[0], segments[0], kept, more);
    Regrouped(first, AsParts(kept), end);
  }

  lemma AsPartsOfMore(part: string, segment: string, kept: seq<(string, string)>, more: seq<(string, string)>)
    requires more == if part != segment then [(part, segment)] + kept else kept
    ensures AsParts(more) == (if part != segment then [Part(part)] else []) + AsParts(kept)
  {
  }

  lemma Regrouped(a: seq<Capture>, b: seq<Capture>, c: seq<Capture>)
    ensures a + (b + c) == (a + b) + c
  {
  }

  /**
    The request against a pattern `method:segments`: what it answers on every method, path and
    pattern, in terms of the segments between the slashes.
   */
  lemma MatchingExactly(verb: string, parts: seq<string>, expected: string, segments: seq<string>, r: Outcome)
    requires parts != [] && (forall part <- parts :: '/' !in part)
    requires segments != [] && (forall s <- segments :: '/' !in s && ':' !in s) && ':' !in expected
    requires r == Matching(verb, Join(parts, '/'), expected + ":" + Join(segments, '/'))
    ensures expected != "*" && expected != verb ==> r == NoMatch
    ensures expected == "*" || expected == verb ==>
      && (r.ValueError? <==> exists i :: 0 <= i < |segments| - 1 && segments[i] == "**")
      && (r.Match? <==> !r.ValueError? && PathFits(parts, segments))
      && (r.Match? ==> exists captures ::
            && AreCaptures(parts, segments, captures)
            && r.replaced == (if expected == "*" then [Part(verb)] else []) + captures)
  {
    var path, tail := Join(parts, '/'), Join(segments, '/');
    var pattern := expected + ":" + tail;
    SidesOfPattern(expected, segments);
    assert Split(path, '/') == parts by { SplitJoin(parts, '/'); }
    assert Split(tail, '/') == segments by { SplitJoin(segments, '/'); }
    CapturesAreExact(parts, segments);
    FitsIsMatch(parts, segments);
    MatchingOfSides(verb, path, pattern, expected, tail, parts, segments);
  }

  lemma SidesOfPattern(expected: string, segments: seq<string>)
    requires segments != [] && (forall s <- segments :: ':' !in s) && ':' !in expected
    ensures Split(expected + ":" + Join(segments, '/'), ':') == [expected, Join(segments, '/')]
  {
    JoinAvoids(segments, ':');
    SplitOfOne(expected, ':');
    SplitOfOne(Join(segments, '/'), ':');
    SplitConcat(expected, Join(segments, '/'), ':');
  }

  lemma MatchingOfSides(verb: string, path: string, pattern: string, expected: string, tail: string,
                        parts: seq<string>, segments: seq<string>)
    requires Split(pattern, ':') == [expected, tail] && Split(path, '/') == parts && Split(tail, '/') == segments
    ensures Matching(verb, path, pattern) ==
      if !Fits(verb, expected) then NoMatch
      else if MisplacedTail(segments) then ValueError
      else if SegmentsMatch(parts, segments) then Match(MethodCapture(verb, expected) + Captures(parts, segments))
      else NoMatch
  {
    var sides := Split(pattern, ':');
    assert |sides| == 2 && sides[0] == expected && sides[1] == tail;
  }

  lemma FitsIsMatch(parts: seq<string>, segments: seq<string>)
    requires segments != []
    ensures PathFits(parts, segments) <==> SegmentsMatch(parts, segments)
  {
    var n := |segments| - 1;
    assert segments[n..] == [segments[n]];
  }

  lemma {:induction false} JoinAvoids(parts: seq<string>, c: char)
    requires parts != [] && c != '/' && forall part <- parts :: c !in part
    ensures c !in Join(parts, '/')
  {
    if |parts| > 1 {
      JoinAvoids(parts[1..], c);
    }
  }

  lemma {:induction false} NoColonIsError(verb: string, path: string, pattern: string)
    requires ':' !in pattern
    ensures Matching(verb, path, pattern) == ValueError
  {
    SplitOfOne(pattern, ':');
  }

  lemma TwoColonsAreError(verb: string, path: string, a: string, b: string, c: string)
    ensures Matching(verb, path, a + ":" + b + ":" + c) == ValueError
  {
    SplitConcat(a + ":" + b, c, ':');
    SplitConcat(a, b, ':');
  }
}
