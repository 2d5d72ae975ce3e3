/**
  The version file of the project and the release commands that rewrite it, with the order of
  PEP 440 on the versions they write.
 */
module ReleaseVersions {
  import opened Wrappers

  type Release = s: seq<nat> | s != [] witness [0]

  datatype Phase = Alpha | Beta | Candidate
  datatype Pre = Pre(phase: Phase, number: nat)

  /** A version without epoch and local part; an omitted number reads as zero. */
  datatype Version = Version(release: Release, pre: Option<Pre>, post: Option<nat>, dev: Option<nat>) {
    /** `major`, `minor` and `micro` are components 0, 1 and 2; a missing one is zero. */
    function Component(i: nat): nat {
      if i < |release| then release[i] else 0
    }

    function Padded(): Release {
      [Component(0), Component(1), Component(2)]
    }

    predicate IsPrerelease() {
      dev.Some? || pre.Some?
    }
  }

  function Final(release: Release): Version {
    Version(release, None, None, None)
  }

  // ---------- The order of PEP 440 ----------

  function Trim(s: seq<nat>): seq<nat> {
    if s == [] then []
    else
      var rest := Trim(s[1..]);
      if rest == [] && s[0] == 0 then [] else [s[0]] + rest
  }

  /** Python's order on tuples. */
  predicate TupleLess(a: seq<nat>, b: seq<nat>) {
    b != [] && (a == [] || a[0] < b[0] || (a[0] == b[0] && TupleLess(a[1..], b[1..])))
  }

  datatype Rank = Lowest | At(phase: nat, number: nat) | Highest

  predicate RankLess(a: Rank, b: Rank) {
    || (a.Lowest? && !b.Lowest?)
    || (!a.Highest? && b.Highest?)
    || (a.At? && b.At? && (a.phase < b.phase || (a.phase == b.phase && a.number < b.number)))
  }

  function PreRank(v: Version): Rank {
    match v.pre
    case Some(p) => At(match p.phase case Alpha => 0 case Beta => 1 case Candidate => 2, p.number)
    case None => if v.post.None? && v.dev.Some? then Lowest else Highest
  }

  function PostRank(v: Version): Rank {
    if v.post.Some? then At(0, v.post.value) else Lowest
  }

  function DevRank(v: Version): Rank {
    if v.dev.Some? then At(0, v.dev.value) else Highest
  }

  predicate SuffixLess(v: Version, w: Version) {
    || RankLess(PreRank(v), PreRank(w))
    || (PreRank(v) == PreRank(w) && RankLess(PostRank(v), PostRank(w)))
    || (PreRank(v) == PreRank(w) && PostRank(v) == PostRank(w) && RankLess(DevRank(v), DevRank(w)))
  }

  predicate Less(v: Version, w: Version) {
    || TupleLess(Trim(v.release), Trim(w.release))
    || (Trim(v.release) == Trim(w.release) && SuffixLess(v, w))
  }

  lemma {:induction false} TuplesTotallyOrdered(a: seq<nat>, b: seq<nat>)
    ensures TupleLess(a, b) || TupleLess(b, a) || a == b
    ensures !(TupleLess(a, b) && TupleLess(b, a)) && !TupleLess(a, a)
  {
    if a != [] {
      TuplesTotallyOrdered(a[1..], if b == [] then [] else b[1..]);
      assert b != [] ==> a == [a[0]] + a[1..] && b == [b[0]] + b[1..];
    }
  }

  lemma {:induction false} TupleLessTransitive(a: seq<nat>, b: seq<nat>, c: seq<nat>)
    requires TupleLess(a, b) && TupleLess(b, c)
    ensures TupleLess(a, c)
  {
    if a != [] && a[0] == b[0] == c[0] {
      TupleLessTransitive(a[1..], b[1..], c[1..]);
    }
  }

  /** Versions are strictly and totally ordered, up to trailing zeros of the release. */
  lemma OrderIsStrict(v: Version, w: Version)
    ensures !(Less(v, w) && Less(w, v)) && !Less(v, v)
    ensures Less(v, w) || Less(w, v) || (Trim(v.release) == Trim(w.release) && w == v.(release := w.release))
  {
    TuplesTotallyOrdered(Trim(v.release), Trim(w.release));
    TuplesTotallyOrdered(Trim(v.release), Trim(v.release));
  }

  lemma LessTransitive(u: Version, v: Version, w: Version)
    requires Less(u, v) && Less(v, w)
    ensures Less(u, w)
  {
    if TupleLess(Trim(u.release), Trim(v.release)) && TupleLess(Trim(v.release), Trim(w.release)) {
      TupleLessTransitive(Trim(u.release), Trim(v.release), Trim(w.release));
    }
  }

  /** The permitted suffixes of one release, in the order of PEP 440, whatever their numbers. */
  lemma SuffixesInOrder(r: Release, dev: nat, alpha: nat, beta: nat, rc: nat, post: nat)
    ensures var suffixes := [
      Version(r, None, None, Some(dev)),
      Version(r, Some(Pre(Alpha, alpha)), None, Some(dev)), Version(r, Some(Pre(Alpha, alpha)), None, None),
      Version(r, Some(Pre(Beta, beta)), None, None), Version(r, Some(Pre(Candidate, rc)), None, None),
      Final(r), Version(r, None, Some(post), Some(dev)), Version(r, None, Some(post), None)];
      forall i, j :: 0 <= i < j < |suffixes| ==> Less(suffixes[i], suffixes[j])
  {
  }

  /** Within one kind of suffix the number decides, and that of `dev` last. */
  lemma NumbersInOrder(r: Release, phase: Phase, m: nat, n: nat, dev: Option<nat>, other: Option<nat>)
    requires m < n
    ensures Less(Version(r, Some(Pre(phase, m)), None, dev), Version(r, Some(Pre(phase, n)), None, other))
    ensures Less(Version(r, None, Some(m), dev), Version(r, None, Some(n), other))
    ensures Less(Version(r, None, None, Some(m)), Version(r, None, None, Some(n)))
    ensures Less(Version(r, None, Some(n), Some(m)), Version(r, None, Some(n), Some(n)))
  {
  }

  // ---------- The commands ----------

  datatype Command = PrepareRc(target: Option<Version>) | RestoreDev | PreparePostDev | NextDev | PrepareFinal

  /** `__version__` and `__release_version__` of the version file. */
  datatype File = File(current: Version, released: Version)

  function Target(v: Version, target: Option<Version>): Version {
    if target.Some? then target.value else Final(v.release)
  }

  /** The number after `rc`: that of the current version when it is a prerelease of the target. */
  function CandidateNumber(v: Version, target: Version): nat {
    if v.pre.Some? && target.release == v.release then v.pre.value.number else 0
  }

  function NextMicro(v: Version): Version {
    Version([v.Component(0), v.Component(1), v.Component(2) + 1], None, None, Some(0))
  }

  /** The version a command writes; `None` when it raises `ValueError`. */
  function Next(v: Version, command: Command): Option<Version> {
    match command
    case PrepareRc(target) =>
      var t := Target(v, target);
      if v.dev.None? || t.IsPrerelease() || t.post.Some? || !Less(v, t) then None
      else Some(Version(t.Padded(), Some(Pre(Candidate, CandidateNumber(v, t))), None, None))
    case RestoreDev =>
      if v.dev.Some? then None
      else if v.pre.Some? then Some(Version(v.Padded(), Some(Pre(Candidate, v.pre.value.number + 1)), None, Some(0)))
      else if v.post.Some? then Some(Version(v.Padded(), None, Some(v.post.value + 1), Some(0)))
      else Some(NextMicro(v))
    case PreparePostDev =>
      if v.IsPrerelease() then None
      else Some(Version(v.Padded(), None, if v.post.Some? then Some(v.post.value + 1) else None, Some(0)))
    case NextDev => if v.dev.None? then None else Some(NextMicro(v))
    case PrepareFinal =>
      if v.dev.None? || (v.pre.None? && v.post.None?) then None
      else Some(Version(v.release, None, v.post, None))
  }

  predicate IsRelease(command: Command) {
    command.PrepareRc? || command.PrepareFinal?
  }

  /** A command that fails leaves the file as it is. */
  function Step(f: File, command: Command): File {
    match Next(f.current, command)
    case None => f
    case Some(v) => File(v, if IsRelease(command) then v else f.released)
  }

  class VersionFile {
    var current: Version
    var released: Version

    ghost function Contents(): File
      reads this
    {
      File(current, released)
    }

    method Write(v: Version, isRelease: bool)
      modifies this
      ensures Contents() == File(v, if isRelease then v else old(released))
    {
      current := v;
      if isRelease {
        released := v;
      }
    }

    method PrepareReleaseCandidate(argument: Option<Version>) returns (ok: bool)
      modifies this
      ensures Contents() == Step(old(Contents()), PrepareRc(argument))
      ensures ok == Next(old(current), PrepareRc(argument)).Some?
    {
      if current.dev.None? {
        return false;
      }
      var target := Final(current.release);
      if argument.Some? {
        target := argument.value;
      }
      if target.IsPrerelease() || target.post.Some? || !Less(current, target) {
        return false;
      }
      var rc := 0;
      if current.pre.Some? && target.release == current.release {
        rc := current.pre.value.number;
      }
      Write(Version(target.Padded(), Some(Pre(Candidate, rc)), None, None), true);
      ok := true;
    }

    method RestoreDevelopment() returns (ok: bool)
      modifies this
      ensures Contents() == Step(old(Contents()), RestoreDev)
      ensures ok == Next(old(current), RestoreDev).Some?
    {
      if current.dev.Some? {
        return false;
      }
      var micro, rc, post := current.Component(2), None, None;
      if current.IsPrerelease() {
        rc := Some(Pre(Candidate, current.pre.value.number + 1));
      } else if current.post.Some? {
        post := Some(current.post.value + 1);
      } else {
        micro := micro + 1;
      }
      Write(Version([current.Component(0), current.Component(1), micro], rc, post, Some(0)), false);
      ok := true;
    }

    method PreparePostDevelopment() returns (ok: bool)
      modifies this
      ensures Contents() == Step(old(Contents()), PreparePostDev)
      ensures ok == Next(old(current), PreparePostDev).Some?
    {
      if current.dev.Some? || current.IsPrerelease() {
        return false;
      }
      var post := if current.post.Some? then Some(current.post.value + 1) else None;
      Write(Version(current.Padded(), None, post, Some(0)), false);
      ok := true;
    }

    method NextDevelopment() returns (ok: bool)
      modifies this
      ensures Contents() == Step(old(Contents()), NextDev)
      ensures ok == Next(old(current), NextDev).Some?
    {
      if current.dev.None? {
        return false;
      }
      var micro := current.Component(2) + 1;
      Write(Version([current.Component(0), current.Component(1), micro], None, None, Some(0)), false);
      ok := true;
    }

    method PrepareFinalRelease() returns (ok: bool)
      modifies this
      ensures Contents() == Step(old(Contents()), PrepareFinal)
      ensures ok == Next(old(current), PrepareFinal).Some?
    {
      if current.dev.None? || (current.pre.None? && current.post.None?) {
        return false;
      }
      var final := Final(current.release);
      if current.post.Some? {
        final := final.(post := current.post);
      }
      Write(final, true);
      ok := true;
    }
  }

  // ---------- Each command moves forward ----------

  /** X.Y.Z, with a prerelease number or a post number or neither, and perhaps in development. */
  predicate Shaped(v: Version) {
    |v.release| == 3 && (v.pre.Some? ==> v.post.None? && v.pre.value.phase.Candidate?)
  }

  /** The target of the command, if it has one, is written with three components. */
  predicate ThreeComponents(command: Command) {
    command.PrepareRc? && command.target.Some? ==> |command.target.value.release| == 3
  }

  /** A target spelled otherwise than the current release it pads to, which is past its first candidate. */
  predicate RespelledTarget(v: Version, t: Version) {
    t.Padded() == v.release && t.release != v.release && (v.post.Some? || (v.pre.Some? && v.pre.value.number > 0))
  }

  /** The commands that write an older version. */
  predicate GoesBack(v: Version, command: Command) {
    || (command.PreparePostDev? && v == Final(v.release))
    || (command.PrepareRc? && RespelledTarget(v, Target(v, command.target)))
  }

  lemma TrimmedOfSameLength(a: Release, b: Release)
    requires |a| == 3 && |b| == 3
    ensures TupleLess(a, b) <==> TupleLess(Trim(a), Trim(b))
    ensures a == b <==> Trim(a) == Trim(b)
  {
    TrimKeepsOrder(a, b);
  }

  lemma {:induction false} TrimKeepsOrder(a: seq<nat>, b: seq<nat>)
    requires |a| == |b|
    ensures TupleLess(a, b) <==> TupleLess(Trim(a), Trim(b))
    ensures a == b <==> Trim(a) == Trim(b)
  {
    if a != [] {
      TrimKeepsOrder(a[1..], b[1..]);
      assert a == [a[0]] + a[1..] && b == [b[0]] + b[1..];
      TuplesTotallyOrdered(Trim(a[1..]), Trim(b[1..]));
    }
  }

  /** The first `k` components, zeros standing for missing ones. */
  function Pad(s: seq<nat>, k: nat): seq<nat> {
    if k == 0 then []
    else if s == [] then [0] + Pad([], k - 1)
    else [s[0]] + Pad(s[1..], k - 1)
  }

  lemma {:induction false} PadKeepsOrder(s: seq<nat>, r: seq<nat>)
    requires TupleLess(Pad(s, |r|), r)
    ensures TupleLess(Trim(s), Trim(r))
  {
    var head, tail := if s == [] then 0 else s[0], if s == [] then [] else s[1..];
    assert Pad(s, |r|)[1..] == Pad(tail, |r[1..]|);
    if head == r[0] {
      PadKeepsOrder(tail, r[1..]);
    }
  }

  /** A target is not before a release only if its first three components are not. */
  lemma PaddedIsNotBefore(t: Version, r: Release)
    requires |r| == 3 && !TupleLess(Trim(t.release), Trim(r))
    ensures t.Padded() == r || TupleLess(r, t.Padded())
  {
    assert t.Padded() == Pad(t.release, 3) by {
      var s := t.release;
      assert Pad(s, 3) == [t.Component(0)] + Pad(if |s| > 1 then s[1..] else [], 2);
      assert |s| > 1 ==> Pad(s[1..], 2) == [s[1]] + Pad(s[2..], 1);
    }
    TuplesTotallyOrdered(t.Padded(), r);
    if TupleLess(t.Padded(), r) {
      PadKeepsOrder(t.release, r);
    }
  }

  lemma ShapeIsKept(v: Version, command: Command)
    requires Shaped(v) && Next(v, command).Some?
    ensures Shaped(Next(v, command).value)
  {
  }

  lemma SameReleaseOrder(v: Version, w: Version)
    requires v.release == w.release
    ensures Less(v, w) <==> SuffixLess(v, w)
  {
    TuplesTotallyOrdered(Trim(v.release), Trim(v.release));
  }

  lemma MicroIsNext(v: Version)
    requires Shaped(v)
    ensures Less(v, NextMicro(v))
  {
    var r, next := v.release, NextMicro(v).release;
    assert TupleLess(r[1..][1..], next[1..][1..]);
    assert TupleLess(r[1..], next[1..]);
    TrimmedOfSameLength(r, next);
  }

  /** A release candidate is after the current version, unless its target is respelled. */
  lemma CandidateOrder(v: Version, t: Version, w: Version)
    requires Shaped(v) && v.dev.Some? && !t.IsPrerelease() && t.post.None? && Less(v, t)
    requires w == Version(t.Padded(), Some(Pre(Candidate, CandidateNumber(v, t))), None, None)
    ensures if RespelledTarget(v, t) then Less(w, v) else Less(v, w)
  {
    OrderIsStrict(v, t);
    TuplesTotallyOrdered(Trim(v.release), Trim(t.release));
    PaddedIsNotBefore(t, v.release);
    if t.Padded() == v.release {
      SameReleaseOrder(v, w);
      SameReleaseOrder(w, v);
      if t.release == v.release {
        SameReleaseOrder(v, t);
      }
    } else {
      TrimmedOfSameLength(v.release, t.Padded());
    }
  }

  /**
    A command that succeeds writes a later version, but for two cases in which it writes an
    earlier one.
   */
  lemma StepOrder(v: Version, command: Command)
    requires Shaped(v) && Next(v, command).Some?
    ensures var w := Next(v, command).value;
      if GoesBack(v, command) then Less(w, v) else Less(v, w)
  {
    var w := Next(v, command).value;
    if command.PrepareRc? {
      CandidateOrder(v, Target(v, command.target), w);
    } else if w == NextMicro(v) {
      MicroIsNext(v);
    } else {
      assert w.release == v.release;
      SameReleaseOrder(v, w);
      SameReleaseOrder(w, v);
    }
  }

  /** With three-component targets the only way back is `prepare_post_dev` on a plain final version. */
  lemma OnlyPostDevGoesBack(v: Version, command: Command)
    requires Shaped(v) && ThreeComponents(command) && Next(v, command).Some?
    ensures GoesBack(v, command) <==> command.PreparePostDev? && v == Final(v.release)
  {
    if command.PrepareRc? {
      var t := Target(v, command.target);
      assert t.Padded() == t.release;
    }
  }

  /** Other targets do go back: 1.2 after 1.2.0rc3.dev, and 1.2.3.4 after 1.2.3.post1.dev. */
  lemma RespelledTargetsGoBack()
    ensures Next(Version([1, 2, 0], Some(Pre(Candidate, 3)), None, Some(0)), PrepareRc(Some(Final([1, 2])))) ==
      Some(Version([1, 2, 0], Some(Pre(Candidate, 0)), None, None))
    ensures Next(Version([1, 2, 3], None, Some(1), Some(0)), PrepareRc(Some(Final([1, 2, 3, 4])))) ==
      Some(Version([1, 2, 3], Some(Pre(Candidate, 0)), None, None))
  {
  }

  // ---------- What each command writes ----------

  /** The command raises `ValueError`. */
  ghost predicate Raises(v: Version, command: Command) {
    match command
    case PrepareRc(target) =>
      || v.dev.None?
      || (target.Some? && target.value != Final(target.value.release))
      || !Less(v, if target.Some? then target.value else Final(v.release))
    case RestoreDev => v.dev.Some?
    case PreparePostDev => v.dev.Some? || v.pre.Some?
    case NextDev => v.dev.None?
    case PrepareFinal => v.dev.None? || (v.pre.None? && v.post.None?)
  }

  /** A command that raises leaves the file alone; only the two releases set the released version. */
  lemma StepExactly(f: File, command: Command)
    ensures Next(f.current, command).None? <==> Raises(f.current, command)
    ensures Raises(f.current, command) ==> Step(f, command) == f
    ensures !Raises(f.current, command) ==>
      && Step(f, command).current == Next(f.current, command).value
      && Step(f, command).released ==
           if command.PrepareRc? || command.PrepareFinal? then Next(f.current, command).value else f.released
  {
  }

  /** The kind of version a command writes. */
  ghost predicate IsKind(v: Version, command: Command, u: Version) {
    && |u.release| == 3
    && match command
       case PrepareRc(_) => u.pre.Some? && u.pre.value.phase.Candidate? && u.post.None? && u.dev.None?
       case RestoreDev =>
         && (u.pre.Some? <==> v.pre.Some?) && (u.pre.Some? ==> u.pre.value.phase.Candidate?)
         && (u.post.Some? <==> v.post.Some?) && u.dev.Some?
       case PreparePostDev => u.pre.None? && (u.post.Some? <==> v.post.Some?) && u.dev.Some?
       case NextDev => u.pre.None? && u.post.None? && u.dev.Some?
       case PrepareFinal => u.pre.None? && (u.post.Some? <==> v.post.Some?) && u.dev.None?
  }

  /**
    What the version is to follow: the releases of the current version for a next micro, its own
    number within its release otherwise, and for a candidate of another release nothing.
   */
  ghost predicate Follows(v: Version, command: Command, u: Version) {
    match command
    case PrepareRc(target) =>
      var t := if target.Some? then target.value else Final(v.release);
      u.release == t.Padded() && (v.pre.Some? && t.release == v.release ==> Less(v, u))
    case RestoreDev =>
      if v.pre.Some? || v.post.Some? then u.release == v.release && Less(v, u) else TupleLess(v.release, u.release)
    case PreparePostDev => u.release == v.release && (v.post.Some? ==> Less(v, u))
    case NextDev => TupleLess(v.release, u.release)
    case PrepareFinal => u.release == v.release && Less(v, u)
  }

  lemma TupleLessOfThree(a: Release, b: Release)
    requires |a| == 3 && |b| == 3
    ensures TupleLess(a, b) <==> a[0] < b[0] || (a[0] == b[0] && (a[1] < b[1] || (a[1] == b[1] && a[2] < b[2])))
  {
    assert a[1..][1..] == [a[2]] && b[1..][1..] == [b[2]];
    assert [a[2]][1..] == [] && [b[2]][1..] == [];
    assert TupleLess([a[2]], [b[2]]) <==> a[2] < b[2];
    assert TupleLess(a[1..], b[1..]) <==> a[1] < b[1] || (a[1] == b[1] && a[2] < b[2]);
  }

  /** No release lies between one and its next micro. */
  lemma NextMicroIsLeast(v: Version, u: Version)
    requires |v.release| == 3 && |u.release| == 3 && TupleLess(v.release, u.release)
    requires u.pre.None? && u.post.None? && u.dev.Some?
    ensures !Less(u, NextMicro(v))
  {
    var w := NextMicro(v);
    TupleLessOfThree(v.release, u.release);
    TupleLessOfThree(u.release, w.release);
    TrimmedOfSameLength(u.release, w.release);
    if u.release == w.release {
      SameReleaseOrder(u, w);
    }
  }

  /** Within one release and kind the number decides. */
  lemma LeastOfRelease(v: Version, command: Command, w: Version, u: Version)
    requires Shaped(v) && Next(v, command) == Some(w) && w != NextMicro(v) && u.release == w.release
    requires IsKind(v, command, u) && Follows(v, command, u)
    ensures !Less(u, w)
  {
    SameReleaseOrder(u, w);
    if command.PrepareRc? {
      var t := Target(v, command.target);
      if v.pre.Some? && t.release == v.release {
        assert t.Padded() == v.release;
        SameReleaseOrder(v, u);
      }
    } else {
      SameReleaseOrder(v, u);
    }
  }

  lemma WrittenFollows(v: Version, command: Command, w: Version)
    requires Shaped(v) && Next(v, command) == Some(w)
    ensures IsKind(v, command, w) && Follows(v, command, w)
  {
    if w == NextMicro(v) {
      TupleLessOfThree(v.release, w.release);
    }
    if command.PrepareRc? {
      var t := Target(v, command.target);
      if v.pre.Some? && t.release == v.release {
        assert t.Padded() == v.release;
        SameReleaseOrder(v, w);
      }
    } else if w.release == v.release {
      SameReleaseOrder(v, w);
    }
  }

  /** The command writes the least version of its kind that follows. */
  lemma WritesLeast(v: Version, command: Command, w: Version, u: Version)
    requires Shaped(v) && Next(v, command) == Some(w)
    ensures IsKind(v, command, w) && Follows(v, command, w)
    ensures IsKind(v, command, u) && Follows(v, command, u) ==> !Less(u, w)
  {
    WrittenFollows(v, command, w);
    if IsKind(v, command, u) && Follows(v, command, u) {
      if w == NextMicro(v) {
        NextMicroIsLeast(v, u);
      } else {
        LeastOfRelease(v, command, w, u);
      }
    }
  }

  // ---------- Runs ----------

  /** The contents of the file before and after each command. */
  function Run(f: File, commands: seq<Command>): (files: seq<File>)
    ensures |files| == |commands| + 1 && files[0] == f
    decreases |commands|
  {
    if commands == [] then [f] else [f] + Run(Step(f, commands[0]), commands[1..])
  }

  /** No command of the run goes back. */
  ghost predicate Advances(files: seq<File>, commands: seq<Command>)
    requires |files| == |commands| + 1
  {
    forall i :: 0 <= i < |commands| && Next(files[i].current, commands[i]).Some? ==>
      !GoesBack(files[i].current, commands[i])
  }

  predicate NotBefore(v: Version, w: Version) {
    v == w || Less(w, v)
  }

  /**
    Along a run without a step back the shape is kept, the released version is never after the
    current one, and the current version never goes back.
   */
  lemma {:induction false} RunsMoveForward(f: File, commands: seq<Command>, files: seq<File>)
    requires Shaped(f.current) && NotBefore(f.current, f.released)
    requires files == Run(f, commands) && Advances(files, commands)
    ensures forall i :: 0 <= i < |files| ==> Shaped(files[i].current) && NotBefore(files[i].current, files[i].released)
    ensures forall i, j :: 0 <= i <= j < |files| ==> NotBefore(files[j].current, files[i].current)
    ensures forall i :: 0 <= i < |commands| ==> files[i + 1] == files[i] || Less(files[i].current, files[i + 1].current)
    decreases |commands|
  {
    if commands != [] {
      var next, rest := Step(f, commands[0]), files[1..];
      StepKeepsOrder(f, commands[0]);
      forall i | 0 <= i < |commands[1..]| && Next(rest[i].current, commands[1..][i]).Some?
        ensures !GoesBack(rest[i].current, commands[1..][i])
      {
        assert rest[i] == files[i + 1] && commands[1..][i] == commands[i + 1];
      }
      RunsMoveForward(next, commands[1..], rest);
      assert forall i :: 0 < i < |files| ==> files[i] == rest[i - 1];
      forall j | 0 < j < |files|
        ensures NotBefore(files[j].current, f.current)
      {
        assert NotBefore(rest[j - 1].current, rest[0].current);
        if f != next && rest[j - 1].current != next.current {
          LessTransitive(f.current, next.current, files[j].current);
        }
      }
    }
  }

  lemma StepKeepsOrder(f: File, command: Command)
    requires Shaped(f.current) && NotBefore(f.current, f.released)
    requires Next(f.current, command).Some? ==> !GoesBack(f.current, command)
    ensures var next := Step(f, command);
      && Shaped(next.current) && NotBefore(next.current, next.released)
      && (next == f || Less(f.current, next.current))
  {
    if Next(f.current, command).Some? {
      ShapeIsKept(f.current, command);
      StepOrder(f.current, command);
      if f.current != f.released && !IsRelease(command) {
        LessTransitive(f.released, f.current, Step(f, command).current);
      }
    }
  }
}
