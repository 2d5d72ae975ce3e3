/** The number and the sortable text under which the CDN indexes the versions of a library. */
module VersionIndexing {
  import opened Decimal

  /** The prerelease tags the CDN accepts, and the deprecated `next`. */
  datatype Prerelease = NoTag | Next | Wip | Alpha | AlphaWip | Beta | BetaWip

  datatype Version = Version(major: nat, minor: nat, patch: nat, prerelease: Prerelease)

  const ALLOWED_PRERELEASE: seq<Prerelease> := [Wip, Alpha, AlphaWip, Beta, BetaWip]

  function IndexIn<T(==)>(x: T, s: seq<T>): (i: nat)
    requires x in s
    ensures i < |s| && s[i] == x
  {
    if s[0] == x then 0 else 1 + IndexIn(x, s[1..])
  }

  function Delta(p: Prerelease): (d: int)
    ensures -5 <= d <= 1
    ensures d < 0 <==> p in ALLOWED_PRERELEASE
  {
    match p
    case NoTag => 0
    case Next => 1
    case _ => -(1 + IndexIn(p, ALLOWED_PRERELEASE))
  }

  function GetVersionNumber(v: Version): int {
    v.major * 10000000 + v.minor * 10000 + v.patch * 10 + Delta(v.prerelease)
  }

  function IntToString(n: int): string {
    if n < 0 then "-" + ToString(-n) else ToString(n)
  }

  function GetVersionNumberStr(v: Version): string {
    ZeroFill(IntToString(GetVersionNumber(v)), 10)
  }

  function Tag(p: Prerelease): string {
    match p
    case NoTag => ""
    case Next => "-next"
    case Wip => "-wip"
    case Alpha => "-alpha"
    case AlphaWip => "-alpha-wip"
    case Beta => "-beta"
    case BetaWip => "-beta-wip"
  }

  function NumbersText(v: Version): string {
    ToString(v.major) + "." + ToString(v.minor) + "." + ToString(v.patch)
  }

  /** The text of a version, `1.2.3-alpha`. */
  function VersionText(v: Version): string {
    NumbersText(v) + Tag(v.prerelease)
  }

  // ---------- Order ----------

  /** The bounds within which the encoding is unambiguous. */
  predicate Bounded(v: Version) {
    v.minor < 1000 && v.patch < 1000
  }

  /** The versions whose number fills at most ten digits and is not negative. */
  predicate Indexable(v: Version) {
    Bounded(v) && v.major < 1000 && GetVersionNumber(v) >= 0
  }

  /** Order of the components; within one release by the rank of the tag. */
  predicate Before(v: Version, w: Version) {
    || v.major < w.major
    || (v.major == w.major && v.minor < w.minor)
    || (v.major == w.major && v.minor == w.minor && v.patch < w.patch)
    || (v.major == w.major && v.minor == w.minor && v.patch == w.patch && Delta(v.prerelease) < Delta(w.prerelease))
  }

  lemma DeltaInjective(p: Prerelease, q: Prerelease)
    requires Delta(p) == Delta(q)
    ensures p == q
  {
    forall t: Prerelease
      ensures Delta(t) == match t case NoTag => 0 case Next => 1 case Wip => -1 case Alpha => -2
                                  case AlphaWip => -3 case Beta => -4 case BetaWip => -5
    {
      DeltaValues(t);
    }
  }

  lemma DeltaValues(t: Prerelease)
    ensures Delta(t) == match t case NoTag => 0 case Next => 1 case Wip => -1 case Alpha => -2
                                case AlphaWip => -3 case Beta => -4 case BetaWip => -5
  {
    var s := ALLOWED_PRERELEASE;
    assert s[1..] == [Alpha, AlphaWip, Beta, BetaWip];
    assert s[1..][1..] == [AlphaWip, Beta, BetaWip];
    assert s[1..][1..][1..] == [Beta, BetaWip];
    assert s[1..][1..][1..][1..] == [BetaWip];
  }

  lemma EncodingOrder(a: nat, b: nat, c: nat, d: int, a': nat, b': nat, c': nat, d': int)
    requires b < 1000 && c < 1000 && b' < 1000 && c' < 1000 && -5 <= d <= 1 && -5 <= d' <= 1
    ensures var n, n' := a * 10000000 + b * 10000 + c * 10 + d, a' * 10000000 + b' * 10000 + c' * 10 + d';
      && (n < n' <==> a < a' || (a == a' && (b < b' || (b == b' && (c < c' || (c == c' && d < d'))))))
      && (n == n' <==> a == a' && b == b' && c == c' && d == d')
  {
  }

  /** The number is strictly monotone in (major, minor, patch, tag rank), hence injective. */
  lemma NumberReflectsOrder(v: Version, w: Version)
    requires Bounded(v) && Bounded(w)
    ensures GetVersionNumber(v) < GetVersionNumber(w) <==> Before(v, w)
    ensures GetVersionNumber(v) == GetVersionNumber(w) <==> v == w
  {
    EncodingOrder(v.major, v.minor, v.patch, Delta(v.prerelease), w.major, w.minor, w.patch, Delta(w.prerelease));
    if GetVersionNumber(v) == GetVersionNumber(w) {
      DeltaInjective(v.prerelease, w.prerelease);
    }
  }

  /** Every allowed prerelease sorts before its release, and `next` after it. */
  lemma PrereleasesPrecedeRelease(v: Version)
    ensures v.prerelease in ALLOWED_PRERELEASE <==> GetVersionNumber(v) < GetVersionNumber(v.(prerelease := NoTag))
    ensures v.prerelease == Next <==> GetVersionNumber(v) > GetVersionNumber(v.(prerelease := NoTag))
  {
    DeltaValues(v.prerelease);
  }

  /** A patch or a minor of 1000 or more takes the number of another version of the same shape. */
  lemma BoundsAreTight(v: Version)
    ensures v.patch >= 1000 ==>
      var w := v.(minor := v.minor + v.patch / 1000, patch := v.patch % 1000);
      w != v && GetVersionNumber(w) == GetVersionNumber(v)
    ensures v.minor >= 1000 ==>
      var w := v.(major := v.major + v.minor / 1000, minor := v.minor % 1000);
      w != v && GetVersionNumber(w) == GetVersionNumber(v)
  {
  }

  lemma {:induction false} IndexTextIsDigits(v: Version)
    requires Indexable(v)
    ensures GetVersionNumber(v) < Pow10(10)
    ensures GetVersionNumberStr(v) == Digits(GetVersionNumber(v), 10)
  {
    PowersOfTen();
    ZeroFillIsDigits(GetVersionNumber(v), 10);
  }

  /** The ten-character text orders exactly as the number: text sorts and numeric sorts agree. */
  lemma TextReflectsOrder(v: Version, w: Version)
    requires Indexable(v) && Indexable(w)
    ensures |GetVersionNumberStr(v)| == 10
    ensures LexLess(GetVersionNumberStr(v), GetVersionNumberStr(w)) <==> Before(v, w)
    ensures GetVersionNumberStr(v) == GetVersionNumberStr(w) <==> v == w
  {
    IndexTextIsDigits(v);
    IndexTextIsDigits(w);
    DigitsOrder(GetVersionNumber(v), GetVersionNumber(w), 10);
    ValueOfDigits(GetVersionNumber(v), 10);
    ValueOfDigits(GetVersionNumber(w), 10);
    NumberReflectsOrder(v, w);
  }

  /** The prereleases of 0.0.0 have negative numbers. */
  predicate BelowZero(v: Version) {
    v.major == v.minor == v.patch == 0 && v.prerelease in ALLOWED_PRERELEASE
  }

  lemma SignedText(d: nat)
    requires 0 < d < 10
    ensures ZeroFill("-" + ToString(d), 10) == "00000000-" + [Digit(d)]
  {
    assert ToString(d) == [Digit(d)];
    assert Zeros(8) == "00000000";
  }

  /** The padding puts the zeros before the sign. */
  lemma NegativeText(v: Version)
    ensures BelowZero(v) <==> GetVersionNumber(v) < 0
    ensures BelowZero(v) ==> GetVersionNumberStr(v) == "00000000-" + [Digit(-Delta(v.prerelease))]
  {
    if BelowZero(v) {
      SignedText(-Delta(v.prerelease));
    }
  }

  lemma SignComesFirst(c: char, digits: string)
    requires |digits| == 10 && forall i :: 0 <= i < 10 ==> '0' <= digits[i] <= '9'
    ensures LexLess("00000000-" + [c], digits)
  {
    var head, tail := digits[..8], digits[8..];
    assert digits == head + tail && "00000000-" + [c] == "00000000" + ("-" + [c]);
    LexLessConcat("00000000", "-" + [c], head, tail);
    ZerosComeFirst(8, head);
    assert Zeros(8) == "00000000";
  }

  lemma {:induction false} ZerosComeFirst(k: nat, digits: string)
    requires |digits| == k && forall i :: 0 <= i < k ==> '0' <= digits[i] <= '9'
    ensures LexLess(Zeros(k), digits) || Zeros(k) == digits
  {
    if k > 0 {
      ZerosComeFirst(k - 1, digits[1..]);
      assert Zeros(k)[1..] == Zeros(k - 1);
      assert digits == [digits[0]] + digits[1..] && Zeros(k) == ['0'] + Zeros(k - 1);
    }
  }

  lemma TextsBelowZero(v: Version, w: Version)
    requires BelowZero(v) && BelowZero(w)
    ensures LexLess(GetVersionNumberStr(v), GetVersionNumberStr(w)) <==> Before(w, v)
  {
    NegativeText(v);
    NegativeText(w);
    var d, e: nat := -Delta(v.prerelease), -Delta(w.prerelease);
    LexLessConcat("00000000-", [Digit(d)], "00000000-", [Digit(e)]);
    LexLessTotal("00000000-", "00000000-");
    DigitOrder(d, e);
  }

  /** All versions that fit: the text order is the version order, except that it reverses the prereleases of 0.0.0. */
  lemma TextOrderExactly(v: Version, w: Version)
    requires Bounded(v) && Bounded(w) && v.major < 1000 && w.major < 1000
    ensures LexLess(GetVersionNumberStr(v), GetVersionNumberStr(w)) <==>
      if BelowZero(v) && BelowZero(w) then Before(w, v) else Before(v, w)
  {
    NegativeText(v);
    NegativeText(w);
    if BelowZero(v) && BelowZero(w) {
      TextsBelowZero(v, w);
    } else if BelowZero(v) {
      IndexTextIsDigits(w);
      SignComesFirst(Digit(-Delta(v.prerelease)), GetVersionNumberStr(w));
      NumberReflectsOrder(v, w);
    } else if BelowZero(w) {
      IndexTextIsDigits(v);
      SignComesFirst(Digit(-Delta(w.prerelease)), GetVersionNumberStr(v));
      LexLessTotal(GetVersionNumberStr(v), GetVersionNumberStr(w));
      NumberReflectsOrder(v, w);
    } else {
      TextReflectsOrder(v, w);
    }
  }

  /** From ten digits on nothing is padded, and the text starts with the leading digit. */
  lemma UnpaddedText(v: Version, d: nat, k: nat)
    requires GetVersionNumber(v) >= 0 && StartsWith(GetVersionNumber(v), d, k) && k >= 9
    ensures GetVersionNumberStr(v) == ToString(GetVersionNumber(v)) && GetVersionNumberStr(v)[0] == Digit(d)
  {
    var n: nat := GetVersionNumber(v);
    assert GetVersionNumberStr(v) == ZeroFill(ToString(n), 10);
    UnpaddedNumber(n, d, k);
  }

  lemma UnpaddedNumber(n: nat, d: nat, k: nat)
    requires StartsWith(n, d, k) && k >= 9
    ensures ZeroFill(ToString(n), 10) == ToString(n) && ToString(n)[0] == Digit(d)
  {
    LongNumber(n, d, k);
    NothingToFill(ToString(n), 10);
  }

  lemma LongNumber(n: nat, d: nat, k: nat)
    requires StartsWith(n, d, k) && k >= 9
    ensures |ToString(n)| >= 10 && ToString(n)[0] == Digit(d)
  {
    assert |ToString(n)| > 9 by {
      Pow10Monotone(9, k);
      AtLeastOnce(d, Pow10(k));
      LengthExceeds(n, 9);
    }
    LeadingDigit(n, d, k);
  }

  lemma NothingToFill(s: string, width: nat)
    requires |s| >= width
    ensures ZeroFill(s, width) == s
  {
  }

  predicate BelowMajor(v: Version, bound: nat) {
    Bounded(v) && v.major < bound && GetVersionNumber(v) >= 0
  }

  predicate SameOrder(v: Version, w: Version) {
    LexLess(GetVersionNumberStr(v), GetVersionNumberStr(w)) <==> Before(v, w)
  }

  /** From major 1000 on the text can be longer than ten characters: 1000.0.0 sorts before 200.0.0. */
  lemma ThousandSortsEarly()
    ensures !SameOrder(Version(200, 0, 0, NoTag), Version(1000, 0, 0, NoTag))
    ensures LexLess(GetVersionNumberStr(Version(1000, 0, 0, NoTag)), GetVersionNumberStr(Version(200, 0, 0, NoTag)))
  {
    var big, small := Version(1000, 0, 0, NoTag), Version(200, 0, 0, NoTag);
    PowersOfTen();
    RoundNumber(big, 1, 10);
    RoundNumber(small, 2, 9);
  }

  lemma RoundNumber(v: Version, d: nat, k: nat)
    requires 0 < d < 10 && k >= 9 && GetVersionNumber(v) == d * Pow10(k)
    ensures GetVersionNumberStr(v) != "" && GetVersionNumberStr(v)[0] == Digit(d)
  {
    assert (d + 1) * Pow10(k) == d * Pow10(k) + Pow10(k);
    UnpaddedText(v, d, k);
  }

  /** The text orders all versions below a major as their numbers. */
  ghost predicate OrdersBelow(bound: nat) {
    forall v, w {:trigger SameOrder(v, w)} :: BelowMajor(v, bound) && BelowMajor(w, bound) ==> SameOrder(v, w)
  }

  lemma OrdersBelowThousand(bound: nat)
    requires bound <= 1000
    ensures OrdersBelow(bound)
  {
    forall v, w | BelowMajor(v, bound) && BelowMajor(w, bound)
      ensures SameOrder(v, w)
    {
      TextReflectsOrder(v, w);
    }
  }

  lemma DisagreesAbove(bound: nat, v: Version, w: Version)
    requires BelowMajor(v, bound) && BelowMajor(w, bound) && !SameOrder(v, w)
    ensures !OrdersBelow(bound)
  {
  }

  /** It does so exactly if that major is at most 1000. */
  lemma MajorBoundIsTight(bound: nat)
    ensures OrdersBelow(bound) <==> bound <= 1000
  {
    if bound <= 1000 {
      OrdersBelowThousand(bound);
    } else {
      ThousandSortsEarly();
      DisagreesAbove(bound, Version(200, 0, 0, NoTag), Version(1000, 0, 0, NoTag));
    }
  }
}
