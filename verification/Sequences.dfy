/** Places in sequences: first and last occurrences, and what a filter keeps. */
module Sequences {

  ghost predicate FirstAt<T>(s: seq<T>, i: int, x: T) {
    0 <= i < |s| && s[i] == x && forall j :: 0 <= j < i ==> s[j] != x
  }

  ghost predicate LastAt<T>(s: seq<T>, i: int, x: T) {
    0 <= i < |s| && s[i] == x && forall j :: i < j < |s| ==> s[j] != x
  }

  /** The elements stand in the order in which they first appear in `all`. */
  ghost predicate InFirstOrder<T>(s: seq<T>, all: seq<T>) {
    forall a, b, i, j :: 0 <= a < b < |s| && FirstAt(all, i, s[a]) && FirstAt(all, j, s[b]) ==> i < j
  }

  /** The elements of `s` at the given ascending places. */
  ghost predicate Picks<T>(r: seq<T>, s: seq<T>, places: seq<int>) {
    && |places| == |r|
    && (forall k :: 0 <= k < |r| ==> 0 <= places[k] < |s| && r[k] == s[places[k]])
    && (forall a, b :: 0 <= a < b < |r| ==> places[a] < places[b])
  }

  lemma PickedLater<T>(r: seq<T>, s: seq<T>, places: seq<int>, i: int, j: int)
    requires Picks(r, s, places) && 0 <= i < |r| && 0 <= j < |r| && places[i] < places[j]
    ensures i < j
  {
  }

  ghost predicate KeepsAt<T>(s: seq<T>, places: seq<int>, keep: T -> bool) {
    forall i :: 0 <= i < |s| ==> (keep(s[i]) <==> i in places)
  }

  /** The elements of `s` with the property, all of them and in order. */
  ghost predicate IsFilter<T>(r: seq<T>, s: seq<T>, keep: T -> bool) {
    exists places :: Picks(r, s, places) && KeepsAt(s, places, keep)
  }

  lemma FirstExists<T>(s: seq<T>, x: T) returns (i: nat)
    requires x in s
    ensures FirstAt(s, i, x)
  {
    i := 0;
    while s[i] != x
      invariant i < |s| && forall j :: 0 <= j < i ==> s[j] != x
      decreases |s| - i
    {
      i := i + 1;
    }
  }

  lemma LastExists<T>(s: seq<T>, x: T) returns (i: nat)
    requires x in s
    ensures LastAt(s, i, x)
  {
    i := |s| - 1;
    while s[i] != x
      invariant i < |s| && forall j :: i < j < |s| ==> s[j] != x
      decreases i
    {
      i := i - 1;
    }
  }

  lemma EmptyFilter<T>(keep: T -> bool)
    ensures IsFilter([], [], keep)
  {
    assert Picks<T>([], [], []) && KeepsAt([], [], keep);
  }

  lemma AppendedPlace<T>(s: seq<T>, x: T, places: seq<int>, keep: T -> bool)
    requires KeepsAt(s, places, keep) && forall i <- places :: i < |s|
    ensures KeepsAt(s + [x], if keep(x) then places + [|s|] else places, keep)
  {
    var all, more := s + [x], if keep(x) then places + [|s|] else places;
    assert all[|s|] == x;
    forall i | 0 <= i < |all|
      ensures keep(all[i]) <==> i in more
    {
      if i < |s| {
        assert all[i] == s[i];
        assert i in more <==> i in places;
      } else {
        assert keep(x) ==> more[|places|] == |s|;
      }
    }
  }

  /** Filtering one element more at the end. */
  lemma FilterAppended<T>(r: seq<T>, s: seq<T>, x: T, keep: T -> bool)
    requires IsFilter(r, s, keep)
    ensures IsFilter(if keep(x) then r + [x] else r, s + [x], keep)
  {
    var places :| Picks(r, s, places) && KeepsAt(s, places, keep);
    AppendedPlace(s, x, places, keep);
    AppendedPicks(r, s, x, places);
  }

  lemma AppendedPicks<T>(r: seq<T>, s: seq<T>, x: T, places: seq<int>)
    requires Picks(r, s, places)
    ensures Picks(r, s + [x], places) && Picks(r + [x], s + [x], places + [|s|])
  {
    var all, full, more := s + [x], r + [x], places + [|s|];
    forall k | 0 <= k < |r|
      ensures all[places[k]] == r[k] && more[k] == places[k] < |s| && full[k] == r[k]
    {
    }
  }

  lemma FilterExtended<T>(r: seq<T>, s: seq<T>, x: T, keep: T -> bool, r': seq<T>, s': seq<T>)
    requires IsFilter(r, s, keep) && s' == s + [x] && r' == if keep(x) then r + [x] else r
    ensures IsFilter(r', s', keep)
  {
    FilterAppended(r, s, x, keep);
  }

  /** The places after one element more at the front. */
  function Shifted(places: seq<int>): (r: seq<int>)
    ensures |r| == |places| && forall k :: 0 <= k < |r| ==> r[k] == places[k] + 1
  {
    seq(|places|, k requires 0 <= k < |places| => places[k] + 1)
  }

  lemma InShifted(places: seq<int>, i: int)
    ensures i in Shifted(places) <==> i - 1 in places
  {
    if i - 1 in places {
      var k :| 0 <= k < |places| && places[k] == i - 1;
      assert Shifted(places)[k] == i;
    }
  }

  lemma PrependedPlace<T>(x: T, s: seq<T>, places: seq<int>, keep: T -> bool)
    requires KeepsAt(s, places, keep) && forall i <- places :: 0 <= i
    ensures KeepsAt([x] + s, if keep(x) then [0] + Shifted(places) else Shifted(places), keep)
  {
    var all, more := [x] + s, if keep(x) then [0] + Shifted(places) else Shifted(places);
    forall i | 0 <= i < |all|
      ensures keep(all[i]) <==> i in more
    {
      InShifted(places, i);
      assert i in more <==> i in Shifted(places) || (keep(x) && i == 0);
      if i > 0 {
        assert all[i] == s[i - 1];
      }
    }
  }

  lemma ShiftedPicks<T>(x: T, r: seq<T>, s: seq<T>, places: seq<int>)
    requires Picks(r, s, places)
    ensures Picks(r, [x] + s, Shifted(places))
  {
    var all := [x] + s;
    forall k | 0 <= k < |r|
      ensures all[Shifted(places)[k]] == r[k]
    {
      assert all[places[k] + 1] == s[places[k]];
    }
  }

  lemma PrependedPicks<T>(x: T, r: seq<T>, all: seq<T>, places: seq<int>)
    requires all != [] && all[0] == x && Picks(r, all, places) && forall i <- places :: 0 < i
    ensures Picks([x] + r, all, [0] + places)
  {
    var more, full := [0] + places, [x] + r;
    forall k | 0 < k < |full|
      ensures more[k] == places[k - 1] && full[k] == r[k - 1] && 0 < more[k]
    {
      assert places[k - 1] in places;
    }
  }

  /** Filtering one element more at the front. */
  lemma FilterPrepended<T>(x: T, r: seq<T>, s: seq<T>, keep: T -> bool)
    requires IsFilter(r, s, keep)
    ensures IsFilter(if keep(x) then [x] + r else r, [x] + s, keep)
  {
    var places :| Picks(r, s, places) && KeepsAt(s, places, keep);
    PrependedPlace(x, s, places, keep);
    ShiftedPicks(x, r, s, places);
    if keep(x) {
      PrependedPicks(x, r, [x] + s, Shifted(places));
    }
  }

  lemma FilterExtendedFront<T>(x: T, r: seq<T>, s: seq<T>, keep: T -> bool, r': seq<T>, s': seq<T>)
    requires IsFilter(r, s, keep) && s' == [x] + s && r' == if keep(x) then [x] + r else r
    ensures IsFilter(r', s', keep)
  {
    FilterPrepended(x, r, s, keep);
  }

  /** Sequences that correspond element by element are filtered alike. */
  lemma FilterMapped<T, U>(r: seq<T>, s: seq<T>, keep: T -> bool, f: T -> U, r': seq<U>, s': seq<U>, keep': U -> bool)
    requires IsFilter(r, s, keep) && |r'| == |r| && |s'| == |s|
    requires forall i :: 0 <= i < |s| ==> s'[i] == f(s[i]) && (keep'(s'[i]) <==> keep(s[i]))
    requires forall i :: 0 <= i < |r| ==> r'[i] == f(r[i])
    ensures IsFilter(r', s', keep')
  {
    var places :| Picks(r, s, places) && KeepsAt(s, places, keep);
    assert Picks(r', s', places);
    assert KeepsAt(s', places, keep');
  }

  /** What is kept past a picked element is picked later. */
  lemma LaterIsPicked<T>(r: seq<T>, s: seq<T>, places: seq<int>, keep: T -> bool, i: int, k: int) returns (j: nat)
    requires Picks(r, s, places) && KeepsAt(s, places, keep) && 0 <= i < |r| && places[i] < k < |s| && keep(s[k])
    ensures i < j < |r| && r[j] == s[k]
  {
    j :| 0 <= j < |places| && places[j] == k;
    PickedLater(r, s, places, i, j);
  }

  lemma FilterMembers<T>(r: seq<T>, s: seq<T>, keep: T -> bool)
    requires IsFilter(r, s, keep)
    ensures forall x :: x in r <==> x in s && keep(x)
  {
    var places :| Picks(r, s, places) && KeepsAt(s, places, keep);
    forall x | x in s && keep(x)
      ensures x in r
    {
      var i :| 0 <= i < |s| && s[i] == x;
      var k :| 0 <= k < |places| && places[k] == i;
      assert r[k] == x;
    }
    forall x | x in r
      ensures x in s && keep(x)
    {
      var k :| 0 <= k < |r| && r[k] == x;
      assert places[k] in places && s[places[k]] == x;
    }
  }

  /** A filter keeps the order of first appearance. */
  lemma FilterKeepsFirstOrder<T>(r: seq<T>, s: seq<T>, all: seq<T>, keep: T -> bool)
    requires IsFilter(r, s, keep) && InFirstOrder(s, all)
    ensures InFirstOrder(r, all)
  {
    var places :| Picks(r, s, places) && KeepsAt(s, places, keep);
    forall a, b, i, j | 0 <= a < b < |r| && FirstAt(all, i, r[a]) && FirstAt(all, j, r[b])
      ensures i < j
    {
      assert s[places[a]] == r[a] && s[places[b]] == r[b] && places[a] < places[b];
    }
  }

  /** What stands in the order of first appearance in a filter does so in the whole. */
  lemma FirstOrderOfWhole<T>(r: seq<T>, part: seq<T>, all: seq<T>, keep: T -> bool)
    requires IsFilter(part, all, keep) && InFirstOrder(r, part) && forall x <- r :: x in part
    ensures InFirstOrder(r, all)
  {
    var places :| Picks(part, all, places) && KeepsAt(all, places, keep);
    forall a, b, i, j | 0 <= a < b < |r| && FirstAt(all, i, r[a]) && FirstAt(all, j, r[b])
      ensures i < j
    {
      var i' := FirstOfPart(part, all, places, keep, i, r[a]);
      var j' := FirstOfPart(part, all, places, keep, j, r[b]);
      assert i' < j';
    }
  }

  lemma FirstOfPart<T>(part: seq<T>, all: seq<T>, places: seq<int>, keep: T -> bool, i: int, x: T) returns (k: nat)
    requires Picks(part, all, places) && KeepsAt(all, places, keep) && FirstAt(all, i, x) && x in part
    ensures k < |part| && FirstAt(part, k, x) && places[k] == i
  {
    FilterMembersAt(part, all, places, keep, x);
    k :| 0 <= k < |places| && places[k] == i;
    forall j | 0 <= j < k
      ensures part[j] != x
    {
      assert places[j] < i && all[places[j]] == part[j];
    }
  }

  lemma FilterMembersAt<T>(part: seq<T>, all: seq<T>, places: seq<int>, keep: T -> bool, x: T)
    requires Picks(part, all, places) && KeepsAt(all, places, keep) && x in part
    ensures keep(x) && forall i :: 0 <= i < |all| && all[i] == x ==> i in places
  {
    var k :| 0 <= k < |part| && part[k] == x;
    assert places[k] in places && all[places[k]] == x;
  }
}
