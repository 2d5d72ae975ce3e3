/**
  Python's insertion-ordered dictionary: a key keeps the place of its first insertion and the
  value of its last one.
 */
module PyDict {
  import opened Sequences

  datatype Dict<K, V> = Dict(keys: seq<K>, vals: map<K, V>)

  ghost predicate NoDuplicates<T>(s: seq<T>) {
    forall i, j :: 0 <= i < j < |s| ==> s[i] != s[j]
  }

  /** No key is listed twice, and the listed keys are exactly the mapped ones. */
  ghost predicate Valid<K(!new), V>(d: Dict<K, V>) {
    && NoDuplicates(d.keys)
    && (forall k :: k in d.keys <==> k in d.vals)
  }

  function Empty<K(!new), V>(): (d: Dict<K, V>)
    ensures Valid(d)
  {
    Dict([], map[])
  }

  function Put<K(==,!new), V>(d: Dict<K, V>, k: K, v: V): (r: Dict<K, V>)
    requires Valid(d)
    ensures Valid(r)
    ensures r.vals == d.vals[k := v]
    ensures k in d.vals ==> r.keys == d.keys
    ensures k !in d.vals ==> r.keys == d.keys + [k]
  {
    Dict(if k in d.vals then d.keys else d.keys + [k], d.vals[k := v])
  }

  function KeysWithout<K(==,!new)>(keys: seq<K>, k: K): (r: seq<K>)
    ensures forall x :: x in r <==> x in keys && x != k
  {
    if keys == [] then []
    else
      var n := |keys| - 1;
      assert keys == keys[..n] + [keys[n]];
      var before := KeysWithout(keys[..n], k);
      if keys[n] == k then before else before + [keys[n]]
  }

  lemma NoDuplicatesAppend<T>(s: seq<T>, x: T)
    requires NoDuplicates(s) && x !in s
    ensures NoDuplicates(s + [x])
  {
  }

  lemma {:induction false} KeysWithoutDistinct<K(!new)>(keys: seq<K>, k: K)
    requires NoDuplicates(keys)
    ensures NoDuplicates(KeysWithout(keys, k))
  {
    if keys != [] {
      var n := |keys| - 1;
      var before := KeysWithout(keys[..n], k);
      KeysWithoutDistinct(keys[..n], k);
      if keys[n] != k {
        assert keys[n] !in keys[..n];
        NoDuplicatesAppend(before, keys[n]);
      }
    }
  }

  /** `d.pop(k)`. */
  function Removed<K(==,!new), V>(d: Dict<K, V>, k: K): (r: Dict<K, V>)
    requires Valid(d)
    ensures Valid(r) && r.vals == d.vals - {k}
  {
    KeysWithoutDistinct(d.keys, k);
    Dict(KeysWithout(d.keys, k), d.vals - {k})
  }

  /** The comprehension `{k: v for k, v in pairs}`. */
  function FromPairs<K(==,!new), V>(pairs: seq<(K, V)>): (d: Dict<K, V>)
    ensures Valid(d)
  {
    if pairs == [] then Empty()
    else
      var last := pairs[|pairs| - 1];
      var before := FromPairs(pairs[..|pairs| - 1]);
      Put(before, last.0, last.1)
  }

  predicate HasKey<K(==,!new), V>(pairs: seq<(K, V)>, k: K) {
    exists i :: 0 <= i < |pairs| && pairs[i].0 == k
  }

  lemma HasKeyLast<K(!new), V>(pairs: seq<(K, V)>, p: (K, V), k: K)
    ensures HasKey(pairs + [p], k) <==> HasKey(pairs, k) || p.0 == k
  {
    var all := pairs + [p];
    assert all[|pairs|] == p;
    assert forall i :: 0 <= i < |pairs| ==> all[i] == pairs[i];
  }

  /** The dictionary has exactly the keys of the pairs. */
  lemma {:induction false} KeysOfPairs<K(!new), V>(pairs: seq<(K, V)>, k: K)
    ensures k in FromPairs(pairs).vals <==> HasKey(pairs, k)
  {
    if pairs != [] {
      var n := |pairs| - 1;
      var before := pairs[..n];
      KeysOfPairs(before, k);
      HasKeyLast(before, pairs[n], k);
      assert pairs == before + [pairs[n]];
    }
  }

  /** A key that no later pair repeats has the value of its pair: the last value wins. */
  lemma {:induction false} LastValueWins<K(!new), V>(pairs: seq<(K, V)>, i: nat)
    requires i < |pairs|
    requires forall j :: i < j < |pairs| ==> pairs[j].0 != pairs[i].0
    ensures pairs[i].0 in FromPairs(pairs).vals
    ensures FromPairs(pairs).vals[pairs[i].0] == pairs[i].1
  {
    var n := |pairs| - 1;
    if i < n {
      var before := pairs[..n];
      assert before[i] == pairs[i] && pairs[n].0 != pairs[i].0;
      assert forall j :: i < j < n ==> before[j].0 != before[i].0;
      LastValueWins(before, i);
    }
  }

  /** Every value of the dictionary comes from a pair with its key that no later pair repeats. */
  lemma {:induction false} ValueHasLastPair<K(!new), V>(pairs: seq<(K, V)>, k: K) returns (i: nat)
    requires k in FromPairs(pairs).vals
    ensures i < |pairs| && pairs[i].0 == k && FromPairs(pairs).vals[k] == pairs[i].1
    ensures forall j :: i < j < |pairs| ==> pairs[j].0 != k
  {
    var n := |pairs| - 1;
    if pairs[n].0 == k {
      i := n;
    } else {
      var before := pairs[..n];
      i := ValueHasLastPair(before, k);
      assert forall j :: 0 <= j < n ==> pairs[j] == before[j];
    }
  }

  function KeyList<K, V>(pairs: seq<(K, V)>): (r: seq<K>)
    ensures |r| == |pairs| && forall i :: 0 <= i < |r| ==> r[i] == pairs[i].0
  {
    seq(|pairs|, i requires 0 <= i < |pairs| => pairs[i].0)
  }

  /** The keys stand in the order of their first insertion. */
  lemma {:induction false} KeysInOrder<K(!new), V>(pairs: seq<(K, V)>)
    ensures InFirstOrder(FromPairs(pairs).keys, KeyList(pairs))
  {
    if pairs != [] {
      var n := |pairs| - 1;
      var before := pairs[..n];
      KeysInOrder(before);
      forall k | k in FromPairs(before).keys
        ensures HasKey(before, k)
      {
        KeysOfPairs(before, k);
      }
      KeysOfPairs(before, pairs[n].0);
      KeyInserted(FromPairs(before).keys, before, pairs[n]);
      assert pairs == before + [pairs[n]];
    }
  }

  lemma KeyInserted<K(!new), V>(keys: seq<K>, pairs: seq<(K, V)>, p: (K, V))
    requires InFirstOrder(keys, KeyList(pairs)) && forall k <- keys :: HasKey(pairs, k)
    ensures InFirstOrder(keys, KeyList(pairs + [p]))
    ensures !HasKey(pairs, p.0) ==> InFirstOrder(keys + [p.0], KeyList(pairs + [p]))
  {
    var before, after := KeyList(pairs), KeyList(pairs + [p]);
    assert forall i :: 0 <= i < |pairs| ==> after[i] == before[i];
    forall i, k | k in keys && FirstAt(after, i, k)
      ensures i < |pairs| && FirstAt(before, i, k)
    {
      var j :| 0 <= j < |pairs| && pairs[j].0 == k;
      assert after[j] == k;
    }
    var more := keys + [p.0];
    if !HasKey(pairs, p.0) {
      forall a, b, i, j | 0 <= a < b < |more| && FirstAt(after, i, more[a]) && FirstAt(after, j, more[b])
        ensures i < j
      {
        assert more[a] in keys && i < |pairs|;
        if b == |keys| {
          assert after[j] == p.0 && (j < |pairs| ==> pairs[j].0 == p.0);
        }
      }
    }
  }

  /** The values, in the order of the keys. */
  function Values<K(!new), V>(d: Dict<K, V>): (r: seq<V>)
    requires Valid(d)
    ensures |r| == |d.keys| && forall i :: 0 <= i < |r| ==> d.keys[i] in d.vals && r[i] == d.vals[d.keys[i]]
  {
    assert forall k <- d.keys :: k in d.vals;
    seq(|d.keys|, i requires 0 <= i < |d.keys| => assert d.keys[i] in d.keys; d.vals[d.keys[i]])
  }

  lemma {:induction false} DistinctCount<K(!new)>(keys: seq<K>)
    requires NoDuplicates(keys)
    ensures |(set k <- keys)| == |keys|
  {
    if keys != [] {
      var n := |keys| - 1;
      DistinctCount(keys[..n]);
      assert keys == keys[..n] + [keys[n]];
      assert (set k <- keys) == (set k <- keys[..n]) + {keys[n]};
      assert keys[n] !in keys[..n];
    }
  }

  /** The list of keys and the mapping have the same size. */
  lemma KeyCount<K(!new), V>(d: Dict<K, V>)
    requires Valid(d)
    ensures |d.vals.Keys| == |d.keys|
  {
    DistinctCount(d.keys);
    assert d.vals.Keys == set k <- d.keys;
  }
}
