/**
  The persisted browser cache: an append-only log of records, one encoded line each, mirrored by a
  map in memory that keeps the latest record of each key.
 */
module BrowserCache {
  import opened Base64Url
  import opened Decimal
  import opened PyDict
  import opened Sequences
  import opened Text
  import opened Wrappers

  // ---------- Records and lines ----------

  datatype Item = Item(key: string, file: string, headers: map<string, string>, expirationTime: real)

  /** The JSON text of a record as bytes, and what can be read back from bytes. */
  datatype Json = Json(dumps: Item -> seq<Byte>, loads: seq<Byte> -> Option<Item>)

  ghost predicate Lawful(json: Json) {
    forall item :: json.dumps(item) != [] && json.loads(json.dumps(item)) == Some(item)
  }

  function EncodeLine(json: Json, item: Item): string {
    Encode(json.dumps(item))
  }

  function DecodeLine(json: Json, line: string): Option<Item> {
    match Decode(line)
    case Malformed => None
    case Decoded(bytes) => json.loads(bytes)
  }

  function Headline(fileKey: string): string {
    "BrowserCacheStore V0 " + fileKey + " \n"
  }

  function EncodeLines(json: Json, items: seq<Item>): string {
    if items == [] then "" else EncodeLines(json, items[..|items| - 1]) + EncodeLine(json, items[|items| - 1]) + "\n"
  }

  function DecodeLines(json: Json, lines: seq<string>): (r: seq<Option<Item>>)
    ensures |r| == |lines| && forall i :: 0 <= i < |lines| ==> r[i] == DecodeLine(json, lines[i])
  {
    seq(|lines|, i requires 0 <= i < |lines| => DecodeLine(json, lines[i]))
  }

  /** The non-empty lines of a log after the first. */
  function Lines(log: string): seq<string> {
    NonEmpty(Split(log, '\n')[1..])
  }

  /** The records of a log; `None` for an unreadable one. */
  function Records(json: Json, log: string): seq<Option<Item>> {
    DecodeLines(json, Lines(log))
  }

  // ---------- Recovery ----------

  /** The files on disk with their sizes, and the time. */
  datatype World = World(files: map<string, nat>, now: real)

  predicate IsValid(world: World, record: Option<Item>) {
    record.Some? && record.value.file in world.files && !(world.now > record.value.expirationTime)
  }

  function Live(world: World, records: seq<Option<Item>>): (r: seq<Item>)
    ensures |r| <= |records|
  {
    if records == [] then []
    else
      var n := |records| - 1;
      if IsValid(world, records[n]) then Live(world, records[..n]) + [records[n].value] else Live(world, records[..n])
  }

  function KeyPairs(items: seq<Item>): (r: seq<(string, Item)>)
    ensures |r| == |items| && forall i :: 0 <= i < |items| ==> r[i] == (items[i].key, items[i])
  {
    seq(|items|, i requires 0 <= i < |items| => (items[i].key, items[i]))
  }

  /** `{item.key: item for item in items}`: the last record of each key. */
  function Latest(items: seq<Item>): (d: Dict<string, Item>)
    ensures Valid(d)
  {
    FromPairs(KeyPairs(items))
  }

  /** Python's `s[-n:]`. */
  function LastN<T>(s: seq<T>, n: int): (r: seq<T>) {
    if n > 0 then (if n < |s| then s[|s| - n..] else s)
    else (if -n < |s| then s[-n..] else [])
  }

  predicate AllValid(world: World, records: seq<Option<Item>>) {
    forall r <- records :: IsValid(world, r)
  }

  /** The log has duplicates, unreadable, orphan or expired records, or too many of them. */
  predicate NeedsRewrite(world: World, records: seq<Option<Item>>, maxCount: int) {
    var live := Live(world, records);
    || |Latest(live).keys| != |live|
    || !AllValid(world, records)
    || |live| > maxCount
  }

  /** The records a rewritten log holds. */
  function Kept(world: World, records: seq<Option<Item>>, maxCount: int): seq<Item> {
    LastN(Values(Latest(Live(world, records))), maxCount)
  }

  /** The log once the cache has been recovered from it. */
  function Compacted(json: Json, fileKey: string, world: World, log: string, maxCount: int): string {
    var records := Records(json, log);
    if NeedsRewrite(world, records, maxCount)
    then Headline(fileKey) + EncodeLines(json, Kept(world, records, maxCount))
    else log
  }

  // ---------- Writing then reading ----------

  ghost predicate EndsLine(log: string) {
    log != "" && log[|log| - 1] == '\n'
  }

  lemma SplitLine(log: string, rest: string)
    requires EndsLine(log)
    ensures Split(log + rest, '\n') == Split(log[..|log| - 1], '\n') + Split(rest, '\n')
  {
    var init := log[..|log| - 1];
    assert log == init + ['\n'];
    SplitConcat(init, rest, '\n');
  }

  /** The lines of a log, and of the log with one more line. */
  lemma LinesOfAppend(log: string, line: string)
    requires EndsLine(log) && '\n' !in line
    ensures var parts := Split(log[..|log| - 1], '\n');
      Split(log, '\n') == parts + [""] && Split(log + line + "\n", '\n') == parts + [line, ""]
  {
    assert Split("", '\n') == [""];
    SplitLine(log, "");
    assert log + "" == log;
    SplitConcat(line, "", '\n');
    SplitOfOne(line, '\n');
    assert line + ['\n'] + "" == line + "\n";
    SplitLine(log, line + "\n");
    assert log + (line + "\n") == log + line + "\n";
    assert [line] + [""] == [line, ""];
  }

  /** Appending a record's line to a log appends the record. */
  lemma AppendIsRead(json: Json, log: string, item: Item)
    requires Lawful(json) && EndsLine(log)
    ensures Records(json, log + EncodeLine(json, item) + "\n") == Records(json, log) + [Some(item)]
    ensures EndsLine(log + EncodeLine(json, item) + "\n")
  {
    var line := EncodeLine(json, item);
    EncodedIsOneLine(json.dumps(item));
    LineIsAdded(log, line);
    assert DecodeLine(json, line) == Some(item) by { DecodeEncode(json.dumps(item)); }
    assert DecodeLines(json, Lines(log) + [line]) == DecodeLines(json, Lines(log)) + [Some(item)];
  }

  lemma LineIsAdded(log: string, line: string)
    requires EndsLine(log) && '\n' !in line && line != ""
    ensures Lines(log + line + "\n") == Lines(log) + [line]
  {
    var parts := Split(log[..|log| - 1], '\n');
    LinesOfAppend(log, line);
    assert (parts + [""])[1..] == parts[1..] + [""];
    assert (parts + [line, ""])[1..] == parts[1..] + [line] + [""];
    NonEmptyAppend(parts[1..], "");
    NonEmptyAppend(parts[1..] + [line], "");
    NonEmptyAppend(parts[1..], line);
  }

  function Somes(items: seq<Item>): (r: seq<Option<Item>>)
    ensures |r| == |items| && forall i :: 0 <= i < |items| ==> r[i] == Some(items[i])
  {
    seq(|items|, i requires 0 <= i < |items| => Some(items[i]))
  }

  lemma HeadlineIsRead(json: Json, fileKey: string)
    requires '\n' !in fileKey
    ensures EndsLine(Headline(fileKey)) && Records(json, Headline(fileKey)) == []
  {
    var init := "BrowserCacheStore V0 " + fileKey + " ";
    assert Headline(fileKey) == init + ['\n'] + "";
    SplitConcat(init, "", '\n');
    SplitOfOne(init, '\n');
    assert Split("", '\n') == [""];
    assert ([init] + [""])[1..] == [""];
    NonEmptyAppend([], "");
    assert [] + [""] == [""];
  }

  /** Writing records under a headline and reading the file gives back the same records. */
  lemma {:induction false} WrittenIsRead(json: Json, fileKey: string, items: seq<Item>)
    requires Lawful(json) && '\n' !in fileKey
    ensures EndsLine(Headline(fileKey) + EncodeLines(json, items))
    ensures Records(json, Headline(fileKey) + EncodeLines(json, items)) == Somes(items)
  {
    HeadlineIsRead(json, fileKey);
    if items == [] {
      assert Headline(fileKey) + "" == Headline(fileKey);
    } else {
      var init, last := items[..|items| - 1], items[|items| - 1];
      WrittenIsRead(json, fileKey, init);
      AppendIsRead(json, Headline(fileKey) + EncodeLines(json, init), last);
      Regroup(Headline(fileKey), EncodeLines(json, init), EncodeLine(json, last), "\n");
      assert Somes(items) == Somes(init) + [Some(last)];
    }
  }

  lemma Regroup(a: string, b: string, c: string, d: string)
    ensures a + (b + c + d) == (a + b) + c + d
  {
  }

  // ---------- Recovery keeps the latest valid record of each key ----------

  /** `records[i]` is valid and no later valid record has its key. */
  ghost predicate IsLatestValid(world: World, records: seq<Option<Item>>, i: int) {
    && 0 <= i < |records| && IsValid(world, records[i])
    && forall j :: i < j < |records| && IsValid(world, records[j]) ==> records[j].value.key != records[i].value.key
  }

  lemma LatestAppend(items: seq<Item>, item: Item)
    ensures Latest(items + [item]) == Put(Latest(items), item.key, item)
  {
    var pairs := KeyPairs(items + [item]);
    assert pairs[..|items|] == KeyPairs(items);
  }

  /** The value recovered for a key is its latest valid record; other keys are not recovered. */
  lemma {:induction false} RecoveryIsLatestValid(world: World, records: seq<Option<Item>>, k: string) returns (i: int)
    ensures k in Latest(Live(world, records)).vals <==> IsLatestValid(world, records, i) && records[i].value.key == k
    ensures k in Latest(Live(world, records)).vals ==> Latest(Live(world, records)).vals[k] == records[i].value
  {
    if records == [] {
      i := -1;
    } else {
      var n := |records| - 1;
      var init, last := records[..n], records[n];
      assert records == init + [last];
      if IsValid(world, last) {
        LatestAppend(Live(world, init), last.value);
      }
      if IsValid(world, last) && last.value.key == k {
        i := n;
      } else {
        var j := RecoveryIsLatestValid(world, init, k);
        i := if 0 <= j < n then j else -1;
        LatestValidAppend(world, init, last, i, k);
      }
    }
  }

  /** A record that is not a valid one of the key does not change which is the latest. */
  lemma LatestValidAppend(world: World, init: seq<Option<Item>>, last: Option<Item>, i: int, k: string)
    requires i < |init| && !(IsValid(world, last) && last.value.key == k)
    ensures IsLatestValid(world, init, i) && init[i].value.key == k <==>
            IsLatestValid(world, init + [last], i) && (init + [last])[i].value.key == k
  {
    var records := init + [last];
    assert forall j :: 0 <= j < |init| ==> records[j] == init[j];
    assert records[|init|] == last;
  }

  // ---------- Compaction ----------

  ghost predicate DistinctKeys(items: seq<Item>) {
    forall i, j :: 0 <= i < j < |items| ==> items[i].key != items[j].key
  }

  /** A dictionary has as many keys as records exactly if no key is repeated. */
  lemma {:induction false} KeysOfDuplicates(items: seq<Item>)
    ensures |Latest(items).keys| <= |items|
    ensures |Latest(items).keys| == |items| <==> DistinctKeys(items)
  {
    if items != [] {
      var n := |items| - 1;
      var init, last := items[..n], items[n];
      assert items == init + [last];
      KeysOfDuplicates(init);
      LatestAppend(init, last);
      KeysOfLatest(init, last.key);
      if last.key in Latest(init).vals {
        var i :| 0 <= i < n && init[i].key == last.key;
        assert items[i].key == items[n].key;
      } else {
        assert DistinctKeys(init) <==> DistinctKeys(items);
      }
    }
  }

  /** Without duplicates the keys are listed in the order of the records. */
  lemma {:induction false} KeysOfDistinct(items: seq<Item>)
    requires DistinctKeys(items)
    ensures |Latest(items).keys| == |items|
    ensures forall i :: 0 <= i < |items| ==> Latest(items).keys[i] == items[i].key
  {
    if items != [] {
      var n := |items| - 1;
      var init, last := items[..n], items[n];
      assert items == init + [last];
      KeysOfDistinct(init);
      LatestAppend(init, last);
      KeysOfLatest(init, last.key);
    }
  }

  lemma LatestOfDistinct(items: seq<Item>)
    requires DistinctKeys(items)
    ensures Values(Latest(items)) == items
  {
    KeysOfDistinct(items);
    forall i | 0 <= i < |items|
      ensures Values(Latest(items))[i] == items[i]
    {
      LastValueWins(KeyPairs(items), i);
    }
  }

  lemma {:induction false} KeysOfLatest(items: seq<Item>, k: string)
    ensures k in Latest(items).vals <==> exists i :: 0 <= i < |items| && items[i].key == k
    ensures k in Latest(items).vals ==> Latest(items).vals[k].key == k && Latest(items).vals[k] in items
  {
    KeysOfPairs(KeyPairs(items), k);
    if k in Latest(items).vals {
      var i := ValueHasLastPair(KeyPairs(items), k);
      assert items[i].key == k;
    }
    forall i | 0 <= i < |items| && items[i].key == k
      ensures HasKey(KeyPairs(items), k)
    {
      assert KeyPairs(items)[i].0 == k;
    }
  }

  /** The values of a recovered dictionary carry their keys: they are distinct and were live. */
  lemma ValuesAreDistinct(items: seq<Item>)
    ensures DistinctKeys(Values(Latest(items)))
    ensures forall v <- Values(Latest(items)) :: v in items
  {
    var d := Latest(items);
    forall i | 0 <= i < |d.keys|
      ensures Values(d)[i].key == d.keys[i] && Values(d)[i] in items
    {
      KeysOfLatest(items, d.keys[i]);
    }
  }

  lemma {:induction false} LiveMembers(world: World, records: seq<Option<Item>>)
    ensures forall item <- Live(world, records) :: IsValid(world, Some(item))
    ensures AllValid(world, records) ==> Somes(Live(world, records)) == records
  {
    if records != [] {
      var n := |records| - 1;
      assert records == records[..n] + [records[n]];
      LiveMembers(world, records[..n]);
      assert AllValid(world, records) ==> AllValid(world, records[..n]) && IsValid(world, records[n]);
    }
  }

  lemma {:induction false} LiveOfValid(world: World, items: seq<Item>)
    requires forall item <- items :: IsValid(world, Some(item))
    ensures Live(world, Somes(items)) == items && AllValid(world, Somes(items))
  {
    if items != [] {
      var n := |items| - 1;
      assert Somes(items)[..n] == Somes(items[..n]);
      assert items == items[..n] + [items[n]];
      LiveOfValid(world, items[..n]);
    }
  }

  lemma LastNMembers<T>(s: seq<T>, n: int)
    ensures forall x <- LastN(s, n) :: x in s
    ensures n > 0 ==> |LastN(s, n)| == if n < |s| then n else |s|
  {
  }

  lemma LastNDistinct(s: seq<Item>, n: int)
    requires DistinctKeys(s)
    ensures DistinctKeys(LastN(s, n))
  {
  }

  /** The records a rewrite keeps are valid, without duplicates and at most `maxCount`. */
  lemma KeptIsClean(world: World, records: seq<Option<Item>>, maxCount: int)
    requires maxCount > 0
    ensures var kept := Kept(world, records, maxCount);
      DistinctKeys(kept) && |kept| <= maxCount && forall item <- kept :: IsValid(world, Some(item))
  {
    var live := Live(world, records);
    ValuesAreDistinct(live);
    LastNMembers(Values(Latest(live)), maxCount);
    LastNDistinct(Values(Latest(live)), maxCount);
    LiveMembers(world, records);
  }

  // ---------- Which records stay ----------

  /** What can be recovered from a record: it is decodable, its file is there and its time has not passed. */
  ghost predicate Recovers(world: World, record: Option<Item>) {
    record.Some? && record.value.file in world.files && world.now <= record.value.expirationTime
  }

  ghost function Recovering(world: World): Option<Item> -> bool {
    (record: Option<Item>) => Recovers(world, record)
  }

  function KeysOf(items: seq<Item>): (r: seq<string>)
    ensures |r| == |items| && forall i :: 0 <= i < |r| ==> r[i] == items[i].key
  {
    seq(|items|, i requires 0 <= i < |items| => items[i].key)
  }

  /** `live` are the records that can be recovered, in order. */
  lemma {:induction false} LiveIsFilter(world: World, records: seq<Option<Item>>)
    ensures IsFilter(Somes(Live(world, records)), records, Recovering(world))
  {
    var keep := Recovering(world);
    if records == [] {
      EmptyFilter(keep);
      assert Somes(Live(world, records)) == [];
    } else {
      var n := |records| - 1;
      var before := Live(world, records[..n]);
      LiveIsFilter(world, records[..n]);
      assert records == records[..n] + [records[n]];
      assert keep(records[n]) <==> IsValid(world, records[n]);
      assert IsValid(world, records[n]) ==> Somes(before + [records[n].value]) == Somes(before) + [records[n]];
      FilterExtended(Somes(before), records[..n], records[n], keep, Somes(Live(world, records)), records);
    }
  }

  /**
    `kept` has the last records of the `count` keys that first appear last, in the order of those
    first appearances; of all keys if there are not more.
   */
  ghost predicate KeepsNewestKeys(live: seq<Item>, kept: seq<Item>, count: nat) {
    && InFirstOrder(KeysOf(kept), KeysOf(live)) && DistinctKeys(kept)
    && (forall item <- kept :: LastOfItsKey(live, item))
    && |kept| <= count
    && (forall key <- KeysOf(live) :: key in KeysOf(kept) || (|kept| == count && OlderThanKept(live, kept, key)))
  }

  ghost predicate OlderThanKept(live: seq<Item>, kept: seq<Item>, key: string) {
    forall k <- KeysOf(kept), i, j :: FirstAt(KeysOf(live), i, key) && FirstAt(KeysOf(live), j, k) ==> i < j
  }

  /** The values of the recovered dictionary: every key once, in the order of first appearance. */
  lemma LatestInOrder(live: seq<Item>)
    ensures var all := Values(Latest(live));
      && KeysOf(all) == Latest(live).keys && InFirstOrder(KeysOf(all), KeysOf(live)) && DistinctKeys(all)
      && (forall item <- all :: LastOfItsKey(live, item))
      && (forall key :: key in KeysOf(live) <==> key in KeysOf(all))
  {
    var d, pairs := Latest(live), KeyPairs(live);
    var all := Values(d);
    KeysInOrder(pairs);
    assert KeyList(pairs) == KeysOf(live);
    ValuesAreDistinct(live);
    forall i | 0 <= i < |d.keys|
      ensures all[i].key == d.keys[i]
    {
      KeysOfLatest(live, d.keys[i]);
    }
    assert KeysOf(all) == d.keys;
    forall item | item in all
      ensures LastOfItsKey(live, item)
    {
      var k :| 0 <= k < |all| && all[k] == item;
      var i := ValueHasLastPair(pairs, d.keys[k]);
      assert LastAt(KeysOf(live), i, item.key);
    }
    forall key
      ensures key in KeysOf(live) <==> key in d.keys
    {
      KeysOfLatest(live, key);
      if key in KeysOf(live) {
        var i :| 0 <= i < |live| && KeysOf(live)[i] == key;
      }
      if i :| 0 <= i < |live| && live[i].key == key {
        assert KeysOf(live)[i] == key;
      }
    }
  }

  ghost predicate LastOfItsKey(live: seq<Item>, item: Item) {
    exists i :: LastAt(KeysOf(live), i, item.key) && live[i] == item
  }

  lemma KeysOfPart(all: seq<Item>, n: nat)
    requires n <= |all|
    ensures KeysOf(all[n..]) == KeysOf(all)[n..]
  {
  }

  lemma PartInOrder(keys: seq<string>, listed: seq<string>, n: nat)
    requires n <= |keys| && InFirstOrder(keys, listed)
    ensures InFirstOrder(keys[n..], listed)
  {
    var part := keys[n..];
    forall a, b, i, j | 0 <= a < b < |part| && FirstAt(listed, i, part[a]) && FirstAt(listed, j, part[b])
      ensures i < j
    {
      assert part[a] == keys[n + a] && part[b] == keys[n + b];
    }
  }

  /** A key left out by a part at the end is older than those in it. */
  lemma LeftOutIsOlder(keys: seq<string>, listed: seq<string>, n: nat, key: string, k: string, i: int, j: int)
    requires n <= |keys| && InFirstOrder(keys, listed) && key in keys && key !in keys[n..] && k in keys[n..]
    requires FirstAt(listed, i, key) && FirstAt(listed, j, k)
    ensures i < j
  {
    var a :| 0 <= a < |keys| && keys[a] == key;
    var b :| 0 <= b < |keys[n..]| && keys[n..][b] == k;
    assert forall x :: n <= x < |keys| ==> keys[n..][x - n] == keys[x];
    assert keys[n + b] == k;
  }

  lemma NewestStay(live: seq<Item>, all: seq<Item>, count: nat, n: nat)
    requires InFirstOrder(KeysOf(all), KeysOf(live)) && DistinctKeys(all)
    requires (forall item <- all :: LastOfItsKey(live, item)) && forall key <- KeysOf(live) :: key in KeysOf(all)
    requires n == if count < |all| then |all| - count else 0
    ensures KeepsNewestKeys(live, all[n..], count)
  {
    KeysOfPart(all, n);
    PartInOrder(KeysOf(all), KeysOf(live), n);
    forall key | key in KeysOf(live) && key !in KeysOf(all[n..])
      ensures n > 0 && OlderThanKept(live, all[n..], key)
    {
      forall k, i, j | k in KeysOf(all[n..]) && FirstAt(KeysOf(live), i, key) && FirstAt(KeysOf(live), j, k)
        ensures i < j
      {
        LeftOutIsOlder(KeysOf(all), KeysOf(live), n, key, k, i, j);
      }
      assert KeysOf(all)[0..] == KeysOf(all);
    }
  }

  lemma KeptIsPart(world: World, records: seq<Option<Item>>, maxCount: nat) returns (n: nat)
    requires maxCount > 0
    ensures var all := Values(Latest(Live(world, records)));
      && n == (if maxCount < |all| then |all| - maxCount else 0) && Kept(world, records, maxCount) == all[n..]
  {
    var all := Values(Latest(Live(world, records)));
    n := if maxCount < |all| then |all| - maxCount else 0;
    assert all[0..] == all;
  }

  /**
    The log after recovery holds the last records of the `maxCount` keys that the log first mentions
    last, among the records that can be recovered: the keys first recorded are evicted first.
   */
  lemma OldestKeysAreEvicted(json: Json, fileKey: string, world: World, log: string, maxCount: int)
    returns (live: seq<Item>, kept: seq<Item>)
    requires Lawful(json) && '\n' !in fileKey && maxCount > 0
    ensures IsFilter(Somes(live), Records(json, log), Recovering(world))
    ensures Records(json, Compacted(json, fileKey, world, log, maxCount)) == Somes(kept)
    ensures KeepsNewestKeys(live, kept, maxCount)
  {
    var records := Records(json, log);
    live, kept := Live(world, records), Kept(world, records, maxCount);
    LiveIsFilter(world, records);
    CompactedHoldsKept(json, fileKey, world, log, maxCount);
    LatestInOrder(live);
    var n := KeptIsPart(world, records, maxCount);
    NewestStay(live, Values(Latest(live)), maxCount, n);
  }

  /** A clean list of records needs no rewrite, and recovers to itself. */
  lemma CleanIsStable(world: World, items: seq<Item>, maxCount: int)
    requires maxCount > 0 && DistinctKeys(items) && |items| <= maxCount
    requires forall item <- items :: IsValid(world, Some(item))
    ensures !NeedsRewrite(world, Somes(items), maxCount)
    ensures Kept(world, Somes(items), maxCount) == items
  {
    LiveOfValid(world, items);
    KeysOfDistinct(items);
    LatestOfDistinct(items);
  }

  /** The records of a log that needs no rewrite are clean. */
  lemma UntouchedIsClean(world: World, records: seq<Option<Item>>, maxCount: int)
    requires !NeedsRewrite(world, records, maxCount)
    ensures var live := Live(world, records);
      && records == Somes(live) && DistinctKeys(live) && |live| <= maxCount
      && (forall item <- live :: IsValid(world, Some(item)))
      && Kept(world, records, maxCount) == live
  {
    LiveMembers(world, records);
    KeysOfDuplicates(Live(world, records));
    LatestOfDistinct(Live(world, records));
  }

  /** After recovery the log holds exactly the kept records. */
  lemma CompactedHoldsKept(json: Json, fileKey: string, world: World, log: string, maxCount: int)
    requires Lawful(json) && '\n' !in fileKey && maxCount > 0
    ensures Records(json, Compacted(json, fileKey, world, log, maxCount)) ==
            Somes(Kept(world, Records(json, log), maxCount))
  {
    var records := Records(json, log);
    if NeedsRewrite(world, records, maxCount) {
      WrittenIsRead(json, fileKey, Kept(world, records, maxCount));
    } else {
      UntouchedIsClean(world, records, maxCount);
    }
  }

  /**
    Compaction: the log after recovery holds at most `maxCount` records, all valid, none twice;
    recovering it again at the same instant keeps the same records and rewrites nothing.
   */
  lemma CompactionIsIdempotent(json: Json, fileKey: string, world: World, log: string, maxCount: int, log': string)
    requires Lawful(json) && '\n' !in fileKey && maxCount > 0
    requires log' == Compacted(json, fileKey, world, log, maxCount)
    ensures |Records(json, log')| <= maxCount && AllValid(world, Records(json, log'))
    ensures DistinctKeys(Live(world, Records(json, log')))
    ensures Kept(world, Records(json, log'), maxCount) == Kept(world, Records(json, log), maxCount)
    ensures !NeedsRewrite(world, Records(json, log'), maxCount)
    ensures Compacted(json, fileKey, world, log', maxCount) == log'
  {
    var kept := Kept(world, Records(json, log), maxCount);
    CompactedHoldsKept(json, fileKey, world, log, maxCount);
    KeptIsClean(world, Records(json, log), maxCount);
    CleanIsStable(world, kept, maxCount);
    LiveOfValid(world, kept);
  }

  /** With `maxCount` zero nothing is evicted and every recovery of a live record rewrites the log. */
  lemma ZeroMaxCountEvictsNothing(json: Json, fileKey: string, world: World, log: string)
    requires Lawful(json) && '\n' !in fileKey && Live(world, Records(json, log)) != []
    ensures var log' := Compacted(json, fileKey, world, log, 0);
      && |Records(json, log')| == |Latest(Live(world, Records(json, log))).keys| > 0
      && NeedsRewrite(world, Records(json, log'), 0)
  {
    var records := Records(json, log);
    var live := Live(world, records);
    WrittenIsRead(json, fileKey, Kept(world, records, 0));
    assert LastN(Values(Latest(live)), 0) == Values(Latest(live));
    KeysOfLatest(live, live[0].key);
    ValuesAreDistinct(live);
    LiveMembers(world, records);
    LiveOfValid(world, Values(Latest(live)));
  }

  // ---------- Memory against log ----------

  /** The last-write-wins replay of the readable records of a log. */
  function Readable(records: seq<Option<Item>>): (r: seq<Item>) {
    if records == [] then []
    else
      var n := |records| - 1;
      if records[n].Some? then Readable(records[..n]) + [records[n].value] else Readable(records[..n])
  }

  function Replay(json: Json, log: string): map<string, Item> {
    Latest(Readable(Records(json, log))).vals
  }

  lemma {:induction false} ReadableSomes(items: seq<Item>)
    ensures Readable(Somes(items)) == items
  {
    if items != [] {
      var n := |items| - 1;
      assert Somes(items)[..n] == Somes(items[..n]);
      assert items == items[..n] + [items[n]];
      ReadableSomes(items[..n]);
    }
  }

  /** Listing the values of a dictionary of records and replaying them gives the dictionary back. */
  lemma ReplayOfValues(items: seq<Item>)
    ensures Latest(Values(Latest(items))).vals == Latest(items).vals
  {
    var d := Latest(items);
    var values := Values(d);
    ValuesAreDistinct(items);
    KeysOfDistinct(values);
    LatestOfDistinct(values);
    forall i | 0 <= i < |values|
      ensures Latest(values).keys[i] == d.keys[i]
    {
      KeysOfLatest(items, d.keys[i]);
    }
    SameListing(Latest(values), d);
  }

  lemma SameListing(a: Dict<string, Item>, b: Dict<string, Item>)
    requires Valid(a) && Valid(b) && a.keys == b.keys && Values(a) == Values(b)
    ensures a.vals == b.vals
  {
    forall k | k in a.vals
      ensures k in b.vals && a.vals[k] == b.vals[k]
    {
      assert k in a.keys;
      var i :| 0 <= i < |a.keys| && a.keys[i] == k;
      assert Values(a)[i] == Values(b)[i];
    }
    assert forall k :: k in b.vals ==> k in b.keys;
  }

  /** The replay of a recovered log is the memory recovered with it, exactly when nothing is evicted. */
  lemma MemoryMirrorsLog(json: Json, fileKey: string, world: World, log: string, maxCount: int)
    requires Lawful(json) && '\n' !in fileKey && maxCount > 0
    ensures var memory := Latest(Live(world, Records(json, log)));
      Replay(json, Compacted(json, fileKey, world, log, maxCount)) == memory.vals <==> |memory.keys| <= maxCount
  {
    var records := Records(json, log);
    var live := Live(world, records);
    var kept := Kept(world, records, maxCount);
    CompactedHoldsKept(json, fileKey, world, log, maxCount);
    ReadableSomes(kept);
    if |Latest(live).keys| <= maxCount {
      assert kept == Values(Latest(live));
      ReplayOfValues(live);
    } else {
      KeyCount(Latest(live));
      KeyCount(Latest(kept));
      KeysOfDuplicates(kept);
    }
  }

  // ---------- Runs of the initialised store ----------

  /** The memory and the log of a store in disk mode. */
  datatype StoreState = StoreState(items: Dict<string, Item>, log: string)

  /** What a call does to the store: cache a record, look a key up, clear. */
  datatype Op = Write(item: Item) | Lookup(key: string, fileExists: bool) | Clear(memory: bool, file: bool)

  function Apply(json: Json, fileKey: string, s: StoreState, op: Op): (r: StoreState)
    requires Valid(s.items)
    ensures Valid(r.items)
  {
    match op
    case Write(item) => StoreState(Put(s.items, item.key, item), s.log + EncodeLine(json, item) + "\n")
    case Lookup(key, fileExists) =>
      if key in s.items.vals && !fileExists then s.(items := Removed(s.items, key)) else s
    case Clear(memory, file) =>
      StoreState(if memory then Empty() else s.items, if file then Headline(fileKey) else s.log)
  }

  function Play(json: Json, fileKey: string, s: StoreState, ops: seq<Op>): (r: StoreState)
    requires Valid(s.items)
    ensures Valid(r.items)
  {
    if ops == [] then s
    else Apply(json, fileKey, Play(json, fileKey, s, ops[..|ops| - 1]), ops[|ops| - 1])
  }

  /** The logged keys that memory misses, after one more call. */
  function Forgotten(s: StoreState, missing: set<string>, op: Op): set<string> {
    match op
    case Write(item) => missing - {item.key}
    case Lookup(key, fileExists) => if key in s.items.vals && !fileExists then missing + {key} else missing
    case Clear(memory, file) => if file then {} else if memory then missing + s.items.vals.Keys else missing
  }

  /** Memory is the replay of the log without the missing keys. */
  ghost predicate Mirrors(json: Json, s: StoreState, missing: set<string>) {
    && Valid(s.items) && EndsLine(s.log)
    && missing <= Replay(json, s.log).Keys
    && s.items.vals == Replay(json, s.log) - missing
  }

  lemma ReplayOfAppend(json: Json, log: string, item: Item)
    requires Lawful(json) && EndsLine(log)
    ensures EndsLine(log + EncodeLine(json, item) + "\n")
    ensures Replay(json, log + EncodeLine(json, item) + "\n") == Replay(json, log)[item.key := item]
  {
    AppendIsRead(json, log, item);
    var records := Records(json, log);
    assert (records + [Some(item)])[..|records|] == records;
    LatestAppend(Readable(records), item);
  }

  lemma ReplayOfHeadline(json: Json, fileKey: string)
    requires '\n' !in fileKey
    ensures EndsLine(Headline(fileKey)) && Replay(json, Headline(fileKey)) == map[]
  {
    HeadlineIsRead(json, fileKey);
  }

  /** Every call but the clearing of the file alone keeps memory a mirror of the log. */
  lemma CallKeepsMirror(json: Json, fileKey: string, s: StoreState, missing: set<string>, op: Op)
    requires Lawful(json) && '\n' !in fileKey && Mirrors(json, s, missing)
    requires op != Clear(false, true)
    ensures Mirrors(json, Apply(json, fileKey, s, op), Forgotten(s, missing, op))
  {
    match op
    case Write(item) =>
      ReplayOfAppend(json, s.log, item);
      UpdateAndForget(Replay(json, s.log), missing, item.key, item);
    case Lookup(key, _) => RemoveAndMiss(Replay(json, s.log), missing, key);
    case Clear(_, _) => ReplayOfHeadline(json, fileKey);
  }

  lemma UpdateAndForget<V>(m: map<string, V>, missing: set<string>, k: string, v: V)
    ensures (m - missing)[k := v] == m[k := v] - (missing - {k})
  {
  }

  lemma RemoveAndMiss<V>(m: map<string, V>, missing: set<string>, k: string)
    ensures m - missing - {k} == m - (missing + {k})
  {
  }

  /** Clearing the file alone leaves records in memory that the log does not hold, unless there are none. */
  lemma ClearingFileAlone(json: Json, fileKey: string, s: StoreState, missing: set<string>)
    requires '\n' !in fileKey && Mirrors(json, s, missing)
    ensures var s' := Apply(json, fileKey, s, Clear(false, true));
      (s'.items.vals.Keys <= Replay(json, s'.log).Keys) <==> s.items.vals == map[]
  {
    ReplayOfHeadline(json, fileKey);
  }

  /** The calls of a run in which the log is only cleared together with the memory. */
  ghost predicate Regular(ops: seq<Op>) {
    forall op <- ops :: op.Clear? ==> op.memory == op.file
  }

  /**
    Along every such run of a store that mirrors its log, memory holds only what the replay of the
    log holds, with the same values, and lacks only keys that a lookup has dropped.
   */
  lemma {:induction false} RunMirrorsLog(json: Json, fileKey: string, s: StoreState, ops: seq<Op>)
    returns (missing: set<string>)
    requires Lawful(json) && '\n' !in fileKey && Mirrors(json, s, {}) && Regular(ops)
    ensures Mirrors(json, Play(json, fileKey, s, ops), missing)
    ensures forall k <- missing :: Lookup(k, false) in ops
  {
    if ops == [] {
      missing := {};
    } else {
      var n := |ops| - 1;
      assert forall op <- ops[..n] :: op in ops;
      assert ops[n] in ops;
      var before := RunMirrorsLog(json, fileKey, s, ops[..n]);
      var t := Play(json, fileKey, s, ops[..n]);
      if ops[n].Clear? && !ops[n].memory {
        missing := before;
      } else {
        CallKeepsMirror(json, fileKey, t, before, ops[n]);
        missing := Forgotten(t, before, ops[n]);
      }
    }
  }

  // ---------- The store ----------

  datatype Request = Request(verb: string, userAgent: string, hasUserInfo: bool, sessionKey: string, key: string)

  datatype Response = Response(
    directive: Option<string>,
    cacheControl: string,
    headers: map<string, string>,
    expirationTime: real)

  predicate IsGetRequestFromBrowser(request: Request) {
    request.verb == "GET" &&
    exists keyword <- ["mozilla", "chrome", "safari", "firefox", "opera", "edge"] ::
      Contains(Lower(request.userAgent), keyword)
  }

  predicate IsCacheable(response: Response) {
    && response.directive.Some?
    && (forall d <- ["no-cache", "no-store", "max-age=0"] :: !Contains(response.cacheControl, d))
    && Contains(response.cacheControl, "max-age=")
  }

  ghost predicate SameLetter(c: char, small: char) {
    c == small || ('A' <= c <= 'Z' && c as int + 32 == small as int)
  }

  /** The text has the word at place `i`, in small or capital letters. */
  ghost predicate WordAt(s: string, word: string, i: int) {
    0 <= i && i + |word| <= |s| && forall k :: 0 <= k < |word| ==> SameLetter(s[i + k], word[k])
  }

  lemma {:induction false} LowerLetter(s: string, i: nat)
    requires i < |s|
    ensures Lower(s)[i] == if 'A' <= s[i] <= 'Z' then (s[i] as int + 32) as char else s[i]
  {
    if i > 0 {
      LowerLetter(s[1..], i - 1);
    }
  }

  lemma WordOfLower(s: string, word: string, i: int)
    requires forall k :: 0 <= k < |word| ==> 'a' <= word[k] <= 'z'
    ensures PartAt(Lower(s), word, i) <==> WordAt(s, word, i)
  {
    if 0 <= i && i + |word| <= |s| {
      var part := Lower(s)[i..i + |word|];
      forall k | 0 <= k < |word|
        ensures SameLetter(s[i + k], word[k]) <==> part[k] == word[k]
      {
        LowerLetter(s, i + k);
      }
    }
  }

  /** The name of a browser stands in the text, in whatever letters. */
  ghost predicate NamesBrowser(s: string) {
    exists name, i :: WordAt(s, name, i) && name in ["mozilla", "chrome", "safari", "firefox", "opera", "edge"]
  }

  /** What counts as a request from a browser. */
  lemma BrowserRequests(request: Request)
    ensures IsGetRequestFromBrowser(request) <==> request.verb == "GET" && NamesBrowser(request.userAgent)
  {
    var names := ["mozilla", "chrome", "safari", "firefox", "opera", "edge"];
    forall name | name in names
      ensures Contains(Lower(request.userAgent), name) <==> exists i :: WordAt(request.userAgent, name, i)
    {
      BrowserWord(request.userAgent, name);
    }
  }

  lemma BrowserWord(s: string, name: string)
    requires forall k :: 0 <= k < |name| ==> 'a' <= name[k] <= 'z'
    ensures Contains(Lower(s), name) <==> exists i :: WordAt(s, name, i)
  {
    ContainsAt(Lower(s), name);
    forall i
      ensures PartAt(Lower(s), name, i) <==> WordAt(s, name, i)
    {
      WordOfLower(s, name, i);
    }
  }

  ghost predicate Mentions(s: string, part: string) {
    exists i :: PartAt(s, part, i)
  }

  /** What counts as a response to cache. */
  lemma CacheableResponses(response: Response)
    ensures IsCacheable(response) <==>
      && response.directive.Some? && Mentions(response.cacheControl, "max-age=")
      && !Mentions(response.cacheControl, "no-cache") && !Mentions(response.cacheControl, "no-store")
      && !Mentions(response.cacheControl, "max-age=0")
  {
    ContainsAt(response.cacheControl, "max-age=");
    ContainsAt(response.cacheControl, "no-cache");
    ContainsAt(response.cacheControl, "no-store");
    ContainsAt(response.cacheControl, "max-age=0");
    var refused := ["no-cache", "no-store", "max-age=0"];
    assert refused[0] == "no-cache" && refused[1] == "no-store" && refused[2] == "max-age=0";
    assert forall d :: d in refused <==> d == "no-cache" || d == "no-store" || d == "max-age=0";
  }

  function ItemOf(request: Request, response: Response): Item
    requires response.directive.Some?
  {
    Item(request.key, response.directive.value, response.headers, response.expirationTime)
  }

  /** The file still has the size announced when it was cached. */
  predicate SameLength(world: World, item: Item) {
    item.file in world.files &&
    ("content-length" in item.headers ==> ToString(world.files[item.file]) == item.headers["content-length"])
  }

  /**
    The state of a store: the key of its session once initialised, the records in memory, the
    content of the session's file if there is one, and whether the store holds it open.
   */
  datatype Snapshot = Snapshot(fileKey: Option<string>, items: Dict<string, Item>, log: Option<string>, holdsFile: bool)

  ghost predicate Consistent(s: Snapshot) {
    && Valid(s.items)
    && (s.fileKey.None? ==> s.items == Empty() && !s.holdsFile)
    && (s.holdsFile ==> s.log.Some?)
  }

  datatype Settings = Settings(json: Json, disk: bool, maxCount: int)

  predicate CanServe(s: Snapshot, request: Request) {
    s.fileKey.Some? || request.hasUserInfo
  }

  /** The store after its first request: recovered from the log in disk mode. */
  function Initialised(c: Settings, s: Snapshot, request: Request, world: World): (r: Snapshot)
    requires Valid(s.items)
    ensures Valid(r.items)
  {
    if s.fileKey.Some? || !request.hasUserInfo then s
    else if !c.disk then s.(fileKey := Some(request.sessionKey))
    else
      var found := if s.log.Some? then s.log.value else Headline(request.sessionKey);
      Snapshot(Some(request.sessionKey), Latest(Live(world, Records(c.json, found))),
               Some(Compacted(c.json, request.sessionKey, world, found, c.maxCount)), true)
  }

  /** A call on the store; the log follows only while the store holds it open. */
  function Perform(c: Settings, s: Snapshot, op: Op): (r: Snapshot)
    requires Valid(s.items)
    ensures Valid(r.items)
  {
    var fileKey := if s.fileKey.Some? then s.fileKey.value else "";
    var t := Apply(c.json, fileKey, StoreState(s.items, if s.log.Some? then s.log.value else ""), op);
    s.(items := t.items, log := if s.holdsFile then Some(t.log) else s.log)
  }

  class BrowserCacheStore {
    const settings: Settings
    var fileKey: Option<string>
    var items: Dict<string, Item>
    var log: Option<string>
    var holdsFile: bool

    function State(): Snapshot
      reads this
    {
      Snapshot(fileKey, items, log, holdsFile)
    }

    constructor (settings: Settings, log: Option<string>)
      ensures this.settings == settings && State() == Snapshot(None, Empty(), log, false) && Consistent(State())
    {
      this.settings, this.log := settings, log;
      fileKey, items, holdsFile := None, Empty(), false;
    }

    /** The readable, present and unexpired records, in order; the others are counted. */
    method SanityCheck(world: World, records: seq<Option<Item>>) returns (live: seq<Item>, corrupted: nat, expired: nat)
      ensures live == Live(world, records)
      ensures corrupted + expired == 0 <==> AllValid(world, records)
    {
      live, corrupted, expired := [], 0, 0;
      for i := 0 to |records|
        invariant live == Live(world, records[..i])
        invariant corrupted + expired == 0 <==> AllValid(world, records[..i])
      {
        var record := records[i];
        assert records[..i + 1] == records[..i] + [record];
        assert forall r :: r in records[..i + 1] <==> r in records[..i] || r == record;
        if record.None? || record.value.file !in world.files {
          corrupted := corrupted + 1;
        } else if world.now > record.value.expirationTime {
          expired := expired + 1;
        } else {
          live := live + [record.value];
        }
      }
      assert records[..|records|] == records;
    }

    method InitCache(request: Request, world: World) returns (ok: bool)
      requires Consistent(State())
      modifies this
      ensures Consistent(State()) && ok == CanServe(old(State()), request)
      ensures State() == Initialised(settings, old(State()), request, world)
    {
      if fileKey.Some? {
        return true;
      }
      if !request.hasUserInfo {
        return false;
      }
      fileKey := Some(request.sessionKey);
      if !settings.disk {
        return true;
      }
      if log.None? {
        log := Some(Headline(request.sessionKey));
      }
      var records := Records(settings.json, log.value);
      var live, corrupted, expired := SanityCheck(world, records);
      items := Latest(live);
      var duplicates := |items.keys| != |live|;
      if duplicates || corrupted > 0 || expired > 0 || |live| > settings.maxCount {
        var kept := LastN(Values(items), settings.maxCount);
        log := Some(Headline(request.sessionKey) + EncodeLines(settings.json, kept));
      }
      holdsFile := true;
      ok := true;
    }

    /** Caching is the call `Write`; a request or a response that does not qualify changes nothing more. */
    method CacheIfNeeded(request: Request, response: Response, world: World) returns (r: Option<Item>)
      requires Consistent(State())
      modifies this
      ensures Consistent(State())
      ensures r == if (old(fileKey).Some? || request.hasUserInfo) && IsGetRequestFromBrowser(request)
                      && IsCacheable(response)
                   then Some(Item(request.key, response.directive.value, response.headers, response.expirationTime))
                   else None
      ensures var s := Initialised(settings, old(State()), request, world);
        State() == if r.Some? then Perform(settings, s, Write(r.value)) else s
    {
      var initialised := InitCache(request, world);
      if !initialised || !IsGetRequestFromBrowser(request) || !IsCacheable(response) {
        return None;
      }
      var item := ItemOf(request, response);
      items := Put(items, request.key, item);
      if holdsFile {
        log := Some(log.value + EncodeLine(settings.json, item) + "\n");
      }
      r := Some(item);
    }

    /** Reading is the call `Lookup`: it answers the record of the key whose file is as announced. */
    method TryGet(request: Request, world: World) returns (r: Option<Item>)
      requires Consistent(State())
      modifies this
      ensures Consistent(State())
      ensures var s := Initialised(settings, old(State()), request, world);
        var served := (old(fileKey).Some? || request.hasUserInfo) && IsGetRequestFromBrowser(request) &&
          request.key in s.items.vals;
        && (r.Some? <==>
              && served && s.items.vals[request.key].file in world.files
              && ("content-length" in s.items.vals[request.key].headers ==>
                    s.items.vals[request.key].headers["content-length"] ==
                    ToString(world.files[s.items.vals[request.key].file])))
        && (r.Some? ==> r.value == s.items.vals[request.key])
        && State() == if served
                      then Perform(settings, s, Lookup(request.key, s.items.vals[request.key].file in world.files))
                      else s
    {
      var initialised := InitCache(request, world);
      if !initialised || !IsGetRequestFromBrowser(request) {
        return None;
      }
      if request.key !in items.vals {
        return None;
      }
      var item := items.vals[request.key];
      if item.file !in world.files {
        items := Removed(items, request.key);
        return None;
      }
      if "content-length" in item.headers && ToString(world.files[item.file]) != item.headers["content-length"] {
        return None;
      }
      r := Some(item);
    }

    /** `None`: in disk mode the file must be open to be cleared, the call fails after clearing memory otherwise. */
    method ClearItems(memory: bool, file: bool) returns (count: Option<nat>)
      requires Consistent(State())
      modifies this
      ensures Consistent(State())
      ensures count == if file && settings.disk && !old(holdsFile) then None else Some(|old(items).keys|)
      ensures State() == Perform(settings, old(State()), Clear(memory, file && settings.disk))
    {
      var n := |items.keys|;
      if memory {
        items := Empty();
      }
      if file && settings.disk {
        if !holdsFile {
          return None;
        }
        log := Some(Headline(fileKey.value));
      }
      count := Some(n);
    }
  }

  /** A store recovered from a log of at most `maxCount` live keys mirrors the log it leaves. */
  lemma RecoveredMirrors(json: Json, fileKey: string, world: World, found: string, maxCount: int)
    requires Lawful(json) && '\n' !in fileKey && maxCount > 0 && EndsLine(found)
    requires |Latest(Live(world, Records(json, found))).keys| <= maxCount
    ensures Mirrors(json, StoreState(Latest(Live(world, Records(json, found))),
                                     Compacted(json, fileKey, world, found, maxCount)), {})
  {
    var memory, log := Latest(Live(world, Records(json, found))), Compacted(json, fileKey, world, found, maxCount);
    MemoryMirrorsLog(json, fileKey, world, found, maxCount);
    CompactedEndsLine(json, fileKey, world, found, maxCount);
    NothingMissing(json, StoreState(memory, log));
  }

  lemma CompactedEndsLine(json: Json, fileKey: string, world: World, found: string, maxCount: int)
    requires Lawful(json) && '\n' !in fileKey && EndsLine(found)
    ensures EndsLine(Compacted(json, fileKey, world, found, maxCount))
  {
    WrittenIsRead(json, fileKey, Kept(world, Records(json, found), maxCount));
  }

  lemma NothingMissing(json: Json, s: StoreState)
    requires Valid(s.items) && EndsLine(s.log) && Replay(json, s.log) == s.items.vals
    ensures Mirrors(json, s, {})
  {
    assert Replay(json, s.log) - {} == Replay(json, s.log);
  }

  // ---------- From the first request on ----------

  function PerformAll(c: Settings, s: Snapshot, ops: seq<Op>): (r: Snapshot)
    requires Valid(s.items)
    ensures Valid(r.items)
  {
    if ops == [] then s else Perform(c, PerformAll(c, s, ops[..|ops| - 1]), ops[|ops| - 1])
  }

  /** While the store holds its file open, its calls are those of memory and log. */
  lemma {:induction false} PerformIsPlay(c: Settings, s: Snapshot, ops: seq<Op>)
    requires Valid(s.items) && s.fileKey.Some? && s.log.Some? && s.holdsFile
    ensures var t := Play(c.json, s.fileKey.value, StoreState(s.items, s.log.value), ops);
      PerformAll(c, s, ops) == Snapshot(s.fileKey, t.items, Some(t.log), true)
  {
    if ops != [] {
      PerformIsPlay(c, s, ops[..|ops| - 1]);
    }
  }

  /** The first request of an identified user, field by field. */
  lemma FirstRequest(c: Settings, s: Snapshot, request: Request, world: World)
    requires Consistent(s) && s.fileKey.None?
    ensures !request.hasUserInfo ==> Initialised(c, s, request, world) == s
    ensures request.hasUserInfo && !c.disk ==>
      Initialised(c, s, request, world) == Snapshot(Some(request.sessionKey), Empty(), s.log, false)
    ensures request.hasUserInfo && c.disk && s.log.None? && '\n' !in request.sessionKey && Lawful(c.json) ==>
      Initialised(c, s, request, world) ==
        Snapshot(Some(request.sessionKey), Empty(), Some("BrowserCacheStore V0 " + request.sessionKey + " \n"), true)
  {
    if request.hasUserInfo && c.disk && s.log.None? && '\n' !in request.sessionKey && Lawful(c.json) {
      var found := Headline(request.sessionKey);
      HeadlineIsRead(c.json, request.sessionKey);
      assert Records(c.json, found) == [];
      assert found + "" == found;
    }
  }

  /** A later request finds the store initialised and leaves it as it is. */
  lemma LaterRequest(c: Settings, s: Snapshot, request: Request, world: World)
    requires Valid(s.items) && s.fileKey.Some?
    ensures Initialised(c, s, request, world) == s
  {
  }

  /** The log the first request finds, or starts. */
  function Found(s: Snapshot, request: Request): string {
    if s.log.Some? then s.log.value else Headline(request.sessionKey)
  }

  /**
    From the first request of an identified user on, in disk mode and with at most `maxCount` live
    keys in the log found, along every run whose log is only cleared with the memory: the memory of
    the store is the last-write-wins replay of its log, without keys that a lookup has dropped.
   */
  lemma StoreMirrorsLog(c: Settings, s: Snapshot, request: Request, world: World, ops: seq<Op>)
    returns (missing: set<string>)
    requires Lawful(c.json) && c.disk && c.maxCount > 0 && '\n' !in request.sessionKey
    requires Consistent(s) && s.fileKey.None? && request.hasUserInfo && (s.log.Some? ==> EndsLine(s.log.value))
    requires |Latest(Live(world, Records(c.json, Found(s, request)))).keys| <= c.maxCount && Regular(ops)
    ensures var e := PerformAll(c, Initialised(c, s, request, world), ops);
      e.log.Some? && e.holdsFile && Mirrors(c.json, StoreState(e.items, e.log.value), missing)
    ensures forall k <- missing :: Lookup(k, false) in ops
  {
    var found, start := Found(s, request), Initialised(c, s, request, world);
    HeadlineIsRead(c.json, request.sessionKey);
    RecoveredMirrors(c.json, request.sessionKey, world, found, c.maxCount);
    missing := RunMirrorsLog(c.json, request.sessionKey, StoreState(start.items, start.log.value), ops);
    PerformIsPlay(c, start, ops);
  }
}
