/** The positions that order the documents of a story, as fixed-width text. */
module StoryPositions {
  import opened Decimal
  import opened Sequences
  import opened Text
  import opened Wrappers

  /** Positions are counted in millionths. */
  const UNIT := 1000000
  const WIDTH := 6

  /** The fraction of the clock, rounded to millionths: it can round up to a whole. */
  type Fraction = d: nat | d <= 1000000

  // ---------- Text ----------

  /** `f"{index:.6f}"`, its whole part padded to six characters. */
  function Format(index: int): string {
    var whole := if index < 0 then "-" + ToString(-index / UNIT) else ToString(index / UNIT);
    var fraction := if index < 0 then -index % UNIT else index % UNIT;
    ZeroFill(whole, WIDTH) + "." + Digits(fraction, 6)
  }

  predicate IsDigits(s: string) {
    forall i :: 0 <= i < |s| ==> '0' <= s[i] <= '9'
  }

  predicate IsDecimal(parts: seq<string>) {
    |parts| == 2 && IsDigits(parts[0]) && IsDigits(parts[1]) && |parts[1]| == 6
  }

  function DecimalValue(parts: seq<string>): nat
    requires IsDecimal(parts)
  {
    Value(parts[0]) * UNIT + Value(parts[1])
  }

  /** `float` on texts with six decimals. */
  function Parse(text: string): Option<nat> {
    var parts := Split(text, '.');
    if IsDecimal(parts) then Some(DecimalValue(parts)) else None
  }

  function PositionStart(delta: Fraction): string {
    Format(500000 * UNIT + delta)
  }

  /** `None` when the text is no number. */
  function PositionNext(text: string, delta: Fraction): Option<string> {
    match Parse(text)
    case None => None
    case Some(index) => Some(Format((index / UNIT + 1) * UNIT + delta))
  }

  lemma {:induction false} ValueOfZeros(k: nat)
    ensures Value(Zeros(k)) == 0
  {
    if k > 0 {
      assert Zeros(k)[..k - 1] == Zeros(k - 1);
      ValueOfZeros(k - 1);
    }
  }

  lemma {:induction false} ValueOfPadded(k: nat, s: string)
    requires IsDigits(s)
    ensures IsDigits(Zeros(k) + s) && Value(Zeros(k) + s) == Value(s)
  {
    if s == "" {
      ValueOfZeros(k);
      assert Zeros(k) + s == Zeros(k);
    } else {
      var n := |s| - 1;
      ValueOfPadded(k, s[..n]);
      assert (Zeros(k) + s)[..k + n] == Zeros(k) + s[..n];
    }
  }

  lemma SplitAtPoint(whole: string, fraction: string)
    requires '.' !in whole && '.' !in fraction
    ensures Split(whole + "." + fraction, '.') == [whole, fraction]
  {
    SplitConcat(whole, fraction, '.');
    SplitOfOne(whole, '.');
    SplitOfOne(fraction, '.');
  }

  lemma ParseText(whole: string, fraction: string)
    requires IsDecimal([whole, fraction])
    ensures Parse(whole + "." + fraction) == Some(DecimalValue([whole, fraction]))
  {
    SplitAtPoint(whole, fraction);
  }

  lemma PaddedWhole(text: string, whole: string)
    requires IsDigits(text) && whole == ZeroFill(text, WIDTH)
    ensures IsDigits(whole) && Value(whole) == Value(text)
  {
    var k := if |text| < WIDTH then WIDTH - |text| else 0;
    assert whole == Zeros(k) + text;
    ValueOfPadded(k, text);
  }

  lemma FractionDigits(n: nat, fraction: string)
    requires n < UNIT && fraction == Digits(n, 6)
    ensures IsDigits(fraction) && |fraction| == 6 && Value(fraction) == n
  {
    PowersOfTen();
    ValueOfDigits(n, 6);
  }

  /** Reading back a written position. */
  lemma ParseFormat(index: nat)
    ensures Parse(Format(index)) == Some(index)
  {
    var whole, fraction := ZeroFill(ToString(index / UNIT), WIDTH), Digits(index % UNIT, 6);
    PaddedWhole(ToString(index / UNIT), whole);
    ValueOfToString(index / UNIT);
    FractionDigits(index % UNIT, fraction);
    ParseText(whole, fraction);
    assert DecimalValue([whole, fraction]) == index;
  }

  /** The next position is strictly after, even when the fraction rounds up to a whole. */
  lemma NextIsGreater(index: nat, delta: Fraction)
    ensures var next := PositionNext(Format(index), delta);
      next.Some? && Parse(next.value).Some? && index < Parse(next.value).value <= (index / UNIT + 2) * UNIT
  {
    ParseFormat(index);
    ParseFormat((index / UNIT + 1) * UNIT + delta);
  }

  // ---------- Order ----------

  /** The positions the fixed width has room for. */
  predicate FitsWidth(index: int) {
    0 <= index < UNIT * UNIT
  }

  /** The sign of a padded negative number comes before any digit. */
  lemma {:induction false} SignFirst(k: nat, rest: string, text: string)
    requires |text| > k && forall i :: 0 <= i <= k ==> '0' <= text[i] <= '9'
    ensures LexLess(Zeros(k) + "-" + rest, text)
  {
    var negative := Zeros(k) + "-" + rest;
    if k > 0 {
      SignFirst(k - 1, rest, text[1..]);
      assert negative[1..] == Zeros(k - 1) + "-" + rest;
    }
  }

  lemma FormatIsDigits(index: nat)
    requires FitsWidth(index)
    ensures Format(index) == Digits(index / UNIT, 6) + ("." + Digits(index % UNIT, 6))
  {
    PowersOfTen();
    ZeroFillIsDigits(index / UNIT, 6);
  }

  lemma PointedOrder(a: string, b: string, c: string, d: string)
    requires |a| == |c|
    ensures LexLess(a + ("." + b), c + ("." + d)) <==> LexLess(a, c) || (a == c && LexLess(b, d))
  {
    LexLessConcat(a, "." + b, c, "." + d);
    LexLessConcat(".", b, ".", d);
    LexLessTotal(".", ".");
  }

  lemma OrderWithinWidth(m: nat, n: nat)
    requires FitsWidth(m) && FitsWidth(n)
    ensures LexLess(Format(m), Format(n)) <==> m < n
  {
    var w, f, w', f' := m / UNIT, m % UNIT, n / UNIT, n % UNIT;
    var a, b, c, d := Digits(w, 6), Digits(f, 6), Digits(w', 6), Digits(f', 6);
    assert Format(m) == a + ("." + b) && Format(n) == c + ("." + d) by {
      FormatIsDigits(m);
      FormatIsDigits(n);
    }
    PointedOrder(a, b, c, d);
    assert (LexLess(a, c) <==> w < w') && (LexLess(b, d) <==> f < f') && (a == c <==> w == w') by {
      PowersOfTen();
      DigitsOrder(w, w', 6);
      DigitsOrder(f, f', 6);
      ValueOfDigits(w, 6);
      ValueOfDigits(w', 6);
    }
  }

  lemma NegativeFirst(m: int, n: nat)
    requires m < 0 && FitsWidth(n)
    ensures LexLess(Format(m), Format(n))
  {
    var digits, fraction := ToString(-m / UNIT), Digits(-m % UNIT, 6);
    var k := if |digits| + 1 < WIDTH then WIDTH - |digits| - 1 else 0;
    var rest := digits + ("." + fraction);
    assert Format(m) == Zeros(k) + "-" + rest by {
      assert ZeroFill("-" + digits, WIDTH) == Zeros(k) + "-" + digits;
    }
    FormatIsDigits(n);
    SignFirst(k, rest, Format(n));
  }

  /** Text order is numeric order, on every bound below the width, negative ones included. */
  lemma TextOrderIsNumeric(m: int, n: int)
    requires m < UNIT * UNIT && FitsWidth(n)
    ensures LexLess(Format(m), Format(n)) <==> m < n
    ensures LexLess(Format(n), Format(m)) <==> n < m
    ensures Format(m) == Format(n) <==> m == n
  {
    LexLessTotal(Format(m), Format(n));
    if m < 0 {
      NegativeFirst(m, n);
    } else {
      OrderWithinWidth(m, n);
      OrderWithinWidth(n, m);
    }
  }

  // ---------- The documents table ----------

  /** The primary key of the table is the parent with the position. */
  datatype Document = Document(id: string, parent: string, title: string, position: string)

  datatype Request = Request(id: string, parent: string, title: string, delta: Fraction)

  function Siblings(docs: seq<Document>, parent: string): (s: seq<Document>)
    ensures |s| <= |docs|
    ensures forall d :: d in s <==> d in docs && d.parent == parent
  {
    if docs == [] then []
    else
      var n := |docs| - 1;
      assert docs == docs[..n] + [docs[n]];
      Siblings(docs[..n], parent) + (if docs[n].parent == parent then [docs[n]] else [])
  }

  /** The position of the first document of the query ordered by descending position. */
  function Greatest(siblings: seq<Document>): string
    requires siblings != []
  {
    var n := |siblings| - 1;
    if n == 0 then siblings[0].position
    else
      var before := Greatest(siblings[..n]);
      if LexLess(before, siblings[n].position) then siblings[n].position else before
  }

  function OrderToken(siblings: seq<Document>, delta: Fraction): Option<string> {
    if siblings == [] then Some(PositionStart(delta)) else PositionNext(Greatest(siblings), delta)
  }

  predicate SameKey(d: Document, e: Document) {
    d.parent == e.parent && d.position == e.position
  }

  /** `create_document`: a document with the same key is replaced. */
  function Upsert(docs: seq<Document>, doc: Document): seq<Document> {
    if docs == [] then [doc]
    else if SameKey(docs[0], doc) then [doc] + docs[1..]
    else [docs[0]] + Upsert(docs[1..], doc)
  }

  /** `None` when the greatest position is no number. */
  function NewDocument(docs: seq<Document>, r: Request): Option<Document> {
    match OrderToken(Siblings(docs, r.parent), r.delta)
    case None => None
    case Some(token) => Some(Document(r.id, r.parent, r.title, token))
  }

  function Put(docs: seq<Document>, r: Request): seq<Document> {
    match NewDocument(docs, r)
    case None => docs
    case Some(doc) => Upsert(docs, doc)
  }

  /** Insertion after the documents at the same position, as Python's stable sort places them. */
  function Insert(doc: Document, sorted: seq<Document>): seq<Document> {
    if sorted == [] then [doc]
    else
      var n := |sorted| - 1;
      if LexLess(doc.position, sorted[n].position) then Insert(doc, sorted[..n]) + [sorted[n]] else sorted + [doc]
  }

  function Sorted(docs: seq<Document>): seq<Document> {
    if docs == [] then [] else Insert(docs[|docs| - 1], Sorted(docs[..|docs| - 1]))
  }

  function Filter<T>(s: seq<T>, keep: T -> bool): seq<T> {
    if s == [] then []
    else
      var n := |s| - 1;
      Filter(s[..n], keep) + (if keep(s[n]) then [s[n]] else [])
  }

  /** The clause `position >= term`, on texts. */
  function NotLess(term: string): Document -> bool {
    (d: Document) => !LexLess(d.position, term)
  }

  function UpTo<T>(s: seq<T>, count: nat): seq<T> {
    if count < |s| then s[..count] else s
  }

  function Children(docs: seq<Document>, parent: string, fromPosition: int, count: nat): seq<Document> {
    UpTo(Sorted(Filter(Siblings(docs, parent), NotLess(Format(fromPosition)))), count)
  }

  class DocumentsTable {
    var documents: seq<Document>

    constructor ()
      ensures documents == []
    {
      documents := [];
    }

    method PutDocument(r: Request) returns (doc: Option<Document>)
      modifies this
      ensures doc == NewDocument(old(documents), r) && documents == Put(old(documents), r)
    {
      var siblings := Siblings(documents, r.parent);
      var token := OrderToken(siblings, r.delta);
      if token == None {
        return None;
      }
      doc := Some(Document(r.id, r.parent, r.title, token.value));
      documents := Upsert(documents, doc.value);
    }

    method GetChildren(parent: string, fromPosition: int, count: nat) returns (docs: seq<Document>)
      ensures docs == Children(documents, parent, fromPosition, count)
      ensures TableInOrder(documents) && fromPosition < UNIT * UNIT ==>
        FirstOfFiltered(docs, documents, ListedFrom(parent, fromPosition), count)
      ensures FirstOfSorted(docs, documents, TextFrom(parent, Format(fromPosition)), count)
    {
      var matching := Filter(Siblings(documents, parent), NotLess(Format(fromPosition)));
      docs := UpTo(Sorted(matching), count);
      if TableInOrder(documents) && fromPosition < UNIT * UNIT {
        ChildrenInOrder(documents, parent, fromPosition, count);
      }
      ChildrenAreSorted(documents, parent, fromPosition, count);
    }
  }

  // ---------- Order of the siblings ----------

  function Number(d: Document): nat {
    match Parse(d.position)
    case Some(n) => n
    case None => 0
  }

  ghost predicate Placed(d: Document) {
    d.position == Format(Number(d)) && FitsWidth(Number(d))
  }

  /** Positions fit the width and are strictly increasing. */
  ghost predicate InOrder(siblings: seq<Document>) {
    && (forall i :: 0 <= i < |siblings| ==> Placed(siblings[i]))
    && (forall i, j :: 0 <= i < j < |siblings| ==> Number(siblings[i]) < Number(siblings[j]))
  }

  /** Each text is less than the later ones. */
  ghost predicate Ascending(docs: seq<Document>) {
    forall i, j :: 0 <= i < j < |docs| ==> LexLess(docs[i].position, docs[j].position)
  }

  lemma PlacedOrder(d: Document, e: Document)
    requires Placed(d) && Placed(e)
    ensures LexLess(d.position, e.position) <==> Number(d) < Number(e)
    ensures d.position == e.position <==> Number(d) == Number(e)
  {
    TextOrderIsNumeric(Number(d), Number(e));
  }

  lemma InOrderIsAscending(siblings: seq<Document>)
    requires InOrder(siblings)
    ensures Ascending(siblings)
  {
    forall i, j | 0 <= i < j < |siblings|
      ensures LexLess(siblings[i].position, siblings[j].position)
    {
      PlacedOrder(siblings[i], siblings[j]);
    }
  }

  lemma {:induction false} LastIsGreatest(siblings: seq<Document>)
    requires siblings != [] && InOrder(siblings)
    ensures Greatest(siblings) == siblings[|siblings| - 1].position
  {
    var n := |siblings| - 1;
    if n > 0 {
      LastIsGreatest(siblings[..n]);
      PlacedOrder(siblings[n - 1], siblings[n]);
    }
  }

  /** The position after `index` at a fraction of a second. */
  function NextIndex(index: nat, delta: Fraction): nat {
    (index / UNIT + 1) * UNIT + delta
  }

  lemma WrittenNumber(d: Document, index: nat)
    requires d.position == Format(index)
    ensures Number(d) == index
  {
    ParseFormat(index);
  }

  lemma NextText(index: nat, text: string, delta: Fraction)
    requires text == Format(index)
    ensures PositionNext(text, delta) == Some(Format(NextIndex(index, delta)))
  {
    ParseFormat(index);
  }

  /** The position of a new sibling. */
  function IndexOf(siblings: seq<Document>, delta: Fraction): nat {
    if siblings == [] then 500000 * UNIT + delta else NextIndex(Number(siblings[|siblings| - 1]), delta)
  }

  lemma TokenOfFamily(siblings: seq<Document>, delta: Fraction)
    requires InOrder(siblings)
    ensures OrderToken(siblings, delta) == Some(Format(IndexOf(siblings, delta)))
  {
    if siblings != [] {
      var last := siblings[|siblings| - 1];
      LastIsGreatest(siblings);
      assert Placed(last);
      NextText(Number(last), last.position, delta);
    }
  }

  lemma {:induction false} InOrderAppend(siblings: seq<Document>, doc: Document)
    requires InOrder(siblings) && Placed(doc)
    requires siblings != [] ==> Number(siblings[|siblings| - 1]) < Number(doc)
    ensures InOrder(siblings + [doc])
  {
    var all, n := siblings + [doc], |siblings|;
    forall i | 0 <= i < |all|
      ensures Placed(all[i])
    {
      assert all[i] == if i < n then siblings[i] else doc;
    }
    forall i, j | 0 <= i < j < |all|
      ensures Number(all[i]) < Number(all[j])
    {
      assert all[i] == siblings[i];
      if j < n {
        assert all[j] == siblings[j];
      } else {
        assert i == n - 1 || Number(siblings[i]) < Number(siblings[n - 1]);
      }
    }
  }

  // ---------- Past the width ----------

  /** The whole part of a position past the width: more than six digits. */
  lemma LongText(long: nat, whole: string, fraction: string)
    requires long >= UNIT * UNIT && whole == ToString(long / UNIT) && fraction == Digits(long % UNIT, 6)
    ensures |whole| > 6 && Format(long) == whole[..6] + (whole[6..] + "." + fraction)
  {
    PowersOfTen();
    LengthExceeds(long / UNIT, 6);
    assert ZeroFill(whole, WIDTH) == whole;
    assert whole == whole[..6] + whole[6..];
  }

  /** The first six digits of the whole part of a position past the width. */
  function FirstSix(long: nat): (v: nat)
    requires long >= UNIT * UNIT
    ensures v < UNIT
  {
    LongText(long, ToString(long / UNIT), Digits(long % UNIT, 6));
    DigitsOfValue(ToString(long / UNIT)[..6]);
    PowersOfTen();
    Value(ToString(long / UNIT)[..6])
  }

  /** A text of six digits and a point against one of six digits and more digits. */
  lemma PointBeforeDigit(a: string, b: string, c: string, d: string)
    requires |a| == |c| && d != "" && '0' <= d[0] <= '9'
    ensures LexLess(a + ("." + b), c + d) <==> LexLess(a, c) || a == c
  {
    LexLessConcat(a, "." + b, c, d);
  }

  /** Against a position past the width only the first six digits count: it comes before greater whole parts. */
  lemma LongTextOrder(long: nat, index: nat)
    requires long >= UNIT * UNIT && FitsWidth(index)
    ensures LexLess(Format(long), Format(index)) <==> FirstSix(long) < index / UNIT
    ensures LexLess(Format(index), Format(long)) <==> !(FirstSix(long) < index / UNIT)
    ensures |Format(long)| > |Format(index)|
  {
    var whole, fraction := ToString(long / UNIT), Digits(long % UNIT, 6);
    var w, f := Digits(index / UNIT, 6), Digits(index % UNIT, 6);
    LongText(long, whole, fraction);
    FormatIsDigits(index);
    assert LexLess(Format(index), Format(long)) <==> LexLess(w, whole[..6]) || w == whole[..6] by {
      PointBeforeDigit(w, f, whole[..6], whole[6..] + "." + fraction);
    }
    assert LexLess(w, whole[..6]) || w == whole[..6] <==> !(FirstSix(long) < index / UNIT) by {
      SixDigitOrder(whole[..6], index / UNIT);
    }
    LexLessTotal(Format(long), Format(index));
  }

  lemma SixDigitOrder(s: string, n: nat)
    requires IsDigits(s) && |s| == 6 && n < UNIT
    ensures LexLess(Digits(n, 6), s) || Digits(n, 6) == s <==> !(Value(s) < n)
  {
    PowersOfTen();
    DigitsOfValue(s);
    DigitsOrder(n, Value(s), 6);
    ValueOfDigits(n, 6);
  }

  /**
    What the text filter does with a bound past the width: it keeps what it should not, unless the
    first six digits of the bound are 999999.
   */
  lemma FilterPastWidth(bound: nat)
    requires bound >= UNIT * UNIT
    ensures forall index :: FitsWidth(index) ==>
      (!LexLess(Format(index), Format(bound)) <==> FirstSix(bound) < index / UNIT)
    ensures (exists index :: FitsWidth(index) && !LexLess(Format(index), Format(bound))) <==> FirstSix(bound) < 999999
  {
    forall index | FitsWidth(index)
      ensures !LexLess(Format(index), Format(bound)) <==> FirstSix(bound) < index / UNIT
    {
      LongTextOrder(bound, index);
    }
    var last := UNIT * UNIT - 1;
    assert FitsWidth(last) && last / UNIT == 999999;
    assert FirstSix(bound) < 999999 ==> !LexLess(Format(last), Format(bound));
  }

  /** A next position past the width starts with six digits below 200000. */
  lemma FirstSixOfNext(long: nat)
    requires UNIT * UNIT <= long < 2 * UNIT * UNIT
    ensures FirstSix(long) < 200000
  {
    var n := long / UNIT;
    PowersOfTen();
    assert 1000000 <= n < 2000000;
    assert ToString(n) == ToString(n / 10) + [Digit(n % 10)];
    LengthExceeds(n / 10, 5);
    ZeroFillIsDigits(n / 10, 6);
    assert ToString(n)[..6] == ToString(n / 10);
    ValueOfToString(n / 10);
  }

  // ---------- One more document ----------

  /** Every family of siblings is in order. */
  ghost predicate TableInOrder(docs: seq<Document>) {
    forall parent: string :: InOrder(Siblings(docs, parent))
  }

  lemma {:induction false} UpsertAppends(docs: seq<Document>, doc: Document)
    requires forall d <- docs :: !SameKey(d, doc)
    ensures Upsert(docs, doc) == docs + [doc]
  {
    if docs != [] {
      assert docs == [docs[0]] + docs[1..];
      UpsertAppends(docs[1..], doc);
    }
  }

  lemma SiblingsAppend(docs: seq<Document>, doc: Document, parent: string)
    ensures Siblings(docs + [doc], parent) == Siblings(docs, parent) + (if doc.parent == parent then [doc] else [])
  {
    assert (docs + [doc])[..|docs|] == docs;
  }

  /** The place of a new document in its family, by its position. */
  lemma NewSibling(siblings: seq<Document>, index: nat, doc: Document)
    requires InOrder(siblings) && doc.position == Format(index)
    requires siblings != [] ==> Number(siblings[|siblings| - 1]) < index
    ensures FitsWidth(index) ==> InOrder(siblings + [doc])
    ensures forall d <- siblings :: d.position != doc.position
  {
    WrittenNumber(doc, index);
    if FitsWidth(index) {
      InOrderAppend(siblings, doc);
    }
    forall d | d in siblings
      ensures d.position != doc.position
    {
      var i :| 0 <= i < |siblings| && siblings[i] == d;
      assert Placed(siblings[i]);
      assert i < |siblings| - 1 ==> Number(siblings[i]) < Number(siblings[|siblings| - 1]);
    }
  }

  /** The room that is left: the next whole position and the fraction fit the width. */
  predicate HasRoom(siblings: seq<Document>, delta: Fraction) {
    siblings == [] || FitsWidth(NextIndex(Number(siblings[|siblings| - 1]), delta))
  }

  /** Without room the new position is too long and comes before the last sibling as text. */
  lemma NoRoom(siblings: seq<Document>, delta: Fraction, doc: Document)
    requires InOrder(siblings) && !HasRoom(siblings, delta) && OrderToken(siblings, delta) == Some(doc.position)
    ensures LexLess(doc.position, Greatest(siblings))
    ensures !Ascending(siblings + [doc]) && !InOrder(siblings + [doc])
  {
    var n := |siblings|;
    var last := siblings[n - 1];
    var index := Number(last);
    TokenOfFamily(siblings, delta);
    LastIsGreatest(siblings);
    assert Placed(last);
    FirstSixOfNext(NextIndex(index, delta));
    LongTextOrder(NextIndex(index, delta), index);
    assert (siblings + [doc])[n - 1] == last && (siblings + [doc])[n] == doc;
    LexLessTotal(last.position, doc.position);
    if InOrder(siblings + [doc]) {
      InOrderIsAscending(siblings + [doc]);
    }
  }

  lemma KeyIsNew(docs: seq<Document>, doc: Document)
    requires forall d <- Siblings(docs, doc.parent) :: d.position != doc.position
    ensures forall d <- docs :: !SameKey(d, doc)
  {
  }

  lemma AppendedByPut(docs: seq<Document>, r: Request, doc: Document)
    requires OrderToken(Siblings(docs, r.parent), r.delta) == Some(doc.position)
    requires doc == Document(r.id, r.parent, r.title, doc.position)
    requires forall d <- docs :: !SameKey(d, doc)
    ensures NewDocument(docs, r) == Some(doc) && Put(docs, r) == docs + [doc]
  {
    UpsertAppends(docs, doc);
  }

  /** A new document replaces none. */
  lemma PutAppends(docs: seq<Document>, r: Request) returns (doc: Document)
    requires TableInOrder(docs)
    ensures NewDocument(docs, r) == Some(doc) && Put(docs, r) == docs + [doc]
    ensures Siblings(docs + [doc], r.parent) == Siblings(docs, r.parent) + [doc]
    ensures HasRoom(Siblings(docs, r.parent), r.delta) ==> InOrder(Siblings(docs, r.parent) + [doc])
    ensures doc == Document(r.id, r.parent, r.title, doc.position)
    ensures OrderToken(Siblings(docs, r.parent), r.delta) == Some(doc.position)
    ensures forall d <- docs :: !SameKey(d, doc)
  {
    var siblings := Siblings(docs, r.parent);
    assert InOrder(siblings);
    var index := IndexOf(siblings, r.delta);
    TokenOfFamily(siblings, r.delta);
    doc := Document(r.id, r.parent, r.title, Format(index));
    NewSibling(siblings, index, doc);
    KeyIsNew(docs, doc);
    AppendedByPut(docs, r, doc);
    SiblingsAppend(docs, doc, r.parent);
  }

  /**
    A new document replaces none, and its family stays in order, as numbers and as texts, exactly
    when the width has room for the next whole position and the fraction.
   */
  lemma PutKeepsOrder(docs: seq<Document>, r: Request)
    requires TableInOrder(docs)
    ensures NewDocument(docs, r).Some? && Put(docs, r) == docs + [NewDocument(docs, r).value]
    ensures TableInOrder(Put(docs, r)) <==> HasRoom(Siblings(docs, r.parent), r.delta)
    ensures Ascending(Siblings(Put(docs, r), r.parent)) <==> HasRoom(Siblings(docs, r.parent), r.delta)
  {
    var siblings := Siblings(docs, r.parent);
    var doc := PutAppends(docs, r);
    assert InOrder(siblings);
    if HasRoom(siblings, r.delta) {
      InOrderIsAscending(siblings + [doc]);
      OthersStayInOrder(docs, doc);
    } else {
      NoRoom(siblings, r.delta, doc);
      assert !InOrder(Siblings(docs + [doc], r.parent));
    }
  }

  lemma OthersStayInOrder(docs: seq<Document>, doc: Document)
    requires TableInOrder(docs) && InOrder(Siblings(docs, doc.parent) + [doc])
    ensures TableInOrder(docs + [doc])
  {
    forall parent: string
      ensures InOrder(Siblings(docs + [doc], parent))
    {
      SiblingsAppend(docs, doc, parent);
      assert InOrder(Siblings(docs, parent));
    }
  }

  // ---------- Runs ----------

  /** The number of siblings the width has room for, whatever the clock. */
  const ROOM := 250000

  /** The greatest position the n-th sibling can have. */
  function Limit(n: nat): nat {
    (499999 + 2 * n) * UNIT
  }

  ghost predicate WithinLimits(siblings: seq<Document>) {
    forall i :: 0 <= i < |siblings| ==> Number(siblings[i]) <= Limit(i + 1)
  }

  lemma LimitLeavesRoom(siblings: seq<Document>, delta: Fraction, doc: Document)
    requires InOrder(siblings) && WithinLimits(siblings) && |siblings| < ROOM
    requires OrderToken(siblings, delta) == Some(doc.position)
    ensures HasRoom(siblings, delta) && WithinLimits(siblings + [doc])
  {
    var n := |siblings|;
    TokenOfFamily(siblings, delta);
    WrittenNumber(doc, IndexOf(siblings, delta));
    if n > 0 {
      assert Number(siblings[n - 1]) / UNIT <= 499999 + 2 * n;
    }
    forall i | 0 <= i < |siblings + [doc]|
      ensures Number((siblings + [doc])[i]) <= Limit(i + 1)
    {
      assert (siblings + [doc])[i] == if i < n then siblings[i] else doc;
    }
  }

  function Run(docs: seq<Document>, requests: seq<Request>): seq<Document>
    decreases |requests|
  {
    if requests == [] then docs else Put(Run(docs, requests[..|requests| - 1]), requests[|requests| - 1])
  }

  function CountFor(requests: seq<Request>, parent: string): nat {
    if requests == [] then 0
    else CountFor(requests[..|requests| - 1], parent) + (if requests[|requests| - 1].parent == parent then 1 else 0)
  }

  ghost predicate FewEnough(requests: seq<Request>) {
    forall parent: string :: CountFor(requests, parent) <= ROOM
  }

  /** Every request has its document, in the order of the requests. */
  ghost predicate Kept(docs: seq<Document>, requests: seq<Request>) {
    && |docs| == |requests|
    && forall i :: 0 <= i < |docs| ==>
      docs[i].id == requests[i].id && docs[i].parent == requests[i].parent && docs[i].title == requests[i].title
  }

  /** As many siblings as requests, within their limits. */
  ghost predicate Counted(docs: seq<Document>, requests: seq<Request>) {
    forall parent: string ::
      |Siblings(docs, parent)| == CountFor(requests, parent) && WithinLimits(Siblings(docs, parent))
  }

  lemma OneMoreKept(docs: seq<Document>, before: seq<Request>, last: Request, doc: Document)
    requires Kept(docs, before) && Counted(docs, before) && WithinLimits(Siblings(docs, last.parent) + [doc])
    requires doc.id == last.id && doc.parent == last.parent && doc.title == last.title
    ensures Kept(docs + [doc], before + [last]) && Counted(docs + [doc], before + [last])
  {
    assert (before + [last])[..|before|] == before;
    forall parent: string
      ensures |Siblings(docs + [doc], parent)| == CountFor(before + [last], parent)
      ensures WithinLimits(Siblings(docs + [doc], parent))
    {
      SiblingsAppend(docs, doc, parent);
      assert |Siblings(docs, parent)| == CountFor(before, parent) && WithinLimits(Siblings(docs, parent));
    }
  }

  lemma FewerBefore(before: seq<Request>, last: Request)
    requires FewEnough(before + [last])
    ensures FewEnough(before) && CountFor(before, last.parent) < ROOM
  {
    var requests := before + [last];
    assert requests[..|before|] == before;
    forall parent: string
      ensures CountFor(before, parent) <= ROOM
    {
      assert CountFor(requests, parent) <= ROOM;
    }
    assert CountFor(requests, last.parent) <= ROOM;
  }

  /**
    Appending up to 250000 documents under each parent, at any instants, keeps them all, in order:
    strictly increasing and within the fixed width.
   */
  lemma {:induction false} RunsKeepOrder(requests: seq<Request>, docs: seq<Document>)
    requires FewEnough(requests) && docs == Run([], requests)
    ensures TableInOrder(docs) && Kept(docs, requests) && Counted(docs, requests)
  {
    if requests != [] {
      var n := |requests| - 1;
      var before, last := requests[..n], requests[n];
      assert requests == before + [last];
      FewerBefore(before, last);
      var earlier := Run([], before);
      RunsKeepOrder(before, earlier);
      RunStep(before, last, earlier);
    }
  }

  lemma RunStep(before: seq<Request>, last: Request, earlier: seq<Document>)
    requires TableInOrder(earlier) && Kept(earlier, before) && Counted(earlier, before)
    requires CountFor(before, last.parent) < ROOM
    ensures TableInOrder(Put(earlier, last)) && Kept(Put(earlier, last), before + [last])
    ensures Counted(Put(earlier, last), before + [last])
  {
    var siblings := Siblings(earlier, last.parent);
    assert InOrder(siblings) && |siblings| == CountFor(before, last.parent) && WithinLimits(siblings);
    var doc := PutAppends(earlier, last);
    LimitLeavesRoom(siblings, last.delta, doc);
    OthersStayInOrder(earlier, doc);
    OneMoreKept(earlier, before, last, doc);
  }

  // ---------- Listing the children ----------

  lemma {:induction false} SortedIsSame(docs: seq<Document>)
    requires Ascending(docs)
    ensures Sorted(docs) == docs
  {
    if docs != [] {
      var n := |docs| - 1;
      SortedIsSame(docs[..n]);
      if n > 0 {
        LexLessTotal(docs[n - 1].position, docs[n].position);
      }
      assert docs == docs[..n] + [docs[n]];
    }
  }

  lemma {:induction false} FilteredOut<T>(s: seq<T>, keep: T -> bool)
    requires forall i :: 0 <= i < |s| ==> !keep(s[i])
    ensures Filter(s, keep) == []
  {
    if s != [] {
      FilteredOut(s[..|s| - 1], keep);
    }
  }

  lemma SuffixWithLast<T>(s: seq<T>, k: nat)
    requires k < |s|
    ensures s[..|s| - 1][k..] + [s[|s| - 1]] == s[k..]
  {
  }

  /** When whatever follows a kept element is kept, the filter leaves a suffix. */
  lemma {:induction false} FilterIsSuffix<T>(s: seq<T>, keep: T -> bool) returns (k: nat)
    requires forall i, j :: 0 <= i < j < |s| && keep(s[i]) ==> keep(s[j])
    ensures k <= |s| && Filter(s, keep) == s[k..]
    ensures forall i :: 0 <= i < |s| ==> (i >= k <==> keep(s[i]))
  {
    var n := |s| - 1;
    if s == [] || !keep(s[n]) {
      FilteredOut(s, keep);
      k := |s|;
    } else {
      var init := s[..n];
      assert forall i :: 0 <= i < n ==> init[i] == s[i];
      k := FilterIsSuffix(init, keep);
      assert Filter(s, keep) == init[k..] + [s[n]];
      SuffixWithLast(s, k);
    }
  }

  lemma {:induction false} SameFilter<T>(s: seq<T>, keep: T -> bool, also: T -> bool)
    requires forall i :: 0 <= i < |s| ==> keep(s[i]) == also(s[i])
    ensures Filter(s, keep) == Filter(s, also)
  {
    if s != [] {
      var init := s[..|s| - 1];
      assert forall i :: 0 <= i < |init| ==> init[i] == s[i];
      SameFilter(init, keep, also);
    }
  }

  /** The clause `position >= bound`, on numbers. */
  function NotBefore(bound: int): Document -> bool {
    (d: Document) => Number(d) >= bound
  }

  /** The two clauses of the query, the position compared as a number. */
  function ListedFrom(parent: string, bound: int): Document -> bool {
    (d: Document) => d.parent == parent && Number(d) >= bound
  }

  /** The first `count` of the elements with the property, in the order of the table. */
  ghost predicate FirstOfFiltered(answer: seq<Document>, docs: seq<Document>, keep: Document -> bool, count: nat) {
    exists listed ::
      && IsFilter(listed, docs, keep)
      && answer == (if count < |listed| then listed[..count] else listed)
  }

  lemma {:induction false} FilterOfFamily(docs: seq<Document>, parent: string, keep: Document -> bool,
                                          both: Document -> bool)
    requires forall d: Document :: both(d) <==> d.parent == parent && keep(d)
    ensures IsFilter(Filter(Siblings(docs, parent), keep), docs, both)
  {
    if docs == [] {
      EmptyFilter(both);
    } else {
      var n := |docs| - 1;
      var init, last := docs[..n], docs[n];
      var before := Filter(Siblings(init, parent), keep);
      assert docs == init + [last];
      FamilyFilterStep(init, last, parent, keep);
      FilterOfFamily(init, parent, keep, both);
      FilterExtended(before, init, last, both, Filter(Siblings(docs, parent), keep), docs);
    }
  }

  lemma FamilyFilterStep(init: seq<Document>, last: Document, parent: string, keep: Document -> bool)
    ensures var before := Filter(Siblings(init, parent), keep);
      Filter(Siblings(init + [last], parent), keep)
      == if last.parent == parent && keep(last) then before + [last] else before
  {
    var family := Siblings(init, parent);
    SiblingsAppend(init, last, parent);
    assert (family + [last])[..|family|] == family && family + [] == family;
    assert Filter(family, keep) + [] == Filter(family, keep);
  }

  /**
    The children listed from a position are the first `count` of those created under the parent
    whose position is numerically not before it, in the order of their creation.
   */
  lemma ChildrenInOrder(docs: seq<Document>, parent: string, position: int, count: nat)
    requires TableInOrder(docs) && position < UNIT * UNIT
    ensures FirstOfFiltered(Children(docs, parent, position, count), docs, ListedFrom(parent, position), count)
  {
    var siblings, term := Siblings(docs, parent), Format(position);
    assert InOrder(siblings);
    forall i | 0 <= i < |siblings|
      ensures NotLess(term)(siblings[i]) == NotBefore(position)(siblings[i])
    {
      assert Placed(siblings[i]);
      TextOrderIsNumeric(position, Number(siblings[i]));
    }
    SameFilter(siblings, NotLess(term), NotBefore(position));
    var k := FilterIsSuffix(siblings, NotBefore(position));
    InOrderIsAscending(siblings);
    SortedIsSame(siblings[k..]);
    FilterOfFamily(docs, parent, NotBefore(position), ListedFrom(parent, position));
  }

  /** The two clauses of the query, the position compared as a text. */
  function TextFrom(parent: string, term: string): Document -> bool {
    (d: Document) => d.parent == parent && !LexLess(d.position, term)
  }

  /** No text is less than an earlier one. */
  ghost predicate NotDescending(docs: seq<Document>) {
    forall i, j :: 0 <= i < j < |docs| ==> !LexLess(docs[j].position, docs[i].position)
  }

  /** The first `count` of the elements with the property, by position. */
  ghost predicate FirstOfSorted(answer: seq<Document>, docs: seq<Document>, keep: Document -> bool, count: nat) {
    exists matching, sorted: seq<Document> ::
      && IsFilter(matching, docs, keep)
      && NotDescending(sorted) && multiset(sorted) == multiset(matching)
      && answer == (if count < |sorted| then sorted[..count] else sorted)
  }

  lemma AppendedNotDescending(docs: seq<Document>, doc: Document)
    requires NotDescending(docs) && forall d <- docs :: !LexLess(doc.position, d.position)
    ensures NotDescending(docs + [doc])
  {
  }

  lemma {:induction false} LessTransitive(a: string, b: string, c: string)
    requires LexLess(a, b) && LexLess(b, c)
    ensures LexLess(a, c)
  {
    if a != "" && a[0] == b[0] == c[0] {
      LessTransitive(a[1..], b[1..], c[1..]);
    }
  }

  lemma NotLessTransitive(a: string, b: string, c: string)
    requires !LexLess(b, a) && !LexLess(c, b)
    ensures !LexLess(c, a)
  {
    LexLessTotal(a, b);
    LexLessTotal(b, c);
    LexLessTotal(a, c);
    if LexLess(c, a) && LexLess(a, b) {
      LessTransitive(c, a, b);
      LexLessTotal(c, b);
    }
  }

  lemma LastNotLess(sorted: seq<Document>, position: string)
    requires NotDescending(sorted)
    requires sorted != [] ==> !LexLess(position, sorted[|sorted| - 1].position)
    ensures forall d <- sorted :: !LexLess(position, d.position)
  {
    forall d | d in sorted
      ensures !LexLess(position, d.position)
    {
      var n := |sorted| - 1;
      var i :| 0 <= i < |sorted| && sorted[i] == d;
      if i < n {
        NotLessTransitive(d.position, sorted[n].position, position);
      }
    }
  }

  lemma {:induction false} InsertSorts(doc: Document, sorted: seq<Document>)
    requires NotDescending(sorted)
    ensures NotDescending(Insert(doc, sorted))
    ensures multiset(Insert(doc, sorted)) == multiset(sorted + [doc])
  {
    var n := |sorted| - 1;
    if sorted != [] && LexLess(doc.position, sorted[n].position) {
      var init, last := sorted[..n], sorted[n];
      assert sorted == init + [last];
      InsertSorts(doc, init);
      LexLessTotal(doc.position, last.position);
      forall d | d in Insert(doc, init)
        ensures !LexLess(last.position, d.position)
      {
        assert d in multiset(init + [doc]);
      }
      AppendedNotDescending(Insert(doc, init), last);
    } else {
      LastNotLess(sorted, doc.position);
      AppendedNotDescending(sorted, doc);
    }
  }

  lemma {:induction false} SortedSorts(docs: seq<Document>)
    ensures NotDescending(Sorted(docs)) && multiset(Sorted(docs)) == multiset(docs)
  {
    if docs != [] {
      var n := |docs| - 1;
      assert docs == docs[..n] + [docs[n]];
      SortedSorts(docs[..n]);
      InsertSorts(docs[n], Sorted(docs[..n]));
    }
  }

  /** On any table, and with any bound: the children that pass the text filter, by position as text. */
  lemma ChildrenAreSorted(docs: seq<Document>, parent: string, position: int, count: nat)
    ensures FirstOfSorted(Children(docs, parent, position, count), docs, TextFrom(parent, Format(position)), count)
  {
    var term := Format(position);
    var matching := Filter(Siblings(docs, parent), NotLess(term));
    SortedSorts(matching);
    FilterOfFamily(docs, parent, NotLess(term), TextFrom(parent, term));
  }

  // ---------- The bounds are tight ----------

  /** The requests of a clock that always rounds up. */
  predicate RoundsUp(requests: seq<Request>, parent: string) {
    forall i :: 0 <= i < |requests| ==> requests[i].parent == parent && requests[i].delta == UNIT
  }

  lemma {:induction false} AllCounted(requests: seq<Request>, parent: string, other: string)
    requires RoundsUp(requests, parent)
    ensures CountFor(requests, other) == if other == parent then |requests| else 0
  {
    if requests != [] {
      AllCounted(requests[..|requests| - 1], parent, other);
    }
  }

  lemma RunOfRounding(requests: seq<Request>, parent: string, docs: seq<Document>)
    requires |requests| <= ROOM && RoundsUp(requests, parent) && docs == Run([], requests)
    ensures TableInOrder(docs) && |Siblings(docs, parent)| == |requests| == |docs|
  {
    forall other: string
      ensures CountFor(requests, other) <= ROOM
    {
      AllCounted(requests, parent, other);
    }
    RunsKeepOrder(requests, docs);
    AllCounted(requests, parent, parent);
  }

  lemma RoundedNumber(siblings: seq<Document>, doc: Document)
    requires InOrder(siblings) && OrderToken(siblings, UNIT) == Some(doc.position)
    requires siblings != [] ==> Number(siblings[|siblings| - 1]) == Limit(|siblings|)
    ensures Number(doc) == Limit(|siblings| + 1)
  {
    var n := |siblings|;
    TokenOfFamily(siblings, UNIT);
    WrittenNumber(doc, IndexOf(siblings, UNIT));
    assert Limit(n) / UNIT == 499999 + 2 * n;
  }

  /** With such a clock the n-th sibling is at its limit: 250000 documents reach 999999.000000. */
  lemma {:induction false} LimitIsReached(requests: seq<Request>, parent: string, siblings: seq<Document>)
    requires 0 < |requests| <= ROOM && RoundsUp(requests, parent)
    requires siblings == Siblings(Run([], requests), parent)
    ensures |siblings| == |requests| && Number(siblings[|siblings| - 1]) == Limit(|requests|)
  {
    var n := |requests| - 1;
    var before, last := requests[..n], requests[n];
    var docs := Run([], before);
    var earlier := Siblings(docs, parent);
    RunOfRounding(before, parent, docs);
    var doc := PutAppends(docs, last);
    assert InOrder(earlier) && siblings == earlier + [doc];
    if n > 0 {
      LimitIsReached(before, parent, earlier);
    }
    RoundedNumber(earlier, doc);
  }

  lemma {:induction false} UpsertReplacesLast(docs: seq<Document>, last: Document, doc: Document)
    requires (forall d <- docs :: !SameKey(d, doc)) && SameKey(last, doc)
    ensures Upsert(docs + [last], doc) == docs + [doc]
  {
    if docs != [] {
      assert (docs + [last])[1..] == docs[1..] + [last];
      assert docs == [docs[0]] + docs[1..];
      UpsertReplacesLast(docs[1..], last, doc);
    }
  }

  lemma GreatestStays(siblings: seq<Document>, doc: Document)
    requires siblings != [] && LexLess(doc.position, Greatest(siblings))
    ensures Greatest(siblings + [doc]) == Greatest(siblings)
  {
    assert (siblings + [doc])[..|siblings|] == siblings;
    LexLessTotal(doc.position, Greatest(siblings));
  }

  /** A document with the key of the last one replaces it. */
  lemma SecondReplaces(docs: seq<Document>, first: Document, r: Request, token: string)
    requires (forall d <- docs :: !SameKey(d, first)) && first.parent == r.parent && first.position == token
    requires OrderToken(Siblings(docs + [first], r.parent), r.delta) == Some(token)
    ensures Put(docs + [first], r) == docs + [Document(r.id, r.parent, r.title, token)]
  {
    UpsertReplacesLast(docs, first, Document(r.id, r.parent, r.title, token));
  }

  /**
    Once the width has no room the new position comes first as text, and is given again: of two
    documents added at the same fraction of a second, the second replaces the first.
   */
  lemma NextReplaces(docs: seq<Document>, a: Request, b: Request)
    requires TableInOrder(docs) && a.parent == b.parent && a.delta == b.delta
    requires !HasRoom(Siblings(docs, a.parent), a.delta)
    ensures exists token ::
      && Put(docs, a) == docs + [Document(a.id, a.parent, a.title, token)]
      && Put(Put(docs, a), b) == docs + [Document(b.id, b.parent, b.title, token)]
  {
    var siblings := Siblings(docs, a.parent);
    assert InOrder(siblings);
    var first := PutAppends(docs, a);
    NoRoom(siblings, a.delta, first);
    GreatestStays(siblings, first);
    SecondReplaces(docs, first, b, first.position);
  }

  /** The room is exact: two documents more, at the same fraction of a second, leave only one more. */
  lemma RoomIsTight(requests: seq<Request>, parent: string, a: Request, b: Request)
    requires |requests| == ROOM && RoundsUp(requests, parent)
    requires a.parent == b.parent == parent && a.delta == b.delta
    ensures |Run([], requests)| == ROOM && |Put(Put(Run([], requests), a), b)| == ROOM + 1
  {
    var docs := Run([], requests);
    RunOfRounding(requests, parent, docs);
    LimitIsReached(requests, parent, Siblings(docs, parent));
    LimitLeavesNoRoom(Siblings(docs, parent), a.delta);
    NextReplaces(docs, a, b);
  }

  lemma LimitLeavesNoRoom(siblings: seq<Document>, delta: Fraction)
    requires |siblings| == ROOM && Number(siblings[|siblings| - 1]) == Limit(ROOM)
    ensures !HasRoom(siblings, delta)
  {
  }
}
