/** The descending-size walk over a wiki's articles and the text its cursor is stored as. */
module Replica {
  import opened Base
  import opened Sorting
  import opened Keyset

  datatype ReplicaPage = ReplicaPage(pageId: int, revisionId: int, length: int)

  datatype LengthCursor = LengthCursor(length: int, pageId: int)

  /* ---- The cursor as text ---- */

  predicate IsDigit(ch: char) {
    '0' <= ch <= '9'
  }

  /** `str.isdigit` on ASCII text. */
  predicate IsDigits(s: string) {
    s != "" && forall ch :: ch in s ==> IsDigit(ch)
  }

  function Digit(n: nat): char
    requires n < 10
    ensures IsDigit(Digit(n)) && Digit(n) as int - '0' as int == n
  {
    '0' + n as char
  }

  function Decimal(n: nat): string {
    if n < 10 then [Digit(n)] else Decimal(n / 10) + [Digit(n % 10)]
  }

  /** `str(i)`. */
  function Text(i: int): string {
    if i < 0 then "-" + Decimal(-i) else Decimal(i)
  }

  /** `int(s)` for a string of digits. */
  function Number(s: string): nat
    requires IsDigits(s)
  {
    var rest := s[..|s| - 1];
    assert IsDigit(s[|s| - 1]);
    var units := s[|s| - 1] as int - '0' as int;
    if rest == "" then units else 10 * Number(rest) + units
  }

  lemma {:induction false} DecimalRoundTrip(n: nat)
    ensures IsDigits(Decimal(n)) && Number(Decimal(n)) == n
  {
    if n >= 10 {
      DecimalRoundTrip(n / 10);
      var s := Decimal(n);
      assert s[..|s| - 1] == Decimal(n / 10);
    }
  }

  function Encode(c: LengthCursor): string {
    Text(c.length) + ":" + Text(c.pageId)
  }

  /** The length of the part of `s` in front of its first colon, or of all of `s`. */
  function BeforeColon(s: string): nat
    ensures BeforeColon(s) <= |s|
  {
    if s == "" || s[0] == ':' then 0 else 1 + BeforeColon(s[1..])
  }

  /** `LengthCursor.decode`: anything unreadable is ignored, and the walk restarts from the top. */
  function Decode(raw: Option<string>): Option<LengthCursor> {
    if raw.None? || raw.value == "" then None
    else
      var n := BeforeColon(raw.value);
      if n == |raw.value| then None
      else
        var length, pageId := raw.value[..n], raw.value[n + 1..];
        if IsDigits(length) && IsDigits(pageId) then Some(LengthCursor(Number(length), Number(pageId))) else None
  }

  predicate HasNoColon(s: string) {
    forall i :: 0 <= i < |s| ==> s[i] != ':'
  }

  lemma {:induction false} ColonFound(front: string, back: string)
    requires HasNoColon(front)
    ensures BeforeColon(front + ":" + back) == |front|
  {
    var s := front + ":" + back;
    if front == "" {
      assert s[0] == ':';
    } else {
      assert s[0] == front[0] != ':';
      assert s[1..] == front[1..] + ":" + back;
      ColonFound(front[1..], back);
    }
  }

  lemma TextHasNoColon(i: int)
    ensures HasNoColon(Text(i))
    ensures IsDigits(Text(i)) <==> i >= 0
  {
    var digits := Decimal(if i < 0 then -i else i);
    DecimalRoundTrip(if i < 0 then -i else i);
    assert forall k :: 0 <= k < |digits| ==> digits[k] in digits;
    if i < 0 {
      assert Text(i)[0] == '-' && Text(i)[0] in Text(i) && !IsDigit('-');
    }
  }

  /** A cursor survives being stored as text exactly when both its parts are natural numbers. */
  lemma CursorRoundTrip(c: LengthCursor)
    ensures Decode(Some(Encode(c))) == Some(c) <==> c.length >= 0 && c.pageId >= 0
  {
    var s := Encode(c);
    TextHasNoColon(c.length);
    TextHasNoColon(c.pageId);
    ColonFound(Text(c.length), Text(c.pageId));
    var n := |Text(c.length)|;
    assert s[..n] == Text(c.length) && s[n + 1..] == Text(c.pageId);
    if c.length >= 0 && c.pageId >= 0 {
      DecimalRoundTrip(c.length);
      DecimalRoundTrip(c.pageId);
    }
  }

  const COMPLETE := "__COMPLETE__"

  /** The marker of a finished walk is never a cursor's text. */
  lemma CompleteIsNoCursor(c: LengthCursor)
    ensures Encode(c) != COMPLETE
  {
    TextHasNoColon(c.length);
    assert ':' in Encode(c) by {
      assert Encode(c)[|Text(c.length)|] == ':';
    }
  }

  /* ---- One batch ---- */

  function KeyOf(page: ReplicaPage): LengthCursor {
    LengthCursor(page.length, page.pageId)
  }

  /** `ORDER BY page_len DESC, page_id DESC`. */
  predicate Heavier(a: LengthCursor, b: LengthCursor) {
    a.length > b.length || (a.length == b.length && a.pageId > b.pageId)
  }

  predicate HeavierPage(a: ReplicaPage, b: ReplicaPage) {
    Heavier(KeyOf(a), KeyOf(b))
  }

  function Keys(pages: seq<ReplicaPage>): seq<LengthCursor> {
    seq(|pages|, i requires 0 <= i < |pages| => KeyOf(pages[i]))
  }

  ghost function KeySet(table: seq<ReplicaPage>): set<LengthCursor> {
    set page | page in table :: KeyOf(page)
  }

  ghost predicate OneRowPerPage(table: seq<ReplicaPage>) {
    forall i, j :: 0 <= i < j < |table| ==> table[i].pageId != table[j].pageId
  }

  /** A snapshot of the replica's articles: one row per page, sizes and identifiers not negative. */
  ghost predicate IsTable(table: seq<ReplicaPage>) {
    && OneRowPerPage(table)
    && (forall page :: page in table ==> page.length >= 0 && page.pageId >= 0)
  }

  function Behind(table: seq<ReplicaPage>, cursor: Option<LengthCursor>): seq<ReplicaPage> {
    if table == [] then []
    else (if Past(cursor, KeyOf(table[0]), Heavier) then [table[0]] else []) + Behind(table[1..], cursor)
  }

  /** The SQL of one batch: the articles behind the cursor, heaviest first, `limit` of them. */
  function Query(table: seq<ReplicaPage>, cursor: Option<LengthCursor>, limit: nat): seq<ReplicaPage> {
    var sorted := Sort(Behind(table, cursor), HeavierPage);
    if |sorted| <= limit then sorted else sorted[..limit]
  }

  /** Where to resume: `None` when the batch came back short. */
  function NextCursor(pages: seq<ReplicaPage>, limit: nat): Option<LengthCursor>
    requires limit > 0
  {
    if |pages| < limit then None else Some(KeyOf(pages[|pages| - 1]))
  }

  /** Lengths fall, and at one length identifiers do. */
  ghost predicate LongestFirst(pages: seq<ReplicaPage>) {
    forall i, j :: 0 <= i < j < |pages| ==>
      pages[i].length > pages[j].length || (pages[i].length == pages[j].length && pages[i].pageId > pages[j].pageId)
  }

  lemma RankedFalls(pages: seq<ReplicaPage>)
    requires StrictlyRanked(Keys(pages), Heavier)
    ensures LongestFirst(pages)
  {
    assert forall i :: 0 <= i < |pages| ==> Keys(pages)[i] == KeyOf(pages[i]);
  }

  /** The row comes after the cursor: it is shorter, or as long with a smaller identifier. */
  predicate IsBehind(cursor: Option<LengthCursor>, page: ReplicaPage) {
    || cursor.None?
    || page.length < cursor.value.length
    || (page.length == cursor.value.length && page.pageId < cursor.value.pageId)
  }

  /** A batch in lengths and identifiers. */
  lemma BatchFalls(table: seq<ReplicaPage>, cursor: Option<LengthCursor>, limit: nat, pages: seq<ReplicaPage>)
    requires pages == Query(table, cursor, limit) && IsTable(table)
    ensures LongestFirst(pages)
    ensures forall page :: page in pages ==> page in table && IsBehind(cursor, page)
    ensures forall page, left :: page in pages && left in table && IsBehind(cursor, left) && left !in pages ==>
      left.length < page.length || (left.length == page.length && left.pageId < page.pageId)
  {
    SortedBehind(table, cursor);
    var sorted := Sort(Behind(table, cursor), HeavierPage);
    QueryIsBatch(table, cursor, limit);
    RankedFalls(pages);
    forall page | page in pages ensures page in table && IsBehind(cursor, page) {
      assert page in sorted;
    }
    forall page, left | page in pages && left in table && IsBehind(cursor, left) && left !in pages
      ensures left.length < page.length || (left.length == page.length && left.pageId < page.pageId)
    {
      var i :| 0 <= i < |pages| && sorted[i] == page;
      assert left in sorted;
      var j :| 0 <= j < |sorted| && sorted[j] == left;
      assert HeavierPage(sorted[i], sorted[j]);
    }
  }

  /** `pages_by_descending_length`, reading the replica as `table`. */
  method PagesByDescendingLength(table: seq<ReplicaPage>, cursor: Option<LengthCursor>, limit: nat)
    returns (pages: seq<ReplicaPage>, next: Option<LengthCursor>)
    requires limit > 0 && IsTable(table)
    ensures pages == Query(table, cursor, limit) && next == NextCursor(pages, limit)
    ensures IsBatch(KeySet(table), cursor, limit, Keys(pages), Heavier)
    ensures LongestFirst(pages)
    ensures forall page :: page in pages ==> page in table && IsBehind(cursor, page)
    ensures forall page, left :: page in pages && left in table && IsBehind(cursor, left) && left !in pages ==>
      left.length < page.length || (left.length == page.length && left.pageId < page.pageId)
    ensures next.None? <==> |pages| < limit
    ensures next.None? ==> forall page :: page in table && Past(cursor, KeyOf(page), Heavier) ==> page in pages
    ensures next.Some? ==> forall page :: page in pages ==> page == pages[|pages| - 1] || Heavier(KeyOf(page), next.value)
  {
    pages := Query(table, cursor, limit);
    QueryIsBatch(table, cursor, limit);
    BatchFalls(table, cursor, limit, pages);
    if |pages| < limit {
      next := None;
      QueryHasAll(table, cursor, limit);
    } else {
      next := Some(KeyOf(pages[|pages| - 1]));
      forall page | page in pages ensures page == pages[|pages| - 1] || Heavier(KeyOf(page), next.value) {
        var i :| 0 <= i < |pages| && pages[i] == page;
        if i < |pages| - 1 {
          assert Heavier(Keys(pages)[i], Keys(pages)[|pages| - 1]);
        }
      }
    }
  }

  lemma {:induction false} BehindExactly(table: seq<ReplicaPage>, cursor: Option<LengthCursor>)
    ensures forall page :: page in Behind(table, cursor) <==> page in table && Past(cursor, KeyOf(page), Heavier)
  {
    if table != [] {
      BehindExactly(table[1..], cursor);
    }
  }

  lemma {:induction false} BehindDistinct(table: seq<ReplicaPage>, cursor: Option<LengthCursor>)
    requires OneRowPerPage(table)
    ensures OneRowPerPage(Behind(table, cursor))
  {
    if table != [] {
      BehindDistinct(table[1..], cursor);
      BehindExactly(table[1..], cursor);
      var rest := Behind(table[1..], cursor);
      forall j | 0 <= j < |rest| ensures rest[j].pageId != table[0].pageId {
        assert rest[j] in table[1..];
      }
    }
  }

  /** Two articles of one snapshot are never equally heavy. */
  lemma OneIsHeavier(table: seq<ReplicaPage>, x: ReplicaPage, y: ReplicaPage)
    requires OneRowPerPage(table) && x in table && y in table && x != y
    ensures HeavierPage(x, y) || HeavierPage(y, x)
  {
    var i :| 0 <= i < |table| && table[i] == x;
    var j :| 0 <= j < |table| && table[j] == y;
    assert x.pageId != y.pageId;
  }

  lemma RowsDiffer(rows: seq<ReplicaPage>)
    requires OneRowPerPage(rows)
    ensures NoRepeats(rows)
  {
    forall i, j | 0 <= i < j < |rows| ensures rows[i] != rows[j] {
      assert rows[i].pageId != rows[j].pageId;
    }
  }

  lemma SortedBehind(table: seq<ReplicaPage>, cursor: Option<LengthCursor>)
    requires IsTable(table)
    ensures var sorted := Sort(Behind(table, cursor), HeavierPage);
      && StrictlyRanked(sorted, HeavierPage)
      && forall page :: page in sorted <==> page in table && Past(cursor, KeyOf(page), Heavier)
  {
    var rows := Behind(table, cursor);
    BehindExactly(table, cursor);
    SortKeeps(rows, HeavierPage);
    assert StrictlyRanked(Sort(rows, HeavierPage), HeavierPage) by {
      BehindDistinct(table, cursor);
      RowsDiffer(rows);
      forall x, y | x in rows && y in rows && x != y ensures HeavierPage(x, y) || HeavierPage(y, x) {
        OneIsHeavier(table, x, y);
      }
      SortRanksStrictly(rows, HeavierPage);
    }
  }

  lemma QueryHasAll(table: seq<ReplicaPage>, cursor: Option<LengthCursor>, limit: nat)
    requires IsTable(table) && |Query(table, cursor, limit)| < limit
    ensures forall page :: page in table && Past(cursor, KeyOf(page), Heavier) ==> page in Query(table, cursor, limit)
  {
    SortedBehind(table, cursor);
  }

  /** The query is a keyset batch over the keys of its snapshot. */
  lemma QueryIsBatch(table: seq<ReplicaPage>, cursor: Option<LengthCursor>, limit: nat)
    requires IsTable(table)
    ensures IsBatch(KeySet(table), cursor, limit, Keys(Query(table, cursor, limit)), Heavier)
    ensures forall page :: page in Query(table, cursor, limit) ==> page in table
  {
    SortedBehind(table, cursor);
    var sorted := Sort(Behind(table, cursor), HeavierPage);
    var pages := Query(table, cursor, limit);
    var keys := Keys(pages);
    forall i | 0 <= i < |pages| ensures pages[i] in table && KeyOf(pages[i]) in KeySet(table) {
      assert sorted[i] in sorted;
    }
    forall i, j | 0 <= i < j < |keys| ensures Heavier(keys[i], keys[j]) {
      assert HeavierPage(sorted[i], sorted[j]);
    }
    forall k | k in KeySet(table) && Past(cursor, k, Heavier) && k !in keys
      ensures |keys| == limit && forall b :: b in keys ==> Heavier(b, k)
    {
      var page :| page in table && KeyOf(page) == k;
      QueryCutsBehind(sorted, pages, keys, limit, page);
    }
  }

  /** A row the limit cuts off comes after every row it lets through. */
  lemma QueryCutsBehind(sorted: seq<ReplicaPage>, pages: seq<ReplicaPage>, keys: seq<LengthCursor>, limit: nat, page: ReplicaPage)
    requires StrictlyRanked(sorted, HeavierPage) && page in sorted
    requires pages == (if |sorted| <= limit then sorted else sorted[..limit]) && keys == Keys(pages) && KeyOf(page) !in keys
    ensures |keys| == limit && forall b :: b in keys ==> Heavier(b, KeyOf(page))
  {
    var j :| 0 <= j < |sorted| && sorted[j] == page;
    assert forall i :: 0 <= i < |keys| ==> keys[i] in keys && keys[i] == KeyOf(sorted[i]);
    assert j >= |keys|;
    forall i | 0 <= i < |keys| ensures Heavier(keys[i], KeyOf(page)) {
      assert HeavierPage(sorted[i], sorted[j]);
    }
  }
}
