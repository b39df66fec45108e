/** Keyset pagination of the public reviews. */
module Query {
  import opened Ordering
  import opened Outcomes

  /** The columns that order the list: creation time, then id. */
  datatype Row = Row(createdAt: int, id: string)

  datatype DecodeError = Malformed | BadTimestamp

  /** The text form of a time and its parser, which the cursor relies on. */
  ghost predicate Stamps(format: int -> string, parse: string -> Option<int>) {
    forall t :: '|' !in format(t) && parse(format(t)) == Some(t)
  }

  function Encode(cursor: Row, format: int -> string): string {
    format(cursor.createdAt) + "|" + cursor.id
  }

  /** The text before and after the first separator. */
  function Partition(value: string): Option<(string, string)> {
    if value == [] then None
    else if value[0] == '|' then Some(("", value[1..]))
    else match Partition(value[1..])
      case None => None
      case Some((front, back)) => Some(([value[0]] + front, back))
  }

  function Decode(value: Option<string>, parse: string -> Option<int>): Result<Option<Row>, DecodeError> {
    if value.None? || value.value == "" then Success(None) else
    match Partition(value.value)
    case None => Failure(Malformed)
    case Some((stamp, id)) =>
      match parse(stamp)
      case None => Failure(BadTimestamp)
      case Some(t) => Success(Some(Row(t, id)))
  }

  lemma {:induction false} PartitionSplits(front: string, back: string)
    requires '|' !in front
    ensures Partition(front + "|" + back) == Some((front, back))
  {
    if front == "" {
      assert "" + "|" + back == ['|'] + back;
    } else {
      PartitionSplits(front[1..], back);
      assert (front + "|" + back)[1..] == front[1..] + "|" + back;
      assert front == [front[0]] + front[1..];
    }
  }

  lemma {:induction false} PartitionFails(value: string)
    ensures Partition(value) == None <==> '|' !in value
  {
    if value != "" {
      PartitionFails(value[1..]);
      assert value == [value[0]] + value[1..];
    }
  }

  /** Decoding inverts encoding, whatever characters the id holds. */
  lemma DecodeInvertsEncode(cursor: Row, format: int -> string, parse: string -> Option<int>)
    requires Stamps(format, parse)
    ensures Decode(Some(Encode(cursor, format)), parse) == Success(Some(cursor))
  {
    PartitionSplits(format(cursor.createdAt), cursor.id);
  }

  /** Only a text without separator is malformed, and only an absent or empty one starts from the top. */
  lemma DecodeRefuses(value: string, parse: string -> Option<int>)
    ensures Decode(Some(value), parse) == Failure(Malformed) <==> value != "" && '|' !in value
    ensures Decode(Some(value), parse) == Success(None) <==> value == ""
  {
    PartitionFails(value);
  }

  // ---- Order ----

  /** `a` comes before `b` in the list: later created, or the same time and a larger id. */
  predicate Newer(a: Row, b: Row) {
    a.createdAt > b.createdAt || (a.createdAt == b.createdAt && a.id != b.id && StrLeq(b.id, a.id))
  }

  predicate ListLeq(a: Row, b: Row) {
    !Newer(b, a)
  }

  lemma NewerOrders(a: Row, b: Row, c: Row)
    ensures !(Newer(a, b) && Newer(b, a)) && !Newer(a, a)
    ensures a == b || Newer(a, b) || Newer(b, a)
    ensures Newer(a, b) && Newer(b, c) ==> Newer(a, c)
  {
    StrLeqTotal(a.id, b.id);
    StrLeqTotal(b.id, c.id);
    if StrLeq(b.id, a.id) && StrLeq(c.id, b.id) {
      StrLeqTransitive(c.id, b.id, a.id);
    }
  }

  lemma ListLeqOrders()
    ensures TotalPreorder(ListLeq)
  {
    forall a, b ensures ListLeq(a, b) || ListLeq(b, a) {
      NewerOrders(a, b, a);
    }
    forall a, b, c | ListLeq(a, b) && ListLeq(b, c) ensures ListLeq(a, c) {
      NewerOrders(a, b, c);
      NewerOrders(c, b, a);
      NewerOrders(b, c, a);
    }
  }

  ghost predicate Descending(rows: seq<Row>) {
    forall i, j | 0 <= i < j < |rows| :: Newer(rows[i], rows[j])
  }

  // ---- One page ----

  predicate Past(cursor: Option<Row>, row: Row) {
    cursor.None? || Newer(cursor.value, row)
  }

  function RowsPast(snapshot: seq<Row>, cursor: Option<Row>): seq<Row> {
    if snapshot == [] then []
    else (if Past(cursor, snapshot[0]) then [snapshot[0]] else []) + RowsPast(snapshot[1..], cursor)
  }

  datatype Page = Page(items: seq<Row>, next: Option<string>, total: nat)

  function PageSize(requested: int): nat {
    if requested < 1 then 1 else if requested > 100 then 100 else requested
  }

  function Fetched(snapshot: seq<Row>, cursor: Option<Row>, limit: nat): seq<Row> {
    var ordered := SortBy(RowsPast(snapshot, cursor), ListLeq);
    if |ordered| > limit then ordered[..limit] else ordered
  }

  /** One page of the rows that match at this moment. */
  function ReviewPage(snapshot: seq<Row>, cursor: Option<Row>, requested: int, format: int -> string): Page {
    var size := PageSize(requested);
    var rows := Fetched(snapshot, cursor, size + 1);
    var items := if |rows| > size then rows[..size] else rows;
    Page(items, if |rows| > size && items != [] then Some(Encode(items[|items| - 1], format)) else None, |snapshot|)
  }

  lemma {:induction false} RowsPastMembers(snapshot: seq<Row>, cursor: Option<Row>)
    ensures forall row :: row in RowsPast(snapshot, cursor) <==> row in snapshot && Past(cursor, row)
    ensures Distinct(snapshot) ==> Distinct(RowsPast(snapshot, cursor))
  {
    if snapshot != [] {
      RowsPastMembers(snapshot[1..], cursor);
      assert snapshot == [snapshot[0]] + snapshot[1..];
    }
  }

  /** The rows past the cursor in strictly descending order. */
  lemma OrderedRows(snapshot: seq<Row>, cursor: Option<Row>)
    requires Distinct(snapshot)
    ensures var ordered := SortBy(RowsPast(snapshot, cursor), ListLeq);
      Descending(ordered) && forall row :: row in ordered <==> row in snapshot && Past(cursor, row)
  {
    var past := RowsPast(snapshot, cursor);
    var ordered := SortBy(past, ListLeq);
    RowsPastMembers(snapshot, cursor);
    ListLeqOrders();
    SortBySorts(past, ListLeq);
    SortByPermutes(past, ListLeq);
    DistinctAfterSort(past, ListLeq);
    forall i, j | 0 <= i < j < |ordered| ensures Newer(ordered[i], ordered[j]) {
      assert ListLeq(ordered[i], ordered[j]) && ordered[i] != ordered[j];
      NewerOrders(ordered[i], ordered[j], ordered[i]);
    }
  }

  /** What a page holds: a descending, complete run of the matching rows from the cursor to the next one. */
  ghost predicate PageOk(snapshot: seq<Row>, cursor: Option<Row>, items: seq<Row>, last: Option<Row>) {
    && Descending(items)
    && (forall row | row in items :: row in snapshot && Past(cursor, row))
    && (forall row | row in snapshot && Past(cursor, row) :: row in items || (last.Some? && Newer(last.value, row)))
    && (last.Some? ==> items != [] && items[|items| - 1] == last.value)
  }

  function LastOf(page: Page): Option<Row> {
    if page.next.Some? && page.items != [] then Some(page.items[|page.items| - 1]) else None
  }

  lemma PageIsOk(snapshot: seq<Row>, cursor: Option<Row>, requested: int, format: int -> string)
    requires Distinct(snapshot)
    ensures var page := ReviewPage(snapshot, cursor, requested, format);
      && PageOk(snapshot, cursor, page.items, LastOf(page))
      && page.next == (if LastOf(page).Some? then Some(Encode(LastOf(page).value, format)) else None)
      && 0 <= |page.items| <= PageSize(requested) && (page.next.Some? ==> |page.items| == PageSize(requested))
  {
    OrderedRows(snapshot, cursor);
    var ordered := SortBy(RowsPast(snapshot, cursor), ListLeq);
    var page := ReviewPage(snapshot, cursor, requested, format);
    var size := PageSize(requested);
    assert page.items == if |ordered| > size then ordered[..size] else ordered;
    forall row | row in snapshot && Past(cursor, row)
      ensures row in page.items || (LastOf(page).Some? && Newer(LastOf(page).value, row))
    {
      var i :| 0 <= i < |ordered| && ordered[i] == row;
      if i < |page.items| {
        assert page.items[i] == row;
      }
    }
  }

  /** A page is as long as asked, between 1 and 100, and has a next cursor exactly if matching rows remain. */
  lemma PageIsFull(snapshot: seq<Row>, cursor: Option<Row>, requested: int, format: int -> string)
    requires Distinct(snapshot)
    ensures var page := ReviewPage(snapshot, cursor, requested, format);
      && page.total == |snapshot|
      && |page.items| <= 100 && (1 <= requested <= 100 ==> |page.items| <= requested)
      && (requested < 1 ==> |page.items| <= 1)
      && (page.next.Some? <==> exists row :: row in snapshot && Past(cursor, row) && row !in page.items)
      && (page.next.Some? && requested <= 100 ==> |page.items| >= requested)
      && (page.next.Some? && requested > 100 ==> |page.items| == 100)
  {
    OrderedRows(snapshot, cursor);
    var ordered := SortBy(RowsPast(snapshot, cursor), ListLeq);
    var page, size := ReviewPage(snapshot, cursor, requested, format), PageSize(requested);
    assert page.items == if |ordered| > size then ordered[..size] else ordered;
    if |ordered| > size {
      var row := ordered[size];
      forall i | 0 <= i < size ensures ordered[i] != row {
        NewerOrders(ordered[i], row, row);
      }
      assert row in ordered && row !in page.items;
    }
  }

  // ---- The walk ----

  /** Pages fetched by following `next` to the end, each from the rows that match at its own time. */
  ghost predicate IsWalk(
    snapshots: seq<seq<Row>>, cursors: seq<Option<Row>>, pages: seq<Page>, requested: int, format: int -> string,
    parse: string -> Option<int>)
  {
    && |pages| == |snapshots| == |cursors| > 0
    && cursors[0] == None
    && (forall i {:trigger pages[i]} | 0 <= i < |pages| ::
      pages[i] == ReviewPage(snapshots[i], cursors[i], requested, format))
    && (forall i {:trigger pages[i]} | 0 <= i < |pages| - 1 ::
      pages[i].next.Some? && Decode(pages[i].next, parse) == Success(cursors[i + 1]))
    && pages[|pages| - 1].next.None?
  }

  function AllItems(pages: seq<Page>): seq<Row> {
    if pages == [] then [] else AllItems(pages[..|pages| - 1]) + pages[|pages| - 1].items
  }

  function CursorAfter(cursors: seq<Option<Row>>, i: nat): Option<Row> {
    if i + 1 < |cursors| then cursors[i + 1] else None
  }

  /** The facts the walk needs about each page. */
  ghost predicate Linked(snapshots: seq<seq<Row>>, cursors: seq<Option<Row>>, pages: seq<Page>) {
    && |pages| == |snapshots| == |cursors| > 0 && cursors[0] == None
    && (forall i {:trigger pages[i]} | 0 <= i < |pages| ::
      PageOk(snapshots[i], cursors[i], pages[i].items, CursorAfter(cursors, i)))
    && (forall i | 1 <= i < |pages| :: cursors[i].Some?)
  }

  lemma WalkIsLinked(
    snapshots: seq<seq<Row>>, cursors: seq<Option<Row>>, pages: seq<Page>, requested: int, format: int -> string,
    parse: string -> Option<int>)
    requires IsWalk(snapshots, cursors, pages, requested, format, parse) && Stamps(format, parse)
    requires forall i | 0 <= i < |snapshots| :: Distinct(snapshots[i])
    ensures Linked(snapshots, cursors, pages)
  {
    hide ReviewPage, Decode, Encode, PageOk;
    forall i {:trigger pages[i]} | 0 <= i < |pages|
      ensures PageOk(snapshots[i], cursors[i], pages[i].items, CursorAfter(cursors, i))
    {
      LinkAt(snapshots, cursors, pages, requested, format, parse, i);
    }
    forall i | 1 <= i < |pages| ensures cursors[i].Some? {
      LinkAt(snapshots, cursors, pages, requested, format, parse, i - 1);
    }
  }

  lemma LinkAt(
    snapshots: seq<seq<Row>>, cursors: seq<Option<Row>>, pages: seq<Page>, requested: int, format: int -> string,
    parse: string -> Option<int>, i: nat)
    requires IsWalk(snapshots, cursors, pages, requested, format, parse) && Stamps(format, parse) && i < |pages|
    requires Distinct(snapshots[i])
    ensures PageOk(snapshots[i], cursors[i], pages[i].items, CursorAfter(cursors, i))
    ensures i + 1 < |pages| ==> cursors[i + 1].Some?
  {
    hide ReviewPage, Decode, Encode, PageOk;
    PageIsOk(snapshots[i], cursors[i], requested, format);
    assert pages[i] == ReviewPage(snapshots[i], cursors[i], requested, format);
    if i + 1 < |pages| {
      assert pages[i].next.Some?;
      DecodeInvertsEncode(LastOf(pages[i]).value, format, parse);
    }
  }

  /** After the first `n` pages: everything listed is descending and not past the next cursor. */
  lemma {:induction false} PrefixDescends(snapshots: seq<seq<Row>>, cursors: seq<Option<Row>>, pages: seq<Page>, n: nat)
    requires Linked(snapshots, cursors, pages) && 1 <= n <= |pages|
    ensures Descending(AllItems(pages[..n]))
    ensures n < |pages| ==>
      forall row | row in AllItems(pages[..n]) :: row == cursors[n].value || Newer(row, cursors[n].value)
    ensures forall row | row in AllItems(pages[..n]) :: exists i :: 0 <= i < n && row in snapshots[i]
  {
    var last := pages[n - 1];
    assert pages[..n][..n - 1] == pages[..n - 1];
    assert PageOk(snapshots[n - 1], cursors[n - 1], last.items, CursorAfter(cursors, n - 1));
    var front := AllItems(pages[..n - 1]);
    if n > 1 {
      PrefixDescends(snapshots, cursors, pages, n - 1);
      forall a, b | a in front && b in last.items ensures Newer(a, b) {
        NewerOrders(a, cursors[n - 1].value, b);
      }
    }
    forall row | row in front ensures exists i :: 0 <= i < n && row in snapshots[i] {
    }
    forall row | row in last.items ensures exists i :: 0 <= i < n && row in snapshots[i] {
      assert row in snapshots[n - 1];
    }
    if n < |pages| {
      var k := |last.items| - 1;
      forall row | row in front + last.items ensures row == cursors[n].value || Newer(row, cursors[n].value) {
        if row in last.items {
          var i :| 0 <= i < |last.items| && last.items[i] == row;
        } else {
          assert Newer(row, last.items[k]);
        }
      }
    }
  }

  /** After the first `n` pages a row that matched throughout is listed or past the next cursor. */
  lemma {:induction false} PrefixCovers(
    snapshots: seq<seq<Row>>, cursors: seq<Option<Row>>, pages: seq<Page>, n: nat, row: Row)
    requires Linked(snapshots, cursors, pages) && n <= |pages|
    requires forall i | 0 <= i < |snapshots| :: row in snapshots[i]
    ensures row in AllItems(pages[..n]) || (n < |pages| && Past(cursors[n], row))
  {
    if n > 0 {
      PrefixCovers(snapshots, cursors, pages, n - 1, row);
      assert pages[..n][..n - 1] == pages[..n - 1];
      assert PageOk(snapshots[n - 1], cursors[n - 1], pages[n - 1].items, CursorAfter(cursors, n - 1));
    }
  }

  /** The walk lists rows in strictly descending order, and every row that matched throughout exactly once. */
  lemma WalkIsExactlyOnce(
    snapshots: seq<seq<Row>>, cursors: seq<Option<Row>>, pages: seq<Page>, requested: int, format: int -> string,
    parse: string -> Option<int>)
    requires IsWalk(snapshots, cursors, pages, requested, format, parse) && Stamps(format, parse)
    requires forall i | 0 <= i < |snapshots| :: Distinct(snapshots[i])
    ensures Descending(AllItems(pages)) && Distinct(AllItems(pages))
    ensures forall row | (forall i | 0 <= i < |snapshots| :: row in snapshots[i]) ::
      row in AllItems(pages) && multiset(AllItems(pages))[row] == 1
    ensures forall row | row in AllItems(pages) :: exists i :: 0 <= i < |snapshots| && row in snapshots[i]
  {
    WalkIsLinked(snapshots, cursors, pages, requested, format, parse);
    assert pages[..|pages|] == pages;
    PrefixDescends(snapshots, cursors, pages, |pages|);
    var all := AllItems(pages);
    forall i, j | 0 <= i < j < |all| ensures all[i] != all[j] {
      NewerOrders(all[i], all[j], all[i]);
    }
    DistinctCounts(all);
    forall row | forall i | 0 <= i < |snapshots| :: row in snapshots[i] ensures row in all && multiset(all)[row] == 1 {
      PrefixCovers(snapshots, cursors, pages, |pages|, row);
    }
  }

  /** The walk lists later created reviews first, and those of one time by falling id. */
  lemma WalkIsNewestFirst(
    snapshots: seq<seq<Row>>, cursors: seq<Option<Row>>, pages: seq<Page>, requested: int, format: int -> string,
    parse: string -> Option<int>, i: nat, j: nat)
    requires IsWalk(snapshots, cursors, pages, requested, format, parse) && Stamps(format, parse)
    requires forall k | 0 <= k < |snapshots| :: Distinct(snapshots[k])
    requires i < j < |AllItems(pages)|
    ensures var a, b := AllItems(pages)[i], AllItems(pages)[j];
      a.createdAt >= b.createdAt
      && (a.createdAt == b.createdAt ==> a.id != b.id && (b.id <= a.id || exists k :: FirstSmaller(b.id, a.id, k)))
  {
    WalkIsExactlyOnce(snapshots, cursors, pages, requested, format, parse);
    var a, b := AllItems(pages)[i], AllItems(pages)[j];
    assert Newer(a, b);
    StrLeqMeans(b.id, a.id);
  }
}
