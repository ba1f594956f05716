/** The admin lists: newest first, one page at a time, each page asked for by the last row of the one
    before it. */
module Paging {
  import opened Wrappers

  /** What a list is ordered by: the time of creation and then the id. Lists by id alone have every
      `at` the same. */
  datatype Key = Key(at: int, id: int)

  /** A row of a list; its other columns are whatever the list selects. */
  datatype Row = Row(key: Key, columns: seq<string>)

  datatype Page = Page(items: seq<Row>, next: Option<Key>, limit: int)

  predicate Older(a: Key, b: Key) {
    a.at < b.at || (a.at == b.at && a.id < b.id)
  }

  predicate Past(before: Option<Key>, key: Key) {
    before.None? || Older(key, before.value)
  }

  /** No two rows of a table have the same key. */
  predicate KeysDistinct(table: seq<Row>) {
    forall i, j | 0 <= i < j < |table| :: table[i].key != table[j].key
  }

  predicate Descending(rows: seq<Row>) {
    forall i, j | 0 <= i < j < |rows| :: Older(rows[j].key, rows[i].key)
  }

  // ------------------------------------------------------------ the query

  function Insert(row: Row, rows: seq<Row>): seq<Row> {
    if rows == [] || Older(rows[0].key, row.key) then [row] + rows
    else [rows[0]] + Insert(row, rows[1..])
  }

  /** All the rows a filter keeps that are past the cursor, newest first. */
  function Listing(table: seq<Row>, keep: Row -> bool, before: Option<Key>): seq<Row> {
    if table == [] then []
    else
      var rest := Listing(table[1..], keep, before);
      if keep(table[0]) && Past(before, table[0].key) then Insert(table[0], rest) else rest
  }

  function Clamp(n: int, low: int, high: int): int
    requires low <= high
  {
    if n < low then low else if n > high then high else n
  }

  function FirstRows(rows: seq<Row>, n: nat): seq<Row> {
    if |rows| <= n then rows else rows[..n]
  }

  const LARGEST_FETCH := 201

  function Fetch(table: seq<Row>, keep: Row -> bool, before: Option<Key>, limit: int): seq<Row> {
    FirstRows(Listing(table, keep, before), Clamp(limit, 1, LARGEST_FETCH))
  }

  lemma {:induction false} InsertKeepsOrder(row: Row, rows: seq<Row>)
    requires Descending(rows) && forall r | r in rows :: r.key != row.key
    ensures Descending(Insert(row, rows))
    ensures forall r :: r in Insert(row, rows) <==> r == row || r in rows
  {
    if rows != [] && !Older(rows[0].key, row.key) {
      var tail := rows[1..];
      InsertKeepsOrder(row, tail);
      assert rows[0] in rows;
      forall r | r in Insert(row, tail) ensures Older(r.key, rows[0].key) {
        if r != row {
          assert r in tail;
          var i :| 0 <= i < |tail| && tail[i] == r;
          assert Older(rows[i + 1].key, rows[0].key);
        }
      }
      assert Descending([rows[0]] + Insert(row, tail)) by { Prepended(rows[0], Insert(row, tail)); }
    }
  }

  lemma Prepended(first: Row, rows: seq<Row>)
    requires Descending(rows) && forall r | r in rows :: Older(r.key, first.key)
    ensures Descending([first] + rows)
  {
  }

  /** The listing holds exactly the rows asked for, in strictly descending order. */
  lemma {:induction false} ListingHolds(table: seq<Row>, keep: Row -> bool, before: Option<Key>)
    requires KeysDistinct(table)
    ensures Descending(Listing(table, keep, before))
    ensures forall r :: r in Listing(table, keep, before) <==> r in table && keep(r) && Past(before, r.key)
  {
    if table != [] {
      hide Older, Descending, Insert, Past;
      ListingHolds(table[1..], keep, before);
      var rest := Listing(table[1..], keep, before);
      forall r | r in rest ensures r.key != table[0].key {
        assert r in table[1..];
        var i :| 0 <= i < |table[1..]| && table[1..][i] == r;
        assert table[i + 1] == r;
      }
      if keep(table[0]) && Past(before, table[0].key) {
        InsertKeepsOrder(table[0], rest);
      }
    }
  }

  /** The listing, written out: the rows of the table that the filter keeps and that are older than the
      cursor, if there is one, each once, with the time and then the id strictly falling. */
  lemma ListingIsExact(table: seq<Row>, keep: Row -> bool, before: Option<Key>)
    requires forall i, j | 0 <= i < j < |table| :: table[i].key != table[j].key
    ensures var rows := Listing(table, keep, before);
            && (forall i, j | 0 <= i < j < |rows| ::
                  || rows[j].key.at < rows[i].key.at
                  || (rows[j].key.at == rows[i].key.at && rows[j].key.id < rows[i].key.id))
            && forall r :: r in rows <==>
                 r in table && keep(r)
                 && (before.Some? ==>
                       || r.key.at < before.value.at
                       || (r.key.at == before.value.at && r.key.id < before.value.id))
  {
    ListingHolds(table, keep, before);
    hide Listing;
    var rows := Listing(table, keep, before);
    forall i, j | 0 <= i < j < |rows|
      ensures rows[j].key.at < rows[i].key.at || (rows[j].key.at == rows[i].key.at && rows[j].key.id < rows[i].key.id)
    {
      assert Older(rows[j].key, rows[i].key);
    }
  }

  /** Two descending lists of the same rows are the same list. */
  lemma {:induction false} DescendingIsUnique(a: seq<Row>, b: seq<Row>)
    requires Descending(a) && Descending(b) && forall r :: r in a <==> r in b
    ensures a == b
  {
    if a != [] || b != [] {
      var either := if a != [] then a else b;
      assert either[0] in a && either[0] in b;
      assert a[0] in b;
      assert b[0] in a;
      assert a[0] == b[0];
      forall r ensures r in a[1..] <==> r in b[1..] {
        TailHolds(a, r);
        TailHolds(b, r);
      }
      DescendingIsUnique(a[1..], b[1..]);
      assert a == [a[0]] + a[1..] && b == [b[0]] + b[1..];
    }
  }

  lemma TailHolds(rows: seq<Row>, r: Row)
    requires Descending(rows) && rows != []
    ensures r in rows[1..] <==> r in rows && r != rows[0]
  {
  }

  // --------------------------------------------------------- the handlers

  const DEFAULT_PAGE_SIZE := 10
  const MAX_PAGE_SIZE := 100

  function PageSize(requested: Option<int>): (size: int)
    ensures 1 <= size <= 100 && (requested.None? ==> size == 10)
    ensures requested.Some? && 1 <= requested.value <= 100 ==> size == requested.value
    ensures requested.Some? && requested.value > 100 ==> size == 100
    ensures requested.Some? && requested.value < 1 ==> size == 1
  {
    Clamp(if requested.Some? then requested.value else DEFAULT_PAGE_SIZE, 1, MAX_PAGE_SIZE)
  }

  method Paginate(fetched: seq<Row>, limit: int) returns (page: Page)
    requires limit > 0
    ensures page.items == (if |fetched| <= limit then fetched else fetched[..limit]) && page.limit == limit
    ensures page.next == if |fetched| > limit then Some(fetched[limit - 1].key) else None
  {
    var items := fetched;
    var next := None;
    if |items| > limit {
      items := items[..limit];
      next := Some(items[|items| - 1].key);
    }
    page := Page(items, next, limit);
  }

  /** The page that starts past the cursor: the next rows of the listing, and the last of them as the
      cursor for the following page if there are more. */
  function PageOf(table: seq<Row>, keep: Row -> bool, before: Option<Key>, requested: Option<int>): Page {
    var rows, size := Listing(table, keep, before), PageSize(requested);
    Page(FirstRows(rows, size), if |rows| > size then Some(rows[size - 1].key) else None, size)
  }

  /** Fetching one row more than the page holds is enough to know whether there are more: the
      database's own limit never takes that row away. */
  method ListPage(table: seq<Row>, keep: Row -> bool, before: Option<Key>, requested: Option<int>)
    returns (page: Page)
    ensures page == PageOf(table, keep, before, requested)
  {
    var limit := PageSize(requested);
    page := Paginate(Fetch(table, keep, before, limit + 1), limit);
  }

  /** The message list pages only by both halves of the cursor; half of one is none. */
  method Messages(
    table: seq<Row>, keep: Row -> bool, before: Option<int>, beforeId: Option<int>, requested: Option<int>)
    returns (page: Page)
    ensures page == PageOf(table, keep,
                           if before.Some? && beforeId.Some? then Some(Key(before.value, beforeId.value)) else None,
                           requested)
  {
    var cursor := if before.Some? && beforeId.Some? then Some(Key(before.value, beforeId.value)) else None;
    page := ListPage(table, keep, cursor, requested);
  }

  // ------------------------------------------------------------- the walk

  function Shown(pages: seq<Page>): seq<Row> {
    if pages == [] then [] else pages[0].items + Shown(pages[1..])
  }

  /** Each page is asked for with the cursor of the one before, of whatever the table holds by then. */
  predicate Follows(
    tables: seq<seq<Row>>, keep: Row -> bool, before: Option<Key>, requested: Option<int>, pages: seq<Page>)
  {
    && |pages| == |tables|
    && (pages != [] ==>
          && pages[0] == PageOf(tables[0], keep, before, requested)
          && (|pages| > 1 ==>
                pages[0].next.Some? && Follows(tables[1..], keep, pages[0].next, requested, pages[1..])))
  }

  lemma PageIsNext(table: seq<Row>, keep: Row -> bool, before: Option<Key>, requested: Option<int>)
    requires KeysDistinct(table)
    ensures var page := PageOf(table, keep, before, requested);
            && Descending(page.items)
            && (forall r | r in page.items :: Past(before, r.key) && r in table && keep(r))
            && (page.next.Some? ==>
                  && |page.items| == page.limit && Past(before, page.next.value)
                  && forall r | r in page.items :: r.key == page.next.value || Older(page.next.value, r.key))
  {
    ListingHolds(table, keep, before);
    var rows, page := Listing(table, keep, before), PageOf(table, keep, before, requested);
    forall r | r in page.items ensures Past(before, r.key) && r in table && keep(r) {
      assert r in rows;
    }
    if page.next.Some? {
      assert rows[page.limit - 1] in rows;
    }
  }

  /** What is past the cursor and neither on the page nor past the next cursor does not exist. */
  lemma PageMissesNone(table: seq<Row>, keep: Row -> bool, before: Option<Key>, requested: Option<int>, r: Row)
    requires KeysDistinct(table) && r in table && keep(r) && Past(before, r.key)
    ensures var page := PageOf(table, keep, before, requested);
            r in page.items || (page.next.Some? && Past(page.next, r.key))
  {
    ListingHolds(table, keep, before);
    var rows, size := Listing(table, keep, before), PageSize(requested);
    var i :| 0 <= i < |rows| && rows[i] == r;
    if i < size {
      assert r == FirstRows(rows, size)[i];
    }
  }

  /** However the table changes between the pages, no row is shown twice or out of order. */
  lemma {:induction false} NeverRepeatsFrom(
    tables: seq<seq<Row>>, keep: Row -> bool, before: Option<Key>, requested: Option<int>, pages: seq<Page>)
    requires Follows(tables, keep, before, requested, pages) && forall t | t in tables :: KeysDistinct(t)
    ensures Descending(Shown(pages)) && forall r | r in Shown(pages) :: Past(before, r.key)
  {
    if pages != [] {
      hide PageOf, KeysDistinct;
      PageIsNext(tables[0], keep, before, requested);
      if |pages| > 1 {
        NeverRepeatsFrom(tables[1..], keep, pages[0].next, requested, pages[1..]);
        Joined(pages[0].items, Shown(pages[1..]), pages[0].next.value);
      } else {
        assert Shown(pages) == pages[0].items;
      }
    }
  }

  lemma Joined(a: seq<Row>, b: seq<Row>, cut: Key)
    requires Descending(a) && Descending(b)
    requires forall r | r in a :: r.key == cut || Older(cut, r.key)
    requires forall r | r in b :: Older(r.key, cut)
    ensures Descending(a + b)
  {
  }

  predicate Holds(table: seq<Row>, keep: Row -> bool, key: Key) {
    exists i | 0 <= i < |table| :: table[i].key == key && keep(table[i])
  }

  predicate HasKey(rows: seq<Row>, key: Key) {
    exists i | 0 <= i < |rows| :: rows[i].key == key
  }

  /** A row that is there and kept by the filter at every page, whatever else changes, is shown by the
      time there is no next page. */
  lemma {:induction false} NothingIsSkippedFrom(
    tables: seq<seq<Row>>, keep: Row -> bool, before: Option<Key>, requested: Option<int>, pages: seq<Page>, key: Key)
    requires Follows(tables, keep, before, requested, pages) && forall t | t in tables :: KeysDistinct(t)
    requires pages != [] && pages[|pages| - 1].next.None?
    requires Past(before, key) && forall t | t in tables :: Holds(t, keep, key)
    ensures HasKey(Shown(pages), key)
  {
    hide PageOf, KeysDistinct, Older;
    assert tables[0] in tables;
    var i :| 0 <= i < |tables[0]| && tables[0][i].key == key && keep(tables[0][i]);
    var r := tables[0][i];
    PageMissesNone(tables[0], keep, before, requested, r);
    if r in pages[0].items {
      var j :| 0 <= j < |pages[0].items| && pages[0].items[j] == r;
      assert Shown(pages)[j] == r;
    } else {
      NothingIsSkippedFrom(tables[1..], keep, pages[0].next, requested, pages[1..], key);
      var j :| 0 <= j < |Shown(pages[1..])| && Shown(pages[1..])[j].key == key;
      assert Shown(pages)[|pages[0].items| + j].key == key;
    }
  }

  /** Every row shown was in the table and kept by the filter when its page was made. */
  lemma {:induction false} NothingIsMadeUp(
    tables: seq<seq<Row>>, keep: Row -> bool, before: Option<Key>, requested: Option<int>, pages: seq<Page>)
    requires Follows(tables, keep, before, requested, pages) && forall t | t in tables :: KeysDistinct(t)
    ensures forall r | r in Shown(pages) :: keep(r) && exists t | t in tables :: r in t
  {
    if pages != [] {
      hide PageOf, KeysDistinct;
      PageIsNext(tables[0], keep, before, requested);
      assert tables[0] in tables;
      if |pages| > 1 {
        NothingIsMadeUp(tables[1..], keep, pages[0].next, requested, pages[1..]);
      }
    }
  }

  /** However the table changes between the pages of a walk from the newest row on, what is shown falls
      strictly, by time and then by id: no row is shown twice or out of order. */
  lemma NeverRepeats(tables: seq<seq<Row>>, keep: Row -> bool, requested: Option<int>, pages: seq<Page>)
    requires Follows(tables, keep, None, requested, pages) && forall t | t in tables :: KeysDistinct(t)
    ensures var rows := Shown(pages);
            forall i, j | 0 <= i < j < |rows| ::
              rows[j].key.at < rows[i].key.at || (rows[j].key.at == rows[i].key.at && rows[j].key.id < rows[i].key.id)
  {
    NeverRepeatsFrom(tables, keep, None, requested, pages);
    var rows := Shown(pages);
    hide Shown, Follows;
    forall i, j | 0 <= i < j < |rows|
      ensures rows[j].key.at < rows[i].key.at || (rows[j].key.at == rows[i].key.at && rows[j].key.id < rows[i].key.id)
    {
      assert Older(rows[j].key, rows[i].key);
    }
  }

  /** A row that is in the table under the same key and kept by the filter at every page, whatever else
      changes, has been shown when there is no next page. */
  lemma NothingIsSkipped(tables: seq<seq<Row>>, keep: Row -> bool, requested: Option<int>, pages: seq<Page>, key: Key)
    returns (n: nat)
    requires Follows(tables, keep, None, requested, pages) && forall t | t in tables :: KeysDistinct(t)
    requires pages != [] && pages[|pages| - 1].next.None?
    requires forall t: seq<Row> | t in tables :: exists i :: 0 <= i < |t| && t[i].key == key && keep(t[i])
    ensures n < |Shown(pages)| && Shown(pages)[n].key == key
  {
    forall t: seq<Row> | t in tables ensures Holds(t, keep, key) {
      var i :| 0 <= i < |t| && t[i].key == key && keep(t[i]);
    }
    NothingIsSkippedFrom(tables, keep, None, requested, pages, key);
    n :| 0 <= n < |Shown(pages)| && Shown(pages)[n].key == key;
  }

  /** Following `next` until there is none. */
  function Walk(table: seq<Row>, keep: Row -> bool, before: Option<Key>, requested: Option<int>): (pages: seq<Page>)
    requires KeysDistinct(table)
    ensures pages != [] && pages[|pages| - 1].next.None?
    decreases |Listing(table, keep, before)|
  {
    var page := PageOf(table, keep, before, requested);
    if page.next.None? then [page]
    else
      NextIsShorter(table, keep, before, requested);
      [page] + Walk(table, keep, page.next, requested)
  }

  /** Past the cursor a page gives there are exactly the rows the page did not show. */
  lemma NextIsShorter(table: seq<Row>, keep: Row -> bool, before: Option<Key>, requested: Option<int>)
    requires KeysDistinct(table) && PageOf(table, keep, before, requested).next.Some?
    ensures var page := PageOf(table, keep, before, requested);
            page.items + Listing(table, keep, page.next) == Listing(table, keep, before)
  {
    var page, rows := PageOf(table, keep, before, requested), Listing(table, keep, before);
    ListingHolds(table, keep, before);
    ListingHolds(table, keep, page.next);
    hide Listing, KeysDistinct, Descending, Past, Older;
    RowsPast(rows, page.limit, before, Listing(table, keep, page.next), table, keep);
    assert rows == rows[..page.limit] + rows[page.limit..];
  }

  lemma RowsPast(
    rows: seq<Row>, n: nat, before: Option<Key>, rest: seq<Row>, table: seq<Row>, keep: Row -> bool)
    requires 0 < n <= |rows| && Descending(rows) && Descending(rest)
    requires forall r :: r in rows <==> r in table && keep(r) && Past(before, r.key)
    requires forall r :: r in rest <==> r in table && keep(r) && Past(Some(rows[n - 1].key), r.key)
    ensures rest == rows[n..]
  {
    hide Descending, Older, Past;
    var last := rows[n - 1];
    assert last in rows;
    forall r ensures r in rows[n..] <==> r in rest {
      TailIsPast(rows, n, r);
      OlderStill(before, last.key, r.key);
    }
    Suffix(rows, n);
    DescendingIsUnique(rows[n..], rest);
  }

  lemma OlderStill(before: Option<Key>, cut: Key, key: Key)
    requires Past(before, cut)
    ensures Past(Some(cut), key) <==> Older(key, cut)
    ensures Older(key, cut) ==> Past(before, key)
  {
  }

  lemma Suffix(rows: seq<Row>, n: nat)
    requires Descending(rows) && n <= |rows|
    ensures Descending(rows[n..])
  {
  }

  lemma TailIsPast(rows: seq<Row>, n: nat, r: Row)
    requires Descending(rows) && 0 < n <= |rows|
    ensures r in rows[n..] <==> r in rows && Older(r.key, rows[n - 1].key)
  {
  }

  /** On a table at rest the walk ends, its pages together are the whole listing, and every page but
      the last is as full as the applied limit allows. */
  lemma {:induction false} WalkIsListing(
    table: seq<Row>, keep: Row -> bool, before: Option<Key>, requested: Option<int>)
    requires KeysDistinct(table)
    ensures var pages := Walk(table, keep, before, requested);
            && Shown(pages) == Listing(table, keep, before)
            && (forall i | 0 <= i < |pages| :: pages[i].limit == PageSize(requested))
            && (forall i | 0 <= i < |pages| - 1 :: |pages[i].items| == PageSize(requested))
            && (|pages| > 1 ==> pages[|pages| - 1].items != [])
    decreases |Listing(table, keep, before)|
  {
    var page := PageOf(table, keep, before, requested);
    if page.next.None? {
      assert Shown([page]) == page.items;
    } else {
      NextIsShorter(table, keep, before, requested);
      WalkIsListing(table, keep, page.next, requested);
      MoreFollows(table, keep, before, requested);
      var more := Walk(table, keep, page.next, requested);
      hide Listing, PageOf, Walk;
      assert ([page] + more)[1..] == more;
    }
  }

  /** A cursor is only given when there is a row past it. */
  lemma MoreFollows(table: seq<Row>, keep: Row -> bool, before: Option<Key>, requested: Option<int>)
    requires KeysDistinct(table)
    ensures var page := PageOf(table, keep, before, requested);
            page.next.Some? ==> PageOf(table, keep, page.next, requested).items != []
  {
    var page := PageOf(table, keep, before, requested);
    if page.next.Some? {
      NextIsShorter(table, keep, before, requested);
    }
  }

  /** The walk is what a client sees while nothing changes. */
  lemma {:induction false} WalkFollows(
    table: seq<Row>, keep: Row -> bool, before: Option<Key>, requested: Option<int>, tables: seq<seq<Row>>)
    requires KeysDistinct(table) && |tables| == |Walk(table, keep, before, requested)|
    requires forall i | 0 <= i < |tables| :: tables[i] == table
    ensures Follows(tables, keep, before, requested, Walk(table, keep, before, requested))
    decreases |tables|
  {
    var page, pages := PageOf(table, keep, before, requested), Walk(table, keep, before, requested);
    if page.next.Some? {
      var more := Walk(table, keep, page.next, requested);
      assert pages[1..] == more;
      WalkFollows(table, keep, page.next, requested, tables[1..]);
    }
  }
}
