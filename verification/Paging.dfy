/** Keyset paging: newest rows first, a cursor naming the last row shown, and the reader of that cursor. */
module Paging {
  import opened Decimal
  import opened Options
  import opened Ordering
  import opened Sorting

  datatype Row = Row(id: string, createdAt: int, organizationId: string, siteId: Option<string>)

  datatype PageCursor = PageCursor(createdAt: int, id: string)

  datatype Page = Page(items: seq<Row>, nextCursor: Option<string>)

  /** Whose rows, and on which site when the caller is restricted to one. */
  datatype Scope = Scope(organizationId: string, siteId: Option<string>)

  // -------------------------------------------------------------------- the query ---

  predicate IdLess(a: string, b: string) {
    LexLess(CodesOf(a), CodesOf(b))
  }

  /** ORDER BY created_at DESC, id DESC. */
  predicate Newer(a: Row, b: Row) {
    b.createdAt < a.createdAt || (b.createdAt == a.createdAt && IdLess(b.id, a.id))
  }

  /** The cursor clause. */
  predicate OlderThan(r: Row, cursor: PageCursor) {
    r.createdAt < cursor.createdAt || (r.createdAt == cursor.createdAt && IdLess(r.id, cursor.id))
  }

  predicate Visible(scope: Scope, r: Row) {
    r.organizationId == scope.organizationId && (scope.siteId.Some? ==> r.siteId == scope.siteId)
  }

  predicate Selected(scope: Scope, cursor: Option<PageCursor>, r: Row) {
    Visible(scope, r) && (cursor.Some? ==> OlderThan(r, cursor.value))
  }

  function Select(table: seq<Row>, scope: Scope, cursor: Option<PageCursor>): (r: seq<Row>)
    ensures forall x :: x in r <==> x in table && Selected(scope, cursor, x)
  {
    if table == [] then [] else
      var rest := Select(table[1..], scope, cursor);
      assert table == [table[0]] + table[1..];
      if Selected(scope, cursor, table[0]) then [table[0]] + rest else rest
  }

  function Take<T>(s: seq<T>, n: nat): seq<T> {
    if |s| <= n then s else s[..n]
  }

  function Query(table: seq<Row>, scope: Scope, cursor: Option<PageCursor>, limit: nat): seq<Row> {
    Take(Sort(Newer, Select(table, scope, cursor)), limit)
  }

  function PrintCursor(r: Row): string {
    PrintInt(r.createdAt) + ":" + r.id
  }

  /** `page`: the rows asked for, and a cursor when there was one row more. */
  function PageOf(rows: seq<Row>, limit: nat): Page {
    var items := Take(rows, limit);
    Page(items, if |rows| > limit && items != [] then Some(PrintCursor(items[|items| - 1])) else None)
  }

  // ------------------------------------------------------------ the cursor's reader ---

  datatype PageOptions = PageOptions(limit: nat, cursor: Option<PageCursor>) | Rejected(message: string)

  predicate IsIdChar(c: char) {
    'A' <= c <= 'Z' || 'a' <= c <= 'z' || IsDigit(c) || c == '_' || c == '-'
  }

  /** `^[A-Za-z0-9_-]{1,128}$` */
  predicate IsRowId(id: string) {
    1 <= |id| <= 128 && forall i :: 0 <= i < |id| ==> IsIdChar(id[i])
  }

  /** Between 1 and 128 code points: digits, letters, the dash and the underscore. */
  lemma RowIdMeaning(id: string)
    ensures IsRowId(id) <==>
      && id != "" && |id| < 129
      && forall i :: 0 <= i < |id| ==>
           var u := id[i] as int; u in {45, 95} || 47 < u < 58 || 64 < u < 91 || 96 < u < 123
  {
  }

  /** `^\d{1,n}$` */
  predicate IsNumeral(s: string, digits: nat) {
    1 <= |s| <= digits && AllDigits(s)
  }

  function ParseCursor(raw: string): Option<PageCursor> {
    var separator := IndexOf(raw, ':');
    if |raw| > 160 || separator <= 0 || separator == |raw| - 1 then None
    else
      var time, id := raw[..separator], raw[separator + 1..];
      if !IsNumeral(time, 13) || !IsRowId(id) then None else Some(PageCursor(ParseNat(time), id))
  }

  function ParsePageOptions(rawLimit: Option<string>, rawCursor: Option<string>): PageOptions {
    if rawLimit.Some? && !IsNumeral(rawLimit.value, 3) then Rejected("limit must be an integer from 1 to 100.")
    else
      var limit := if rawLimit.None? then 50 else ParseNat(rawLimit.value);
      if limit < 1 || limit > 100 then Rejected("limit must be an integer from 1 to 100.")
      else if rawCursor.None? then PageOptions(limit, None)
      else
        var cursor := ParseCursor(rawCursor.value);
        if cursor.None? then Rejected("cursor is invalid.") else PageOptions(limit, cursor)
  }

  /** Rows whose cursor the reader accepts. */
  predicate Readable(r: Row) {
    0 <= r.createdAt < Pow10(13) && IsRowId(r.id)
  }

  function CursorOf(r: Row): PageCursor {
    PageCursor(r.createdAt, r.id)
  }

  /** A printed cursor reads back as the pair it names, exactly when the time has at most thirteen digits and
      the id only the permitted characters. */
  lemma CursorRoundTrip(r: Row)
    ensures ParseCursor(PrintCursor(r)) == Some(CursorOf(r)) <==> Readable(r)
  {
    var time := PrintInt(r.createdAt);
    var raw := PrintCursor(r);
    assert ':' !in time;
    IndexOfSeparator(time, r.id, ':');
    assert raw == time + [':'] + r.id;
    assert raw[..|time|] == time && raw[|time| + 1..] == r.id;
    if r.createdAt >= 0 {
      ParsePrint(r.createdAt);
      PrintNatLength(r.createdAt, 13);
    } else {
      assert time[0] == '-';
    }
  }

  /** Exactly the limits from 1 to 100 are accepted, and with them exactly the cursors of readable rows. */
  lemma PageOptionsRoundTrip(limit: nat, r: Row)
    ensures ParsePageOptions(Some(PrintNat(limit)), None)
         == if 1 <= limit <= 100 then PageOptions(limit, None) else Rejected("limit must be an integer from 1 to 100.")
    ensures ParsePageOptions(Some(PrintNat(limit)), Some(PrintCursor(r))) == PageOptions(limit, Some(CursorOf(r)))
       <==> 1 <= limit <= 100 && Readable(r)
  {
    CursorRoundTrip(r);
    ParsePrint(limit);
    PrintNatLength(limit, 3);
    assert Pow10(3) == 1000;
    hide ParseCursor, PrintCursor, Readable;
  }

  /** Whatever the texts, accepted options ask for 1 to 100 rows. */
  lemma AcceptedLimit(rawLimit: Option<string>, rawCursor: Option<string>)
    ensures var o := ParsePageOptions(rawLimit, rawCursor);
      o.PageOptions? ==> 1 <= o.limit <= 100 && (rawLimit.None? ==> o.limit == 50) && (o.cursor.Some? <==> rawCursor.Some?)
    ensures ParsePageOptions(rawLimit, None).PageOptions? <==>
      rawLimit.Some? ==> 1 <= |rawLimit.value| <= 3 && AllDigits(rawLimit.value) && 1 <= ParseNat(rawLimit.value) <= 100
  {
    hide ParseCursor;
  }

  // ------------------------------------------------------------------- the row order ---

  lemma IdOrder(a: string, b: string, c: string)
    ensures !IdLess(a, a)
    ensures IdLess(a, b) || a == b || IdLess(b, a)
    ensures IdLess(a, b) && IdLess(b, c) ==> IdLess(a, c)
  {
    hide LexLess;
    LexIrreflexive(CodesOf(a));
    LexTotal(CodesOf(a), CodesOf(b));
    if CodesOf(a) == CodesOf(b) {
      CodesInjective(a, b);
    }
    if IdLess(a, b) && IdLess(b, c) {
      LexTransitive(CodesOf(a), CodesOf(b), CodesOf(c));
    }
  }

  lemma NewerIsStrict()
    ensures StrictOrder(Newer)
  {
    hide IdLess;
    forall a: Row ensures !Newer(a, a) {
      IdOrder(a.id, a.id, a.id);
    }
    forall a: Row, b: Row, c: Row | Newer(a, b) && Newer(b, c) ensures Newer(a, c) {
      IdOrder(c.id, b.id, a.id);
    }
  }

  ghost predicate DistinctIds(table: seq<Row>) {
    forall i, j :: 0 <= i < j < |table| ==> table[i].id != table[j].id
  }

  lemma {:induction false} SelectComparable(table: seq<Row>, scope: Scope, cursor: Option<PageCursor>)
    requires DistinctIds(table)
    ensures PairwiseComparable(Newer, Select(table, scope, cursor))
  {
    hide IdLess, Selected;
    if table != [] {
      SelectComparable(table[1..], scope, cursor);
      var s := Select(table, scope, cursor);
      var rest := Select(table[1..], scope, cursor);
      if Selected(scope, cursor, table[0]) {
        forall j | 1 <= j < |s| ensures Newer(s[0], s[j]) || Newer(s[j], s[0]) {
          assert s[j] == rest[j - 1] && rest[j - 1] in rest;
          var k :| 0 <= k < |table[1..]| && table[1..][k] == s[j];
          assert table[0].id != table[k + 1].id;
          IdOrder(s[0].id, s[j].id, s[0].id);
        }
      }
    }
  }

  /** Everything the caller may see, newest first. */
  function Listing(table: seq<Row>, scope: Scope): seq<Row> {
    Sort(Newer, Select(table, scope, None))
  }

  /** The listing is exactly the organisation's rows, those of one site when the caller is restricted to it: no row of
      another organisation or site is ever shown, on any page. */
  lemma ListingStaysInScope(table: seq<Row>, scope: Scope, cursor: Option<PageCursor>, limit: nat, r: Row)
    requires DistinctIds(table)
    ensures r in Listing(table, scope) <==>
      r in table && r.organizationId == scope.organizationId && (scope.siteId.Some? ==> r.siteId == scope.siteId)
    ensures r in Query(table, scope, cursor, limit) ==>
      r in table && r.organizationId == scope.organizationId && (scope.siteId.Some? ==> r.siteId == scope.siteId)
  {
    hide Newer, OlderThan, Sort;
    ListingOrdered(table, scope, None);
    ListingOrdered(table, scope, cursor);
  }

  lemma ListingOrdered(table: seq<Row>, scope: Scope, cursor: Option<PageCursor>)
    requires DistinctIds(table)
    ensures var s := Sort(Newer, Select(table, scope, cursor));
      Ordered(Newer, s) && forall x :: x in s <==> x in table && Selected(scope, cursor, x)
  {
    hide Newer, Selected;
    NewerIsStrict();
    SelectComparable(table, scope, cursor);
    SortOrders(Newer, Select(table, scope, cursor));
  }

  /** The page is the newest of the rows asked for, in order: each matches, every matching row left out is older
      than all of them and is left out only because the page is full, and a cursor is given exactly then, naming
      the last row. */
  ghost predicate IsNewestPage(table: seq<Row>, scope: Scope, cursor: Option<PageCursor>, limit: nat, page: Page) {
    && Ordered(Newer, page.items) && |page.items| <= limit
    && (forall r :: r in page.items ==> r in table && Selected(scope, cursor, r))
    && (forall r :: r in table && Selected(scope, cursor, r) && r !in page.items ==>
          |page.items| == limit && forall shown :: shown in page.items ==> Newer(shown, r))
    && (page.nextCursor.Some? <==> page.items != [] && exists r :: r in table && Selected(scope, cursor, r) && r !in page.items)
    && (page.nextCursor.Some? ==> page.nextCursor.value == PrintCursor(page.items[|page.items| - 1]))
  }

  lemma PageOfIsNewest(table: seq<Row>, scope: Scope, cursor: Option<PageCursor>, limit: nat)
    requires DistinctIds(table)
    ensures IsNewestPage(table, scope, cursor, limit, PageOf(Query(table, scope, cursor, limit + 1), limit))
  {
    hide Newer, Selected, Sort, PrintCursor;
    ListingOrdered(table, scope, cursor);
    NewerIsStrict();
    var all := Sort(Newer, Select(table, scope, cursor));
    var page := PageOf(Query(table, scope, cursor, limit + 1), limit);
    assert page.items == if |all| <= limit then all else all[..limit];
    forall r | r in all && r !in page.items
      ensures |page.items| == limit && forall shown :: shown in page.items ==> Newer(shown, r)
    {
      var k :| 0 <= k < |all| && all[k] == r;
      assert limit <= k;
    }
    if |all| > limit {
      var over := all[limit];
      assert over in all;
    }
  }

  /** `id` is the primary key of the table. */
  method Actions(table: seq<Row>, scope: Scope, limit: nat, cursor: Option<PageCursor>) returns (page: Page)
    requires DistinctIds(table)
    ensures page == PageOf(Query(table, scope, cursor, limit + 1), limit)
    ensures IsNewestPage(table, scope, cursor, limit, page)
  {
    hide Query, IsNewestPage;
    PageOfIsNewest(table, scope, cursor, limit);
    var results := Query(table, scope, cursor, limit + 1);
    var hasMore := |results| > limit;
    var items := if hasMore then results[..limit] else results;
    var nextCursor := if hasMore && items != [] then Some(PrintCursor(items[|items| - 1])) else None;
    return Page(items, nextCursor);
  }

  // -------------------------------------------------------------------------- the walk ---

  /** The table may have grown since the walk began, but only by rows newer than all it showed then. */
  ghost predicate GrownByNewer(base: seq<Row>, table: seq<Row>, scope: Scope) {
    && DistinctIds(table)
    && (forall r :: r in base ==> r in table)
    && (forall r, b :: r in table && r !in base && Visible(scope, r) && b in base && Visible(scope, b) ==> Newer(r, b))
  }

  lemma RestOfOrdered(all: seq<Row>, p: nat, x: Row)
    requires Ordered(Newer, all) && 0 < p <= |all|
    ensures x in all[p..] <==> x in all && Newer(all[p - 1], x)
  {
    hide Newer;
    NewerIsStrict();
    if x in all && Newer(all[p - 1], x) {
      var k :| 0 <= k < |all| && all[k] == x;
      assert k >= p;
      assert all[p..][k - p] == x;
    }
    if x in all[p..] {
      var k :| 0 <= k < |all[p..]| && all[p..][k] == x;
      assert all[k + p] == x;
    }
  }

  /** A row older than one of the original rows was there from the beginning. */
  lemma OlderRowIsOriginal(base: seq<Row>, table: seq<Row>, scope: Scope, last: Row, x: Row)
    requires GrownByNewer(base, table, scope) && last in base && Visible(scope, last)
    ensures x in table && Visible(scope, x) && Newer(last, x) <==> x in base && Visible(scope, x) && Newer(last, x)
  {
    hide Newer, Visible;
    NewerIsStrict();
  }

  /** What the query after a row of the original listing sees is the rest of that listing. */
  lemma QueryAfterRow(base: seq<Row>, table: seq<Row>, scope: Scope, p: nat)
    requires DistinctIds(base) && GrownByNewer(base, table, scope)
    requires 0 < p <= |Listing(base, scope)|
    ensures Sort(Newer, Select(table, scope, Some(CursorOf(Listing(base, scope)[p - 1])))) == Listing(base, scope)[p..]
  {
    hide IdLess, Sort, Visible;
    var all := Listing(base, scope);
    var last := all[p - 1];
    var cursor := Some(CursorOf(last));
    var seen := Sort(Newer, Select(table, scope, cursor));
    ListingOrdered(base, scope, None);
    ListingOrdered(table, scope, cursor);
    NewerIsStrict();
    assert last in all;
    forall x ensures x in seen <==> x in all[p..] {
      OlderRowIsOriginal(base, table, scope, last, x);
      RestOfOrdered(all, p, x);
    }
    hide Ordered, GrownByNewer, Listing, Select;
    assert Ordered(Newer, all[p..]) by { OrderedRest(all, p); }
    OrderedUnique(Newer, seen, all[p..]);
  }

  lemma OrderedRest(all: seq<Row>, p: nat)
    requires Ordered(Newer, all) && p <= |all|
    ensures Ordered(Newer, all[p..])
  {
  }

  /** The page a request with this limit and this cursor text is answered by. */
  ghost predicate Serves(table: seq<Row>, scope: Scope, limit: nat, rawCursor: Option<string>, page: Page) {
    var options := ParsePageOptions(Some(PrintNat(limit)), rawCursor);
    options.PageOptions? && page == PageOf(Query(table, scope, options.cursor, options.limit + 1), options.limit)
  }

  /** The page asked for with the cursor the page before it printed. */
  ghost predicate NextPage(previous: Page, table: seq<Row>, scope: Scope, limit: nat, page: Page) {
    previous.nextCursor.Some? && Serves(table, scope, limit, previous.nextCursor, page)
  }

  lemma ServedCursor(table: seq<Row>, scope: Scope, limit: nat, rawCursor: Option<string>, page: Page)
    requires Serves(table, scope, limit, rawCursor, page)
    ensures 1 <= limit <= 100
    ensures rawCursor.None? ==> page == PageOf(Query(table, scope, None, limit + 1), limit)
    ensures rawCursor.Some? ==>
      ParseCursor(rawCursor.value).Some? && page == PageOf(Query(table, scope, ParseCursor(rawCursor.value), limit + 1), limit)
  {
    ParsePrint(limit);
    hide ParseCursor, PageOf, Query, PrintNat;
  }

  /** A caller follows the cursors; `tables[i]` is the table at the time of page `i`. */
  ghost predicate Walk(tables: seq<seq<Row>>, scope: Scope, limit: nat, pages: seq<Page>) {
    && |pages| == |tables| >= 1
    && Serves(tables[0], scope, limit, None, pages[0])
    && forall i :: 0 < i < |pages| ==> NextPage(pages[i - 1], tables[i], scope, limit, pages[i])
  }

  /** The original table holds readable rows with distinct ids, and later tables have only gained newer rows. */
  ghost predicate Growing(tables: seq<seq<Row>>, scope: Scope) {
    && tables != [] && DistinctIds(tables[0]) && (forall r :: r in tables[0] ==> Readable(r))
    && forall i :: 0 <= i < |tables| ==> GrownByNewer(tables[0], tables[i], scope)
  }

  lemma WalkPrefix(tables: seq<seq<Row>>, scope: Scope, limit: nat, pages: seq<Page>, n: nat)
    requires Walk(tables, scope, limit, pages) && Growing(tables, scope) && 1 <= n <= |pages|
    ensures Walk(tables[..n], scope, limit, pages[..n]) && Growing(tables[..n], scope)
  {
    hide NextPage, GrownByNewer, Readable, DistinctIds, Query, PageOf;
    forall i | 0 < i < n ensures NextPage(pages[..n][i - 1], tables[..n][i], scope, limit, pages[..n][i]) {
      assert NextPage(pages[i - 1], tables[i], scope, limit, pages[i]);
    }
  }

  function Items(pages: seq<Page>): seq<Row> {
    if pages == [] then [] else Items(pages[..|pages| - 1]) + pages[|pages| - 1].items
  }

  function Min(a: int, b: int): int {
    if a < b then a else b
  }

  lemma PageOfRest(all: seq<Row>, p: nat, limit: nat)
    requires p <= |all| && limit >= 1
    ensures var page := PageOf(Take(all[p..], limit + 1), limit); var q := Min(p + limit, |all|);
      && page.items == all[p..q]
      && page.nextCursor == (if p + limit < |all| then Some(PrintCursor(all[q - 1])) else None)
  {
    var rest := all[p..];
    if |rest| > limit {
      assert Take(Take(rest, limit + 1), limit) == rest[..limit] == all[p..p + limit];
    } else {
      assert rest == all[p..|all|];
    }
  }

  /** A page asked for with the cursor of the `p`-th row of the listing shows the rows after it. */
  lemma NextPageContinues(base: seq<Row>, table: seq<Row>, scope: Scope, limit: nat, p: nat, previous: Page, page: Page)
    requires limit >= 1 && DistinctIds(base) && GrownByNewer(base, table, scope)
    requires 0 < p < |Listing(base, scope)| && Readable(Listing(base, scope)[p - 1])
    requires previous.nextCursor == Some(PrintCursor(Listing(base, scope)[p - 1]))
    requires NextPage(previous, table, scope, limit, page)
    ensures var all := Listing(base, scope); var q := Min(p + limit, |all|);
      && page.items == all[p..q]
      && page.nextCursor == (if p + limit < |all| then Some(PrintCursor(all[q - 1])) else None)
  {
    hide Listing, Visible, Newer, Sort, ParseCursor, PrintCursor, Readable, GrownByNewer, PageOf, Take, Select;
    var all := Listing(base, scope);
    CursorRoundTrip(all[p - 1]);
    ServedCursor(table, scope, limit, previous.nextCursor, page);
    QueryAfterRow(base, table, scope, p);
    PageOfRest(all, p, limit);
  }

  /** The rows shown so far are the beginning of the listing, and a next cursor, naming the last row shown, is
      given exactly while rows remain. */
  ghost predicate ShowsPrefix(all: seq<Row>, shown: seq<Row>, count: nat, nextCursor: Option<string>) {
    var q := Min(count, |all|);
    && shown == all[..q]
    && (if count < |all| then count > 0 && nextCursor == Some(PrintCursor(all[q - 1])) else nextCursor.None?)
  }

  lemma PrefixExtends(all: seq<Row>, shown: seq<Row>, p: nat, limit: nat, page: Page)
    requires limit >= 1 && p <= |all| && shown == all[..p]
    requires page.items == all[p..Min(p + limit, |all|)]
    requires page.nextCursor == if p + limit < |all| then Some(PrintCursor(all[Min(p + limit, |all|) - 1])) else None
    ensures ShowsPrefix(all, shown + page.items, p + limit, page.nextCursor)
  {
    hide PrintCursor;
    var q := Min(p + limit, |all|);
    assert all[..p] + all[p..q] == all[..q];
  }

  /** Rows asked for by a number of pages. */
  function Asked(pages: nat, limit: nat): nat {
    if pages == 0 then 0 else Asked(pages - 1, limit) + limit
  }

  ghost predicate WalkShows(tables: seq<seq<Row>>, scope: Scope, limit: nat, pages: seq<Page>) {
    && tables != [] && pages != []
    && ShowsPrefix(Listing(tables[0], scope), Items(pages), Asked(|pages|, limit), pages[|pages| - 1].nextCursor)
  }

  lemma WalkStarts(tables: seq<seq<Row>>, scope: Scope, limit: nat, pages: seq<Page>)
    requires limit >= 1 && |pages| == 1 && Walk(tables, scope, limit, pages)
    ensures WalkShows(tables, scope, limit, pages)
  {
    hide Listing, PageOf, Query, PrintCursor, Items, ShowsPrefix, NextPage;
    ServedCursor(tables[0], scope, limit, None, pages[0]);
    FirstPage(tables[0], scope, limit);
    PrefixExtends(Listing(tables[0], scope), [], 0, limit, pages[0]);
    ItemsOfOne(pages);
    assert Asked(1, limit) == limit;
  }

  lemma WalkStep(tables: seq<seq<Row>>, scope: Scope, limit: nat, pages: seq<Page>, n: nat)
    requires limit >= 1 && n >= 1 && |pages| == n + 1 && Walk(tables, scope, limit, pages) && Growing(tables, scope)
    requires WalkShows(tables[..n], scope, limit, pages[..n])
    ensures WalkShows(tables, scope, limit, pages)
  {
    hide Listing, PageOf, Query, PrintCursor, Items, ShowsPrefix, NextPage, Growing;
    assert pages[..n][n - 1] == pages[n - 1] && tables[..n][0] == tables[0];
    assert NextPage(pages[n - 1], tables[n], scope, limit, pages[n]);
    AskedPositive(n, limit);
    WalkContinues(tables, scope, limit, Items(pages[..n]), Asked(n, limit), n, pages[n - 1], pages[n]);
    ItemsOfMore(pages);
  }

  lemma AskedPositive(n: nat, limit: nat)
    requires n >= 1 && limit >= 1
    ensures Asked(n, limit) >= 1
  {
  }

  /** So it is after any number of pages. */
  lemma {:induction false} WalkShowsPrefix(tables: seq<seq<Row>>, scope: Scope, limit: nat, pages: seq<Page>)
    requires limit >= 1 && Walk(tables, scope, limit, pages) && Growing(tables, scope)
    ensures WalkShows(tables, scope, limit, pages)
    decreases |pages|
  {
    hide WalkShows, Growing;
    var n := |pages| - 1;
    if n == 0 {
      WalkStarts(tables, scope, limit, pages);
    } else {
      WalkPrefix(tables, scope, limit, pages, n);
      WalkShowsPrefix(tables[..n], scope, limit, pages[..n]);
      WalkStep(tables, scope, limit, pages, n);
    }
  }

  lemma WalkContinues(tables: seq<seq<Row>>, scope: Scope, limit: nat, shown: seq<Row>, p: nat, n: nat,
                      previous: Page, page: Page)
    requires limit >= 1 && p >= 1 && Growing(tables, scope) && n < |tables|
    requires ShowsPrefix(Listing(tables[0], scope), shown, p, previous.nextCursor)
    requires NextPage(previous, tables[n], scope, limit, page)
    ensures ShowsPrefix(Listing(tables[0], scope), shown + page.items, p + limit, page.nextCursor)
  {
    hide Listing, Readable, GrownByNewer, PageOf, Query, NextPage, PrintCursor, DistinctIds;
    var all := Listing(tables[0], scope);
    CursorMeansMore(previous, tables[n], scope, limit, page);
    ListedRowIsReadable(tables, scope, p - 1);
    NextPageContinues(tables[0], tables[n], scope, limit, p, previous, page);
    PrefixExtends(all, shown, p, limit, page);
  }

  lemma ItemsOfOne(pages: seq<Page>)
    requires |pages| == 1
    ensures Items(pages) == [] + pages[0].items
  {
    assert pages[..0] == [];
  }

  lemma ItemsOfMore(pages: seq<Page>)
    requires |pages| > 1
    ensures Items(pages) == Items(pages[..|pages| - 1]) + pages[|pages| - 1].items
  {
  }

  lemma CursorMeansMore(previous: Page, table: seq<Row>, scope: Scope, limit: nat, page: Page)
    requires NextPage(previous, table, scope, limit, page)
    ensures previous.nextCursor.Some?
  {
  }

  lemma FirstPage(table: seq<Row>, scope: Scope, limit: nat)
    requires limit >= 1
    ensures var all := Listing(table, scope); var page := PageOf(Query(table, scope, None, limit + 1), limit);
      && page.items == all[..Min(limit, |all|)]
      && page.nextCursor == (if limit < |all| then Some(PrintCursor(all[Min(limit, |all|) - 1])) else None)
  {
    hide Sort, Select, PrintCursor;
    var all := Listing(table, scope);
    assert all[0..] == all;
    PageOfRest(all, 0, limit);
  }

  lemma ListedRowIsReadable(tables: seq<seq<Row>>, scope: Scope, k: nat)
    requires Growing(tables, scope) && k < |Listing(tables[0], scope)|
    ensures Readable(Listing(tables[0], scope)[k])
  {
    hide Sort, Readable, GrownByNewer;
    ListingOrdered(tables[0], scope, None);
    assert Listing(tables[0], scope)[k] in Listing(tables[0], scope);
  }

  /** Following the cursor until there is none yields every visible row of the original table exactly once,
      newest first, whatever newer rows arrived meanwhile. */
  lemma CompleteWalkShowsEverything(tables: seq<seq<Row>>, scope: Scope, limit: nat, pages: seq<Page>)
    requires limit >= 1 && Walk(tables, scope, limit, pages) && Growing(tables, scope)
    requires pages[|pages| - 1].nextCursor.None?
    ensures Items(pages) == Listing(tables[0], scope) && Ordered(Newer, Items(pages))
    ensures forall r :: r in Items(pages) <==> r in tables[0] && Visible(scope, r)
  {
    hide Newer, Sort, ParseCursor, Readable, GrownByNewer, NextPage, Query, PageOf, PrintCursor;
    WalkShowsPrefix(tables, scope, limit, pages);
    ListingOrdered(tables[0], scope, None);
    assert Listing(tables[0], scope)[..|Listing(tables[0], scope)|] == Listing(tables[0], scope);
  }

  /** The walk ends: no page is asked for once the listing has been shown. */
  lemma WalkEnds(tables: seq<seq<Row>>, scope: Scope, limit: nat, pages: seq<Page>)
    requires limit >= 1 && Walk(tables, scope, limit, pages) && Growing(tables, scope)
    ensures |pages| == 1 || Asked(|pages| - 1, limit) < |Listing(tables[0], scope)|
  {
    hide Listing, Readable, GrownByNewer, PageOf, Query, NextPage, PrintCursor, DistinctIds, Growing;
    if |pages| > 1 {
      var n := |pages| - 1;
      WalkPrefix(tables, scope, limit, pages, n);
      WalkShowsPrefix(tables[..n], scope, limit, pages[..n]);
      assert pages[..n][n - 1] == pages[n - 1];
      assert NextPage(pages[n - 1], tables[n], scope, limit, pages[n]);
      CursorMeansMore(pages[n - 1], tables[n], scope, limit, pages[n]);
    }
  }
}
