/** `BookmarkService.list`: offset pages and cursor pages (app/services/bookmark/service.py). */
module Listing {
  import opened Common
  import opened Store
  import opened Queries

  const MAX_PER_PAGE := 100

  datatype Page = Page(
    items: seq<Bookmark>, page: int, perPage: nat, total: nat, totalPages: nat,
    hasNext: bool, hasPrev: bool, nextCursor: Option<int>)

  /** `max(1, min(per_page, MAX_PER_PAGE))`. */
  function PerPage(requested: int): (n: nat)
    ensures 1 <= n <= 100
    ensures 1 <= requested <= 100 ==> n == requested
    ensures requested < 1 ==> n == 1
    ensures requested > 100 ==> n == 100
  {
    if requested < 1 then 1 else if requested > MAX_PER_PAGE then MAX_PER_PAGE else requested
  }

  /** `math.ceil(total / per_page) if total else 0`. */
  function TotalPages(total: nat, perPage: nat): (n: nat)
    requires perPage >= 1
    ensures n * perPage >= total && (n > 0 ==> (n - 1) * perPage < total)
  {
    if total == 0 then 0 else (total + perPage - 1) / perPage
  }

  /** What one list request asks. */
  datatype Query = Query(user: int, filters: Filters, perPage: int, sort: string)

  /** `(page - 1) * per_page`. */
  function Offset(page: int, perPage: nat): nat
    requires page >= 1
  {
    (page - 1) * perPage
  }

  lemma NextOffset(page: int, perPage: nat)
    requires page >= 1
    ensures Offset(page + 1, perPage) == Offset(page, perPage) + perPage
  {
  }

  /** A page by number. The counting query and the listing query may see different tables. */
  function OffsetPage(counted: Tables, listed: Tables, collation: string -> real, q: Query, page: int): Page
    requires page >= 1
  {
    var n := PerPage(q.perPage);
    var total := Count(counted, q.user, q.filters);
    var pages := TotalPages(total, n);
    var items := ListOffset(listed, q.user, q.filters, collation, q.sort, n, Offset(page, n));
    Page(items, page, n, total, pages, page < pages, page > 1, None)
  }

  /** A page by cursor: one extra row is fetched to learn whether another page exists. */
  function CursorPage(counted: Tables, listed: Tables, collation: string -> real, q: Query, cursor: int): Page {
    var n := PerPage(q.perPage);
    var total := Count(counted, q.user, q.filters);
    FirstOf(ListKeyset(listed, q.user, q.filters, collation, cursor, n + 1), total, n)
  }

  /** The page made of the rows fetched for it. */
  function FirstOf(rows: seq<Bookmark>, total: nat, n: nat): Page
    requires n >= 1
  {
    var hasMore := |rows| > n;
    var items := Cut(rows, n);
    var next := if hasMore && items != [] then Some(items[|items| - 1].id) else None;
    Page(items, 1, n, total, TotalPages(total, n), hasMore, false, next)
  }

  /** `rows[:n]`. */
  function Cut(s: seq<Bookmark>, n: nat): seq<Bookmark> {
    s[..if n < |s| then n else |s|]
  }

  // ---- Offset pages on unchanging data ----

  function Concat(pages: seq<seq<Bookmark>>): seq<Bookmark> {
    if pages == [] then [] else Concat(pages[..|pages| - 1]) + pages[|pages| - 1]
  }

  function PageItems(t: Tables, collation: string -> real, q: Query, k: nat): seq<seq<Bookmark>> {
    seq(k, i requires 0 <= i < k => OffsetPage(t, t, collation, q, i + 1).items)
  }

  /** The items of pages 1 to k, in order. */
  function Pages(t: Tables, collation: string -> real, q: Query, k: nat): seq<Bookmark> {
    Concat(PageItems(t, collation, q, k))
  }

  lemma WindowExtendsCut(s: seq<Bookmark>, offset: nat, limit: nat)
    ensures Cut(s, offset) + Window(s, offset, limit) == Cut(s, offset + limit)
  {
  }

  /** The specified listing a query's offset pages are cut from. */
  function Whole(t: Tables, collation: string -> real, q: Query): seq<Bookmark> {
    ListingOf(t, q.user, q.filters, collation, ParseSort(q.sort), None)
  }

  lemma OffsetItems(t: Tables, collation: string -> real, q: Query, page: int, n: nat)
    requires WellKeyed(t) && page >= 1 && n == PerPage(q.perPage)
    ensures OffsetPage(t, t, collation, q, page).items == Window(Whole(t, collation, q), Offset(page, n), n)
  {
    ListOffsetMeans(t, q.user, q.filters, collation, q.sort, n, Offset(page, n));
  }

  lemma OffsetTotal(t: Tables, collation: string -> real, q: Query, page: int)
    requires WellKeyed(t) && page >= 1
    ensures OffsetPage(t, t, collation, q, page).total == |Whole(t, collation, q)|
  {
    CountMeans(t, q.user, q.filters, collation, ParseSort(q.sort));
  }

  lemma {:induction false} WindowsMakeCut(all: seq<Bookmark>, pages: seq<seq<Bookmark>>, n: nat)
    requires forall i :: 0 <= i < |pages| ==> pages[i] == Window(all, Offset(i + 1, n), n)
    ensures Concat(pages) == Cut(all, Offset(|pages| + 1, n))
  {
    if pages != [] {
      var k := |pages|;
      WindowsMakeCut(all, pages[..k - 1], n);
      NextOffset(k, n);
      WindowExtendsCut(all, Offset(k, n), n);
    }
  }

  lemma PageItemsAreWindows(t: Tables, collation: string -> real, q: Query, k: nat, n: nat)
    requires WellKeyed(t) && n == PerPage(q.perPage)
    ensures
      var pages, all := PageItems(t, collation, q, k), Whole(t, collation, q);
      |pages| == k && forall i :: 0 <= i < k ==> pages[i] == Window(all, Offset(i + 1, n), n)
  {
    forall i | 0 <= i < k
      ensures PageItems(t, collation, q, k)[i] == Window(Whole(t, collation, q), Offset(i + 1, n), n)
    {
      PageItemIsWindow(t, collation, q, k, n, i);
    }
  }

  lemma PageItemIsWindow(t: Tables, collation: string -> real, q: Query, k: nat, n: nat, i: nat)
    requires WellKeyed(t) && n == PerPage(q.perPage) && i < k
    ensures PageItems(t, collation, q, k)[i] == Window(Whole(t, collation, q), Offset(i + 1, n), n)
  {
    OffsetItems(t, collation, q, i + 1, n);
  }

  lemma PagesArePrefix(t: Tables, collation: string -> real, q: Query, k: nat, n: nat)
    requires WellKeyed(t) && n == PerPage(q.perPage)
    ensures Pages(t, collation, q, k) == Cut(Whole(t, collation, q), Offset(k + 1, n))
  {
    PageItemsAreWindows(t, collation, q, k, n);
    WindowsMakeCut(Whole(t, collation, q), PageItems(t, collation, q, k), n);
  }

  /** Pages 1 to total_pages concatenate to exactly the specified listing, with no gap and no overlap. */
  lemma PagesCoverListing(t: Tables, collation: string -> real, q: Query)
    requires WellKeyed(t)
    ensures
      var p := OffsetPage(t, t, collation, q, 1);
      && p.total == |Whole(t, collation, q)|
      && Pages(t, collation, q, p.totalPages) == Whole(t, collation, q)
  {
    var all, n := Whole(t, collation, q), PerPage(q.perPage);
    OffsetTotal(t, collation, q, 1);
    var pages := TotalPages(|all|, n);
    PagesArePrefix(t, collation, q, pages, n);
    assert all[..|all|] == all;
  }

  lemma PageNonEmpty(t: Tables, collation: string -> real, q: Query, page: int, n: nat)
    requires WellKeyed(t) && page >= 1 && n == PerPage(q.perPage)
    ensures OffsetPage(t, t, collation, q, page).items != [] <==> Offset(page, n) < |Whole(t, collation, q)|
  {
    OffsetItems(t, collation, q, page, n);
    WindowNonEmpty(Whole(t, collation, q), Offset(page, n), n);
  }

  lemma WindowNonEmpty(s: seq<Bookmark>, offset: nat, limit: nat)
    requires limit >= 1
    ensures Window(s, offset, limit) != [] <==> offset < |s|
  {
  }

  ghost predicate LaterPageHasItems(t: Tables, collation: string -> real, q: Query, page: int)
    requires page >= 1
  {
    exists later: nat :: later > page && OffsetPage(t, t, collation, q, later).items != []
  }

  /** has_next is true exactly when the next page, and so some later page, has an item; has_prev
      exactly when there is an earlier page. */
  lemma HasNextMeans(t: Tables, collation: string -> real, q: Query, page: int)
    requires WellKeyed(t) && page >= 1
    ensures
      var p := OffsetPage(t, t, collation, q, page);
      && (p.hasNext <==> OffsetPage(t, t, collation, q, page + 1).items != [])
      && (p.hasNext <==> LaterPageHasItems(t, collation, q, page))
      && (p.hasPrev <==> page != 1)
  {
    var size, n := |Whole(t, collation, q)|, PerPage(q.perPage);
    OffsetTotal(t, collation, q, page);
    PageNonEmpty(t, collation, q, page + 1, n);
    PagesBeyond(size, n, page);
    forall later: nat | later > page
      ensures OffsetPage(t, t, collation, q, later).items != [] ==> Offset(page + 1, n) < size
    {
      PageNonEmpty(t, collation, q, later, n);
      OffsetGrows(page + 1, later, n);
    }
  }

  lemma OffsetGrows(page: int, later: int, n: nat)
    requires 1 <= page <= later
    ensures Offset(page, n) <= Offset(later, n)
  {
    assert (later - page) * n >= 0;
    assert (later - 1) * n == (page - 1) * n + (later - page) * n;
  }

  lemma PagesBeyond(total: nat, n: nat, page: int)
    requires n >= 1 && page >= 1
    ensures page < TotalPages(total, n) <==> Offset(page + 1, n) < total
  {
    var pages := TotalPages(total, n);
    if page < pages {
      OffsetGrows(page + 1, pages, n);
    } else if pages >= 1 {
      OffsetGrows(pages + 1, page + 1, n);
    }
  }

  /** The other fields of a page by number: as asked, and the totals of the whole listing. */
  lemma OffsetPageFields(t: Tables, collation: string -> real, q: Query, page: int)
    requires WellKeyed(t) && page >= 1
    ensures
      var p := OffsetPage(t, t, collation, q, page);
      && p.page == page && p.perPage == PerPage(q.perPage) && p.nextCursor.None?
      && p.total == |Whole(t, collation, q)|
      && FewestPages(p.totalPages, p.perPage, p.total)
  {
    OffsetTotal(t, collation, q, page);
  }

  /** So many pages hold the total, and one fewer would not. */
  predicate FewestPages(pages: nat, perPage: nat, total: nat) {
    pages * perPage >= total && (pages > 0 ==> (pages - 1) * perPage < total)
  }

  // ---- The order asked for ----

  /** Ahead by the column in that direction, or equal there and the larger id. */
  predicate Ahead(descending: bool, x: real, y: real, a: Bookmark, b: Bookmark) {
    (if descending then x > y else x < y) || (x == y && a.id > b.id)
  }

  /** Every sort string is some dashes and a name that does not start with one. */
  lemma {:induction false} DashesAndName(sort: string) returns (dashes: string, name: string)
    ensures sort == dashes + name && (forall c :: c in dashes ==> c == '-') && (name == "" || name[0] != '-')
  {
    if sort != "" && sort[0] == '-' {
      dashes, name := DashesAndName(sort[1..]);
      Associative(['-'], dashes, name);
      assert sort == ['-'] + sort[1..];
      dashes := ['-'] + dashes;
    } else {
      dashes, name := "", sort;
    }
  }

  lemma {:induction false} DashesDrop(dashes: string, name: string)
    requires (forall c :: c in dashes ==> c == '-') && (name == "" || name[0] != '-')
    ensures DropDashes(dashes + name) == name
  {
    if dashes == "" {
      assert dashes + name == name;
    } else {
      assert dashes[0] in dashes && forall c :: c in dashes[1..] ==> c in dashes;
      assert (dashes + name)[0] == dashes[0] && (dashes + name)[1..] == dashes[1..] + name;
      DashesDrop(dashes[1..], name);
    }
  }

  lemma WholeInOrder(t: Tables, collation: string -> real, q: Query, page: int, i: nat, j: nat)
    requires WellKeyed(t) && page >= 1 && i < j < |OffsetPage(t, t, collation, q, page).items|
    ensures
      var items := OffsetPage(t, t, collation, q, page).items;
      Precedes(ParseSort(q.sort), collation, items[i], items[j])
  {
    var n := PerPage(q.perPage);
    OffsetItems(t, collation, q, page, n);
    ListingExact(t, q.user, q.filters, collation, ParseSort(q.sort), None);
    WindowAt(Whole(t, collation, q), Offset(page, n), n, i);
    WindowAt(Whole(t, collation, q), Offset(page, n), n, j);
  }

  lemma WindowAt(s: seq<Bookmark>, offset: nat, limit: nat, i: nat)
    requires i < |Window(s, offset, limit)|
    ensures offset + i < |s| && Window(s, offset, limit)[i] == s[offset + i]
  {
  }

  /** The order of a named column; any other name means the creation time. */
  predicate InNamedOrder(name: string, down: bool, collation: string -> real, a: Bookmark, b: Bookmark) {
    && (name == "created_at" ==> Ahead(down, a.createdAt as real, b.createdAt as real, a, b))
    && (name == "updated_at" ==> Ahead(down, a.updatedAt as real, b.updatedAt as real, a, b))
    && (name == "title" ==> Ahead(down, collation(a.title), collation(b.title), a, b))
    && (name == "id" ==> if down then a.id > b.id else a.id < b.id)
    && (name !in {"created_at", "updated_at", "title", "id"} ==>
          Ahead(down, a.createdAt as real, b.createdAt as real, a, b))
  }

  lemma SortString(sort: string, dashes: string, name: string)
    requires sort == dashes + name
    requires (forall c :: c in dashes ==> c == '-') && (name == "" || name[0] != '-')
    ensures ParseSort(sort) == Order(FieldNamed(name), dashes != "")
  {
    DashesDrop(dashes, name);
    if dashes != "" { assert sort[0] == dashes[0] && dashes[0] in dashes; }
  }

  lemma NamedOrder(name: string, down: bool, collation: string -> real, a: Bookmark, b: Bookmark)
    requires Precedes(Order(FieldNamed(name), down), collation, a, b) && a.id != b.id
    ensures InNamedOrder(name, down, collation, a, b)
  {
  }

  /** For every sort string: the items stand in the strict order of the named column, downwards if the
      string starts with a dash, ties by the larger id. */
  lemma OffsetPageSorted(
    t: Tables, collation: string -> real, q: Query, page: int, dashes: string, name: string, i: nat, j: nat)
    requires WellKeyed(t) && page >= 1 && i < j < |OffsetPage(t, t, collation, q, page).items|
    requires q.sort == dashes + name
    requires (forall c :: c in dashes ==> c == '-') && (name == "" || name[0] != '-')
    ensures
      var items := OffsetPage(t, t, collation, q, page).items;
      InNamedOrder(name, dashes != "", collation, items[i], items[j])
  {
    var items := OffsetPage(t, t, collation, q, page).items;
    SortString(q.sort, dashes, name);
    WholeInOrder(t, collation, q, page, i, j);
    ItemsDiffer(t, collation, q, page, i, j);
    NamedOrder(name, dashes != "", collation, items[i], items[j]);
  }

  lemma ItemsDiffer(t: Tables, collation: string -> real, q: Query, page: int, i: nat, j: nat)
    requires WellKeyed(t) && page >= 1 && i < j < |OffsetPage(t, t, collation, q, page).items|
    ensures
      var items := OffsetPage(t, t, collation, q, page).items;
      items[i].id != items[j].id
  {
    var n := PerPage(q.perPage);
    OffsetItems(t, collation, q, page, n);
    ListingExact(t, q.user, q.filters, collation, ParseSort(q.sort), None);
    WindowAt(Whole(t, collation, q), Offset(page, n), n, i);
    WindowAt(Whole(t, collation, q), Offset(page, n), n, j);
  }

  // ---- One cursor page ----

  /** The wanted bookmarks below the cursor, newest id first. */
  function Below(t: Tables, collation: string -> real, q: Query, cursor: int): seq<Bookmark> {
    ListingOf(t, q.user, q.filters, collation, NEWEST_ID_FIRST, Some(cursor))
  }

  ghost predicate Descending(s: seq<Bookmark>) {
    forall i, j :: 0 <= i < j < |s| ==> s[i].id > s[j].id
  }

  lemma BelowExact(t: Tables, collation: string -> real, q: Query, cursor: int)
    requires WellKeyed(t)
    ensures
      var r := Below(t, collation, q, cursor);
      && (forall b :: b in r <==> b in t.bookmarks && Selected(b, t, q.user, q.filters) && b.id < cursor)
      && Descending(r)
  {
    ListingExact(t, q.user, q.filters, collation, NEWEST_ID_FIRST, Some(cursor));
  }

  /** The other fields of a cursor page; its total counts all that is selected, cursor or not. */
  lemma CursorPageFields(counted: Tables, t: Tables, collation: string -> real, q: Query, cursor: int)
    requires WellKeyed(counted)
    ensures
      var p := CursorPage(counted, t, collation, q, cursor);
      && p.page == 1 && p.perPage == PerPage(q.perPage) && !p.hasPrev
      && p.total == |Whole(counted, collation, q)|
      && FewestPages(p.totalPages, p.perPage, p.total)
  {
    CountMeans(counted, q.user, q.filters, collation, ParseSort(q.sort));
  }

  /** The page cut from the wanted bookmarks r below its cursor: the first n of them, and a next
      cursor, the id of the last item, exactly when more remain, in which case the page is full. */
  ghost predicate PageOf(p: Page, r: seq<Bookmark>, n: nat) {
    && p.items == Cut(r, n)
    && (p.hasNext <==> n < |r|)
    && (p.nextCursor.Some? <==> p.hasNext)
    && (p.nextCursor.Some? ==> 0 < n && p.nextCursor.value == r[n - 1].id)
  }

  lemma CursorPageMeans(counted: Tables, t: Tables, collation: string -> real, q: Query, cursor: int)
    requires WellKeyed(t)
    ensures PageOf(CursorPage(counted, t, collation, q, cursor), Below(t, collation, q, cursor), PerPage(q.perPage))
  {
    FetchedRows(t, collation, q, cursor, PerPage(q.perPage) + 1);
    OneExtraSuffices(
      CursorPage(counted, t, collation, q, cursor), Below(t, collation, q, cursor),
      Count(counted, q.user, q.filters), PerPage(q.perPage));
  }

  lemma FetchedRows(t: Tables, collation: string -> real, q: Query, cursor: int, limit: nat)
    requires WellKeyed(t)
    ensures
      ListKeyset(t, q.user, q.filters, collation, cursor, limit) == Window(Below(t, collation, q, cursor), 0, limit)
  {
    ListKeysetMeans(t, q.user, q.filters, collation, cursor, limit);
  }

  /** Fetching one row more than the page holds tells whether anything remains. */
  lemma OneExtraSuffices(p: Page, r: seq<Bookmark>, total: nat, n: nat)
    requires n >= 1 && p == FirstOf(Window(r, 0, n + 1), total, n)
    ensures PageOf(p, r, n)
  {
    var rows := Window(r, 0, n + 1);
    assert r[0..] == r;
    assert Cut(rows, n) == Cut(r, n);
  }
}
