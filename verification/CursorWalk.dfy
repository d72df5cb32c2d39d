/** Following next_cursor page after page, on data that may change in between
    (app/services/bookmark/service.py, app/repositories/bookmark/repository.py). */
module CursorWalk {
  import opened Common
  import opened Store
  import opened Ordering
  import opened Queries
  import opened Listing

  /** One snapshot of the tables per request: other requests may write anything in between. */
  type Snapshots = seq<Tables>

  ghost predicate AllKeyed(snaps: Snapshots) {
    forall k :: 0 <= k < |snaps| ==> WellKeyed(snaps[k])
  }

  /** The pages a client gets by following cursors from c until there is none, or the snapshots end. */
  function Walk(snaps: Snapshots, collation: string -> real, q: Query, c: int): seq<Page>
    decreases |snaps|
  {
    if snaps == [] then []
    else
      var p := CursorPage(snaps[0], snaps[0], collation, q, c);
      [p] + if p.nextCursor.None? then [] else Walk(snaps[1..], collation, q, p.nextCursor.value)
  }

  predicate Finished(pages: seq<Page>) {
    pages != [] && pages[|pages| - 1].nextCursor.None?
  }

  lemma FinishedTail(p: Page, rest: seq<Page>)
    requires p.nextCursor.Some?
    ensures Finished([p] + rest) <==> Finished(rest)
  {
    var pages := [p] + rest;
    assert pages[0] == p;
    assert rest != [] ==> pages[|pages| - 1] == rest[|rest| - 1];
  }

  function Items(pages: seq<Page>): seq<Bookmark> {
    if pages == [] then [] else pages[0].items + Items(pages[1..])
  }

  // ---- While others write ----

  /** Wanted bookmarks below the cursor, newest id first. */
  ghost predicate WantedBelow(s: seq<Bookmark>, t: Tables, q: Query, c: int) {
    && Descending(s)
    && (forall b :: b in s ==> b.id < c && b in t.bookmarks && Selected(b, t, q.user, q.filters))
  }

  /** The next cursor, if any, is the id of the last item. */
  ghost predicate CursorIsLast(p: Page, c: int) {
    p.nextCursor.Some? ==>
      && p.items != [] && p.nextCursor.value == p.items[|p.items| - 1].id < c
      && forall b :: b in p.items ==> b.id >= p.nextCursor.value
  }

  lemma BelowIsWanted(t: Tables, collation: string -> real, q: Query, c: int)
    requires WellKeyed(t)
    ensures WantedBelow(Below(t, collation, q, c), t, q, c)
  {
    BelowExact(t, collation, q, c);
  }

  lemma PageBelow(t: Tables, collation: string -> real, q: Query, c: int)
    requires WellKeyed(t)
    ensures WantedBelow(CursorPage(t, t, collation, q, c).items, t, q, c)
    ensures CursorIsLast(CursorPage(t, t, collation, q, c), c)
  {
    BelowIsWanted(t, collation, q, c);
    CursorPageMeans(t, t, collation, q, c);
    PageOfFacts(CursorPage(t, t, collation, q, c), Below(t, collation, q, c), PerPage(q.perPage), t, q, c);
  }

  /** A page's items are wanted ones, in order, down to the next cursor, the id of its last item. */
  lemma PageOfFacts(p: Page, r: seq<Bookmark>, n: nat, t: Tables, q: Query, c: int)
    requires PageOf(p, r, n) && WantedBelow(r, t, q, c)
    ensures WantedBelow(p.items, t, q, c) && CursorIsLast(p, c)
  {
    forall b | b in p.items ensures b in r && (p.nextCursor.Some? ==> b.id >= p.nextCursor.value) {
      var i :| 0 <= i < |p.items| && p.items[i] == b;
      assert r[i] == b;
    }
    if p.nextCursor.Some? { assert p.items[|p.items| - 1] in p.items; }
  }

  /** Every returned id lies below the start cursor, and ids strictly descend through the whole walk,
      so none is returned twice, whatever is written between pages. */
  lemma {:induction false} WalkDescends(snaps: Snapshots, collation: string -> real, q: Query, c: int)
    requires AllKeyed(snaps)
    ensures Descending(Items(Walk(snaps, collation, q, c)))
    ensures forall b :: b in Items(Walk(snaps, collation, q, c)) ==> b.id < c
    decreases |snaps|
  {
    if snaps != [] {
      var p := CursorPage(snaps[0], snaps[0], collation, q, c);
      PageBelow(snaps[0], collation, q, c);
      var pages := Walk(snaps, collation, q, c);
      if p.nextCursor.None? {
        assert pages == [p];
        assert Items(pages[1..]) == [];
        assert Items(pages) == p.items;
      } else {
        var next := p.nextCursor.value;
        WalkDescends(snaps[1..], collation, q, next);
        assert pages[1..] == Walk(snaps[1..], collation, q, next);
        DescendsOn(p.items, Items(pages[1..]), next, c);
      }
    }
  }

  lemma DescendsOn(first: seq<Bookmark>, later: seq<Bookmark>, next: int, c: int)
    requires Descending(first) && Descending(later) && next <= c
    requires forall b :: b in first ==> next <= b.id < c
    requires forall b :: b in later ==> b.id < next
    ensures Descending(first + later) && forall b :: b in first + later ==> b.id < c
  {
    var all := first + later;
    forall i, j | 0 <= i < j < |all| ensures all[i].id > all[j].id {
      if i < |first| <= j { assert first[i] in first && later[j - |first|] in later; }
    }
  }

  /** Cursors strictly decrease, so with positive ids the walk from c ends within c requests. */
  lemma {:induction false} WalkTerminates(snaps: Snapshots, collation: string -> real, q: Query, c: int)
    requires AllKeyed(snaps)
    requires forall k, b :: 0 <= k < |snaps| && b in snaps[k].bookmarks ==> b.id >= 1
    requires c >= 1 && |snaps| >= c
    ensures Finished(Walk(snaps, collation, q, c)) && |Walk(snaps, collation, q, c)| <= c
    decreases |snaps|
  {
    var p := CursorPage(snaps[0], snaps[0], collation, q, c);
    PageBelow(snaps[0], collation, q, c);
    var pages := Walk(snaps, collation, q, c);
    if p.nextCursor.None? {
      assert pages == [p];
    } else {
      assert p.items[|p.items| - 1] in p.items;
      WalkTerminates(snaps[1..], collation, q, p.nextCursor.value);
      FinishedTail(p, Walk(snaps[1..], collation, q, p.nextCursor.value));
    }
  }

  /** The bookmark with this id is there and wanted in every snapshot the walk visits. */
  ghost predicate StaysWanted(snaps: Snapshots, q: Query, id: int) {
    forall k :: 0 <= k < |snaps| ==> PresentAndWanted(snaps[k], q, id)
  }

  predicate PresentAndWanted(t: Tables, q: Query, id: int) {
    exists b :: b in t.bookmarks && b.id == id && Selected(b, t, q.user, q.filters)
  }

  predicate Returned(items: seq<Bookmark>, id: int) {
    exists i :: 0 <= i < |items| && items[i].id == id
  }

  predicate ReturnedOnce(items: seq<Bookmark>, id: int) {
    Returned(items, id)
    && forall i, j :: 0 <= i < |items| && 0 <= j < |items| && items[i].id == id && items[j].id == id ==> i == j
  }

  lemma OnThisPageOrLater(t: Tables, collation: string -> real, q: Query, c: int, id: int)
    requires WellKeyed(t) && PresentAndWanted(t, q, id) && id < c
    ensures
      var p := CursorPage(t, t, collation, q, c);
      Returned(p.items, id) || (p.nextCursor.Some? && id < p.nextCursor.value)
  {
    BelowExact(t, collation, q, c);
    CursorPageMeans(t, t, collation, q, c);
    var b :| b in t.bookmarks && b.id == id && Selected(b, t, q.user, q.filters);
    InPageOrBelow(CursorPage(t, t, collation, q, c), Below(t, collation, q, c), PerPage(q.perPage), b);
  }

  lemma InPageOrBelow(p: Page, r: seq<Bookmark>, n: nat, b: Bookmark)
    requires PageOf(p, r, n) && Descending(r) && b in r
    ensures Returned(p.items, b.id) || (p.nextCursor.Some? && b.id < p.nextCursor.value)
  {
    var i :| 0 <= i < |r| && r[i] == b;
    if i < |p.items| { assert p.items[i].id == b.id; }
  }

  lemma ReturnedConcat(a: seq<Bookmark>, b: seq<Bookmark>, id: int)
    ensures Returned(a + b, id) <==> Returned(a, id) || Returned(b, id)
  {
    if i :| 0 <= i < |a| && a[i].id == id { assert (a + b)[i].id == id; }
    if i :| 0 <= i < |b| && b[i].id == id { assert (a + b)[|a| + i].id == id; }
  }

  /** A finished walk returns every bookmark below its start that existed and matched throughout;
      with WalkDescends, exactly once. */
  lemma {:induction false} WalkMissesNothingStable(
    snaps: Snapshots, collation: string -> real, q: Query, c: int, id: int)
    requires AllKeyed(snaps) && Finished(Walk(snaps, collation, q, c))
    requires StaysWanted(snaps, q, id) && id < c
    ensures Returned(Items(Walk(snaps, collation, q, c)), id)
    decreases |snaps|
  {
    var pages := Walk(snaps, collation, q, c);
    var p := CursorPage(snaps[0], snaps[0], collation, q, c);
    assert PresentAndWanted(snaps[0], q, id);
    OnThisPageOrLater(snaps[0], collation, q, c, id);
    ReturnedConcat(p.items, Items(pages[1..]), id);
    if !Returned(p.items, id) {
      var rest := Walk(snaps[1..], collation, q, p.nextCursor.value);
      assert pages[1..] == rest && pages == [p] + rest;
      FinishedTail(p, rest);
      assert StaysWanted(snaps[1..], q, id) by {
        forall k | 0 <= k < |snaps[1..]| ensures PresentAndWanted(snaps[1..][k], q, id) {
          assert snaps[1..][k] == snaps[k + 1];
        }
      }
      WalkMissesNothingStable(snaps[1..], collation, q, p.nextCursor.value, id);
    }
  }

  /** The whole promise for a walk among concurrent writes. */
  lemma WalkExactlyOnce(snaps: Snapshots, collation: string -> real, q: Query, c: int, id: int)
    requires AllKeyed(snaps) && Finished(Walk(snaps, collation, q, c))
    requires StaysWanted(snaps, q, id) && id < c
    ensures
      var items := Items(Walk(snaps, collation, q, c));
      ReturnedOnce(items, id)
  {
    var items := Items(Walk(snaps, collation, q, c));
    WalkMissesNothingStable(snaps, collation, q, c, id);
    WalkDescends(snaps, collation, q, c);
    DescendingOnce(items, id);
  }

  lemma DescendingOnce(items: seq<Bookmark>, id: int)
    requires Descending(items) && Returned(items, id)
    ensures ReturnedOnce(items, id)
  {
  }

  // ---- On unchanging data ----

  function Still(t: Tables, n: nat): Snapshots {
    seq(n, i => t)
  }

  lemma BelowAfterPage(t: Tables, collation: string -> real, q: Query, c: int, p: Page, n: nat)
    requires WellKeyed(t) && PageOf(p, Below(t, collation, q, c), n) && p.nextCursor.Some?
    ensures Below(t, collation, q, c) == p.items + Below(t, collation, q, p.nextCursor.value)
  {
    BelowTail(t, collation, q, c, n);
    PageAndRest(p, Below(t, collation, q, c), n);
  }

  lemma PageAndRest(p: Page, r: seq<Bookmark>, n: nat)
    requires PageOf(p, r, n) && p.nextCursor.Some?
    ensures n < |r| && r == p.items + r[n..]
  {
  }

  lemma BelowTail(t: Tables, collation: string -> real, q: Query, c: int, n: nat)
    requires WellKeyed(t) && 1 <= n < |Below(t, collation, q, c)|
    ensures Below(t, collation, q, c)[n..] == Below(t, collation, q, Below(t, collation, q, c)[n - 1].id)
  {
    var r := Below(t, collation, q, c);
    var next := r[n - 1].id;
    BelowExact(t, collation, q, c);
    assert next < c by { assert r[n - 1] in r; }
    BelowExact(t, collation, q, next);
    TailBelow(r, n, Below(t, collation, q, next), next);
  }

  /** In a descending list, what follows position n - 1 is what lies below that element's id. */
  lemma TailBelow(r: seq<Bookmark>, n: nat, rest: seq<Bookmark>, next: int)
    requires Descending(r) && Descending(rest) && 1 <= n < |r| && next == r[n - 1].id
    requires forall b :: b in rest <==> b in r && b.id < next
    ensures r[n..] == rest
  {
    forall b ensures b in r[n..] <==> b in rest {
      if b in r[n..] {
        var i :| 0 <= i < |r[n..]| && r[n..][i] == b;
        assert r[n + i] == b;
      }
      if b in rest {
        var i :| 0 <= i < |r| && r[i] == b;
        assert r[n..][i - n] == b;
      }
    }
    SameDescending(r[n..], rest);
  }

  lemma SameDescending(s: seq<Bookmark>, r: seq<Bookmark>)
    requires Descending(s) && Descending(r) && forall b :: b in s <==> b in r
    ensures s == r
  {
    var less := (a: Bookmark, b: Bookmark) => a.id > b.id;
    SameElementsSameBag(s, r);
    forall x, y | x in Elements(s) && y in Elements(s) && x != y ensures less(x, y) || less(y, x) {
      var i :| 0 <= i < |s| && s[i] == x;
      var j :| 0 <= j < |s| && s[j] == y;
    }
    OrderedUnique(less, s, r);
  }

  /** Pages each cut from what is wanted below the previous one's cursor, up to one without a cursor. */
  ghost predicate FollowsOn(pages: seq<Page>, t: Tables, collation: string -> real, q: Query, c: int) {
    pages != []
    && PageOf(pages[0], Below(t, collation, q, c), PerPage(q.perPage))
    && if pages[0].nextCursor.None? then |pages| == 1
       else FollowsOn(pages[1..], t, collation, q, pages[0].nextCursor.value)
  }

  lemma {:induction false} FinishedFollowsOn(t: Tables, collation: string -> real, q: Query, c: int, k: nat)
    requires WellKeyed(t) && Finished(Walk(Still(t, k), collation, q, c))
    ensures FollowsOn(Walk(Still(t, k), collation, q, c), t, collation, q, c)
    decreases k
  {
    var p := CursorPage(t, t, collation, q, c);
    CursorPageMeans(t, t, collation, q, c);
    if p.nextCursor.Some? {
      var rest := Walk(Still(t, k - 1), collation, q, p.nextCursor.value);
      StillStep(t, collation, q, c, k);
      FinishedTail(p, rest);
      FinishedFollowsOn(t, collation, q, p.nextCursor.value, k - 1);
      DropFirst(p, rest);
    }
  }

  lemma StillStep(t: Tables, collation: string -> real, q: Query, c: int, k: nat)
    requires k > 0 && CursorPage(t, t, collation, q, c).nextCursor.Some?
    ensures
      var p := CursorPage(t, t, collation, q, c);
      Walk(Still(t, k), collation, q, c) == [p] + Walk(Still(t, k - 1), collation, q, p.nextCursor.value)
  {
    assert Still(t, k)[0] == t && Still(t, k)[1..] == Still(t, k - 1);
  }

  lemma {:induction false} FollowingListsAll(
    pages: seq<Page>, t: Tables, collation: string -> real, q: Query, c: int, n: nat)
    requires WellKeyed(t) && FollowsOn(pages, t, collation, q, c) && n == PerPage(q.perPage)
    ensures Items(pages) == Below(t, collation, q, c)
    ensures FullUpToLast(pages, n) && |pages| == PagesFor(|Below(t, collation, q, c)|, n)
  {
    var p, rest, r := pages[0], pages[1..], Below(t, collation, q, c);
    if p.nextCursor.None? {
      LastPage(pages, r, n);
    } else {
      var next := p.nextCursor.value;
      FollowingListsAll(rest, t, collation, q, next, n);
      BelowAfterPage(t, collation, q, c, p, n);
      OneMoreFullPage(pages, r, Below(t, collation, q, next), n);
    }
  }

  /** Every page but the last is full and names a next cursor. */
  ghost predicate FullUpToLast(pages: seq<Page>, n: nat) {
    forall i :: 0 <= i < |pages| - 1 ==> |pages[i].items| == n && pages[i].nextCursor.Some?
  }

  /** Pages in a walk over so many bookmarks: an empty walk still has its one page. */
  function PagesFor(size: nat, n: nat): nat
    requires n >= 1
  {
    if size == 0 then 1 else TotalPages(size, n)
  }

  lemma LastPage(pages: seq<Page>, r: seq<Bookmark>, n: nat)
    requires n >= 1 && |pages| == 1 && PageOf(pages[0], r, n) && pages[0].nextCursor.None?
    ensures Items(pages) == r && FullUpToLast(pages, n) && |pages| == PagesFor(|r|, n)
  {
    assert Items(pages[1..]) == [];
    if |r| > 0 { OnePage(|r|, n); }
  }

  lemma OneMoreFullPage(pages: seq<Page>, r: seq<Bookmark>, below: seq<Bookmark>, n: nat)
    requires n >= 1 && |pages| > 1 && PageOf(pages[0], r, n) && pages[0].nextCursor.Some?
    requires r == pages[0].items + below && Items(pages[1..]) == below
    requires FullUpToLast(pages[1..], n) && |pages[1..]| == PagesFor(|below|, n)
    ensures Items(pages) == r && FullUpToLast(pages, n) && |pages| == PagesFor(|r|, n)
  {
    OneMorePage(|r|, n);
    forall i | 0 <= i < |pages| - 1 ensures |pages[i].items| == n && pages[i].nextCursor.Some? {
      if i > 0 { assert pages[i] == pages[1..][i - 1]; }
    }
  }

  /** On unchanging data a finished walk concatenates to exactly the wanted bookmarks below c, newest
      id first. Every page but the last is full and only the last lacks a next cursor; there are
      ceil(size / per_page) pages, so an exact multiple ends with a full page, not an empty one. */
  lemma StillWalk(t: Tables, collation: string -> real, q: Query, c: int, k: nat)
    requires WellKeyed(t) && Finished(Walk(Still(t, k), collation, q, c))
    ensures
      var pages, below, n := Walk(Still(t, k), collation, q, c), Below(t, collation, q, c), PerPage(q.perPage);
      && Items(pages) == below
      && FullUpToLast(pages, n)
      && |pages| == PagesFor(|below|, n)
  {
    FinishedFollowsOn(t, collation, q, c, k);
    FollowingListsAll(Walk(Still(t, k), collation, q, c), t, collation, q, c, PerPage(q.perPage));
  }

  lemma BelowAll(t: Tables, collation: string -> real, q: Query, c: int)
    requires forall b :: b in t.bookmarks ==> b.id < c
    ensures Below(t, collation, q, c) == ListingOf(t, q.user, q.filters, collation, NEWEST_ID_FIRST, None)
  {
    NoCutOff(t.bookmarks, t, q, c);
  }

  lemma {:induction false} NoCutOff(bs: seq<Bookmark>, t: Tables, q: Query, c: int)
    requires forall b :: b in bs ==> b.id < c
    ensures Filter(bs, t, q.user, q.filters, Some(c)) == Filter(bs, t, q.user, q.filters, None)
  {
    if bs != [] {
      assert bs[0] in bs;
      NoCutOff(bs[1..], t, q, c);
    }
  }

  /** From a cursor above every id, the walk lists what the offset pages list under sort "-id". */
  lemma StillWalkIsOffsetPages(t: Tables, collation: string -> real, q: Query, c: int, k: nat)
    requires WellKeyed(t) && Finished(Walk(Still(t, k), collation, q, c))
    requires q.sort == "-id" && forall b :: b in t.bookmarks ==> b.id < c
    ensures
      Items(Walk(Still(t, k), collation, q, c)) == Pages(t, collation, q, OffsetPage(t, t, collation, q, 1).totalPages)
  {
    StillWalk(t, collation, q, c, k);
    PagesCoverListing(t, collation, q);
    WholeIsBelow(t, collation, q, c);
  }

  lemma WholeIsBelow(t: Tables, collation: string -> real, q: Query, c: int)
    requires q.sort == "-id" && forall b :: b in t.bookmarks ==> b.id < c
    ensures Whole(t, collation, q) == Below(t, collation, q, c)
  {
    NewestFirst();
    BelowAll(t, collation, q, c);
  }

  lemma NewestFirst()
    ensures ParseSort("-id") == NEWEST_ID_FIRST
  {
    assert DropDashes("-id") == "id" by { assert "-id"[1..] == "id"; }
  }

  lemma OnePage(size: nat, n: nat)
    requires 0 < size <= n
    ensures TotalPages(size, n) == 1
  {
    CeilUnique(size, n, 1);
  }

  lemma OneMorePage(size: nat, n: nat)
    requires 1 <= n < size
    ensures TotalPages(size, n) == 1 + TotalPages(size - n, n)
  {
    var b := TotalPages(size - n, n);
    assert (b + 1) * n == b * n + n;
    assert b > 0 ==> (b - 1) * n < size - n;
    assert b > 0 ==> b * n == (b - 1) * n + n;
    CeilUnique(size, n, b + 1);
  }

  /** The ceiling is the only page count that fits. */
  lemma CeilUnique(size: nat, n: nat, k: nat)
    requires n >= 1 && size > 0 && k > 0 && (k - 1) * n < size <= k * n
    ensures TotalPages(size, n) == k
  {
    var m := TotalPages(size, n);
    if m < k {
      MulOrder(m, k - 1, n);
    } else if m > k {
      MulOrder(k, m - 1, n);
    }
  }

  lemma MulOrder(a: int, b: int, n: nat)
    requires a <= b
    ensures a * n <= b * n
  {
  }
}
