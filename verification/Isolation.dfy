/** Reads are isolated by owner: what other users hold makes no difference (app/repositories). */
module Isolation {
  import opened Common
  import opened Text
  import opened Store
  import opened Ordering
  import opened Queries
  import opened Listing
  import opened Stats

  /** The two databases agree on the user's bookmarks, their links, and the names of the linked tags. */
  ghost predicate AgreeOn(db: Database, db': Database, user: int) {
    && (forall id :: Owned(db, user, id) == Owned(db', user, id))
    && (forall id :: Owned(db, user, id).Some? ==> LinksOf(db, id) == LinksOf(db', id))
    && (forall id, g :: Owned(db, user, id).Some? && g in LinksOf(db, id) ==>
          g in db.tags && g in db'.tags && db.tags[g] == db'.tags[g])
  }

  lemma AgreeSymmetric(db: Database, db': Database, user: int)
    requires AgreeOn(db, db', user)
    ensures AgreeOn(db', db, user)
  {
  }

  /** A valid database, and some scan of it. */
  ghost predicate Seen(t: Tables, db: Database) {
    Valid(db) && Scans(t, db)
  }

  lemma OwnedScanned(t: Tables, db: Database, user: int, b: Bookmark)
    requires Seen(t, db) && b.owner == user
    ensures b in t.bookmarks <==> Owned(db, user, b.id) == Some(b)
  {
  }

  /** The tags of an owned bookmark as the scan shows them: the same in both databases. */
  lemma LinkedAlike(t: Tables, db: Database, t': Tables, db': Database, user: int, b: Bookmark, g: Tag)
    requires Seen(t, db) && Seen(t', db') && AgreeOn(db, db', user)
    requires b.owner == user && b in t.bookmarks
    ensures Link(b.id, g.id) in t.links && g in t.tags <==> Link(b.id, g.id) in t'.links && g in t'.tags
  {
    OwnedScanned(t, db, user, b);
    assert Owned(db, user, b.id).Some?;
    assert g.id in LinksOf(db, b.id) <==> Link(b.id, g.id) in db.links;
    assert g.id in LinksOf(db', b.id) <==> Link(b.id, g.id) in db'.links;
  }

  lemma CarriesAlike(t: Tables, db: Database, t': Tables, db': Database, user: int, b: Bookmark, name: string)
    requires Seen(t, db) && Seen(t', db') && AgreeOn(db, db', user)
    requires b.owner == user && b in t.bookmarks && Carries(b, t, name)
    ensures Carries(b, t', name)
  {
    var l, g :| l in t.links && g in t.tags && l.bookmark == b.id && l.tag == g.id && g.name == name;
    LinkedAlike(t, db, t', db', user, b, g);
    assert l == Link(b.id, g.id);
  }

  lemma WantedAlike(
    t: Tables, db: Database, t': Tables, db': Database, user: int, f: Filters, below: Option<int>, b: Bookmark)
    requires Seen(t, db) && Seen(t', db') && AgreeOn(db, db', user)
    requires b in t.bookmarks && Wanted(b, t, user, f, below)
    ensures b in t'.bookmarks && Wanted(b, t', user, f, below)
  {
    OwnedScanned(t, db, user, b);
    OwnedScanned(t', db', user, b);
    if Given(f.tag) { CarriesAlike(t, db, t', db', user, b, Clean(f.tag.value)); }
  }

  /** One user's listings, by page or by cursor, in any order and under any filter, are a function of
      that user's own data. */
  lemma ListingsIsolated(
    t: Tables, db: Database, t': Tables, db': Database, user: int, f: Filters, collation: string -> real, o: Order,
    below: Option<int>)
    requires Seen(t, db) && Seen(t', db') && AgreeOn(db, db', user)
    ensures ListingOf(t, user, f, collation, o, below) == ListingOf(t', user, f, collation, o, below)
  {
    ScansAreKeyed(t, db);
    ScansAreKeyed(t', db');
    forall b
      ensures
        b in t.bookmarks && Wanted(b, t, user, f, below) <==> b in t'.bookmarks && Wanted(b, t', user, f, below)
    {
      if b in t.bookmarks && Wanted(b, t, user, f, below) { WantedAlike(t, db, t', db', user, f, below, b); }
      if b in t'.bookmarks && Wanted(b, t', user, f, below) {
        AgreeSymmetric(db, db', user);
        WantedAlike(t', db', t, db, user, f, below, b);
      }
    }
    ListingIgnoresScanOrder(t, t', user, f, collation, o, below);
  }

  lemma OffsetPageIsolated(
    t: Tables, db: Database, t': Tables, db': Database, q: Query, collation: string -> real, page: int)
    requires Seen(t, db) && Seen(t', db') && AgreeOn(db, db', q.user) && page >= 1
    ensures OffsetPage(t, t, collation, q, page) == OffsetPage(t', t', collation, q, page)
  {
    ScansAreKeyed(t, db);
    ScansAreKeyed(t', db');
    ListingsIsolated(t, db, t', db', q.user, q.filters, collation, ParseSort(q.sort), None);
    OffsetItems(t, collation, q, page, PerPage(q.perPage));
    OffsetItems(t', collation, q, page, PerPage(q.perPage));
    OffsetTotal(t, collation, q, page);
    OffsetTotal(t', collation, q, page);
  }

  lemma CursorPageIsolated(
    t: Tables, db: Database, t': Tables, db': Database, q: Query, collation: string -> real, cursor: int)
    requires Seen(t, db) && Seen(t', db') && AgreeOn(db, db', q.user)
    ensures CursorPage(t, t, collation, q, cursor) == CursorPage(t', t', collation, q, cursor)
  {
    ScansAreKeyed(t, db);
    ScansAreKeyed(t', db');
    ListingsIsolated(t, db, t', db', q.user, q.filters, collation, NEWEST_ID_FIRST, Some(cursor));
    CursorPageMeans(t, t, collation, q, cursor);
    CursorPageMeans(t', t', collation, q, cursor);
    CountIsolated(t, db, t', db', q.user, q.filters, collation);
  }

  lemma CountIsolated(
    t: Tables, db: Database, t': Tables, db': Database, user: int, f: Filters, collation: string -> real)
    requires Seen(t, db) && Seen(t', db') && AgreeOn(db, db', user)
    ensures Count(t, user, f) == Count(t', user, f)
  {
    ScansAreKeyed(t, db);
    ScansAreKeyed(t', db');
    ListingsIsolated(t, db, t', db', user, f, collation, NEWEST_ID_FIRST, None);
    CountMeans(t, user, f, collation, NEWEST_ID_FIRST);
    CountMeans(t', user, f, collation, NEWEST_ID_FIRST);
  }

  // ---- Statistics ----

  lemma SameStrictOrder<T(!new)>(less: (T, T) -> bool, s: seq<T>, r: seq<T>)
    requires StrictTotalOn(less, Elements(s)) && Ordered(less, s) && Ordered(less, r)
    requires Distinct(s) && Distinct(r) && forall x :: x in s <==> x in r
    ensures s == r
  {
    SameElementsSameBag(s, r);
    OrderedUnique(less, s, r);
  }

  lemma OwnedAlike(t: Tables, db: Database, t': Tables, db': Database, user: int, b: Bookmark)
    requires Seen(t, db) && Seen(t', db') && AgreeOn(db, db', user) && b.owner == user
    ensures b in t.bookmarks <==> b in t'.bookmarks
  {
    OwnedScanned(t, db, user, b);
    OwnedScanned(t', db', user, b);
  }

  lemma CarriersAlike(t: Tables, db: Database, t': Tables, db': Database, user: int, g: Tag)
    requires Seen(t, db) && Seen(t', db') && AgreeOn(db, db', user) && g in t.tags
    requires Carriers(t.bookmarks, t, user, g) != {}
    ensures g in t'.tags && Carriers(t'.bookmarks, t', user, g) == Carriers(t.bookmarks, t, user, g)
  {
    var b0 :| b0 in Carriers(t.bookmarks, t, user, g);
    LinkedAlike(t, db, t', db', user, b0, g);
    forall b ensures b in Carriers(t.bookmarks, t, user, g) <==> b in Carriers(t'.bookmarks, t', user, g) {
      if b.owner == user {
        OwnedAlike(t, db, t', db', user, b);
        if b in t.bookmarks { LinkedAlike(t, db, t', db', user, b, g); }
      }
    }
  }

  lemma RankedMemberAlike(
    t: Tables, db: Database, t': Tables, db': Database, user: int, collation: string -> real, g: Group<Tag>)
    requires Seen(t, db) && Seen(t', db') && AgreeOn(db, db', user)
    requires g in RankedTags(t, user, collation)
    ensures g in RankedTags(t', user, collation)
  {
    ScansAreKeyed(t, db);
    ScansAreKeyed(t', db');
    RankedMember(t, user, collation, g);
    RankedMember(t', user, collation, g);
    CarriersAlike(t, db, t', db', user, g.key);
  }

  lemma RankedSorted(t: Tables, db: Database, user: int, collation: string -> real)
    requires Seen(t, db) && Discriminates(collation, t.tags)
    ensures
      var r, less := RankedTags(t, user, collation), ByRank(collation);
      StrictTotalOn(less, Elements(r)) && Ordered(less, r) && Distinct(r)
  {
    ScansAreKeyed(t, db);
    var rows, less := TagRows(t.bookmarks, t, user), ByRank(collation);
    var groups := GroupBy(rows);
    GroupByExact(rows);
    forall g | g in groups ensures g.key in t.tags { TagRowsAreTags(t, user, g.key); }
    RankIsTotal(t, collation, groups);
    SortOrdered(less, groups);
    SortDistinct(less, groups);
  }

  lemma RankedIsolated(t: Tables, db: Database, t': Tables, db': Database, user: int, collation: string -> real)
    requires Seen(t, db) && Seen(t', db') && AgreeOn(db, db', user)
    requires Discriminates(collation, t.tags) && Discriminates(collation, t'.tags)
    ensures RankedTags(t, user, collation) == RankedTags(t', user, collation)
  {
    var r, r' := RankedTags(t, user, collation), RankedTags(t', user, collation);
    RankedSorted(t, db, user, collation);
    RankedSorted(t', db', user, collation);
    AgreeSymmetric(db, db', user);
    forall g ensures g in r <==> g in r' {
      if g in r { RankedMemberAlike(t, db, t', db', user, collation, g); }
      if g in r' { RankedMemberAlike(t', db', t, db, user, collation, g); }
    }
    SameStrictOrder(ByRank(collation), r, r');
  }

  lemma MonthsIsolated(t: Tables, db: Database, t': Tables, db': Database, user: int, monthOf: int -> int)
    requires Seen(t, db) && Seen(t', db') && AgreeOn(db, db', user)
    ensures
      && Sort(ByMonth(), GroupBy(MonthColumn(OwnedRows(t.bookmarks, user), monthOf)))
         == Sort(ByMonth(), GroupBy(MonthColumn(OwnedRows(t'.bookmarks, user), monthOf)))
      && |OwnedRows(t.bookmarks, user)| == |OwnedRows(t'.bookmarks, user)|
  {
    var owned, owned' := OwnedRows(t.bookmarks, user), OwnedRows(t'.bookmarks, user);
    OwnedExact(t.bookmarks, user);
    OwnedExact(t'.bookmarks, user);
    forall b ensures b in owned <==> b in owned' {
      if b.owner == user { OwnedAlike(t, db, t', db', user, b); }
    }
    SameElementsSameBag(owned, owned');
    BagFacts(owned, owned');
    var keys, keys' := MonthColumn(owned, monthOf), MonthColumn(owned', monthOf);
    forall m ensures multiset(keys)[m] == multiset(keys')[m] {
      MonthColumnCount(t.bookmarks, user, monthOf, m);
      MonthColumnCount(t'.bookmarks, user, monthOf, m);
      assert InMonth(t.bookmarks, user, monthOf, m) == InMonth(t'.bookmarks, user, monthOf, m) by {
        forall b ensures b in InMonth(t.bookmarks, user, monthOf, m) <==> b in InMonth(t'.bookmarks, user, monthOf, m) {
          if b.owner == user { OwnedAlike(t, db, t', db', user, b); }
        }
      }
    }
    assert multiset(keys) == multiset(keys');
    MonthListsAlike(keys, keys');
  }

  lemma MonthListsAlike(keys: seq<int>, keys': seq<int>)
    requires multiset(keys) == multiset(keys')
    ensures Sort(ByMonth(), GroupBy(keys)) == Sort(ByMonth(), GroupBy(keys'))
  {
    var r, r' := Sort(ByMonth(), GroupBy(keys)), Sort(ByMonth(), GroupBy(keys'));
    MonthGroups(keys);
    MonthGroups(keys');
    forall g ensures g in r <==> g in r' { InBag(keys, keys', g.key); }
    SameStrictOrder(ByMonth(), r, r');
  }

  /** One user's statistics, whatever other users hold and however the tables are scanned. */
  lemma StatsIsolated(
    t: Tables, db: Database, t': Tables, db': Database, user: int, collation: string -> real, monthOf: int -> int)
    requires Seen(t, db) && Seen(t', db') && AgreeOn(db, db', user)
    requires Discriminates(collation, t.tags) && Discriminates(collation, t'.tags)
    ensures GetStats(t, user, collation, monthOf) == GetStats(t', user, collation, monthOf)
  {
    ScansAreKeyed(t, db);
    ScansAreKeyed(t', db');
    RankedIsolated(t, db, t', db', user, collation);
    MonthsIsolated(t, db, t', db', user, monthOf);
    TotalTagsIsGroups(t, user);
    TotalTagsIsGroups(t', user);
    BagFacts(RankedTags(t, user, collation), GroupBy(TagRows(t.bookmarks, t, user)));
    BagFacts(RankedTags(t', user, collation), GroupBy(TagRows(t'.bookmarks, t', user)));
  }
}
