/** The statistics endpoint's aggregate queries (app/repositories/stats/repository.py). */
module Stats {
  import opened Common
  import opened Store
  import opened Ordering
  import opened Queries

  // ---- GROUP BY ----

  datatype Group<K> = Group(key: K, count: nat)

  /** `SELECT key, COUNT(*) ... GROUP BY key` over the key column of the rows. */
  function GroupBy<K(==)>(keys: seq<K>): seq<Group<K>> {
    if keys == [] then [] else Tally(GroupBy(keys[..|keys| - 1]), keys[|keys| - 1])
  }

  function Tally<K(==)>(groups: seq<Group<K>>, key: K): seq<Group<K>> {
    if groups == [] then [Group(key, 1)]
    else if groups[0].key == key then [Group(key, groups[0].count + 1)] + groups[1..]
    else [groups[0]] + Tally(groups[1..], key)
  }

  function Total<K>(groups: seq<Group<K>>): nat {
    if groups == [] then 0 else groups[0].count + Total(groups[1..])
  }

  ghost predicate KeysDistinct<K>(groups: seq<Group<K>>) {
    forall i, j :: 0 <= i < j < |groups| ==> groups[i].key != groups[j].key
  }

  lemma {:induction false} TallyTotal<K>(groups: seq<Group<K>>, key: K)
    ensures Total(Tally(groups, key)) == Total(groups) + 1
  {
    if groups == [] {
      assert Tally(groups, key)[1..] == [];
    } else if groups[0].key == key {
      DropFirst(Group(key, groups[0].count + 1), groups[1..]);
    } else {
      TallyTotal(groups[1..], key);
      DropFirst(groups[0], Tally(groups[1..], key));
    }
  }

  lemma {:induction false} TallyExact<K>(groups: seq<Group<K>>, key: K)
    requires KeysDistinct(groups)
    ensures KeysDistinct(Tally(groups, key))
    ensures forall g :: g in Tally(groups, key) ==>
              if g.key == key then g.count == 1 + CountOf(groups, key) else g in groups
    ensures forall g :: g in groups && g.key != key ==> g in Tally(groups, key)
    ensures exists g :: g in Tally(groups, key) && g.key == key
  {
    var r := Tally(groups, key);
    if groups == [] {
      assert r[1..] == [];
      assert r[0] in r;
    } else {
      assert groups == [groups[0]] + groups[1..];
      if groups[0].key == key {
        assert r[1..] == groups[1..];
        assert r[0] in r && r[0].key == key;
      } else {
        var rest := Tally(groups[1..], key);
        TallyExact(groups[1..], key);
        assert r[1..] == rest;
        forall j | 0 <= j < |rest| ensures rest[j].key != groups[0].key {
          if rest[j].key != key { assert rest[j] in groups[1..]; }
        }
        var g :| g in rest && g.key == key;
        assert g in r;
      }
    }
  }

  /** The count under a key, zero if the key has no group. */
  function CountOf<K(==)>(groups: seq<Group<K>>, key: K): nat {
    if groups == [] then 0 else if groups[0].key == key then groups[0].count else CountOf(groups[1..], key)
  }

  lemma {:induction false} CountOfMember<K>(groups: seq<Group<K>>, g: Group<K>)
    requires KeysDistinct(groups) && g in groups
    ensures CountOf(groups, g.key) == g.count
  {
    if groups[0] != g {
      assert groups == [groups[0]] + groups[1..];
      CountOfMember(groups[1..], g);
    }
  }

  lemma {:induction false} CountOfAbsent<K>(groups: seq<Group<K>>, key: K)
    requires forall g :: g in groups ==> g.key != key
    ensures CountOf(groups, key) == 0
  {
    if groups != [] {
      assert groups[0] in groups;
      CountOfAbsent(groups[1..], key);
    }
  }

  /** These groups are exactly the keys that occur, each with its number of occurrences. */
  ghost predicate Groups<K(!new)>(keys: seq<K>, r: seq<Group<K>>) {
    && KeysDistinct(r)
    && (forall g :: g in r ==> g.key in keys && g.count == multiset(keys)[g.key] > 0)
    && (forall k :: k in keys ==> Group(k, multiset(keys)[k]) in r)
  }

  lemma CountInGroups<K(!new)>(keys: seq<K>, r: seq<Group<K>>, key: K)
    requires Groups(keys, r)
    ensures CountOf(r, key) == multiset(keys)[key]
  {
    if key in keys { CountOfMember(r, Group(key, multiset(keys)[key])); } else { CountOfAbsent(r, key); }
  }

  lemma BagSnoc<K>(front: seq<K>, key: K)
    ensures multiset(front + [key]) == multiset(front)[key := multiset(front)[key] + 1]
    ensures forall k :: k in front + [key] <==> k in front || k == key
  {
    assert (front + [key])[|front|] == key;
    forall k | k in front ensures k in front + [key] {
      var i :| 0 <= i < |front| && front[i] == k;
      assert (front + [key])[i] == k;
    }
  }

  lemma TallyGroups<K(!new)>(front: seq<K>, before: seq<Group<K>>, key: K)
    requires Groups(front, before)
    ensures Groups(front + [key], Tally(before, key))
  {
    var keys, r := front + [key], Tally(before, key);
    TallyExact(before, key);
    CountInGroups(front, before, key);
    BagSnoc(front, key);
    forall k | k in keys ensures Group(k, multiset(keys)[k]) in r {
      if k == key {
        var g :| g in r && g.key == key;
        assert g == Group(k, multiset(keys)[k]);
      } else {
        assert Group(k, multiset(front)[k]) in before;
      }
    }
  }

  /** One group per key that occurs, with its number of occurrences; the counts add up to the rows. */
  lemma {:induction false} GroupByExact<K(!new)>(keys: seq<K>)
    ensures Groups(keys, GroupBy(keys)) && Total(GroupBy(keys)) == |keys|
  {
    if keys != [] {
      var front, key := keys[..|keys| - 1], keys[|keys| - 1];
      GroupByExact(front);
      assert keys == front + [key];
      TallyGroups(front, GroupBy(front), key);
      TallyTotal(GroupBy(front), key);
    }
  }

  // ---- The queries ----

  /** The tag column of joined rows. */
  function TagColumn(rows: seq<Joined>): seq<Tag> {
    if rows == [] then []
    else (if rows[0].tag.Some? then [rows[0].tag.value] else []) + TagColumn(rows[1..])
  }

  /** Bookmarks of the user, joined with their tags: one tag row for each link. */
  function TagRows(bs: seq<Bookmark>, t: Tables, user: int): seq<Tag> {
    TagColumn(Where(JoinAll(bs, t), [OwnerIs(user)]))
  }

  function OwnedRows(bs: seq<Bookmark>, user: int): seq<Bookmark> {
    if bs == [] then [] else (if bs[0].owner == user then [bs[0]] else []) + OwnedRows(bs[1..], user)
  }

  /** The dialect's month expression applied to each row's creation time. */
  function MonthColumn(bs: seq<Bookmark>, monthOf: int -> int): seq<int> {
    if bs == [] then [] else [monthOf(bs[0].createdAt)] + MonthColumn(bs[1..], monthOf)
  }

  /** `ORDER BY count DESC, t.name ASC` under the database's collation. */
  function ByRank(collation: string -> real): (Group<Tag>, Group<Tag>) -> bool {
    (g: Group<Tag>, h: Group<Tag>) =>
      if g.count == h.count then collation(g.key.name) < collation(h.key.name) else g.count > h.count
  }

  function ByMonth(): (Group<int>, Group<int>) -> bool {
    (g: Group<int>, h: Group<int>) => g.key < h.key
  }

  datatype Report = Report(
    totalBookmarks: nat, totalTags: nat, topTags: seq<Group<Tag>>, perMonth: seq<Group<int>>)

  const TOP := 10

  function RankedTags(t: Tables, user: int, collation: string -> real): seq<Group<Tag>> {
    Sort(ByRank(collation), GroupBy(TagRows(t.bookmarks, t, user)))
  }

  function GetStats(t: Tables, user: int, collation: string -> real, monthOf: int -> int): Report {
    var rows := TagRows(t.bookmarks, t, user);
    var ranked := RankedTags(t, user, collation);
    var owned := OwnedRows(t.bookmarks, user);
    Report(
      |owned|,
      |set g | g in rows :: g.id|,
      ranked[..if TOP < |ranked| then TOP else |ranked|],
      Sort(ByMonth(), GroupBy(MonthColumn(owned, monthOf))))
  }

  // ---- Months ----

  lemma {:induction false} OwnedExact(bs: seq<Bookmark>, user: int)
    ensures forall b :: b in OwnedRows(bs, user) <==> b in bs && b.owner == user
    ensures Distinct(bs) ==> Distinct(OwnedRows(bs, user))
  {
    if bs != [] {
      OwnedExact(bs[1..], user);
      assert bs == [bs[0]] + bs[1..];
    }
  }

  lemma OwnedCount(bs: seq<Bookmark>, user: int)
    requires Distinct(bs)
    ensures |OwnedRows(bs, user)| == |set b | b in bs && b.owner == user|
  {
    OwnedExact(bs, user);
    DistinctCardinality(OwnedRows(bs, user));
    assert Elements(OwnedRows(bs, user)) == set b | b in bs && b.owner == user;
  }

  lemma {:induction false} TotalOfInsert<K(!new)>(less: (Group<K>, Group<K>) -> bool, g: Group<K>, s: seq<Group<K>>)
    ensures Total(Insert(less, g, s)) == g.count + Total(s)
  {
    var r := Insert(less, g, s);
    if s == [] {
      assert r[1..] == [];
    } else if less(s[0], g) {
      TotalOfInsert(less, g, s[1..]);
      assert r[1..] == Insert(less, g, s[1..]);
    } else {
      assert r[1..] == s;
    }
  }

  lemma {:induction false} TotalOfSort<K(!new)>(less: (Group<K>, Group<K>) -> bool, s: seq<Group<K>>)
    ensures Total(Sort(less, s)) == Total(s)
  {
    if s != [] {
      TotalOfSort(less, s[1..]);
      TotalOfInsert(less, s[0], Sort(less, s[1..]));
    }
  }

  lemma MonthsTotal(ks: seq<Group<int>>)
    requires KeysDistinct(ks)
    ensures StrictTotalOn(ByMonth(), Elements(ks))
  {
  }

  lemma GroupMember<K(!new)>(keys: seq<K>, g: Group<K>)
    ensures g in GroupBy(keys) <==> g.key in keys && g.count == multiset(keys)[g.key]
  {
    GroupByExact(keys);
  }

  /** The user's bookmarks created in a month. */
  function InMonth(bs: seq<Bookmark>, user: int, monthOf: int -> int, m: int): set<Bookmark> {
    set b | b in bs && b.owner == user && monthOf(b.createdAt) == m
  }

  lemma {:induction false} MonthColumnCount(bs: seq<Bookmark>, user: int, monthOf: int -> int, m: int)
    requires Distinct(bs)
    ensures multiset(MonthColumn(OwnedRows(bs, user), monthOf))[m] == |InMonth(bs, user, monthOf, m)|
  {
    if bs == [] {
      assert InMonth(bs, user, monthOf, m) == {};
    } else {
      MonthColumnCount(bs[1..], user, monthOf, m);
      InMonthStep(bs, user, monthOf, m);
      if bs[0].owner == user {
        assert OwnedRows(bs, user)[1..] == OwnedRows(bs[1..], user);
      } else {
        assert OwnedRows(bs, user) == OwnedRows(bs[1..], user);
      }
    }
  }

  lemma InMonthStep(bs: seq<Bookmark>, user: int, monthOf: int -> int, m: int)
    requires Distinct(bs) && bs != []
    ensures |InMonth(bs, user, monthOf, m)| ==
            (if bs[0].owner == user && monthOf(bs[0].createdAt) == m then 1 else 0)
            + |InMonth(bs[1..], user, monthOf, m)|
  {
    var b, rest := bs[0], bs[1..];
    assert bs == [b] + rest;
    var mine := b.owner == user && monthOf(b.createdAt) == m;
    assert b !in rest;
    var all, later := InMonth(bs, user, monthOf, m), InMonth(rest, user, monthOf, m);
    forall x ensures x in all <==> (mine && x == b) || x in later {}
    assert all == if mine then {b} + later else later;
  }

  lemma {:induction false} MonthColumnLength(bs: seq<Bookmark>, monthOf: int -> int)
    ensures |MonthColumn(bs, monthOf)| == |bs|
  {
    if bs != [] { MonthColumnLength(bs[1..], monthOf); }
  }

  lemma MonthGroups(keys: seq<int>)
    ensures
      var r := Sort(ByMonth(), GroupBy(keys));
      && Total(r) == |keys|
      && (forall i, j :: 0 <= i < j < |r| ==> r[i].key < r[j].key)
      && (forall g :: g in r <==> g.key in keys && g.count == multiset(keys)[g.key])
  {
    var groups := GroupBy(keys);
    var r := Sort(ByMonth(), groups);
    GroupByExact(keys);
    MonthsTotal(groups);
    SortOrdered(ByMonth(), groups);
    TotalOfSort(ByMonth(), groups);
    SortDistinct(ByMonth(), groups);
    StrictlyOrdered(ByMonth(), r);
    forall g ensures g in r <==> g.key in keys && g.count == multiset(keys)[g.key] {
      InBag(r, groups, g);
      GroupMember(keys, g);
    }
  }

  /** The months ascend strictly and are exactly those with bookmarks, each with the number of the
      user's bookmarks created in it; their counts sum to total_bookmarks. */
  lemma MonthsConserveTotal(t: Tables, user: int, collation: string -> real, monthOf: int -> int)
    requires WellKeyed(t)
    ensures
      var r := GetStats(t, user, collation, monthOf);
      && Total(r.perMonth) == r.totalBookmarks == |set b | b in t.bookmarks && b.owner == user|
      && (forall i, j :: 0 <= i < j < |r.perMonth| ==> r.perMonth[i].key < r.perMonth[j].key)
      && (forall g :: g in r.perMonth <==> g.count == |InMonth(t.bookmarks, user, monthOf, g.key)| > 0)
  {
    var owned := OwnedRows(t.bookmarks, user);
    var keys := MonthColumn(owned, monthOf);
    MonthGroups(keys);
    MonthColumnLength(owned, monthOf);
    assert Distinct(t.bookmarks);
    OwnedCount(t.bookmarks, user);
    var r := Sort(ByMonth(), GroupBy(keys));
    forall g ensures g in r <==> g.count == |InMonth(t.bookmarks, user, monthOf, g.key)| > 0 {
      MonthColumnCount(t.bookmarks, user, monthOf, g.key);
      assert g.key in keys <==> multiset(keys)[g.key] > 0;
    }
  }

  // ---- Tags ----

  /** Every link's tag row exists. */
  ghost predicate LinksResolve(t: Tables) {
    forall i :: 0 <= i < |t.links| ==> HasId(t.tags, t.links[i].tag)
  }

  lemma {:induction false} TagColumnConcat(a: seq<Joined>, b: seq<Joined>)
    ensures TagColumn(a + b) == TagColumn(a) + TagColumn(b)
  {
    if a == [] {
      assert a + b == b;
    } else {
      assert (a + b)[0] == a[0] && (a + b)[1..] == a[1..] + b;
      TagColumnConcat(a[1..], b);
      Associative(if a[0].tag.Some? then [a[0].tag.value] else [], TagColumn(a[1..]), TagColumn(b));
    }
  }

  predicate HasId(tags: seq<Tag>, id: int) {
    exists i :: 0 <= i < |tags| && tags[i].id == id
  }

  lemma {:induction false} JoinTagsColumn(b: Bookmark, id: int, tags: seq<Tag>)
    requires TagsKeyed(tags)
    ensures
      var c := TagColumn(JoinTags(b, id, tags));
      if HasId(tags, id) then |c| == 1 && c[0] in tags && c[0].id == id else c == []
  {
    if tags != [] {
      var g0, rest := tags[0], tags[1..];
      JoinTagsColumn(b, id, rest);
      assert forall i :: 0 <= i < |rest| ==> rest[i] == tags[i + 1];
      assert tags == [g0] + rest;
      if g0.id == id {
        TagColumnConcat([Joined(b, Some(g0))], JoinTags(b, id, rest));
        assert TagColumn([Joined(b, Some(g0))]) == [g0] by { assert TagColumn([Joined(b, Some(g0))][1..]) == []; }
        assert !HasId(rest, id);
      } else {
        assert JoinTags(b, id, tags) == JoinTags(b, id, rest);
        assert HasId(tags, id) <==> HasId(rest, id);
      }
    }
  }

  lemma SameIdSameTag(tags: seq<Tag>, g: Tag, h: Tag)
    requires TagsKeyed(tags) && g in tags && h in tags && g.id == h.id
    ensures g == h
  {
    var i :| 0 <= i < |tags| && tags[i] == g;
    var j :| 0 <= j < |tags| && tags[j] == h;
  }

  function LinksFrom(links: seq<Link>, id: int): set<Link> {
    set l | l in links && l.bookmark == id
  }

  lemma JoinTagsCount(b: Bookmark, id: int, tags: seq<Tag>, g: Tag)
    requires TagsKeyed(tags)
    ensures multiset(TagColumn(JoinTags(b, id, tags)))[g] == if g in tags && g.id == id then 1 else 0
  {
    var c := TagColumn(JoinTags(b, id, tags));
    JoinTagsColumn(b, id, tags);
    if g in tags && g.id == id {
      assert HasId(tags, id);
      SameIdSameTag(tags, g, c[0]);
      assert c == [g];
    } else {
      assert g !in c;
    }
  }

  /** In the tag column of one bookmark's joined rows each of its tags occurs once. */
  lemma {:induction false} JoinLinksCount(b: Bookmark, links: seq<Link>, tags: seq<Tag>, g: Tag)
    requires Distinct(links) && TagsKeyed(tags)
    ensures multiset(TagColumn(JoinLinks(b, links, tags)))[g] == if g in tags && Link(b.id, g.id) in links then 1 else 0
  {
    if links != [] {
      var l, rest := links[0], links[1..];
      assert links == [l] + rest;
      JoinLinksCount(b, rest, tags, g);
      if l.bookmark == b.id {
        JoinTagsCount(b, l.tag, tags, g);
        TagColumnConcat(JoinTags(b, l.tag, tags), JoinLinks(b, rest, tags));
        assert g.id == l.tag ==> l == Link(b.id, g.id) && l !in rest;
      } else {
        assert JoinLinks(b, links, tags) == JoinLinks(b, rest, tags);
      }
    }
  }

  /** One joined row per link. */
  lemma {:induction false} JoinLinksLength(b: Bookmark, links: seq<Link>, tags: seq<Tag>)
    requires Distinct(links) && TagsKeyed(tags) && forall i :: 0 <= i < |links| ==> HasId(tags, links[i].tag)
    ensures |TagColumn(JoinLinks(b, links, tags))| == |LinksFrom(links, b.id)|
  {
    if links != [] {
      var l, rest := links[0], links[1..];
      assert links == [l] + rest;
      JoinLinksLength(b, rest, tags);
      if l.bookmark == b.id {
        assert HasId(tags, l.tag);
        JoinTagsColumn(b, l.tag, tags);
        TagColumnConcat(JoinTags(b, l.tag, tags), JoinLinks(b, rest, tags));
      } else {
        assert JoinLinks(b, links, tags) == JoinLinks(b, rest, tags);
      }
      LinksFromStep(links, b.id);
    } else {
      assert LinksFrom(links, b.id) == {};
    }
  }

  lemma LinksFromStep(links: seq<Link>, id: int)
    requires Distinct(links) && links != []
    ensures |LinksFrom(links, id)| == (if links[0].bookmark == id then 1 else 0) + |LinksFrom(links[1..], id)|
  {
    var l, rest := links[0], links[1..];
    assert links == [l] + rest && l !in rest;
    assert LinksFrom(links, id) == if l.bookmark == id then {l} + LinksFrom(rest, id) else LinksFrom(rest, id);
  }

  lemma {:induction false} WhereOwner(b: Bookmark, rows: seq<Joined>, user: int)
    requires forall r :: r in rows ==> r.bookmark == b
    ensures Where(rows, [OwnerIs(user)]) == if b.owner == user then rows else []
  {
    if rows != [] {
      WhereOwner(b, rows[1..], user);
      assert rows[0] in rows && rows == [rows[0]] + rows[1..];
      assert HoldsAll([OwnerIs(user)], rows[0]) <==> Holds([OwnerIs(user)][0], rows[0]);
    }
  }

  lemma {:induction false} JoinLinksBookmark(b: Bookmark, links: seq<Link>, tags: seq<Tag>)
    ensures forall r :: r in JoinLinks(b, links, tags) ==> r.bookmark == b
  {
    if links != [] {
      JoinTagsBookmark(b, links[0].tag, tags);
      JoinLinksBookmark(b, links[1..], tags);
    }
  }

  lemma {:induction false} JoinTagsBookmark(b: Bookmark, id: int, tags: seq<Tag>)
    ensures forall r :: r in JoinTags(b, id, tags) ==> r.bookmark == b
  {
    if tags != [] { JoinTagsBookmark(b, id, tags[1..]); }
  }

  lemma TagRowsStep(bs: seq<Bookmark>, t: Tables, user: int)
    requires bs != []
    ensures TagRows(bs, t, user) ==
            (if bs[0].owner == user then TagColumn(JoinLinks(bs[0], t.links, t.tags)) else [])
            + TagRows(bs[1..], t, user)
  {
    var head, tail := JoinLinks(bs[0], t.links, t.tags), JoinAll(bs[1..], t);
    WhereConcat(head, tail, [OwnerIs(user)]);
    JoinLinksBookmark(bs[0], t.links, t.tags);
    WhereOwner(bs[0], head, user);
    TagColumnConcat(Where(head, [OwnerIs(user)]), Where(tail, [OwnerIs(user)]));
  }

  /** The user's bookmarks that carry the tag. */
  function Carriers(bs: seq<Bookmark>, t: Tables, user: int, g: Tag): set<Bookmark> {
    set b | b in bs && b.owner == user && Link(b.id, g.id) in t.links
  }

  ghost predicate OwnedId(bs: seq<Bookmark>, user: int, id: int) {
    exists b :: b in bs && b.owner == user && b.id == id
  }

  /** The links of the user's bookmarks. */
  ghost function UserLinks(bs: seq<Bookmark>, t: Tables, user: int): set<Link> {
    set l | l in t.links && OwnedId(bs, user, l.bookmark)
  }

  ghost predicate BookmarksKeyed(bs: seq<Bookmark>) {
    forall i, j :: 0 <= i < j < |bs| ==> bs[i].id != bs[j].id
  }

  lemma {:induction false} TagRowsCount(bs: seq<Bookmark>, t: Tables, user: int, g: Tag)
    requires BookmarksKeyed(bs) && Distinct(t.links) && TagsKeyed(t.tags)
    ensures multiset(TagRows(bs, t, user))[g] == if g in t.tags then |Carriers(bs, t, user, g)| else 0
  {
    if bs != [] {
      var b, rest := bs[0], bs[1..];
      assert bs == [b] + rest;
      TagRowsStep(bs, t, user);
      TagRowsCount(rest, t, user, g);
      JoinLinksCount(b, t.links, t.tags, g);
      CarriersStep(bs, t, user, g);
    } else {
      assert Carriers(bs, t, user, g) == {};
    }
  }

  lemma CarriersStep(bs: seq<Bookmark>, t: Tables, user: int, g: Tag)
    requires BookmarksKeyed(bs) && bs != []
    ensures |Carriers(bs, t, user, g)| ==
            (if bs[0].owner == user && Link(bs[0].id, g.id) in t.links then 1 else 0) + |Carriers(bs[1..], t, user, g)|
  {
    var b, rest := bs[0], bs[1..];
    assert bs == [b] + rest;
    var mine := b.owner == user && Link(b.id, g.id) in t.links;
    assert Carriers(bs, t, user, g) == (if mine then {b} else {}) + Carriers(rest, t, user, g);
    assert b !in rest;
  }

  lemma {:induction false} TagRowsLength(bs: seq<Bookmark>, t: Tables, user: int)
    requires BookmarksKeyed(bs) && Distinct(t.links) && TagsKeyed(t.tags) && LinksResolve(t)
    ensures |TagRows(bs, t, user)| == |UserLinks(bs, t, user)|
  {
    if bs != [] {
      var b, rest := bs[0], bs[1..];
      TagRowsStep(bs, t, user);
      TagRowsLength(rest, t, user);
      JoinLinksLength(b, t.links, t.tags);
      UserLinksStep(bs, t, user);
    } else {
      assert UserLinks(bs, t, user) == {};
    }
  }

  lemma UserLinksStep(bs: seq<Bookmark>, t: Tables, user: int)
    requires BookmarksKeyed(bs) && bs != []
    ensures |UserLinks(bs, t, user)| ==
            (if bs[0].owner == user then |LinksFrom(t.links, bs[0].id)| else 0) + |UserLinks(bs[1..], t, user)|
  {
    var b, rest := bs[0], bs[1..];
    assert bs == [b] + rest;
    var mine := if b.owner == user then LinksFrom(t.links, b.id) else {};
    forall l: Link
      ensures
        OwnedId(bs, user, l.bookmark) <==> (b.owner == user && b.id == l.bookmark) || OwnedId(rest, user, l.bookmark)
    {
      if OwnedId(rest, user, l.bookmark) {
        var b' :| b' in rest && b'.owner == user && b'.id == l.bookmark;
        assert b' in bs;
      }
      if b.owner == user && b.id == l.bookmark { assert b in bs; }
    }
    assert UserLinks(bs, t, user) == mine + UserLinks(rest, t, user);
    assert !OwnedId(rest, user, b.id);
    assert mine !! UserLinks(rest, t, user);
  }

  /** The collation tells any two distinct tag names apart. */
  ghost predicate Discriminates(collation: string -> real, tags: seq<Tag>) {
    forall g, h :: g in tags && h in tags && g.name != h.name ==> collation(g.name) != collation(h.name)
  }

  lemma RankedMember(t: Tables, user: int, collation: string -> real, g: Group<Tag>)
    requires WellKeyed(t)
    ensures g in RankedTags(t, user, collation) <==>
            g.key in t.tags && g.count == |Carriers(t.bookmarks, t, user, g.key)| > 0
  {
    var rows := TagRows(t.bookmarks, t, user);
    InBag(RankedTags(t, user, collation), GroupBy(rows), g);
    GroupMember(rows, g);
    TagRowsCount(t.bookmarks, t, user, g.key);
    assert g.key in rows <==> multiset(rows)[g.key] > 0;
  }

  lemma KeysStayDistinct<K>(s: seq<Group<K>>, r: seq<Group<K>>)
    requires KeysDistinct(s) && multiset(r) == multiset(s) && Distinct(r)
    ensures KeysDistinct(r)
  {
    BagFacts(r, s);
    forall i, j | 0 <= i < j < |r| ensures r[i].key != r[j].key {
      assert r[i] in s && r[j] in s && r[i] != r[j];
    }
  }

  /** Each tag's group counts the user's bookmarks that carry it, exactly the tags in use have one,
      and the counts of all groups sum to the number of the user's links. */
  lemma TagCountsConserveLinks(t: Tables, user: int, collation: string -> real)
    requires WellKeyed(t) && LinksResolve(t)
    ensures
      var ranked := RankedTags(t, user, collation);
      && Total(ranked) == |UserLinks(t.bookmarks, t, user)|
      && KeysDistinct(ranked)
      && (forall g :: g in ranked <==> g.key in t.tags && g.count == |Carriers(t.bookmarks, t, user, g.key)| > 0)
  {
    var rows := TagRows(t.bookmarks, t, user);
    var groups := GroupBy(rows);
    var ranked := Sort(ByRank(collation), groups);
    GroupByExact(rows);
    TagRowsLength(t.bookmarks, t, user);
    TotalOfSort(ByRank(collation), groups);
    SortDistinct(ByRank(collation), groups);
    KeysStayDistinct(groups, ranked);
    forall g ensures g in ranked <==> g.key in t.tags && g.count == |Carriers(t.bookmarks, t, user, g.key)| > 0 {
      RankedMember(t, user, collation, g);
    }
  }

  lemma RankIsTotal(t: Tables, collation: string -> real, groups: seq<Group<Tag>>)
    requires WellKeyed(t) && Discriminates(collation, t.tags)
    requires KeysDistinct(groups) && forall g :: g in groups ==> g.key in t.tags
    ensures StrictTotalOn(ByRank(collation), Elements(groups))
  {
    var less := ByRank(collation);
    forall g, h | g in Elements(groups) && h in Elements(groups) && g != h ensures less(g, h) || less(h, g) {
      var i :| 0 <= i < |groups| && groups[i] == g;
      var j :| 0 <= j < |groups| && groups[j] == h;
      assert g.key != h.key;
      NamesApart(t, g.key, h.key);
    }
  }

  lemma NamesApart(t: Tables, g: Tag, h: Tag)
    requires WellKeyed(t) && g in t.tags && h in t.tags && g != h
    ensures g.name != h.name && g.id != h.id
  {
    var i :| 0 <= i < |t.tags| && t.tags[i] == g;
    var j :| 0 <= j < |t.tags| && t.tags[j] == h;
  }

  lemma TagRowsAreTags(t: Tables, user: int, g: Tag)
    requires WellKeyed(t) && g in TagRows(t.bookmarks, t, user)
    ensures g in t.tags
  {
    TagRowsCount(t.bookmarks, t, user, g);
    assert multiset(TagRows(t.bookmarks, t, user))[g] > 0;
  }

  function TagIds(groups: seq<Group<Tag>>): seq<int> {
    seq(|groups|, i requires 0 <= i < |groups| => groups[i].key.id)
  }

  lemma TagIdsDistinct(t: Tables, groups: seq<Group<Tag>>)
    requires WellKeyed(t) && KeysDistinct(groups) && forall g :: g in groups ==> g.key in t.tags
    ensures Distinct(TagIds(groups))
  {
    forall i, j | 0 <= i < j < |groups| ensures TagIds(groups)[i] != TagIds(groups)[j] {
      assert groups[i] in groups && groups[j] in groups;
      NamesApart(t, groups[i].key, groups[j].key);
    }
  }

  /** `COUNT(DISTINCT t.id)` is the number of tag groups. */
  lemma TotalTagsIsGroups(t: Tables, user: int)
    requires WellKeyed(t)
    ensures
      var rows := TagRows(t.bookmarks, t, user);
      |set g | g in rows :: g.id| == |GroupBy(rows)|
  {
    var rows := TagRows(t.bookmarks, t, user);
    var groups := GroupBy(rows);
    var ids := TagIds(groups);
    GroupByExact(rows);
    forall g | g in groups ensures g.key in t.tags { TagRowsAreTags(t, user, g.key); }
    TagIdsDistinct(t, groups);
    DistinctCardinality(ids);
    TagIdsAre(rows, groups);
  }

  lemma TagIdsAre(rows: seq<Tag>, groups: seq<Group<Tag>>)
    requires forall g :: g in groups ==> g.key in rows
    requires forall k :: k in rows ==> Group(k, multiset(rows)[k]) in groups
    ensures (set g | g in rows :: g.id) == Elements(TagIds(groups))
  {
    var ids := TagIds(groups);
    forall x ensures x in (set g | g in rows :: g.id) <==> x in Elements(ids) {
      if g :| g in rows && g.id == x {
        var i :| 0 <= i < |groups| && groups[i] == Group(g, multiset(rows)[g]);
        assert ids[i] == x;
      }
      if x in ids {
        var i :| 0 <= i < |ids| && ids[i] == x;
        assert groups[i] in groups;
      }
    }
  }

  lemma RankedStrictly(t: Tables, user: int, collation: string -> real)
    requires WellKeyed(t) && Discriminates(collation, t.tags)
    ensures
      var ranked := RankedTags(t, user, collation);
      forall i, j :: 0 <= i < j < |ranked| ==> ByRank(collation)(ranked[i], ranked[j])
  {
    var rows, less := TagRows(t.bookmarks, t, user), ByRank(collation);
    var groups := GroupBy(rows);
    var ranked := Sort(less, groups);
    GroupByExact(rows);
    forall g | g in groups ensures g.key in t.tags { TagRowsAreTags(t, user, g.key); }
    RankIsTotal(t, collation, groups);
    SortOrdered(less, groups);
    SortDistinct(less, groups);
    StrictlyOrdered(less, ranked);
  }

  lemma StrictlyOrdered<T(!new)>(less: (T, T) -> bool, s: seq<T>)
    requires StrictTotalOn(less, Elements(s)) && Ordered(less, s) && Distinct(s)
    ensures forall i, j :: 0 <= i < j < |s| ==> less(s[i], s[j])
  {
    forall i, j | 0 <= i < j < |s| ensures less(s[i], s[j]) {
      assert !less(s[j], s[i]) && s[i] in Elements(s) && s[j] in Elements(s);
    }
  }

  /** top_tags has min(10, total_tags) entries and is the prefix of the one ranking by count, then
      name: no tag left out ranks above a tag listed. */
  lemma TopTagsArePrefix(t: Tables, user: int, collation: string -> real, monthOf: int -> int)
    requires WellKeyed(t) && Discriminates(collation, t.tags)
    ensures
      var r, ranked := GetStats(t, user, collation, monthOf), RankedTags(t, user, collation);
      && |r.topTags| == (if r.totalTags > 10 then 10 else r.totalTags) && r.totalTags == |ranked|
      && r.topTags <= ranked
      && (forall i, j :: 0 <= i < j < |ranked| ==>
            || ranked[i].count > ranked[j].count
            || (ranked[i].count == ranked[j].count
                && collation(ranked[i].key.name) < collation(ranked[j].key.name)))
      && (forall i, j :: 0 <= i < |r.topTags| <= j < |ranked| ==>
            || r.topTags[i].count > ranked[j].count
            || (r.topTags[i].count == ranked[j].count
                && collation(r.topTags[i].key.name) < collation(ranked[j].key.name)))
  {
    var rows, ranked := TagRows(t.bookmarks, t, user), RankedTags(t, user, collation);
    TotalTagsIsGroups(t, user);
    BagFacts(ranked, GroupBy(rows));
    RankedStrictly(t, user, collation);
  }
}
