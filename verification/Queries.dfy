/** The bookmark queries, as the SELECT statements the repository builds, and the plain
    specification they meet (app/repositories/bookmark/repository.py). */
module Queries {
  import opened Common
  import opened Text
  import opened Store
  import opened Ordering
  import Like

  // ---- The tables as the database scans them ----

  datatype Tag = Tag(id: int, name: string)

  /** The rows in whatever physical order a scan returns them. */
  datatype Tables = Tables(bookmarks: seq<Bookmark>, links: seq<Link>, tags: seq<Tag>)

  /** The keys and the unique tag name. */
  ghost predicate WellKeyed(t: Tables) {
    && (forall i, j :: 0 <= i < j < |t.bookmarks| ==> t.bookmarks[i].id != t.bookmarks[j].id)
    && Distinct(t.links)
    && (forall i, j :: 0 <= i < j < |t.tags| ==> t.tags[i].id != t.tags[j].id && t.tags[i].name != t.tags[j].name)
  }

  /** The scan returns exactly the committed rows, each once. */
  ghost predicate Scans(t: Tables, db: Database) {
    && Distinct(t.bookmarks) && (forall b :: b in t.bookmarks <==> b.id in db.bookmarks && db.bookmarks[b.id] == b)
    && Distinct(t.links) && (forall l :: l in t.links <==> l in db.links)
    && Distinct(t.tags) && (forall g :: g in t.tags <==> g.id in db.tags && db.tags[g.id] == g.name)
  }

  /** Any scan of tables that satisfy the schema is well keyed. */
  lemma ScansAreKeyed(t: Tables, db: Database)
    requires Valid(db) && Scans(t, db)
    ensures WellKeyed(t)
  {
    forall i, j | 0 <= i < j < |t.bookmarks| ensures t.bookmarks[i].id != t.bookmarks[j].id {
      assert t.bookmarks[i] in t.bookmarks && t.bookmarks[j] in t.bookmarks;
    }
    forall i, j | 0 <= i < j < |t.tags| ensures t.tags[i].id != t.tags[j].id && t.tags[i].name != t.tags[j].name {
      assert t.tags[i] in t.tags && t.tags[j] in t.tags;
      assert t.tags[i] == Tag(t.tags[i].id, t.tags[i].name);
    }
  }

  // ---- Statements ----

  /** Filters of a listing; dates are whole days since the epoch. */
  datatype Filters = Filters(tag: Option<string>, q: Option<string>, dateFrom: Option<int>, dateTo: Option<int>)

  datatype Condition =
    | OwnerIs(user: int)
    | TagNameIs(name: string)
    | TextLike(pattern: string)
    | NotBefore(time: int)
    | NotAfter(time: int)
    | IdBelow(id: int)

  datatype Select = Select(joinTags: bool, where: seq<Condition>)

  const DAY := 86_400_000_000

  /** `datetime.combine(day, time.min)` and `datetime.combine(day, time.max)`. */
  function DayStart(day: int): int { day * DAY }
  function DayEnd(day: int): int { day * DAY + DAY - 1 }

  /** Python's truth of an optional string: absent and empty are both false. */
  predicate Given(s: Option<string>) {
    s.Some? && s.value != ""
  }

  function ApplyFilters(stmt: Select, user: int, f: Filters): Select {
    var joined := if Given(f.tag) then stmt.(joinTags := true) else stmt;
    var owned := And(joined, OwnerIs(user));
    var tagged := if Given(f.tag) then And(owned, TagNameIs(Clean(f.tag.value))) else owned;
    var searched := if Given(f.q) then And(tagged, TextLike(Like.SearchPattern(Clean(f.q.value)))) else tagged;
    var from_ := if f.dateFrom.Some? then And(searched, NotBefore(DayStart(f.dateFrom.value))) else searched;
    if f.dateTo.Some? then And(from_, NotAfter(DayEnd(f.dateTo.value))) else from_
  }

  function And(stmt: Select, c: Condition): Select {
    stmt.(where := stmt.where + [c])
  }

  // ---- Their meaning ----

  /** A row of the FROM clause: a bookmark, joined with one of its tags if the statement joins. */
  datatype Joined = Joined(bookmark: Bookmark, tag: Option<Tag>)

  function Alone(bs: seq<Bookmark>): seq<Joined> {
    seq(|bs|, i requires 0 <= i < |bs| => Joined(bs[i], None))
  }

  /** `bookmarks JOIN bookmark_tags JOIN tags`. */
  function JoinAll(bs: seq<Bookmark>, t: Tables): seq<Joined> {
    if bs == [] then [] else JoinLinks(bs[0], t.links, t.tags) + JoinAll(bs[1..], t)
  }

  function JoinLinks(b: Bookmark, links: seq<Link>, tags: seq<Tag>): seq<Joined> {
    if links == [] then []
    else (if links[0].bookmark == b.id then JoinTags(b, links[0].tag, tags) else []) + JoinLinks(b, links[1..], tags)
  }

  function JoinTags(b: Bookmark, id: int, tags: seq<Tag>): seq<Joined> {
    if tags == [] then []
    else (if tags[0].id == id then [Joined(b, Some(tags[0]))] else []) + JoinTags(b, id, tags[1..])
  }

  function LowerColumn(c: Option<string>): Option<string> {
    if c.None? then None else Some(Lower(c.value))
  }

  /** The WHERE clause keeps a row only if the condition is True; Unknown is not enough. */
  predicate Holds(c: Condition, r: Joined) {
    match c
    case OwnerIs(user) => r.bookmark.owner == user
    case TagNameIs(name) => r.tag.Some? && r.tag.value.name == name
    case TextLike(p) =>
      Like.Parse(p).Some?
      && Like.Or(Like.Like(Some(Lower(r.bookmark.title)), p), Like.Like(LowerColumn(r.bookmark.description), p)).True?
    case NotBefore(time) => r.bookmark.createdAt >= time
    case NotAfter(time) => r.bookmark.createdAt <= time
    case IdBelow(id) => r.bookmark.id < id
  }

  predicate HoldsAll(cs: seq<Condition>, r: Joined) {
    forall i :: 0 <= i < |cs| ==> Holds(cs[i], r)
  }

  function Where(rows: seq<Joined>, cs: seq<Condition>): seq<Joined> {
    if rows == [] then [] else (if HoldsAll(cs, rows[0]) then [rows[0]] else []) + Where(rows[1..], cs)
  }

  /** The bookmark column of each row kept, duplicates included. */
  function Project(rows: seq<Joined>): seq<Bookmark> {
    seq(|rows|, i requires 0 <= i < |rows| => rows[i].bookmark)
  }

  function Rows(stmt: Select, t: Tables): seq<Bookmark> {
    Project(Where(if stmt.joinTags then JoinAll(t.bookmarks, t) else Alone(t.bookmarks), stmt.where))
  }

  // ---- The plain specification ----

  predicate Carries(b: Bookmark, t: Tables, name: string) {
    exists l, g :: l in t.links && g in t.tags && l.bookmark == b.id && l.tag == g.id && g.name == name
  }

  predicate Mentions(b: Bookmark, term: string) {
    Contains(Lower(b.title), term) || (b.description.Some? && Contains(Lower(b.description.value), term))
  }

  /** The day a bookmark was created on. */
  function Day(b: Bookmark): int {
    b.createdAt / DAY
  }

  predicate Selected(b: Bookmark, t: Tables, user: int, f: Filters) {
    && b.owner == user
    && (Given(f.tag) ==> Carries(b, t, Clean(f.tag.value)))
    && (Given(f.q) ==> Mentions(b, Clean(f.q.value)))
    && (f.dateFrom.Some? ==> f.dateFrom.value <= Day(b))
    && (f.dateTo.Some? ==> Day(b) <= f.dateTo.value)
  }

  /** The same in full: an absent or empty tag or term asks for nothing, both are compared trimmed and
      lower-cased, and the dates bound the creation time by whole days of 86,400 seconds. */
  lemma SelectedExactly(b: Bookmark, t: Tables, user: int, f: Filters)
    ensures
      Selected(b, t, user, f) <==>
      && b.owner == user
      && (f.tag.Some? && f.tag.value != "" ==>
            exists l, g :: l in t.links && g in t.tags && l.bookmark == b.id && l.tag == g.id
                           && g.name == Lower(Strip(f.tag.value)))
      && (f.q.Some? && f.q.value != "" ==>
            var term := Lower(Strip(f.q.value));
            || Contains(Lower(b.title), term)
            || (b.description.Some? && Contains(Lower(b.description.value), term)))
      && (f.dateFrom.Some? ==> f.dateFrom.value * 86_400_000_000 <= b.createdAt)
      && (f.dateTo.Some? ==> b.createdAt < (f.dateTo.value + 1) * 86_400_000_000)
  {
    if f.dateFrom.Some? { DayBounds(b, f.dateFrom.value); }
    if f.dateTo.Some? { DayBounds(b, f.dateTo.value); }
  }

  /** Selected, and below the cursor if there is one. */
  predicate Wanted(b: Bookmark, t: Tables, user: int, f: Filters, below: Option<int>) {
    Selected(b, t, user, f) && (below.Some? ==> b.id < below.value)
  }

  function Filter(bs: seq<Bookmark>, t: Tables, user: int, f: Filters, below: Option<int>): seq<Bookmark> {
    if bs == [] then []
    else (if Wanted(bs[0], t, user, f, below) then [bs[0]] else []) + Filter(bs[1..], t, user, f, below)
  }

  /** The bookmarks a listing is about, each once. */
  function Matching(t: Tables, user: int, f: Filters, below: Option<int>): seq<Bookmark> {
    Filter(t.bookmarks, t, user, f, below)
  }

  lemma {:induction false} FilterExact(bs: seq<Bookmark>, t: Tables, user: int, f: Filters, below: Option<int>)
    ensures forall b :: b in Filter(bs, t, user, f, below) <==> b in bs && Wanted(b, t, user, f, below)
    ensures Distinct(bs) ==> Distinct(Filter(bs, t, user, f, below))
  {
    if bs != [] {
      FilterExact(bs[1..], t, user, f, below);
      assert bs == [bs[0]] + bs[1..];
    }
  }

  // ---- The statement means the specification ----

  lemma {:induction false} WhereConcat(a: seq<Joined>, b: seq<Joined>, cs: seq<Condition>)
    ensures Where(a + b, cs) == Where(a, cs) + Where(b, cs)
  {
    if a == [] {
      assert a + b == b;
    } else {
      assert (a + b)[0] == a[0] && (a + b)[1..] == a[1..] + b;
      WhereConcat(a[1..], b, cs);
      Associative(if HoldsAll(cs, a[0]) then [a[0]] else [], Where(a[1..], cs), Where(b, cs));
    }
  }

  /** The statement behind `count`, `list_offset` and, with a cursor, `list_keyset`. */
  function Statement(user: int, f: Filters, below: Option<int>): Select {
    var stmt := ApplyFilters(Select(false, []), user, f);
    if below.Some? then And(stmt, IdBelow(below.value)) else stmt
  }

  /** What the conditions say of a row's bookmark, its joined tag aside. */
  predicate WantedButTag(b: Bookmark, user: int, f: Filters, below: Option<int>) {
    && b.owner == user
    && (below.Some? ==> b.id < below.value)
    && (Given(f.q) ==> Mentions(b, Clean(f.q.value)))
    && (f.dateFrom.Some? ==> f.dateFrom.value <= Day(b))
    && (f.dateTo.Some? ==> Day(b) <= f.dateTo.value)
  }

  lemma HoldsAnd(cs: seq<Condition>, c: Condition, r: Joined)
    ensures HoldsAll(cs + [c], r) <==> HoldsAll(cs, r) && Holds(c, r)
  {
    if HoldsAll(cs + [c], r) {
      forall i | 0 <= i < |cs| ensures Holds(cs[i], r) { assert (cs + [c])[i] == cs[i]; }
      assert (cs + [c])[|cs|] == c;
    }
  }

  lemma DayBounds(b: Bookmark, day: int)
    ensures b.createdAt >= DayStart(day) <==> day <= Day(b)
    ensures b.createdAt <= DayEnd(day) <==> Day(b) <= day
  {
  }

  lemma SearchMeans(r: Joined, term: string)
    ensures Holds(TextLike(Like.SearchPattern(term)), r) <==> Mentions(r.bookmark, term)
  {
    Like.SearchEitherColumn(Lower(r.bookmark.title), LowerColumn(r.bookmark.description), term);
  }

  lemma OptionalMeans(cs: seq<Condition>, given: bool, c: Condition, r: Joined)
    ensures HoldsAll(if given then cs + [c] else cs, r) <==> HoldsAll(cs, r) && (given ==> Holds(c, r))
  {
    HoldsAnd(cs, c, r);
  }

  function SearchCondition(f: Filters): Condition {
    TextLike(Like.SearchPattern(if f.q.Some? then Clean(f.q.value) else ""))
  }

  function DateOr0(d: Option<int>): int {
    if d.Some? then d.value else 0
  }

  function TagOrEmpty(f: Filters): string {
    if f.tag.Some? then Clean(f.tag.value) else ""
  }

  /** The conditions the builder accumulates, one by one. */
  lemma StatementHolds(user: int, f: Filters, below: Option<int>, r: Joined)
    ensures
      HoldsAll(Statement(user, f, below).where, r) <==>
      && Holds(OwnerIs(user), r)
      && (Given(f.tag) ==> Holds(TagNameIs(TagOrEmpty(f)), r))
      && (Given(f.q) ==> Holds(SearchCondition(f), r))
      && (f.dateFrom.Some? ==> Holds(NotBefore(DayStart(DateOr0(f.dateFrom))), r))
      && (f.dateTo.Some? ==> Holds(NotAfter(DayEnd(DateOr0(f.dateTo))), r))
      && (below.Some? ==> Holds(IdBelow(DateOr0(below)), r))
    ensures Statement(user, f, below).joinTags == Given(f.tag)
  {
    var tag, q := TagNameIs(TagOrEmpty(f)), SearchCondition(f);
    var from_, to_ := NotBefore(DayStart(DateOr0(f.dateFrom))), NotAfter(DayEnd(DateOr0(f.dateTo)));
    var s0 := [] + [OwnerIs(user)];
    var s1 := if Given(f.tag) then s0 + [tag] else s0;
    var s2 := if Given(f.q) then s1 + [q] else s1;
    var s3 := if f.dateFrom.Some? then s2 + [from_] else s2;
    var s4 := if f.dateTo.Some? then s3 + [to_] else s3;
    HoldsAnd([], OwnerIs(user), r);
    OptionalMeans(s0, Given(f.tag), tag, r);
    OptionalMeans(s1, Given(f.q), q, r);
    OptionalMeans(s2, f.dateFrom.Some?, from_, r);
    OptionalMeans(s3, f.dateTo.Some?, to_, r);
    OptionalMeans(s4, below.Some?, IdBelow(DateOr0(below)), r);
    assert ApplyFilters(Select(false, []), user, f).where == s4;
  }

  lemma ConditionsMean(user: int, f: Filters, below: Option<int>, r: Joined)
    ensures
      HoldsAll(Statement(user, f, below).where, r) <==>
      && WantedButTag(r.bookmark, user, f, below)
      && (Given(f.tag) ==> r.tag.Some? && r.tag.value.name == Clean(f.tag.value))
    ensures Statement(user, f, below).joinTags == Given(f.tag)
  {
    StatementHolds(user, f, below, r);
    SearchMeans(r, if f.q.Some? then Clean(f.q.value) else "");
    DayBounds(r.bookmark, DateOr0(f.dateFrom));
    DayBounds(r.bookmark, DateOr0(f.dateTo));
  }

  // ---- The join repeats nothing ----

  ghost predicate TagsKeyed(tags: seq<Tag>) {
    forall i, j :: 0 <= i < j < |tags| ==> tags[i].id != tags[j].id && tags[i].name != tags[j].name
  }

  /** On rows of this bookmark the conditions come down to a fact about it and the name of the tag. */
  ghost predicate Decides(cs: seq<Condition>, b: Bookmark, keep: bool, name: string) {
    forall g :: HoldsAll(cs, Joined(b, Some(g))) <==> keep && g.name == name
  }

  predicate TagNamed(tags: seq<Tag>, id: int, name: string) {
    Tag(id, name) in tags
  }

  lemma {:induction false} JoinTagsWhere(
    b: Bookmark, id: int, tags: seq<Tag>, cs: seq<Condition>, keep: bool, name: string)
    requires TagsKeyed(tags) && Decides(cs, b, keep, name)
    ensures
      Where(JoinTags(b, id, tags), cs) ==
      if keep && TagNamed(tags, id, name) then [Joined(b, Some(Tag(id, name)))] else []
  {
    if tags != [] {
      var g, rest := tags[0], tags[1..];
      JoinTagsWhere(b, id, rest, cs, keep, name);
      assert tags == [g] + rest;
      if g.id == id {
        var head := [Joined(b, Some(g))];
        WhereConcat(head, JoinTags(b, id, rest), cs);
        assert Where(head, cs) == if keep && g.name == name then head else [] by { assert Where(head[1..], cs) == []; }
        assert forall i :: 0 <= i < |rest| ==> rest[i] == tags[i + 1] && rest[i].id != id;
        assert g == Tag(id, g.name);
      } else {
        assert JoinTags(b, id, tags) == JoinTags(b, id, rest);
        assert TagNamed(tags, id, name) <==> TagNamed(rest, id, name);
      }
    }
  }

  predicate LinkedTo(b: Bookmark, links: seq<Link>, tags: seq<Tag>, name: string) {
    exists l :: l in links && l.bookmark == b.id && TagNamed(tags, l.tag, name)
  }

  lemma LinkedSplit(b: Bookmark, links: seq<Link>, tags: seq<Tag>, name: string)
    requires links != []
    ensures LinkedTo(b, links, tags, name) <==>
            (links[0].bookmark == b.id && TagNamed(tags, links[0].tag, name)) || LinkedTo(b, links[1..], tags, name)
  {
    assert links == [links[0]] + links[1..];
  }

  lemma OneTagPerName(tags: seq<Tag>, i: int, j: int, name: string)
    requires TagsKeyed(tags) && TagNamed(tags, i, name) && TagNamed(tags, j, name)
    ensures i == j
  {
    var x :| 0 <= x < |tags| && tags[x] == Tag(i, name);
    var y :| 0 <= y < |tags| && tags[y] == Tag(j, name);
  }

  /** With unique links and unique names, joining a bookmark and asking for one tag name yields the
      bookmark once if it carries the tag, else not at all. */
  lemma {:induction false} JoinLinksWhere(
    b: Bookmark, links: seq<Link>, tags: seq<Tag>, cs: seq<Condition>, keep: bool, name: string)
    requires Distinct(links) && TagsKeyed(tags) && Decides(cs, b, keep, name)
    ensures Project(Where(JoinLinks(b, links, tags), cs)) == if keep && LinkedTo(b, links, tags, name) then [b] else []
  {
    if links != [] {
      var l, rest := links[0], links[1..];
      JoinLinksWhere(b, rest, tags, cs, keep, name);
      LinkedSplit(b, links, tags, name);
      if l.bookmark != b.id {
        assert JoinLinks(b, links, tags) == JoinLinks(b, rest, tags);
      } else {
        var head := JoinTags(b, l.tag, tags);
        JoinTagsWhere(b, l.tag, tags, cs, keep, name);
        WhereConcat(head, JoinLinks(b, rest, tags), cs);
        if TagNamed(tags, l.tag, name) && LinkedTo(b, rest, tags, name) {
          var l' :| l' in rest && l'.bookmark == b.id && TagNamed(tags, l'.tag, name);
          OneTagPerName(tags, l.tag, l'.tag, name);
          assert false;
        }
        ProjectConcat(Where(head, cs), Where(JoinLinks(b, rest, tags), cs));
      }
    }
  }

  lemma LinkedIsCarries(b: Bookmark, t: Tables, name: string)
    ensures LinkedTo(b, t.links, t.tags, name) <==> Carries(b, t, name)
  {
    if l, g :| l in t.links && g in t.tags && l.bookmark == b.id && l.tag == g.id && g.name == name {
      assert g == Tag(l.tag, name);
    }
    if l :| l in t.links && l.bookmark == b.id && TagNamed(t.tags, l.tag, name) {
      var g := Tag(l.tag, name);
      assert l in t.links && g in t.tags && l.bookmark == b.id && l.tag == g.id && g.name == name;
    }
  }

  lemma ProjectConcat(a: seq<Joined>, b: seq<Joined>)
    ensures Project(a + b) == Project(a) + Project(b)
  {
  }

  lemma {:induction false} JoinAllWhere(bs: seq<Bookmark>, t: Tables, user: int, f: Filters, below: Option<int>)
    requires WellKeyed(t) && Given(f.tag)
    ensures Project(Where(JoinAll(bs, t), Statement(user, f, below).where)) == Filter(bs, t, user, f, below)
  {
    if bs != [] {
      var b, rest, cs, name := bs[0], bs[1..], Statement(user, f, below).where, Clean(f.tag.value);
      JoinAllWhere(rest, t, user, f, below);
      WhereConcat(JoinLinks(b, t.links, t.tags), JoinAll(rest, t), cs);
      ProjectConcat(Where(JoinLinks(b, t.links, t.tags), cs), Where(JoinAll(rest, t), cs));
      var keep := WantedButTag(b, user, f, below);
      forall g ensures HoldsAll(cs, Joined(b, Some(g))) <==> keep && g.name == name {
        ConditionsMean(user, f, below, Joined(b, Some(g)));
      }
      JoinLinksWhere(b, t.links, t.tags, cs, keep, name);
      LinkedIsCarries(b, t, name);
    }
  }

  lemma {:induction false} AloneWhere(bs: seq<Bookmark>, t: Tables, user: int, f: Filters, below: Option<int>)
    requires !Given(f.tag)
    ensures Project(Where(Alone(bs), Statement(user, f, below).where)) == Filter(bs, t, user, f, below)
  {
    if bs != [] {
      AloneWhere(bs[1..], t, user, f, below);
      ConditionsMean(user, f, below, Joined(bs[0], None));
      AloneStep(bs, Statement(user, f, below).where);
    }
  }

  lemma AloneStep(bs: seq<Bookmark>, cs: seq<Condition>)
    requires bs != []
    ensures Project(Where(Alone(bs), cs)) ==
            (if HoldsAll(cs, Joined(bs[0], None)) then [bs[0]] else []) + Project(Where(Alone(bs[1..]), cs))
  {
    var r := Joined(bs[0], None);
    assert Alone(bs)[0] == r && Alone(bs)[1..] == Alone(bs[1..]);
    ProjectConcat(if HoldsAll(cs, r) then [r] else [], Where(Alone(bs[1..]), cs));
  }

  /** The SQL the repository builds selects exactly the specified bookmarks, each once: join, escaped
      LIKE, null descriptions, day bounds and all. */
  lemma StatementMeans(t: Tables, user: int, f: Filters, below: Option<int>)
    requires WellKeyed(t)
    ensures Rows(Statement(user, f, below), t) == Matching(t, user, f, below)
    ensures Distinct(Matching(t, user, f, below))
  {
    if t.bookmarks != [] {
      ConditionsMean(user, f, below, Joined(t.bookmarks[0], None));
    }
    assert Statement(user, f, below).joinTags == Given(f.tag) by {
      ConditionsMean(user, f, below, Joined(Bookmark(0, 0, "", "", None, 0, 0, 0), None));
    }
    if Given(f.tag) {
      JoinAllWhere(t.bookmarks, t, user, f, below);
    } else {
      AloneWhere(t.bookmarks, t, user, f, below);
    }
    FilterExact(t.bookmarks, t, user, f, below);
  }

  // ---- count, list_offset, list_keyset ----

  datatype SortField = CreatedAt | UpdatedAt | Title | Id

  datatype Order = Order(field: SortField, descending: bool)

  /** `sort.lstrip("-")`. */
  function DropDashes(s: string): string {
    if s != "" && s[0] == '-' then DropDashes(s[1..]) else s
  }

  function FieldNamed(name: string): SortField {
    if name == "updated_at" then UpdatedAt
    else if name == "title" then Title
    else if name == "id" then Id
    else CreatedAt
  }

  function ParseSort(sort: string): Order {
    Order(FieldNamed(DropDashes(sort)), sort != "" && sort[0] == '-')
  }

  /** The sort column as an ordered key; the database's collation ranks titles. */
  function Key(field: SortField, collation: string -> real, b: Bookmark): real {
    match field
    case CreatedAt => b.createdAt as real
    case UpdatedAt => b.updatedAt as real
    case Title => collation(b.title)
    case Id => b.id as real
  }

  /** `ORDER BY column ASC|DESC, id DESC`. */
  predicate Precedes(o: Order, collation: string -> real, a: Bookmark, b: Bookmark) {
    var x, y := Key(o.field, collation, a), Key(o.field, collation, b);
    if x == y then a.id > b.id else if o.descending then x > y else x < y
  }

  function OrderBy(o: Order, collation: string -> real): (Bookmark, Bookmark) -> bool {
    (a, b) => Precedes(o, collation, a, b)
  }

  const NEWEST_ID_FIRST := Order(Id, true)

  function Window(s: seq<Bookmark>, offset: nat, limit: nat): seq<Bookmark> {
    var start := if offset < |s| then offset else |s|;
    s[start..][..if limit < |s| - start then limit else |s| - start]
  }

  /** SQLAlchemy's `.unique()`: later repetitions of a row are dropped. */
  function Unique(s: seq<Bookmark>): seq<Bookmark> {
    if s == [] then []
    else
      var front := Unique(s[..|s| - 1]);
      if s[|s| - 1] in front then front else front + [s[|s| - 1]]
  }

  /** `COUNT(DISTINCT bookmarks.id)`. */
  function Count(t: Tables, user: int, f: Filters): nat {
    |set b | b in Rows(Statement(user, f, None), t) :: b.id|
  }

  function ListOffset(
    t: Tables, user: int, f: Filters, collation: string -> real, sort: string, limit: nat, offset: nat): seq<Bookmark>
  {
    Unique(Window(Sort(OrderBy(ParseSort(sort), collation), Rows(Statement(user, f, None), t)), offset, limit))
  }

  function ListKeyset(
    t: Tables, user: int, f: Filters, collation: string -> real, cursor: int, limit: nat): seq<Bookmark>
  {
    Unique(Window(Sort(OrderBy(NEWEST_ID_FIRST, collation), Rows(Statement(user, f, Some(cursor)), t)), 0, limit))
  }

  // ---- Their specification ----

  /** Whatever the sort string, the ordering with its id tie-break is strict and total. */
  lemma OrderIsTotal(o: Order, collation: string -> real, bs: seq<Bookmark>)
    requires forall i, j :: 0 <= i < j < |bs| ==> bs[i].id != bs[j].id
    ensures StrictTotalOn(OrderBy(o, collation), Elements(bs))
  {
  }

  /** The sorted listing of a set of bookmarks. */
  function ListingOf(
    t: Tables, user: int, f: Filters, collation: string -> real, o: Order, below: Option<int>): seq<Bookmark>
  {
    Sort(OrderBy(o, collation), Matching(t, user, f, below))
  }

  lemma IdsDistinct(t: Tables, user: int, f: Filters, below: Option<int>)
    requires WellKeyed(t)
    ensures
      var m := Matching(t, user, f, below);
      forall i, j :: 0 <= i < j < |m| ==> m[i].id != m[j].id
  {
    var m := Matching(t, user, f, below);
    FilterExact(t.bookmarks, t, user, f, below);
    assert Distinct(t.bookmarks);
    forall i, j | 0 <= i < j < |m| ensures m[i].id != m[j].id {
      assert m[i] in t.bookmarks && m[j] in t.bookmarks;
      var x :| 0 <= x < |t.bookmarks| && t.bookmarks[x] == m[i];
      var y :| 0 <= y < |t.bookmarks| && t.bookmarks[y] == m[j];
      assert x != y;
    }
  }

  /** The listing is the one strictly ordered list of exactly the wanted bookmarks, and any other
      ordered arrangement of them the database might produce is the same list. */
  lemma ListingExact(t: Tables, user: int, f: Filters, collation: string -> real, o: Order, below: Option<int>)
    requires WellKeyed(t)
    ensures
      var r := ListingOf(t, user, f, collation, o, below);
      && (forall b :: b in r <==> b in t.bookmarks && Wanted(b, t, user, f, below))
      && (forall i, j :: 0 <= i < j < |r| ==> Precedes(o, collation, r[i], r[j]))
      && (forall i, j :: 0 <= i < j < |r| ==> r[i].id != r[j].id)
      && |r| == |Matching(t, user, f, below)|
  {
    var m, less := Matching(t, user, f, below), OrderBy(o, collation);
    var r := Sort(less, m);
    IdsDistinct(t, user, f, below);
    FilterExact(t.bookmarks, t, user, f, below);
    OrderIsTotal(o, collation, m);
    SortOrdered(less, m);
    BagFacts(r, m);
    SortDistinct(less, m);
    forall i, j | 0 <= i < j < |r| ensures Precedes(o, collation, r[i], r[j]) && r[i].id != r[j].id {
      assert r[i] in m && r[j] in m && r[i] != r[j];
      assert !less(r[j], r[i]);
      assert r[i] in Elements(m) && r[j] in Elements(m);
    }
  }

  lemma {:induction false} UniqueOfDistinct(s: seq<Bookmark>)
    requires Distinct(s)
    ensures Unique(s) == s
  {
    if s != [] {
      UniqueOfDistinct(s[..|s| - 1]);
      assert s == s[..|s| - 1] + [s[|s| - 1]];
    }
  }

  lemma WindowDistinct(s: seq<Bookmark>, offset: nat, limit: nat)
    requires Distinct(s)
    ensures Distinct(Window(s, offset, limit))
  {
  }

  /** `list_offset` is a window of the specified listing: LIMIT and OFFSET count bookmarks. */
  lemma ListOffsetMeans(
    t: Tables, user: int, f: Filters, collation: string -> real, sort: string, limit: nat, offset: nat)
    requires WellKeyed(t)
    ensures ListOffset(t, user, f, collation, sort, limit, offset) ==
            Window(ListingOf(t, user, f, collation, ParseSort(sort), None), offset, limit)
  {
    var r := ListingOf(t, user, f, collation, ParseSort(sort), None);
    StatementMeans(t, user, f, None);
    SortDistinct(OrderBy(ParseSort(sort), collation), Matching(t, user, f, None));
    WindowDistinct(r, offset, limit);
    UniqueOfDistinct(Window(r, offset, limit));
  }

  lemma ListKeysetMeans(t: Tables, user: int, f: Filters, collation: string -> real, cursor: int, limit: nat)
    requires WellKeyed(t)
    ensures ListKeyset(t, user, f, collation, cursor, limit) ==
            Window(ListingOf(t, user, f, collation, NEWEST_ID_FIRST, Some(cursor)), 0, limit)
  {
    var r := ListingOf(t, user, f, collation, NEWEST_ID_FIRST, Some(cursor));
    StatementMeans(t, user, f, Some(cursor));
    SortDistinct(OrderBy(NEWEST_ID_FIRST, collation), Matching(t, user, f, Some(cursor)));
    WindowDistinct(r, 0, limit);
    UniqueOfDistinct(Window(r, 0, limit));
  }

  /** `count` is the length of the unlimited listing, for every filter combination. */
  lemma CountMeans(t: Tables, user: int, f: Filters, collation: string -> real, o: Order)
    requires WellKeyed(t)
    ensures Count(t, user, f) == |ListingOf(t, user, f, collation, o, None)|
  {
    var m := Matching(t, user, f, None);
    StatementMeans(t, user, f, None);
    IdsDistinct(t, user, f, None);
    var ids := seq(|m|, i requires 0 <= i < |m| => m[i].id);
    assert (set b | b in m :: b.id) == Elements(ids) by {
      forall x ensures x in (set b | b in m :: b.id) <==> x in ids {
        if b :| b in m && b.id == x {
          var i :| 0 <= i < |m| && m[i] == b;
          assert ids[i] == x;
        }
        if x in ids {
          var i :| 0 <= i < |ids| && ids[i] == x;
          assert m[i] in m;
        }
      }
    }
    DistinctCardinality(ids);
    BagFacts(Sort(OrderBy(o, collation), m), m);
  }

  /** The listing depends on the rows, not on the order in which the tables are scanned. */
  lemma ListingIgnoresScanOrder(
    t: Tables, t': Tables, user: int, f: Filters, collation: string -> real, o: Order, below: Option<int>)
    requires WellKeyed(t) && WellKeyed(t')
    requires forall b ::
               b in t.bookmarks && Wanted(b, t, user, f, below) <==> b in t'.bookmarks && Wanted(b, t', user, f, below)
    ensures ListingOf(t, user, f, collation, o, below) == ListingOf(t', user, f, collation, o, below)
  {
    var m, m' := Matching(t, user, f, below), Matching(t', user, f, below);
    FilterExact(t.bookmarks, t, user, f, below);
    FilterExact(t'.bookmarks, t', user, f, below);
    assert Distinct(t.bookmarks) && Distinct(t'.bookmarks);
    SameElementsSameBag(m, m');
    IdsDistinct(t, user, f, below);
    OrderIsTotal(o, collation, m);
    SortPermutation(OrderBy(o, collation), m, m');
  }
}
