/** The bookmark repository and service as objects: one request handled from load to commit
    (app/repositories/bookmark/repository.py, app/services/bookmark/service.py). */
module BookmarkService {
  import opened Common
  import opened Text
  import opened Store
  import opened TagNormalizer
  import opened Requests
  import opened Serializability
  import opened TagRepository
  import ETag

  /** A mapped bookmark: its current attributes, and the state it was loaded with. */
  class OrmBookmark {
    const id: int
    const owner: int
    const createdAt: int
    var url: string
    var title: string
    var description: Option<string>
    var updatedAt: int
    var version: nat
    var tags: set<int>
    var loaded: Loaded

    constructor (loaded: Loaded)
      ensures Row() == loaded.row && tags == loaded.tags && this.loaded == loaded
    {
      var row := loaded.row;
      id, owner, createdAt := row.id, row.owner, row.createdAt;
      url, title, description := row.url, row.title, row.description;
      updatedAt, version := row.updatedAt, row.version;
      tags := loaded.tags;
      this.loaded := loaded;
    }

    function Row(): Bookmark
      reads this
    {
      Bookmark(id, owner, url, title, description, createdAt, updatedAt, version)
    }

    /** The object still is the row it was loaded from, but for the editable columns. */
    ghost predicate IsEditOf(row: Bookmark)
      reads this
    {
      Row() == row.(url := url, title := title, description := description)
    }
  }

  class BookmarkRepository {
    const session: Session

    constructor (session: Session)
      ensures this.session == session
    {
      this.session := session;
    }

    method GetOwned(user: int, id: int) returns (b: OrmBookmark?)
      ensures b == null <==> Owned(session.server.db, user, id).None?
      ensures b != null ==> fresh(b)
      ensures b != null ==> b.loaded == Loaded(session.server.db.bookmarks[id], LinksOf(session.server.db, id))
      ensures b != null ==> b.Row() == b.loaded.row && b.tags == b.loaded.tags
    {
      var found := Owned(session.server.db, user, id);
      if found.None? {
        return null;
      }
      b := new OrmBookmark(Loaded(found.value, LinksOf(session.server.db, id)));
    }

    /** Commit an edited bookmark, however long ago it was loaded. A lost race rolls back and reports
        a stale version; a won one leaves exactly the conditional transaction's tables. */
    method Update(b: OrmBookmark, now: int) returns (stale: bool)
      requires b.IsEditOf(b.loaded.row)
      modifies session, session.server`db, b
      ensures session.pending == map[]
      ensures
        var after := CommitUpdate(
          old(session.server.db), old(b.loaded), old(b.Row()), old(b.tags), old(session.pending), now);
        && stale == after.None?
        && session.server.db == (if stale then old(session.server.db) else after.value)
        && (!stale ==>
              && b.Row() == session.server.db.bookmarks[b.id].(id := b.id, owner := b.owner, createdAt := b.createdAt)
              && b.tags == LinksOf(session.server.db, b.id))
    {
      var db := session.server.db;
      b.updatedAt := now;
      var after := CommitUpdate(db, b.loaded, b.Row(), b.tags, session.pending, now);
      session.pending := map[];
      if after.None? {
        return true;
      }
      session.server.db := after.value;
      // Refresh: every column is read back.
      var row := after.value.bookmarks[b.id];
      b.url, b.title, b.description := row.url, row.title, row.description;
      b.updatedAt, b.version := row.updatedAt, row.version;
      b.loaded := Loaded(row, LinksOf(after.value, b.id));
      b.tags := b.loaded.tags;
      return false;
    }

    /** Delete a bookmark, however long ago it was loaded. The race is lost exactly when the row is
        gone or newer, and then nothing changed; otherwise clients see all bookmarks but this one. */
    method Delete(b: OrmBookmark) returns (stale: bool)
      modifies session, session.server`db
      ensures session.pending == map[]
      ensures
        var after := CommitDelete(old(session.server.db), b.loaded);
        && stale == after.None?
        && session.server.db == (if stale then old(session.server.db) else after.value)
      ensures
        var db, db' := old(session.server.db), session.server.db;
        Valid(db) && LoadFits(db, b.loaded) ==>
          && (stale <==> !Current(db, b.loaded))
          && Valid(db') && db'.tags == db.tags
          && View(db') == if stale then View(db) else View(db) - {b.loaded.row.id}
    {
      ghost var before := session.server.db;
      if Valid(before) && LoadFits(before, b.loaded) && Current(before, b.loaded) {
        DeleteEffect(before, b.loaded);
        ViewAfter(before, CommitDelete(before, b.loaded).value, b.loaded.row.id);
      }
      var after := CommitDelete(session.server.db, b.loaded);
      session.pending := map[];
      if after.None? {
        return true;
      }
      session.server.db := after.value;
      return false;
    }

    /** Insert, commit and read back a new bookmark. */
    method Add(request: Request, tags: set<int>, now: int) returns (added: Loaded)
      requires request.Create?
      modifies session, session.server`db
      ensures session.pending == map[]
      ensures
        var db, id := old(session.server.db), old(session.server.db.nextBookmark);
        && added.row == NewRow(id, request, now)
        && session.server.db == CommitCreate(DrawId(db, id), added.row, tags, old(session.pending))
        && added.tags == LinksOf(session.server.db, id)
    {
      var id := session.server.db.nextBookmark;
      session.server.db := DrawId(session.server.db, id);
      session.server.db := CommitCreate(session.server.db, NewRow(id, request, now), tags, session.pending);
      session.pending := map[];
      added := Loaded(session.server.db.bookmarks[id], LinksOf(session.server.db, id));
    }
  }

  /** One tag id per name, in order. */
  ghost predicate TagsFor(tags: map<int, string>, names: seq<string>, ids: seq<int>) {
    |ids| == |names| && forall i :: 0 <= i < |names| ==> ids[i] in tags && tags[ids[i]] == names[i]
  }

  /** What resolving names hands to a commit. */
  lemma ResolvedNames(
    db: Database, pending: map<int, string>, names: seq<string>, ids: seq<int>, db': Database, id: int)
    requires TagsFor(db.tags + pending, names, ids)
    requires Valid(db') && db'.tags == db.tags + pending && LinksOf(db', id) == Elements(ids)
    ensures NamesOf(db', id) == Elements(names)
  {
    NamesAreOfLinks(db', id);
    forall n ensures n in NamesOf(db', id) <==> n in names {
      if i :| 0 <= i < |names| && names[i] == n { assert ids[i] in Elements(ids); }
      if t :| t in LinksOf(db', id) && db'.tags[t] == n { var i :| 0 <= i < |ids| && ids[i] == t; }
    }
  }

  /** The tables and the answer are those of the serial specification. */
  ghost predicate Answers(db: Database, db': Database, e: Entry, r: Response)
    requires Valid(db) && Valid(db')
  {
    var served := Serve(View(db), e);
    && View(db') == served.shelf
    && (served.refusal.Some? ==> r == served.refusal.value)
    && (served.refusal.None? && e.request.Delete? ==> r == Deleted)
    && (served.refusal.None? && !e.request.Delete? ==>
          e.id in db'.bookmarks && r == Shown(Loaded(db'.bookmarks[e.id], LinksOf(db', e.id))))
  }

  class BookmarkService {
    const bookmarks: BookmarkRepository
    const tags: TagRepository

    constructor (bookmarks: BookmarkRepository, tags: TagRepository)
      requires bookmarks.session == tags.session
      ensures this.bookmarks == bookmarks && this.tags == tags
    {
      this.bookmarks := bookmarks;
      this.tags := tags;
    }

    ghost predicate Ready()
      reads bookmarks.session, bookmarks.session.server
    {
      bookmarks.session == tags.session && Valid(bookmarks.session.server.db) && bookmarks.session.pending == map[]
    }

    /** What a method did, from its first state to the present one. */
    twostate predicate Serves(e: Entry, r: Response)
      requires old(Ready()) && Ready()
      reads bookmarks.session, bookmarks.session.server
    {
      Answers(old(bookmarks.session.server.db), bookmarks.session.server.db, e, r)
    }

    method Get(user: int, id: int) returns (r: Response)
      requires Ready()
      ensures Ready() && Serves(Entry(0, Request.Get(user, id), id, 0), r)
    {
      var b := bookmarks.GetOwned(user, id);
      return if b == null then NotFound else Shown(Loaded(b.Row(), b.tags));
    }

    method Create(user: int, url: string, title: string, description: Option<string>, raw: seq<string>, now: int)
      returns (r: Response)
      requires Ready()
      modifies bookmarks.session, bookmarks.session.server`db
      ensures Ready()
      ensures
        var e := Entry(
          0, Request.Create(user, url, title, description, raw), old(bookmarks.session.server.db.nextBookmark), now);
        Serves(e, r)
      ensures
        r.Shown? ==>
          var id, db := old(bookmarks.session.server.db.nextBookmark), bookmarks.session.server.db;
          && WrittenNew(r.load.row, Request.Create(user, url, title, description, raw), id, now)
          && r.load.tags == LinksOf(db, id) && NamesOf(db, id) == CleanNames(raw)
    {
      ghost var before := bookmarks.session.server.db;
      var resolved := ResolveTags(raw);
      if resolved.None? {
        return Invalid;
      }
      var ids := resolved.value;
      ghost var mid, pending := bookmarks.session.server.db, bookmarks.session.pending;
      InsertCommits(before, mid, Request.Create(user, url, title, description, raw), ids, pending, now);
      var added := bookmarks.Add(Request.Create(user, url, title, description, raw), Elements(ids), now);
      ghost var e := Entry(0, Request.Create(user, url, title, description, raw), before.nextBookmark, now);
      MutationShown(before, bookmarks.session.server.db, e, added);
      return Shown(added);
    }

    /** `_check_precondition`; what its answers mean is PreconditionMeans. */
    method CheckHeader(b: OrmBookmark, ifMatch: Option<string>) returns (refusal: Option<Response>)
      ensures refusal == CheckPrecondition(b.version, ifMatch)
    {
      var current := ETag.MakeETag(b.version);
      if ifMatch.None? || Strip(ifMatch.value) == "" {
        return Some(PreconditionRequired(current));
      }
      var matched := ETag.MatchHeader(ifMatch.value, b.version);
      if !matched {
        return Some(PreconditionFailed(Some(current)));
      }
      return None;
    }

    method CurrentETag(user: int, id: int) returns (etag: Option<string>)
      ensures
        var current := Owned(bookmarks.session.server.db, user, id);
        etag == if current.None? then None else Some(ETag.MakeETag(current.value.version))
    {
      var b := bookmarks.GetOwned(user, id);
      return if b == null then None else Some(ETag.MakeETag(b.version));
    }

    /** `get_or_create(normalize(tags))`, or the normaliser's error. */
    method ResolveTags(raw: seq<string>) returns (ids: Option<seq<int>>)
      requires Ready()
      modifies bookmarks.session, bookmarks.session.server`db
      ensures ids.Some? <==> Normalize(raw).Names?
      ensures
        ids.None? ==>
          bookmarks.session.pending == map[] && bookmarks.session.server.db == old(bookmarks.session.server.db)
      ensures
        var db, pending := bookmarks.session.server.db, bookmarks.session.pending;
        && Valid(db) && PendingFits(db, pending)
        && db == old(bookmarks.session.server.db).(nextTag := db.nextTag)
        && (ids.Some? ==> TagsFor(db.tags + pending, Normalize(raw).names, ids.value))
    {
      ghost var visible, next := bookmarks.session.Visible(), bookmarks.session.server.db.nextTag;
      var normal := NormalizeTags(Some(raw));
      if !normal.Names? {
        return None;
      }
      assert visible == bookmarks.session.server.db.tags;
      var found := tags.GetOrCreate(normal.names);
      ResolveExact(visible, next, normal.names);
      return Some(found);
    }

    method Assign(b: OrmBookmark, changes: Changes, newTags: Option<seq<int>>)
      modifies b
      ensures b.Row() == Edit(old(b.Row()), changes) && b.loaded == old(b.loaded)
      ensures b.tags == if newTags.Some? then Elements(newTags.value) else old(b.tags)
    {
      if changes.url.Some? {
        b.url := changes.url.value;
      }
      if changes.title.Some? {
        b.title := changes.title.value;
      }
      if changes.description.Some? {
        b.description := changes.description.value;
      }
      if newTags.Some? {
        b.tags := Elements(newTags.value);
      }
    }

    method Update(user: int, id: int, changes: Changes, ifMatch: Option<string>, now: int) returns (r: Response)
      requires Ready()
      modifies bookmarks.session, bookmarks.session.server`db
      ensures Ready()
      ensures Serves(Entry(0, Request.Update(user, id, changes, ifMatch), id, now), r)
      ensures
        r.Shown? ==>
          var before, db := old(bookmarks.session.server.db), bookmarks.session.server.db;
          && id in before.bookmarks && Rewritten(before.bookmarks[id], changes, r.load.row, now)
          && r.load.tags == LinksOf(db, id)
          && NamesOf(db, id) ==
               (if changes.tags.Some? then CleanNames(changes.tags.value) else NamesOf(before, id))
    {
      ghost var before := bookmarks.session.server.db;
      var b := bookmarks.GetOwned(user, id);
      if b == null {
        return NotFound;
      }
      var refusal := CheckHeader(b, ifMatch);
      if refusal.Some? {
        return refusal.value;
      }
      var newTags: Option<seq<int>> := None;
      if changes.tags.Some? {
        newTags := ResolveTags(changes.tags.value);
        if newTags.None? {
          return Invalid;
        }
      }
      ghost var load := b.loaded;
      Assign(b, changes, newTags);
      ghost var mid, pending := bookmarks.session.server.db, bookmarks.session.pending;
      UpdateAnswers(before, mid, load, Request.Update(user, id, changes, ifMatch), newTags, b.tags, pending, now);
      var stale := bookmarks.Update(b, now);
      if stale {
        var current := CurrentETag(user, id);
        return PreconditionFailed(current);
      }
      ghost var e := Entry(0, Request.Update(user, id, changes, ifMatch), id, now);
      MutationShown(before, bookmarks.session.server.db, e, Loaded(b.Row(), b.tags));
      return Shown(Loaded(b.Row(), b.tags));
    }

    method Delete(user: int, id: int, ifMatch: Option<string>) returns (r: Response)
      requires Ready()
      modifies bookmarks.session, bookmarks.session.server`db
      ensures Ready() && Serves(Entry(0, Request.Delete(user, id, ifMatch), id, 0), r)
    {
      ghost var before := bookmarks.session.server.db;
      var b := bookmarks.GetOwned(user, id);
      if b == null {
        return NotFound;
      }
      var refusal := CheckHeader(b, ifMatch);
      if refusal.Some? {
        return refusal.value;
      }
      LoadedNow(before, id);
      var stale := bookmarks.Delete(b);
      if stale {
        var current := CurrentETag(user, id);
        return PreconditionFailed(current);
      }
      return Deleted;
    }
  }

  /** A bookmark loaded from the present tables is a fitting load. */
  lemma LoadedNow(db: Database, id: int)
    requires Valid(db) && id in db.bookmarks
    ensures LoadFits(db, Loaded(db.bookmarks[id], LinksOf(db, id)))
  {
    NamesAreOfLinks(db, id);
  }

  lemma UpdateAnswers(
    before: Database, mid: Database, load: Loaded, request: Request, newTags: Option<seq<int>>, chosen: set<int>,
    pending: map<int, string>, now: int)
    requires Valid(before) && Valid(mid) && mid == before.(nextTag := mid.nextTag) && PendingFits(mid, pending)
    requires request.Update? && request.id in before.bookmarks
    requires load.row.id == request.id && load.row.owner == request.user
    requires load == Loaded(before.bookmarks[load.row.id], LinksOf(before, load.row.id))
    requires CheckPrecondition(load.row.version, request.ifMatch).None?
    requires newTags.Some? <==> request.changes.tags.Some?
    requires newTags.None? ==> pending == map[] && chosen == load.tags
    requires newTags.Some? ==>
               && Normalize(request.changes.tags.value).Names?
               && chosen == Elements(newTags.value)
               && TagsFor(mid.tags + pending, Normalize(request.changes.tags.value).names, newTags.value)
    ensures
      var after := CommitUpdate(mid, load, Edit(load.row, request.changes), chosen, pending, now);
      && after.Some? && Valid(after.value) && request.id in after.value.bookmarks
      && after.value.bookmarks[request.id].id == request.id
      && after.value.bookmarks[request.id].owner == load.row.owner
      && after.value.bookmarks[request.id].createdAt == load.row.createdAt
      && var shown := Loaded(after.value.bookmarks[request.id], LinksOf(after.value, request.id));
         Answers(before, after.value, Entry(0, request, request.id, now), Shown(shown))
  {
    UpdateCommits(before, mid, load, request.changes, newTags, chosen, pending, now);
    var after := CommitUpdate(mid, load, Edit(load.row, request.changes), chosen, pending, now).value;
    UpdateReplayed(before, after, request, now);
  }

  lemma UpdateReplayed(before: Database, after: Database, request: Request, now: int)
    requires Valid(before) && Valid(after) && request.Update? && request.id in before.bookmarks
    requires
      var row := before.bookmarks[request.id];
      && row.owner == request.user && CheckPrecondition(row.version, request.ifMatch).None?
      && (request.changes.tags.Some? ==> Normalize(request.changes.tags.value).Names?)
      && View(after) == View(before)[request.id := Item(
           Edit(row, request.changes).(updatedAt := now, version := row.version + 1),
           if request.changes.tags.Some? then Elements(Normalize(request.changes.tags.value).names)
           else NamesOf(before, request.id))]
    ensures Serve(View(before), Entry(0, request, request.id, now)) == Served(View(after), None)
  {
    assert View(before)[request.id] == Item(before.bookmarks[request.id], NamesOf(before, request.id));
  }

  /** What a mutation is answered with, column by column. */
  lemma MutationShown(before: Database, after: Database, e: Entry, load: Loaded)
    requires Valid(before) && Valid(after) && Answers(before, after, e, Shown(load))
    requires e.request.Create? || (e.request.Update? && e.id == e.request.id)
    ensures load.tags == LinksOf(after, e.id)
    ensures e.request.Create? ==>
              WrittenNew(load.row, e.request, e.id, e.now) && NamesOf(after, e.id) == CleanNames(e.request.tags)
    ensures e.request.Update? ==>
              && e.id in before.bookmarks && Rewritten(before.bookmarks[e.id], e.request.changes, load.row, e.now)
              && NamesOf(after, e.id) ==
                   (if e.request.changes.tags.Some? then CleanNames(e.request.changes.tags.value)
                    else NamesOf(before, e.id))
  {
    assert Serve(View(before), e).refusal.None?;
    ServeMeans(View(before), e);
    assert View(after)[e.id] == Item(after.bookmarks[e.id], NamesOf(after, e.id));
  }

  /** The insert's transaction, seen from the tables the request started on. */
  lemma InsertCommits(
    before: Database, mid: Database, request: Request, ids: seq<int>, pending: map<int, string>, now: int)
    requires Valid(before) && Valid(mid) && mid == before.(nextTag := mid.nextTag) && PendingFits(mid, pending)
    requires request.Create? && Normalize(request.tags).Names?
    requires TagsFor(mid.tags + pending, Normalize(request.tags).names, ids)
    ensures
      var id := before.nextBookmark;
      var row := NewRow(id, request, now);
      var after := CommitCreate(DrawId(mid, id), row, Elements(ids), pending);
      && Valid(after) && id in after.bookmarks && after.bookmarks[id] == row
      && View(after) == View(before)[id := Item(row, Elements(Normalize(request.tags).names))]
  {
    var id := before.nextBookmark;
    var row, drawn := NewRow(id, request, now), DrawId(mid, id);
    var after := CommitCreate(drawn, row, Elements(ids), pending);
    DrewFacts(mid, drawn);
    ViewSameTables(before, drawn);
    forall t | t in ids ensures t in drawn.tags.Keys + pending.Keys {
      assert t in drawn.tags + pending;
    }
    CreateEffect(drawn, row, Elements(ids), pending);
    ResolvedNames(drawn, pending, Normalize(request.tags).names, ids, after, id);
    ViewAfter(drawn, after, id);
  }

  /** The update's transaction, seen from the tables the request started on. */
  lemma UpdateCommits(
    before: Database, mid: Database, load: Loaded, changes: Changes, newTags: Option<seq<int>>, chosen: set<int>,
    pending: map<int, string>, now: int)
    requires Valid(before) && Valid(mid) && mid == before.(nextTag := mid.nextTag) && PendingFits(mid, pending)
    requires load.row.id in before.bookmarks
    requires load == Loaded(before.bookmarks[load.row.id], LinksOf(before, load.row.id))
    requires newTags.Some? <==> changes.tags.Some?
    requires newTags.None? ==> pending == map[] && chosen == load.tags
    requires newTags.Some? ==>
               && Normalize(changes.tags.value).Names?
               && chosen == Elements(newTags.value)
               && TagsFor(mid.tags + pending, Normalize(changes.tags.value).names, newTags.value)
    ensures
      var id, after := load.row.id, CommitUpdate(mid, load, Edit(load.row, changes), chosen, pending, now);
      && after.Some? && Valid(after.value)
      && View(after.value) == View(before)[id := Item(
           Edit(load.row, changes).(updatedAt := now, version := load.row.version + 1),
           if changes.tags.Some? then Elements(Normalize(changes.tags.value).names) else NamesOf(before, id))]
      && id in after.value.bookmarks
      && after.value.bookmarks[id] == Edit(load.row, changes).(updatedAt := now, version := load.row.version + 1)
  {
    var id := load.row.id;
    ViewSameTables(before, mid);
    forall b ensures LinksOf(mid, b) == LinksOf(before, b) {}
    LoadedNow(mid, id);
    PendingKeepsNames(mid, pending);
    UpdateEffect(mid, load, Edit(load.row, changes), chosen, pending, now);
    var db' := CommitUpdate(mid, load, Edit(load.row, changes), chosen, pending, now).value;
    if newTags.Some? {
      ResolvedNames(mid, pending, Normalize(changes.tags.value).names, newTags.value, db', id);
    } else {
      NamesKept(mid, db', id);
      assert NamesOf(before, id) == View(before)[id].tags;
      assert NamesOf(mid, id) == View(mid)[id].tags;
    }
    ViewAfter(mid, db', id);
  }
}
