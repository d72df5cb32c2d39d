/** The tables every part of the service shares (app/models), and what one commit does to them. */
module Store {
  import opened Common

  /** A row of `bookmarks`; times are microseconds since the epoch. */
  datatype Bookmark = Bookmark(
    id: int, owner: int, url: string, title: string, description: Option<string>,
    createdAt: int, updatedAt: int, version: nat)

  /** A row of `bookmark_tags`; its two columns are the primary key. */
  datatype Link = Link(bookmark: int, tag: int)

  /** The committed tables. The two counters are the id sequences, which never hand out an id twice;
      drawn holds the bookmark ids handed out to inserts that have not committed. */
  datatype Database = Database(
    bookmarks: map<int, Bookmark>, tags: map<int, string>, links: set<Link>,
    nextBookmark: int, nextTag: int, drawn: set<int>)

  const EMPTY := Database(map[], map[], {}, 1, 1, {})

  function LinksOf(db: Database, id: int): set<int> {
    set l | l in db.links && l.bookmark == id :: l.tag
  }

  function LinkRows(id: int, tags: set<int>): set<Link> {
    set t | t in tags :: Link(id, t)
  }

  ghost predicate UniqueNames(tags: map<int, string>) {
    forall t, u :: t in tags && u in tags && tags[t] == tags[u] ==> t == u
  }

  predicate HasName(tags: map<int, string>, name: string) {
    exists t :: t in tags && tags[t] == name
  }

  /** The id of the tag with this name. */
  ghost function IdOf(tags: map<int, string>, name: string): (t: int)
    requires HasName(tags, name)
    ensures t in tags && tags[t] == name
  {
    var t :| t in tags && tags[t] == name; t
  }

  /** The bookmark `get_owned` finds. */
  function Owned(db: Database, user: int, id: int): Option<Bookmark> {
    if id in db.bookmarks && db.bookmarks[id].owner == user then Some(db.bookmarks[id]) else None
  }

  /** The schema's constraints: keys, the unique tag name, foreign keys, ids below their sequences. */
  ghost predicate Valid(db: Database) {
    && (forall id :: id in db.bookmarks ==>
          db.bookmarks[id].id == id && 0 < id < db.nextBookmark && db.bookmarks[id].version >= 1)
    && (forall id :: id in db.drawn ==> 0 < id < db.nextBookmark && id !in db.bookmarks)
    && (forall t :: t in db.tags ==> 0 < t < db.nextTag)
    && UniqueNames(db.tags)
    && (forall l :: l in db.links ==> l.bookmark in db.bookmarks && l.tag in db.tags)
    && 0 < db.nextBookmark && 0 < db.nextTag
  }

  // ---- Commits ----

  /** A bookmark as the session loaded it: the row, and the tags a second query found. */
  datatype Loaded = Loaded(row: Bookmark, tags: set<int>)

  /** The UPDATE statement: it sets the columns that differ from the loaded ones, `updated_at`
      (always, because the repository flags it modified) and the version. */
  function Updated(current: Bookmark, loaded: Bookmark, edited: Bookmark, now: int): Bookmark {
    current.(
      url := if edited.url != loaded.url then edited.url else current.url,
      title := if edited.title != loaded.title then edited.title else current.title,
      description := if edited.description != loaded.description then edited.description else current.description,
      updatedAt := now,
      version := loaded.version + 1)
  }

  /** The transaction of `BookmarkRepository.update`: insert the pending tags, update the row where id
      and version still match, then delete and insert link rows by the difference from the loaded
      tags. None when it loses the race: no row matched, or a link row was missing or already there. */
  function CommitUpdate(
    db: Database, load: Loaded, edited: Bookmark, tags: set<int>, pending: map<int, string>, now: int): Option<Database>
  {
    var id := load.row.id;
    var removed, added := load.tags - tags, tags - load.tags;
    if id !in db.bookmarks || db.bookmarks[id].version != load.row.version then None
    else if !(removed <= LinksOf(db, id)) || added * LinksOf(db, id) != {} then None
    else Some(db.(
      bookmarks := db.bookmarks[id := Updated(db.bookmarks[id], load.row, edited, now)],
      tags := db.tags + pending,
      links := db.links - LinkRows(id, removed) + LinkRows(id, added)))
  }

  /** The transaction of `BookmarkRepository.delete`: delete the loaded link rows, then the row where
      id and version still match; the foreign key cascades to whatever links remain. */
  function CommitDelete(db: Database, load: Loaded): Option<Database> {
    var id := load.row.id;
    if id !in db.bookmarks || db.bookmarks[id].version != load.row.version || !(load.tags <= LinksOf(db, id)) then None
    else Some(db.(bookmarks := db.bookmarks - {id}, links := set l | l in db.links && l.bookmark != id))
  }

  /** The INSERT of a new bookmark draws its id; the row stays private until the commit. */
  function DrawId(db: Database, id: int): Database {
    db.(nextBookmark := id + 1, drawn := db.drawn + {id})
  }

  /** The commit of `BookmarkRepository.add`: the row under its drawn id, its links and pending tags. */
  function CommitCreate(db: Database, row: Bookmark, tags: set<int>, pending: map<int, string>): Database {
    db.(
      bookmarks := db.bookmarks[row.id := row],
      tags := db.tags + pending,
      links := db.links + LinkRows(row.id, tags),
      drawn := db.drawn - {row.id})
  }

  // ---- How the database may change ----

  /** Tags stay, ids are not reused, owners do not change, and a bookmark that keeps its version keeps
      its row and its links. */
  ghost predicate Evolves(db: Database, db': Database) {
    && db.nextBookmark <= db'.nextBookmark && db.nextTag <= db'.nextTag
    && (forall t :: t in db.tags ==> t in db'.tags && db'.tags[t] == db.tags[t])
    && (forall id :: id in db'.bookmarks ==> id in db.bookmarks || id in db.drawn || id >= db.nextBookmark)
    && (forall id :: id in db'.drawn ==> id in db.drawn || id >= db.nextBookmark)
    && (forall id :: id in db.bookmarks && id in db'.bookmarks ==>
          db'.bookmarks[id].owner == db.bookmarks[id].owner)
    && (forall id :: id in db.bookmarks && id in db'.bookmarks ==>
          || db'.bookmarks[id].version > db.bookmarks[id].version
          || (db'.bookmarks[id] == db.bookmarks[id] && LinksOf(db', id) == LinksOf(db, id)))
  }

  /** New tag rows a transaction holds back until it commits: fresh ids, names no row has. */
  ghost predicate PendingFits(db: Database, pending: map<int, string>) {
    && UniqueNames(pending)
    && forall t :: t in pending ==> 0 < t < db.nextTag && t !in db.tags && !HasName(db.tags, pending[t])
  }

  lemma PendingKeepsNames(db: Database, pending: map<int, string>)
    requires UniqueNames(db.tags) && PendingFits(db, pending)
    ensures UniqueNames(db.tags + pending)
  {
  }

  /** The link difference turns the loaded tags into the edited ones, and touches no other bookmark. */
  lemma DiffApplied(db: Database, db': Database, id: int, tags: set<int>)
    requires
      var loaded := LinksOf(db, id);
      db'.links == db.links - LinkRows(id, loaded - tags) + LinkRows(id, tags - loaded)
    ensures LinksOf(db', id) == tags
    ensures forall other :: other != id ==> LinksOf(db', other) == LinksOf(db, other)
  {
    forall t ensures t in LinksOf(db', id) <==> t in tags {
      assert t in LinksOf(db, id) <==> Link(id, t) in db.links;
      assert t in LinksOf(db', id) <==> Link(id, t) in db'.links;
    }
    forall other | other != id ensures LinksOf(db', other) == LinksOf(db, other) {
      OtherLinks(db, db', id, other);
    }
  }

  lemma OtherLinks(db: Database, db': Database, id: int, other: int)
    requires other != id
    requires forall l: Link :: l.bookmark != id ==> (l in db.links <==> l in db'.links)
    ensures LinksOf(db', other) == LinksOf(db, other)
  {
    forall t ensures t in LinksOf(db', other) <==> t in LinksOf(db, other) {
      assert t in LinksOf(db, other) <==> Link(other, t) in db.links;
      assert t in LinksOf(db', other) <==> Link(other, t) in db'.links;
    }
  }
}
