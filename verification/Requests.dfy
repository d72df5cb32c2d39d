/** What clients ask of the bookmark service, and the service as one atomic step at a time. */
module Requests {
  import opened Common
  import opened Text
  import opened Store
  import opened TagNormalizer
  import ETag

  /** The fields present in the body of a PUT; an absent field is left alone. */
  datatype Changes = Changes(
    url: Option<string>, title: Option<string>, description: Option<Option<string>>, tags: Option<seq<string>>)

  datatype Request =
    | Create(user: int, url: string, title: string, description: Option<string>, tags: seq<string>)
    | Get(user: int, id: int)
    | Update(user: int, id: int, changes: Changes, ifMatch: Option<string>)
    | Delete(user: int, id: int, ifMatch: Option<string>)

  /** The statuses a request can end with. Failed stands for an unhandled error: a unique-name
      collision while flushing a tag, a lost connection, a refresh that no longer finds the row. */
  datatype Response =
    | Shown(load: Loaded)
    | Deleted
    | NotFound
    | PreconditionRequired(etag: string)
    | PreconditionFailed(current: Option<string>)
    | Invalid
    | Failed

  predicate HeaderPresent(ifMatch: Option<string>) {
    ifMatch.Some? && Strip(ifMatch.value) != ""
  }

  /** `_check_precondition`: None lets the mutation proceed. */
  function CheckPrecondition(version: nat, ifMatch: Option<string>): Option<Response> {
    if !HeaderPresent(ifMatch) then Some(PreconditionRequired(ETag.MakeETag(version)))
    else if !ETag.Matches(ifMatch.value, version) then Some(PreconditionFailed(Some(ETag.MakeETag(version))))
    else None
  }

  /** A mutation may proceed exactly when its header has a star or quotes the bookmark's own ETag; it
      is asked for a header exactly when there is none but blanks; and every refusal tells the ETag. */
  lemma PreconditionMeans(version: nat, ifMatch: Option<string>)
    ensures
      var r, current := CheckPrecondition(version, ifMatch), ETag.MakeETag(version);
      && (r.None? <==> ifMatch.Some? && (ETag.HasStar(ifMatch.value) || ETag.Quotes(ifMatch.value, version)))
      && (r == Some(PreconditionRequired(current)) <==> ifMatch.None? || AllBlank(ifMatch.value))
      && (r.None? || r.value == PreconditionRequired(current) || r.value == PreconditionFailed(Some(current)))
  {
    if ifMatch.Some? {
      ETag.MatchesByStarOrQuote(ifMatch.value, version);
      ETag.BlankNamesNothing(ifMatch.value, version);
      BlankStrips(ifMatch.value);
    }
  }

  /** The assignments `bookmark.url = changes["url"]` and so on. */
  function Edit(row: Bookmark, changes: Changes): Bookmark {
    row.(
      url := if changes.url.Some? then changes.url.value else row.url,
      title := if changes.title.Some? then changes.title.value else row.title,
      description := if changes.description.Some? then changes.description.value else row.description)
  }

  function NewRow(id: int, request: Request, now: int): Bookmark
    requires request.Create?
  {
    Bookmark(id, request.user, request.url, request.title, request.description, now, now, 1)
  }

  /** The tag list a request wants resolved, if it carries one. */
  function Wanted(request: Request): Option<seq<string>> {
    match request
    case Create(_, _, _, _, tags) => Some(tags)
    case Update(_, _, changes, _) => changes.tags
    case _ => None
  }

  // ---- What a mutation writes, column by column ----

  /** The row after an accepted PUT: a field present in the body has the value sent, which for the
      description may be null; an absent one is as it was; the rest of the row is not the client's. */
  ghost predicate Rewritten(before: Bookmark, changes: Changes, after: Bookmark, now: int) {
    && (changes.url.Some? ==> after.url == changes.url.value)
    && (changes.url.None? ==> after.url == before.url)
    && (changes.title.Some? ==> after.title == changes.title.value)
    && (changes.title.None? ==> after.title == before.title)
    && (changes.description.Some? ==> after.description == changes.description.value)
    && (changes.description.None? ==> after.description == before.description)
    && after.id == before.id && after.owner == before.owner && after.createdAt == before.createdAt
    && after.updatedAt == now && after.version == before.version + 1
  }

  /** The row of a new bookmark. */
  ghost predicate WrittenNew(row: Bookmark, request: Request, id: int, now: int)
    requires request.Create?
  {
    && row.url == request.url && row.title == request.title && row.description == request.description
    && row.id == id && row.owner == request.user
    && row.createdAt == now && row.updatedAt == now && row.version == 1
  }

  // ---- The serial specification ----

  /** A bookmark as clients see it: its row and the names of its tags. */
  datatype Item = Item(row: Bookmark, tags: set<string>)

  type Shelf = map<int, Item>

  /** A mutation some session committed, and what the database contributed: the id and the time. */
  datatype Entry = Entry(sid: int, request: Request, id: int, now: int)

  datatype Served = Served(shelf: Shelf, refusal: Option<Response>)

  /** One request served alone: load, check ownership and If-Match, normalise, write, all at once. */
  function Serve(shelf: Shelf, e: Entry): Served {
    match e.request
    case Create(_, _, _, _, raw) =>
      var tags := Normalize(raw);
      if !tags.Names? then Served(shelf, Some(Invalid))
      else Served(shelf[e.id := Item(NewRow(e.id, e.request, e.now), Elements(tags.names))], None)
    case Get(user, id) =>
      Served(shelf, if id in shelf && shelf[id].row.owner == user then None else Some(NotFound))
    case Update(user, id, changes, ifMatch) =>
      if id !in shelf || shelf[id].row.owner != user then Served(shelf, Some(NotFound))
      else
        var row := shelf[id].row;
        var refusal := CheckPrecondition(row.version, ifMatch);
        if refusal.Some? then Served(shelf, refusal)
        else if changes.tags.Some? && !Normalize(changes.tags.value).Names? then Served(shelf, Some(Invalid))
        else
          var tags := if changes.tags.Some? then Elements(Normalize(changes.tags.value).names) else shelf[id].tags;
          Served(shelf[id := Item(Edit(row, changes).(updatedAt := e.now, version := row.version + 1), tags)], None)
    case Delete(user, id, ifMatch) =>
      if id !in shelf || shelf[id].row.owner != user then Served(shelf, Some(NotFound))
      else
        var refusal := CheckPrecondition(shelf[id].row.version, ifMatch);
        if refusal.Some? then Served(shelf, refusal) else Served(shelf - {id}, None)
  }

  /** What an accepted request leaves on the shelf; every other bookmark stays. */
  lemma ServeMeans(shelf: Shelf, e: Entry)
    requires Serve(shelf, e).refusal.None?
    ensures
      var r, after := e.request, Serve(shelf, e).shelf;
      match r
      case Get(_, _) => after == shelf
      case Create(_, _, _, _, raw) =>
        && e.id in after && after == shelf[e.id := after[e.id]]
        && WrittenNew(after[e.id].row, r, e.id, e.now) && after[e.id].tags == CleanNames(raw)
      case Update(_, id, changes, _) =>
        && id in shelf && id in after && after == shelf[id := after[id]]
        && Rewritten(shelf[id].row, changes, after[id].row, e.now)
        && after[id].tags == (if changes.tags.Some? then CleanNames(changes.tags.value) else shelf[id].tags)
      case Delete(_, id, _) => id in shelf && after == shelf - {id}
  {
    var raw := Wanted(e.request);
    if raw.Some? { NamesAreClean(raw.value); }
  }

  /** A refused request leaves the shelf as it was. */
  lemma RefusedChangesNothing(shelf: Shelf, e: Entry)
    requires Serve(shelf, e).refusal.Some?
    ensures Serve(shelf, e).shelf == shelf
  {
  }

  function Replay(log: seq<Entry>): Shelf {
    if log == [] then map[] else Serve(Replay(log[..|log| - 1]), log[|log| - 1]).shelf
  }

  /** Every entry was accepted when its turn came. */
  predicate AllAccepted(log: seq<Entry>) {
    log == [] || (AllAccepted(log[..|log| - 1]) && Serve(Replay(log[..|log| - 1]), log[|log| - 1]).refusal.None?)
  }

  /** The tables as clients see them. */
  ghost function NamesOf(db: Database, id: int): set<string>
    requires Valid(db)
  {
    set l | l in db.links && l.bookmark == id :: db.tags[l.tag]
  }

  ghost function View(db: Database): Shelf
    requires Valid(db)
  {
    map id | id in db.bookmarks :: Item(db.bookmarks[id], NamesOf(db, id))
  }
}
