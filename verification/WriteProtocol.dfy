/** The optimistic-concurrency write protocol as a transition system: any number of sessions, one
    database statement, flush or commit at a time (app/services/bookmark/service.py and
    app/repositories/bookmark/repository.py). */
module WriteProtocol {
  import opened Common
  import opened Store
  import opened TagNormalizer
  import opened Requests
  import ETag

  datatype Phase =
    | Arrived                                // nothing read yet
    | RowRead(row: Bookmark)                 // the bookmark row is loaded, its tags are not
    | FullyRead(load: Loaded)                // the tags were read by a second query
    | Checked(load: Loaded)                  // If-Match passed
    | Editing(                               // tags found or flushed so far; changes held privately
        base: Option<Loaded>, todo: seq<string>, byName: map<string, int>, pending: map<int, string>)
    | Inserted(                              // a new row and its links are flushed, not committed
        row: Bookmark, byName: map<string, int>, pending: map<int, string>)
    | Saved(id: int)                         // committed, refresh outstanding
    | Refreshed(row: Bookmark)               // the row is read back, its tags are not
    | Lost(id: int, version: nat)            // rolled back, the current ETag still to be read
    | Done(response: Response)

  datatype Session = Session(request: Request, phase: Phase)

  /** The shared database, the sessions, and two history variables: the mutations in commit order,
      and the bookmarks shown to clients, each a row and the tags a later query found. */
  datatype System = System(db: Database, sessions: map<int, Session>, log: seq<Entry>, shown: seq<Loaded>)

  const INITIAL := System(EMPTY, map[], [], [])

  /** What one session does next; arguments are the ids and times the database supplies. */
  datatype Move =
    | ReadRow
    | ReadTags
    | Check
    | FindTags
    | AddTag(tag: int)
    | Insert(id: int, now: int)
    | Commit(now: int)
    | Refresh
    | Abort

  /** Labels resolve every choice of the scheduler. A listing shows each of its bookmarks as a get
      does: the row by one query, its tags by a second. */
  datatype Action =
    | Arrive(sid: int, request: Request)
    | Advance(sid: int, move: Move)

  function Pending(s: Session): map<int, string> {
    if s.phase.Editing? || s.phase.Inserted? then s.phase.pending else map[]
  }

  /** The id of the row a session has inserted and not committed. */
  function DrawnBy(s: Session): set<int> {
    if s.phase.Inserted? then {s.phase.row.id} else {}
  }

  /** Another open transaction has inserted this name, so a second insert would wait for it. */
  ghost predicate HeldElsewhere(sys: System, sid: int, name: string) {
    exists other :: other in sys.sessions && other != sid && HasName(Pending(sys.sessions[other]), name)
  }

  ghost predicate CanMove(sys: System, sid: int, move: Move) {
    sid in sys.sessions
    && var s := sys.sessions[sid];
       match move
       case ReadRow => s.phase.Arrived? && !s.request.Create?
       case ReadTags => s.phase.RowRead? || s.phase.Refreshed?
       case Check => s.phase.FullyRead?
       case FindTags => (s.phase.Arrived? && s.request.Create?) || (s.phase.Checked? && Wanted(s.request).Some?)
       case AddTag(tag) =>
         s.phase.Editing? && s.phase.todo != [] && tag >= sys.db.nextTag && !HeldElsewhere(sys, sid, s.phase.todo[0])
       case Insert(id, _) =>
         s.phase.Editing? && s.phase.todo == [] && s.request.Create? && id >= sys.db.nextBookmark
       case Commit(_) =>
         || s.phase.Inserted?
         || (s.phase.Editing? && s.phase.todo == [] && s.phase.base.Some?)
         || (s.phase.Checked? && Wanted(s.request).None?)
       case Refresh => s.phase.Saved? || s.phase.Lost?
       case Abort => !s.phase.Done?
  }

  ghost predicate Enabled(sys: System, a: Action) {
    match a
    case Arrive(sid, _) => sid !in sys.sessions
    case Advance(sid, move) => CanMove(sys, sid, move)
  }

  function Enter(sys: System, sid: int, phase: Phase): System
    requires sid in sys.sessions
  {
    sys.(sessions := sys.sessions[sid := sys.sessions[sid].(phase := phase)])
  }

  function Respond(sys: System, sid: int, r: Response): System
    requires sid in sys.sessions
  {
    Enter(sys, sid, Done(r)).(shown := if r.Shown? then sys.shown + [r.load] else sys.shown)
  }

  ghost function ReadRowStep(sys: System, sid: int): System
    requires CanMove(sys, sid, ReadRow)
  {
    var r := sys.sessions[sid].request;
    var found := Owned(sys.db, r.user, r.id);
    if found.None? then Respond(sys, sid, NotFound) else Enter(sys, sid, RowRead(found.value))
  }

  /** The second query: the tags the bookmark has by now. */
  ghost function ReadTagsStep(sys: System, sid: int): System
    requires CanMove(sys, sid, ReadTags)
  {
    var p := sys.sessions[sid].phase;
    var load := Loaded(p.row, LinksOf(sys.db, p.row.id));
    if p.RowRead? then Enter(sys, sid, FullyRead(load)) else Respond(sys, sid, Shown(load))
  }

  ghost function CheckStep(sys: System, sid: int): System
    requires CanMove(sys, sid, Check)
  {
    var s := sys.sessions[sid];
    match s.request
    case Update(_, _, _, ifMatch) => CheckHeader(sys, sid, ifMatch)
    case Delete(_, _, ifMatch) => CheckHeader(sys, sid, ifMatch)
    case _ => Respond(sys, sid, Shown(s.phase.load))
  }

  ghost function CheckHeader(sys: System, sid: int, ifMatch: Option<string>): System
    requires CanMove(sys, sid, Check)
  {
    var load := sys.sessions[sid].phase.load;
    var refusal := CheckPrecondition(load.row.version, ifMatch);
    if refusal.Some? then Respond(sys, sid, refusal.value) else Enter(sys, sid, Checked(load))
  }

  /** The first query of `get_or_create`: names with a committed row now, the others still to add. */
  ghost function FindTagsStep(sys: System, sid: int): System
    requires CanMove(sys, sid, FindTags)
  {
    var s := sys.sessions[sid];
    var normal := Normalize(Wanted(s.request).value);
    if !normal.Names? then Respond(sys, sid, Invalid)
    else
      var load := if s.phase.Checked? then Some(s.phase.load) else None;
      Enter(sys, sid, Editing(load, Missing(sys.db.tags, normal.names), Found(sys.db.tags, normal.names), map[]))
  }

  function TagSet(byName: map<string, int>): set<int> {
    set n | n in byName :: byName[n]
  }

  ghost function Found(tags: map<int, string>, names: seq<string>): map<string, int> {
    map n | n in names && HasName(tags, n) :: IdOf(tags, n)
  }

  ghost function Missing(tags: map<int, string>, names: seq<string>): seq<string> {
    if names == [] then []
    else (if HasName(tags, names[0]) then [] else [names[0]]) + Missing(tags, names[1..])
  }

  /** One flush of a new tag; a name committed meanwhile violates uniqueness and ends the session. */
  ghost function AddTagStep(sys: System, sid: int, tag: int): System
    requires CanMove(sys, sid, AddTag(tag))
  {
    var p := sys.sessions[sid].phase;
    var name := p.todo[0];
    var drawn := sys.(db := sys.db.(nextTag := tag + 1));
    if HasName(sys.db.tags, name) then Respond(drawn, sid, Failed)
    else Enter(drawn, sid, p.(todo := p.todo[1..], byName := p.byName[name := tag], pending := p.pending[tag := name]))
  }

  /** The flush of a new bookmark: its id is drawn now, its commit comes later. */
  ghost function InsertStep(sys: System, sid: int, id: int, now: int): System
    requires CanMove(sys, sid, Insert(id, now))
  {
    var s := sys.sessions[sid];
    Enter(sys.(db := DrawId(sys.db, id)), sid, Inserted(NewRow(id, s.request, now), s.phase.byName, s.phase.pending))
  }

  ghost function CommitStep(sys: System, sid: int, now: int): System
    requires CanMove(sys, sid, Commit(now))
  {
    var p := sys.sessions[sid].phase;
    if p.Inserted? then FinishInsert(sys, sid, p.row, TagSet(p.byName), p.pending)
    else if p.Checked? then FinishWrite(sys, sid, p.load, p.load.tags, map[], now)
    else FinishWrite(sys, sid, p.base.value, TagSet(p.byName), p.pending, now)
  }

  ghost function FinishInsert(sys: System, sid: int, row: Bookmark, tags: set<int>, pending: map<int, string>): System
    requires sid in sys.sessions
  {
    Enter(sys, sid, Saved(row.id)).(
      db := CommitCreate(sys.db, row, tags, pending),
      log := sys.log + [Entry(sid, sys.sessions[sid].request, row.id, row.createdAt)])
  }

  ghost function FinishWrite(
    sys: System, sid: int, load: Loaded, tags: set<int>, pending: map<int, string>, now: int): System
    requires sid in sys.sessions
  {
    var s := sys.sessions[sid];
    var outcome :=
      if s.request.Update? then CommitUpdate(sys.db, load, Edit(load.row, s.request.changes), tags, pending, now)
      else CommitDelete(sys.db, load);
    if outcome.None? then Enter(sys, sid, Lost(load.row.id, load.row.version))
    else
      Enter(sys, sid, if s.request.Update? then Saved(load.row.id) else Done(Deleted)).(
        db := outcome.value,
        log := sys.log + [Entry(sid, s.request, load.row.id, now)])
  }

  /** The read after the commit or rollback; it sees whatever is committed by then. */
  ghost function RefreshStep(sys: System, sid: int): System
    requires CanMove(sys, sid, Refresh)
  {
    var s := sys.sessions[sid];
    if s.phase.Saved? then
      if s.phase.id in sys.db.bookmarks then Enter(sys, sid, Refreshed(sys.db.bookmarks[s.phase.id]))
      else Respond(sys, sid, Failed)
    else
      var current := Owned(sys.db, s.request.user, s.phase.id);
      Respond(sys, sid, PreconditionFailed(if current.None? then None else Some(ETag.MakeETag(current.value.version))))
  }

  ghost function Moved(sys: System, sid: int, move: Move): System
    requires CanMove(sys, sid, move)
  {
    match move
    case ReadRow => ReadRowStep(sys, sid)
    case ReadTags => ReadTagsStep(sys, sid)
    case Check => CheckStep(sys, sid)
    case FindTags => FindTagsStep(sys, sid)
    case AddTag(tag) => AddTagStep(sys, sid, tag)
    case Insert(id, now) => InsertStep(sys, sid, id, now)
    case Commit(now) => CommitStep(sys, sid, now)
    case Refresh => RefreshStep(sys, sid)
    case Abort => Respond(sys, sid, Failed)
  }

  ghost function Step(sys: System, a: Action): System
    requires Enabled(sys, a)
  {
    match a
    case Arrive(sid, request) => sys.(sessions := sys.sessions[sid := Session(request, Arrived)])
    case Advance(sid, move) => Moved(sys, sid, move)
  }

  /** A run from empty tables: any interleaving of any sessions. */
  ghost predicate IsRun(states: seq<System>, actions: seq<Action>) {
    && |states| == |actions| + 1
    && states[0] == INITIAL
    && forall i :: 0 <= i < |actions| ==> Enabled(states[i], actions[i]) && states[i + 1] == Step(states[i], actions[i])
  }
}
