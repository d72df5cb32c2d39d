/** Every interleaving of the write protocol equals a serial run of its committed mutations. */
module Serializability {
  import opened Common
  import opened Store
  import opened TagNormalizer
  import opened Requests
  import opened WriteProtocol

  // ---- The invariant ----

  /** A row read at some earlier moment: the bookmark may be gone or newer by now, but as long as its
      version is the same it is this very row. */
  ghost predicate Sighted(db: Database, row: Bookmark) {
    && row.id < db.nextBookmark && row.id !in db.drawn && row.version >= 1
    && (row.id in db.bookmarks ==>
          && row.version <= db.bookmarks[row.id].version
          && (row.version == db.bookmarks[row.id].version ==> row == db.bookmarks[row.id]))
  }

  /** A load whose row is still current has the current tags, whenever those were read. */
  ghost predicate LoadFits(db: Database, load: Loaded) {
    && Sighted(db, load.row)
    && load.tags <= db.tags.Keys
    && (load.row.id in db.bookmarks && db.bookmarks[load.row.id].version == load.row.version ==>
          load.tags == LinksOf(db, load.row.id))
  }

  ghost predicate Mine(r: Request, row: Bookmark) {
    !r.Create? && row.id == r.id && row.owner == r.user
  }

  /** A row the requester may see, and asked for if the request names one. */
  predicate IsTheirs(r: Request, row: Bookmark) {
    row.owner == r.user && (!r.Create? ==> row.id == r.id)
  }

  predicate Passes(r: Request, version: nat) {
    match r
    case Update(_, _, _, ifMatch) => CheckPrecondition(version, ifMatch).None?
    case Delete(_, _, ifMatch) => CheckPrecondition(version, ifMatch).None?
    case _ => false
  }

  /** The names found or flushed so far, with the row each stands for. */
  ghost predicate NamesFit(db: Database, byName: map<string, int>, pending: map<int, string>) {
    && (forall n :: n in byName ==>
          || (byName[n] in db.tags && db.tags[byName[n]] == n)
          || (byName[n] in pending && pending[byName[n]] == n))
    && (forall t :: t in pending ==> pending[t] in byName)
  }

  ghost predicate ResolvingFits(r: Request, todo: seq<string>, byName: map<string, int>) {
    && Wanted(r).Some?
    && Normalize(Wanted(r).value).Names?
    && Distinct(todo)
    && byName.Keys !! Elements(todo)
    && byName.Keys + Elements(todo) == Elements(Normalize(Wanted(r).value).names)
  }

  ghost predicate SessionFits(db: Database, s: Session) {
    match s.phase
    case Arrived => true
    case RowRead(row) => Mine(s.request, row) && Sighted(db, row)
    case FullyRead(load) => Mine(s.request, load.row) && LoadFits(db, load)
    case Checked(load) => Mine(s.request, load.row) && LoadFits(db, load) && Passes(s.request, load.row.version)
    case Editing(base, todo, byName, pending) =>
      && (s.request.Create? <==> base.None?)
      && (base.Some? ==>
            && s.request.Update? && Mine(s.request, base.value.row) && LoadFits(db, base.value)
            && Passes(s.request, base.value.row.version))
      && ResolvingFits(s.request, todo, byName)
      && NamesFit(db, byName, pending)
      && PendingFits(db, pending)
    case Inserted(row, byName, pending) =>
      && s.request.Create? && row.id in db.drawn && row == NewRow(row.id, s.request, row.createdAt)
      && ResolvingFits(s.request, [], byName)
      && NamesFit(db, byName, pending)
      && PendingFits(db, pending)
    case Saved(id) =>
      && id < db.nextBookmark && id !in db.drawn && (!s.request.Create? ==> id == s.request.id)
      && (id in db.bookmarks ==> db.bookmarks[id].owner == s.request.user)
    case Refreshed(row) => Sighted(db, row) && IsTheirs(s.request, row)
    case Lost(id, version) =>
      && id < db.nextBookmark && id !in db.drawn
      && (id in db.bookmarks ==> db.bookmarks[id].version > version)
    case Done(r) => r.Shown? ==> IsTheirs(s.request, r.load.row)
  }

  ghost predicate Separate(p: map<int, string>, q: map<int, string>) {
    && (forall t :: t in p ==> t !in q)
    && (forall t, u :: t in p && u in q ==> p[t] != q[u])
  }

  /** Two sessions hold back different tag rows and different new bookmarks. */
  ghost predicate Apart(s: Session, s': Session) {
    Separate(Pending(s), Pending(s')) && DrawnBy(s) !! DrawnBy(s')
  }

  ghost predicate AllApart(sessions: map<int, Session>) {
    forall a, b :: a in sessions && b in sessions && a != b ==> Apart(sessions[a], sessions[b])
  }

  /** What a session holds back is still only its own. */
  ghost predicate HoldingsFit(db: Database, s: Session) {
    PendingFits(db, Pending(s)) && DrawnBy(s) <= db.drawn
  }

  ghost predicate Inv(sys: System) {
    && Valid(sys.db)
    && (forall sid :: sid in sys.sessions ==> SessionFits(sys.db, sys.sessions[sid]))
    && AllApart(sys.sessions)
    && (forall i :: 0 <= i < |sys.shown| ==> LoadFits(sys.db, sys.shown[i]))
    && View(sys.db) == Replay(sys.log)
    && AllAccepted(sys.log)
  }

  // ---- Stability under other sessions' steps ----

  lemma SightingKept(db: Database, db': Database, row: Bookmark)
    requires Evolves(db, db') && Sighted(db, row)
    ensures Sighted(db', row)
  {
  }

  lemma LoadKept(db: Database, db': Database, load: Loaded)
    requires Evolves(db, db') && LoadFits(db, load)
    ensures LoadFits(db', load)
  {
    SightingKept(db, db', load.row);
    forall t | t in load.tags ensures t in db'.tags.Keys { assert t in db.tags; }
  }

  lemma NamesFitKept(db: Database, db': Database, byName: map<string, int>, pending: map<int, string>)
    requires Evolves(db, db') && NamesFit(db, byName, pending)
    ensures NamesFit(db', byName, pending)
  {
    forall n | n in byName
      ensures (byName[n] in db'.tags && db'.tags[byName[n]] == n) || (byName[n] in pending && pending[byName[n]] == n)
    {
      var t: int := byName[n];
      assert t in db.tags ==> t in db'.tags && db'.tags[t] == db.tags[t];
    }
  }

  /** Whatever the database does meanwhile, a session's private facts survive. */
  lemma SessionKept(db: Database, db': Database, s: Session)
    requires Evolves(db, db') && SessionFits(db, s) && HoldingsFit(db', s)
    ensures SessionFits(db', s)
  {
    match s.phase
    case RowRead(row) => SightingKept(db, db', row);
    case FullyRead(load) => LoadKept(db, db', load);
    case Checked(load) => LoadKept(db, db', load);
    case Editing(base, _, byName, pending) =>
      NamesFitKept(db, db', byName, pending);
      if base.Some? { LoadKept(db, db', base.value); }
    case Inserted(_, byName, pending) => NamesFitKept(db, db', byName, pending);
    case Refreshed(row) => SightingKept(db, db', row);
    case _ =>
  }

  // ---- What commits do ----

  /** Where the versions agree the update succeeds (the link difference never collides), and it
      writes exactly the edited row and the edited tags. */
  lemma UpdateEffect(
    db: Database, load: Loaded, edited: Bookmark, tags: set<int>, pending: map<int, string>, now: int)
    requires Valid(db) && LoadFits(db, load) && PendingFits(db, pending)
    requires tags <= db.tags.Keys + pending.Keys
    requires edited == load.row.(url := edited.url, title := edited.title, description := edited.description)
    requires load.row.id in db.bookmarks && db.bookmarks[load.row.id].version == load.row.version
    ensures
      var id, after := load.row.id, CommitUpdate(db, load, edited, tags, pending, now);
      && load == Loaded(db.bookmarks[id], LinksOf(db, id))
      && after.Some?
      && var db' := after.value;
         && Valid(db') && Evolves(db, db')
         && db'.bookmarks == db.bookmarks[id := edited.(updatedAt := now, version := load.row.version + 1)]
         && db'.tags == db.tags + pending
         && LinksOf(db', id) == tags
         && (forall other :: other != id ==> LinksOf(db', other) == LinksOf(db, other))
  {
    var id := load.row.id;
    var db' := CommitUpdate(db, load, edited, tags, pending, now).value;
    DiffApplied(db, db', id, tags);
    PendingKeepsNames(db, pending);
    forall l | l in db'.links ensures l.bookmark in db'.bookmarks && l.tag in db'.tags {
      assert l in db.links || l.tag in tags;
    }
  }

  lemma DeleteEffect(db: Database, load: Loaded)
    requires Valid(db) && LoadFits(db, load)
    requires load.row.id in db.bookmarks && db.bookmarks[load.row.id].version == load.row.version
    ensures
      var id, after := load.row.id, CommitDelete(db, load);
      && load == Loaded(db.bookmarks[id], LinksOf(db, id))
      && after.Some?
      && var db' := after.value;
         && Valid(db') && Evolves(db, db')
         && db'.bookmarks == db.bookmarks - {id} && db'.tags == db.tags
         && (forall other :: other != id ==> LinksOf(db', other) == LinksOf(db, other))
  {
    var id := load.row.id;
    var db' := CommitDelete(db, load).value;
    forall other | other != id ensures LinksOf(db', other) == LinksOf(db, other) {
      OtherLinks(db, db', id, other);
    }
  }

  lemma CreateEffect(db: Database, row: Bookmark, tags: set<int>, pending: map<int, string>)
    requires Valid(db) && PendingFits(db, pending)
    requires tags <= db.tags.Keys + pending.Keys
    requires row.id in db.drawn && row.version == 1
    ensures
      var db' := CommitCreate(db, row, tags, pending);
      && Valid(db') && Evolves(db, db')
      && db'.tags == db.tags + pending
      && LinksOf(db', row.id) == tags
      && (forall other :: other != row.id ==> LinksOf(db', other) == LinksOf(db, other))
      && db'.bookmarks == db.bookmarks[row.id := row]
  {
    var db' := CommitCreate(db, row, tags, pending);
    PendingKeepsNames(db, pending);
    assert LinksOf(db, row.id) == {};
    DiffApplied(db, db', row.id, tags);
    forall l | l in db'.links ensures l.bookmark in db'.bookmarks && l.tag in db'.tags {
      assert l in db.links || l.tag in tags;
    }
  }

  // ---- The view clients have of it ----

  lemma NamesAreOfLinks(db: Database, id: int)
    requires Valid(db)
    ensures LinksOf(db, id) <= db.tags.Keys
    ensures NamesOf(db, id) == set t | t in LinksOf(db, id) :: db.tags[t]
  {
    forall n ensures n in NamesOf(db, id) <==> n in (set t | t in LinksOf(db, id) :: db.tags[t]) {
      if n in NamesOf(db, id) {
        var l :| l in db.links && l.bookmark == id && db.tags[l.tag] == n;
        assert l.tag in LinksOf(db, id);
      }
      if t :| t in LinksOf(db, id) && db.tags[t] == n {
        assert Link(id, t) in db.links;
      }
    }
  }

  lemma NamesKept(db: Database, db': Database, id: int)
    requires Valid(db) && Valid(db') && LinksOf(db, id) == LinksOf(db', id)
    requires forall t :: t in db.tags ==> t in db'.tags && db'.tags[t] == db.tags[t]
    ensures NamesOf(db', id) == NamesOf(db, id)
  {
    NamesAreOfLinks(db, id);
    NamesAreOfLinks(db', id);
  }

  /** The view after a write that touched one bookmark. */
  lemma ViewAfter(db: Database, db': Database, id: int)
    requires Valid(db) && Valid(db')
    requires forall t :: t in db.tags ==> t in db'.tags && db'.tags[t] == db.tags[t]
    requires forall other :: other != id ==> LinksOf(db', other) == LinksOf(db, other)
    requires forall other :: other != id ==>
               (other in db'.bookmarks <==> other in db.bookmarks) &&
               (other in db.bookmarks ==> db'.bookmarks[other] == db.bookmarks[other])
    ensures View(db') ==
            if id in db'.bookmarks then View(db)[id := Item(db'.bookmarks[id], NamesOf(db', id))] else View(db) - {id}
  {
    forall other | other != id ensures NamesOf(db', other) == NamesOf(db, other) {
      NamesKept(db, db', other);
    }
  }

  lemma ViewSameTables(db: Database, db': Database)
    requires Valid(db) && Valid(db')
    requires db.bookmarks == db'.bookmarks && db.links == db'.links && db.tags == db'.tags
    ensures View(db') == View(db)
  {
    forall id ensures NamesOf(db', id) == NamesOf(db, id) {}
  }

  /** The rows a name table stands for carry exactly its names once they are committed. */
  lemma NamesWritten(db: Database, db': Database, id: int, byName: map<string, int>, pending: map<int, string>)
    requires Valid(db') && db'.tags == db.tags + pending && PendingFits(db, pending)
    requires NamesFit(db, byName, pending) && LinksOf(db', id) == TagSet(byName)
    ensures NamesOf(db', id) == byName.Keys
  {
    NamesAreOfLinks(db', id);
    forall n | n in byName ensures byName[n] in db'.tags && db'.tags[byName[n]] == n {
      var t := byName[n];
      assert t in pending ==> t !in db.tags;
    }
    forall n ensures n in NamesOf(db', id) <==> n in byName.Keys {
      if n in byName { assert byName[n] in LinksOf(db', id); }
    }
  }

  lemma TagSetFits(db: Database, byName: map<string, int>, pending: map<int, string>)
    requires NamesFit(db, byName, pending)
    ensures TagSet(byName) <= db.tags.Keys + pending.Keys
  {
  }

  // ---- One step ----

  /** After one session's step it is enough to look at that session, the tables and the history. */
  lemma Reassemble(sys: System, sys': System, sid: int)
    requires Inv(sys) && sid in sys'.sessions
    requires sys'.sessions == sys.sessions[sid := sys'.sessions[sid]]
    requires Valid(sys'.db) && Evolves(sys.db, sys'.db)
    requires SessionFits(sys'.db, sys'.sessions[sid])
    requires forall o :: o in sys.sessions && o != sid ==>
               HoldingsFit(sys'.db, sys.sessions[o]) && Apart(sys.sessions[o], sys'.sessions[sid])
    requires ShowsFit(sys, sys')
    requires View(sys'.db) == Replay(sys'.log) && AllAccepted(sys'.log)
    ensures Inv(sys')
  {
    forall o | o in sys'.sessions ensures SessionFits(sys'.db, sys'.sessions[o]) {
      if o != sid { SessionKept(sys.db, sys'.db, sys.sessions[o]); }
    }
    ShowsKept(sys, sys');
    StillApart(sys.sessions, sys'.sessions, sid);
  }

  lemma ShowsKept(sys: System, sys': System)
    requires Evolves(sys.db, sys'.db) && ShowsFit(sys, sys')
    requires forall i :: 0 <= i < |sys.shown| ==> LoadFits(sys.db, sys.shown[i])
    ensures forall i :: 0 <= i < |sys'.shown| ==> LoadFits(sys'.db, sys'.shown[i])
  {
    forall i | 0 <= i < |sys'.shown| ensures LoadFits(sys'.db, sys'.shown[i]) {
      if i < |sys.shown| { LoadKept(sys.db, sys'.db, sys.shown[i]); }
    }
  }

  lemma StillApart(sessions: map<int, Session>, sessions': map<int, Session>, sid: int)
    requires AllApart(sessions) && sid in sessions' && sessions' == sessions[sid := sessions'[sid]]
    requires forall o :: o in sessions && o != sid ==> Apart(sessions[o], sessions'[sid])
    ensures AllApart(sessions')
  {
    forall a, b | a in sessions' && b in sessions' && a != b ensures Apart(sessions'[a], sessions'[b]) {
      if a == sid {
        assert Apart(sessions[b], sessions'[sid]);
      } else if b != sid {
        assert Apart(sessions[a], sessions[b]);
      }
    }
  }

  /** A step shows at most one more bookmark, and that one fits. */
  ghost predicate ShowsFit(sys: System, sys': System) {
    || sys'.shown == sys.shown
    || (exists load :: sys'.shown == sys.shown + [load] && LoadFits(sys'.db, load))
  }

  lemma HoldingsOf(db: Database, s: Session)
    requires SessionFits(db, s)
    ensures HoldingsFit(db, s)
  {
  }

  /** A step that only changes the session itself, or shows a row. */
  lemma QuietStep(sys: System, sys': System, sid: int)
    requires Inv(sys) && sid in sys'.sessions
    requires sys'.sessions == sys.sessions[sid := sys'.sessions[sid]]
    requires sys'.db == sys.db && sys'.log == sys.log
    requires SessionFits(sys.db, sys'.sessions[sid])
    requires Pending(sys'.sessions[sid]) == map[] && DrawnBy(sys'.sessions[sid]) == {}
    requires ShowsFit(sys, sys')
    ensures Inv(sys')
  {
    forall o | o in sys.sessions && o != sid ensures HoldingsFit(sys'.db, sys.sessions[o]) {
      HoldingsOf(sys.db, sys.sessions[o]);
    }
    Reassemble(sys, sys', sid);
  }

  lemma {:induction false} MissingExact(tags: map<int, string>, names: seq<string>)
    requires Distinct(names)
    ensures Distinct(Missing(tags, names))
    ensures Elements(Missing(tags, names)) == set n | n in names && !HasName(tags, n)
  {
    if names != [] {
      assert names == [names[0]] + names[1..];
      MissingExact(tags, names[1..]);
      var tail := Missing(tags, names[1..]);
      assert names[0] !in Elements(tail) by { assert names[0] !in names[1..]; }
      forall n ensures n in Elements(Missing(tags, names)) <==> n in names && !HasName(tags, n) {
        assert n in tail <==> n in Elements(tail);
        assert n in names <==> n == names[0] || n in names[1..];
      }
    }
  }

  lemma FoundFits(db: Database, r: Request, names: seq<string>)
    requires Wanted(r).Some? && Normalize(Wanted(r).value) == Names(names) && Distinct(names)
    ensures ResolvingFits(r, Missing(db.tags, names), Found(db.tags, names))
    ensures NamesFit(db, Found(db.tags, names), map[]) && PendingFits(db, map[])
  {
    MissingExact(db.tags, names);
    var byName, todo := Found(db.tags, names), Missing(db.tags, names);
    assert byName.Keys == set n | n in names && HasName(db.tags, n);
    assert byName.Keys + Elements(todo) == Elements(names);
  }

  lemma FindTagsKeeps(sys: System, sid: int)
    requires Inv(sys) && CanMove(sys, sid, FindTags)
    ensures Inv(Moved(sys, sid, FindTags)) && Evolves(sys.db, Moved(sys, sid, FindTags).db)
  {
    var s, sys' := sys.sessions[sid], Moved(sys, sid, FindTags);
    assert SessionFits(sys.db, s);
    var normal := Normalize(Wanted(s.request).value);
    if normal.Names? {
      FirstOccurrencesExact(Kept(Wanted(s.request).value));
      FoundFits(sys.db, s.request, normal.names);
    }
    QuietStep(sys, sys', sid);
  }

  /** A session's commit publishes its own holdings and nobody else's. */
  lemma OthersHoldingsKept(sys: System, sid: int, db': Database)
    requires Inv(sys) && sid in sys.sessions
    requires db'.tags == sys.db.tags + Pending(sys.sessions[sid]) && sys.db.nextTag <= db'.nextTag
    requires db'.drawn == sys.db.drawn - DrawnBy(sys.sessions[sid])
    ensures forall o :: o in sys.sessions && o != sid ==> HoldingsFit(db', sys.sessions[o])
  {
    forall o | o in sys.sessions && o != sid ensures HoldingsFit(db', sys.sessions[o]) {
      HoldingsOf(sys.db, sys.sessions[o]);
      assert Apart(sys.sessions[o], sys.sessions[sid]);
      PendingStillFits(sys.db, db', Pending(sys.sessions[o]), Pending(sys.sessions[sid]));
    }
  }

  lemma PendingStillFits(db: Database, db': Database, p: map<int, string>, q: map<int, string>)
    requires PendingFits(db, p) && Separate(p, q) && db'.tags == db.tags + q && db.nextTag <= db'.nextTag
    ensures PendingFits(db', p)
  {
    forall t | t in p ensures !HasName(db'.tags, p[t]) {
      forall u | u in db'.tags ensures db'.tags[u] != p[t] {
        assert u in q || u in db.tags;
      }
    }
  }

  /** An id sequence moved on, and perhaps an id was drawn; the tables themselves are as they were. */
  ghost predicate Drew(db: Database, db': Database) {
    && db' == db.(nextBookmark := db'.nextBookmark, nextTag := db'.nextTag, drawn := db'.drawn)
    && db.nextBookmark <= db'.nextBookmark && db.nextTag <= db'.nextTag
    && db.drawn <= db'.drawn
    && (forall id :: id in db'.drawn ==> id in db.drawn || db.nextBookmark <= id < db'.nextBookmark)
  }

  lemma DrewFacts(db: Database, db': Database)
    requires Valid(db) && Drew(db, db')
    ensures Valid(db') && Evolves(db, db') && View(db') == View(db)
  {
    forall id ensures LinksOf(db', id) == LinksOf(db, id) {}
    ViewSameTables(db, db');
  }

  lemma DrewHoldings(db: Database, db': Database, s: Session)
    requires Drew(db, db') && SessionFits(db, s)
    ensures HoldingsFit(db', s)
  {
    HoldingsOf(db, s);
  }

  /** After a step that draws an id for a session, that session is all there is to look at. */
  lemma DrawStep(sys: System, sys': System, sid: int)
    requires Inv(sys) && sid in sys.sessions && sid in sys'.sessions
    requires sys' == sys.(db := sys'.db, sessions := sys.sessions[sid := sys'.sessions[sid]])
    requires Drew(sys.db, sys'.db) && SessionFits(sys'.db, sys'.sessions[sid])
    requires forall o :: o in sys.sessions && o != sid ==> Apart(sys.sessions[o], sys'.sessions[sid])
    ensures Inv(sys') && Evolves(sys.db, sys'.db)
  {
    DrewFacts(sys.db, sys'.db);
    forall o | o in sys.sessions && o != sid ensures HoldingsFit(sys'.db, sys.sessions[o]) {
      DrewHoldings(sys.db, sys'.db, sys.sessions[o]);
    }
    Reassemble(sys, sys', sid);
  }

  lemma AddTagKeeps(sys: System, sid: int, tag: int)
    requires Inv(sys) && CanMove(sys, sid, AddTag(tag))
    ensures Inv(Moved(sys, sid, AddTag(tag))) && Evolves(sys.db, Moved(sys, sid, AddTag(tag)).db)
  {
    var s, sys' := sys.sessions[sid], Moved(sys, sid, AddTag(tag));
    assert SessionFits(sys.db, s);
    var name := s.phase.todo[0];
    if HasName(sys.db.tags, name) {
      assert sys'.sessions[sid].phase.Done?;
    } else {
      AddTagFits(sys.db, s, tag);
      forall o | o in sys.sessions && o != sid ensures Apart(sys.sessions[o], sys'.sessions[sid]) {
        assert SessionFits(sys.db, sys.sessions[o]) && Apart(sys.sessions[o], s);
        assert !HasName(Pending(sys.sessions[o]), name);
      }
    }
    DrawStep(sys, sys', sid);
  }

  /** The session's own facts after flushing the next name under a fresh id. */
  lemma AddTagFits(db: Database, s: Session, tag: int)
    requires Valid(db) && SessionFits(db, s) && s.phase.Editing? && s.phase.todo != []
    requires tag >= db.nextTag && !HasName(db.tags, s.phase.todo[0])
    ensures
      var p, name := s.phase, s.phase.todo[0];
      SessionFits(db.(nextTag := tag + 1),
        s.(phase := p.(todo := p.todo[1..], byName := p.byName[name := tag], pending := p.pending[tag := name])))
  {
    var p, name := s.phase, s.phase.todo[0];
    var db' := db.(nextTag := tag + 1);
    var todo, byName, pending := p.todo[1..], p.byName[name := tag], p.pending[tag := name];
    assert p.todo == [name] + todo;
    assert name !in todo && name !in p.byName by { assert name in Elements(p.todo); }
    assert ResolvingFits(s.request, todo, byName) by {
      assert Elements(p.todo) == {name} + Elements(todo);
      assert byName.Keys == p.byName.Keys + {name};
    }
    assert NamesFit(db', byName, pending);
    assert PendingFits(db', pending) by {
      forall t | t in p.pending ensures p.pending[t] != name && t != tag {}
    }
    forall id ensures LinksOf(db', id) == LinksOf(db, id) {}
    if p.base.Some? { LoadKept(db, db', p.base.value); }
  }

  lemma ReplaySnoc(log: seq<Entry>, e: Entry)
    ensures Replay(log + [e]) == Serve(Replay(log), e).shelf
    ensures AllAccepted(log + [e]) <==> AllAccepted(log) && Serve(Replay(log), e).refusal.None?
  {
    assert (log + [e])[..|log|] == log;
  }

  lemma InsertKeeps(sys: System, sid: int, id: int, now: int)
    requires Inv(sys) && CanMove(sys, sid, Insert(id, now))
    ensures
      var sys' := Moved(sys, sid, Insert(id, now));
      Inv(sys') && Evolves(sys.db, sys'.db)
  {
    var s, sys' := sys.sessions[sid], Moved(sys, sid, Insert(id, now));
    assert SessionFits(sys.db, s);
    assert s.phase.todo == [];
    forall o | o in sys.sessions && o != sid ensures Apart(sys.sessions[o], sys'.sessions[sid]) {
      HoldingsOf(sys.db, sys.sessions[o]);
      assert Apart(sys.sessions[o], s);
    }
    DrawStep(sys, sys', sid);
  }

  // ---- Commits, on the tables ----

  /** A winning transaction's tables are what serving its request alone would have left. */
  ghost predicate ServedAlone(db: Database, db': Database, e: Entry) {
    Valid(db) && Valid(db') && Evolves(db, db') && Serve(View(db), e) == Served(View(db'), None)
  }

  lemma CreateServed(db: Database, db': Database, r: Request, row: Bookmark, e: Entry, names: set<string>)
    requires Valid(db) && Valid(db') && r.Create? && e == Entry(e.sid, r, row.id, row.createdAt)
    requires row == NewRow(row.id, r, row.createdAt)
    requires Normalize(r.tags).Names? && names == Elements(Normalize(r.tags).names)
    requires View(db') == View(db)[row.id := Item(row, names)]
    ensures Serve(View(db), e) == Served(View(db'), None)
  {
  }

  lemma CreateWins(db: Database, s: Session, e: Entry)
    requires Valid(db) && SessionFits(db, s) && s.phase.Inserted?
    requires e == Entry(e.sid, s.request, s.phase.row.id, s.phase.row.createdAt)
    ensures ServedAlone(db, CommitCreate(db, s.phase.row, TagSet(s.phase.byName), s.phase.pending), e)
  {
    var p := s.phase;
    assert p.byName.Keys == Elements(Normalize(Wanted(s.request).value).names);
    InsertPublished(db, p.row, p.byName, p.pending);
    var db' := CommitCreate(db, p.row, TagSet(p.byName), p.pending);
    CreateServed(db, db', s.request, p.row, e, p.byName.Keys);
  }

  lemma InsertPublished(db: Database, row: Bookmark, byName: map<string, int>, pending: map<int, string>)
    requires Valid(db) && row.id in db.drawn && row.version == 1
    requires NamesFit(db, byName, pending) && PendingFits(db, pending)
    ensures
      var db' := CommitCreate(db, row, TagSet(byName), pending);
      && Valid(db') && Evolves(db, db') && View(db') == View(db)[row.id := Item(row, byName.Keys)]
  {
    var db' := CommitCreate(db, row, TagSet(byName), pending);
    TagSetFits(db, byName, pending);
    CreateEffect(db, row, TagSet(byName), pending);
    NamesWritten(db, db', row.id, byName, pending);
    ViewAfter(db, db', row.id);
  }

  /** What a session about to write a loaded bookmark brings along. */
  ghost predicate ReadyToWrite(
    db: Database, s: Session, load: Loaded, tags: set<int>, byName: map<string, int>, pending: map<int, string>)
  {
    && Mine(s.request, load.row) && LoadFits(db, load) && Passes(s.request, load.row.version)
    && pending == Pending(s) && PendingFits(db, pending) && DrawnBy(s) == {}
    && (Wanted(s.request).None? ==> pending == map[] && tags == load.tags)
    && (Wanted(s.request).Some? ==>
          && NamesFit(db, byName, pending) && tags == TagSet(byName)
          && Normalize(Wanted(s.request).value).Names?
          && byName.Keys == Elements(Normalize(Wanted(s.request).value).names))
  }

  ghost predicate Current(db: Database, load: Loaded) {
    load.row.id in db.bookmarks && db.bookmarks[load.row.id].version == load.row.version
  }

  lemma UpdateServed(db: Database, db': Database, r: Request, load: Loaded, e: Entry, names: set<string>)
    requires Valid(db) && Valid(db') && r.Update? && e.request == r && Mine(r, load.row)
    requires load.row.id in db.bookmarks && load.row == db.bookmarks[load.row.id] && Passes(r, load.row.version)
    requires
      db'.bookmarks ==
      db.bookmarks[r.id := Edit(load.row, r.changes).(updatedAt := e.now, version := load.row.version + 1)]
    requires NamesOf(db', r.id) == names
    requires if r.changes.tags.Some? then
               Normalize(r.changes.tags.value).Names? && names == Elements(Normalize(r.changes.tags.value).names)
             else names == NamesOf(db, r.id)
    requires View(db') == View(db)[r.id := Item(db'.bookmarks[r.id], names)]
    ensures Serve(View(db), e) == Served(View(db'), None)
  {
  }

  lemma UpdateWins(
    db: Database, s: Session, load: Loaded, tags: set<int>, byName: map<string, int>, pending: map<int, string>,
    e: Entry)
    requires Valid(db) && ReadyToWrite(db, s, load, tags, byName, pending) && Current(db, load)
    requires s.request.Update? && e == Entry(e.sid, s.request, load.row.id, e.now)
    ensures
      var after := CommitUpdate(db, load, Edit(load.row, s.request.changes), tags, pending, e.now);
      after.Some? && ServedAlone(db, after.value, e) && after.value.tags == db.tags + pending
  {
    var id := load.row.id;
    if Wanted(s.request).Some? { TagSetFits(db, byName, pending); }
    UpdateEffect(db, load, Edit(load.row, s.request.changes), tags, pending, e.now);
    var db' := CommitUpdate(db, load, Edit(load.row, s.request.changes), tags, pending, e.now).value;
    if Wanted(s.request).Some? {
      NamesWritten(db, db', id, byName, pending);
    } else {
      NamesKept(db, db', id);
    }
    ViewAfter(db, db', id);
    UpdateServed(db, db', s.request, load, e, NamesOf(db', id));
  }

  lemma DeleteServed(db: Database, db': Database, r: Request, load: Loaded, e: Entry)
    requires Valid(db) && Valid(db') && r.Delete? && e.request == r && Mine(r, load.row)
    requires load.row.id in db.bookmarks && load.row == db.bookmarks[load.row.id] && Passes(r, load.row.version)
    requires View(db') == View(db) - {r.id}
    ensures Serve(View(db), e) == Served(View(db'), None)
  {
  }

  lemma DeleteWins(
    db: Database, s: Session, load: Loaded, tags: set<int>, byName: map<string, int>, pending: map<int, string>,
    e: Entry)
    requires Valid(db) && ReadyToWrite(db, s, load, tags, byName, pending) && Current(db, load)
    requires s.request.Delete? && e == Entry(e.sid, s.request, load.row.id, e.now)
    ensures
      var after := CommitDelete(db, load);
      after.Some? && ServedAlone(db, after.value, e) && after.value.tags == db.tags + pending
  {
    DeleteEffect(db, load);
    var db' := CommitDelete(db, load).value;
    ViewAfter(db, db', load.row.id);
    DeleteServed(db, db', s.request, load, e);
  }

  // ---- Commits, in the system ----

  /** A session publishes what it held back, and its request is logged. */
  lemma CommitStepKeeps(sys: System, sys': System, sid: int, e: Entry)
    requires Inv(sys) && sid in sys.sessions && sid in sys'.sessions
    requires
      sys' == sys.(db := sys'.db, sessions := sys.sessions[sid := sys'.sessions[sid]], log := sys.log + [e])
    requires ServedAlone(sys.db, sys'.db, e)
    requires sys'.db.tags == sys.db.tags + Pending(sys.sessions[sid])
    requires sys'.db.drawn == sys.db.drawn - DrawnBy(sys.sessions[sid])
    requires SessionFits(sys'.db, sys'.sessions[sid])
    requires Pending(sys'.sessions[sid]) == map[] && DrawnBy(sys'.sessions[sid]) == {}
    ensures Inv(sys')
  {
    ReplaySnoc(sys.log, e);
    OthersHoldingsKept(sys, sid, sys'.db);
    Reassemble(sys, sys', sid);
  }

  lemma CommitCreateKeeps(sys: System, sid: int, now: int)
    requires Inv(sys) && CanMove(sys, sid, Commit(now)) && sys.sessions[sid].phase.Inserted?
    ensures Inv(Moved(sys, sid, Commit(now))) && Evolves(sys.db, Moved(sys, sid, Commit(now)).db)
  {
    var s := sys.sessions[sid];
    assert SessionFits(sys.db, s);
    var e := Entry(sid, s.request, s.phase.row.id, s.phase.row.createdAt);
    CreateWins(sys.db, s, e);
    CommitStepKeeps(sys, Moved(sys, sid, Commit(now)), sid, e);
  }

  lemma WinningUpdateKeeps(
    sys: System, sid: int, load: Loaded, tags: set<int>, byName: map<string, int>, pending: map<int, string>, now: int)
    requires Inv(sys) && sid in sys.sessions && Current(sys.db, load) && sys.sessions[sid].request.Update?
    requires ReadyToWrite(sys.db, sys.sessions[sid], load, tags, byName, pending)
    ensures
      var sys' := FinishWrite(sys, sid, load, tags, pending, now);
      Inv(sys') && Evolves(sys.db, sys'.db)
  {
    var s := sys.sessions[sid];
    var e := Entry(sid, s.request, load.row.id, now);
    UpdateWins(sys.db, s, load, tags, byName, pending, e);
    CommitStepKeeps(sys, FinishWrite(sys, sid, load, tags, pending, now), sid, e);
  }

  lemma WinningDeleteKeeps(
    sys: System, sid: int, load: Loaded, tags: set<int>, byName: map<string, int>, pending: map<int, string>, now: int)
    requires Inv(sys) && sid in sys.sessions && Current(sys.db, load) && sys.sessions[sid].request.Delete?
    requires ReadyToWrite(sys.db, sys.sessions[sid], load, tags, byName, pending)
    ensures
      var sys' := FinishWrite(sys, sid, load, tags, pending, now);
      Inv(sys') && Evolves(sys.db, sys'.db)
  {
    var s := sys.sessions[sid];
    var e := Entry(sid, s.request, load.row.id, now);
    DeleteWins(sys.db, s, load, tags, byName, pending, e);
    CommitStepKeeps(sys, FinishWrite(sys, sid, load, tags, pending, now), sid, e);
  }

  /** The commit of a loaded bookmark, update or delete, won or lost. */
  lemma FinishWriteKeeps(
    sys: System, sid: int, load: Loaded, tags: set<int>, byName: map<string, int>, pending: map<int, string>, now: int)
    requires Inv(sys) && sid in sys.sessions
    requires ReadyToWrite(sys.db, sys.sessions[sid], load, tags, byName, pending)
    ensures
      var sys' := FinishWrite(sys, sid, load, tags, pending, now);
      Inv(sys') && Evolves(sys.db, sys'.db)
  {
    if !Current(sys.db, load) {
      QuietStep(sys, FinishWrite(sys, sid, load, tags, pending, now), sid);
    } else if sys.sessions[sid].request.Update? {
      WinningUpdateKeeps(sys, sid, load, tags, byName, pending, now);
    } else {
      WinningDeleteKeeps(sys, sid, load, tags, byName, pending, now);
    }
  }

  /** Every session at its commit of a loaded bookmark is ready for it. */
  lemma Ready(db: Database, s: Session, load: Loaded)
    returns (tags: set<int>, byName: map<string, int>, pending: map<int, string>)
    requires SessionFits(db, s)
    requires || (s.phase == Checked(load) && Wanted(s.request).None?)
             || (s.phase.Editing? && s.phase.todo == [] && s.phase.base == Some(load))
    ensures ReadyToWrite(db, s, load, tags, byName, pending)
    ensures s.phase.Checked? ==> tags == load.tags && pending == map[]
    ensures s.phase.Editing? ==> tags == TagSet(s.phase.byName) && pending == s.phase.pending
  {
    if s.phase.Checked? {
      tags, byName, pending := load.tags, map[], map[];
    } else {
      assert Elements(s.phase.todo) == {};
      tags, byName, pending := TagSet(s.phase.byName), s.phase.byName, s.phase.pending;
    }
  }

  lemma CommitKeeps(sys: System, sid: int, now: int)
    requires Inv(sys) && CanMove(sys, sid, Commit(now))
    ensures Inv(Moved(sys, sid, Commit(now))) && Evolves(sys.db, Moved(sys, sid, Commit(now)).db)
  {
    var s := sys.sessions[sid];
    if s.phase.Inserted? {
      CommitCreateKeeps(sys, sid, now);
    } else {
      var load := if s.phase.Checked? then s.phase.load else s.phase.base.value;
      var tags, byName, pending := Ready(sys.db, s, load);
      FinishWriteKeeps(sys, sid, load, tags, byName, pending, now);
    }
  }

  lemma ReadRowKeeps(sys: System, sid: int)
    requires Inv(sys) && CanMove(sys, sid, ReadRow)
    ensures Inv(Moved(sys, sid, ReadRow)) && Moved(sys, sid, ReadRow).db == sys.db
  {
    QuietStep(sys, Moved(sys, sid, ReadRow), sid);
  }

  lemma ReadTagsKeeps(sys: System, sid: int)
    requires Inv(sys) && CanMove(sys, sid, ReadTags)
    ensures Inv(Moved(sys, sid, ReadTags)) && Moved(sys, sid, ReadTags).db == sys.db
  {
    var s := sys.sessions[sid];
    assert SessionFits(sys.db, s);
    assert LoadFits(sys.db, Loaded(s.phase.row, LinksOf(sys.db, s.phase.row.id)));
    QuietStep(sys, Moved(sys, sid, ReadTags), sid);
  }

  lemma CheckKeeps(sys: System, sid: int)
    requires Inv(sys) && CanMove(sys, sid, Check)
    ensures Inv(Moved(sys, sid, Check)) && Moved(sys, sid, Check).db == sys.db
  {
    assert SessionFits(sys.db, sys.sessions[sid]);
    QuietStep(sys, Moved(sys, sid, Check), sid);
  }

  lemma RefreshKeeps(sys: System, sid: int)
    requires Inv(sys) && CanMove(sys, sid, Refresh)
    ensures Inv(Moved(sys, sid, Refresh)) && Moved(sys, sid, Refresh).db == sys.db
  {
    QuietStep(sys, Moved(sys, sid, Refresh), sid);
  }

  lemma AbortKeeps(sys: System, sid: int)
    requires Inv(sys) && CanMove(sys, sid, Abort)
    ensures Inv(Moved(sys, sid, Abort)) && Moved(sys, sid, Abort).db == sys.db
  {
    QuietStep(sys, Moved(sys, sid, Abort), sid);
  }

  /** Every step keeps the invariant, and evolves the database as readers may rely on. */
  lemma StepKeeps(sys: System, a: Action)
    requires Inv(sys) && Enabled(sys, a)
    ensures Inv(Step(sys, a)) && Evolves(sys.db, Step(sys, a).db)
  {
    match a
    case Arrive(sid, _) => QuietStep(sys, Step(sys, a), sid);
    case Advance(sid, move) =>
      match move {
        case ReadRow => ReadRowKeeps(sys, sid);
        case ReadTags => ReadTagsKeeps(sys, sid);
        case Check => CheckKeeps(sys, sid);
        case FindTags => FindTagsKeeps(sys, sid);
        case AddTag(tag) => AddTagKeeps(sys, sid, tag);
        case Insert(id, now) => InsertKeeps(sys, sid, id, now);
        case Commit(now) => CommitKeeps(sys, sid, now);
        case Refresh => RefreshKeeps(sys, sid);
        case Abort => AbortKeeps(sys, sid);
      }
  }

  lemma {:induction false} RunInv(states: seq<System>, actions: seq<Action>, i: nat)
    requires IsRun(states, actions) && i < |states|
    ensures Inv(states[i])
  {
    if i > 0 {
      RunInv(states, actions, i - 1);
      StepKeeps(states[i - 1], actions[i - 1]);
      assert states[i - 1 + 1] == Step(states[i - 1], actions[i - 1]);
    } else {
      assert View(EMPTY) == map[];
    }
  }

  /** Every state of every run shows clients exactly what serving the committed mutations one after
      the other, each atomically and each accepted, would show; and the link table is determined by it. */
  lemma RunsAreSerial(states: seq<System>, actions: seq<Action>, i: nat)
    requires IsRun(states, actions) && i < |states|
    ensures
      var sys := states[i];
      && Valid(sys.db)
      && View(sys.db) == Replay(sys.log)
      && AllAccepted(sys.log)
      && forall b, t :: Link(b, t) in sys.db.links <==>
           b in Replay(sys.log) && t in sys.db.tags && sys.db.tags[t] in Replay(sys.log)[b].tags
  {
    RunInv(states, actions, i);
    var db := states[i].db;
    forall b, t ensures Link(b, t) in db.links <==> b in View(db) && t in db.tags && db.tags[t] in View(db)[b].tags {
      if b in View(db) && t in db.tags && db.tags[t] in View(db)[b].tags {
        var l :| l in db.links && l.bookmark == b && db.tags[l.tag] == db.tags[t];
        assert l == Link(b, t);
      }
    }
  }
}
