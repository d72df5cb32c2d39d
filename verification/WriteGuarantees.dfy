/** What the protocol promises clients, in every run (README.md:188-212 of the repository). */
module WriteGuarantees {
  import opened Common
  import opened Store
  import opened TagNormalizer
  import opened Requests
  import opened WriteProtocol
  import opened Serializability
  import ETag

  // ---- Commits ----

  /** The bookmark a session is about to write, as it loaded it. */
  function LoadOf(s: Session): Option<Loaded> {
    match s.phase
    case Checked(load) => Some(load)
    case Editing(base, _, _, _) => base
    case _ => None
  }

  /** At the commit of a loaded bookmark the outcome is FinishWrite's, on what the session brought. */
  lemma AtCommit(sys: System, sid: int, now: int)
    returns (tags: set<int>, byName: map<string, int>, pending: map<int, string>)
    requires Inv(sys) && CanMove(sys, sid, Commit(now)) && LoadOf(sys.sessions[sid]).Some?
    ensures
      var s := sys.sessions[sid];
      && ReadyToWrite(sys.db, s, LoadOf(s).value, tags, byName, pending)
      && Moved(sys, sid, Commit(now)) == FinishWrite(sys, sid, LoadOf(s).value, tags, pending, now)
  {
    var s := sys.sessions[sid];
    tags, byName, pending := Ready(sys.db, s, LoadOf(s).value);
  }

  /** A commit wins exactly when the row is still there at the loaded version: one conditional
      statement decides, the link difference never adds a conflict of its own, and a load whose tags
      are not the current ones has always lost. */
  lemma CommitWinsIff(sys: System, sid: int, now: int)
    requires Inv(sys) && CanMove(sys, sid, Commit(now)) && LoadOf(sys.sessions[sid]).Some?
    ensures
      var load, after := LoadOf(sys.sessions[sid]).value, Moved(sys, sid, Commit(now));
      && (after.sessions[sid].phase.Lost? <==> !Current(sys.db, load))
      && (!Current(sys.db, load) ==> after.sessions[sid].phase == Lost(load.row.id, load.row.version))
      && (Current(sys.db, load) ==> load == Loaded(sys.db.bookmarks[load.row.id], LinksOf(sys.db, load.row.id)))
      && (!Current(sys.db, load) ==> after.db == sys.db && after.log == sys.log)
      && (Current(sys.db, load) ==> after.log == sys.log + [Entry(sid, sys.sessions[sid].request, load.row.id, now)])
  {
    var s, load := sys.sessions[sid], LoadOf(sys.sessions[sid]).value;
    var tags, byName, pending := AtCommit(sys, sid, now);
    if Current(sys.db, load) { WinningCommits(sys.db, s, load, tags, byName, pending, sid, now); }
  }

  /** Where the versions agree, the update or delete succeeds and serves its request. */
  lemma WinningCommits(
    db: Database, s: Session, load: Loaded, tags: set<int>, byName: map<string, int>, pending: map<int, string>,
    sid: int, now: int)
    requires Valid(db) && ReadyToWrite(db, s, load, tags, byName, pending) && Current(db, load)
    ensures
      var after :=
        if s.request.Update? then CommitUpdate(db, load, Edit(load.row, s.request.changes), tags, pending, now)
        else CommitDelete(db, load);
      after.Some? && ServedAlone(db, after.value, Entry(sid, s.request, load.row.id, now))
  {
    var e := Entry(sid, s.request, load.row.id, now);
    if s.request.Update? {
      UpdateWins(db, s, load, tags, byName, pending, e);
    } else {
      DeleteWins(db, s, load, tags, byName, pending, e);
    }
  }

  /** After a successful update the row holds, column by column, what was sent where something was sent
      and the previous value elsewhere, under the next version; and the bookmark's tags are exactly the
      requested clean names, or the previous ones if none were requested, whenever the row and its tags
      were read. */
  lemma UpdateWritesExactly(sys: System, sid: int, now: int)
    requires Inv(sys) && CanMove(sys, sid, Commit(now))
    requires sys.sessions[sid].request.Update? && Moved(sys, sid, Commit(now)).sessions[sid].phase.Saved?
    ensures
      var r, after := sys.sessions[sid].request, Moved(sys, sid, Commit(now));
      && Valid(after.db) && r.id in sys.db.bookmarks && r.id in after.db.bookmarks
      && Rewritten(sys.db.bookmarks[r.id], r.changes, after.db.bookmarks[r.id], now)
      && NamesOf(after.db, r.id) ==
           (if r.changes.tags.Some? then CleanNames(r.changes.tags.value) else NamesOf(sys.db, r.id))
  {
    SavedIsServed(sys, sid, now);
    var r := sys.sessions[sid].request;
    UpdateInView(sys.db, Moved(sys, sid, Commit(now)).db, Entry(sid, r, r.id, now));
  }

  lemma SavedIsServed(sys: System, sid: int, now: int)
    requires Inv(sys) && CanMove(sys, sid, Commit(now))
    requires sys.sessions[sid].request.Update? && Moved(sys, sid, Commit(now)).sessions[sid].phase.Saved?
    ensures
      var r := sys.sessions[sid].request;
      ServedAlone(sys.db, Moved(sys, sid, Commit(now)).db, Entry(sid, r, r.id, now))
  {
    var s := sys.sessions[sid];
    assert SessionFits(sys.db, s);
    var load := LoadOf(s).value;
    var tags, byName, pending := AtCommit(sys, sid, now);
    if Current(sys.db, load) { WinningCommits(sys.db, s, load, tags, byName, pending, sid, now); }
  }

  /** What a served update leaves, read off the view. */
  lemma UpdateInView(db: Database, db': Database, e: Entry)
    requires ServedAlone(db, db', e) && e.request.Update? && e.id == e.request.id
    ensures
      var r := e.request;
      && r.id in db.bookmarks && r.id in db'.bookmarks
      && Rewritten(db.bookmarks[r.id], r.changes, db'.bookmarks[r.id], e.now)
      && NamesOf(db', r.id) ==
           (if r.changes.tags.Some? then CleanNames(r.changes.tags.value) else NamesOf(db, r.id))
  {
    ServeMeans(View(db), e);
    assert View(db')[e.id] == Serve(View(db), e).shelf[e.id];
    assert View(db)[e.id] == Item(db.bookmarks[e.id], NamesOf(db, e.id));
  }

  /** Once a create commits, there is one more bookmark, with the columns and the tags asked for. */
  lemma CreateWritesExactly(sys: System, sid: int, now: int)
    requires Inv(sys) && CanMove(sys, sid, Commit(now)) && sys.sessions[sid].phase.Inserted?
    ensures
      var s, after := sys.sessions[sid], Moved(sys, sid, Commit(now));
      var row := s.phase.row;
      && s.request.Create? && Valid(after.db)
      && row.id !in sys.db.bookmarks && after.db.bookmarks == sys.db.bookmarks[row.id := row]
      && WrittenNew(row, s.request, row.id, row.createdAt)
      && NamesOf(after.db, row.id) == CleanNames(s.request.tags)
      && after.sessions[sid].phase == Saved(row.id)
  {
    InsertWritesExactly(sys.db, sys.sessions[sid]);
  }

  lemma InsertWritesExactly(db: Database, s: Session)
    requires Valid(db) && SessionFits(db, s) && s.phase.Inserted?
    ensures
      var p := s.phase;
      var after := CommitCreate(db, p.row, TagSet(p.byName), p.pending);
      && s.request.Create? && Valid(after)
      && p.row.id !in db.bookmarks && after.bookmarks == db.bookmarks[p.row.id := p.row]
      && WrittenNew(p.row, s.request, p.row.id, p.row.createdAt)
      && NamesOf(after, p.row.id) == CleanNames(s.request.tags)
  {
    var p := s.phase;
    ResolvedAreClean(s.request, p.byName);
    InsertedNames(db, p.row, p.byName, p.pending);
  }

  lemma ResolvedAreClean(r: Request, byName: map<string, int>)
    requires r.Create? && ResolvingFits(r, [], byName)
    ensures byName.Keys == CleanNames(r.tags)
  {
    NamesAreClean(r.tags);
  }

  lemma InsertedNames(db: Database, row: Bookmark, byName: map<string, int>, pending: map<int, string>)
    requires Valid(db) && row.id in db.drawn && row.version == 1
    requires NamesFit(db, byName, pending) && PendingFits(db, pending)
    ensures
      var after := CommitCreate(db, row, TagSet(byName), pending);
      && Valid(after) && after.bookmarks == db.bookmarks[row.id := row] && NamesOf(after, row.id) == byName.Keys
  {
    InsertPublished(db, row, byName, pending);
    var after := CommitCreate(db, row, TagSet(byName), pending);
    assert NamesOf(after, row.id) == View(after)[row.id].tags;
  }

  /** What a tag-only update would commit if the repository did not force the row into the UPDATE:
      link rows by difference alone, with no version to compare and none to raise. */
  function UnforcedTagUpdate(db: Database, load: Loaded, tags: set<int>): Option<Database> {
    var id, removed, added := load.row.id, load.tags - tags, tags - load.tags;
    if !(removed <= LinksOf(db, id)) || added * LinksOf(db, id) != {} then None
    else Some(db.(links := db.links - LinkRows(id, removed) + LinkRows(id, added)))
  }

  lemma UnforcedLinks(db: Database, load: Loaded, tags: set<int>)
    requires UnforcedTagUpdate(db, load, tags).Some?
    ensures
      LinksOf(UnforcedTagUpdate(db, load, tags).value, load.row.id) ==
      LinksOf(db, load.row.id) - (load.tags - tags) + (tags - load.tags)
  {
    var id, db' := load.row.id, UnforcedTagUpdate(db, load, tags).value;
    forall t ensures t in LinksOf(db', id) <==>
                     t in LinksOf(db, id) - (load.tags - tags) + (tags - load.tags)
    {
      assert t in LinksOf(db', id) <==> Link(id, t) in db'.links;
      assert t in LinksOf(db, id) <==> Link(id, t) in db.links;
    }
  }

  /** Why it must be forced. Of two tag-only edits of one load, whatever tags it had, the later would
      commit too unless the link rows happen to collide; it would leave its own tags only if the
      earlier edit kept what they share with the load and added nothing else; and the version, so the
      ETag, would not have moved. */
  lemma UnforcedUpdatesMix(db: Database, row: Bookmark, mine: set<int>, theirs: set<int>)
    ensures
      var load := Loaded(row, LinksOf(db, row.id));
      var after := UnforcedTagUpdate(db, load, theirs);
      && after.Some? && LinksOf(after.value, row.id) == theirs
      && var later := UnforcedTagUpdate(after.value, load, mine);
         && (later.Some? <==> load.tags - mine <= theirs && (mine - load.tags) * theirs == {})
         && (later.Some? ==>
               && later.value.bookmarks == db.bookmarks
               && LinksOf(later.value, row.id) == theirs - (load.tags - mine) + (mine - load.tags)
               && (LinksOf(later.value, row.id) == mine <==> load.tags * mine <= theirs <= load.tags + mine))
  {
    var load := Loaded(row, LinksOf(db, row.id));
    UnforcedLinks(db, load, theirs);
    var mid := UnforcedTagUpdate(db, load, theirs).value;
    assert LinksOf(mid, row.id) == theirs;
    if UnforcedTagUpdate(mid, load, mine).Some? {
      UnforcedLinks(mid, load, mine);
      MixIsMineIff(load.tags, mine, theirs);
    }
  }

  lemma MixIsMineIff(loaded: set<int>, mine: set<int>, theirs: set<int>)
    requires (mine - loaded) * theirs == {}
    ensures theirs - (loaded - mine) + (mine - loaded) == mine <==> loaded * mine <= theirs <= loaded + mine
  {
    var mix := theirs - (loaded - mine) + (mine - loaded);
    if mix == mine {
      forall t | t in loaded * mine ensures t in theirs { assert t in mix; }
      forall t | t in theirs ensures t in loaded + mine { assert t !in loaded ==> t in mix; }
    }
    if loaded * mine <= theirs <= loaded + mine {
      forall t ensures t in mix <==> t in mine {
        assert t in loaded * mine ==> t in theirs;
        assert t in theirs ==> t in loaded + mine;
      }
    }
  }

  /** No lost update: what a committed PUT replaces, row and tags, is what it loaded, and equals what
      any earlier response showed for that bookmark under that version, even if row and tags of that
      response were read at different moments; unless the header says `*`, it quotes that version's
      ETag. */
  lemma NoLostUpdate(states: seq<System>, actions: seq<Action>, k: nat, sid: int, now: int)
    requires IsRun(states, actions) && k < |actions| && actions[k] == Advance(sid, Commit(now))
    requires states[k].sessions[sid].request.Update? && states[k + 1].sessions[sid].phase.Saved?
    ensures
      var before, s := states[k], states[k].sessions[sid];
      && LoadOf(s).Some? && s.request.id in before.db.bookmarks
      && var replaced := Loaded(before.db.bookmarks[s.request.id], LinksOf(before.db, s.request.id));
         && LoadOf(s).value == replaced
         && (forall i :: 0 <= i < |before.shown| ==>
               (before.shown[i].row.id == replaced.row.id && before.shown[i].row.version == replaced.row.version ==>
                  before.shown[i] == replaced))
         && s.request.ifMatch.Some?
         && (ETag.HasStar(s.request.ifMatch.value) || ETag.Quotes(s.request.ifMatch.value, replaced.row.version))
  {
    var before := states[k];
    RunInv(states, actions, k);
    assert Enabled(before, actions[k]) && states[k + 1] == Step(before, actions[k]);
    CommittedOverShown(before, sid, now);
  }

  lemma CommittedOverShown(sys: System, sid: int, now: int)
    requires Inv(sys) && CanMove(sys, sid, Commit(now))
    requires sys.sessions[sid].request.Update? && Moved(sys, sid, Commit(now)).sessions[sid].phase.Saved?
    ensures
      var s := sys.sessions[sid];
      && LoadOf(s).Some? && s.request.id in sys.db.bookmarks
      && var replaced := Loaded(sys.db.bookmarks[s.request.id], LinksOf(sys.db, s.request.id));
         && LoadOf(s).value == replaced
         && (forall i :: 0 <= i < |sys.shown| ==>
               (sys.shown[i].row.id == replaced.row.id && sys.shown[i].row.version == replaced.row.version ==>
                  sys.shown[i] == replaced))
         && s.request.ifMatch.Some?
         && (ETag.HasStar(s.request.ifMatch.value) || ETag.Quotes(s.request.ifMatch.value, replaced.row.version))
  {
    var s := sys.sessions[sid];
    assert SessionFits(sys.db, s);
    CommitWinsIff(sys, sid, now);
    ETag.MatchesByStarOrQuote(s.request.ifMatch.value, LoadOf(s).value.row.version);
    forall i | 0 <= i < |sys.shown| ensures LoadFits(sys.db, sys.shown[i]) {}
  }

  /** The 412 of a lost race carries the current ETag, strictly newer than the one loaded, or none
      exactly when the requester's bookmark is gone at the re-read. */
  lemma LostRaceReport(sys: System, sid: int)
    requires Inv(sys) && CanMove(sys, sid, Refresh) && sys.sessions[sid].phase.Lost?
    ensures
      var s, after := sys.sessions[sid], Moved(sys, sid, Refresh);
      var id := s.phase.id;
      var there := id in sys.db.bookmarks && sys.db.bookmarks[id].owner == s.request.user;
      && after.sessions[sid].phase ==
           Done(PreconditionFailed(if there then Some(ETag.MakeETag(sys.db.bookmarks[id].version)) else None))
      && (there ==> sys.db.bookmarks[id].version > s.phase.version)
      && (forall v: nat :: there && ETag.MakeETag(v) == ETag.MakeETag(sys.db.bookmarks[id].version) ==>
            v > s.phase.version)
  {
    assert SessionFits(sys.db, sys.sessions[sid]);
    var s := sys.sessions[sid];
    if s.phase.id in sys.db.bookmarks {
      var current := sys.db.bookmarks[s.phase.id].version;
      forall v: nat | ETag.MakeETag(v) == ETag.MakeETag(current) ensures v == current {
        SameETag(v, current);
      }
    }
  }

  lemma SameETag(v: nat, w: nat)
    requires ETag.MakeETag(v) == ETag.MakeETag(w)
    ensures v == w
  {
    assert ETag.MakeETag(v)[1..|ETag.MakeETag(v)| - 1] == ETag.Decimal(v);
    assert ETag.MakeETag(w)[1..|ETag.MakeETag(w)| - 1] == ETag.Decimal(w);
    ETag.DecimalInjective(v, w);
  }

  // ---- Who wrote ----

  /** The answers of a request that was turned away. */
  predicate Refusal(r: Response) {
    r.NotFound? || r.PreconditionRequired? || r.PreconditionFailed? || r.Invalid?
  }

  predicate Committed(p: Phase) {
    p.Saved? || p.Refreshed?
  }

  predicate HasWritten(s: Session) {
    Committed(s.phase) || (s.phase.Done? && !Refusal(s.phase.response))
  }

  predicate MustHaveWritten(s: Session) {
    || Committed(s.phase) || s.phase == Done(Deleted)
    || (s.phase.Done? && s.phase.response.Shown? && !s.request.Get?)
  }

  predicate LoggedBy(log: seq<Entry>, sid: int) {
    exists i :: 0 <= i < |log| && log[i].sid == sid
  }

  /** Updates to one bookmark that were committed so far. */
  function UpdatesOf(log: seq<Entry>, id: int): nat {
    if log == [] then 0
    else
      var e := log[|log| - 1];
      UpdatesOf(log[..|log| - 1], id) + if e.request.Update? && e.id == id then 1 else 0
  }

  /** The log has one entry for each session that wrote, and versions count the updates. */
  ghost predicate HistoryFits(sys: System) {
    && (forall i :: 0 <= i < |sys.log| ==>
          && sys.log[i].sid in sys.sessions && HasWritten(sys.sessions[sys.log[i].sid])
          && sys.log[i].request == sys.sessions[sys.log[i].sid].request
          && sys.log[i].id < sys.db.nextBookmark && sys.log[i].id !in sys.db.drawn)
    && (forall i, j :: 0 <= i < j < |sys.log| ==> sys.log[i].sid != sys.log[j].sid)
    && (forall sid :: sid in sys.sessions && MustHaveWritten(sys.sessions[sid]) ==> LoggedBy(sys.log, sid))
    && (forall sid :: sid in sys.sessions ==> ModeFits(sys.sessions[sid]))
    && (forall id :: id in sys.db.bookmarks ==> sys.db.bookmarks[id].version == 1 + UpdatesOf(sys.log, id))
  }

  /** Only a create or an update is ever saved or edited; only a get is shown what it merely read. */
  predicate ModeFits(s: Session) {
    && (Committed(s.phase) ==> s.request.Create? || s.request.Update?)
    && (s.phase.Checked? ==> s.request.Update? || s.request.Delete?)
    && (s.phase.RowRead? || s.phase.FullyRead? ==> !s.request.Create?)
  }

  lemma {:induction false} NoEarlierUpdates(log: seq<Entry>, id: int)
    requires forall i :: 0 <= i < |log| ==> log[i].id != id
    ensures UpdatesOf(log, id) == 0
  {
    if log != [] { NoEarlierUpdates(log[..|log| - 1], id); }
  }

  lemma UpdatesSnoc(log: seq<Entry>, e: Entry, id: int)
    ensures UpdatesOf(log + [e], id) == UpdatesOf(log, id) + if e.request.Update? && e.id == id then 1 else 0
  {
    assert (log + [e])[..|log|] == log;
  }

  /** A step that commits nothing: log and tables are as before. */
  lemma QuietHistory(sys: System, sys': System, sid: int)
    requires HistoryFits(sys) && sid in sys'.sessions
    requires sys'.sessions == sys.sessions[sid := sys'.sessions[sid]]
    requires sys'.log == sys.log && sys'.db.bookmarks == sys.db.bookmarks
    requires sys.db.nextBookmark <= sys'.db.nextBookmark
    requires forall id :: id in sys'.db.drawn ==> id in sys.db.drawn || id >= sys.db.nextBookmark
    requires sid in sys.sessions ==> sys'.sessions[sid].request == sys.sessions[sid].request
    requires sid in sys.sessions && HasWritten(sys.sessions[sid]) ==> HasWritten(sys'.sessions[sid])
    requires sid !in sys.sessions ==> !LoggedBy(sys.log, sid)
    requires MustHaveWritten(sys'.sessions[sid]) ==> LoggedBy(sys.log, sid)
    requires ModeFits(sys'.sessions[sid])
    ensures HistoryFits(sys')
  {
  }

  /** What a logged mutation does to the bookmarks, as far as versions and ids go. */
  ghost predicate LoggedWrite(db: Database, db': Database, e: Entry) {
    && !e.request.Get?
    && db.nextBookmark <= db'.nextBookmark && e.id < db'.nextBookmark
    && db'.drawn <= db.drawn && e.id !in db'.drawn
    && (forall id :: id in db'.bookmarks && id != e.id ==> id in db.bookmarks && db'.bookmarks[id] == db.bookmarks[id])
    && (e.request.Update? && e.id in db'.bookmarks ==>
          e.id in db.bookmarks && db'.bookmarks[e.id].version == db.bookmarks[e.id].version + 1)
    && (e.request.Create? && e.id in db'.bookmarks ==> e.id in db.drawn && db'.bookmarks[e.id].version == 1)
    && (e.request.Delete? ==> e.id !in db'.bookmarks)
  }

  lemma CommitHistory(sys: System, sys': System, sid: int, e: Entry)
    requires HistoryFits(sys) && sid in sys.sessions && sid in sys'.sessions && e.sid == sid
    requires sys'.sessions == sys.sessions[sid := sys'.sessions[sid]]
    requires sys'.log == sys.log + [e] && LoggedWrite(sys.db, sys'.db, e)
    requires !HasWritten(sys.sessions[sid]) && HasWritten(sys'.sessions[sid])
    requires e.request == sys.sessions[sid].request == sys'.sessions[sid].request && ModeFits(sys'.sessions[sid])
    ensures HistoryFits(sys')
  {
    forall o | o in sys'.sessions && MustHaveWritten(sys'.sessions[o]) ensures LoggedBy(sys'.log, o) {
      if o == sid {
        assert sys'.log[|sys.log|].sid == sid;
      } else {
        var i :| 0 <= i < |sys.log| && sys.log[i].sid == o;
        assert sys'.log[i].sid == o;
      }
    }
    forall id | id in sys'.db.bookmarks ensures sys'.db.bookmarks[id].version == 1 + UpdatesOf(sys'.log, id) {
      UpdatesSnoc(sys.log, e, id);
      if id == e.id && e.request.Create? { NoEarlierUpdates(sys.log, id); }
    }
  }

  lemma UpdateLogged(
    db: Database, s: Session, load: Loaded, tags: set<int>, byName: map<string, int>, pending: map<int, string>,
    e: Entry)
    requires Valid(db) && ReadyToWrite(db, s, load, tags, byName, pending) && Current(db, load)
    requires s.request.Update? && e == Entry(e.sid, s.request, load.row.id, e.now)
    ensures
      var after := CommitUpdate(db, load, Edit(load.row, s.request.changes), tags, pending, e.now);
      after.Some? && LoggedWrite(db, after.value, e)
  {
    UpdateWins(db, s, load, tags, byName, pending, e);
  }

  lemma DeleteLogged(db: Database, s: Session, load: Loaded, e: Entry)
    requires Valid(db) && LoadFits(db, load) && Current(db, load)
    requires s.request.Delete? && e == Entry(e.sid, s.request, load.row.id, e.now)
    ensures CommitDelete(db, load).Some? && LoggedWrite(db, CommitDelete(db, load).value, e)
  {
    DeleteEffect(db, load);
  }

  lemma LostCommitHistory(
    sys: System, sid: int, load: Loaded, tags: set<int>, pending: map<int, string>, now: int)
    requires HistoryFits(sys) && sid in sys.sessions && !HasWritten(sys.sessions[sid]) && !Current(sys.db, load)
    ensures HistoryFits(FinishWrite(sys, sid, load, tags, pending, now))
  {
    QuietHistory(sys, FinishWrite(sys, sid, load, tags, pending, now), sid);
  }

  lemma WonUpdateHistory(
    sys: System, sid: int, load: Loaded, tags: set<int>, byName: map<string, int>, pending: map<int, string>, now: int)
    requires Inv(sys) && HistoryFits(sys) && sid in sys.sessions && !HasWritten(sys.sessions[sid])
    requires ReadyToWrite(sys.db, sys.sessions[sid], load, tags, byName, pending) && Current(sys.db, load)
    requires sys.sessions[sid].request.Update?
    ensures HistoryFits(FinishWrite(sys, sid, load, tags, pending, now))
  {
    var e := Entry(sid, sys.sessions[sid].request, load.row.id, now);
    UpdateLogged(sys.db, sys.sessions[sid], load, tags, byName, pending, e);
    CommitHistory(sys, FinishWrite(sys, sid, load, tags, pending, now), sid, e);
  }

  lemma WonDeleteHistory(
    sys: System, sid: int, load: Loaded, tags: set<int>, byName: map<string, int>, pending: map<int, string>, now: int)
    requires Inv(sys) && HistoryFits(sys) && sid in sys.sessions && !HasWritten(sys.sessions[sid])
    requires ReadyToWrite(sys.db, sys.sessions[sid], load, tags, byName, pending) && Current(sys.db, load)
    requires sys.sessions[sid].request.Delete?
    ensures HistoryFits(FinishWrite(sys, sid, load, tags, pending, now))
  {
    var e := Entry(sid, sys.sessions[sid].request, load.row.id, now);
    DeleteLogged(sys.db, sys.sessions[sid], load, e);
    CommitHistory(sys, FinishWrite(sys, sid, load, tags, pending, now), sid, e);
  }

  lemma FinishHistory(
    sys: System, sid: int, load: Loaded, tags: set<int>, byName: map<string, int>, pending: map<int, string>, now: int)
    requires Inv(sys) && HistoryFits(sys) && sid in sys.sessions && !HasWritten(sys.sessions[sid])
    requires ReadyToWrite(sys.db, sys.sessions[sid], load, tags, byName, pending)
    ensures HistoryFits(FinishWrite(sys, sid, load, tags, pending, now))
  {
    if !Current(sys.db, load) {
      LostCommitHistory(sys, sid, load, tags, pending, now);
    } else if sys.sessions[sid].request.Update? {
      WonUpdateHistory(sys, sid, load, tags, byName, pending, now);
    } else {
      WonDeleteHistory(sys, sid, load, tags, byName, pending, now);
    }
  }

  lemma LoadedCommitHistory(sys: System, sid: int, now: int)
    requires Inv(sys) && HistoryFits(sys) && CanMove(sys, sid, Commit(now)) && LoadOf(sys.sessions[sid]).Some?
    ensures HistoryFits(Moved(sys, sid, Commit(now)))
  {
    var tags, byName, pending := AtCommit(sys, sid, now);
    FinishHistory(sys, sid, LoadOf(sys.sessions[sid]).value, tags, byName, pending, now);
  }

  lemma InsertedCommitHistory(sys: System, sid: int, now: int)
    requires Inv(sys) && HistoryFits(sys) && CanMove(sys, sid, Commit(now)) && sys.sessions[sid].phase.Inserted?
    ensures HistoryFits(Moved(sys, sid, Commit(now)))
  {
    var s := sys.sessions[sid];
    assert SessionFits(sys.db, s);
    CommitHistory(
      sys, Moved(sys, sid, Commit(now)), sid, Entry(sid, s.request, s.phase.row.id, s.phase.row.createdAt));
  }

  /** Short of a commit, no step touches the tables proper, and ids only move forward. */
  lemma QuietMoveTables(sys: System, sid: int, move: Move)
    requires CanMove(sys, sid, move) && !move.Commit?
    ensures
      var sys' := Moved(sys, sid, move);
      && Drew(sys.db, sys'.db) && sys'.log == sys.log
      && sid in sys'.sessions && sys'.sessions == sys.sessions[sid := sys'.sessions[sid]]
      && sys'.sessions[sid].request == sys.sessions[sid].request
  {
  }

  lemma QuietMoveMode(sys: System, sid: int, move: Move)
    requires CanMove(sys, sid, move) && !move.Commit? && ModeFits(sys.sessions[sid])
    ensures sid in Moved(sys, sid, move).sessions && ModeFits(Moved(sys, sid, move).sessions[sid])
  {
  }

  lemma QuietMoveWritten(sys: System, sid: int, move: Move)
    requires CanMove(sys, sid, move) && !move.Commit? && ModeFits(sys.sessions[sid])
    ensures
      var s, sys' := sys.sessions[sid], Moved(sys, sid, move);
      && sid in sys'.sessions
      && (HasWritten(s) ==> HasWritten(sys'.sessions[sid]))
      && (MustHaveWritten(sys'.sessions[sid]) ==> Committed(s.phase))
  {
  }

  lemma QuietMoveHistory(sys: System, sid: int, move: Move)
    requires HistoryFits(sys) && CanMove(sys, sid, move) && !move.Commit?
    ensures HistoryFits(Moved(sys, sid, move))
  {
    assert ModeFits(sys.sessions[sid]);
    QuietMoveTables(sys, sid, move);
    QuietMoveMode(sys, sid, move);
    QuietMoveWritten(sys, sid, move);
    QuietHistory(sys, Moved(sys, sid, move), sid);
  }

  lemma StepHistory(sys: System, a: Action)
    requires Inv(sys) && HistoryFits(sys) && Enabled(sys, a)
    ensures HistoryFits(Step(sys, a))
  {
    match a
    case Arrive(sid, _) => QuietHistory(sys, Step(sys, a), sid);
    case Advance(sid, move) =>
      if move.Commit? && sys.sessions[sid].phase.Inserted? {
        InsertedCommitHistory(sys, sid, move.now);
      } else if move.Commit? {
        LoadedCommitHistory(sys, sid, move.now);
      } else {
        QuietMoveHistory(sys, sid, move);
      }
  }

  lemma {:induction false} RunHistory(states: seq<System>, actions: seq<Action>, i: nat)
    requires IsRun(states, actions) && i < |states|
    ensures HistoryFits(states[i])
  {
    if i > 0 {
      RunHistory(states, actions, i - 1);
      RunInv(states, actions, i - 1);
      StepHistory(states[i - 1], actions[i - 1]);
      assert states[i - 1 + 1] == Step(states[i - 1], actions[i - 1]);
    }
  }

  /** In every run: a request answered 404, 412, 428 or with a tag error, or on its way to a 412, has
      committed nothing; one that was answered with success has committed exactly once; and a
      bookmark's version is one more than the number of updates committed to it. */
  lemma ExactlyTheSuccessfulWrote(states: seq<System>, actions: seq<Action>, i: nat, sid: int)
    requires IsRun(states, actions) && i < |states| && sid in states[i].sessions
    ensures
      var sys, s := states[i], states[i].sessions[sid];
      && (s.phase.Lost? || (s.phase.Done? && Refusal(s.phase.response)) ==> !LoggedBy(sys.log, sid))
      && (MustHaveWritten(s) ==> LoggedBy(sys.log, sid))
      && (forall j, k :: 0 <= j < |sys.log| && 0 <= k < |sys.log| && sys.log[j].sid == sys.log[k].sid ==> j == k)
      && (forall j :: 0 <= j < |sys.log| && sys.log[j].sid == sid ==> sys.log[j].request == s.request)
  {
    RunHistory(states, actions, i);
  }

  lemma VersionCountsUpdates(states: seq<System>, actions: seq<Action>, i: nat, id: int)
    requires IsRun(states, actions) && i < |states| && id in states[i].db.bookmarks
    ensures states[i].db.bookmarks[id].version == 1 + UpdatesOf(states[i].log, id)
  {
    RunHistory(states, actions, i);
  }

  /** The tables move only when the log does: every step but a winning commit leaves them alone. */
  lemma OnlyLoggedStepsWrite(sys: System, a: Action)
    requires Inv(sys) && Enabled(sys, a) && Step(sys, a).log == sys.log
    ensures
      var db' := Step(sys, a).db;
      db'.bookmarks == sys.db.bookmarks && db'.links == sys.db.links && db'.tags == sys.db.tags
  {
    if a.Advance? {
      if !a.move.Commit? {
        QuietMoveTables(sys, a.sid, a.move);
      } else if LoadOf(sys.sessions[a.sid]).Some? {
        CommitWinsIff(sys, a.sid, a.move.now);
      }
    }
  }

  // ---- Owners ----

  ghost predicate Untouched(db: Database, db': Database, user: int, other: int) {
    && (forall t :: t in db.tags ==> t in db'.tags && db'.tags[t] == db.tags[t])
    && (other in db.bookmarks && db.bookmarks[other].owner != user ==>
          && other in db'.bookmarks && db'.bookmarks[other] == db.bookmarks[other]
          && LinksOf(db', other) == LinksOf(db, other))
    && (other in db'.bookmarks && db'.bookmarks[other].owner != user ==>
          other in db.bookmarks && db.bookmarks[other].owner == db'.bookmarks[other].owner)
  }

  lemma LoadedCommitUntouched(sys: System, sid: int, now: int, other: int)
    requires Inv(sys) && CanMove(sys, sid, Commit(now)) && LoadOf(sys.sessions[sid]).Some?
    ensures Untouched(sys.db, Moved(sys, sid, Commit(now)).db, sys.sessions[sid].request.user, other)
  {
    var s := sys.sessions[sid];
    assert SessionFits(sys.db, s);
    var load := LoadOf(s).value;
    var tags, byName, pending := AtCommit(sys, sid, now);
    if Current(sys.db, load) { WinningUntouched(sys.db, s, load, tags, byName, pending, now, other); }
  }

  lemma WinningUntouched(
    db: Database, s: Session, load: Loaded, tags: set<int>, byName: map<string, int>, pending: map<int, string>,
    now: int, other: int)
    requires Valid(db) && ReadyToWrite(db, s, load, tags, byName, pending) && Current(db, load)
    ensures
      var after :=
        if s.request.Update? then CommitUpdate(db, load, Edit(load.row, s.request.changes), tags, pending, now)
        else CommitDelete(db, load);
      after.Some? && Untouched(db, after.value, s.request.user, other)
  {
    if s.request.Update? {
      if Wanted(s.request).Some? { TagSetFits(db, byName, pending); }
      UpdateEffect(db, load, Edit(load.row, s.request.changes), tags, pending, now);
    } else {
      DeleteEffect(db, load);
    }
  }

  lemma QuietMoveUntouched(sys: System, sid: int, move: Move, other: int)
    requires CanMove(sys, sid, move) && !move.Commit?
    ensures Untouched(sys.db, Moved(sys, sid, move).db, sys.sessions[sid].request.user, other)
  {
    QuietMoveTables(sys, sid, move);
  }

  /** A step taken for one user leaves every other user's bookmarks, and their links, exactly as they
      were, although all users share the tag table. */
  lemma OthersUntouched(sys: System, sid: int, move: Move, other: int)
    requires Inv(sys) && CanMove(sys, sid, move)
    ensures Untouched(sys.db, Moved(sys, sid, move).db, sys.sessions[sid].request.user, other)
  {
    var s := sys.sessions[sid];
    if !move.Commit? {
      QuietMoveUntouched(sys, sid, move, other);
    } else if LoadOf(s).Some? {
      LoadedCommitUntouched(sys, sid, move.now, other);
    } else {
      assert SessionFits(sys.db, s);
      TagSetFits(sys.db, s.phase.byName, s.phase.pending);
      CreateEffect(sys.db, s.phase.row, TagSet(s.phase.byName), s.phase.pending);
    }
  }
}
