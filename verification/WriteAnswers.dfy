/** What the protocol answers, in every run: each refusal was due at some moment of its request, each
    success shows the requester's own bookmark, and every request comes to an end
    (app/services/bookmark/service.py). */
module WriteAnswers {
  import opened Common
  import opened Text
  import opened Store
  import opened TagNormalizer
  import opened Requests
  import opened WriteProtocol
  import opened Serializability
  import opened WriteGuarantees
  import ETag

  // ---- When a refusal is due ----

  ghost predicate OwnsIt(db: Database, r: Request)
    requires !r.Create?
  {
    r.id in db.bookmarks && db.bookmarks[r.id].owner == r.user
  }

  predicate HasHeader(ifMatch: Option<string>) {
    ifMatch.Some? && !AllBlank(ifMatch.value)
  }

  predicate NamesVersion(header: string, version: nat) {
    ETag.HasStar(header) || ETag.Quotes(header, version)
  }

  /** The requester's own bookmark, and an If-Match that lets the mutation pass. */
  ghost predicate MayWrite(db: Database, r: Request) {
    && (r.Update? || r.Delete?) && OwnsIt(db, r)
    && r.ifMatch.Some? && NamesVersion(r.ifMatch.value, db.bookmarks[r.id].version)
  }

  predicate TooLongOrMany(raw: seq<string>) {
    (exists i :: 0 <= i < |raw| && |Clean(raw[i])| > 50) || |CleanNames(raw)| > 30
  }

  /** What the tables and the request say about each refusal, in the clients' terms. */
  ghost predicate Due(db: Database, r: Request, answer: Response) {
    match answer
    case NotFound => !r.Create? && !OwnsIt(db, r)
    case PreconditionRequired(etag) =>
      && (r.Update? || r.Delete?) && OwnsIt(db, r)
      && !HasHeader(r.ifMatch)
      && etag == ETag.MakeETag(db.bookmarks[r.id].version)
    case PreconditionFailed(current) =>
      && (r.Update? || r.Delete?) && OwnsIt(db, r)
      && HasHeader(r.ifMatch) && !NamesVersion(r.ifMatch.value, db.bookmarks[r.id].version)
      && current == Some(ETag.MakeETag(db.bookmarks[r.id].version))
    case Invalid =>
      || (r.Create? && TooLongOrMany(r.tags))
      || (r.Update? && MayWrite(db, r) && r.changes.tags.Some? && TooLongOrMany(r.changes.tags.value))
    case _ => false
  }

  lemma RaisesIff(raw: seq<string>)
    ensures !Normalize(raw).Names? <==> TooLongOrMany(raw)
  {
    NormalizeExact(raw);
  }

  /** The serial specification refuses a request exactly when, and as, it is due. */
  lemma RefusedExactlyWhenDue(db: Database, e: Entry, answer: Response)
    requires Valid(db)
    ensures Serve(View(db), e).refusal == Some(answer) <==> Due(db, e.request, answer)
  {
    var r := e.request;
    if Wanted(r).Some? { RaisesIff(Wanted(r).value); }
    if (r.Update? || r.Delete?) && OwnsIt(db, r) {
      assert View(db)[r.id].row == db.bookmarks[r.id];
      PreconditionMeans(db.bookmarks[r.id].version, r.ifMatch);
    }
  }

  // ---- Refusals, over runs ----

  /** At some moment since the session arrived, the tables held this row. */
  ghost predicate WasThere(states: seq<System>, i: nat, sid: int, row: Bookmark) {
    exists k :: 0 <= k <= i && k < |states| && sid in states[k].sessions
                && row.id in states[k].db.bookmarks && states[k].db.bookmarks[row.id] == row
  }

  /** At some moment since the session arrived, this answer to its request was due. */
  ghost predicate WasDue(states: seq<System>, i: nat, sid: int, r: Request, answer: Response) {
    exists k :: 0 <= k <= i && k < |states| && sid in states[k].sessions && Due(states[k].db, r, answer)
  }

  ghost predicate WasLost(states: seq<System>, i: nat, sid: int) {
    exists k :: 0 <= k <= i && k < |states| && sid in states[k].sessions && states[k].sessions[sid].phase.Lost?
  }

  ghost predicate Traced(states: seq<System>, i: nat, sid: int)
    requires i < |states| && sid in states[i].sessions
  {
    var s := states[i].sessions[sid];
    match s.phase
    case RowRead(row) => WasThere(states, i, sid, row)
    case FullyRead(load) => WasThere(states, i, sid, load.row)
    case Checked(load) => WasThere(states, i, sid, load.row)
    case Editing(base, _, _, _) => base.Some? ==> WasThere(states, i, sid, base.value.row)
    case Done(answer) => Refusal(answer) ==> Explained(states, i, sid, s.request, answer)
    case _ => true
  }

  ghost predicate Explained(states: seq<System>, i: nat, sid: int, r: Request, answer: Response) {
    WasDue(states, i, sid, r, answer) || (answer.PreconditionFailed? && WasLost(states, i, sid))
  }

  lemma ThereLater(states: seq<System>, i: nat, sid: int, row: Bookmark)
    requires WasThere(states, i, sid, row)
    ensures WasThere(states, i + 1, sid, row)
  {
  }

  lemma ExplainedLater(states: seq<System>, i: nat, sid: int, r: Request, answer: Response)
    requires Explained(states, i, sid, r, answer)
    ensures Explained(states, i + 1, sid, r, answer)
  {
    if WasDue(states, i, sid, r, answer) {
      assert WasDue(states, i + 1, sid, r, answer);
    } else {
      assert WasLost(states, i + 1, sid);
    }
  }

  /** A session that did not move is traced as before. */
  lemma TracedLater(states: seq<System>, i: nat, sid: int)
    requires i + 1 < |states| && sid in states[i].sessions && sid in states[i + 1].sessions
    requires states[i + 1].sessions[sid] == states[i].sessions[sid] && Traced(states, i, sid)
    ensures Traced(states, i + 1, sid)
  {
    var s := states[i].sessions[sid];
    match s.phase
    case RowRead(row) => ThereLater(states, i, sid, row);
    case FullyRead(load) => ThereLater(states, i, sid, load.row);
    case Checked(load) => ThereLater(states, i, sid, load.row);
    case Editing(base, _, _, _) => if base.Some? { ThereLater(states, i, sid, base.value.row); }
    case Done(answer) => if Refusal(answer) { ExplainedLater(states, i, sid, s.request, answer); }
    case _ =>
  }

  /** A moment at which the row was there explains every refusal the loaded row calls for. */
  lemma LoadedExplains(states: seq<System>, i: nat, sid: int, r: Request, row: Bookmark, answer: Response)
    requires WasThere(states, i, sid, row) && Mine(r, row)
    requires forall db: Database :: row.id in db.bookmarks && db.bookmarks[row.id] == row ==> Due(db, r, answer)
    ensures Explained(states, i + 1, sid, r, answer)
  {
    var k :| 0 <= k <= i && k < |states| && sid in states[k].sessions
             && row.id in states[k].db.bookmarks && states[k].db.bookmarks[row.id] == row;
    assert Due(states[k].db, r, answer);
    assert WasDue(states, i + 1, sid, r, answer);
  }

  lemma NowExplains(states: seq<System>, i: nat, sid: int, r: Request, answer: Response)
    requires i < |states| && sid in states[i].sessions && Due(states[i].db, r, answer)
    ensures Explained(states, i + 1, sid, r, answer)
  {
    assert WasDue(states, i + 1, sid, r, answer);
  }

  /** Two consecutive states of a run, between which the session moved. */
  ghost predicate MovedBetween(states: seq<System>, i: nat, sid: int, move: Move) {
    && i + 1 < |states| && Inv(states[i]) && CanMove(states[i], sid, move)
    && states[i + 1] == Moved(states[i], sid, move)
  }

  lemma TracedReadRow(states: seq<System>, i: nat, sid: int)
    requires MovedBetween(states, i, sid, ReadRow) && Traced(states, i, sid)
    ensures sid in states[i + 1].sessions && Traced(states, i + 1, sid)
  {
    var s, s' := states[i].sessions[sid], states[i + 1].sessions[sid];
    if s'.phase.Done? {
      NowExplains(states, i, sid, s.request, NotFound);
    } else {
      assert WasThere(states, i + 1, sid, s'.phase.row);
    }
  }

  lemma TracedReadTags(states: seq<System>, i: nat, sid: int)
    requires MovedBetween(states, i, sid, ReadTags) && Traced(states, i, sid)
    ensures sid in states[i + 1].sessions && Traced(states, i + 1, sid)
  {
    var p := states[i].sessions[sid].phase;
    if p.RowRead? { ThereLater(states, i, sid, p.row); }
  }

  lemma TracedCheck(states: seq<System>, i: nat, sid: int)
    requires MovedBetween(states, i, sid, Check) && Traced(states, i, sid)
    ensures sid in states[i + 1].sessions && Traced(states, i + 1, sid)
  {
    var s := states[i].sessions[sid];
    assert SessionFits(states[i].db, s);
    var row, p' := s.phase.load.row, states[i + 1].sessions[sid].phase;
    if p'.Checked? {
      ThereLater(states, i, sid, row);
    } else if Refusal(p'.response) {
      PreconditionMeans(row.version, s.request.ifMatch);
      LoadedExplains(states, i, sid, s.request, row, p'.response);
    }
  }

  lemma TracedFindTags(states: seq<System>, i: nat, sid: int)
    requires MovedBetween(states, i, sid, FindTags) && Traced(states, i, sid)
    ensures sid in states[i + 1].sessions && Traced(states, i + 1, sid)
  {
    var s := states[i].sessions[sid];
    assert SessionFits(states[i].db, s);
    RaisesIff(Wanted(s.request).value);
    if s.request.Create? {
      if !Normalize(s.request.tags).Names? { NowExplains(states, i, sid, s.request, Invalid); }
    } else if Normalize(Wanted(s.request).value).Names? {
      ThereLater(states, i, sid, s.phase.load.row);
    } else {
      PreconditionMeans(s.phase.load.row.version, s.request.ifMatch);
      LoadedExplains(states, i, sid, s.request, s.phase.load.row, Invalid);
    }
  }

  lemma TracedAddTag(states: seq<System>, i: nat, sid: int, tag: int)
    requires MovedBetween(states, i, sid, AddTag(tag)) && Traced(states, i, sid)
    ensures sid in states[i + 1].sessions && Traced(states, i + 1, sid)
  {
    var base := states[i].sessions[sid].phase.base;
    if base.Some? { ThereLater(states, i, sid, base.value.row); }
  }

  lemma TracedRefresh(states: seq<System>, i: nat, sid: int)
    requires MovedBetween(states, i, sid, Refresh) && Traced(states, i, sid)
    ensures sid in states[i + 1].sessions && Traced(states, i + 1, sid)
  {
    if states[i].sessions[sid].phase.Lost? { assert WasLost(states, i + 1, sid); }
  }

  /** Inserting, committing and giving up answer nothing that would need an explanation. */
  lemma TracedOther(states: seq<System>, i: nat, sid: int, move: Move)
    requires MovedBetween(states, i, sid, move) && (move.Insert? || move.Commit? || move.Abort?)
    ensures sid in states[i + 1].sessions && Traced(states, i + 1, sid)
  {
  }

  lemma TracedMove(states: seq<System>, i: nat, sid: int, move: Move)
    requires MovedBetween(states, i, sid, move) && Traced(states, i, sid)
    ensures sid in states[i + 1].sessions && Traced(states, i + 1, sid)
  {
    match move
    case ReadRow => TracedReadRow(states, i, sid);
    case ReadTags => TracedReadTags(states, i, sid);
    case Check => TracedCheck(states, i, sid);
    case FindTags => TracedFindTags(states, i, sid);
    case AddTag(tag) => TracedAddTag(states, i, sid, tag);
    case Refresh => TracedRefresh(states, i, sid);
    case _ => TracedOther(states, i, sid, move);
  }

  /** Between two states of a run a session arrived, moved, or stayed as it was. */
  lemma TracedStep(states: seq<System>, actions: seq<Action>, i: nat, sid: int)
    requires IsRun(states, actions) && i + 1 < |states| && sid in states[i + 1].sessions
    requires sid in states[i].sessions ==> Traced(states, i, sid)
    ensures Traced(states, i + 1, sid)
  {
    RunInv(states, actions, i);
    var a := actions[i];
    assert Enabled(states[i], a) && states[i + 1] == Step(states[i], a);
    if a.sid == sid {
      if a.Advance? { TracedMove(states, i, sid, a.move); }
    } else {
      OthersStay(states[i], a, sid);
      TracedLater(states, i, sid);
    }
  }

  lemma OthersStay(sys: System, a: Action, sid: int)
    requires Enabled(sys, a) && a.sid != sid
    ensures sid in Step(sys, a).sessions <==> sid in sys.sessions
    ensures sid in sys.sessions ==> Step(sys, a).sessions[sid] == sys.sessions[sid]
  {
  }

  lemma {:induction false} RunTraced(states: seq<System>, actions: seq<Action>, i: nat, sid: int)
    requires IsRun(states, actions) && i < |states| && sid in states[i].sessions
    ensures Traced(states, i, sid)
  {
    if i > 0 {
      if sid in states[i - 1].sessions { RunTraced(states, actions, i - 1, sid); }
      TracedStep(states, actions, i - 1, sid);
    }
  }

  /** In every run, a request answered 404, 428, 412 or with a tag error deserved that very answer at
      some moment since it arrived, or is the 412 of a race lost at the commit. */
  lemma RefusalsAreDue(states: seq<System>, actions: seq<Action>, i: nat, sid: int)
    requires IsRun(states, actions) && i < |states| && sid in states[i].sessions
    requires states[i].sessions[sid].phase.Done? && Refusal(states[i].sessions[sid].phase.response)
    ensures
      var r, answer := states[i].sessions[sid].request, states[i].sessions[sid].phase.response;
      || (exists k :: 0 <= k <= i && sid in states[k].sessions && Due(states[k].db, r, answer))
      || (answer.PreconditionFailed?
          && exists k :: 0 <= k <= i && sid in states[k].sessions && states[k].sessions[sid].phase.Lost?)
  {
    RunTraced(states, actions, i, sid);
    var r, answer := states[i].sessions[sid].request, states[i].sessions[sid].phase.response;
    if WasDue(states, i, sid, r, answer) {
      var k :| 0 <= k <= i && k < |states| && sid in states[k].sessions && Due(states[k].db, r, answer);
    } else {
      var k :| 0 <= k <= i && k < |states| && sid in states[k].sessions && states[k].sessions[sid].phase.Lost?;
    }
  }

  /** The unhandled error has one of three causes: the session was given up, the name it was adding had
      been committed by another, or its bookmark was gone when it was to be read back. */
  lemma FailureHasACause(sys: System, sid: int, move: Move)
    requires Inv(sys) && CanMove(sys, sid, move) && Moved(sys, sid, move).sessions[sid].phase == Done(Failed)
    ensures
      var p := sys.sessions[sid].phase;
      || move.Abort?
      || (p.Editing? && p.todo != [] && HasName(sys.db.tags, p.todo[0]))
      || (p.Saved? && p.id !in sys.db.bookmarks)
  {
    assert SessionFits(sys.db, sys.sessions[sid]);
    if move.Check? && !sys.sessions[sid].request.Get? {
      PreconditionMeans(sys.sessions[sid].phase.load.row.version, sys.sessions[sid].request.ifMatch);
    }
  }

  // ---- Successes, over runs ----

  /** The row is that of the session's own mutation, at the version it wrote or a later one. */
  ghost predicate SawOwnWrite(log: seq<Entry>, sid: int, row: Bookmark) {
    exists j :: 0 <= j < |log| && log[j].sid == sid && log[j].id == row.id
                && row.version > UpdatesOf(log[..j + 1], row.id)
  }

  ghost predicate WroteAs(log: seq<Entry>, sid: int, id: int) {
    exists j :: 0 <= j < |log| && log[j].sid == sid && log[j].id == id
  }

  ghost predicate AnswerFits(sys: System, s: Session, sid: int) {
    match s.phase
    case Saved(id) => WroteAs(sys.log, sid, id)
    case Refreshed(row) => SawOwnWrite(sys.log, sid, row)
    case Done(answer) =>
      && (answer.Shown? ==> answer.load in sys.shown && !s.request.Delete?)
      && (answer.Shown? && !s.request.Get? ==> SawOwnWrite(sys.log, sid, answer.load.row))
      && (answer.Deleted? ==> s.request.Delete?)
    case _ => true
  }

  ghost predicate AnswersFit(sys: System) {
    forall sid :: sid in sys.sessions ==> AnswerFits(sys, sys.sessions[sid], sid)
  }

  lemma {:induction false} UpdatesGrow(log: seq<Entry>, n: nat, id: int)
    requires n <= |log|
    ensures UpdatesOf(log[..n], id) <= UpdatesOf(log, id)
    decreases |log| - n
  {
    if n < |log| {
      Snoc(log, n);
      UpdatesSnoc(log[..n], log[n], id);
      UpdatesGrow(log, n + 1, id);
    } else {
      TakeAll(log);
    }
  }

  /** The current row of a bookmark one has written is no older than one's own write. */
  lemma CurrentIsLater(sys: System, sid: int, id: int)
    requires HistoryFits(sys) && Valid(sys.db) && WroteAs(sys.log, sid, id) && id in sys.db.bookmarks
    ensures SawOwnWrite(sys.log, sid, sys.db.bookmarks[id])
  {
    var j :| 0 <= j < |sys.log| && sys.log[j].sid == sid && sys.log[j].id == id;
    UpdatesGrow(sys.log, j + 1, id);
    assert sys.db.bookmarks[id].version == 1 + UpdatesOf(sys.log, id);
  }

  lemma SawStill(log: seq<Entry>, e: Entry, sid: int, row: Bookmark)
    requires SawOwnWrite(log, sid, row)
    ensures SawOwnWrite(log + [e], sid, row)
  {
    var j :| 0 <= j < |log| && log[j].sid == sid && log[j].id == row.id
             && row.version > UpdatesOf(log[..j + 1], row.id);
    assert (log + [e])[..j + 1] == log[..j + 1] && (log + [e])[j] == log[j];
  }

  lemma WroteStill(log: seq<Entry>, e: Entry, sid: int, id: int)
    requires WroteAs(log, sid, id)
    ensures WroteAs(log + [e], sid, id)
  {
    var j :| 0 <= j < |log| && log[j].sid == sid && log[j].id == id;
    assert (log + [e])[j] == log[j];
  }

  /** Log and shown bookmarks only grow. */
  ghost predicate Grown(sys: System, sys': System) {
    && (sys'.log == sys.log || exists e :: sys'.log == sys.log + [e])
    && (sys'.shown == sys.shown || exists load :: sys'.shown == sys.shown + [load])
  }

  lemma AnswerStillFits(sys: System, sys': System, s: Session, sid: int)
    requires AnswerFits(sys, s, sid) && Grown(sys, sys')
    ensures AnswerFits(sys', s, sid)
  {
    if sys'.log != sys.log {
      var e :| sys'.log == sys.log + [e];
      match s.phase
      case Saved(id) => WroteStill(sys.log, e, sid, id);
      case Refreshed(row) => SawStill(sys.log, e, sid, row);
      case Done(answer) => if answer.Shown? && !s.request.Get? { SawStill(sys.log, e, sid, answer.load.row); }
      case _ =>
    }
  }

  lemma LoggedLast(log: seq<Entry>, e: Entry)
    ensures WroteAs(log + [e], e.sid, e.id)
  {
    assert (log + [e])[|log|] == e;
  }

  lemma CommitAnswers(sys: System, sid: int, now: int)
    requires Inv(sys) && CanMove(sys, sid, Commit(now))
    ensures
      var sys' := Moved(sys, sid, Commit(now));
      sid in sys'.sessions && Grown(sys, sys') && AnswerFits(sys', sys'.sessions[sid], sid)
  {
    var s, sys' := sys.sessions[sid], Moved(sys, sid, Commit(now));
    assert SessionFits(sys.db, s);
    if s.phase.Inserted? {
      LoggedLast(sys.log, Entry(sid, s.request, s.phase.row.id, s.phase.row.createdAt));
    } else {
      LoggedLast(sys.log, Entry(sid, s.request, LoadOf(s).value.row.id, now));
    }
  }

  lemma ReadAnswers(sys: System, sid: int, move: Move)
    requires Inv(sys) && HistoryFits(sys) && AnswersFit(sys) && CanMove(sys, sid, move)
    requires move.Check? || move.ReadTags? || move.Refresh?
    ensures
      var sys' := Moved(sys, sid, move);
      sid in sys'.sessions && Grown(sys, sys') && AnswerFits(sys', sys'.sessions[sid], sid)
  {
    var s := sys.sessions[sid];
    assert AnswerFits(sys, s, sid) && ModeFits(s);
    match move
    case Refresh =>
      if s.phase.Saved? && s.phase.id in sys.db.bookmarks { CurrentIsLater(sys, sid, s.phase.id); }
    case Check =>
      if !s.request.Get? { PreconditionMeans(s.phase.load.row.version, s.request.ifMatch); }
    case ReadTags =>
  }

  lemma QuietAnswers(sys: System, sid: int, move: Move)
    requires Inv(sys) && CanMove(sys, sid, move)
    requires !move.Commit? && !move.Check? && !move.ReadTags? && !move.Refresh?
    ensures
      var sys' := Moved(sys, sid, move);
      sid in sys'.sessions && Grown(sys, sys') && AnswerFits(sys', sys'.sessions[sid], sid)
  {
  }

  lemma MoveAnswers(sys: System, sid: int, move: Move)
    requires Inv(sys) && HistoryFits(sys) && AnswersFit(sys) && CanMove(sys, sid, move)
    ensures
      var sys' := Moved(sys, sid, move);
      sid in sys'.sessions && Grown(sys, sys') && AnswerFits(sys', sys'.sessions[sid], sid)
  {
    if move.Commit? {
      CommitAnswers(sys, sid, move.now);
    } else if move.Check? || move.ReadTags? || move.Refresh? {
      ReadAnswers(sys, sid, move);
    } else {
      QuietAnswers(sys, sid, move);
    }
  }

  lemma StepAnswers(sys: System, a: Action)
    requires Inv(sys) && HistoryFits(sys) && AnswersFit(sys) && Enabled(sys, a)
    ensures AnswersFit(Step(sys, a))
  {
    var sys' := Step(sys, a);
    if a.Advance? { MoveAnswers(sys, a.sid, a.move); }
    forall o | o in sys'.sessions ensures AnswerFits(sys', sys'.sessions[o], o) {
      if o != a.sid {
        OthersStay(sys, a, o);
        AnswerStillFits(sys, sys', sys.sessions[o], o);
      }
    }
  }

  lemma {:induction false} RunAnswers(states: seq<System>, actions: seq<Action>, i: nat)
    requires IsRun(states, actions) && i < |states|
    ensures AnswersFit(states[i])
  {
    if i > 0 {
      RunAnswers(states, actions, i - 1);
      RunInv(states, actions, i - 1);
      RunHistory(states, actions, i - 1);
      StepAnswers(states[i - 1], actions[i - 1]);
      assert states[i - 1 + 1] == Step(states[i - 1], actions[i - 1]);
    }
  }

  /** In every run, a bookmark shown as an answer is the requester's own and the one asked for; it is
      among the bookmarks shown; a create or an update is shown what it wrote, at the version it wrote
      or a later one; and only a delete is answered as one. */
  lemma AnswersShowTheirOwn(states: seq<System>, actions: seq<Action>, i: nat, sid: int)
    requires IsRun(states, actions) && i < |states| && sid in states[i].sessions
    requires states[i].sessions[sid].phase.Done?
    ensures
      var sys, r, answer := states[i], states[i].sessions[sid].request, states[i].sessions[sid].phase.response;
      && (answer.Shown? ==>
            && answer.load.row.owner == r.user && (!r.Create? ==> answer.load.row.id == r.id)
            && answer.load in sys.shown && !r.Delete?
            && (!r.Get? ==>
                  exists j :: 0 <= j < |sys.log| && sys.log[j].sid == sid && sys.log[j].id == answer.load.row.id
                              && answer.load.row.version > UpdatesOf(sys.log[..j + 1], answer.load.row.id)))
      && (answer.Deleted? ==> r.Delete?)
  {
    RunAnswers(states, actions, i);
    RunInv(states, actions, i);
    var sys, s := states[i], states[i].sessions[sid];
    assert SessionFits(sys.db, s) && AnswerFits(sys, s, sid);
    if s.phase.response.Shown? && !s.request.Get? {
      assert SawOwnWrite(sys.log, sid, s.phase.response.load.row);
    }
  }

  // ---- Every request ends ----

  /** More steps of its own a session never takes. */
  function StepsLeft(p: Phase): nat {
    match p
    case Arrived => 38
    case RowRead(_) => 37
    case FullyRead(_) => 36
    case Checked(_) => 35
    case Editing(_, todo, _, _) => 4 + |todo|
    case Inserted(_, _, _) => 3
    case Saved(_) => 2
    case Refreshed(_) => 1
    case Lost(_, _) => 1
    case Done(_) => 0
  }

  lemma {:induction false} MissingAtMost(tags: map<int, string>, names: seq<string>)
    ensures |Missing(tags, names)| <= |names|
  {
    if names != [] { MissingAtMost(tags, names[1..]); }
  }

  lemma FindTagsCountsDown(sys: System, sid: int)
    requires CanMove(sys, sid, FindTags)
    ensures sid in Moved(sys, sid, FindTags).sessions
    ensures StepsLeft(Moved(sys, sid, FindTags).sessions[sid].phase) < StepsLeft(sys.sessions[sid].phase)
  {
    var raw := Wanted(sys.sessions[sid].request).value;
    NormalizeExact(raw);
    if Normalize(raw).Names? {
      NamesAreClean(raw);
      MissingAtMost(sys.db.tags, Normalize(raw).names);
    }
  }

  /** Every move takes its session forward. */
  lemma MovesCountDown(sys: System, sid: int, move: Move)
    requires CanMove(sys, sid, move)
    ensures sid in Moved(sys, sid, move).sessions
    ensures StepsLeft(Moved(sys, sid, move).sessions[sid].phase) < StepsLeft(sys.sessions[sid].phase)
  {
    if move.FindTags? { FindTagsCountsDown(sys, sid); }
  }

  /** The steps a session has taken. */
  function StepsOf(actions: seq<Action>, sid: int): nat {
    if actions == [] then 0
    else
      var a := actions[|actions| - 1];
      StepsOf(actions[..|actions| - 1], sid) + if a.Advance? && a.sid == sid then 1 else 0
  }

  lemma StepCounts(sys: System, a: Action, sid: int)
    requires Enabled(sys, a) && sid in Step(sys, a).sessions
    ensures
      var left := StepsLeft(Step(sys, a).sessions[sid].phase);
      if sid !in sys.sessions then a == Arrive(sid, a.request) && left == 38
      else left + (if a.Advance? && a.sid == sid then 1 else 0) <= StepsLeft(sys.sessions[sid].phase)
  {
    if a.sid != sid {
      OthersStay(sys, a, sid);
    } else if a.Advance? {
      MovesCountDown(sys, sid, a.move);
    }
  }

  lemma {:induction false} NoStepsBefore(states: seq<System>, actions: seq<Action>, i: nat, sid: int)
    requires IsRun(states, actions) && i < |states| && sid !in states[i].sessions
    ensures StepsOf(actions[..i], sid) == 0
  {
    if i > 0 {
      var sys, a := states[i - 1], actions[i - 1];
      assert Enabled(sys, a) && states[i - 1 + 1] == Step(sys, a);
      if a.sid != sid { OthersStay(sys, a, sid); }
      if a.Advance? && a.sid == sid { MovesCountDown(sys, sid, a.move); }
      NoStepsBefore(states, actions, i - 1, sid);
      Snoc(actions, i - 1);
    }
  }

  lemma StepAt(states: seq<System>, actions: seq<Action>, i: nat, sid: int)
    requires IsRun(states, actions) && i < |actions| && sid in states[i + 1].sessions
    ensures
      var left, taken := StepsLeft(states[i + 1].sessions[sid].phase), StepsOf(actions[..i + 1], sid);
      if sid !in states[i].sessions then left == 38 && taken == StepsOf(actions[..i], sid)
      else left + taken <= StepsLeft(states[i].sessions[sid].phase) + StepsOf(actions[..i], sid)
  {
    assert Enabled(states[i], actions[i]) && states[i + 1] == Step(states[i], actions[i]);
    StepCounts(states[i], actions[i], sid);
    Snoc(actions, i);
  }

  /** In every run no session takes more than 38 steps of its own. */
  lemma {:induction false} RequestsEnd(states: seq<System>, actions: seq<Action>, i: nat, sid: int)
    requires IsRun(states, actions) && i < |states| && sid in states[i].sessions
    ensures StepsOf(actions[..i], sid) + StepsLeft(states[i].sessions[sid].phase) <= 38
  {
    if i > 0 {
      StepAt(states, actions, i - 1, sid);
      if sid in states[i - 1].sessions {
        RequestsEnd(states, actions, i - 1, sid);
      } else {
        NoStepsBefore(states, actions, i - 1, sid);
      }
    }
  }

  /** The step a session takes next; the arguments are what the database would supply. */
  function NextMove(s: Session, tag: int, id: int, now: int): Move {
    match s.phase
    case Arrived => if s.request.Create? then FindTags else ReadRow
    case RowRead(_) => ReadTags
    case FullyRead(_) => Check
    case Checked(_) => if Wanted(s.request).Some? then FindTags else Commit(now)
    case Editing(_, todo, _, _) =>
      if todo != [] then AddTag(tag) else if s.request.Create? then Insert(id, now) else Commit(now)
    case Inserted(_, _, _) => Commit(now)
    case Saved(_) => Refresh
    case Refreshed(_) => ReadTags
    case Lost(_, _) => Refresh
    case Done(_) => Abort
  }

  /** Whatever the others do, a session without an answer can take its next step, with any fresh ids and
      at any time, unless another open transaction holds the tag name it is about to add. */
  lemma NeverStuck(sys: System, sid: int, tag: int, id: int, now: int)
    requires Inv(sys) && sid in sys.sessions && !sys.sessions[sid].phase.Done?
    requires tag >= sys.db.nextTag && id >= sys.db.nextBookmark
    ensures
      var p := sys.sessions[sid].phase;
      || CanMove(sys, sid, NextMove(sys.sessions[sid], tag, id, now))
      || (p.Editing? && p.todo != []
          && exists other, t :: other in sys.sessions && other != sid && t in Pending(sys.sessions[other])
                                && Pending(sys.sessions[other])[t] == p.todo[0])
  {
    var s := sys.sessions[sid];
    assert SessionFits(sys.db, s);
    if s.phase.Editing? && s.phase.todo != [] && HeldElsewhere(sys, sid, s.phase.todo[0]) {
      var other :| other in sys.sessions && other != sid && HasName(Pending(sys.sessions[other]), s.phase.todo[0]);
      var t :| t in Pending(sys.sessions[other]) && Pending(sys.sessions[other])[t] == s.phase.todo[0];
    }
  }
}
