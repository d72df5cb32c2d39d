/** A unit of work on the shared tables, and get-or-create of tags in it (app/repositories/tag/repository.py). */
module TagRepository {
  import opened Common
  import opened Store

  // ---- Specification ----

  /** The tag rows a transaction sees after resolving names, the next free id, and one id per name. */
  datatype Resolved = Resolved(tags: map<int, string>, next: int, ids: seq<int>)

  ghost predicate TagsFit(tags: map<int, string>, next: int) {
    UniqueNames(tags) && 0 < next && forall t :: t in tags ==> 0 < t < next
  }

  /** One name: the row that has it, or a new one. */
  ghost function ResolveOne(r: Resolved, name: string): Resolved {
    if HasName(r.tags, name) then r.(ids := r.ids + [IdOf(r.tags, name)])
    else Resolved(r.tags[r.next := name], r.next + 1, r.ids + [r.next])
  }

  ghost function Resolve(tags: map<int, string>, next: int, names: seq<string>): Resolved {
    if names == [] then Resolved(tags, next, [])
    else ResolveOne(Resolve(tags, next, names[..|names| - 1]), names[|names| - 1])
  }

  /** Names unique, the original rows unchanged, exactly the missing names added under fresh ids. */
  ghost predicate RowsFit(tags: map<int, string>, next: int, names: seq<string>, r: Resolved) {
    && TagsFit(r.tags, r.next) && next <= r.next
    && (forall t :: t in tags ==> t in r.tags && r.tags[t] == tags[t])
    && (forall t :: t in r.tags && t !in tags ==> t >= next && !HasName(tags, r.tags[t]))
    && (forall n :: HasName(r.tags, n) <==> HasName(tags, n) || n in names)
  }

  /** One row per name, in order. */
  ghost predicate IdsFit(names: seq<string>, r: Resolved) {
    |r.ids| == |names| && forall i :: 0 <= i < |names| ==> r.ids[i] in r.tags && r.tags[r.ids[i]] == names[i]
  }

  lemma AddedName(tags: map<int, string>, id: int, name: string, n: string)
    requires id !in tags
    ensures HasName(tags[id := name], n) <==> HasName(tags, n) || n == name
  {
    var added := tags[id := name];
    assert added[id] == name;
    if t :| t in tags && tags[t] == n { assert added[t] == n; }
  }

  lemma RowsStep(tags: map<int, string>, next: int, front: seq<string>, r: Resolved, name: string)
    requires TagsFit(tags, next) && RowsFit(tags, next, front, r)
    ensures RowsFit(tags, next, front + [name], ResolveOne(r, name))
  {
    if !HasName(r.tags, name) {
      forall n ensures HasName(r.tags[r.next := name], n) <==> HasName(r.tags, n) || n == name {
        AddedName(r.tags, r.next, name, n);
      }
    }
  }

  lemma IdsStep(front: seq<string>, r: Resolved, name: string)
    requires IdsFit(front, r) && TagsFit(r.tags, r.next)
    ensures IdsFit(front + [name], ResolveOne(r, name))
  {
  }

  /** Names stay unique, existing rows unchanged; one tag per name in order, equal names sharing one
      row; exactly the missing names are added. */
  lemma {:induction false} ResolveExact(tags: map<int, string>, next: int, names: seq<string>)
    requires TagsFit(tags, next)
    ensures RowsFit(tags, next, names, Resolve(tags, next, names)) && IdsFit(names, Resolve(tags, next, names))
  {
    if names != [] {
      var front, name := names[..|names| - 1], names[|names| - 1];
      ResolveExact(tags, next, front);
      assert names == front + [name];
      RowsStep(tags, next, front, Resolve(tags, next, front), name);
      IdsStep(front, Resolve(tags, next, front), name);
    }
  }

  /** Resolving the same names again adds no row and returns the same ids. */
  lemma ResolveAgain(tags: map<int, string>, next: int, names: seq<string>)
    requires TagsFit(tags, next)
    ensures
      var r := Resolve(tags, next, names);
      Resolve(r.tags, r.next, names) == r
  {
    var r := Resolve(tags, next, names);
    ResolveExact(tags, next, names);
    forall i | 0 <= i < |names| ensures HasName(r.tags, names[i]) { assert r.tags[r.ids[i]] == names[i]; }
    ResolveExisting(r.tags, r.next, names);
    ResolveExact(r.tags, r.next, names);
    SameIds(r.tags, names, r.ids, Resolve(r.tags, r.next, names).ids);
  }

  lemma SameIds(tags: map<int, string>, names: seq<string>, ids: seq<int>, ids': seq<int>)
    requires UniqueNames(tags) && |ids| == |ids'| == |names|
    requires forall i :: 0 <= i < |names| ==> ids[i] in tags && tags[ids[i]] == names[i]
    requires forall i :: 0 <= i < |names| ==> ids'[i] in tags && tags[ids'[i]] == names[i]
    ensures ids == ids'
  {
    forall i | 0 <= i < |names| ensures ids[i] == ids'[i] {}
  }

  lemma {:induction false} ResolveExisting(tags: map<int, string>, next: int, names: seq<string>)
    requires forall i :: 0 <= i < |names| ==> HasName(tags, names[i])
    ensures Resolve(tags, next, names).tags == tags && Resolve(tags, next, names).next == next
  {
    if names != [] { ResolveExisting(tags, next, names[..|names| - 1]); }
  }

  predicate AskedFor(calls: seq<seq<string>>, name: string) {
    exists i :: 0 <= i < |calls| && name in calls[i]
  }

  /** Any sequence of calls. */
  ghost function ResolveAll(tags: map<int, string>, next: int, calls: seq<seq<string>>): Resolved {
    if calls == [] then Resolved(tags, next, [])
    else
      var r := ResolveAll(tags, next, calls[..|calls| - 1]);
      Resolve(r.tags, r.next, calls[|calls| - 1])
  }

  /** Names unique, the original rows unchanged, and a row for exactly the original names and those
      asked for. */
  ghost predicate CallsFit(tags: map<int, string>, calls: seq<seq<string>>, r: Resolved) {
    && TagsFit(r.tags, r.next)
    && (forall t :: t in tags ==> t in r.tags && r.tags[t] == tags[t])
    && (forall n :: HasName(r.tags, n) <==> HasName(tags, n) || AskedFor(calls, n))
  }

  lemma AskedSnoc(front: seq<seq<string>>, call: seq<string>, n: string)
    ensures AskedFor(front + [call], n) <==> AskedFor(front, n) || n in call
  {
    var calls := front + [call];
    assert calls[|front|] == call;
    if i :| 0 <= i < |front| && n in front[i] { assert n in calls[i]; }
  }

  lemma CallsStep(tags: map<int, string>, front: seq<seq<string>>, before: Resolved, call: seq<string>)
    requires CallsFit(tags, front, before)
    ensures CallsFit(tags, front + [call], Resolve(before.tags, before.next, call))
  {
    ResolveExact(before.tags, before.next, call);
    forall n ensures AskedFor(front + [call], n) <==> AskedFor(front, n) || n in call { AskedSnoc(front, call, n); }
  }

  /** Over any sequence of calls names stay unique, no row ever changes, and the rows are the
      original ones plus exactly one for each new name that was ever asked for. */
  lemma {:induction false} ResolveAllExact(tags: map<int, string>, next: int, calls: seq<seq<string>>)
    requires TagsFit(tags, next)
    ensures CallsFit(tags, calls, ResolveAll(tags, next, calls))
  {
    if calls != [] {
      var front, call := calls[..|calls| - 1], calls[|calls| - 1];
      ResolveAllExact(tags, next, front);
      CallsStep(tags, front, ResolveAll(tags, next, front), call);
      assert calls == front + [call];
    }
  }

  /** Distinct names resolve to distinct tags, so the links made of them repeat no pair. */
  lemma DistinctNamesDistinctTags(tags: map<int, string>, next: int, names: seq<string>)
    requires TagsFit(tags, next) && Distinct(names)
    ensures Distinct(Resolve(tags, next, names).ids)
  {
    ResolveExact(tags, next, names);
  }

  // ---- The tables and a session on them ----

  class Server {
    var db: Database

    constructor (db: Database)
      ensures this.db == db
    {
      this.db := db;
    }
  }

  /** A database session: tag rows it has flushed stay its own until it commits. */
  class Session {
    const server: Server
    var pending: map<int, string>

    constructor (server: Server)
      ensures this.server == server && pending == map[]
    {
      this.server := server;
      this.pending := map[];
    }

    ghost predicate Fits()
      reads this, server
    {
      Valid(server.db) && PendingFits(server.db, pending)
    }

    /** The tag rows this transaction sees. */
    function Visible(): map<int, string>
      reads this, server
    {
      server.db.tags + pending
    }

    /** `add` and `flush` of a new tag: its id is drawn, its row stays private. */
    method Flush(name: string) returns (id: int)
      requires Fits() && !HasName(Visible(), name)
      modifies this, server`db
      ensures Fits() && id == old(server.db.nextTag)
      ensures server.db == old(server.db).(nextTag := id + 1)
      ensures pending == old(pending)[id := name] && Visible() == old(Visible())[id := name]
    {
      Flushed(server.db, pending, name);
      id := server.db.nextTag;
      server.db := server.db.(nextTag := id + 1);
      pending := pending[id := name];
    }
  }

  /** `SELECT ... WHERE name IN (names)`, keyed by name. */
  function SelectByName(tags: map<int, string>, names: seq<string>): map<string, int>
    requires UniqueNames(tags)
  {
    map t | t in tags && tags[t] in names :: tags[t] := t
  }

  class TagRepository {
    const session: Session

    constructor (session: Session)
      ensures this.session == session
    {
      this.session := session;
    }

    /** The loop over the requested names: an index by name, a flush for each one it lacks. */
    method GetOrCreate(names: seq<string>) returns (ids: seq<int>)
      requires session.Fits()
      modifies session, session.server`db
      ensures session.Fits()
      ensures
        var r := Resolve(old(session.Visible()), old(session.server.db.nextTag), names);
        && ids == r.ids && session.Visible() == r.tags
        && session.server.db == old(session.server.db).(nextTag := r.next)
      ensures Extends(old(session.pending), session.pending, names)
    {
      ids := [];
      if names == [] {
        return;
      }
      ghost var tags, next := session.Visible(), session.server.db.nextTag;
      PendingKeepsNames(session.server.db, session.pending);
      var byName := SelectByName(session.Visible(), names);
      for k := 0 to |names|
        invariant session.Fits()
        invariant Resolve(tags, next, names[..k]) == Resolved(session.Visible(), session.server.db.nextTag, ids)
        invariant session.server.db == old(session.server.db).(nextTag := session.server.db.nextTag)
        invariant Indexed(session.Visible(), byName, names)
        invariant Extends(old(session.pending), session.pending, names)
      {
        var name := names[k];
        ResolveSnoc(tags, next, names, k);
        PendingKeepsNames(session.server.db, session.pending);
        OneName(session.Visible(), session.server.db.nextTag, byName, names, name, ids);
        if name !in byName {
          var id := session.Flush(name);
          byName := byName[name := id];
        }
        ids := ids + [byName[name]];
      }
      TakeAll(names);
    }
  }

  /** The index holds the visible rows of the requested names. */
  ghost predicate Indexed(tags: map<int, string>, byName: map<string, int>, names: seq<string>) {
    && (forall n :: n in byName ==> byName[n] in tags && tags[byName[n]] == n)
    && (forall t :: t in tags && tags[t] in names ==> tags[t] in byName)
  }

  /** The pending rows of before, and new ones for some of the names. */
  ghost predicate Extends(before: map<int, string>, after: map<int, string>, names: seq<string>) {
    && (forall t :: t in before ==> t in after && after[t] == before[t])
    && (forall t :: t in after && t !in before ==> after[t] in names)
  }

  lemma IndexFinds(tags: map<int, string>, byName: map<string, int>, names: seq<string>, name: string)
    requires Indexed(tags, byName, names) && UniqueNames(tags) && name in names
    ensures name in byName <==> HasName(tags, name)
    ensures name in byName ==> byName[name] == IdOf(tags, name)
  {
    if HasName(tags, name) {
      var t :| t in tags && tags[t] == name;
      assert tags[t] in byName;
    }
    if name in byName {
      var t: int := byName[name];
      assert t in tags && tags[t] == name;
    }
  }

  lemma IndexGrows(tags: map<int, string>, byName: map<string, int>, names: seq<string>, id: int, name: string)
    requires Indexed(tags, byName, names) && id !in tags && name !in byName
    ensures Indexed(tags[id := name], byName[name := id], names)
  {
  }

  /** One turn of the loop: what it does to the rows the transaction sees, and to its index. */
  lemma OneName(
    tags: map<int, string>, next: int, byName: map<string, int>, names: seq<string>, name: string, ids: seq<int>)
    requires UniqueNames(tags) && next !in tags && Indexed(tags, byName, names) && name in names
    ensures name in byName <==> HasName(tags, name)
    ensures
      var r := ResolveOne(Resolved(tags, next, ids), name);
      if name in byName then r == Resolved(tags, next, ids + [byName[name]])
      else
        && r == Resolved(tags[next := name], next + 1, ids + [next])
        && Indexed(tags[next := name], byName[name := next], names)
  {
    IndexFinds(tags, byName, names, name);
    if name !in byName { IndexGrows(tags, byName, names, next, name); }
  }

  lemma ResolveSnoc(tags: map<int, string>, next: int, names: seq<string>, k: nat)
    requires k < |names|
    ensures Resolve(tags, next, names[..k + 1]) == ResolveOne(Resolve(tags, next, names[..k]), names[k])
  {
    Snoc(names, k);
  }

  /** Flushing a name that no visible row has keeps the session consistent. */
  lemma Flushed(db: Database, pending: map<int, string>, name: string)
    requires Valid(db) && PendingFits(db, pending) && !HasName(db.tags + pending, name)
    ensures
      var id := db.nextTag;
      var db' := db.(nextTag := id + 1);
      && Valid(db') && PendingFits(db', pending[id := name])
      && db'.tags + pending[id := name] == (db.tags + pending)[id := name]
  {
    forall t | t in pending ensures pending[t] != name { assert t in db.tags + pending; }
    forall t | t in db.tags ensures db.tags[t] != name {
      assert t !in pending && (db.tags + pending)[t] == db.tags[t];
    }
  }
}
