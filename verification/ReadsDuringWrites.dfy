/** The read path on the states the write protocol reaches: what listings and statistics may rely on,
    and what one user can see of the others' requests. */
module ReadsDuringWrites {
  import opened Store
  import opened WriteProtocol
  import opened Serializability
  import opened WriteGuarantees
  import opened Queries
  import opened Listing
  import opened CursorWalk
  import opened Stats
  import opened Isolation

  // ---- Reachable tables ----

  /** Whatever requests ran, the tables have the keys that listings, counts and statistics need. */
  lemma ReachableTables(states: seq<System>, actions: seq<Action>, i: nat, t: Tables)
    requires IsRun(states, actions) && i < |states| && Scans(t, states[i].db)
    ensures Seen(t, states[i].db) && WellKeyed(t) && LinksResolve(t)
    ensures forall b :: b in t.bookmarks ==> b.id >= 1
  {
    var db := states[i].db;
    RunInv(states, actions, i);
    ScansAreKeyed(t, db);
    forall k | 0 <= k < |t.links| ensures HasId(t.tags, t.links[k].tag) {
      assert t.links[k] in t.links;
      var g := Tag(t.links[k].tag, db.tags[t.links[k].tag]);
      assert g in t.tags;
    }
  }

  /** Each page of a walk reads the tables as some moment of the run left them. */
  ghost predicate ScansOfRun(snaps: Snapshots, states: seq<System>, at: seq<nat>) {
    |at| == |snaps| && forall k :: 0 <= k < |at| ==> at[k] < |states| && Scans(snaps[k], states[at[k]].db)
  }

  /** A cursor walk while any number of write requests interleave with its pages: it ends within c
      pages, returns ids in strictly descending order, and returns exactly once every bookmark below
      its start that was there and matched whenever a page was read. */
  lemma WalkDuringRun(
    states: seq<System>, actions: seq<Action>, snaps: Snapshots, at: seq<nat>, collation: string -> real, q: Query,
    c: int)
    requires IsRun(states, actions) && ScansOfRun(snaps, states, at)
    ensures
      var pages := Walk(snaps, collation, q, c);
      && Descending(Items(pages))
      && (1 <= c <= |snaps| ==> Finished(pages) && |pages| <= c)
      && (Finished(pages) ==> forall id :: id < c && StaysWanted(snaps, q, id) ==> ReturnedOnce(Items(pages), id))
  {
    forall k | 0 <= k < |snaps| ensures WellKeyed(snaps[k]) && forall b :: b in snaps[k].bookmarks ==> b.id >= 1 {
      ReachableTables(states, actions, at[k], snaps[k]);
    }
    WalkDescends(snaps, collation, q, c);
    if 1 <= c <= |snaps| { WalkTerminates(snaps, collation, q, c); }
    var pages := Walk(snaps, collation, q, c);
    if Finished(pages) {
      forall id | id < c && StaysWanted(snaps, q, id) ensures ReturnedOnce(Items(pages), id) {
        WalkExactlyOnce(snaps, collation, q, c, id);
      }
    }
  }

  // ---- Non-interference ----

  ghost predicate NotBy(sys: System, a: Action, user: int) {
    a.Advance? ==> a.sid in sys.sessions && sys.sessions[a.sid].request.user != user
  }

  ghost predicate OnlyOthers(states: seq<System>, actions: seq<Action>, i: nat, j: nat, user: int) {
    j <= |actions| && j <= |states| && forall k :: i <= k < j ==> NotBy(states[k], actions[k], user)
  }

  lemma StepByOther(sys: System, a: Action, user: int)
    requires Inv(sys) && Enabled(sys, a) && NotBy(sys, a, user)
    ensures AgreeOn(sys.db, Step(sys, a).db, user)
  {
    if a.Advance? {
      var db, db' := sys.db, Step(sys, a).db;
      forall id ensures Untouched(db, db', sys.sessions[a.sid].request.user, id) {
        OthersUntouched(sys, a.sid, a.move, id);
      }
      forall id | Owned(db, user, id).Some? ensures LinksOf(db, id) == LinksOf(db', id) {
        assert Untouched(db, db', sys.sessions[a.sid].request.user, id);
      }
      forall id ensures Owned(db, user, id) == Owned(db', user, id) {
        assert Untouched(db, db', sys.sessions[a.sid].request.user, id);
      }
    }
    LinkedTagsStay(sys.db, Step(sys, a).db, user);
  }

  lemma LinkedTagsStay(db: Database, db': Database, user: int)
    requires Valid(db) && forall t :: t in db.tags ==> t in db'.tags && db'.tags[t] == db.tags[t]
    ensures forall id, g :: Owned(db, user, id).Some? && g in LinksOf(db, id) ==>
              g in db.tags && g in db'.tags && db.tags[g] == db'.tags[g]
  {
  }

  lemma AgreeTransitive(db: Database, mid: Database, db': Database, user: int)
    requires AgreeOn(db, mid, user) && AgreeOn(mid, db', user)
    ensures AgreeOn(db, db', user)
  {
    forall id | Owned(db, user, id).Some? ensures LinksOf(db, id) == LinksOf(db', id) {
      assert Owned(mid, user, id).Some?;
    }
  }

  lemma MomentByOther(states: seq<System>, actions: seq<Action>, k: nat, user: int)
    requires IsRun(states, actions) && k < |actions| && NotBy(states[k], actions[k], user)
    ensures AgreeOn(states[k].db, states[k + 1].db, user)
  {
    RunInv(states, actions, k);
    StepByOther(states[k], actions[k], user);
  }

  lemma {:induction false} OthersAgree(states: seq<System>, actions: seq<Action>, i: nat, j: nat, user: int)
    requires IsRun(states, actions) && i <= j < |states| && OnlyOthers(states, actions, i, j, user)
    ensures AgreeOn(states[i].db, states[j].db, user)
    decreases j
  {
    if i < j {
      OthersAgree(states, actions, i, j - 1, user);
      MomentByOther(states, actions, j - 1, user);
      AgreeTransitive(states[i].db, states[j - 1].db, states[j].db, user);
    } else {
      RunInv(states, actions, i);
      LinkedTagsStay(states[i].db, states[i].db, user);
    }
  }

  /** While only others' requests make progress, however many and however they interleave, none of a
      user's pages, totals or statistics changes, nor depends on how the tables are scanned. */
  lemma OthersAreInvisible(
    states: seq<System>, actions: seq<Action>, i: nat, j: nat, t: Tables, t': Tables,
    collation: string -> real, monthOf: int -> int, q: Query, page: int, cursor: int)
    requires IsRun(states, actions) && i <= j < |states| && OnlyOthers(states, actions, i, j, q.user)
    requires Scans(t, states[i].db) && Scans(t', states[j].db) && page >= 1
    ensures OffsetPage(t, t, collation, q, page) == OffsetPage(t', t', collation, q, page)
    ensures CursorPage(t, t, collation, q, cursor) == CursorPage(t', t', collation, q, cursor)
    ensures Discriminates(collation, t.tags) && Discriminates(collation, t'.tags) ==>
              GetStats(t, q.user, collation, monthOf) == GetStats(t', q.user, collation, monthOf)
  {
    ReachableTables(states, actions, i, t);
    ReachableTables(states, actions, j, t');
    OthersAgree(states, actions, i, j, q.user);
    OffsetPageIsolated(t, states[i].db, t', states[j].db, q, collation, page);
    CursorPageIsolated(t, states[i].db, t', states[j].db, q, collation, cursor);
    if Discriminates(collation, t.tags) && Discriminates(collation, t'.tags) {
      StatsIsolated(t, states[i].db, t', states[j].db, q.user, collation, monthOf);
    }
  }
}
