/** The in-memory login guard (app/utils/login_guard/guard.py) and the login that drives it
    (app/services/auth/service.py). */
module LoginGuard {
  import opened Common
  import opened Text

  // ---- Specification ----

  /** The limits in force: at least one failure, and a lockout of whole seconds. */
  datatype Limits = Limits(max: nat, lockout: int) {
    ghost predicate Valid() {
      max >= 1 && lockout > 0
    }
  }

  /** What the guard remembers of one key. */
  datatype Memory = Memory(count: nat, windowResetsAt: real, lockedUntil: real)

  type Memories = map<string, Memory>

  const BLANK := Memory(0, 0.0, 0.0)

  function Recall(ms: Memories, key: string): Memory {
    if key in ms then ms[key] else BLANK
  }

  /** `math.ceil`. */
  function Ceil(x: real): (n: int)
    ensures n as real >= x > (n - 1) as real
  {
    -(-x).Floor
  }

  /** The answer of `assert_not_locked`: None, or the seconds to wait. */
  function LockedFor(ms: Memories, key: string, now: real): Option<int> {
    if key in ms && ms[key].lockedUntil > now then
      var wait := Ceil(ms[key].lockedUntil - now);
      Some(if wait < 1 then 1 else wait)
    else None
  }

  /** One key's memory after a failure at the given time. */
  function Failed(m: Memory, limits: Limits, now: real): Memory {
    var fresh_ := if now > m.windowResetsAt then Memory(0, now + limits.lockout as real, m.lockedUntil) else m;
    var counted := fresh_.(count := fresh_.count + 1);
    if counted.count >= limits.max then counted.(lockedUntil := now + limits.lockout as real) else counted
  }

  // ---- The guard ----

  class Entry {
    var count: nat
    var windowResetsAt: real
    var lockedUntil: real

    constructor ()
      ensures Value() == BLANK
    {
      count, windowResetsAt, lockedUntil := 0, 0.0, 0.0;
    }

    function Value(): Memory
      reads this
    {
      Memory(count, windowResetsAt, lockedUntil)
    }

    /** The body of `record_failure` once the entry is found. */
    method Count(limits: Limits, now: real)
      modifies this
      ensures Value() == Failed(old(Value()), limits, now)
    {
      if now > windowResetsAt {
        count := 0;
        windowResetsAt := now + limits.lockout as real;
      }
      count := count + 1;
      if count >= limits.max {
        lockedUntil := now + limits.lockout as real;
      }
    }
  }

  class InMemoryLoginGuard {
    const limits: Limits
    var state: map<string, Entry>

    constructor (maxFailures: int, lockoutSeconds: int)
      ensures limits == Limits(if maxFailures < 1 then 1 else maxFailures, lockoutSeconds)
      ensures Valid() && Contents() == map[]
    {
      limits := Limits(if maxFailures < 1 then 1 else maxFailures, lockoutSeconds);
      state := map[];
    }

    /** No two keys share an entry. */
    ghost predicate Valid()
      reads this
    {
      forall k, l :: k in state && l in state && state[k] == state[l] ==> k == l
    }

    function Contents(): Memories
      reads this, state.Values
    {
      map k | k in state :: state[k].Value()
    }

    method AssertNotLocked(identifier: string, now: real) returns (retryAfter: Option<int>)
      ensures retryAfter == LockedFor(Contents(), Clean(identifier), now)
    {
      var key := Clean(identifier);
      if key in state && state[key].lockedUntil > now {
        var wait := Ceil(state[key].lockedUntil - now);
        return Some(if wait < 1 then 1 else wait);
      }
      return None;
    }

    method RecordFailure(identifier: string, now: real)
      requires Valid()
      modifies this, state.Values
      ensures Valid() && fresh(state.Values - old(state.Values))
      ensures
        var key := Clean(identifier);
        Contents() == old(Contents())[key := Failed(Recall(old(Contents()), key), limits, now)]
    {
      var key := Clean(identifier);
      ghost var before := Contents();
      if key !in state {
        var added := new Entry();
        state := state[key := added];
      }
      var entry := state[key];
      assert entry.Value() == Recall(before, key);
      entry.Count(limits, now);
      forall k | k in state && k != key ensures state[k].Value() == before[k] {
        assert state[k] != entry;
      }
    }

    method RecordSuccess(identifier: string)
      requires Valid()
      modifies this
      ensures Valid() && state.Values <= old(state.Values)
      ensures Contents() == old(Contents()) - {Clean(identifier)}
    {
      state := state - {Clean(identifier)};
    }

    method Clear()
      modifies this
      ensures Valid() && Contents() == map[]
    {
      state := map[];
    }
  }

  // ---- Logging in ----

  datatype User = User(id: int, username: string, email: string, passwordHash: string)

  /** `get_by_email`: the user whose lower-cased address is the cleaned one. */
  function FindUser(users: seq<User>, email: string): (r: Option<User>)
    ensures r.Some? ==> r.value in users && Lower(r.value.email) == Clean(email)
    ensures r.None? ==> forall u :: u in users ==> Lower(u.email) != Clean(email)
  {
    if users == [] then None
    else if Lower(users[0].email) == Clean(email) then Some(users[0])
    else FindUser(users[1..], email)
  }

  /** What registration keeps: addresses are stored clean, and none twice. */
  ghost predicate EmailsFit(users: seq<User>) {
    && (forall u :: u in users ==> u.email == Clean(u.email))
    && (forall i, j :: 0 <= i < j < |users| ==> users[i].email != users[j].email)
  }

  /** However the address is written at login, it finds the one user registered under its clean form. */
  lemma AnySpellingFinds(users: seq<User>, u: User, spelling: string)
    requires EmailsFit(users) && u in users
    ensures FindUser(users, spelling) == Some(u) <==> Clean(spelling) == u.email
  {
    CleanIdempotent(u.email);
    var found := FindUser(users, spelling);
    if found.Some? {
      CleanIdempotent(found.value.email);
      var i :| 0 <= i < |users| && users[i] == u;
      var j :| 0 <= j < |users| && users[j] == found.value;
    }
  }

  /** A 409 on the address or the user name, or the new user. */
  datatype Registration = EmailTaken | UsernameTaken | Registered(user: User)

  /** A 429 with its wait, a 401, or the user who is now logged in. */
  datatype LoginResult = Locked(retryAfter: int) | Rejected | Welcome(user: User)

  /** One login: the clock is read when the lock is checked, and again when a failure is recorded. */
  datatype Attempt = Attempt(email: string, checkedAt: real, recordedAt: real, user: Option<User>)

  datatype Outcome = Outcome(memories: Memories, result: LoginResult)

  /** The guard's part of a login; user is who the credentials identify, if anyone. */
  function LogIn(ms: Memories, limits: Limits, a: Attempt): Outcome {
    var key := Clean(a.email);
    var wait := LockedFor(ms, key, a.checkedAt);
    if wait.Some? then Outcome(ms, Locked(wait.value))
    else if a.user.None? then Outcome(ms[key := Failed(Recall(ms, key), limits, a.recordedAt)], Rejected)
    else Outcome(ms - {key}, Welcome(a.user.value))
  }

  class AuthService {
    var users: seq<User>
    const verify: (string, string) -> bool
    const guard: InMemoryLoginGuard

    constructor (users: seq<User>, verify: (string, string) -> bool, guard: InMemoryLoginGuard)
      ensures this.users == users && this.verify == verify && this.guard == guard
    {
      this.users, this.verify, this.guard := users, verify, guard;
    }

    /** id and passwordHash come from the database and the hasher. */
    method Register(id: int, username: string, email: string, passwordHash: string) returns (r: Registration)
      requires EmailsFit(users)
      modifies this`users
      ensures EmailsFit(users)
      ensures r.EmailTaken? <==> exists u :: u in old(users) && u.email == Clean(email)
      ensures r.UsernameTaken? <==> !r.EmailTaken? && exists u :: u in old(users) && u.username == username
      ensures
        users ==
        if r.Registered? then old(users) + [User(id, username, Clean(email), passwordHash)] else old(users)
      ensures r.Registered? ==> r.user == User(id, username, Clean(email), passwordHash)
    {
      var clean := Clean(email);
      CleanIdempotent(email);
      forall u | u in users ensures Lower(u.email) == u.email { CleanIdempotent(u.email); }
      if FindUser(users, clean).Some? {
        return EmailTaken;
      }
      if exists u :: u in users && u.username == username {
        return UsernameTaken;
      }
      var user := User(id, username, clean, passwordHash);
      users := users + [user];
      return Registered(user);
    }

    /** Who the credentials identify. */
    function Identify(email: string, password: string): Option<User>
      reads this
    {
      var found := FindUser(users, email);
      if found.Some? && verify(password, found.value.passwordHash) then found else None
    }

    /** Someone is identified exactly by a registered address and a password that verifies. */
    lemma IdentifyMeans(email: string, password: string)
      requires EmailsFit(users)
      ensures
        var u := Identify(email, password);
        && (u.Some? ==>
              u.value in users && u.value.email == Clean(email) && verify(password, u.value.passwordHash))
        && (u.None? ==> forall v :: v in users && v.email == Clean(email) ==> !verify(password, v.passwordHash))
    {
      var found := FindUser(users, email);
      forall v | v in users && v.email == Clean(email) ensures found == Some(v) { AnySpellingFinds(users, v, email); }
      if found.Some? { CleanIdempotent(found.value.email); }
    }

    method Login(email: string, password: string, checkedAt: real, recordedAt: real) returns (r: LoginResult)
      requires guard.Valid()
      modifies guard, guard.state.Values
      ensures guard.Valid()
      ensures
        var a := Attempt(email, checkedAt, recordedAt, Identify(email, password));
        var o := LogIn(old(guard.Contents()), guard.limits, a);
        guard.Contents() == o.memories && r == o.result
      ensures
        r.Locked? <==>
        Clean(email) in old(guard.Contents()) && old(guard.Contents())[Clean(email)].lockedUntil > checkedAt
      ensures
        r.Welcome? && EmailsFit(users) ==>
          r.user in users && r.user.email == Clean(email) && verify(password, r.user.passwordHash)
      ensures
        !r.Locked? && EmailsFit(users) ==>
          (r.Rejected? <==> forall u :: u in users && u.email == Clean(email) ==> !verify(password, u.passwordHash))
    {
      if EmailsFit(users) { IdentifyMeans(email, password); }
      var wait := guard.AssertNotLocked(email, checkedAt);
      if wait.Some? {
        return Locked(wait.value);
      }
      var found := FindUser(users, email);
      if found.None? {
        guard.RecordFailure(email, recordedAt);
        return Rejected;
      }
      if !verify(password, found.value.passwordHash) {
        guard.RecordFailure(email, recordedAt);
        return Rejected;
      }
      guard.RecordSuccess(email);
      return Welcome(found.value);
    }
  }
}
