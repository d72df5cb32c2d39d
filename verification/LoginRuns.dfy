/** The login guard over whole runs: how many failures it lets through, when a lock ends, and that
    accounts do not affect each other (app/utils/login_guard/guard.py, app/services/auth/service.py). */
module LoginRuns {
  import opened Common
  import opened Text
  import opened LoginGuard

  // ---- Runs ----

  function After(limits: Limits, run: seq<Attempt>): Memories {
    if run == [] then map[] else LogIn(After(limits, run[..|run| - 1]), limits, run[|run| - 1]).memories
  }

  /** The answer to the i-th attempt of a run. */
  function Answer(limits: Limits, run: seq<Attempt>, i: nat): LoginResult
    requires i < |run|
  {
    LogIn(After(limits, run[..i]), limits, run[i]).result
  }

  /** The attempts made under a key, in order; differently written addresses with one clean form are
      one key. */
  function OnKey(run: seq<Attempt>, key: string): seq<Attempt> {
    if run == [] then []
    else OnKey(run[..|run| - 1], key) + if Clean(run[|run| - 1].email) == key then [run[|run| - 1]] else []
  }

  /** Attempts one after the other on a positive clock that never goes back. Asked of OnKey(run, key)
      it leaves attempts on other keys free to overlap these in any way. */
  ghost predicate Sequential(run: seq<Attempt>) {
    && (forall i :: 0 <= i < |run| ==> 0.0 < run[i].checkedAt <= run[i].recordedAt)
    && (forall i, j :: 0 <= i < j < |run| ==> run[i].recordedAt <= run[j].checkedAt)
  }

  /** When the failures admitted for a key since its last success were recorded. */
  function FailuresSince(limits: Limits, run: seq<Attempt>, key: string): seq<real> {
    if run == [] then []
    else
      var front, a := run[..|run| - 1], run[|run| - 1];
      var before := FailuresSince(limits, front, key);
      if Clean(a.email) != key then before
      else match LogIn(After(limits, front), limits, a).result
        case Locked(_) => before
        case Rejected => before + [a.recordedAt]
        case Welcome(_) => []
  }

  // ---- One key's failures ----

  /** A key's memory after failures at these times, from none. */
  function MemoryAfter(limits: Limits, times: seq<real>): Memory {
    if times == [] then BLANK else Failed(MemoryAfter(limits, times[..|times| - 1]), limits, times[|times| - 1])
  }

  ghost predicate InOrder(times: seq<real>) {
    && (forall i :: 0 <= i < |times| ==> 0.0 < times[i])
    && (forall i, j :: 0 <= i < j < |times| ==> times[i] <= times[j])
  }

  /** Failure i comes no earlier than the end of any lock the ones before it set. */
  predicate NotLockedAt(limits: Limits, times: seq<real>, i: nat)
    requires i < |times|
  {
    MemoryAfter(limits, times[..i]).lockedUntil <= times[i]
  }

  /** Failures the guard admits: in time order, none while the ones before have it locked. */
  ghost predicate Admissible(limits: Limits, times: seq<real>) {
    InOrder(times) && forall i :: 0 <= i < |times| ==> NotLockedAt(limits, times, i)
  }

  lemma MemorySnoc(limits: Limits, times: seq<real>, t: real)
    ensures MemoryAfter(limits, times + [t]) == Failed(MemoryAfter(limits, times), limits, t)
  {
    TakeFront(times, t);
  }

  lemma AdmissibleSnoc(limits: Limits, times: seq<real>, t: real)
    requires Admissible(limits, times) && 0.0 < t && MemoryAfter(limits, times).lockedUntil <= t
    requires forall i :: 0 <= i < |times| ==> times[i] <= t
    ensures Admissible(limits, times + [t])
  {
    forall i | 0 <= i < |times + [t]| ensures NotLockedAt(limits, times + [t], i) {
      if i < |times| {
        assert NotLockedAt(limits, times, i);
        assert (times + [t])[..i] == times[..i];
      } else {
        assert (times + [t])[..i] == times;
      }
    }
  }

  lemma AdmissiblePrefix(limits: Limits, times: seq<real>, n: nat)
    requires Admissible(limits, times) && n <= |times|
    ensures Admissible(limits, times[..n])
  {
    forall i | 0 <= i < n ensures NotLockedAt(limits, times[..n], i) {
      assert NotLockedAt(limits, times, i);
      assert times[..n][..i] == times[..i];
    }
  }

  /** One login, as one key sees it. */
  lemma LogInOnKey(ms: Memories, limits: Limits, a: Attempt, key: string)
    ensures
      var o := LogIn(ms, limits, a);
      && (Clean(a.email) != key || o.result.Locked? ==>
            (key in o.memories <==> key in ms) && Recall(o.memories, key) == Recall(ms, key))
      && (Clean(a.email) == key && o.result.Rejected? ==>
            && key in o.memories && Recall(o.memories, key) == Failed(Recall(ms, key), limits, a.recordedAt)
            && (key in ms ==> Recall(ms, key).lockedUntil <= a.checkedAt))
      && (Clean(a.email) == key && o.result.Welcome? ==> key !in o.memories)
  {
  }

  /** What a run leaves of a key, in terms of its admitted failures. */
  ghost predicate Projects(limits: Limits, times: seq<real>, ms: Memories, key: string) {
    && Admissible(limits, times)
    && (key in ms <==> times != [])
    && Recall(ms, key) == MemoryAfter(limits, times)
  }

  ghost predicate NoneAfter(times: seq<real>, t: real) {
    forall i :: 0 <= i < |times| ==> times[i] <= t
  }

  /** An attempt on the key itself, not before its earlier failures. */
  lemma OwnAttempt(limits: Limits, before: seq<real>, ms: Memories, a: Attempt)
    requires Projects(limits, before, ms, Clean(a.email)) && NoneAfter(before, a.checkedAt)
    requires 0.0 < a.checkedAt <= a.recordedAt
    ensures
      var key, o := Clean(a.email), LogIn(ms, limits, a);
      var times := if o.result.Locked? then before else if o.result.Rejected? then before + [a.recordedAt] else [];
      Projects(limits, times, o.memories, key) && NoneAfter(times, a.recordedAt)
  {
    LogInOnKey(ms, limits, a, Clean(a.email));
    if LogIn(ms, limits, a).result.Rejected? {
      AdmissibleSnoc(limits, before, a.recordedAt);
      MemorySnoc(limits, before, a.recordedAt);
    }
  }

  lemma SequentialFront(front: seq<Attempt>, a: Attempt)
    requires Sequential(front + [a])
    ensures Sequential(front) && 0.0 < a.checkedAt <= a.recordedAt
    ensures front != [] ==> front[|front| - 1].recordedAt <= a.checkedAt
  {
    var run := front + [a];
    assert run[|front|] == a;
    forall i, j | 0 <= i < j < |front| ensures front[i].recordedAt <= front[j].checkedAt {
      assert run[i] == front[i] && run[j] == front[j];
    }
    forall i | 0 <= i < |front| ensures 0.0 < front[i].checkedAt <= front[i].recordedAt { assert run[i] == front[i]; }
    if front != [] { assert run[|front| - 1].recordedAt <= run[|front|].checkedAt; }
  }

  /** What a run leaves of one key, and when it was last heard of. */
  ghost predicate ProjectsRun(limits: Limits, run: seq<Attempt>, key: string) {
    var own, times := OnKey(run, key), FailuresSince(limits, run, key);
    && Projects(limits, times, After(limits, run), key)
    && if own == [] then times == [] else NoneAfter(times, own[|own| - 1].recordedAt)
  }

  lemma OwnAttemptProjects(limits: Limits, run: seq<Attempt>, a: Attempt)
    requires ProjectsRun(limits, run, Clean(a.email)) && Sequential(OnKey(run, Clean(a.email)) + [a])
    ensures ProjectsRun(limits, run + [a], Clean(a.email))
  {
    var key := Clean(a.email);
    var own, before := OnKey(run, key), FailuresSince(limits, run, key);
    TakeFront(run, a);
    SequentialFront(own, a);
    assert NoneAfter(before, a.checkedAt);
    OwnAttempt(limits, before, After(limits, run), a);
  }

  lemma OtherAttemptProjects(limits: Limits, run: seq<Attempt>, a: Attempt, key: string)
    requires ProjectsRun(limits, run, key) && Clean(a.email) != key
    ensures ProjectsRun(limits, run + [a], key)
  {
    TakeFront(run, a);
    TakeAll(OnKey(run, key));
    LogInOnKey(After(limits, run), limits, a, key);
  }

  lemma OnKeySnoc(run: seq<Attempt>, a: Attempt, key: string)
    ensures OnKey(run + [a], key) == if Clean(a.email) == key then OnKey(run, key) + [a] else OnKey(run, key)
  {
    TakeFront(run, a);
    TakeAll(OnKey(run, key));
  }

  /** In any run whose attempts on this key come one after the other, whatever other accounts do
      meanwhile, the failures of the key since its last success are admissible, and they alone make up
      what the guard remembers of it. */
  lemma {:induction false} RunProjects(limits: Limits, run: seq<Attempt>, key: string)
    requires Sequential(OnKey(run, key))
    ensures Projects(limits, FailuresSince(limits, run, key), After(limits, run), key)
    ensures ProjectsRun(limits, run, key)
  {
    if run != [] {
      var front, a := run[..|run| - 1], run[|run| - 1];
      assert run == front + [a];
      OnKeySnoc(front, a, key);
      if Clean(a.email) == key {
        SequentialFront(OnKey(front, key), a);
        RunProjects(limits, front, key);
        OwnAttemptProjects(limits, front, a);
      } else {
        RunProjects(limits, front, key);
        OtherAttemptProjects(limits, front, a, key);
      }
    }
  }

  // ---- Windows ----

  /** The index of the failure that opened the counting window of failure n. */
  function WindowStart(limits: Limits, times: seq<real>, n: nat): (s: nat)
    requires n < |times|
    ensures s <= n
  {
    if n == 0 then 0
    else
      var s := WindowStart(limits, times, n - 1);
      if times[n] > times[s] + limits.lockout as real then n else s
  }

  /** The guard's count, window and lock after failure n, in terms of the failure times alone. */
  ghost predicate Shape(limits: Limits, times: seq<real>, n: nat)
    requires n < |times|
  {
    var m, s := MemoryAfter(limits, times[..n + 1]), WindowStart(limits, times, n);
    && m.count == n - s + 1
    && m.windowResetsAt == times[s] + limits.lockout as real
    && (m.count >= limits.max ==> m.lockedUntil == times[n] + limits.lockout as real)
    && (m.count < limits.max ==> m.lockedUntil == MemoryAfter(limits, times[..n]).lockedUntil)
  }

  lemma MemoryStep(limits: Limits, times: seq<real>, n: nat)
    requires n < |times|
    ensures MemoryAfter(limits, times[..n + 1]) == Failed(MemoryAfter(limits, times[..n]), limits, times[n])
  {
    Snoc(times, n);
    MemorySnoc(limits, times[..n], times[n]);
  }

  lemma {:induction false} MemoryShape(limits: Limits, times: seq<real>, n: nat)
    requires limits.Valid() && InOrder(times) && n < |times|
    ensures Shape(limits, times, n)
  {
    MemoryStep(limits, times, n);
    if n == 0 {
      assert times[..0] == [];
    } else {
      MemoryShape(limits, times, n - 1);
    }
  }

  /** A window with max failures locks: the next failure is a lockout later. */
  lemma FullWindowLocks(limits: Limits, times: seq<real>, n: nat)
    requires limits.Valid() && Admissible(limits, times) && n + 1 < |times|
    requires n - WindowStart(limits, times, n) + 1 >= limits.max
    ensures times[n + 1] >= times[n] + limits.lockout as real
  {
    MemoryShape(limits, times, n);
    assert NotLockedAt(limits, times, n + 1);
  }

  lemma {:induction false} WindowStartIsReset(limits: Limits, times: seq<real>, n: nat)
    requires n < |times|
    ensures
      var s := WindowStart(limits, times, n);
      && WindowStart(limits, times, s) == s
      && (s > 0 ==> times[s] > times[WindowStart(limits, times, s - 1)] + limits.lockout as real)
  {
    if n > 0 && WindowStart(limits, times, n) != n {
      WindowStartIsReset(limits, times, n - 1);
    }
  }

  lemma {:induction false} WindowStartBetween(limits: Limits, times: seq<real>, m: nat, n: nat)
    requires m <= n < |times| && WindowStart(limits, times, n) <= m
    ensures WindowStart(limits, times, m) == WindowStart(limits, times, n)
    decreases n
  {
    if m < n { WindowStartBetween(limits, times, m, n - 1); }
  }

  // ---- The bound ----

  /** The most failures of one key, between successes, within less than one lockout of time. */
  function Bound(limits: Limits): int {
    if limits.max >= 2 then 2 * limits.max - 2 else limits.max
  }

  /** If failures i to j lie within less than a lockout, none but the last of them locked. */
  lemma NoLockInside(limits: Limits, times: seq<real>, i: nat, j: nat, n: nat)
    requires limits.Valid() && Admissible(limits, times) && i <= n < j < |times|
    requires times[j] - times[i] < limits.lockout as real
    ensures n - WindowStart(limits, times, n) + 1 < limits.max
  {
    assert times[i] <= times[n] && times[n + 1] <= times[j];
    if n - WindowStart(limits, times, n) + 1 >= limits.max {
      FullWindowLocks(limits, times, n);
    }
  }

  /** The part of a window within less than a lockout, up to its failure j, has at most M failures. */
  lemma WindowPart(limits: Limits, times: seq<real>, i: nat, j: nat)
    requires limits.Valid() && Admissible(limits, times) && i <= j < |times|
    requires times[j] - times[i] < limits.lockout as real
    ensures
      var s := WindowStart(limits, times, j);
      j - (if s <= i then i else s) + 1 <= limits.max
  {
    var s := WindowStart(limits, times, j);
    if i < j && s < j {
      NoLockInside(limits, times, i, j, j - 1);
      WindowStartBetween(limits, times, j - 1, j);
    }
  }

  /** If a window opens at s between them, i is not the opening failure of the window before. */
  lemma EarlierPart(limits: Limits, times: seq<real>, i: nat, j: nat)
    requires limits.Valid() && Admissible(limits, times) && i <= j < |times|
    requires times[j] - times[i] < limits.lockout as real
    requires i < WindowStart(limits, times, j)
    ensures WindowStart(limits, times, j) - i <= limits.max - 2
  {
    var s := WindowStart(limits, times, j);
    WindowStartIsReset(limits, times, j);
    var r := WindowStart(limits, times, s - 1);
    NoLockInside(limits, times, i, j, s - 1);
    assert times[s] <= times[j];
    assert r < i;
  }

  /** Failures i to j within less than a lockout are at most max(M, 2M - 2). */
  lemma BoundedFailures(limits: Limits, times: seq<real>, i: nat, j: nat)
    requires limits.Valid() && Admissible(limits, times) && i <= j < |times|
    requires times[j] - times[i] < limits.lockout as real
    ensures j - i + 1 <= Bound(limits)
  {
    WindowPart(limits, times, i, j);
    if i < WindowStart(limits, times, j) {
      EarlierPart(limits, times, i, j);
    }
  }

  /** The failures recorded in the half-open interval of that length from a. */
  function Within(times: seq<real>, a: real, length: real): set<int> {
    set n | 0 <= n < |times| && a <= times[n] < a + length
  }

  function Range(lo: int, hi: int): (r: set<int>)
    requires lo <= hi
    ensures forall n :: n in r <==> lo <= n < hi
    ensures |r| == hi - lo
    decreases hi - lo
  {
    if lo == hi then {} else Range(lo, hi - 1) + {hi - 1}
  }

  lemma {:induction false} FirstAndLast(s: set<int>, size: nat, x: int) returns (lo: int, hi: int)
    requires x in s && forall n :: n in s ==> 0 <= n < size
    ensures lo in s && hi in s && forall n :: n in s ==> lo <= n <= hi
    decreases size
  {
    if size - 1 !in s {
      lo, hi := FirstAndLast(s, size - 1, x);
    } else {
      var rest := s - {size - 1};
      lo, hi := size - 1, size - 1;
      if y :| y in rest {
        lo, hi := FirstAndLast(rest, size - 1, y);
        hi := size - 1;
      }
      assert forall n :: n in s ==> n == size - 1 || n in rest;
    }
  }

  lemma WithinBounded(limits: Limits, times: seq<real>, a: real)
    requires limits.Valid() && Admissible(limits, times)
    ensures |Within(times, a, limits.lockout as real)| <= Bound(limits)
  {
    var inside := Within(times, a, limits.lockout as real);
    if n :| n in inside {
      var i, j := FirstAndLast(inside, |times|, n);
      BoundedFailures(limits, times, i, j);
      assert inside <= Range(i, j + 1);
      SubsetSize(inside, Range(i, j + 1));
    } else {
      assert inside == {};
    }
  }

  lemma {:induction false} SubsetSize(s: set<int>, t: set<int>)
    requires s <= t
    ensures |s| <= |t|
  {
    assert t == s + (t - s);
  }

  /** In every run whose attempts on a key are sequential, between two successes of the key any
      half-open interval as long as the lockout contains at most max(M, 2M - 2) admitted failures. */
  lemma FailuresPerLockout(limits: Limits, run: seq<Attempt>, key: string, a: real)
    requires limits.Valid() && Sequential(OnKey(run, key))
    ensures |Within(FailuresSince(limits, run, key), a, limits.lockout as real)| <= Bound(limits)
  {
    RunProjects(limits, run, key);
    WithinBounded(limits, FailuresSince(limits, run, key), a);
  }

  // ---- The bound is attained ----

  /** One failure, M - 2 more as late as the window allows, then M at once in the next window. */
  function WorstCase(limits: Limits): seq<real>
    requires limits.max >= 1
  {
    var l := limits.lockout as real;
    if limits.max == 1 then [1.0]
    else [1.0] + seq(limits.max - 2, i => 1.0 + l) + seq(limits.max, i => 1.0 + l * 1.5)
  }

  lemma {:induction false} WorstCaseWindows(limits: Limits, n: nat)
    requires limits.Valid() && limits.max >= 2 && n < 2 * limits.max - 1
    ensures WindowStart(limits, WorstCase(limits), n) == if n < limits.max - 1 then 0 else limits.max - 1
  {
    if n > 0 { WorstCaseWindows(limits, n - 1); }
  }

  lemma {:induction false} WorstCaseUnlocked(limits: Limits, n: nat)
    requires limits.Valid() && limits.max >= 2 && n < 2 * limits.max - 1 && InOrder(WorstCase(limits))
    ensures MemoryAfter(limits, WorstCase(limits)[..n]).lockedUntil == 0.0
  {
    if n > 0 {
      WorstCaseUnlocked(limits, n - 1);
      MemoryShape(limits, WorstCase(limits), n - 1);
      WorstCaseWindows(limits, n - 1);
    }
  }

  lemma WorstCaseAdmissible(limits: Limits)
    requires limits.Valid()
    ensures Admissible(limits, WorstCase(limits))
  {
    var times := WorstCase(limits);
    if limits.max == 1 {
      assert times[..0] == [];
      assert NotLockedAt(limits, times, 0);
    } else {
      assert InOrder(times);
      forall i | 0 <= i < |times| ensures NotLockedAt(limits, times, i) { WorstCaseUnlocked(limits, i); }
    }
  }

  /** Failing attempts on one account at these times. */
  function FailAt(email: string, times: seq<real>): seq<Attempt> {
    seq(|times|, i requires 0 <= i < |times| => Attempt(email, times[i], times[i], None))
  }

  /** One server, one login at a time, one account: these failures are all admitted. */
  ghost predicate Happened(limits: Limits, email: string, times: seq<real>) {
    var run, key := FailAt(email, times), Clean(email);
    Sequential(run) && OnKey(run, key) == run && FailuresSince(limits, run, key) == times
  }

  lemma {:induction false} FailuresHappen(limits: Limits, email: string, times: seq<real>, n: nat)
    requires Admissible(limits, times) && n <= |times|
    ensures Happened(limits, email, times[..n])
  {
    if n > 0 {
      FailuresHappen(limits, email, times, n - 1);
      AdmissiblePrefix(limits, times, n);
      assert NotLockedAt(limits, times, n - 1);
      Snoc(times, n - 1);
      OneMoreHappens(limits, email, times[..n - 1], times[n - 1]);
    }
  }

  lemma OneMoreHappens(limits: Limits, email: string, front: seq<real>, t: real)
    requires InOrder(front + [t]) && MemoryAfter(limits, front).lockedUntil <= t && Happened(limits, email, front)
    ensures Happened(limits, email, front + [t])
  {
    var run, a := FailAt(email, front), Attempt(email, t, t, None);
    FailAtSnoc(email, front, t);
    RunProjects(limits, run, Clean(email));
    FailureSnoc(limits, run, a);
    OnKeySnoc(run, a, Clean(email));
    SequentialSnoc(email, front, t);
  }

  lemma SequentialSnoc(email: string, front: seq<real>, t: real)
    requires InOrder(front + [t])
    ensures Sequential(FailAt(email, front + [t]))
  {
    var times, run := front + [t], FailAt(email, front + [t]);
    forall i, j | 0 <= i < j < |run| ensures run[i].recordedAt <= run[j].checkedAt { assert times[i] <= times[j]; }
    forall i | 0 <= i < |run| ensures 0.0 < run[i].checkedAt <= run[i].recordedAt { assert 0.0 < times[i]; }
  }

  lemma FailAtSnoc(email: string, times: seq<real>, t: real)
    ensures FailAt(email, times + [t]) == FailAt(email, times) + [Attempt(email, t, t, None)]
  {
  }

  lemma FailureSnoc(limits: Limits, run: seq<Attempt>, a: Attempt)
    requires Recall(After(limits, run), Clean(a.email)).lockedUntil <= a.checkedAt && a.user.None?
    ensures
      FailuresSince(limits, run + [a], Clean(a.email)) == FailuresSince(limits, run, Clean(a.email)) + [a.recordedAt]
  {
    assert (run + [a])[..|run|] == run;
    Admitted(After(limits, run), limits, a);
  }

  lemma Admitted(ms: Memories, limits: Limits, a: Attempt)
    requires Recall(ms, Clean(a.email)).lockedUntil <= a.checkedAt && a.user.None?
    ensures LogIn(ms, limits, a).result.Rejected?
  {
  }

  /** When the interval with the most of those failures begins. */
  function WorstStart(limits: Limits): real {
    if limits.max == 1 then 1.0 else 1.0 + limits.lockout as real
  }

  lemma WorstCaseCount(limits: Limits)
    requires limits.Valid()
    ensures |Within(WorstCase(limits), WorstStart(limits), limits.lockout as real)| == Bound(limits)
  {
    var inside, m := Within(WorstCase(limits), WorstStart(limits), limits.lockout as real), limits.max;
    if m == 1 {
      assert inside == {0};
    } else {
      assert inside == Range(1, 2 * m - 1);
    }
  }

  /** Some run attains the bound, even with no two logins overlapping at all: it cannot be lowered,
      whatever the limits. */
  lemma BoundIsAttained(limits: Limits) returns (run: seq<Attempt>, key: string, a: real)
    requires limits.Valid()
    ensures Sequential(run) && Sequential(OnKey(run, key))
    ensures |Within(FailuresSince(limits, run, key), a, limits.lockout as real)| == Bound(limits)
  {
    var email, times := "a", WorstCase(limits);
    run, key, a := FailAt(email, times), Clean(email), WorstStart(limits);
    WorstCaseAdmissible(limits);
    FailuresHappen(limits, email, times, |times|);
    TakeAll(times);
    WorstCaseCount(limits);
  }

  predicate WithinMax(limits: Limits, times: seq<real>, a: real) {
    |Within(times, a, limits.lockout as real)| <= limits.max
  }

  /** This key's failures since its last success keep to max_failures in every lockout-long interval. */
  ghost predicate KeepsToMax(limits: Limits, run: seq<Attempt>, key: string) {
    forall a: real :: WithinMax(limits, FailuresSince(limits, run, key), a)
  }

  /** The documented reading, at most max_failures in any lockout-long window, is true of the code
      exactly when max_failures is at most 2. */
  lemma KeepsToMaxIff(limits: Limits)
    requires limits.Valid()
    ensures (forall run, key :: Sequential(OnKey(run, key)) ==> KeepsToMax(limits, run, key)) <==> limits.max <= 2
  {
    if limits.max <= 2 {
      forall run, key | Sequential(OnKey(run, key)) ensures KeepsToMax(limits, run, key) {
        forall a: real ensures WithinMax(limits, FailuresSince(limits, run, key), a) {
          FailuresPerLockout(limits, run, key, a);
        }
      }
    } else {
      var run, key, a := BoundIsAttained(limits);
      assert !WithinMax(limits, FailuresSince(limits, run, key), a);
      assert !KeepsToMax(limits, run, key);
    }
  }

  // ---- Locks end ----

  predicate LockedAfter(ms: Memories, key: string, now: real, seconds: int) {
    LockedFor(ms, key, now + seconds as real).Some?
  }

  /** At any time not before the key's own last attempt: refused exactly while locked, and then
      retry_after is the least whole number of seconds after which an attempt is not refused, between 1
      and the lockout. */
  lemma RetryAfterIsLeast(limits: Limits, run: seq<Attempt>, key: string, now: real)
    requires limits.Valid() && Sequential(OnKey(run, key)) && 0.0 < now
    requires
      var own := OnKey(run, key);
      own != [] ==> now >= own[|own| - 1].recordedAt
    ensures
      var ms := After(limits, run);
      var wait := LockedFor(ms, key, now);
      && (wait.Some? <==> Recall(ms, key).lockedUntil > now)
      && (wait.Some? ==>
            && 1 <= wait.value <= limits.lockout
            && !LockedAfter(ms, key, now, wait.value)
            && forall k: nat :: k < wait.value ==> LockedAfter(ms, key, now, k))
  {
    var times := FailuresSince(limits, run, key);
    RunProjects(limits, run, key);
    LockedUntilBound(limits, times);
  }

  lemma {:induction false} LockedUntilBound(limits: Limits, times: seq<real>)
    requires limits.Valid() && Admissible(limits, times)
    ensures
      MemoryAfter(limits, times).lockedUntil <=
      if times == [] then 0.0 else times[|times| - 1] + limits.lockout as real
  {
    if times != [] {
      AdmissiblePrefix(limits, times, |times| - 1);
      LockedUntilBound(limits, times[..|times| - 1]);
    }
  }

  lemma AfterConcat(limits: Limits, run: seq<Attempt>, a: Attempt)
    ensures After(limits, run + [a]) == LogIn(After(limits, run), limits, a).memories
  {
    assert (run + [a])[..|run|] == run;
  }

  lemma RefusedAttempt(ms: Memories, limits: Limits, a: Attempt, key: string)
    requires key in ms && (Clean(a.email) == key ==> a.checkedAt < ms[key].lockedUntil)
    ensures
      var o := LogIn(ms, limits, a);
      key in o.memories && o.memories[key] == ms[key] && (Clean(a.email) == key ==> o.result.Locked?)
  {
  }

  /** Attempts on a key, each made before this moment. */
  ghost predicate AllBefore(more: seq<Attempt>, key: string, t: real) {
    forall i :: 0 <= i < |more| && Clean(more[i].email) == key ==> more[i].checkedAt < t
  }

  lemma {:induction false} LockHolds(limits: Limits, run: seq<Attempt>, more: seq<Attempt>, key: string, n: nat)
    requires key in After(limits, run) && AllBefore(more, key, After(limits, run)[key].lockedUntil) && n <= |more|
    ensures
      var ms, ms' := After(limits, run), After(limits, run + more[..n]);
      key in ms' && ms'[key] == ms[key]
  {
    if n == 0 {
      TakeAll(run);
    } else {
      LockHolds(limits, run, more, key, n - 1);
      Snoc(more, n - 1);
      Associative(run, more[..n - 1], [more[n - 1]]);
      AfterConcat(limits, run + more[..n - 1], more[n - 1]);
      RefusedAttempt(After(limits, run + more[..n - 1]), limits, more[n - 1], key);
    }
  }

  /** While a key is locked, attempts on it are all refused and change nothing, however many there
      are and whatever other keys see: none of them extends the lock. */
  lemma AttemptsDuringLock(limits: Limits, run: seq<Attempt>, more: seq<Attempt>, key: string)
    requires key in After(limits, run) && AllBefore(more, key, After(limits, run)[key].lockedUntil)
    ensures
      var ms, ms' := After(limits, run), After(limits, run + more);
      && key in ms' && ms'[key] == ms[key]
      && forall i :: |run| <= i < |run + more| && Clean((run + more)[i].email) == key ==>
           Answer(limits, run + more, i).Locked?
  {
    LockHolds(limits, run, more, key, |more|);
    TakeAll(more);
    forall i | |run| <= i < |run + more| && Clean((run + more)[i].email) == key
      ensures Answer(limits, run + more, i).Locked?
    {
      var n := i - |run|;
      assert (run + more)[..i] == run + more[..n] && (run + more)[i] == more[n];
      LockHolds(limits, run, more, key, n);
      RefusedAttempt(After(limits, run + more[..n]), limits, more[n], key);
    }
  }

  /** And it ends when announced: whatever attempts were made on the key while it was locked, and
      whatever happened on other keys, an attempt retry_after seconds after the refusal is judged by its
      credentials. */
  lemma LockEnds(limits: Limits, run: seq<Attempt>, more: seq<Attempt>, now: real, a: Attempt)
    requires
      var ms, key := After(limits, run), Clean(a.email);
      && LockedFor(ms, key, now).Some?
      && a.checkedAt >= now + LockedFor(ms, key, now).value as real
      && AllBefore(more, key, ms[key].lockedUntil)
    ensures
      LogIn(After(limits, run + more), limits, a).result ==
      if a.user.None? then Rejected else Welcome(a.user.value)
  {
    AttemptsDuringLock(limits, run, more, Clean(a.email));
  }

  // ---- Other accounts ----

  /** What the guard remembers of a key, and so every answer about it, depends only on the attempts
      made under that key. */
  lemma {:induction false} OtherKeysIrrelevant(limits: Limits, run: seq<Attempt>, key: string)
    ensures
      var ms, ms' := After(limits, run), After(limits, OnKey(run, key));
      && (key in ms <==> key in ms') && Recall(ms, key) == Recall(ms', key)
    ensures forall a: Attempt :: Clean(a.email) == key ==>
              LogIn(After(limits, run), limits, a).result == LogIn(After(limits, OnKey(run, key)), limits, a).result
  {
    if run != [] {
      var front, a := run[..|run| - 1], run[|run| - 1];
      OtherKeysIrrelevant(limits, front, key);
      if Clean(a.email) == key {
        AfterConcat(limits, OnKey(front, key), a);
        LogInAlike(After(limits, front), After(limits, OnKey(front, key)), limits, a);
      } else {
        LogInOnKey(After(limits, front), limits, a, key);
        assert OnKey(run, key) == OnKey(front, key);
      }
    }
    forall a: Attempt | Clean(a.email) == key
      ensures LogIn(After(limits, run), limits, a).result == LogIn(After(limits, OnKey(run, key)), limits, a).result
    {
      LogInAlike(After(limits, run), After(limits, OnKey(run, key)), limits, a);
    }
  }

  lemma LogInAlike(ms: Memories, ms': Memories, limits: Limits, a: Attempt)
    requires
      var key := Clean(a.email);
      (key in ms <==> key in ms') && Recall(ms, key) == Recall(ms', key)
    ensures
      var key, o, o' := Clean(a.email), LogIn(ms, limits, a), LogIn(ms', limits, a);
      && o.result == o'.result
      && (key in o.memories <==> key in o'.memories) && Recall(o.memories, key) == Recall(o'.memories, key)
  {
  }
}
