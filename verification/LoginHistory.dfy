/** What the login limiter guarantees over whole runs, for any order in which the map is
    walked and any clock that never goes back. */
module LoginHistory {
  import opened LoginLimiter

  datatype Event =
    | Check(key: ClientKey, now: Time)
    | Fail(key: ClientKey, now: Time)
    | Success(key: ClientKey, now: Time)

  ghost predicate StepsTo(c: Config, t: Table, e: Event, after: Table) {
    match e
    case Check(key, now) => after == AfterBlocked(t, key, now)
    case Fail(key, now) => FailsTo(c, t, after, key, now)
    case Success(key, _) => after == t - {key}
  }

  ghost predicate StepAt(c: Config, tables: seq<Table>, events: seq<Event>, i: nat) {
    i < |events| && i + 1 < |tables| && StepsTo(c, tables[i], events[i], tables[i + 1])
  }

  /** tables[i] is the table after the first i events of the history. */
  ghost predicate IsRun(c: Config, tables: seq<Table>, events: seq<Event>) {
    c.Sane() && IsHistory(c, tables, events)
  }

  ghost predicate IsHistory(c: Config, tables: seq<Table>, events: seq<Event>) {
    && |tables| == |events| + 1
    && tables[0] == map[]
    && (forall i :: 0 <= i < |events| ==> StepAt(c, tables, events, i))
    && (forall i, j :: 0 <= i < j < |events| ==> events[i].now <= events[j].now)
  }

  // ----- The bound -----

  lemma StepKeepsBound(c: Config, t: Table, e: Event, after: Table)
    requires c.Sane() && StepsTo(c, t, e, after) && |t.Keys| <= c.capacity
    ensures |after.Keys| <= c.capacity
    ensures e.Fail? ==> e.key in after && after[e.key] == Counted(c, t, e.key, e.now)
  {
    if e.Check? || e.Success? {
      assert after.Keys == t.Keys || after.Keys == t.Keys - {e.key};
    }
  }

  /** The table never exceeds its capacity. */
  lemma {:induction false} NeverExceedsCapacity(c: Config, tables: seq<Table>, events: seq<Event>, i: nat)
    requires IsRun(c, tables, events) && i <= |events|
    ensures |tables[i].Keys| <= c.capacity
  {
    if i > 0 {
      NeverExceedsCapacity(c, tables, events, i - 1);
      assert StepAt(c, tables, events, i - 1);
      StepKeepsBound(c, tables[i - 1], events[i - 1], tables[i]);
    }
  }

  /** With the values of newLoginRateLimiter the table holds at most 10,000 keys. */
  lemma DefaultCapacity(c: Config, tables: seq<Table>, events: seq<Event>, i: nat)
    requires c == DEFAULTS && IsHistory(c, tables, events) && i <= |events|
    ensures |tables[i].Keys| <= 10_000
  {
    NeverExceedsCapacity(c, tables, events, i);
  }

  // ----- Lockouts survive floods -----

  /** A lockout can only be evicted when at least capacity other lockouts are live. */
  lemma LockoutEvictedOnlyWhenFull(c: Config, t: Table, after: Table, key: ClientKey, failing: ClientKey, now: Time)
    requires c.Sane() && FailsTo(c, t, after, failing, now) && |t.Keys| <= c.capacity
    requires key in Lockouts(c, t, now) && key !in after
    ensures key != failing && |Lockouts(c, t, now)| >= c.capacity
  {
    var counted := t[failing := Counted(c, t, failing, now)];
    assert key in Lockouts(c, counted, now);
    var others := after.Keys - {failing};
    assert others <= Lockouts(c, t, now) - {key};
    assert |others| == |after.Keys| - 1;
    SubsetSize(others, Lockouts(c, t, now) - {key});
    if |LiveKeys(counted, now)| <= c.capacity {
      SubsetFull(after.Keys, LiveKeys(counted, now));
    }
  }

  lemma {:induction false} SubsetSize<T>(a: set<T>, b: set<T>)
    requires a <= b
    ensures |a| <= |b|
  {
    if a != {} {
      var x :| x in a;
      SubsetSize(a - {x}, b - {x});
    }
  }

  lemma SubsetFull<T>(a: set<T>, b: set<T>)
    requires a <= b && |a| == |b|
    ensures a == b
  {
    if a != b {
      var x :| x in b && x !in a;
      SubsetSize(a, b - {x});
    }
  }

  ghost predicate LockedUntil(c: Config, t: Table, key: ClientKey, expiry: Time) {
    key in t && Locked(c, t[key]) && t[key].expiresAt == expiry
  }

  lemma StepKeepsLockout(c: Config, t: Table, e: Event, after: Table, key: ClientKey, expiry: Time)
    requires c.Sane() && StepsTo(c, t, e, after) && |t.Keys| <= c.capacity
    requires LockedUntil(c, t, key, expiry) && e.now < expiry && e != Success(key, e.now)
    requires |Lockouts(c, t, e.now)| < c.capacity
    ensures LockedUntil(c, after, key, expiry)
  {
    if e.Fail? && key !in after {
      assert key in Lockouts(c, t, e.now);
      LockoutEvictedOnlyWhenFull(c, t, after, key, e.key, e.now);
    }
  }

  /** Once a key is locked it answers blocked until its expiry through any run of checks
      and failures, of its own and of other keys, as long as no login with it succeeds and
      fewer than capacity lockouts are live at a time. */
  lemma {:induction false} LockoutSurvives(c: Config, tables: seq<Table>, events: seq<Event>,
                                           i: nat, j: nat, key: ClientKey, expiry: Time, now: Time)
    requires IsRun(c, tables, events) && i <= j <= |events|
    requires LockedUntil(c, tables[i], key, expiry)
    requires forall k :: i <= k < j ==> events[k].now < expiry && events[k] != Success(key, events[k].now)
    requires forall k :: i <= k < j ==> |Lockouts(c, tables[k], events[k].now)| < c.capacity
    requires now < expiry
    ensures LockedUntil(c, tables[j], key, expiry)
    ensures IsBlocked(c, tables[j], key, now)
  {
    if i < j {
      LockoutSurvives(c, tables, events, i, j - 1, key, expiry, now);
      NeverExceedsCapacity(c, tables, events, j - 1);
      assert StepAt(c, tables, events, j - 1);
      StepKeepsLockout(c, tables[j - 1], events[j - 1], tables[j], key, expiry);
    }
  }

  /** When lockouts must go, only those that expire no later than every lockout kept go,
      apart from the key that just failed, which never does. */
  lemma OnlyEarliestLockoutsGo(c: Config, tables: seq<Table>, events: seq<Event>, i: nat,
                               gone: ClientKey, kept: ClientKey)
    requires IsRun(c, tables, events) && i < |events| && events[i].Fail?
    requires gone in Lockouts(c, tables[i], events[i].now) && gone !in tables[i + 1]
    requires kept in tables[i + 1] && kept != events[i].key
    ensures gone != events[i].key && events[i].key in tables[i + 1]
    ensures kept in tables[i] && LockedUntil(c, tables[i + 1], kept, tables[i][kept].expiresAt)
    ensures tables[i][gone].expiresAt <= tables[i][kept].expiresAt
  {
    NeverExceedsCapacity(c, tables, events, i);
    assert StepAt(c, tables, events, i);
    StepKeepsBound(c, tables[i], events[i], tables[i + 1]);
    var counted := tables[i][events[i].key := Counted(c, tables[i], events[i].key, events[i].now)];
    assert gone in Lockouts(c, counted, events[i].now);
  }

  // ----- Blocked means many recent failures -----

  function FailCount(events: seq<Event>, key: ClientKey): nat {
    if events == [] then 0
    else
      FailCount(events[..|events| - 1], key) +
      if events[|events| - 1].Fail? && events[|events| - 1].key == key then 1 else 0
  }

  /** An entry was opened by a failure one window before its expiry, and has counted every
      failure of the key since, none of them followed by a success. */
  ghost predicate OpenedAt(c: Config, events: seq<Event>, key: ClientKey, e: Entry, start: nat) {
    && start < |events|
    && events[start].Fail? && events[start].key == key
    && events[start].now + c.window == e.expiresAt
    && e.count == FailCount(events[start..], key)
    && forall k :: start <= k < |events| ==> !(events[k].Success? && events[k].key == key)
  }

  ghost predicate Explained(c: Config, t: Table, events: seq<Event>) {
    forall key <- t :: exists start :: OpenedAt(c, events, key, t[key], start)
  }

  lemma OpenedLater(c: Config, events: seq<Event>, e: Event, key: ClientKey, entry: Entry, start: nat)
    requires OpenedAt(c, events, key, entry, start) && !(e.Success? && e.key == key)
    ensures var counted := if e.Fail? && e.key == key then entry.(count := entry.count + 1) else entry;
            OpenedAt(c, events + [e], key, counted, start)
  {
    var all := events + [e];
    assert all[start..][..|all| - start - 1] == events[start..];
  }

  lemma OpenedNow(c: Config, events: seq<Event>, e: Event)
    requires e.Fail?
    ensures OpenedAt(c, events + [e], e.key, Entry(1, e.now + c.window), |events|)
  {
    assert (events + [e])[|events|..] == [e];
    assert FailCount([e], e.key) == FailCount([], e.key) + 1 by { assert [e][..0] == []; }
  }

  predicate EntryStep(c: Config, t: Table, e: Event, after: Table, key: ClientKey)
    requires key in after
  {
    if e.Fail? && e.key == key then after[key] == Counted(c, t, key, e.now)
    else key in t && after[key] == t[key] && !(e.Success? && e.key == key)
  }

  lemma EntryAfterStep(c: Config, t: Table, e: Event, after: Table, key: ClientKey)
    requires StepsTo(c, t, e, after) && key in after
    ensures EntryStep(c, t, e, after, key)
  {
  }

  lemma EntryExplained(c: Config, t: Table, events: seq<Event>, e: Event, after: Table, key: ClientKey)
    requires Explained(c, t, events) && key in after && EntryStep(c, t, e, after, key)
    ensures exists start :: OpenedAt(c, events + [e], key, after[key], start)
  {
    if e.Fail? && key == e.key && !(key in t && Live(t[key], e.now)) {
      OpenedNow(c, events, e);
    } else {
      var start :| OpenedAt(c, events, key, t[key], start);
      OpenedLater(c, events, e, key, t[key], start);
    }
  }

  lemma StepExplained(c: Config, t: Table, events: seq<Event>, e: Event, after: Table)
    requires Explained(c, t, events) && StepsTo(c, t, e, after)
    ensures Explained(c, after, events + [e])
  {
    forall key <- after ensures exists start :: OpenedAt(c, events + [e], key, after[key], start) {
      EntryAfterStep(c, t, e, after, key);
      EntryExplained(c, t, events, e, after, key);
    }
  }

  lemma {:induction false} RunExplained(c: Config, tables: seq<Table>, events: seq<Event>, i: nat)
    requires IsRun(c, tables, events) && i <= |events|
    ensures Explained(c, tables[i], events[..i])
  {
    if i > 0 {
      RunExplained(c, tables, events, i - 1);
      assert StepAt(c, tables, events, i - 1);
      StepExplained(c, tables[i - 1], events[..i - 1], events[i - 1], tables[i]);
      assert events[..i] == events[..i - 1] + [events[i - 1]];
    }
  }

  /** A blocked answer is earned: since some failure within the last window the key failed
      at least limit times, all within the window, and never succeeded. */
  lemma BlockedIsSound(c: Config, tables: seq<Table>, events: seq<Event>, i: nat, key: ClientKey, now: Time)
    returns (start: nat)
    requires IsRun(c, tables, events) && i <= |events| && IsBlocked(c, tables[i], key, now)
    ensures start < i && FailCount(events[start..i], key) >= c.limit
    ensures forall k :: start <= k < i ==>
      events[k].now + c.window > now && !(events[k].Success? && events[k].key == key)
  {
    RunExplained(c, tables, events, i);
    start :| OpenedAt(c, events[..i], key, tables[i][key], start);
    assert events[..i][start..] == events[start..i];
    forall k | start <= k < i ensures events[k].now + c.window > now && !(events[k].Success? && events[k].key == key) {
      assert events[..i][k] == events[k] && events[..i][start] == events[start];
    }
  }

  // ----- What one call does -----

  /** A key is blocked while its entry has not expired and has reached the limit; checking
      drops an expired entry of that key and nothing else. */
  lemma CheckExactly(c: Config, t: Table, key: ClientKey, now: Time)
    ensures IsBlocked(c, t, key, now) <==> key in t && t[key].expiresAt > now && t[key].count >= c.limit
    ensures AfterBlocked(t, key, now) == if key in t && t[key].expiresAt <= now then t - {key} else t
  {
  }

  /** A failure counts one more in the window its entry is in, and opens a window when there
      is none; other entries are kept as they are or evicted, and none is unless the table
      would exceed its capacity. */
  lemma FailureExactly(c: Config, t: Table, after: Table, key: ClientKey, now: Time)
    requires c.Sane() && FailsTo(c, t, after, key, now) && |t.Keys| <= c.capacity
    ensures key in after
    ensures key in t && t[key].expiresAt > now ==> after[key] == Entry(t[key].count + 1, t[key].expiresAt)
    ensures key !in t || t[key].expiresAt <= now ==> after[key] == Entry(1, now + c.window)
    ensures forall other <- after :: other != key ==> other in t && after[other] == t[other]
    ensures |t.Keys + {key}| <= c.capacity ==> after.Keys == t.Keys + {key}
  {
    var counted := t[key := Counted(c, t, key, now)];
    assert counted.Keys == t.Keys + {key};
  }

  // ----- Failures do lock -----

  lemma StepKeepsEntry(c: Config, t: Table, e: Event, after: Table, key: ClientKey)
    requires StepsTo(c, t, e, after) && |t.Keys| < c.capacity && key in t && Live(t[key], e.now)
    requires !(e.Success? && e.key == key)
    ensures key in after
    ensures after[key] == if e.Fail? && e.key == key then t[key].(count := t[key].count + 1) else t[key]
  {
    if e.Fail? {
      var counted := t[e.key := Counted(c, t, e.key, e.now)];
      assert counted.Keys == t.Keys + {e.key};
    }
  }

  /** An entry counts the failures of its key since the one that opened it. */
  lemma {:induction false} FailuresCount(c: Config, tables: seq<Table>, events: seq<Event>,
                                         i: nat, j: nat, key: ClientKey)
    requires IsRun(c, tables, events) && i < j <= |events|
    requires events[i].Fail? && events[i].key == key && !(key in tables[i] && Live(tables[i][key], events[i].now))
    requires forall k :: i < k < j ==>
      events[k].now < events[i].now + c.window && !(events[k].Success? && events[k].key == key)
    requires forall k :: i <= k < j ==> |tables[k].Keys| < c.capacity
    ensures key in tables[j] && tables[j][key] == Entry(FailCount(events[i..j], key), events[i].now + c.window)
  {
    assert StepAt(c, tables, events, j - 1);
    FailCountGrows(events, i, j, key);
    if j == i + 1 {
      FailCountOfNone(events, i, key);
      FirstFailure(c, tables[i], events[i], tables[j]);
    } else {
      FailuresCount(c, tables, events, i, j - 1, key);
      StepKeepsEntry(c, tables[j - 1], events[j - 1], tables[j], key);
    }
  }

  lemma FirstFailure(c: Config, t: Table, e: Event, after: Table)
    requires c.Sane() && StepsTo(c, t, e, after) && |t.Keys| <= c.capacity
    requires e.Fail? && !(e.key in t && Live(t[e.key], e.now))
    ensures e.key in after && after[e.key] == Entry(1, e.now + c.window)
  {
    StepKeepsBound(c, t, e, after);
  }

  lemma FailCountGrows(events: seq<Event>, i: nat, j: nat, key: ClientKey)
    requires i < j <= |events|
    ensures FailCount(events[i..j], key)
         == FailCount(events[i..j - 1], key) + if events[j - 1].Fail? && events[j - 1].key == key then 1 else 0
  {
    assert events[i..j][..j - 1 - i] == events[i..j - 1];
  }

  lemma FailCountOfNone(events: seq<Event>, i: nat, key: ClientKey)
    requires i <= |events|
    ensures FailCount(events[i..i], key) == 0
  {
  }

  /** Conversely the limit is enforced: a key that fails limit times within one window,
      without a success and while the table is not full, is locked until the window of its
      first failure ends. */
  lemma FailuresLock(c: Config, tables: seq<Table>, events: seq<Event>, i: nat, j: nat, key: ClientKey, now: Time)
    requires IsRun(c, tables, events) && i < j <= |events|
    requires events[i].Fail? && events[i].key == key && !(key in tables[i] && Live(tables[i][key], events[i].now))
    requires forall k :: i < k < j ==>
      events[k].now < events[i].now + c.window && !(events[k].Success? && events[k].key == key)
    requires forall k :: i <= k < j ==> |tables[k].Keys| < c.capacity
    requires now < events[i].now + c.window
    ensures IsBlocked(c, tables[j], key, now) <==> FailCount(events[i..j], key) >= c.limit
    ensures FailCount(events[i..j], key) >= c.limit ==> LockedUntil(c, tables[j], key, events[i].now + c.window)
  {
    FailuresCount(c, tables, events, i, j, key);
  }

  /** With the program's values: the fifth failure within five minutes of the first locks. */
  lemma FiveFailuresLock(c: Config, tables: seq<Table>, events: seq<Event>, i: nat, j: nat, key: ClientKey, now: Time)
    requires c == DEFAULTS && IsHistory(c, tables, events) && i < j <= |events|
    requires events[i].Fail? && events[i].key == key && !(key in tables[i] && tables[i][key].expiresAt > events[i].now)
    requires forall k :: i < k < j ==>
      events[k].now < events[i].now + 300_000_000_000 && !(events[k].Success? && events[k].key == key)
    requires forall k :: i <= k < j ==> |tables[k].Keys| < 10_000
    requires now < events[i].now + 300_000_000_000
    ensures IsBlocked(c, tables[j], key, now) <==> FailCount(events[i..j], key) >= 5
  {
    FailuresLock(c, tables, events, i, j, key, now);
  }

  // ----- Retry-After -----

  /** Waiting the advertised seconds reaches the expiry. */
  lemma RetryAfterReachesExpiry(now: Time, expiry: Time)
    requires now < expiry
    ensures RetryAfter(expiry - now) >= 1
    ensures now + RetryAfter(expiry - now) * 1_000_000_000 >= expiry
    ensures now + (RetryAfter(expiry - now) - 1) * 1_000_000_000 < expiry
  {
  }

  lemma StepLeavesEntry(c: Config, t: Table, e: Event, after: Table, key: ClientKey)
    requires StepsTo(c, t, e, after) && !(e.Fail? && e.key == key)
    ensures key in after ==> key in t && after[key] == t[key]
  {
  }

  lemma {:induction false} EntryLeftAlone(c: Config, tables: seq<Table>, events: seq<Event>,
                                          i: nat, j: nat, key: ClientKey)
    requires IsRun(c, tables, events) && i <= j <= |events|
    requires forall k :: i <= k < j ==> !(events[k].Fail? && events[k].key == key)
    ensures key in tables[j] ==> key in tables[i] && tables[j][key] == tables[i][key]
  {
    if i < j {
      EntryLeftAlone(c, tables, events, i, j - 1, key);
      assert StepAt(c, tables, events, j - 1);
      StepLeavesEntry(c, tables[j - 1], events[j - 1], tables[j], key);
    }
  }

  /** A client that is told to wait, waits that long and makes no failing attempt in the
      meantime is not blocked, whatever happens to other keys. */
  lemma WaitingUnblocks(c: Config, tables: seq<Table>, events: seq<Event>, i: nat, j: nat,
                        key: ClientKey, now: Time, later: Time)
    requires IsRun(c, tables, events) && i <= j <= |events|
    requires IsBlocked(c, tables[i], key, now)
    requires forall k :: i <= k < j ==> !(events[k].Fail? && events[k].key == key)
    requires later >= now + RetryAfter(tables[i][key].expiresAt - now) * SECOND
    ensures !IsBlocked(c, tables[j], key, later)
  {
    RetryAfterReachesExpiry(now, tables[i][key].expiresAt);
    EntryLeftAlone(c, tables, events, i, j, key);
  }
}
