/** The bounded table of failed logins, compared with the history of calls made on it. */
module LoginLimiter {

  /** Nanoseconds; 0 is Go's zero time, which no clock reading precedes. */
  type Time = nat

  type ClientKey = string

  const SECOND: nat := 1_000_000_000

  datatype Entry = Entry(count: nat, expiresAt: Time)

  datatype Config = Config(limit: nat, window: nat, capacity: nat) {
    predicate Sane() { limit >= 1 && window >= 1 && capacity >= 1 }
  }

  /** The values newLoginRateLimiter sets. */
  const DEFAULTS := Config(5, 300 * SECOND, 10_000)

  type Table = map<ClientKey, Entry>

  predicate Locked(c: Config, e: Entry) { e.count >= c.limit }

  predicate Live(e: Entry, now: Time) { e.expiresAt > now }

  function LiveKeys(t: Table, now: Time): set<ClientKey> {
    set key | key in t && Live(t[key], now)
  }

  function Lockouts(c: Config, t: Table, now: Time): set<ClientKey> {
    set key | key in t && Live(t[key], now) && Locked(c, t[key])
  }

  function Min(a: int, b: int): int { if a <= b then a else b }

  // ----- What the calls do to the table -----

  function AfterBlocked(t: Table, key: ClientKey, now: Time): Table {
    if key in t && !Live(t[key], now) then t - {key} else t
  }

  function IsBlocked(c: Config, t: Table, key: ClientKey, now: Time): bool {
    key in t && Live(t[key], now) && Locked(c, t[key])
  }

  function Counted(c: Config, t: Table, key: ClientKey, now: Time): Entry {
    if key in t && Live(t[key], now) then t[key].(count := t[key].count + 1)
    else Entry(1, now + c.window)
  }

  /** Every table evict may leave, whatever order the map is walked in: expired entries
      are gone, no more than needed went besides them, keep stayed, and a lockout went
      only when nothing but lockouts and keep remained, earlier expiry first. */
  ghost predicate EvictsTo(c: Config, before: Table, after: Table, keep: ClientKey, now: Time) {
    && after.Keys <= LiveKeys(before, now)
    && (forall key <- after :: after[key] == before[key])
    && keep in after
    && |after.Keys| == Min(|LiveKeys(before, now)|, c.capacity)
    && (forall gone, kept :: gone in Lockouts(c, before, now) && gone !in after && kept in after && kept != keep ==>
         Locked(c, before[kept]) && before[gone].expiresAt <= before[kept].expiresAt)
  }

  ghost predicate FailsTo(c: Config, t: Table, after: Table, key: ClientKey, now: Time) {
    var counted := t[key := Counted(c, t, key, now)];
    if |counted.Keys| > c.capacity then EvictsTo(c, counted, after, key, now) else after == counted
  }

  // ----- The limiter -----

  lemma {:induction false} EarliestExists(t: Table, keys: set<ClientKey>)
    requires keys != {} && keys <= t.Keys
    ensures exists key <- keys :: forall other <- keys :: t[key].expiresAt <= t[other].expiresAt
  {
    var key :| key in keys;
    if keys != {key} {
      var rest := keys - {key};
      EarliestExists(t, rest);
      var first :| first in rest && forall other <- rest :: t[first].expiresAt <= t[other].expiresAt;
      EarlierOfTwo(t, keys, key, first);
    }
  }

  lemma EarlierOfTwo(t: Table, keys: set<ClientKey>, key: ClientKey, first: ClientKey)
    requires keys <= t.Keys && key in keys && first in keys
    requires forall other <- keys - {key} :: t[first].expiresAt <= t[other].expiresAt
    ensures exists least <- keys :: forall other <- keys :: t[least].expiresAt <= t[other].expiresAt
  {
    var least := if t[key].expiresAt <= t[first].expiresAt then key else first;
    forall other <- keys ensures t[least].expiresAt <= t[other].expiresAt {
      if other != key { assert other in keys - {key}; }
    }
  }

  lemma {:induction false} DistinctFits(order: seq<ClientKey>, keys: set<ClientKey>)
    requires forall i :: 0 <= i < |order| ==> order[i] in keys
    requires forall i, j :: 0 <= i < j < |order| ==> order[i] != order[j]
    ensures |order| <= |keys|
  {
    if order != [] {
      var last := order[|order| - 1];
      DistinctFits(order[..|order| - 1], keys - {last});
    }
  }

  /** The first n keys of the order have been deleted. */
  ghost predicate DroppedFrom(before: Table, after: Table, order: seq<ClientKey>, n: nat)
    requires n <= |order|
  {
    && (forall key :: key in after <==> key in before && key !in order[..n])
    && (forall key <- after :: after[key] == before[key])
    && |after.Keys| == |before.Keys| - n
  }

  lemma DropsNext(before: Table, now: Table, order: seq<ClientKey>, n: nat)
    requires n < |order| && DroppedFrom(before, now, order, n)
    requires forall i :: 0 <= i < |order| ==> order[i] in before
    requires forall i, j :: 0 <= i < j < |order| ==> order[i] != order[j]
    ensures order[n] in now && DroppedFrom(before, now - {order[n]}, order, n + 1)
  {
    var key := order[n];
    assert key !in order[..n];
    assert (now - {key}).Keys == now.Keys - {key};
    forall other ensures other in order[..n + 1] <==> other in order[..n] || other == key {
      assert order[..n + 1] == order[..n] + [key];
    }
  }

  class LoginRateLimiter {
    var failures: Table
    const config: Config

    constructor (config: Config)
      requires config.Sane()
      ensures this.config == config && failures == map[]
    {
      this.config := config;
      failures := map[];
    }

    method Blocked(key: ClientKey, now: Time) returns (blocked: bool, remaining: nat)
      modifies this
      ensures failures == AfterBlocked(old(failures), key, now)
      ensures blocked <==> IsBlocked(config, old(failures), key, now)
      ensures blocked ==> remaining == old(failures)[key].expiresAt - now
      ensures !blocked ==> remaining == 0
    {
      if key !in failures { return false, 0; }
      var entry := failures[key];
      if !(entry.expiresAt > now) {
        failures := failures - {key};
        return false, 0;
      }
      if entry.count < config.limit { return false, 0; }
      return true, entry.expiresAt - now;
    }

    method Failed(key: ClientKey, now: Time)
      requires config.Sane()
      modifies this
      ensures FailsTo(config, old(failures), failures, key, now)
    {
      var entry := if key in failures then failures[key] else Entry(0, 0);
      if !(entry.expiresAt > now) { entry := Entry(0, now + config.window); }
      entry := entry.(count := entry.count + 1);
      failures := failures[key := entry];
      if |failures.Keys| > config.capacity { Evict(key, now); }
    }

    method DropExpired(now: Time)
      modifies this
      ensures failures.Keys == LiveKeys(old(failures), now)
      ensures forall key <- failures :: failures[key] == old(failures)[key]
    {
      var rest := failures.Keys;
      while rest != {}
        invariant rest <= failures.Keys <= old(failures).Keys
        invariant forall key <- failures :: failures[key] == old(failures)[key]
        invariant forall key :: key in old(failures) && key !in rest ==>
          (key in failures <==> Live(old(failures)[key], now))
      {
        var key :| key in rest;
        rest := rest - {key};
        if !(failures[key].expiresAt > now) { failures := failures - {key}; }
      }
    }

    /** The second loop of evict: keys below the limit go, in any order, until the table
        fits. */
    method DropUnlocked(keep: ClientKey) returns (done: bool)
      requires keep in failures
      modifies this
      ensures keep in failures && failures.Keys <= old(failures).Keys
      ensures forall key <- failures :: failures[key] == old(failures)[key]
      ensures forall key :: key in old(failures) && key !in failures ==> !Locked(config, old(failures)[key])
      ensures Min(|old(failures).Keys|, config.capacity) <= |failures.Keys| <= |old(failures).Keys|
      ensures done ==> |failures.Keys| <= config.capacity
      ensures !done ==> forall key <- failures :: key == keep || Locked(config, failures[key])
    {
      var rest := failures.Keys;
      while rest != {}
        invariant keep in failures && rest <= failures.Keys <= old(failures).Keys
        invariant forall key <- failures :: failures[key] == old(failures)[key]
        invariant forall key :: key in old(failures) && key !in failures ==> !Locked(config, old(failures)[key])
        invariant Min(|old(failures).Keys|, config.capacity) <= |failures.Keys| <= |old(failures).Keys|
        invariant forall key <- failures :: key in rest || key == keep || Locked(config, failures[key])
      {
        if |failures.Keys| <= config.capacity { return true; }
        var key :| key in rest;
        rest := rest - {key};
        if key != keep && failures[key].count < config.limit {
          assert (failures - {key}).Keys == failures.Keys - {key};
          failures := failures - {key};
        }
      }
      return false;
    }

    /** The order sort.Slice may produce: ties in any order. */
    method ByExpiry(keys: set<ClientKey>) returns (sorted: seq<ClientKey>)
      requires keys <= failures.Keys
      ensures forall key :: key in sorted <==> key in keys
      ensures |sorted| == |keys|
      ensures forall i, j :: 0 <= i < j < |sorted| ==>
        sorted[i] != sorted[j] && failures[sorted[i]].expiresAt <= failures[sorted[j]].expiresAt
    {
      var rest := keys;
      sorted := [];
      while rest != {}
        invariant rest <= keys
        invariant forall key :: key in sorted <==> key in keys && key !in rest
        invariant |sorted| + |rest| == |keys|
        invariant forall i, j :: 0 <= i < j < |sorted| ==>
          sorted[i] != sorted[j] && failures[sorted[i]].expiresAt <= failures[sorted[j]].expiresAt
        invariant forall i, other :: 0 <= i < |sorted| && other in rest ==>
          failures[sorted[i]].expiresAt <= failures[other].expiresAt
      {
        EarliestExists(failures, rest);
        var key :| key in rest && forall other <- rest :: failures[key].expiresAt <= failures[other].expiresAt;
        rest := rest - {key};
        sorted := sorted + [key];
      }
    }

    /** Deletes the listed keys from the front until the table fits. */
    method DropInOrder(order: seq<ClientKey>) returns (dropped: nat)
      requires forall i :: 0 <= i < |order| ==> order[i] in failures
      requires forall i, j :: 0 <= i < j < |order| ==> order[i] != order[j]
      modifies this
      ensures dropped <= |order| <= |old(failures).Keys|
      ensures forall key :: key in failures <==> key in old(failures) && key !in order[..dropped]
      ensures forall key <- failures :: failures[key] == old(failures)[key]
      ensures |failures.Keys| == |old(failures).Keys| - dropped
      ensures dropped > 0 ==> |failures.Keys| >= config.capacity
      ensures dropped < |order| ==> |failures.Keys| <= config.capacity
    {
      dropped := 0;
      while dropped < |order|
        invariant dropped <= |order| && DroppedFrom(old(failures), failures, order, dropped)
        invariant dropped > 0 ==> |failures.Keys| >= config.capacity
      {
        if |failures.Keys| <= config.capacity { break; }
        DropsNext(old(failures), failures, order, dropped);
        failures := failures - {order[dropped]};
        dropped := dropped + 1;
      }
      DistinctFits(order, old(failures).Keys);
    }

    /** The third loop of evict: lockouts go, earliest expiry first, until the table fits. */
    method DropEarliest(keep: ClientKey)
      requires keep in failures && config.capacity >= 1
      modifies this
      ensures keep in failures && failures.Keys <= old(failures).Keys
      ensures forall key <- failures :: failures[key] == old(failures)[key]
      ensures |failures.Keys| == Min(|old(failures).Keys|, config.capacity)
      ensures forall gone, kept :: gone in old(failures) && gone !in failures && kept in failures && kept != keep ==>
        old(failures)[gone].expiresAt <= old(failures)[kept].expiresAt
    {
      ghost var before := failures;
      var order := ByExpiry(failures.Keys - {keep});
      var dropped := DropInOrder(order);
      assert |order| == |before.Keys| - 1;
      forall gone, kept | gone in before && gone !in failures && kept in failures && kept != keep
        ensures before[gone].expiresAt <= before[kept].expiresAt
      {
        var i :| 0 <= i < dropped && order[i] == gone;
        assert kept in order;
        var j :| 0 <= j < |order| && order[j] == kept;
        assert kept !in order[..dropped];
      }
    }

    method Evict(keep: ClientKey, now: Time)
      requires config.Sane() && keep in failures && Live(failures[keep], now)
      modifies this
      ensures EvictsTo(config, old(failures), failures, keep, now)
    {
      DropExpired(now);
      var done := DropUnlocked(keep);
      if done || |failures.Keys| <= config.capacity { return; }
      DropEarliest(keep);
    }

    method Succeeded(key: ClientKey)
      modifies this
      ensures failures == old(failures) - {key}
    {
      failures := failures - {key};
    }
  }

  /** The Retry-After header: the remaining time rounded up to whole seconds, at least 1. */
  function RetryAfter(remaining: nat): nat {
    var seconds := (remaining + SECOND - 1) / SECOND;
    if seconds < 1 then 1 else seconds
  }
}
