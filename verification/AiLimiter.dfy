/** The per-user limiter of AI requests: its pruning is unobservable and its fixed
    windows bound every sliding one. */
module AiLimiter {

  /** Nanoseconds; 0 is Go's zero time, which a real clock never shows. */
  type Time = nat
  type UserId = string

  const MINUTE: nat := 60_000_000_000
  const PRUNE_ABOVE: nat := 4096

  datatype RequestState = RequestState(windowStart: Time, requests: nat, active: nat)

  datatype Config = Config(maxPerMinute: nat, maxConcurrent: nat)

  /** The values newAIRequestLimiter sets. */
  const DEFAULTS := Config(30, 2)

  datatype Answer = Granted | TooManyConcurrent | TooManyPerMinute

  type Table = map<UserId, RequestState>

  function Lookup(t: Table, user: UserId): RequestState {
    if user in t then t[user] else RequestState(0, 0, 0)
  }

  function Windowed(s: RequestState, now: Time): RequestState {
    if s.windowStart == 0 || now - s.windowStart >= MINUTE then s.(windowStart := now, requests := 0) else s
  }

  function Decide(c: Config, s: RequestState, now: Time): Answer {
    var w := Windowed(s, now);
    if w.active >= c.maxConcurrent then TooManyConcurrent
    else if w.requests >= c.maxPerMinute then TooManyPerMinute
    else Granted
  }

  function Take(s: RequestState, now: Time): RequestState {
    var w := Windowed(s, now);
    w.(active := w.active + 1, requests := w.requests + 1)
  }

  predicate Idle(s: RequestState, now: Time) { s.active == 0 && now - s.windowStart > 2 * MINUTE }

  function Prune(t: Table, now: Time): Table {
    if |t| > PRUNE_ABOVE then map user | user in t && !Idle(t[user], now) :: t[user] else t
  }

  datatype Event = Acquire(user: UserId, now: Time) | Release(user: UserId)

  /** The limiter with its pruning switched on or off. */
  function Next(c: Config, t: Table, e: Event, pruning: bool): Table {
    match e
    case Acquire(user, now) =>
      if Decide(c, Lookup(t, user), now) != Granted then t
      else
        var taken := t[user := Take(Lookup(t, user), now)];
        if pruning then Prune(taken, now) else taken
    case Release(user) =>
      if user !in t then t
      else t[user := t[user].(active := if t[user].active > 0 then t[user].active - 1 else 0)]
  }

  class AiRequestLimiter {
    var users: Table
    const config: Config

    constructor (config: Config)
      ensures this.config == config && users == map[]
    {
      this.config := config;
      users := map[];
    }

    method AcquireSlot(user: UserId, now: Time) returns (answer: Answer)
      modifies this
      ensures answer == Decide(config, Lookup(old(users), user), now)
      ensures users == Next(config, old(users), Acquire(user, now), true)
    {
      var state := if user in users then users[user] else RequestState(0, 0, 0);
      if state.windowStart == 0 || now - state.windowStart >= MINUTE {
        state := state.(windowStart := now, requests := 0);
      }
      if state.active >= config.maxConcurrent { return TooManyConcurrent; }
      if state.requests >= config.maxPerMinute { return TooManyPerMinute; }
      state := state.(active := state.active + 1, requests := state.requests + 1);
      users := users[user := state];
      if |users| > PRUNE_ABOVE {
        ghost var taken := users;
        var rest := users.Keys;
        while rest != {}
          invariant rest <= users.Keys <= taken.Keys
          invariant users == map id | id in taken && (id in rest || !Idle(taken[id], now)) :: taken[id]
        {
          var id :| id in rest;
          rest := rest - {id};
          if users[id].active == 0 && now - users[id].windowStart > 2 * MINUTE { users := users - {id}; }
        }
      }
      return Granted;
    }

    method ReleaseSlot(user: UserId)
      modifies this
      ensures users == Next(config, old(users), Release(user), true)
    {
      if user !in users { return; }
      var state := users[user];
      if state.active > 0 { state := state.(active := state.active - 1); }
      users := users[user := state];
    }
  }

  // ----- Runs -----

  function Run(c: Config, events: seq<Event>, pruning: bool): Table {
    if events == [] then map[]
    else Next(c, Run(c, events[..|events| - 1], pruning), events[|events| - 1], pruning)
  }

  ghost predicate NonDecreasing(events: seq<Event>) {
    forall i, j :: 0 <= i < j < |events| && events[i].Acquire? && events[j].Acquire? ==>
      0 < events[i].now <= events[j].now
  }

  /** The clock at the end of a history. */
  function LastTime(events: seq<Event>): Time {
    if events == [] then 0
    else if events[|events| - 1].Acquire? then events[|events| - 1].now
    else LastTime(events[..|events| - 1])
  }

  /** A granted acquire forgets, in a table that exceeds 4,096 users, exactly those without a
      running request whose window began more than two minutes ago, and nobody otherwise. */
  lemma ForgetsExactly(c: Config, t: Table, user: UserId, now: Time, other: UserId)
    requires Decide(c, Lookup(t, user), now) == Granted && other != user
    ensures var after := Next(c, t, Acquire(user, now), true);
            && (other !in t ==> other !in after)
            && (other in t ==> (other !in after <==>
                 (|t.Keys + {user}| > 4096 && t[other].active == 0 && now - t[other].windowStart > 120_000_000_000)))
            && (other in after ==> after[other] == t[other])
  {
    var taken := t[user := Take(Lookup(t, user), now)];
    assert taken.Keys == t.Keys + {user} && |taken| == |taken.Keys|;
  }

  // ----- Pruning is unobservable -----

  /** The pruned table lacks only entries that are idle and two minutes old. */
  ghost predicate Forgets(pruned: Table, full: Table, now: Time) {
    && pruned.Keys <= full.Keys
    && (forall user <- pruned :: pruned[user] == full[user])
    && (forall user :: user in full && user !in pruned ==> Idle(full[user], now))
  }

  lemma ForgottenAnswersSame(c: Config, pruned: Table, full: Table, user: UserId, last: Time, now: Time)
    requires Forgets(pruned, full, last) && last <= now
    ensures Decide(c, Lookup(pruned, user), now) == Decide(c, Lookup(full, user), now)
    ensures Take(Lookup(pruned, user), now) == Take(Lookup(full, user), now)
  {
  }

  lemma StepForgets(c: Config, pruned: Table, full: Table, e: Event, last: Time)
    requires Forgets(pruned, full, last) && (e.Acquire? ==> last <= e.now)
    ensures Forgets(Next(c, pruned, e, true), Next(c, full, e, false), if e.Acquire? then e.now else last)
  {
    if e.Acquire? { ForgottenAnswersSame(c, pruned, full, e.user, last, e.now); }
  }

  lemma {:induction false} LastTimeIsEarlier(events: seq<Event>, now: Time)
    requires forall i :: 0 <= i < |events| && events[i].Acquire? ==> events[i].now <= now
    ensures LastTime(events) <= now
  {
    if events != [] && events[|events| - 1].Release? { LastTimeIsEarlier(events[..|events| - 1], now); }
  }

  lemma {:induction false} RunForgets(c: Config, events: seq<Event>)
    requires NonDecreasing(events)
    ensures Forgets(Run(c, events, true), Run(c, events, false), LastTime(events))
  {
    if events != [] {
      var init, e := events[..|events| - 1], events[|events| - 1];
      RunForgets(c, init);
      if e.Acquire? { LastTimeIsEarlier(init, e.now); }
      StepForgets(c, Run(c, init, true), Run(c, init, false), e, LastTime(init));
    }
  }

  /** Every acquire of every run is answered as a limiter that never prunes would. */
  lemma PruningIsUnobservable(c: Config, events: seq<Event>, i: nat)
    requires NonDecreasing(events) && i < |events| && events[i].Acquire?
    ensures Decide(c, Lookup(Run(c, events[..i], true), events[i].user), events[i].now)
         == Decide(c, Lookup(Run(c, events[..i], false), events[i].user), events[i].now)
  {
    RunForgets(c, events[..i]);
    LastTimeIsEarlier(events[..i], events[i].now);
    ForgottenAnswersSame(c, Run(c, events[..i], true), Run(c, events[..i], false),
                         events[i].user, LastTime(events[..i]), events[i].now);
  }

  // ----- Concurrency -----

  predicate Grants(c: Config, history: seq<Event>, e: Event, user: UserId) {
    e.Acquire? && e.user == user && Decide(c, Lookup(Run(c, history, true), user), e.now) == Granted
  }

  /** Slots granted to a user and not yet released; a release without a grant changes nothing. */
  function Outstanding(c: Config, events: seq<Event>, user: UserId): nat {
    if events == [] then 0
    else
      var init, e := events[..|events| - 1], events[|events| - 1];
      var before := Outstanding(c, init, user);
      if Grants(c, init, e, user) then before + 1
      else if e == Release(user) && before > 0 then before - 1
      else before
  }

  /** The active counter is the number of outstanding grants, and never exceeds the limit. */
  lemma {:induction false} ActiveCountsGrants(c: Config, events: seq<Event>, user: UserId)
    ensures Lookup(Run(c, events, true), user).active == Outstanding(c, events, user)
    ensures Outstanding(c, events, user) <= c.maxConcurrent
  {
    if events != [] { ActiveCountsGrants(c, events[..|events| - 1], user); }
  }

  // ----- Rate -----

  /** Grants to a user at or after a moment. */
  function GrantsFrom(c: Config, events: seq<Event>, user: UserId, from: int): nat {
    if events == [] then 0
    else
      var init, e := events[..|events| - 1], events[|events| - 1];
      GrantsFrom(c, init, user, from) + if Grants(c, init, e, user) && e.now >= from then 1 else 0
  }

  lemma {:induction false} GrantsFromAntitone(c: Config, events: seq<Event>, user: UserId, from: int, later: int)
    requires from <= later
    ensures GrantsFrom(c, events, user, later) <= GrantsFrom(c, events, user, from)
  {
    if events != [] { GrantsFromAntitone(c, events[..|events| - 1], user, from, later); }
  }

  /** Grants to a user in the half-open minute that starts at a moment. */
  function GrantsInMinute(c: Config, events: seq<Event>, user: UserId, from: int): int {
    GrantsFrom(c, events, user, from) - GrantsFrom(c, events, user, from + MINUTE)
  }

  lemma MinuteGrows(c: Config, init: seq<Event>, e: Event, user: UserId, from: int)
    ensures GrantsInMinute(c, init + [e], user, from) == GrantsInMinute(c, init, user, from) +
      if Grants(c, init, e, user) && from <= e.now < from + MINUTE then 1 else 0
  {
    assert (init + [e])[..|init|] == init;
  }

  /** What the unpruned entry of a user knows about the history: its window was opened by a
      grant, contains exactly the grants it counted, and every other grant of the minute
      before it belongs to one earlier window that had opened before that minute. */
  ghost predicate WindowInv(c: Config, events: seq<Event>, user: UserId) {
    var t := Run(c, events, false);
    && (forall a: int :: GrantsInMinute(c, events, user, a) <= 2 * c.maxPerMinute - 1)
    && if user !in t then forall a: int :: GrantsFrom(c, events, user, a) == 0
    else
      var s := t[user];
      0 < s.windowStart && 1 <= s.requests <= c.maxPerMinute
      && s.requests == GrantsFrom(c, events, user, s.windowStart)
      && GrantsFrom(c, events, user, s.windowStart + 1) <= s.requests - 1
      && GrantsFrom(c, events, user, s.windowStart + MINUTE) == 0
      && (forall a: int :: a + MINUTE > s.windowStart ==>
           GrantsFrom(c, events, user, a) <= s.requests + c.maxPerMinute - 1)
  }

  /** A grant of the pruning limiter is a grant of the full one, and extends its entry. */
  lemma GrantTakes(c: Config, init: seq<Event>, e: Event, user: UserId)
    requires NonDecreasing(init + [e])
    ensures Grants(c, init, e, user) ==>
      Run(c, init + [e], false) == Run(c, init, false)[user := Take(Lookup(Run(c, init, false), user), e.now)]
    ensures !Grants(c, init, e, user) ==>
      && (user in Run(c, init + [e], false) <==> user in Run(c, init, false))
      && Lookup(Run(c, init + [e], false), user)
           == Lookup(Run(c, init, false), user).(active := Lookup(Run(c, init + [e], false), user).active)
  {
    var events := init + [e];
    assert events[..|init|] == init && events[|init|] == e;
    assert forall i :: 0 <= i < |init| ==> events[i] == init[i];
    if e.Acquire? {
      RunForgets(c, init);
      LastTimeIsEarlier(init, e.now);
      ForgottenAnswersSame(c, Run(c, init, true), Run(c, init, false), e.user, LastTime(init), e.now);
    }
  }

  lemma GrantsFromGrows(c: Config, init: seq<Event>, e: Event, user: UserId, from: int)
    ensures GrantsFrom(c, init + [e], user, from) ==
      GrantsFrom(c, init, user, from) + if Grants(c, init, e, user) && e.now >= from then 1 else 0
  {
    assert (init + [e])[..|init|] == init;
  }

  lemma NoGrantKeepsWindow(c: Config, init: seq<Event>, e: Event, user: UserId)
    requires NonDecreasing(init + [e]) && WindowInv(c, init, user) && !Grants(c, init, e, user)
    ensures WindowInv(c, init + [e], user)
  {
    GrantTakes(c, init, e, user);
    forall a: int ensures GrantsFrom(c, init + [e], user, a) == GrantsFrom(c, init, user, a) {
      GrantsFromGrows(c, init, e, user, a);
    }
    forall a: int ensures GrantsInMinute(c, init + [e], user, a) <= 2 * c.maxPerMinute - 1 {
      assert GrantsInMinute(c, init, user, a) <= 2 * c.maxPerMinute - 1;
    }
  }

  lemma GrantInWindow(c: Config, init: seq<Event>, e: Event, user: UserId)
    requires NonDecreasing(init + [e]) && Grants(c, init, e, user)
    requires WindowInv(c, init, user) && user in Run(c, init, false)
    requires 0 <= e.now - Run(c, init, false)[user].windowStart < MINUTE
    ensures WindowInv(c, init + [e], user)
  {
    GrantTakes(c, init, e, user);
    var s := Run(c, init, false)[user];
    forall a: int
      ensures GrantsFrom(c, init + [e], user, a) == GrantsFrom(c, init, user, a) + if e.now >= a then 1 else 0
    {
      GrantsFromGrows(c, init, e, user, a);
    }
    forall a: int ensures GrantsInMinute(c, init + [e], user, a) <= 2 * c.maxPerMinute - 1 {
      MinuteGrows(c, init, e, user, a);
      assert GrantsInMinute(c, init, user, a) <= 2 * c.maxPerMinute - 1;
      assert a + MINUTE > e.now ==> GrantsFrom(c, init, user, a) <= s.requests + c.maxPerMinute - 1;
    }
  }

  /** When a window has run out, all but its opening grant, and nothing else, can lie in
      the last minute. */
  lemma FewOldGrants(c: Config, init: seq<Event>, user: UserId, now: Time, a: int)
    requires WindowInv(c, init, user) && c.maxPerMinute >= 1
    requires user in Run(c, init, false) ==> now - Run(c, init, false)[user].windowStart >= MINUTE
    ensures a + MINUTE > now ==> GrantsFrom(c, init, user, a) <= c.maxPerMinute - 1
    ensures a >= now ==> GrantsFrom(c, init, user, a) == 0
  {
    if user in Run(c, init, false) {
      var s := Run(c, init, false)[user];
      if a + MINUTE > now { GrantsFromAntitone(c, init, user, s.windowStart + 1, a); }
      if a >= now { GrantsFromAntitone(c, init, user, s.windowStart + MINUTE, a); }
    }
  }

  lemma CountsAfterOpening(c: Config, init: seq<Event>, e: Event, user: UserId, a: int)
    requires Grants(c, init, e, user) && WindowInv(c, init, user) && c.maxPerMinute >= 1
    requires user in Run(c, init, false) ==> e.now - Run(c, init, false)[user].windowStart >= MINUTE
    ensures a > e.now ==> GrantsFrom(c, init + [e], user, a) == 0
    ensures a == e.now ==> GrantsFrom(c, init + [e], user, a) == 1
    ensures a + MINUTE > e.now ==> GrantsFrom(c, init + [e], user, a) <= c.maxPerMinute
    ensures GrantsInMinute(c, init + [e], user, a) <= 2 * c.maxPerMinute - 1
  {
    GrantsFromGrows(c, init, e, user, a);
    FewOldGrants(c, init, user, e.now, a);
    MinuteGrows(c, init, e, user, a);
    assert GrantsInMinute(c, init, user, a) <= 2 * c.maxPerMinute - 1;
  }

  lemma OpenedEntry(c: Config, init: seq<Event>, e: Event, user: UserId)
    requires NonDecreasing(init + [e]) && Grants(c, init, e, user)
    requires user in Run(c, init, false) ==> e.now - Run(c, init, false)[user].windowStart >= MINUTE
    ensures user in Run(c, init + [e], false)
    ensures Run(c, init + [e], false)[user].windowStart == e.now && Run(c, init + [e], false)[user].requests == 1
  {
    GrantTakes(c, init, e, user);
  }

  /** An entry that a lone grant has just opened explains the history. */
  lemma OpenedExplains(c: Config, events: seq<Event>, user: UserId)
    requires c.maxPerMinute >= 1 && user in Run(c, events, false)
    requires var s := Run(c, events, false)[user];
             s.requests == 1 && s.windowStart > 0 &&
             GrantsFrom(c, events, user, s.windowStart) == 1 &&
             GrantsFrom(c, events, user, s.windowStart + 1) == 0 &&
             GrantsFrom(c, events, user, s.windowStart + MINUTE) == 0 &&
             forall a: int :: a + MINUTE > s.windowStart ==> GrantsFrom(c, events, user, a) <= c.maxPerMinute
    requires forall a: int :: GrantsInMinute(c, events, user, a) <= 2 * c.maxPerMinute - 1
    ensures WindowInv(c, events, user)
  {
  }

  lemma GrantOpensWindow(c: Config, init: seq<Event>, e: Event, user: UserId)
    requires NonDecreasing(init + [e]) && Grants(c, init, e, user) && e.now > 0
    requires WindowInv(c, init, user) && c.maxPerMinute >= 1
    requires user in Run(c, init, false) ==> e.now - Run(c, init, false)[user].windowStart >= MINUTE
    ensures WindowInv(c, init + [e], user)
  {
    OpenedEntry(c, init, e, user);
    var events := init + [e];
    forall a: int
      ensures a + MINUTE > e.now ==> GrantsFrom(c, events, user, a) <= c.maxPerMinute
      ensures GrantsInMinute(c, events, user, a) <= 2 * c.maxPerMinute - 1
      ensures a == e.now ==> GrantsFrom(c, events, user, a) == 1
      ensures a > e.now ==> GrantsFrom(c, events, user, a) == 0
    {
      CountsAfterOpening(c, init, e, user, a);
    }
    OpenedExplains(c, events, user);
  }

  lemma {:induction false} WindowInvHolds(c: Config, events: seq<Event>, user: UserId)
    requires NonDecreasing(events) && c.maxPerMinute >= 1
    requires forall i :: 0 <= i < |events| && events[i].Acquire? ==> events[i].now > 0
    ensures WindowInv(c, events, user)
    ensures user in Run(c, events, false) ==> Run(c, events, false)[user].windowStart <= LastTime(events)
  {
    if events != [] {
      var init, e := events[..|events| - 1], events[|events| - 1];
      assert events == init + [e];
      WindowInvHolds(c, init, user);
      GrantTakes(c, init, e, user);
      if e.Acquire? { LastTimeIsEarlier(init, e.now); }
      if !Grants(c, init, e, user) {
        NoGrantKeepsWindow(c, init, e, user);
      } else if user in Run(c, init, false) && e.now - Run(c, init, false)[user].windowStart < MINUTE {
        GrantInWindow(c, init, e, user);
      } else {
        GrantOpensWindow(c, init, e, user);
      }
    }
  }

  /** No half-open minute holds more than 2 * maxPerMinute - 1 grants to one user. */
  lemma SlidingMinuteIsBounded(c: Config, events: seq<Event>, user: UserId, from: int)
    requires NonDecreasing(events) && c.maxPerMinute >= 1
    requires forall i :: 0 <= i < |events| && events[i].Acquire? ==> events[i].now > 0
    ensures GrantsInMinute(c, events, user, from) <= 2 * c.maxPerMinute - 1
  {
    WindowInvHolds(c, events, user);
  }

  /** With the values of newAIRequestLimiter: at most 59 grants in any minute and two at a time. */
  lemma DefaultLimits(c: Config, events: seq<Event>, user: UserId, from: int)
    requires c == DEFAULTS && NonDecreasing(events)
    requires forall i :: 0 <= i < |events| && events[i].Acquire? ==> events[i].now > 0
    ensures GrantsFrom(c, events, user, from) - GrantsFrom(c, events, user, from + 60_000_000_000) <= 59
    ensures Outstanding(c, events, user) <= 2
  {
    SlidingMinuteIsBounded(c, events, user, from);
    ActiveCountsGrants(c, events, user);
  }

  /** Refusals are earned: a slot is refused for concurrency exactly when the user holds
      maxConcurrent of them, and for rate only after maxPerMinute grants in the last minute. */
  lemma RefusalsAreEarned(c: Config, events: seq<Event>, user: UserId, now: Time)
    requires NonDecreasing(events) && c.maxPerMinute >= 1
    requires forall i :: 0 <= i < |events| && events[i].Acquire? ==> 0 < events[i].now <= now
    ensures var answer := Decide(c, Lookup(Run(c, events, true), user), now);
            && (answer == TooManyConcurrent <==> Outstanding(c, events, user) == c.maxConcurrent)
            && (answer == TooManyPerMinute ==> GrantsFrom(c, events, user, now - MINUTE + 1) >= c.maxPerMinute)
  {
    ActiveCountsGrants(c, events, user);
    RunForgets(c, events);
    LastTimeIsEarlier(events, now);
    ForgottenAnswersSame(c, Run(c, events, true), Run(c, events, false), user, LastTime(events), now);
    WindowInvHolds(c, events, user);
    var s := Lookup(Run(c, events, false), user);
    if Decide(c, s, now) == TooManyPerMinute {
      GrantsFromAntitone(c, events, user, now - MINUTE + 1, s.windowStart);
    }
  }
}
