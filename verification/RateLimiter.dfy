/** The per-connection fixed-window rate limiter, and what it allows over whole runs. */
module RateLimiter {
  import opened Machine

  /** Instants are nanoseconds since the connection opened, on a clock that never goes back. */
  const NANOS_PER_SEC: nat := 1_000_000_000
  const WINDOW: nat := 60_000_000_000

  datatype State = State(limit: u32, count: nat, windowStart: nat) {
    predicate Valid() { count <= limit }
  }

  /** `duration_since(..).as_secs() >= 60` */
  predicate Expired(s: State, now: nat) {
    Max(now - s.windowStart, 0) / NANOS_PER_SEC >= 60
  }

  lemma ExpiredIff(s: State, now: nat)
    ensures Expired(s, now) <==> now >= s.windowStart + WINDOW
  {
  }

  function Refreshed(s: State, now: nat): State {
    if Expired(s, now) then s.(count := 0, windowStart := now) else s
  }

  predicate Allows(s: State, now: nat) { Refreshed(s, now).count < s.limit }

  function Next(s: State, now: nat): State {
    var r := Refreshed(s, now);
    if r.count < s.limit then r.(count := r.count + 1) else r
  }

  class Limiter {
    const limit: u32
    var count: nat
    var windowStart: nat

    function Snapshot(): State
      reads this
    {
      State(limit, count, windowStart)
    }

    constructor (limit: u32, now: nat)
      ensures Snapshot() == State(limit, 0, now)
    {
      this.limit, count, windowStart := limit, 0, now;
    }

    method Allow(now: nat) returns (ok: bool)
      requires Snapshot().Valid()
      modifies this
      ensures Snapshot().Valid() && Snapshot() == Next(old(Snapshot()), now)
      ensures ok == Allows(old(Snapshot()), now)
    {
      if Max(now - windowStart, 0) / NANOS_PER_SEC >= 60 {
        windowStart := now;
        count := 0;
      }
      if count >= limit {
        return false;
      }
      count := count + 1;
      return true;
    }
  }

  // ----- runs -----

  /** Calls come at instants that do not decrease. */
  predicate Clock(times: seq<nat>, from: nat) {
    (forall i :: 0 <= i < |times| ==> times[i] >= from) && forall i, j :: 0 <= i < j < |times| ==> times[i] <= times[j]
  }

  function After(s: State, times: seq<nat>): State
    decreases |times|
  {
    if times == [] then s else After(Next(s, times[0]), times[1..])
  }

  /** How many calls of the run are allowed at instants in `[from, until)`. */
  function Allowed(s: State, times: seq<nat>, from: nat, until: nat): nat
    decreases |times|
  {
    if times == [] then 0 else
    (if from <= times[0] < until && Allows(s, times[0]) then 1 else 0) +
    Allowed(Next(s, times[0]), times[1..], from, until)
  }

  lemma ClockTail(times: seq<nat>, from: nat)
    requires times != [] && Clock(times, from)
    ensures Clock(times[1..], times[0]) && times[0] >= from
  {
  }

  /** What can still be allowed inside the interval, from the limiter's current state. */
  function Budget(s: State, t: nat, now: nat): int {
    if now >= t + WINDOW then 0
    else if s.windowStart >= t then s.limit - s.count
    else if now >= t then 2 * s.limit - s.count
    else 2 * s.limit
  }

  lemma {:induction false} AllowedWithinBudget(s: State, times: seq<nat>, t: nat, now: nat)
    requires s.Valid() && Clock(times, now)
    ensures Allowed(s, times, t, t + WINDOW) <= Budget(s, t, now)
    decreases |times|
  {
    if times != [] {
      ClockTail(times, now);
      ExpiredIff(s, times[0]);
      AllowedWithinBudget(Next(s, times[0]), times[1..], t, times[0]);
    }
  }

  /** In any half-open interval of sixty seconds at most twice the limit is allowed. */
  lemma AtMostTwiceLimit(s: State, times: seq<nat>, now: nat, t: nat)
    requires s.Valid() && Clock(times, now)
    ensures Allowed(s, times, t, t + WINDOW) <= 2 * s.limit
  {
    AllowedWithinBudget(s, times, t, now);
  }

  /** From the opening of a window at most the limit is allowed within sixty seconds. */
  lemma AtMostLimitPerWindow(s: State, times: seq<nat>, now: nat)
    requires s.Valid() && Clock(times, now)
    ensures Allowed(s, times, s.windowStart, s.windowStart + WINDOW) <= s.limit - s.count
  {
    AllowedWithinBudget(s, times, s.windowStart, now);
  }

  // ----- the bounds are reached, and refusals are earned -----

  function Repeat(n: nat, t: nat): (r: seq<nat>)
    ensures |r| == n
  {
    seq(n, _ => t)
  }

  /** `n` calls at one instant of an open window with room for them are all allowed. */
  lemma {:induction false} BurstAllowed(s: State, n: nat, now: nat, rest: seq<nat>, from: nat, until: nat)
    requires s.count + n <= s.limit && s.windowStart <= now < s.windowStart + WINDOW && from <= now < until
    ensures Allowed(s, Repeat(n, now) + rest, from, until) == n + Allowed(s.(count := s.count + n), rest, from, until)
    decreases n
  {
    var times := Repeat(n, now) + rest;
    ExpiredIff(s, now);
    if n == 0 {
      assert times == rest;
    } else {
      assert times[1..] == Repeat(n - 1, now) + rest;
      BurstAllowed(s.(count := s.count + 1), n - 1, now, rest, from, until);
    }
  }

  /** Twice the limit really can be allowed within sixty seconds: just before and at a turn. */
  lemma TwiceLimitReached(limit: u32) returns (s: State, times: seq<nat>, t: nat)
    requires limit > 0
    ensures s == State(limit, 0, 0) && Clock(times, 0)
    ensures Allowed(s, times, t, t + WINDOW) == 2 * limit
  {
    s := State(limit, 0, 0);
    t := WINDOW - 1;
    var late := [WINDOW] + Repeat(limit - 1, WINDOW);
    times := Repeat(limit, t) + late;
    BurstAllowed(s, limit, t, late, t, t + WINDOW);
    var full := State(limit, limit, 0);
    ExpiredIff(full, WINDOW);
    var turned := State(limit, 1, WINDOW);
    assert late[1..] == Repeat(limit - 1, WINDOW) + [];
    BurstAllowed(turned, limit - 1, WINDOW, [], t, t + WINDOW);
  }

  lemma {:induction false} AllowedSnoc(s: State, times: seq<nat>, now: nat, from: nat, until: nat)
    ensures After(s, times + [now]) == Next(After(s, times), now)
    ensures Allowed(s, times + [now], from, until) ==
            Allowed(s, times, from, until) + (if from <= now < until && Allows(After(s, times), now) then 1 else 0)
    decreases |times|
  {
    if times == [] {
      assert times + [now] == [now];
    } else {
      assert (times + [now])[1..] == times[1..] + [now];
      AllowedSnoc(Next(s, times[0]), times[1..], now, from, until);
    }
  }

  lemma {:induction false} NoneAllowedLater(s: State, times: seq<nat>, from: nat, until: nat)
    requires forall i :: 0 <= i < |times| ==> times[i] < from
    ensures Allowed(s, times, from, until) == 0
    decreases |times|
  {
    if times != [] {
      NoneAllowedLater(Next(s, times[0]), times[1..], from, until);
    }
  }

  /** The counter is the number of calls allowed since the current window opened. */
  lemma {:induction false} CountIsAllowed(s: State, times: seq<nat>, until: nat)
    requires s.count == 0 && Clock(times, s.windowStart) && (forall i :: 0 <= i < |times| ==> times[i] < until)
    ensures var e := After(s, times);
            && e.limit == s.limit && e.count == Allowed(s, times, e.windowStart, until) &&
               e.windowStart >= s.windowStart
            && (times != [] ==> times[|times| - 1] < e.windowStart + WINDOW)
    decreases |times|
  {
    if times != [] {
      var init, now := times[..|times| - 1], times[|times| - 1];
      assert times == init + [now];
      CountIsAllowed(s, init, until);
      CountStep(s, init, now, until);
    }
  }

  lemma CountStep(s: State, init: seq<nat>, now: nat, until: nat)
    requires s.count == 0 && Clock(init + [now], s.windowStart) && now < until
    requires var m := After(s, init);
             && m.limit == s.limit && m.count == Allowed(s, init, m.windowStart, until) &&
                m.windowStart >= s.windowStart
             && (init != [] ==> init[|init| - 1] < m.windowStart + WINDOW)
    ensures var e := After(s, init + [now]);
            && e.limit == s.limit && e.count == Allowed(s, init + [now], e.windowStart, until)
            && e.windowStart >= s.windowStart && now < e.windowStart + WINDOW
  {
    var m := After(s, init);
    var e := Next(m, now);
    assert (init + [now])[|init|] == now && forall i :: 0 <= i < |init| ==> (init + [now])[i] == init[i];
    AllowedSnoc(s, init, now, e.windowStart, until);
    ExpiredIff(m, now);
    LatestBefore(init, m.windowStart + WINDOW);
    hide Allowed, After, Expired;
    if Expired(m, now) {
      NoneAllowedLater(s, init, now, until);
    } else {
      WindowNotAhead(s, init, now);
    }
  }

  /** A window never opens later than the last call. */
  lemma {:induction false} WindowNotAhead(s: State, times: seq<nat>, now: nat)
    requires s.windowStart <= now && forall i :: 0 <= i < |times| ==> times[i] <= now
    ensures After(s, times).windowStart <= now
    decreases |times|
  {
    if times != [] {
      WindowNotAhead(Next(s, times[0]), times[1..], now);
    }
  }

  lemma LatestBefore(times: seq<nat>, bound: nat)
    requires Clock(times, 0) && (times != [] ==> times[|times| - 1] < bound)
    ensures forall i :: 0 <= i < |times| ==> times[i] < bound
  {
  }

  /** A call is refused exactly when `limit` calls have been allowed since a window opened less
      than sixty seconds before it. */
  lemma RefusedIff(s: State, times: seq<nat>, now: nat)
    requires s.count == 0 && Clock(times + [now], s.windowStart)
    ensures var e := After(s, times);
            !Allows(e, now) <==>
            s.limit == 0 || (now < e.windowStart + WINDOW && Allowed(s, times, e.windowStart, now + 1) >= s.limit)
  {
    assert forall i :: 0 <= i < |times| ==> (times + [now])[i] == times[i];
    assert (times + [now])[|times|] == now;
    CountIsAllowed(s, times, now + 1);
    ExpiredIff(After(s, times), now);
  }
}
