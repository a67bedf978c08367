/** security/AuthRateLimitService: a fixed-window counter per key. A key's window opens
    at its first call and lasts WINDOW_MILLIS; inside a window at most the configured
    number of calls is allowed. Once the table holds CLEANUP_THRESHOLD keys, an allowed
    call also sweeps the keys whose window opened more than CLEANUP_AFTER_MILLIS ago.
    The clock (System.currentTimeMillis) is the parameter `now`, in milliseconds. */
module RateLimit {

  const WINDOW_MILLIS: int := 60_000
  const CLEANUP_AFTER_MILLIS: int := 5 * 60_000
  const CLEANUP_THRESHOLD: int := 2_000

  /** WindowCounter: when the key's current window opened and how many calls it allowed. */
  datatype WindowCounter = WindowCounter(windowStart: int, count: int)

  type Counters = map<string, WindowCounter>

  /** The outcome of isAllowed: the answer and the table afterwards. */
  datatype Decision = Decision(allowed: bool, counters: Counters)

  /** cleanupIfNeeded: below the threshold nothing; otherwise removeIf drops every entry
      whose window opened more than CLEANUP_AFTER_MILLIS before now. */
  function Sweep(counters: Counters, now: int): Counters
  {
    if |counters| < CLEANUP_THRESHOLD then counters
    else map k | k in counters && now - counters[k].windowStart <= CLEANUP_AFTER_MILLIS :: counters[k]
  }

  /** The key's counter after computeIfAbsent and the window check. */
  function Current(counters: Counters, key: string, now: int): WindowCounter
  {
    var c := if key in counters then counters[key] else WindowCounter(now, 0);
    if now - c.windowStart >= WINDOW_MILLIS then WindowCounter(now, 0) else c
  }

  /** isAllowed as a function of the table before the call. */
  function Step(counters: Counters, key: string, now: int, limit: int): Decision
  {
    var c := Current(counters, key, now);
    if c.count >= limit then Decision(false, counters[key := c])
    else Decision(true, Sweep(counters[key := WindowCounter(c.windowStart, c.count + 1)], now))
  }

  /** No counter has allowed more calls than the limit, and none is negative. */
  predicate Bounded(counters: Counters, limit: int)
  {
    forall k :: k in counters ==> 0 <= counters[k].count <= limit
  }

  class AuthRateLimitService {
    var counters: Counters
    /** SecurityProperties.authRateLimitPerMinute, at least 1 by its @Min(1). */
    const authRateLimitPerMinute: int

    ghost predicate Valid()
      reads this
    {
      authRateLimitPerMinute >= 1 && Bounded(counters, authRateLimitPerMinute)
    }

    constructor (authRateLimitPerMinute: int)
      requires authRateLimitPerMinute >= 1
      ensures Valid() && counters == map[] && this.authRateLimitPerMinute == authRateLimitPerMinute
    {
      this.authRateLimitPerMinute := authRateLimitPerMinute;
      counters := map[];
    }

    /** The counter is the table's own entry, so the reset and the increment are
        written back as one update of the key. */
    method IsAllowed(key: string, now: int) returns (allowed: bool)
      requires Valid()
      modifies this
      ensures Valid()
      ensures Decision(allowed, counters) == Step(old(counters), key, now, authRateLimitPerMinute)
    {
      StepKeepsBound(counters, key, now, authRateLimitPerMinute);
      var counter := if key in counters then counters[key] else WindowCounter(now, 0);
      if now - counter.windowStart >= WINDOW_MILLIS {
        counter := WindowCounter(now, 0);
      }
      if counter.count >= authRateLimitPerMinute {
        counters := counters[key := counter];
        return false;
      }
      counters := counters[key := WindowCounter(counter.windowStart, counter.count + 1)];
      CleanupIfNeeded(now);
      return true;
    }

    method CleanupIfNeeded(now: int)
      modifies this
      ensures counters == Sweep(old(counters), now)
    {
      if |counters| < CLEANUP_THRESHOLD {
        return;
      }
      counters := map k | k in counters && now - counters[k].windowStart <= CLEANUP_AFTER_MILLIS :: counters[k];
    }
  }

  // ---- properties of one call ----

  /** The sweep keeps exactly the entries it should and never alters a kept one. */
  lemma SweepKeeps(counters: Counters, now: int, k: string)
    ensures k in Sweep(counters, now) <==>
      k in counters && (|counters| < CLEANUP_THRESHOLD || now - counters[k].windowStart <= CLEANUP_AFTER_MILLIS)
    ensures k in Sweep(counters, now) ==> Sweep(counters, now)[k] == counters[k]
  {
  }

  /** After any call, no counter exceeds the limit. */
  lemma StepKeepsBound(counters: Counters, key: string, now: int, limit: int)
    requires limit >= 1 && Bounded(counters, limit)
    ensures Bounded(Step(counters, key, now, limit).counters, limit)
  {
    var c := Current(counters, key, now);
    if c.count < limit {
      var grown := counters[key := WindowCounter(c.windowStart, c.count + 1)];
      assert Bounded(grown, limit);
      forall k | k in Sweep(grown, now) ensures 0 <= Sweep(grown, now)[k].count <= limit {
        SweepKeeps(grown, now, k);
      }
    }
  }

  /** A key seen for the first time is allowed and left with one call counted. */
  lemma FirstSeenAllowed(counters: Counters, key: string, now: int, limit: int)
    requires limit >= 1 && key !in counters
    ensures var d := Step(counters, key, now, limit);
      d.allowed && key in d.counters && d.counters[key] == WindowCounter(now, 1)
  {
    SweepKeeps(counters[key := WindowCounter(now, 1)], now, key);
  }

  /** A call is refused exactly when the key's window is still open and already holds
      `limit` calls; a refused call changes nothing, not even by a sweep. */
  lemma RejectedIff(counters: Counters, key: string, now: int, limit: int)
    requires limit >= 1
    ensures !Step(counters, key, now, limit).allowed <==>
      key in counters && now - counters[key].windowStart < WINDOW_MILLIS && counters[key].count >= limit
    ensures !Step(counters, key, now, limit).allowed ==> Step(counters, key, now, limit).counters == counters
  {
  }

  /** Once the window has run out the counter restarts at now, and the call is allowed. */
  lemma WindowResets(counters: Counters, key: string, now: int, limit: int)
    requires limit >= 1 && key in counters && now - counters[key].windowStart >= WINDOW_MILLIS
    ensures var d := Step(counters, key, now, limit);
      d.allowed && key in d.counters && d.counters[key] == WindowCounter(now, 1)
  {
    SweepKeeps(counters[key := WindowCounter(now, 1)], now, key);
  }

  /** The key of an allowed call is never swept in that call: its window opened less than
      a minute ago, well inside the five-minute retention. */
  lemma AllowedKeySurvives(counters: Counters, key: string, now: int, limit: int)
    requires Step(counters, key, now, limit).allowed
    ensures var c := Current(counters, key, now); var d := Step(counters, key, now, limit);
      key in d.counters && d.counters[key] == WindowCounter(c.windowStart, c.count + 1)
  {
    var c := Current(counters, key, now);
    SweepKeeps(counters[key := WindowCounter(c.windowStart, c.count + 1)], now, key);
  }

  /** A call touches only its own key's counter; any other entry is either kept as it was
      or removed by the sweep of an allowed call on a full table. */
  lemma OtherKeysUntouched(counters: Counters, key: string, other: string, now: int, limit: int)
    requires other != key
    ensures var d := Step(counters, key, now, limit);
      && (other in d.counters ==> other in counters && d.counters[other] == counters[other])
      && (other in counters && other !in d.counters ==>
            d.allowed && |counters| + 1 >= CLEANUP_THRESHOLD
            && now - counters[other].windowStart > CLEANUP_AFTER_MILLIS)
  {
    var c := Current(counters, key, now);
    var grown := counters[key := WindowCounter(c.windowStart, c.count + 1)];
    SweepKeeps(grown, now, other);
    if other in counters && other !in Step(counters, key, now, limit).counters {
      assert |grown| <= |counters| + 1 by {
        assert grown.Keys == counters.Keys + {key};
      }
    }
  }

  // ---- a burst of calls ----

  /** The answers to successive calls for one key at the given instants. */
  function Decisions(counters: Counters, key: string, times: seq<int>, limit: int): (r: seq<bool>)
    ensures |r| == |times|
    decreases |times|
  {
    if times == [] then []
    else
      var d := Step(counters, key, times[0], limit);
      [d.allowed] + Decisions(d.counters, key, times[1..], limit)
  }

  /** Within one window, of successive calls for a key that has already used `used` calls,
      the i-th is allowed exactly when used + i is below the limit: the first
      `limit - used` are allowed and every later one is refused. */
  lemma {:induction false} BurstWithinWindow(counters: Counters, key: string, times: seq<int>,
                                            limit: int, start: int, used: int)
    requires limit >= 1 && 0 <= used
    requires key in counters && counters[key] == WindowCounter(start, used)
    requires forall i :: 0 <= i < |times| ==> start <= times[i] < start + WINDOW_MILLIS
    ensures forall i :: 0 <= i < |times| ==>
      Decisions(counters, key, times, limit)[i] == (used + i < limit)
    decreases |times|
  {
    if times != [] {
      var d := Step(counters, key, times[0], limit);
      var next := if used < limit then used + 1 else used;
      if used < limit {
        AllowedKeySurvives(counters, key, times[0], limit);
      }
      assert d.counters[key] == WindowCounter(start, next);
      BurstWithinWindow(d.counters, key, times[1..], limit, start, next);
      forall i | 0 <= i < |times|
        ensures Decisions(counters, key, times, limit)[i] == (used + i < limit)
      {
        if i > 0 {
          assert Decisions(counters, key, times, limit)[i]
              == Decisions(d.counters, key, times[1..], limit)[i - 1];
          assert times[1..][i - 1] == times[i];
        }
      }
    }
  }

  /** A fresh key gets exactly `limit` allowed calls in its first window. */
  lemma FreshKeyBurst(counters: Counters, key: string, times: seq<int>, limit: int)
    requires limit >= 1 && key !in counters && times != []
    requires forall i :: 0 <= i < |times| ==> times[0] <= times[i] < times[0] + WINDOW_MILLIS
    ensures forall i :: 0 <= i < |times| ==> Decisions(counters, key, times, limit)[i] == (i < limit)
  {
    var d := Step(counters, key, times[0], limit);
    FirstSeenAllowed(counters, key, times[0], limit);
    BurstWithinWindow(d.counters, key, times[1..], limit, times[0], 1);
    forall i | 0 <= i < |times| ensures Decisions(counters, key, times, limit)[i] == (i < limit) {
      if i > 0 {
        assert Decisions(counters, key, times, limit)[i] == Decisions(d.counters, key, times[1..], limit)[i - 1];
        assert times[1..][i - 1] == times[i];
      }
    }
  }
}
