/** `RateLimitMiddleware.dispatch`: the per-address sliding window over login attempts. */
module RateLimit {
  type Address(==, !new)

  /** Accepted attempts with a time in the closed interval from `a` to `b`. */
  ghost function CountIn(log: seq<real>, a: real, b: real): nat {
    if log == [] then 0
    else CountIn(log[..|log| - 1], a, b) + if a <= log[|log| - 1] <= b then 1 else 0
  }

  lemma {:induction false} CountInMeans(log: seq<real>, a: real, b: real)
    ensures CountIn(log, a, b) == |set i: nat | i < |log| && a <= log[i] <= b|
  {
    if log == [] {
    } else {
      var n := |log| - 1;
      CountInMeans(log[..n], a, b);
      var before := set i: nat | i < n && a <= log[..n][i] <= b;
      assert (set i: nat | i < |log| && a <= log[i] <= b) == before + if a <= log[n] <= b then {n as nat} else {};
    }
  }

  ghost predicate Nondecreasing(ts: seq<real>) {
    forall i, j :: 0 <= i < j < |ts| ==> ts[i] <= ts[j]
  }

  /** The window of an address: its accepted times but for some that expired before `clock`. */
  ghost predicate WindowOk(log: seq<real>, queue: seq<real>, limit: int, window: real, clock: real) {
    && Nondecreasing(log)
    && (forall i :: 0 <= i < |log| ==> log[i] <= clock)
    && |queue| <= |log| && queue == log[|log| - |queue|..]
    && (forall i :: 0 <= i < |log| - |queue| ==> log[i] < clock - window)
    && (forall i :: 0 <= i && i + limit < |log| && 0 < limit ==> log[i] + window < log[i + limit])
    && (limit <= 0 ==> log == [])
  }

  /** All of a nondecreasing list before `k` lies below `a`, the rest in the interval. */
  lemma {:induction false} CountSuffix(log: seq<real>, k: nat, a: real, b: real)
    requires Nondecreasing(log) && k <= |log|
    requires forall i :: 0 <= i < k ==> log[i] < a
    requires forall i :: k <= i < |log| ==> a <= log[i] <= b
    ensures CountIn(log, a, b) == |log| - k
  {
    if log == [] {
    } else if k == |log| {
      CountSuffix(log[..|log| - 1], k - 1, a, b);
    } else {
      CountSuffix(log[..|log| - 1], k, a, b);
    }
  }

  /** Attempts `limit` apart being more than a window apart, no closed window holds more than `limit`. */
  lemma {:induction false} CountBounded(log: seq<real>, a: real, window: real, limit: nat)
    requires Nondecreasing(log)
    requires forall i :: 0 <= i && i + limit < |log| ==> log[i] + window < log[i + limit]
    requires limit > 0 || log == []
    ensures CountIn(log, a, a + window) <= limit
  {
    if log == [] {
    } else if !(a <= log[|log| - 1] <= a + window) || |log| <= limit {
      var n := |log| - 1;
      CountBounded(log[..n], a, window, limit);
      CountAtMostLength(log, a, a + window);
    } else {
      assert log[|log| - 1 - limit] + window < log[|log| - 1];
      CountLate(log, |log| - limit, a, a + window);
    }
  }

  lemma {:induction false} CountAtMostLength(log: seq<real>, a: real, b: real)
    ensures CountIn(log, a, b) <= |log|
  {
    if log != [] {
      CountAtMostLength(log[..|log| - 1], a, b);
    }
  }

  lemma {:induction false} CountLate(log: seq<real>, k: nat, a: real, b: real)
    requires k <= |log| && forall i :: 0 <= i < k ==> log[i] < a
    ensures CountIn(log, a, b) <= |log| - k
  {
    if |log| > k {
      CountLate(log[..|log| - 1], k, a, b);
    } else if log != [] {
      CountLate(log[..|log| - 1], k - 1, a, b);
    }
  }

  /** The queue holds the times of the log from `from` on, in order. */
  ghost predicate IsRecent(log: seq<real>, queue: seq<real>, from: real) {
    && |queue| <= |log| && queue == log[|log| - |queue|..]
    && (forall i :: 0 <= i < |log| - |queue| ==> log[i] < from)
    && (forall t :: t in queue ==> from <= t)
  }

  /** Once the expired times are gone, the window stays right with or without the new attempt. */
  lemma WindowAfter(log: seq<real>, queue: seq<real>, limit: int, window: real, now: real)
    requires Nondecreasing(log) && forall i :: 0 <= i < |log| ==> log[i] <= now
    requires forall i :: 0 <= i && i + limit < |log| && 0 < limit ==> log[i] + window < log[i + limit]
    requires limit <= 0 ==> log == []
    requires |queue| <= |log| && queue == log[|log| - |queue|..]
    requires forall i :: 0 <= i < |log| - |queue| ==> log[i] < now - window
    ensures WindowOk(log, queue, limit, window, now)
    ensures |queue| < limit ==> WindowOk(log + [now], queue + [now], limit, window, now)
  {
  }

  /** The queue from its first recent time on. */
  lemma ExpireDone(log: seq<real>, times: seq<real>, queue: seq<real>, limit: int, window: real, clock: real, now: real)
    requires WindowOk(log, times, limit, window, clock) && clock <= now
    requires |queue| <= |log| && queue == log[|log| - |queue|..]
    requires forall i :: 0 <= i < |log| - |queue| ==> log[i] < now - window
    requires queue == [] || now - window <= queue[0]
    ensures |queue| == CountIn(log, now - window, now)
    ensures WindowOk(log, queue, limit, window, now)
    ensures window >= 0.0 ==> IsRecent(log, queue, now - window)
    ensures |queue| < limit ==> WindowOk(log + [now], queue + [now], limit, window, now)
    ensures |queue| < limit && window >= 0.0 ==> IsRecent(log + [now], queue + [now], now - window)
  {
    WindowAfter(log, queue, limit, window, now);
    assert forall i :: 0 <= i < |queue| ==> queue[i] == log[|log| - |queue| + i] && now - window <= queue[i];
    CountSuffix(log, |log| - |queue|, now - window, now);
  }

  lemma WindowLater(log: seq<real>, queue: seq<real>, limit: int, window: real, clock: real, now: real)
    requires WindowOk(log, queue, limit, window, clock) && clock <= now
    ensures WindowOk(log, queue, limit, window, now)
  {
  }

  class RateLimiter {
    const limit: int
    const window: real
    var history: map<Address, seq<real>>
    ghost var clock: real                         // the latest time an attempt was made
    ghost var accepted: map<Address, seq<real>>   // every accepted time, per address

    ghost function Log(ip: Address): seq<real>
      reads this
    {
      if ip in accepted then accepted[ip] else []
    }

    ghost function Queue(ip: Address): seq<real>
      reads this
    {
      if ip in history then history[ip] else []
    }

    ghost predicate Valid()
      reads this
    {
      forall ip :: WindowOk(Log(ip), Queue(ip), limit, window, clock)
    }

    constructor (limit: int, window: real, ghost now: real)
      ensures Valid() && this.limit == limit && this.window == window && clock == now
      ensures history == accepted == map[]
    {
      clock := now;
      this.limit, this.window := limit, window;
      history, accepted := map[], map[];
    }

    /** In every reachable state every closed window holds at most `limit` accepted attempts. */
    lemma EveryWindowWithinLimit(ip: Address, a: real)
      requires Valid()
      ensures CountIn(Log(ip), a, a + window) <= if limit < 0 then 0 else limit
    {
      assert WindowOk(Log(ip), Queue(ip), limit, window, clock);
      CountBounded(Log(ip), a, window, if limit < 0 then 0 else limit);
    }

    /** With a clock that does not go back, an attempt is refused iff `limit` accepted ones lie in
        the window that ends now; afterwards the queue is exactly the accepted times of that window. */
    method Attempt(ip: Address, now: real) returns (ok: bool)
      requires Valid() && clock <= now
      modifies this
      ensures Valid() && clock == now
      ensures ok <==> CountIn(old(Log(ip)), now - window, now) < limit
      ensures Log(ip) == if ok then old(Log(ip)) + [now] else old(Log(ip))
      ensures window >= 0.0 ==> IsRecent(Log(ip), Queue(ip), now - window)
      ensures forall other :: other != ip ==> Log(other) == old(Log(other)) && Queue(other) == old(Queue(other))
    {
      hide WindowOk, CountIn, IsRecent;
      ghost var log := Log(ip);
      assert WindowOk(log, Queue(ip), limit, window, clock);
      if ip !in history {
        history := history[ip := []];
      }
      var queue := Expire(log, history[ip], now);
      history := history[ip := queue];
      if |queue| >= limit {
        ok := false;
      } else {
        ok := true;
        queue := queue + [now];
        history := history[ip := queue];
        accepted := accepted[ip := log + [now]];
      }
      clock := now;
      forall other | other != ip ensures WindowOk(Log(other), Queue(other), limit, window, clock) {
        assert WindowOk(old(Log(other)), old(Queue(other)), limit, window, old(clock));
        WindowLater(Log(other), Queue(other), limit, window, old(clock), now);
      }
    }

    /** Clear the expired times of one queue. */
    method Expire(ghost log: seq<real>, times: seq<real>, now: real) returns (queue: seq<real>)
      requires WindowOk(log, times, limit, window, clock) && clock <= now
      ensures |queue| == CountIn(log, now - window, now)
      ensures WindowOk(log, queue, limit, window, now)
      ensures window >= 0.0 ==> IsRecent(log, queue, now - window)
      ensures |queue| < limit ==> WindowOk(log + [now], queue + [now], limit, window, now)
      ensures |queue| < limit && window >= 0.0 ==> IsRecent(log + [now], queue + [now], now - window)
    {
      hide CountIn, IsRecent;
      queue := times;
      while queue != [] && queue[0] < now - window
        invariant |queue| <= |log| && queue == log[|log| - |queue|..]
        invariant forall i :: 0 <= i < |log| - |queue| ==> log[i] < now - window
      {
        queue := queue[1..];
      }
      ExpireDone(log, times, queue, limit, window, clock, now);
    }
  }
}
