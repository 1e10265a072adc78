/**
 * The fixed-window rate limiter. Time is cut into windows of `windowMs`
 * milliseconds; each call increments the counter of the current window for its
 * key and is allowed while that counter stays at or below `maxRequests`.
 * `now` (the clock reading) is a parameter.
 */
module FixedWindow {
  import opened Decimal
  import opened Text
  import opened KeyValueStore
  import opened RateLimitService

  /** Index of the window that contains `now`. */
  function WindowOf(now: nat, windowMs: nat): nat
    requires windowMs > 0
  {
    now / windowMs
  }

  /** The store key of the counter for `key` in window `window`. */
  function StorageKey(key: string, window: nat): string {
    "rate_limit:" + key + ":" + NatToString(window)
  }

  /** The answer for a post-increment counter value `current`. */
  function Verdict(current: int, window: nat, windowMs: nat, maxRequests: int): (r: LimitResult)
    ensures r.remaining >= 0
    ensures !r.allowed ==> r.remaining == 0
  {
    LimitResult(
      current <= maxRequests,
      NonNegative(maxRequests - current),
      (window + 1) * windowMs)
  }

  /** The counters after one call. */
  function Record(counters: map<string, int>, key: string, windowMs: nat, now: nat): map<string, int>
    requires windowMs > 0
  {
    var sk := StorageKey(key, WindowOf(now, windowMs));
    counters[sk := CounterValue(counters, sk) + 1]
  }

  /** The answer of one call made against `counters`. */
  function Check(counters: map<string, int>, key: string, windowMs: nat, maxRequests: int, now: nat): LimitResult
    requires windowMs > 0
  {
    var w := WindowOf(now, windowMs);
    Verdict(CounterValue(counters, StorageKey(key, w)) + 1, w, windowMs, maxRequests)
  }

  /**
   * `checkLimit`: INCR the window's counter, set its expiry when this call
   * created it, and answer from the new value.
   */
  method CheckLimit(redis: Redis, key: string, windowMs: nat, maxRequests: int, now: nat) returns (r: LimitResult)
    requires redis.Valid() && windowMs > 0
    modifies redis
    ensures redis.Valid()
    ensures redis.counters == Record(old(redis.counters), key, windowMs, now)
    ensures var sk := StorageKey(key, WindowOf(now, windowMs));
            redis.ttl == if redis.counters[sk] == 1 then old(redis.ttl)[sk := ExpirySeconds(windowMs)] else old(redis.ttl)
    ensures redis.zsets == old(redis.zsets)
    ensures r == Check(old(redis.counters), key, windowMs, maxRequests, now)
  {
    var window := now / windowMs;
    var redisKey := StorageKey(key, window);
    var current := redis.Incr(redisKey);
    if current == 1 {
      redis.Expire(redisKey, ExpirySeconds(windowMs));
    }
    var resetTime := (window + 1) * windowMs;
    var remaining := NonNegative(maxRequests - current);
    var allowed := current <= maxRequests;
    r := LimitResult(allowed, remaining, resetTime);
  }

  /** The counter key determines both the caller's key and the window. */
  lemma StorageKeyInjective(k1: string, w1: nat, k2: string, w2: nat)
    ensures StorageKey(k1, w1) == StorageKey(k2, w2) <==> k1 == k2 && w1 == w2
  {
    if StorageKey(k1, w1) == StorageKey(k2, w2) {
      var d1, d2 := NatToString(w1), NatToString(w2);
      assert ':' !in d1 && ':' !in d2 by {
        assert forall i :: 0 <= i < |d1| ==> IsDigit(d1[i]);
        assert forall i :: 0 <= i < |d2| ==> IsDigit(d2[i]);
      }
      SplitAtLastSeparator("rate_limit:" + k1, d1, "rate_limit:" + k2, d2, ':');
      assert k1 == ("rate_limit:" + k1)[11..] && k2 == ("rate_limit:" + k2)[11..];
      NatToStringInjective(w1, w2);
    }
  }

  /** One call adds exactly one to its own counter and touches no other. */
  lemma RecordTouchesOneCounter(counters: map<string, int>, key: string, windowMs: nat, now: nat, other: string)
    requires windowMs > 0
    ensures var sk := StorageKey(key, WindowOf(now, windowMs));
            var after := Record(counters, key, windowMs, now);
            CounterValue(after, sk) == CounterValue(counters, sk) + 1 &&
            (other != sk ==> CounterValue(after, other) == CounterValue(counters, other)) &&
            after.Keys == counters.Keys + {sk}
  {
  }

  /** The reset time is the start of the next window: after `now`, at most one window away. */
  lemma ResetTimeIsNextWindowStart(counters: map<string, int>, key: string, windowMs: nat, maxRequests: int, now: nat)
    requires windowMs > 0
    ensures var t := Check(counters, key, windowMs, maxRequests, now).resetTime;
            now < t <= now + windowMs && t % windowMs == 0 && WindowOf(t, windowMs) == WindowOf(now, windowMs) + 1
  {
    var w := now / windowMs;
    var t := (w + 1) * windowMs;
    assert now == w * windowMs + now % windowMs;
    assert t == w * windowMs + windowMs;
    assert t / windowMs == w + 1 && t % windowMs == 0 by {
      DivMulExact(w + 1, windowMs);
    }
  }

  lemma {:induction false} DivMulExact(q: nat, d: nat)
    requires d > 0
    ensures (q * d) / d == q && (q * d) % d == 0
  {
    var x := q * d;
    var k, r := x / d, x % d;
    assert x == k * d + r && 0 <= r < d;
    assert (q - k) * d == r;
    MultipleOfDivisor(q - k, d);
  }

  /** A non-zero multiple of `d` is at least `d` away from zero. */
  lemma {:induction false} MultipleOfDivisor(k: int, d: int)
    requires d > 0
    ensures k >= 1 ==> k * d >= d
    ensures k <= -1 ==> k * d <= -d
    decreases if k < 0 then -k else k
  {
    if k > 1 {
      MultipleOfDivisor(k - 1, d);
      assert k * d == (k - 1) * d + d;
    } else if k < -1 {
      MultipleOfDivisor(k + 1, d);
      assert k * d == (k + 1) * d - d;
    }
  }

  /** The answers of successive calls, starting from `counters`. */
  function Calls(counters: map<string, int>, key: string, windowMs: nat, maxRequests: int, nows: seq<nat>): (rs: seq<LimitResult>)
    requires windowMs > 0
    ensures |rs| == |nows|
    decreases |nows|
  {
    if nows == [] then []
    else [Check(counters, key, windowMs, maxRequests, nows[0])]
         + Calls(Record(counters, key, windowMs, nows[0]), key, windowMs, maxRequests, nows[1..])
  }

  /** The counters after successive calls. */
  function After(counters: map<string, int>, key: string, windowMs: nat, nows: seq<nat>): map<string, int>
    requires windowMs > 0
    decreases |nows|
  {
    if nows == [] then counters else After(Record(counters, key, windowMs, nows[0]), key, windowMs, nows[1..])
  }

  /**
   * Calls within one window see the counter climb by one each: call `i` is
   * allowed exactly when the counter it produces is at most `maxRequests`,
   * and the counter keeps climbing past the limit.
   */
  lemma {:induction false} SameWindowCalls(counters: map<string, int>, key: string, windowMs: nat, maxRequests: int, nows: seq<nat>, w: nat)
    requires windowMs > 0
    requires forall i :: 0 <= i < |nows| ==> WindowOf(nows[i], windowMs) == w
    ensures var c0 := CounterValue(counters, StorageKey(key, w));
            var rs := Calls(counters, key, windowMs, maxRequests, nows);
            (forall i :: 0 <= i < |nows| ==>
               (rs[i].allowed <==> c0 + i + 1 <= maxRequests) &&
               rs[i].remaining == NonNegative(maxRequests - (c0 + i + 1))) &&
            CounterValue(After(counters, key, windowMs, nows), StorageKey(key, w)) == c0 + |nows|
    decreases |nows|
  {
    if nows != [] {
      var sk := StorageKey(key, w);
      var c0 := CounterValue(counters, sk);
      var next := Record(counters, key, windowMs, nows[0]);
      assert CounterValue(next, sk) == c0 + 1;
      SameWindowCalls(next, key, windowMs, maxRequests, nows[1..], w);
      var rs := Calls(counters, key, windowMs, maxRequests, nows);
      assert rs[1..] == Calls(next, key, windowMs, maxRequests, nows[1..]);
      forall i | 0 <= i < |nows|
        ensures (rs[i].allowed <==> c0 + i + 1 <= maxRequests)
        ensures rs[i].remaining == NonNegative(maxRequests - (c0 + i + 1))
      {
        if i == 0 {
          assert rs[0] == Check(counters, key, windowMs, maxRequests, nows[0]);
          assert WindowOf(nows[0], windowMs) == w;
          assert rs[0] == Verdict(c0 + 1, w, windowMs, maxRequests);
        } else {
          assert rs[i] == rs[1..][i - 1];
          assert nows[1..][i - 1] == nows[i];
          assert (rs[1..][i - 1].allowed <==> (c0 + 1) + (i - 1) + 1 <= maxRequests);
        }
      }
    }
  }

  /** With `M = maxRequests` and a fresh window, the first M calls are allowed and call M+1 is not. */
  lemma InclusiveLimit(counters: map<string, int>, key: string, windowMs: nat, maxRequests: nat, nows: seq<nat>, w: nat)
    requires windowMs > 0
    requires StorageKey(key, w) !in counters
    requires forall i :: 0 <= i < |nows| ==> WindowOf(nows[i], windowMs) == w
    ensures var rs := Calls(counters, key, windowMs, maxRequests, nows);
            forall i :: 0 <= i < |nows| ==> (rs[i].allowed <==> i < maxRequests)
  {
    SameWindowCalls(counters, key, windowMs, maxRequests, nows, w);
  }

  /** Calls in other windows never touch the counter of window `w`. */
  lemma {:induction false} OtherWindowsLeaveCounter(counters: map<string, int>, key: string, windowMs: nat, nows: seq<nat>, w: nat)
    requires windowMs > 0
    requires forall i :: 0 <= i < |nows| ==> WindowOf(nows[i], windowMs) != w
    ensures CounterValue(After(counters, key, windowMs, nows), StorageKey(key, w)) == CounterValue(counters, StorageKey(key, w))
    decreases |nows|
  {
    if nows != [] {
      StorageKeyInjective(key, WindowOf(nows[0], windowMs), key, w);
      OtherWindowsLeaveCounter(Record(counters, key, windowMs, nows[0]), key, windowMs, nows[1..], w);
    }
  }

  /**
   * A call in a later window starts again from a count of 1, however many
   * calls the earlier windows saw.
   */
  lemma LaterWindowStartsAtOne(counters: map<string, int>, key: string, windowMs: nat, maxRequests: int, nows: seq<nat>, now: nat)
    requires windowMs > 0
    requires StorageKey(key, WindowOf(now, windowMs)) !in counters
    requires forall i :: 0 <= i < |nows| ==> WindowOf(nows[i], windowMs) < WindowOf(now, windowMs)
    ensures var r := Check(After(counters, key, windowMs, nows), key, windowMs, maxRequests, now);
            (r.allowed <==> 1 <= maxRequests) && r.remaining == NonNegative(maxRequests - 1)
  {
    OtherWindowsLeaveCounter(counters, key, windowMs, nows, WindowOf(now, windowMs));
  }
}
