/**
 * The sliding-window rate limiter. Each key owns a sorted set of request
 * markers scored by their arrival time. A call prunes the markers that fell
 * out of the trailing window, counts the rest, adds its own marker, refreshes
 * the expiry, and is allowed when the count was below `maxRequests`. A
 * rejected call removes its marker again. `now` and the random part of the
 * marker (`nonce`) are parameters.
 */
module SlidingWindow {
  import opened Wrappers
  import opened Decimal
  import opened KeyValueStore
  import opened RateLimitService

  function SlidingKey(key: string): string {
    "sliding_rate_limit:" + key
  }

  /** The marker of a request: `${now}-${Math.random()}`, the random part rendered as `nonce`. */
  function MarkerId(now: nat, nonce: string): string {
    NatToString(now) + "-" + nonce
  }

  /** The markers left after ZREMRANGEBYSCORE key 0 (now - windowMs). */
  function Pruned(members: map<string, int>, now: nat, windowMs: nat): map<string, int> {
    OutsideRange(members, 0, now - windowMs)
  }

  /** `(results?.[1]?.[1] as number) || 0`: a missing ZCARD reply counts as zero. */
  function PipelineCount(reply: Option<nat>): nat {
    reply.GetOr(0)
  }

  /** The answer for `currentCount` markers found in the window. */
  function Verdict(currentCount: int, now: nat, windowMs: nat, maxRequests: int): (r: LimitResult)
    ensures r.remaining >= 0
    ensures !r.allowed ==> r.remaining == 0
  {
    LimitResult(currentCount < maxRequests, NonNegative(maxRequests - currentCount - 1), now + windowMs)
  }

  /**
   * The markers after one call that inserts `inserted` and, when rejected,
   * issues ZREM for `removed`. The source removes a marker built from a second
   * random draw (`removed` differs from `inserted`); the model's CheckLimit
   * removes the marker it inserted.
   */
  function Outcome(members: map<string, int>, now: nat, windowMs: nat, maxRequests: int, inserted: string, removed: string): map<string, int> {
    var pruned := Pruned(members, now, windowMs);
    var added := pruned[inserted := now];
    if |pruned| < maxRequests then added else Without(added, removed)
  }

  /** One call that removes exactly the marker it inserted. */
  function Step(members: map<string, int>, now: nat, windowMs: nat, maxRequests: int, id: string): map<string, int> {
    Outcome(members, now, windowMs, maxRequests, id, id)
  }

  /** `checkLimit`, with the compensating ZREM issued for the inserted marker. */
  method CheckLimit(redis: Redis, key: string, windowMs: nat, maxRequests: int, now: nat, nonce: string) returns (r: LimitResult)
    requires redis.Valid()
    modifies redis
    ensures redis.Valid()
    ensures var sk := SlidingKey(key);
            Members(redis.zsets, sk) == Step(Members(old(redis.zsets), sk), now, windowMs, maxRequests, MarkerId(now, nonce))
    ensures SameElsewhere(redis.zsets, old(redis.zsets), SlidingKey(key))
    ensures redis.ttl == old(redis.ttl)[SlidingKey(key) := ExpirySeconds(windowMs)]
    ensures redis.counters == old(redis.counters)
    ensures r == Verdict(|Pruned(Members(old(redis.zsets), SlidingKey(key)), now, windowMs)|, now, windowMs, maxRequests)
  {
    var windowStart := now - windowMs;
    var redisKey := SlidingKey(key);
    var member := MarkerId(now, nonce);
    ghost var before := redis.zsets;
    ghost var kept := Pruned(Members(before, redisKey), now, windowMs);
    ghost var target := Step(Members(before, redisKey), now, windowMs, maxRequests, member);
    assert target == if |kept| < maxRequests then kept[member := now] else Without(kept[member := now], member);
    redis.ZRemRangeByScore(redisKey, 0, windowStart);
    assert Members(redis.zsets, redisKey) == kept;
    var card := redis.ZCard(redisKey);
    ghost var pruned := redis.zsets;
    redis.ZAdd(redisKey, now, member);
    ghost var added := redis.zsets;
    assert Members(added, redisKey) == kept[member := now];
    SameElsewhereTrans(added, pruned, before, redisKey);
    redis.Expire(redisKey, ExpirySeconds(windowMs));
    var currentCount := PipelineCount(Some(card));
    var allowed := currentCount < maxRequests;
    var remaining := NonNegative(maxRequests - currentCount - 1);
    var resetTime := now + windowMs;
    if !allowed {
      redis.ZRem(redisKey, member);
      SameElsewhereTrans(redis.zsets, added, before, redisKey);
    }
    r := LimitResult(allowed, remaining, resetTime);
  }

  predicate ScoresNonNegative(members: map<string, int>) {
    forall x :: x in members ==> members[x] >= 0
  }

  /** After pruning, every marker is strictly newer than `now - windowMs`: the cut-off is inclusive. */
  lemma PruneDropsExpired(members: map<string, int>, now: nat, windowMs: nat)
    requires ScoresNonNegative(members)
    ensures var p := Pruned(members, now, windowMs);
            (forall x :: x in p ==> p[x] > now - windowMs) &&
            (forall x :: x in members && members[x] > now - windowMs ==> x in p && p[x] == members[x])
  {
  }

  /** A missing count reply allows the request whenever the limit is positive. */
  lemma MissingCountAllows(now: nat, windowMs: nat, maxRequests: int)
    ensures Verdict(PipelineCount(None), now, windowMs, maxRequests).allowed <==> maxRequests > 0
  {
  }

  /** The call's own marker, scored `now`, is present afterwards exactly when the call is allowed. */
  lemma MarkerKeptIffAllowed(members: map<string, int>, now: nat, windowMs: nat, maxRequests: int, id: string)
    ensures var after := Step(members, now, windowMs, maxRequests, id);
            var allowed := Verdict(|Pruned(members, now, windowMs)|, now, windowMs, maxRequests).allowed;
            (id in after <==> allowed) && (allowed ==> after[id] == now)
  {
  }

  /**
   * A rejected call whose marker is new leaves exactly the pruned set behind:
   * no marker of a rejected request survives.
   */
  lemma RejectedLeavesNoMarker(members: map<string, int>, now: nat, windowMs: nat, maxRequests: int, id: string)
    requires id !in Pruned(members, now, windowMs)
    requires !Verdict(|Pruned(members, now, windowMs)|, now, windowMs, maxRequests).allowed
    ensures Step(members, now, windowMs, maxRequests, id) == Pruned(members, now, windowMs)
  {
    var pruned := Pruned(members, now, windowMs);
    var after := Step(members, now, windowMs, maxRequests, id);
    assert after.Keys == pruned.Keys;
  }

  lemma SubmapCardinality(small: map<string, int>, big: map<string, int>)
    requires small.Keys <= big.Keys
    ensures |small| <= |big|
  {
    assert |small.Keys| <= |big.Keys| by {
      SubsetCardinality(small.Keys, big.Keys);
    }
  }

  lemma {:induction false} SubsetCardinality(a: set<string>, b: set<string>)
    requires a <= b
    ensures |a| <= |b|
    decreases |b|
  {
    if b != {} {
      var x :| x in b;
      SubsetCardinality(a - {x}, b - {x});
    }
  }

  /** When the set held at most `maxRequests` markers, it still does after the call. */
  lemma BoundPreserved(members: map<string, int>, now: nat, windowMs: nat, maxRequests: int, id: string)
    requires |members| <= maxRequests
    ensures |Step(members, now, windowMs, maxRequests, id)| <= maxRequests
  {
    var pruned := Pruned(members, now, windowMs);
    SubmapCardinality(pruned, members);
    var added := pruned[id := now];
    if |pruned| >= maxRequests {
      var after := Without(added, id);
      assert after.Keys <= pruned.Keys;
      SubmapCardinality(after, pruned);
    }
  }

  /** A request as the limiter sees it: its arrival time and the random part of its marker. */
  datatype Request = Request(now: nat, nonce: string)

  /** The markers after a sequence of calls. */
  function Replay(members: map<string, int>, windowMs: nat, maxRequests: int, reqs: seq<Request>): map<string, int>
    decreases |reqs|
  {
    if reqs == [] then members
    else Replay(Step(members, reqs[0].now, windowMs, maxRequests, MarkerId(reqs[0].now, reqs[0].nonce)), windowMs, maxRequests, reqs[1..])
  }

  /** The answers of a sequence of calls. */
  function Verdicts(members: map<string, int>, windowMs: nat, maxRequests: int, reqs: seq<Request>): (rs: seq<LimitResult>)
    ensures |rs| == |reqs|
    decreases |reqs|
  {
    if reqs == [] then []
    else
      var r := reqs[0];
      [Verdict(|Pruned(members, r.now, windowMs)|, r.now, windowMs, maxRequests)]
      + Verdicts(Step(members, r.now, windowMs, maxRequests, MarkerId(r.now, r.nonce)), windowMs, maxRequests, reqs[1..])
  }

  /**
   * No leaked markers: after any sequence of calls, every marker in the set
   * was already there or belongs to a request that was allowed.
   */
  lemma {:induction false} OnlyAllowedMarkersRemain(members: map<string, int>, windowMs: nat, maxRequests: int, reqs: seq<Request>, x: string)
    requires x in Replay(members, windowMs, maxRequests, reqs)
    ensures x in members ||
            exists i :: 0 <= i < |reqs| && x == MarkerId(reqs[i].now, reqs[i].nonce)
                        && Verdicts(members, windowMs, maxRequests, reqs)[i].allowed
    decreases |reqs|
  {
    if reqs != [] {
      var r := reqs[0];
      var id := MarkerId(r.now, r.nonce);
      var next := Step(members, r.now, windowMs, maxRequests, id);
      var rs := Verdicts(members, windowMs, maxRequests, reqs);
      OnlyAllowedMarkersRemain(next, windowMs, maxRequests, reqs[1..], x);
      if x in next {
        MarkerKeptIffAllowed(members, r.now, windowMs, maxRequests, id);
        if x !in members {
          assert x == id && rs[0].allowed;
        }
      } else {
        var i :| 0 <= i < |reqs| - 1 && x == MarkerId(reqs[1..][i].now, reqs[1..][i].nonce)
                 && Verdicts(next, windowMs, maxRequests, reqs[1..])[i].allowed;
        assert rs[i + 1] == Verdicts(next, windowMs, maxRequests, reqs[1..])[i];
        assert reqs[i + 1] == reqs[1..][i];
      }
    }
  }

  /** A call leaves every other marker alone unless pruning drops it. */
  lemma StepKeepsOthers(members: map<string, int>, now: nat, windowMs: nat, maxRequests: int, id: string, x: string)
    requires x != id
    ensures var after := Step(members, now, windowMs, maxRequests, id);
            (x in after <==> x in members && !(0 <= members[x] <= now - windowMs)) &&
            (x in after ==> after[x] == members[x])
  {
  }

  /**
   * A marker that no call of `reqs` inserts keeps its score while it stays,
   * and it stays while every call's cut-off lies below its score.
   */
  lemma {:induction false} ReplayKeepsUntouched(members: map<string, int>, windowMs: nat, maxRequests: int, reqs: seq<Request>, x: string)
    requires forall j :: 0 <= j < |reqs| ==> MarkerId(reqs[j].now, reqs[j].nonce) != x
    ensures var after := Replay(members, windowMs, maxRequests, reqs);
            (x in after ==> x in members && after[x] == members[x]) &&
            (x in members && members[x] >= 0 && (forall j :: 0 <= j < |reqs| ==> reqs[j].now - windowMs < members[x]) ==> x in after)
    decreases |reqs|
  {
    if reqs != [] {
      var r := reqs[0];
      var next := Step(members, r.now, windowMs, maxRequests, MarkerId(r.now, r.nonce));
      StepKeepsOthers(members, r.now, windowMs, maxRequests, MarkerId(r.now, r.nonce), x);
      assert forall j :: 0 <= j < |reqs| - 1 ==> reqs[1..][j] == reqs[j + 1];
      ReplayKeepsUntouched(next, windowMs, maxRequests, reqs[1..], x);
    }
  }

  /**
   * The converse of OnlyAllowedMarkersRemain: when no later call reuses its
   * marker and none arrives a full window after it, an allowed call's marker
   * is still in the set after the whole sequence, with its arrival time.
   */
  lemma {:induction false} AllowedMarkersInWindowRemain(members: map<string, int>, windowMs: nat, maxRequests: int, reqs: seq<Request>, i: nat)
    requires i < |reqs|
    requires Verdicts(members, windowMs, maxRequests, reqs)[i].allowed
    requires forall j :: i < j < |reqs| ==>
               MarkerId(reqs[j].now, reqs[j].nonce) != MarkerId(reqs[i].now, reqs[i].nonce) &&
               reqs[j].now - windowMs < reqs[i].now
    ensures var x := MarkerId(reqs[i].now, reqs[i].nonce);
            var after := Replay(members, windowMs, maxRequests, reqs);
            x in after && after[x] == reqs[i].now
    decreases |reqs|
  {
    var r := reqs[0];
    var id := MarkerId(r.now, r.nonce);
    var next := Step(members, r.now, windowMs, maxRequests, id);
    var rs := Verdicts(members, windowMs, maxRequests, reqs);
    if i == 0 {
      MarkerKeptIffAllowed(members, r.now, windowMs, maxRequests, id);
      ReplayKeepsUntouched(next, windowMs, maxRequests, reqs[1..], id);
    } else {
      assert rs[i] == Verdicts(next, windowMs, maxRequests, reqs[1..])[i - 1];
      assert forall j :: 0 <= j < |reqs| - 1 ==> reqs[1..][j] == reqs[j + 1];
      AllowedMarkersInWindowRemain(next, windowMs, maxRequests, reqs[1..], i - 1);
    }
  }

  /** Every marker is newer than `cutoff`. */
  predicate NewerThan(members: map<string, int>, cutoff: int) {
    forall x :: x in members ==> members[x] > cutoff
  }

  /** After a call, every marker's score is non-negative and newer than that call's cut-off. */
  lemma StepScoresInWindow(members: map<string, int>, now: nat, windowMs: nat, maxRequests: int, id: string)
    requires windowMs > 0 && ScoresNonNegative(members)
    ensures var after := Step(members, now, windowMs, maxRequests, id);
            ScoresNonNegative(after) && NewerThan(after, now - windowMs)
  {
  }

  /** After a non-empty sequence of calls, every marker is newer than the last call's cut-off. */
  lemma {:induction false} ReplayScoresInWindow(members: map<string, int>, windowMs: nat, maxRequests: int, reqs: seq<Request>)
    requires windowMs > 0 && ScoresNonNegative(members) && reqs != []
    ensures NewerThan(Replay(members, windowMs, maxRequests, reqs), reqs[|reqs| - 1].now - windowMs)
    decreases |reqs|
  {
    var r := reqs[0];
    var next := Step(members, r.now, windowMs, maxRequests, MarkerId(r.now, r.nonce));
    var rest := reqs[1..];
    StepScoresInWindow(members, r.now, windowMs, maxRequests, MarkerId(r.now, r.nonce));
    if rest != [] {
      assert rest[|rest| - 1] == reqs[|reqs| - 1];
      ReplayScoresInWindow(next, windowMs, maxRequests, rest);
    }
  }

  /** With distinct markers, a marker a call inserted carries that call's arrival time while it remains. */
  lemma {:induction false} MarkerScore(members: map<string, int>, windowMs: nat, maxRequests: int, reqs: seq<Request>, i: nat)
    requires i < |reqs|
    requires DistinctMarkers(reqs)
    requires MarkerId(reqs[i].now, reqs[i].nonce) !in members
    ensures var x := MarkerId(reqs[i].now, reqs[i].nonce);
            var after := Replay(members, windowMs, maxRequests, reqs);
            x in after ==> after[x] == reqs[i].now
    decreases |reqs|
  {
    var x := MarkerId(reqs[i].now, reqs[i].nonce);
    var r := reqs[0];
    var id := MarkerId(r.now, r.nonce);
    var next := Step(members, r.now, windowMs, maxRequests, id);
    assert forall j :: 0 <= j < |reqs| - 1 ==> reqs[1..][j] == reqs[j + 1];
    if i == 0 {
      ReplayKeepsUntouched(next, windowMs, maxRequests, reqs[1..], x);
    } else {
      StepKeepsOthers(members, r.now, windowMs, maxRequests, id, x);
      MarkerScore(next, windowMs, maxRequests, reqs[1..], i - 1);
    }
  }

  /** `Date.now()` never goes back across the calls. */
  predicate ClockNeverGoesBack(reqs: seq<Request>) {
    forall j, k :: 0 <= j < k < |reqs| ==> reqs[j].now <= reqs[k].now
  }

  /** No two calls draw the same marker. */
  predicate DistinctMarkers(reqs: seq<Request>) {
    forall j, k :: 0 <= j < k < |reqs| ==> MarkerId(reqs[j].now, reqs[j].nonce) != MarkerId(reqs[k].now, reqs[k].nonce)
  }

  /** Call `i`, starting from an empty set, was allowed and is newer than the last call's cut-off. */
  predicate AllowedInWindowAt(windowMs: nat, maxRequests: int, reqs: seq<Request>, i: int)
    requires reqs != []
  {
    0 <= i < |reqs| && Verdicts(map[], windowMs, maxRequests, reqs)[i].allowed &&
    reqs[i].now > reqs[|reqs| - 1].now - windowMs
  }

  /** The markers of the allowed calls of `reqs` that are newer than the last call's cut-off. */
  function AllowedInWindow(windowMs: nat, maxRequests: int, reqs: seq<Request>): set<string>
    requires reqs != []
  {
    set i | 0 <= i < |reqs| && AllowedInWindowAt(windowMs, maxRequests, reqs, i) :: MarkerId(reqs[i].now, reqs[i].nonce)
  }

  /**
   * No leaked markers, both ways: starting from an empty set, with distinct
   * markers and clock readings that never go back, the set holds exactly the
   * markers of the allowed requests still inside the last call's window.
   */
  lemma ExactlyAllowedInWindowRemain(windowMs: nat, maxRequests: int, reqs: seq<Request>)
    requires windowMs > 0 && reqs != []
    requires ClockNeverGoesBack(reqs) && DistinctMarkers(reqs)
    ensures Replay(map[], windowMs, maxRequests, reqs).Keys == AllowedInWindow(windowMs, maxRequests, reqs)
  {
    forall x | x in Replay(map[], windowMs, maxRequests, reqs)
      ensures x in AllowedInWindow(windowMs, maxRequests, reqs)
    {
      var i := RemainingMarkerInWindow(windowMs, maxRequests, reqs, x);
    }
    forall x | x in AllowedInWindow(windowMs, maxRequests, reqs)
      ensures x in Replay(map[], windowMs, maxRequests, reqs)
    {
      var i :| 0 <= i < |reqs| && AllowedInWindowAt(windowMs, maxRequests, reqs, i) && x == MarkerId(reqs[i].now, reqs[i].nonce);
      WindowMarkerRemains(windowMs, maxRequests, reqs, i);
    }
  }

  /** A remaining marker belongs to an allowed call inside the last call's window, returned as `i`. */
  lemma RemainingMarkerInWindow(windowMs: nat, maxRequests: int, reqs: seq<Request>, x: string) returns (i: nat)
    requires windowMs > 0 && reqs != [] && DistinctMarkers(reqs)
    requires x in Replay(map[], windowMs, maxRequests, reqs)
    ensures i < |reqs| && AllowedInWindowAt(windowMs, maxRequests, reqs, i) && x == MarkerId(reqs[i].now, reqs[i].nonce)
  {
    var after := Replay(map[], windowMs, maxRequests, reqs);
    var rs := Verdicts(map[], windowMs, maxRequests, reqs);
    OnlyAllowedMarkersRemain(map[], windowMs, maxRequests, reqs, x);
    i :| 0 <= i < |reqs| && x == MarkerId(reqs[i].now, reqs[i].nonce) && rs[i].allowed;
    MarkerScore(map[], windowMs, maxRequests, reqs, i);
    ReplayScoresInWindow(map[], windowMs, maxRequests, reqs);
    assert after[x] > reqs[|reqs| - 1].now - windowMs;
  }

  /** An allowed call inside the last call's window keeps its marker. */
  lemma WindowMarkerRemains(windowMs: nat, maxRequests: int, reqs: seq<Request>, i: nat)
    requires reqs != [] && ClockNeverGoesBack(reqs) && DistinctMarkers(reqs)
    requires AllowedInWindowAt(windowMs, maxRequests, reqs, i)
    ensures MarkerId(reqs[i].now, reqs[i].nonce) in Replay(map[], windowMs, maxRequests, reqs)
  {
    var last := reqs[|reqs| - 1].now;
    forall j | i < j < |reqs|
      ensures MarkerId(reqs[j].now, reqs[j].nonce) != MarkerId(reqs[i].now, reqs[i].nonce)
      ensures reqs[j].now - windowMs < reqs[i].now
    {
      if j < |reqs| - 1 {
        assert reqs[j].now <= last;
      }
    }
    AllowedMarkersInWindowRemain(map[], windowMs, maxRequests, reqs, i);
  }

  /** A marker ends in its random part, so markers with different one-letter random parts differ. */
  lemma MarkerEndsWithNonce(now: nat, c: char)
    ensures var m := MarkerId(now, [c]); |m| > 0 && m[|m| - 1] == c
  {
  }

  /** A call when no marker has left the window: its marker is added iff there is room. */
  lemma StepInWindow(members: map<string, int>, now: nat, windowMs: nat, maxRequests: int, id: string)
    requires ScoresNonNegative(members) && NewerThan(members, now - windowMs) && id !in members
    ensures Pruned(members, now, windowMs) == members
    ensures Step(members, now, windowMs, maxRequests, id) == if |members| < maxRequests then members[id := now] else members
  {
    assert Pruned(members, now, windowMs).Keys == members.Keys;
    if |members| >= maxRequests {
      assert Step(members, now, windowMs, maxRequests, id).Keys == members.Keys;
    }
  }

  /** The sets of markers the documented example goes through, for any four distinct markers. */
  lemma ExampleSets(a: string, b: string, c: string, d: string)
    requires a != b && a != c && a != d && b != c && b != d && c != d
    ensures Step(map[], 0, 1000, 3, a) == map[a := 0]
    ensures Step(map[a := 0], 100, 1000, 3, b) == map[a := 0, b := 100]
    ensures Step(map[a := 0, b := 100], 200, 1000, 3, c) == map[a := 0, b := 100, c := 200]
    ensures Pruned(map[a := 0, b := 100, c := 200], 300, 1000) == map[a := 0, b := 100, c := 200]
    ensures Step(map[a := 0, b := 100, c := 200], 300, 1000, 3, d) == map[a := 0, b := 100, c := 200]
  {
    StepInWindow(map[], 0, 1000, 3, a);
    StepInWindow(map[a := 0], 100, 1000, 3, b);
    var m2 := map[a := 0, b := 100];
    assert |m2| == 2;
    StepInWindow(m2, 200, 1000, 3, c);
    var m3 := map[a := 0, b := 100, c := 200];
    assert |m3| == 3;
    StepInWindow(m3, 300, 1000, 3, d);
  }

  /** At 1100 the cut-off is 100, so only the marker of 200 is left. */
  lemma ExampleLastPrune(a: string, b: string, c: string)
    requires a != b && a != c && b != c
    ensures Pruned(map[a := 0, b := 100, c := 200], 1100, 1000) == map[c := 200]
  {
    assert Pruned(map[a := 0, b := 100, c := 200], 1100, 1000).Keys == {c};
  }

  /** The first answer of a sequence of calls, and the rest answered from the set the first call leaves. */
  lemma VerdictsUnfold(members: map<string, int>, windowMs: nat, maxRequests: int, reqs: seq<Request>, k: nat)
    requires 0 < k < |reqs|
    ensures var r := reqs[0];
            var rs := Verdicts(members, windowMs, maxRequests, reqs);
            rs[0] == Verdict(|Pruned(members, r.now, windowMs)|, r.now, windowMs, maxRequests) &&
            rs[k] == Verdicts(Step(members, r.now, windowMs, maxRequests, MarkerId(r.now, r.nonce)), windowMs, maxRequests, reqs[1..])[k - 1]
  {
  }

  /** The example's 4th and 5th calls, from the three markers of 0, 100 and 200. */
  lemma {:induction false} ExampleFromThird(a: string, b: string, c: string, t: seq<Request>)
    requires |t| == 2 && t[0].now == 300 && t[1].now == 1100
    requires var d := MarkerId(t[0].now, t[0].nonce); a != b && a != c && a != d && b != c && b != d && c != d
    ensures var rs := Verdicts(map[a := 0, b := 100, c := 200], 1000, 3, t);
            !rs[0].allowed && rs[1].allowed
  {
    var m3 := map[a := 0, b := 100, c := 200];
    ExampleSets(a, b, c, MarkerId(t[0].now, t[0].nonce));
    ExampleLastPrune(a, b, c);
    VerdictsUnfold(m3, 1000, 3, t, 1);
    var rest := Verdicts(m3, 1000, 3, t[1..]);
    assert t[1..][0] == t[1];
    assert rest[0] == Verdict(|map[c := 200]|, 1100, 1000, 3);
  }

  /** The example's last three calls, from the markers of 0 and 100. */
  lemma {:induction false} ExampleFromSecond(a: string, b: string, t: seq<Request>)
    requires |t| == 3 && t[0].now == 200 && t[1].now == 300 && t[2].now == 1100
    requires var c, d := MarkerId(t[0].now, t[0].nonce), MarkerId(t[1].now, t[1].nonce);
             a != b && a != c && a != d && b != c && b != d && c != d
    ensures var rs := Verdicts(map[a := 0, b := 100], 1000, 3, t);
            rs[0].allowed && !rs[1].allowed && rs[2].allowed
  {
    var c := MarkerId(t[0].now, t[0].nonce);
    ExampleSets(a, b, c, MarkerId(t[1].now, t[1].nonce));
    VerdictsUnfold(map[a := 0, b := 100], 1000, 3, t, 1);
    VerdictsUnfold(map[a := 0, b := 100], 1000, 3, t, 2);
    assert t[1..][0] == t[1] && t[1..][1] == t[2];
    ExampleFromThird(a, b, c, t[1..]);
  }

  /** The example's last four calls, from the marker of 0. */
  lemma {:induction false} ExampleFromFirst(a: string, t: seq<Request>)
    requires |t| == 4 && t[0].now == 100 && t[1].now == 200 && t[2].now == 300 && t[3].now == 1100
    requires var b, c, d := MarkerId(t[0].now, t[0].nonce), MarkerId(t[1].now, t[1].nonce), MarkerId(t[2].now, t[2].nonce);
             a != b && a != c && a != d && b != c && b != d && c != d
    ensures var rs := Verdicts(map[a := 0], 1000, 3, t);
            rs[0].allowed && rs[1].allowed && !rs[2].allowed && rs[3].allowed
  {
    var b := MarkerId(t[0].now, t[0].nonce);
    ExampleSets(a, b, MarkerId(t[1].now, t[1].nonce), MarkerId(t[2].now, t[2].nonce));
    VerdictsUnfold(map[a := 0], 1000, 3, t, 1);
    VerdictsUnfold(map[a := 0], 1000, 3, t, 2);
    VerdictsUnfold(map[a := 0], 1000, 3, t, 3);
    assert t[1..][0] == t[1] && t[1..][1] == t[2] && t[1..][2] == t[3];
    ExampleFromSecond(a, b, t[1..]);
  }

  /** The answers of the documented example's five calls, for any random parts that give distinct markers. */
  lemma {:induction false} ExampleRun(reqs: seq<Request>)
    requires |reqs| == 5
    requires reqs[0].now == 0 && reqs[1].now == 100 && reqs[2].now == 200 && reqs[3].now == 300 && reqs[4].now == 1100
    requires forall j, k :: 0 <= j < k < 4 ==> MarkerId(reqs[j].now, reqs[j].nonce) != MarkerId(reqs[k].now, reqs[k].nonce)
    ensures var rs := Verdicts(map[], 1000, 3, reqs);
            rs[0].allowed && rs[1].allowed && rs[2].allowed && !rs[3].allowed && rs[4].allowed
  {
    var a := MarkerId(reqs[0].now, reqs[0].nonce);
    var t := reqs[1..];
    assert t[0] == reqs[1] && t[1] == reqs[2] && t[2] == reqs[3] && t[3] == reqs[4];
    assert MarkerId(reqs[0].now, reqs[0].nonce) != MarkerId(reqs[1].now, reqs[1].nonce);
    assert MarkerId(reqs[0].now, reqs[0].nonce) != MarkerId(reqs[2].now, reqs[2].nonce);
    assert MarkerId(reqs[0].now, reqs[0].nonce) != MarkerId(reqs[3].now, reqs[3].nonce);
    assert MarkerId(reqs[1].now, reqs[1].nonce) != MarkerId(reqs[2].now, reqs[2].nonce);
    assert MarkerId(reqs[1].now, reqs[1].nonce) != MarkerId(reqs[3].now, reqs[3].nonce);
    assert MarkerId(reqs[2].now, reqs[2].nonce) != MarkerId(reqs[3].now, reqs[3].nonce);
    StepInWindow(map[], 0, 1000, 3, a);
    VerdictsUnfold(map[], 1000, 3, reqs, 1);
    VerdictsUnfold(map[], 1000, 3, reqs, 2);
    VerdictsUnfold(map[], 1000, 3, reqs, 3);
    VerdictsUnfold(map[], 1000, 3, reqs, 4);
    ExampleFromFirst(a, t);
  }

  /**
   * The documented example: a window of 1000 ms and a cap of 3. Calls at
   * 0, 100 and 200 pass, the 4th at 300 is refused, and a 5th at 1100,
   * when the markers of 0 and 100 have left the window, passes.
   */
  lemma DocumentedExample()
    ensures var reqs := [Request(0, "a"), Request(100, "b"), Request(200, "c"), Request(300, "d"), Request(1100, "e")];
            var rs := Verdicts(map[], 1000, 3, reqs);
            rs[0].allowed && rs[1].allowed && rs[2].allowed && !rs[3].allowed && rs[4].allowed
  {
    var reqs := [Request(0, "a"), Request(100, "b"), Request(200, "c"), Request(300, "d"), Request(1100, "e")];
    MarkerEndsWithNonce(0, 'a');
    MarkerEndsWithNonce(100, 'b');
    MarkerEndsWithNonce(200, 'c');
    MarkerEndsWithNonce(300, 'd');
    ExampleRun(reqs);
  }

  /** The set never holds more markers than the limit, starting from one within it. */
  lemma {:induction false} ReplayBounded(members: map<string, int>, windowMs: nat, maxRequests: int, reqs: seq<Request>)
    requires |members| <= maxRequests
    ensures |Replay(members, windowMs, maxRequests, reqs)| <= maxRequests
    decreases |reqs|
  {
    if reqs != [] {
      var r := reqs[0];
      var id := MarkerId(r.now, r.nonce);
      BoundPreserved(members, r.now, windowMs, maxRequests, id);
      ReplayBounded(Step(members, r.now, windowMs, maxRequests, id), windowMs, maxRequests, reqs[1..]);
    }
  }

  /**
   * The source's ZREM rebuilds the marker from a second random draw. One
   * marker within the window and a limit of one: the second call is rejected,
   * yet its marker stays, and the set now exceeds the limit.
   */
  lemma AsWrittenLeaksMarker()
    ensures var members := map["5-a" := 5];
            var after := Outcome(members, 10, 100, 1, "10-b", "10-c");
            !Verdict(|Pruned(members, 10, 100)|, 10, 100, 1).allowed &&
            "10-b" in after && |after| == 2
  {
    var members := map["5-a" := 5];
    var pruned := Pruned(members, 10, 100);
    assert pruned == members;
    var after := Outcome(members, 10, 100, 1, "10-b", "10-c");
    assert after == map["5-a" := 5, "10-b" := 10];
    assert after.Keys == {"5-a", "10-b"};
  }
}
