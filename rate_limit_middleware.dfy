/**
 * The rate-limiting middleware in front of the routes: it keys the request,
 * asks the fixed-window limiter, reports the quota in response headers, and
 * either answers 429 or passes the request on. When the store fails, the
 * request passes (fail-open).
 */
module RateLimitMiddleware {
  import opened Wrappers
  import opened Decimal
  import opened KeyValueStore
  import opened RateLimitService
  import opened FixedWindow
  import opened RateLimitKeys
  import opened Http

  const DefaultMessage := "Too many requests, please try again later."

  /** The options `createRateLimitMiddleware` is built from. */
  datatype Config = Config(windowMs: nat, max: int, prefix: string, message: string)

  /** The configured middleware of a bucket, with the default rejection message. */
  function ForBucket(b: Bucket): Config {
    Config(b.windowMs, b.max, b.prefix, DefaultMessage)
  }

  /** `X-RateLimit-Limit`, `X-RateLimit-Remaining` and `X-RateLimit-Reset`. */
  function QuotaHeaders(max: int, r: LimitResult): map<string, HeaderValue> {
    map[
      "X-RateLimit-Limit" := Text(IntToString(max)),
      "X-RateLimit-Remaining" := Text(IntToString(r.remaining)),
      "X-RateLimit-Reset" := Timestamp(r.resetTime)]
  }

  /**
   * One request through the middleware. `storeAvailable` says whether the
   * store answers; when it does not, `checkLimit` throws before changing
   * anything. The result says whether `next()` was called.
   */
  method Handle(cfg: Config, req: Request, redis: Redis, now: nat, storeAvailable: bool, res: Response)
      returns (nextCalled: bool)
    requires redis.Valid() && cfg.windowMs > 0
    modifies redis, res
    ensures redis.Valid()
    ensures !storeAvailable ==>
              nextCalled && unchanged(res) &&
              redis.counters == old(redis.counters) && redis.ttl == old(redis.ttl) && redis.zsets == old(redis.zsets)
    ensures storeAvailable ==>
              var key := GenerateKey(cfg.prefix, req);
              var sk := StorageKey(key, WindowOf(now, cfg.windowMs));
              var r := Check(old(redis.counters), key, cfg.windowMs, cfg.max, now);
              redis.counters == Record(old(redis.counters), key, cfg.windowMs, now) &&
              redis.ttl == (if redis.counters[sk] == 1 then old(redis.ttl)[sk := ExpirySeconds(cfg.windowMs)] else old(redis.ttl)) &&
              redis.zsets == old(redis.zsets) &&
              res.headers == old(res.headers) + QuotaHeaders(cfg.max, r) &&
              (nextCalled <==> r.allowed) &&
              (r.allowed ==> res.status == old(res.status) && res.body == old(res.body)) &&
              (!r.allowed ==> res.status == 429 && res.body == Some(ErrorMessage(cfg.message)))
  {
    if !storeAvailable {
      // checkLimit threw; the catch block lets the request through
      nextCalled := true;
      return;
    }
    var key := GenerateKey(cfg.prefix, req);
    var result := FixedWindow.CheckLimit(redis, key, cfg.windowMs, cfg.max, now);
    res.Set(QuotaHeaders(cfg.max, result));
    if !result.allowed {
      res.Send(Reply(429, ErrorMessage(cfg.message)));
      nextCalled := false;
      return;
    }
    nextCalled := true;
  }

  /** The headers read back as the configured cap and the remaining quota, never negative. */
  lemma QuotaHeadersReadBack(counters: map<string, int>, key: string, cfg: Config, now: nat)
    requires cfg.windowMs > 0
    ensures var r := Check(counters, key, cfg.windowMs, cfg.max, now);
            var h := QuotaHeaders(cfg.max, r);
            var remaining := h["X-RateLimit-Remaining"].text;
            ParseInt(h["X-RateLimit-Limit"].text) == cfg.max &&
            AllDigits(remaining) && ParseNat(remaining) == r.remaining &&
            h["X-RateLimit-Reset"] == Timestamp(r.resetTime)
  {
    var r := Check(counters, key, cfg.windowMs, cfg.max, now);
    ParseIntToString(cfg.max);
    ParseNatToString(r.remaining);
  }

  /** With a bucket's configuration, the first `max` requests of a window pass and the next one is refused. */
  lemma BucketAdmitsExactlyItsCap(b: Bucket, req: Request, counters: map<string, int>, nows: seq<nat>, w: nat)
    requires b in Buckets
    requires StorageKey(GenerateKey(b.prefix, req), w) !in counters
    requires forall i :: 0 <= i < |nows| ==> WindowOf(nows[i], b.windowMs) == w
    ensures var rs := Calls(counters, GenerateKey(b.prefix, req), b.windowMs, b.max, nows);
            forall i :: 0 <= i < |nows| ==> (rs[i].allowed <==> i < b.max)
  {
    ConfiguredBuckets();
    InclusiveLimit(counters, GenerateKey(b.prefix, req), b.windowMs, b.max, nows, w);
  }
}
