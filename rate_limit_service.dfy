/**
 * What both rate-limiting strategies share: the answer of `checkLimit` and
 * the expiry, in whole seconds, that both put on their store keys.
 */
module RateLimitService {

  /** `{ allowed, remaining, resetTime }` as returned by `checkLimit`. */
  datatype LimitResult = LimitResult(allowed: bool, remaining: int, resetTime: int)

  /** `Math.ceil(windowMs / 1000)`: the smallest whole number of seconds covering the window. */
  function ExpirySeconds(windowMs: nat): (s: nat)
    ensures s * 1000 >= windowMs && (s - 1) * 1000 < windowMs
  {
    (windowMs + 999) / 1000
  }

  /** `Math.max(0, x)`. */
  function NonNegative(x: int): (r: int)
    ensures r >= 0 && r >= x && (r == 0 || r == x)
  {
    if x > 0 then x else 0
  }
}
