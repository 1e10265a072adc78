# socialscale-study core, in Dafny

This project models the decision logic at the centre of the socialscale-study
API, a small social network built on Express, Prisma and Redis. It covers:

- **Rate limiting.** The fixed-window limiter (`RedisRateLimitService`) is a
  counter per key and window. The sliding-window limiter
  (`SlidingWindowRateLimitService`) is a sorted set of request markers per key.
  Both run against a `Redis` class whose fields are the counter, sorted-set and
  expiry maps. The model also covers the identity key both middlewares build
  (user id, then bearer token, then address, then `anonymous`, under a bucket
  prefix), the four configured buckets, and the middleware's decision: quota
  headers, then 429 or `next()`, and `next()` when the store fails.
- **The feed.** Cursor pagination (`PrismaPostRepository.findWithPagination`)
  is modelled as slicing a newest-first sequence of posts. The cache-aside read
  (`GetPostsUseCase.execute`) runs against a cache with per-entry expiry.
- **The DI container** (`Container`): a registry, singleton marks with their
  cached instances, and `resolve`.
- **Use-case guards**: following a user, signing up and logging in.
  Hashing, hash comparison and token issuing are parameters.
- **Error replies**: the error-handling middleware, the controllers' shared
  `handleError`, and `PostController` with its own `handleError`, its page-size
  clamp and its guards.
- **Log metadata**: masking of sensitive keys, error formatting, and the merge
  order used by both the Winston and the Pino logger.

Stateful parts are classes whose methods are proved against pure step
functions: `Redis`, `PostRepository`, `Cache`, `GetPostsUseCase`, `Container`,
`FollowRepository`, `UserRepository` and `Response`. The properties are proved
as lemmas about those functions. Clock readings (`Date.now()`), the random part
of a sliding-window marker (`Math.random()`), and database-generated ids and
timestamps are all parameters.

Where the documented design and the code differ, the model follows the code,
with two exceptions, both listed under Findings. Each keeps the code as
written in a separate function, and the rest of the model uses the corrected
behaviour:

- The design says the next cursor names the first post *not* on the page. The
  code also skips that post on the next page (`skip: 1`). `PageAsWritten` keeps
  the code's page. `Page`, which the repository, the cache-aside read and the
  controller serve, starts at the cursor row.
- A refused sliding-window call must remove the marker it inserted. The code
  removes a marker built from a second random draw instead. `Outcome` keeps
  the code's removal. `Step`, and with it `SlidingWindow.CheckLimit`, removes
  the inserted marker.

## Model

| member | source | states |
|---|---|---|
| FixedWindow.CheckLimit | src/infrastructure/rate-limit/RedisRateLimitService.ts:16-30 | Increments exactly the counter `rate_limit:{key}:{floor(now/windowMs)}`. Sets that key's expiry to `ceil(windowMs/1000)` only when the new value is 1. Leaves the sorted sets alone. Answers as `Check` does on the old counters. |
| FixedWindow.Verdict | src/infrastructure/rate-limit/RedisRateLimitService.ts:26-28 | `remaining` is never negative, and it is 0 whenever the call is refused. |
| FixedWindow.Check | src/infrastructure/rate-limit/RedisRateLimitService.ts:17-28 | The answer of one call, from the counter after INCR. `SameWindowCalls`, `InclusiveLimit` and `ResetTimeIsNextWindowStart` state its behaviour. |
| FixedWindow.Record | src/infrastructure/rate-limit/RedisRateLimitService.ts:17-20 | The counters after one INCR. `RecordTouchesOneCounter` and `OtherWindowsLeaveCounter` state its behaviour. |
| FixedWindow.StorageKeyInjective | src/infrastructure/rate-limit/RedisRateLimitService.ts:17-18 | Two counter keys are equal iff they belong to the same caller key and the same window. |
| FixedWindow.RecordTouchesOneCounter | src/infrastructure/rate-limit/RedisRateLimitService.ts:17-20 | A call adds one to its own window's counter and leaves every other counter as it was. |
| FixedWindow.ResetTimeIsNextWindowStart | src/infrastructure/rate-limit/RedisRateLimitService.ts:17-26 | `resetTime` is a multiple of `windowMs`. It is strictly after `now` and at most `windowMs` later. It is the start of the next window. |
| FixedWindow.SameWindowCalls | src/infrastructure/rate-limit/RedisRateLimitService.ts:20-28 | Within one window, call `i` is allowed iff `c0+i+1 <= max`, and its `remaining` is `max(0, max-(c0+i+1))`. The counter ends higher by the number of calls, so it keeps climbing past the limit. |
| FixedWindow.InclusiveLimit | src/infrastructure/rate-limit/RedisRateLimitService.ts:28 | In a fresh window, call `i` is allowed iff `i < max`: exactly the first `max` calls pass. |
| FixedWindow.OtherWindowsLeaveCounter | src/infrastructure/rate-limit/RedisRateLimitService.ts:17-20 | Calls that fall in other windows never change a window's counter. |
| FixedWindow.LaterWindowStartsAtOne | src/infrastructure/rate-limit/RedisRateLimitService.ts:17-28 | Whatever the earlier windows counted, the first call of a later window sees a count of 1. |
| RateLimitService.ExpirySeconds | src/infrastructure/rate-limit/RedisRateLimitService.ts:23 | The result is the smallest whole number of seconds that covers `windowMs`. |
| RateLimitService.NonNegative | src/infrastructure/rate-limit/RedisRateLimitService.ts:27 | `Math.max(0, x)`: at least 0 and at least `x`, and equal to one of them. |
| SlidingWindow.CheckLimit | src/infrastructure/rate-limit/SlidingWindowRateLimitService.ts:16-51 | Changes only its own key's set, to `Step` of the old set. Refreshes that key's expiry. Leaves the counters alone. Answers from the size of the pruned set. |
| SlidingWindow.Verdict | src/infrastructure/rate-limit/SlidingWindowRateLimitService.ts:38-40 | `remaining` is never negative, and it is 0 whenever the call is refused. |
| SlidingWindow.Outcome | src/infrastructure/rate-limit/SlidingWindowRateLimitService.ts:24-45 | The markers after a call as written: the ZREM names a marker that may differ from the one inserted. `AsWrittenLeaksMarker` states what that does. |
| SlidingWindow.Step | src/infrastructure/rate-limit/SlidingWindowRateLimitService.ts:24-45 | The corrected call: the ZREM names the inserted marker. `MarkerKeptIffAllowed`, `RejectedLeavesNoMarker`, `BoundPreserved` and `ExactlyAllowedInWindowRemain` state its behaviour. |
| SlidingWindow.PruneDropsExpired | src/infrastructure/rate-limit/SlidingWindowRateLimitService.ts:17-24 | After pruning, every marker is newer than `now - windowMs`, so the cut-off is inclusive. Every newer marker is kept with its score. |
| SlidingWindow.MissingCountAllows | src/infrastructure/rate-limit/SlidingWindowRateLimitService.ts:36-38 | A missing count reply reads as 0, so the call is allowed iff `max > 0`. |
| SlidingWindow.MarkerKeptIffAllowed | src/infrastructure/rate-limit/SlidingWindowRateLimitService.ts:30-45 | After a call, its own marker is in the set iff the call was allowed, scored `now`. |
| SlidingWindow.RejectedLeavesNoMarker | src/infrastructure/rate-limit/SlidingWindowRateLimitService.ts:42-45 | A refused call with a new marker leaves exactly the pruned set. |
| SlidingWindow.BoundPreserved | src/infrastructure/rate-limit/SlidingWindowRateLimitService.ts:24-45 | A set that holds at most `max` markers still does after a call. |
| SlidingWindow.OnlyAllowedMarkersRemain | src/infrastructure/rate-limit/SlidingWindowRateLimitService.ts:30-45 | After any sequence of calls, every marker was there before or belongs to a call that was allowed. |
| SlidingWindow.StepKeepsOthers | src/infrastructure/rate-limit/SlidingWindowRateLimitService.ts:24-45 | A call keeps every other marker, with its score, unless its cut-off prunes it. |
| SlidingWindow.ReplayKeepsUntouched | src/infrastructure/rate-limit/SlidingWindowRateLimitService.ts:24-45 | A marker no call inserts keeps its score while it remains, and it remains while every call's cut-off lies below its score. |
| SlidingWindow.AllowedMarkersInWindowRemain | src/infrastructure/rate-limit/SlidingWindowRateLimitService.ts:24-45 | The converse: an allowed call's marker is still in the set, with its arrival time, after later calls that neither reuse it nor arrive a full window after it. |
| SlidingWindow.StepScoresInWindow | src/infrastructure/rate-limit/SlidingWindowRateLimitService.ts:17-30 | After a call every marker is newer than that call's cut-off, and scores stay non-negative. |
| SlidingWindow.ReplayScoresInWindow | src/infrastructure/rate-limit/SlidingWindowRateLimitService.ts:17-30 | After a sequence of calls every marker is newer than the last call's cut-off. |
| SlidingWindow.MarkerScore | src/infrastructure/rate-limit/SlidingWindowRateLimitService.ts:30 | With distinct markers, a call's marker carries that call's arrival time for as long as it remains. |
| SlidingWindow.ExactlyAllowedInWindowRemain | src/infrastructure/rate-limit/SlidingWindowRateLimitService.ts:16-51 | From an empty set, with distinct markers and a clock that never goes back, the set holds exactly the markers of the allowed requests still inside the last call's window: no leaked marker and no lost one. |
| SlidingWindow.RemainingMarkerInWindow | src/infrastructure/rate-limit/SlidingWindowRateLimitService.ts:16-51 | One half of the above: a remaining marker is an allowed request's, inside the window. |
| SlidingWindow.WindowMarkerRemains | src/infrastructure/rate-limit/SlidingWindowRateLimitService.ts:16-51 | The other half: an allowed request's marker inside the window remains. |
| SlidingWindow.StepInWindow | src/infrastructure/rate-limit/SlidingWindowRateLimitService.ts:24-45 | When no marker has left the window, a call prunes nothing and adds its marker iff there is room. |
| SlidingWindow.ExampleRun | src/infrastructure/rate-limit/SlidingWindowRateLimitService.ts:16-51 | Window 1000, cap 3, calls at 0, 100, 200, 300 and 1100 with any distinct markers: the first three pass, the fourth is refused, the fifth passes. |
| SlidingWindow.DocumentedExample | src/infrastructure/rate-limit/SlidingWindowRateLimitService.ts:16-51 | The same run with concrete random parts. |
| SlidingWindow.ReplayBounded | src/infrastructure/rate-limit/SlidingWindowRateLimitService.ts:24-45 | Starting within the limit, a sequence of calls never leaves more than `max` markers. |
| SlidingWindow.AsWrittenLeaksMarker | src/infrastructure/rate-limit/SlidingWindowRateLimitService.ts:30-44 | As written, the removal names a second random marker. A refused call then keeps its marker, and the set grows past the limit. |
| RateLimitKeys.BearerToken | src/adapters/http/middleware/rateLimitMiddleware.ts:53 | The token is the second space-separated field of the header, so it never contains a space. |
| RateLimitKeys.ResolveIdentity | src/adapters/http/middleware/rateLimitMiddleware.ts:47-59 | The identity a request is keyed by: user id, then bearer token, then address, then `anonymous`. `UserIdTakesPrecedence`, `BearerTokenKey` and `NoSpaceNoToken` state the order. |
| RateLimitKeys.GenerateKey | src/adapters/http/middleware/rateLimitMiddleware.ts:46-60 | `{prefix}:{kind}:{value}` for that identity. `ParseGenerateKey` inverts it and `KeysSeparateBucketsAndIdentities` states when two keys agree. |
| RateLimitKeys.ParseGenerateKey | src/adapters/http/middleware/rateLimitMiddleware.ts:46-60 | For a colon-free prefix, a generated key parses back to the prefix and the resolved identity. |
| RateLimitKeys.KeysSeparateBucketsAndIdentities | src/adapters/http/middleware/rateLimitMiddleware.ts:49-59 | Two keys are equal iff they have the same prefix and the same resolved identity. |
| RateLimitKeys.UserIdTakesPrecedence | src/adapters/http/middleware/expressRateLimitMiddleware.ts:31-32 | With a user id, the key is `{prefix}:user:{id}`, whatever the token or address. |
| RateLimitKeys.BearerTokenKey | src/adapters/http/middleware/rateLimitMiddleware.ts:52-56 | Without a user id, `Authorization: <scheme> <token>` gives `{prefix}:token:{token}`, whatever the address. |
| RateLimitKeys.NoSpaceNoToken | src/adapters/http/middleware/expressRateLimitMiddleware.ts:33-35 | A header without a space yields no token. The key falls back to `{prefix}:ip:{ip}`, or `ip:anonymous` when the address is absent or empty. |
| RateLimitKeys.ConfiguredBuckets | src/adapters/http/middleware/expressRateLimitMiddleware.ts:44-66 | Each of the four buckets has a positive window, a positive cap and its own colon-free prefix. |
| RateLimitKeys.BucketsNeverShareKeys | src/adapters/http/middleware/expressRateLimitMiddleware.ts:32-66 | Two different configured buckets never produce the same key, for any two requests. |
| RateLimitMiddleware.Handle | src/adapters/http/middleware/rateLimitMiddleware.ts:20-44 | When the store fails, `next()` runs and neither the response nor the store changes. Otherwise the counter is recorded, its expiry is set only when the counter is new, the sorted sets are untouched, and the three quota headers are set. `next()` runs iff the call is allowed; a refused call gets 429 with the message. |
| RateLimitMiddleware.QuotaHeadersReadBack | src/adapters/http/middleware/rateLimitMiddleware.ts:26-30 | The limit header reads back as `max`. The remaining header is all digits and reads back as `remaining`. The reset header carries `resetTime`. |
| RateLimitMiddleware.BucketAdmitsExactlyItsCap | src/adapters/http/middleware/rateLimitMiddleware.ts:22-37 | Under a configured bucket, request `i` of a fresh window passes iff `i < max`. |
| GetPosts.Lookup | src/application/use-cases/posts/GetPostsUseCase.ts:14-17 | An entry is found iff it is present and not yet expired, and the result is that entry's page. |
| GetPosts.CacheKey | src/application/use-cases/posts/GetPostsUseCase.ts:12 | `posts:limit={limit}` with `:cursor={cursor}` for a truthy cursor. `CacheKeyInjective` states when two reads share an entry. |
| GetPosts.Read | src/application/use-cases/posts/GetPostsUseCase.ts:11-26 | One `execute` as a value: the page, whether the table was queried, and the cache after it. `ReadHitOrMiss`, `RepeatWithinTtlHits` and `ExpiredEntryRequeries` state its behaviour. |
| GetPosts.CacheKeyInjective | src/application/use-cases/posts/GetPostsUseCase.ts:12 | Two reads share a cache key iff they have the same limit and the same truthy-or-absent cursor. A read with a cursor never collides with one without. |
| GetPosts.ReadHitOrMiss | src/application/use-cases/posts/GetPostsUseCase.ts:14-25 | It queries iff there is no live entry. A hit returns the cached page and keeps the cache. A miss returns the repository page unchanged, caches it under the key for 120 s with a cursor or 60 s without, and changes no other entry. |
| GetPosts.RepeatWithinTtlHits | src/application/use-cases/posts/GetPostsUseCase.ts:14-23 | After a miss, the same read within the TTL returns the same page without querying, even if the table changed. |
| GetPosts.ExpiredEntryRequeries | src/application/use-cases/posts/GetPostsUseCase.ts:14-23 | Once the TTL has passed, the same read queries again and returns the current page. |
| GetPosts.Cache.Get | src/application/use-cases/posts/GetPostsUseCase.ts:14 | Returns the live entry's page, or nothing. |
| GetPosts.Cache.Set | src/application/use-cases/posts/GetPostsUseCase.ts:23 | Stores the page under the key with expiry `now + ttl*1000`, replacing only that entry. |
| GetPosts.GetPostsUseCase.Execute | src/application/use-cases/posts/GetPostsUseCase.ts:11-26 | The returned page and the new cache are those of `Read` on the old cache and the repository's rows. The repository is queried exactly once on a miss and not at all on a hit, and its rows do not change. |
| Pagination.IndexFrom | src/adapters/db/PrismaPostRepository.ts:30-31 | A found position holds a row with the cursor's id. |
| Pagination.IndexFromFirst | src/adapters/db/PrismaPostRepository.ts:30-31 | The search fails iff no row has the id. When it succeeds, it finds the first such row. |
| Pagination.IndexOf | src/adapters/db/PrismaPostRepository.ts:30-31 | A found position is in the table and holds a row with the cursor's id. |
| Pagination.StartAsWritten | src/adapters/db/PrismaPostRepository.ts:30-33 | The start of the query, as written, lies within the table. |
| Pagination.Start | src/adapters/db/PrismaPostRepository.ts:30-31 | The corrected start is a row of the table, or the top when no cursor is given. |
| Pagination.Fetch | src/adapters/db/PrismaPostRepository.ts:25-35 | At most `limit+1` consecutive rows from the start, and fewer only at the end of the table. An unknown cursor fetches nothing. |
| Pagination.PopSurplus | src/adapters/db/PrismaPostRepository.ts:37-45 | At most `limit` posts. There is a next cursor iff more than `limit` rows came back, and it is the id of the popped row. Otherwise the posts are everything fetched. |
| Pagination.PageAsWritten | src/adapters/db/PrismaPostRepository.ts:24-46 | The page the code returns, starting one row after the cursor (`skip: 1`). `AsWrittenPageShape`, `AsWrittenCursorRowNeverShown` and `AsWrittenLosesARow` state its behaviour. |
| Pagination.Page | src/adapters/db/PrismaPostRepository.ts:24-46 | The corrected page, starting at the cursor row. `PageShape`, `PageSteps` and `FeedShowsEveryPost` state its behaviour. |
| Pagination.PageFrom | src/adapters/db/PrismaPostRepository.ts:25-45 | The page read from position `s` is `rows[s..]` in order. It has a next cursor iff row `s+limit` exists, and that cursor is the row's id. |
| Pagination.AsWrittenPageShape | src/adapters/db/PrismaPostRepository.ts:24-46 | As written: at most `limit` posts, newest first. Without a cursor the page is a prefix of the table. With a cursor it starts just after the cursor row. An unknown cursor gives an empty page. |
| Pagination.AsWrittenCursorRowNeverShown | src/adapters/db/PrismaPostRepository.ts:31-41 | As written, the row whose id becomes the next cursor is neither on this page nor on the page that cursor fetches. |
| Pagination.AsWrittenPageAfterRow | src/adapters/db/PrismaPostRepository.ts:30-33 | As written, the page fetched with a row's id as cursor does not contain that row. |
| Pagination.CursorOfRow | src/adapters/db/PrismaPostRepository.ts:30-33 | With unique ids, a row's id as cursor starts the corrected query at that row, and the as-written query one row later. |
| Pagination.IdsLocate | src/adapters/db/PrismaPostRepository.ts:30-31 | With unique, non-empty ids, looking up a row's id finds exactly that row. |
| Pagination.AsWrittenLosesARow | src/adapters/db/PrismaPostRepository.ts:30-43 | With three posts and limit 1, the as-written pages show `a` and then `c`, and never `b`. The corrected second page shows `b`. |
| Pagination.PageSteps | src/adapters/db/PrismaPostRepository.ts:24-46 | The corrected page is `rows[s..s+limit]` from its start row, and its next cursor restarts the query at `s+limit`. Without a next cursor it holds the rest of the table. An unknown cursor gives an empty page. |
| Pagination.PageStepsFrom | src/adapters/db/PrismaPostRepository.ts:24-46 | The same, for a page known to start at row `s`. |
| Pagination.PageShape | src/adapters/db/PrismaPostRepository.ts:24-46 | The corrected page holds at most `limit` posts, newest first, from its start row. Without a cursor it is a prefix of the table. It has a next cursor iff rows remain, and the cursor names the first one left out. |
| Pagination.FeedReadsTheRest | src/adapters/db/PrismaPostRepository.ts:24-46 | Following next cursors from the page that starts at row `s` reads `rows[s..]`: each post once, in order. |
| Pagination.FeedShowsEveryPost | src/adapters/db/PrismaPostRepository.ts:24-46 | Paging from the first page reads the whole table, each post exactly once. |
| Pagination.PostRepository.FindWithPagination | src/adapters/db/PrismaPostRepository.ts:24-46 | Fetches, pops the surplus row, and returns the corrected `Page` of the table (see Findings). Counts one query and leaves the rows unchanged. |
| DependencyInjection.RegistrationKeepsConsistent | src/infrastructure/di/Container.ts:10-20 | `register` leaves the singleton marks alone. `registerSingleton` marks the token with no cached instance. Both keep every mark backed by a service. |
| DependencyInjection.WithService | src/infrastructure/di/Container.ts:10-12 | The state after `register`. `RegistrationKeepsConsistent` states its effect. |
| DependencyInjection.WithSingleton | src/infrastructure/di/Container.ts:14-20 | The state after `registerSingleton`. `RegistrationKeepsConsistent` states its effect. |
| DependencyInjection.ResolveStep | src/infrastructure/di/Container.ts:22-53 | `resolve` as a value: the instance or the error, and the state after it. `ResolveKeepsRegistry`, `SingletonBuiltOnce`, `TransientBuiltEveryTime` and `FalsySingletonRebuilt` state its behaviour. |
| DependencyInjection.ResolveKeepsRegistry | src/infrastructure/di/Container.ts:22-53 | `resolve` never changes `services`. It fails iff the token is not registered, with `Service {token} not found`, and then changes nothing. |
| DependencyInjection.SingletonBuiltOnce | src/infrastructure/di/Container.ts:24-50 | Once a singleton resolves to an object, any number of further resolves return that same object and build nothing. |
| DependencyInjection.TransientBuiltEveryTime | src/infrastructure/di/Container.ts:34-52 | A token without the singleton mark is built anew on each resolve, with a new build number, and nothing is cached. A token registered with a constructor gives two different objects. A factory is called again each time and may return the same value. |
| DependencyInjection.FalsySingletonRebuilt | src/infrastructure/di/Container.ts:24-50 | A singleton whose factory returns a falsy value is built again on every resolve. |
| DependencyInjection.Container.constructor | src/infrastructure/di/Container.ts:6-8 | A new container has empty maps. |
| DependencyInjection.Container.Register | src/infrastructure/di/Container.ts:10-12 | The new state is `WithService` of the old one. |
| DependencyInjection.Container.RegisterSingleton | src/infrastructure/di/Container.ts:14-20 | The new state is `WithSingleton` of the old one. |
| DependencyInjection.Container.Resolve | src/infrastructure/di/Container.ts:22-53 | The result and the new state are `ResolveStep` of the old state. |
| FollowUser.FindPair | src/application/use-cases/users/FollowUserUseCase.ts:14-17 | Finds nothing iff no record has the pair. What it finds is a stored record of that pair. |
| FollowUser.FollowStep | src/application/use-cases/users/FollowUserUseCase.ts:9-24 | `execute` as a value: the follow or the error, and the records after it. `SelfFollowRejected`, `FollowOutcome` and `FollowKeepsPairsUnique` state its behaviour. |
| FollowUser.SelfFollowRejected | src/application/use-cases/users/FollowUserUseCase.ts:10-12 | Following oneself is a ValidationError whatever is stored, the store is untouched, and this check comes first. |
| FollowUser.FollowOutcome | src/application/use-cases/users/FollowUserUseCase.ts:14-23 | It fails iff the pair is already followed, with a 409 conflict that changes nothing. Otherwise one record is appended and returned. Afterwards the pair is followed, and no other pair changes. |
| FollowUser.FollowKeepsPairsUnique | src/application/use-cases/users/FollowUserUseCase.ts:14-23 | Following keeps every pair recorded at most once. |
| FollowUser.FollowRepository.FindByFollowerAndFollowing | src/application/use-cases/users/FollowUserUseCase.ts:14-17 | Returns `FindPair` of the stored follows. |
| FollowUser.FollowRepository.Create | src/application/use-cases/users/FollowUserUseCase.ts:23 | Appends exactly the new follow and returns it. |
| FollowUser.Execute | src/application/use-cases/users/FollowUserUseCase.ts:9-24 | The result and the new store are `FollowStep` of the old store. |
| Auth.FindBy | src/application/use-cases/auth/SignupUseCase.ts:13-18 | `findByEmail` and `findByUsername`: finds nothing iff no user has the value in that column. What it finds is a stored user with that value. |
| Auth.SignupStep | src/application/use-cases/auth/SignupUseCase.ts:12-33 | `signup` as a value: the session or the error, and the users after it. `SignupOutcome`, `SignupKeepsAccountsUnique` and `LoginAfterSignup` state its behaviour. |
| Auth.Login | src/application/use-cases/auth/LoginUseCase.ts:11-24 | `login` at a given instant, as a value: the token issued at that instant, or the error. `LoginFailuresAlike` and `LoginAfterSignup` state its behaviour. |
| Auth.SignupOutcome | src/application/use-cases/auth/SignupUseCase.ts:12-33 | A taken email is refused first, then a taken username, each with its conflict message and storing nothing. Otherwise exactly one user is appended, holding the hashed password. It returns that user without the password, and a token for its id. |
| Auth.SignupKeepsAccountsUnique | src/application/use-cases/auth/SignupUseCase.ts:13-27 | Signing up keeps emails and usernames unique. |
| Auth.LoginFailuresAlike | src/application/use-cases/auth/LoginUseCase.ts:11-24 | Every failure is the same `Invalid credentials` 401. For an unknown email the comparison is never consulted. Login succeeds iff the email exists and the password matches its hash. |
| Auth.LoginAfterSignup | src/application/use-cases/auth/LoginUseCase.ts:11-24 | If the comparison accepts a password against its own hash, a user who just signed up logs in with the same email and password and gets a token for the new account's id, issued at the login instant. It equals the signup's token only when both are issued at the same instant. |
| Auth.FindAfterAppend | src/application/use-cases/auth/LoginUseCase.ts:12 | Looking up the email of a newly appended user, when no earlier user has it, finds that user. |
| Auth.UserRepository.Create | src/application/use-cases/auth/SignupUseCase.ts:24-27 | Appends exactly the given user. |
| Auth.Signup | src/application/use-cases/auth/SignupUseCase.ts:12-33 | The result and the new store are `SignupStep` of the old store. |
| Errors.AppErrorsKeepTheirStatus | src/adapters/http/middleware/errorHandlerMiddleware.ts:23-29 | An application error answers with its own status (400, 401 or 409), its message and its class name. |
| Errors.ErrorHandlerReply | src/adapters/http/middleware/errorHandlerMiddleware.ts:22-63 | The middleware's reply to a thrown error. `AppErrorsKeepTheirStatus`, `DatabaseErrors` and `ErrorHandlerStatuses` state its behaviour. |
| Errors.BaseHandleError | src/adapters/http/controllers/BaseController.ts:7-17 | The shared controller reply. `HandlersAgreeOnAppErrors` and `BaseHandleErrorHidesOtherErrors` state its behaviour. |
| Errors.HandlersAgreeOnAppErrors | src/adapters/http/controllers/BaseController.ts:7-17 | The shared `handleError` and the middleware give an application error the same status and message. |
| Errors.DatabaseErrors | src/adapters/http/middleware/errorHandlerMiddleware.ts:32-48 | A Prisma known-request error is 409 `ConflictError` iff its code is P2002, and otherwise 400 `DatabaseError`. |
| Errors.ErrorHandlerStatuses | src/adapters/http/middleware/errorHandlerMiddleware.ts:10-64 | The status is one of 400, 401, 409 or 500. It is 500 exactly for errors that are neither application, Prisma nor `ValidationError`-named errors, and a 500 carries only the generic message. |
| Errors.BaseHandleErrorHidesOtherErrors | src/adapters/http/controllers/BaseController.ts:7-17 | `handleError` answers 500 iff the error is not an application error, and never with its message. An error merely named `ValidationError` is 500 there but 400 in the middleware. |
| PostController.LimitClamp | src/adapters/http/controllers/PostController.ts:34 | The page size is at most 100. A missing, unparsable or zero limit becomes 20, a positive one is capped at 100, and a negative one passes unchanged. |
| PostController.EffectiveLimit | src/adapters/http/controllers/PostController.ts:34 | The page size from an already parsed `?limit=`: 20 when it is `NaN` or zero, otherwise the value capped at 100. `LimitClamp` states its behaviour. |
| PostController.HandleError | src/adapters/http/controllers/PostController.ts:58-67 | The controller's own reply to a thrown error. `HandleErrorAgainstBase` states it against the shared one. |
| PostController.CreatePost | src/adapters/http/controllers/PostController.ts:16-29 | `createPost` as a value: the reply and the call made, if any. `CreatePostGuard` states its behaviour. |
| PostController.GetUserPosts | src/adapters/http/controllers/PostController.ts:43-56 | `getUserPosts` as a value: the reply and the call made, if any. `GetUserPostsGuard` states its behaviour. |
| PostController.HandleErrorAgainstBase | src/adapters/http/controllers/PostController.ts:58-67 | The controller's own handler agrees with the shared one, except that a conflict becomes a 500 with the generic message instead of a 409. |
| PostController.CreatePostGuard | src/adapters/http/controllers/PostController.ts:16-29 | Without a user id: 401 `Authentication required`, and the use case is never called. With one: the use case gets the content with the user as author, and a created post is answered 201. |
| PostController.GetUserPostsGuard | src/adapters/http/controllers/PostController.ts:43-56 | Without an id: 400 `User ID is required`, and no call. With one: the use case is called with it, and its posts are answered. |
| PostController.HandleGetPosts | src/adapters/http/controllers/PostController.ts:31-41 | Clamps the limit, reads through the cache (the cache changes as `Read` says, and the repository is queried only on a miss), and answers the page as JSON under the current status and headers. |
| Logging.SanitizeMeta | src/infrastructure/logger/WinstonLogger.ts:151-165 | Keeps exactly the given keys. Each sensitive key maps to `[REDACTED]` and every other key keeps its value. Missing metadata gives an empty map. The result equals `Sanitized`. |
| Logging.Sanitized | src/infrastructure/logger/PinoLogger.ts:133-147 | `sanitizeMeta` as a value, the reference for `SanitizeMeta`'s loop. `SanitizedShape` and `SanitizeIdempotent` state its behaviour. |
| Logging.SanitizedShape | src/infrastructure/logger/PinoLogger.ts:133-147 | No key is added or lost. Each present sensitive key is masked, case-sensitively (`Password` is not masked). Every other value is unchanged. Missing metadata gives `{}`. |
| Logging.SanitizeIdempotent | src/infrastructure/logger/WinstonLogger.ts:151-165 | Sanitizing twice equals sanitizing once. |
| Logging.FormatErrorShape | src/infrastructure/logger/PinoLogger.ts:112-131 | A falsy error gives `{}`, and anything else gives just the key `error`. For an Error it holds exactly its name, message and stack (`undefined` when there is none), plus its cause iff the cause is truthy. For anything else it holds `String(e)`. |
| Logging.FormatError | src/infrastructure/logger/PinoLogger.ts:112-131 | `formatError`. `FormatErrorShape` states its behaviour. |
| Logging.ErrorEntry | src/infrastructure/logger/WinstonLogger.ts:117-120 | `{...formatError(error), ...sanitizeMeta(meta)}`. `ErrorEntryMerge` states its behaviour. |
| Logging.ErrorEntryMerge | src/infrastructure/logger/WinstonLogger.ts:117-120 | The entry holds the keys of both parts. Where they share a key, the sanitized metadata wins, and sensitive metadata keys stay masked. |

## Left out

- Network and process I/O: Redis, Prisma, the Express runtime, logger transports and `console.error`. Stores are maps and sequences, and each limiter call and each cache get/set is one atomic step. Redis pipeline atomicity and concurrent clients are not modelled.
- Expiry in Redis: the model records the expiry each key is given (`ttl`) but never evicts an expired counter or sorted set. When ZREMRANGEBYSCORE or ZREM empties a sorted set, the model deletes the key but keeps its `ttl` entry, whereas Redis drops a deleted key's expiry too; no operation reads `ttl`, so no answer depends on this. The page cache does model expiry, as an `expiresAt` instant.
- `Date.now()`, `Math.random()`, database-generated ids and `createdAt` timestamps are parameters.
- bcrypt and JWT are the three function parameters of `AuthService`; their behaviour is not modelled.
- Auth.AuthService: `generateToken` is a function of the user id and the instant the token is issued at, standing for the issue and expiry times `jwt.sign` stamps; the secret, the seven-day lifetime and the token's encoding are not modelled. A signup issues its token at the same instant as the row's `createdAt`.
- JSON serialisation of cached pages (the cache stores the page value itself) and `new Date(ms).toISOString()`, which stays a `Timestamp(ms)` header value.
- Floating point: `Number(req.query.limit)` is given already parsed, as `NaN` or an integer, and limits, window lengths and JSON numbers are integers.
- GetPosts.GetPostsUseCase.Execute: takes a non-negative limit; Prisma's meaning of a negative `take` is not modelled.
- Pagination.PostRepository.FindWithPagination: serves the corrected `Page`, which starts at the cursor row, rather than the code's `skip: 1` page (`PageAsWritten`); `GetPostsUseCase.Execute` and `PostController.HandleGetPosts` inherit this, so for a request with a cursor they serve the page the design intends, not the one the code serves (see Findings). It also takes a non-negative limit, for the same reason as above.
- PostController.HandleGetPosts: requires the clamped limit to be non-negative, so a negative `?limit=` (which the source passes on to Prisma) is not modelled; the errors thrown by the cache or the database inside `getPosts` are also not modelled.
- RateLimitMiddleware.Handle: models a failing store as one that throws before the counter is incremented; a failure between INCR and EXPIRE, which would leave the counter changed, is not modelled.
- A cursor that names no row is modelled as an empty page (Prisma's behaviour, which the repository code does not state).
- Container tokens that are classes rather than strings, and implementations that are neither constructors nor factories; `token.toString()` is the string token itself.
- Object spread copies only own enumerable properties; the log metadata is a plain map, so prototype properties are not modelled.
- The express-rate-limit and RedisStore wiring around `keyGenerator` is a library that is not part of this model; only the key and the four bucket configurations are.
- The Prisma error check is by `error.name`, and `instanceof BaseError` is modelled as the `App` case of the thrown-error datatype; other subclasses of BaseError do not exist in the source.

## Findings

| source | as written | input that shows it | evidently intended | confidence | as-written member | corrected member |
|---|---|---|---|---|---|---|
| src/infrastructure/rate-limit/SlidingWindowRateLimitService.ts:44 | The compensating ZREM rebuilds the marker as `${now}-${Math.random()}`, a second random draw that almost never equals the marker inserted at line 30, so a refused request's marker stays in the set | one marker `5-a` in the window, limit 1, a call at 10 inserting `10-b` and removing `10-c`: refused, yet `10-b` remains and the set holds 2 > 1 markers | remove the marker that was inserted, so a refused request leaves no trace and the set never exceeds the limit | not executed | SlidingWindow.AsWrittenLeaksMarker | SlidingWindow.CheckLimit |
| src/adapters/db/PrismaPostRepository.ts:31-32 | The next cursor is the id of the popped (limit+1)-th row, and the next query skips the cursor row (`skip: 1`), so that row is on neither page | posts a, b, c newest first, limit 1: the first page is `[a]` with cursor `b`, the second page is `[c]`, and `b` is never shown | start the next page at the cursor row (the first row not shown), so paging shows every post exactly once | not executed | Pagination.AsWrittenCursorRowNeverShown | Pagination.FeedShowsEveryPost |
