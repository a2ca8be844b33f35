# Rate limiter decision engine, in Dafny

This project models the request-admission guard of a small Go HTTP service.
For every request, the guard derives an identity: the `API_KEY` token when
there is one, otherwise the client address from `X-Forwarded-For` or the
connection's remote address. It then reads that identity's counter in a
key/counter store. It rejects the request when the count has reached the
identity's limit. Otherwise it increments the counter, refreshes the
counter's expiry, and admits the request. A middleware turns the engine's
`(bool, error)` answer into either forwarding the request or an HTTP 429.

The model is purely functional:

- `CounterStore` (redis.go): the Redis server becomes an immutable
  `map<string, Entry>` with, per key, a count and an expiry. Time is a
  logical clock. A counter that has expired behaves like an absent one.
  INCR on a key that is not live creates it at 1 with no expiry, and EXPIRE
  sets a deadline `ttl` after now. The outcome of each store call is an
  explicit `Faults` parameter: a read error, an increment that fails before
  or after the store applied it, or an expiry refresh that is lost.
- `Limiter` (rate_limiter.go): address extraction, identity and limit
  selection, and `CheckLimit`, which takes a store and returns the verdict
  together with the store afterwards. `NewRateLimiter` is the `RateLimiter`
  datatype constructor.
- `Middleware` (middleware.go): the verdict-to-response mapping.
- `Runs`: sequences of requests handled one after another. This is where
  the quota properties are stated, along with the repository's test
  scenarios.
- `Strings`: Go's `strings.Split` for a one-character separator, with
  `Join`, which undoes it.

Points where the code's behaviour is easy to misread, and which the model
follows as written:

- The remote address is cut at its first `':'`. It is not parsed as host
  and port, so `[::1]:80` yields `[`.
- The forwarded address is the first comma-separated entry, verbatim. It is
  not trimmed, and a `:port` stays in it.
- Tokens and addresses share one key namespace (`rate_limit:` + identity).
  A token spelled like an address is charged to that address's counter
  (`Limiter.TokenSharesAddressCounter`).
- Errors are plain texts, not typed failures. An increment failure is
  reported with the prefix `increment request count: ` twice, because the
  client and the engine each add it.
- A failed expiry refresh is ignored. If it happens when a counter is
  created, that counter never expires (`CounterStore.LostRefreshNeverExpires`).
- If the store applies an increment but the reply is lost, the request is
  rejected and still uses up quota.

## Model

| member | source | states |
|---|---|---|
| Strings.Split | rate_limiter.go:33-36 | splitting always yields at least one field, so indexing field 0 is always defined; no field contains the separator |
| Strings.SplitJoin | rate_limiter.go:33 | splitting loses nothing: joining the fields with the separator gives back the header value |
| Strings.SplitHeadIsLeadingField | rate_limiter.go:34 | the first field is a separator-free prefix of the input that is either the whole input or is followed by the separator |
| Strings.SplitWithoutSeparator | rate_limiter.go:33-34 | a value without the separator is one field, the value itself |
| Strings.SplitHeadBeforeSeparator | rate_limiter.go:36 | the first field of `a + sep + b` is `a` when `a` has no separator |
| CounterStore.RateLimitKey | redis.go:21-23 | the store key is the `rate_limit:` prefix followed by the identity, which can be read back from it |
| CounterStore.RateLimitKeyInjective | redis.go:21-23 | two identities share a store key if and only if they are equal |
| CounterStore.GetRequestCount | redis.go:34-44 | an absent or expired key reads as (0, nil); a live key reads as its count; a store error gives count 0 and the error under `get request count: `; a read returns no store, so it cannot create or change a key |
| CounterStore.IncrementRequestCount | redis.go:25-32 | success exactly when the increment is acknowledged; the counter becomes the visible count plus one (1 for an absent or expired key); a refused increment changes nothing; an expiry is set to `ttl` from now only after a successful increment; a lost refresh still reports success; other keys are untouched |
| CounterStore.IncrementThenGet | redis.go:25-44 | after a healthy increment (acknowledged, its expiry refresh not lost), reading anywhere inside the refreshed window gives one more than the read before it |
| CounterStore.IncrementThenExpire | redis.go:30 | after a healthy increment (acknowledged, its expiry refresh not lost), a read one full window later or after finds the counter at zero again |
| CounterStore.LostRefreshNeverExpires | redis.go:27-30 | a counter created by an increment whose expiry refresh is lost reads 1 at every later time |
| Limiter.ClientAddress | rate_limiter.go:29-37 | a non-empty `X-Forwarded-For` gives the text before its first comma; otherwise the remote address up to its first colon |
| Limiter.CheckLimit | rate_limiter.go:28-68 | with the read, the increment and the expiry refresh all at the check's one logical instant: the answer is (true, nil) or (false, error), never a mix; admitted exactly when the read succeeds, the count is below the limit and the increment is acknowledged; a failed read returns its error with the store untouched; at or over the limit it returns the limit error with the store untouched; an admission adds exactly one to the request's own counter and restarts its window unless the expiry refresh is lost; an increment the store applied without acknowledging also adds exactly one, yet rejects; no other counter changes; an increment failure carries both prefixes |
| Limiter.ForwardedForKeptVerbatim | rate_limiter.go:31-34 | a forwarded value without commas, such as `192.168.1.1:8080`, is the address as is, port included |
| Limiter.ForwardedForFirstEntry | rate_limiter.go:31-34 | only the leftmost forwarded entry is used, untrimmed |
| Limiter.RemoteAddrCutAtFirstColon | rate_limiter.go:35-37 | with no forwarded value, the address is the remote address before its first colon |
| Limiter.BracketedRemoteAddr | rate_limiter.go:36 | the IPv6 remote address `[::1]:80` yields the address `[` |
| Limiter.Identify | rate_limiter.go:39-52 | the limit is the token limit exactly when a non-empty token is present, else the IP limit; the key is then the token itself, else the client address; there is no combined key |
| Limiter.TokenTakesPrecedence | rate_limiter.go:39-52 | a non-empty token selects the token itself as the key and the token limit; two requests with the same token are decided identically whatever their addresses |
| Limiter.AddressIdentityWithoutToken | rate_limiter.go:46-52 | without a token the key is the client address under the IP limit, taken from the forwarded value or else from the remote address |
| Limiter.TokenSharesAddressCounter | rate_limiter.go:46-52 | a token equal to an address uses that address's counter, and is rejected once that counter has reached the token limit |
| Limiter.NonPositiveLimitRejectsAll | rate_limiter.go:59-61 | a limit of zero or less rejects every request and leaves the store as it was |
| Limiter.StoreFailureRejects | rate_limiter.go:54-65 | a failed read or a failed increment always gives (false, error) |
| Middleware.Respond | middleware.go:11-20 | the request is forwarded if and only if the answer is (true, nil); any error gives a 429 whose body is the error text; (false, nil) gives a 429 with the fixed message |
| Middleware.Serve | middleware.go:10-21 | the middleware forwards exactly the requests the engine admits, and leaves the store the engine left |
| Middleware.StoreFailureAnswers429 | middleware.go:11-15 | a counter-store failure is answered with a 429 that carries the store error's text and is never forwarded |
| Middleware.FixedMessageBranchUnreachable | middleware.go:16-19 | the engine never answers (false, nil), so every 429 carries the engine's error text |
| Runs.Run | main_test.go:50-59 | the sequential driver, as the tests' request loops: each check sees the store the previous one left, and every answer is (true, nil) or (false, error) |
| Runs.CheckInWindow | rate_limiter.go:54-67 | a check of a healthy store inside the window is admitted exactly when the count is below the limit; after an admission the counter reads one more for the rest of the window; a rejection leaves the store as it was |
| Runs.RunInWindow | rate_limiter.go:54-67 | starting from count k, the i-th request of one identity within a window is admitted if and only if k + i is below the limit; rejections carry the limit error; the final count is min(k + n, limit), or k when k is already at or over the limit |
| Runs.ExactlyLimitAdmits | rate_limiter.go:59-67 | starting from a fresh or expired counter with limit L, exactly the first L requests within a window are admitted and all later ones are rejected; a limit of zero or less admits none |
| Runs.StatusesInWindow | middleware.go:11-20 | clients of such a sequence see 200 for the first L requests and 429 after that |
| Runs.RejectedRunChangesNothing | rate_limiter.go:59-61 | any number of requests that find their counter at the limit are all rejected and leave the store exactly as it was |
| Runs.RunLeavesOtherCounters | rate_limiter.go:54-65 | a sequence of requests that never uses an identity leaves that identity's counter as it was |
| Runs.OtherIdentityUnaffected | main_test.go:96-107 | exhausting other identities does not change the decision for a request of a different identity |
| Runs.RunExpiresBy | redis.go:30 | while every request meets a healthy store (no store faults) and arrives at least one window before a time bound, a counter that already expires by that bound still does so after the run |
| Runs.QuotaReturnsAfterWindow | main_test.go:62-79 | for a counter that already expires by a time bound and a run of healthy requests (no store faults) that all arrive at least one window before that bound, a healthy request at or after the bound whose limit is at least one is admitted again |
| Runs.SlidingWindowKeepsCount | redis.go:25-31 | the window slides: a second admission inside the first window keeps the count alive after the first window has ended |
| Runs.IpLimitScenario | main_test.go:49-60 | with an IP limit of 5, six requests from one forwarded address get the statuses 200, 200, 200, 200, 200, 429 |
| Runs.TokenLimitScenario | main_test.go:36-47 | with a token limit of 10, eleven requests with one token get ten 200s and then a 429, whatever their forwarded and remote addresses; a different address is then still admitted |
| Runs.ExpiryScenario | main_test.go:62-79 | five admissions and a rejection from one address, then a full window of waiting, and the next request is admitted |

## Left out

- The Redis client and the network (redis.go:15-19): connection set-up,
  command round trips, and context propagation and cancellation are not
  modelled. The outcome of each store call is a parameter instead. A
  cancelled call is just one more kind of store error.
- Concurrency: the read at rate_limiter.go:54 and the increment at
  rate_limiter.go:63 are separate store calls. Parallel requests can
  therefore both pass the check and overshoot the limit. Every result here
  is about requests handled one after another.
- Wall-clock time: the clock is a logical integer, and the window length is
  in the same units. The Redis client rounds durations below one second up
  to one second. The test also passes a raw duration of 10 (nanoseconds).
  Neither rounding nor real time is modelled.
- Limiter.CheckLimit: the read, the increment and the expiry refresh of one
  check happen at the same logical instant. A counter whose window lapses
  between those round trips is not modelled: INCR restarting it at 1 after
  a read that saw a higher count, or EXPIRE finding no key so that the
  admitted request leaves no counter behind.
- Integer widths: Go's `int` and Redis counters are 64-bit, but here counts
  and limits are unbounded. An admitted count never exceeds the limit, which
  is itself an `int`. Redis's own overflow error on INCR is covered by the
  increment fault.
- Values stored under a `rate_limit:` key by something other than this
  client, which make the read's integer conversion fail: covered by the read
  fault.
- `http.Error` details: the trailing newline it adds to the body, and the
  headers it sets. `Header.Get` returns only the first value of a header
  that appears more than once; each request here carries one value per
  header.
- The downstream handler: a forwarded request is taken to be answered 200,
  as the service's only handler does (main.go:29-31). The handler itself is
  not modelled.
- config.go (environment loading and integer parsing) and main.go (server
  start-up and router wiring) are plumbing and are not part of this model.
