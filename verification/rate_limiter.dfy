/** The rate-limiting decision engine (rate_limiter.go): derive an identity from
    a request, read its counter, reject at the limit, otherwise count the
    request and admit it. */
module Limiter {
  import opened Results
  import opened CounterStore
  import Strings

  /** `RateLimiter` with its policy; `NewRateLimiter` is this constructor.
      `expiration` is the window length in ticks of the logical clock. The
      store is not a field: it is passed to each check and returned updated. */
  datatype RateLimiter = RateLimiter(ipLimit: int, tokenLimit: int, expiration: int)

  /** The three request signals the engine looks at: the `X-Forwarded-For` and
      `API_KEY` header values (the empty string when a header is missing) and
      the connection's remote address. */
  datatype Request = Request(forwardedFor: string, remoteAddr: string, apiKey: string)

  /** The counter a request is charged to, and the limit that applies to it. */
  datatype Identity = Identity(key: string, limit: int)

  /** The engine's `(bool, error)` answer. */
  datatype Verdict = Verdict(ok: bool, err: Option<string>)

  /** A verdict and the store after the check. */
  datatype Checked = Checked(verdict: Verdict, store: Store)

  /** The error text of a request over its limit. */
  const LimitExceeded: string :=
    "you have reached the maximum number of requests or actions allowed within a certain time frame"

  /** The client address: the first comma-separated entry of `X-Forwarded-For`
      when that header is non-empty, taken verbatim (no trimming, a `:port`
      kept); otherwise the remote address up to its first ':'. */
  function ClientAddress(r: Request): (addr: string)
    ensures r.forwardedFor != "" ==> Strings.IsLeadingField(addr, r.forwardedFor, ',')
    ensures r.forwardedFor == "" ==> Strings.IsLeadingField(addr, r.remoteAddr, ':')
  {
    if r.forwardedFor != "" then
      Strings.SplitHeadIsLeadingField(r.forwardedFor, ',');
      Strings.Split(r.forwardedFor, ',')[0]
    else
      Strings.SplitHeadIsLeadingField(r.remoteAddr, ':');
      Strings.Split(r.remoteAddr, ':')[0]
  }

  /** Identity and limit: a non-empty token wins outright; otherwise the client address. */
  function Identify(rl: RateLimiter, r: Request): (id: Identity)
    ensures id.limit == (if r.apiKey != "" then rl.tokenLimit else rl.ipLimit)
    ensures r.apiKey != "" ==> id.key == r.apiKey
    ensures r.apiKey == "" ==> id.key == ClientAddress(r)
  {
    if r.apiKey != "" then Identity(r.apiKey, rl.tokenLimit)
    else Identity(ClientAddress(r), rl.ipLimit)
  }

  /** `CheckLimit`: one admission decision at time `now`, with the store calls
      ending as `faults` says. */
  function CheckLimit(rl: RateLimiter, st: Store, r: Request, now: int, faults: Faults): (c: Checked)
    ensures var id := Identify(rl, r);
      var key := RateLimitKey(id.key);
      // the result is (true, nil) or (false, non-nil), never a mix
      && (c.verdict.ok <==> c.verdict.err.None?)
      // admitted exactly when the read worked, the count was below the limit and the increment was acknowledged
      && (c.verdict.ok <==> faults.get.None? && Observed(st, key, now) < id.limit && faults.incr.Applied?)
      // no counter but the request's own is touched
      && SameExcept(st, c.store, key)
      // a failed read ends the check before any increment
      && (faults.get.Some? ==>
            c == Checked(Verdict(false, Some(ReadErrorPrefix + faults.get.value)), st))
      // at or over the limit: rejected, and no quota is consumed
      && (faults.get.None? && Observed(st, key, now) >= id.limit ==>
            c == Checked(Verdict(false, Some(LimitExceeded)), st))
      // a rejected request leaves the store as it was, unless the store applied an unacknowledged increment
      && (!c.verdict.ok && !faults.incr.Unacknowledged? ==> c.store == st)
      // an admitted request is counted exactly once ...
      && (c.verdict.ok ==> key in c.store && c.store[key].count == Observed(st, key, now) + 1)
      // ... and restarts the window of its counter
      && (c.verdict.ok && !faults.expireFails ==> c.store[key].expiry == At(now + rl.expiration))
      // an increment the store applied but did not acknowledge still counts exactly once
      && (faults.get.None? && Observed(st, key, now) < id.limit && faults.incr.Unacknowledged? ==>
            key in c.store && c.store[key].count == Observed(st, key, now) + 1)
      // a failed increment is reported under both the engine's and the client's prefix
      && (faults.get.None? && Observed(st, key, now) < id.limit && !faults.incr.Applied? ==>
            c.verdict.err == Some(IncrementErrorPrefix + (IncrementErrorPrefix + faults.incr.cause)))
  {
    var id := Identify(rl, r);
    var read := GetRequestCount(st, now, id.key, faults.get);
    if read.err.Some? then
      Checked(Verdict(false, read.err), st)
    else if read.count >= id.limit then
      Checked(Verdict(false, Some(LimitExceeded)), st)
    else
      var inc := IncrementRequestCount(st, now, id.key, rl.expiration, faults);
      if inc.err.Some? then
        Checked(Verdict(false, Some(IncrementErrorPrefix + inc.err.value)), inc.store)
      else
        Checked(Verdict(true, None), inc.store)
  }

  // ---------------------------------------------------------------------------
  // Identity selection

  /** A forwarded header without commas is taken whole, port included, as the
      test requests send "192.168.1.1:8080". */
  lemma ForwardedForKeptVerbatim(r: Request)
    requires r.forwardedFor != "" && ',' !in r.forwardedFor
    ensures ClientAddress(r) == r.forwardedFor
  {
    Strings.SplitWithoutSeparator(r.forwardedFor, ',');
  }

  /** Only the leftmost forwarded entry counts, and it is taken as is, with
      any surrounding spaces; the remote address is then ignored. */
  lemma ForwardedForFirstEntry(r: Request, first: string, others: string)
    requires ',' !in first
    requires r.forwardedFor == first + "," + others
    ensures ClientAddress(r) == first
  {
    Strings.SplitHeadBeforeSeparator(first, others, ',');
  }

  /** Without a forwarded header the remote address is cut at its first ':',
      not parsed as host and port. */
  lemma RemoteAddrCutAtFirstColon(r: Request, head: string, tail: string)
    requires r.forwardedFor == ""
    requires ':' !in head
    requires r.remoteAddr == head + ":" + tail
    ensures ClientAddress(r) == head
  {
    Strings.SplitHeadBeforeSeparator(head, tail, ':');
  }

  /** So a bracketed IPv6 remote address yields just "[". */
  lemma BracketedRemoteAddr()
    ensures ClientAddress(Request("", "[::1]:80", "")) == "["
  {
    RemoteAddrCutAtFirstColon(Request("", "[::1]:80", ""), "[", ":1]:80");
  }

  /** A token always selects the token counter and the token limit; the
      address signals then play no part in the decision or the resulting store. */
  lemma TokenTakesPrecedence(rl: RateLimiter, st: Store, r1: Request, r2: Request, now: int, faults: Faults)
    requires r1.apiKey != "" && r1.apiKey == r2.apiKey
    ensures Identify(rl, r1) == Identity(r1.apiKey, rl.tokenLimit)
    ensures CheckLimit(rl, st, r1, now, faults) == CheckLimit(rl, st, r2, now, faults)
  {
  }

  /** Without a token the address decides, under the IP limit; there is never a combined key. */
  lemma AddressIdentityWithoutToken(rl: RateLimiter, r: Request)
    requires r.apiKey == ""
    ensures Identify(rl, r) == Identity(ClientAddress(r), rl.ipLimit)
    ensures r.forwardedFor != "" ==> Identify(rl, r).key <= r.forwardedFor
    ensures r.forwardedFor == "" ==> Identify(rl, r).key <= r.remoteAddr
  {
  }

  /** Token and address identities share one namespace: a token spelled like an
      address is charged to that address's counter, so an address that has
      used up `tokenLimit` requests leaves such a token no quota. */
  lemma TokenSharesAddressCounter(rl: RateLimiter, st: Store, byToken: Request, byAddress: Request, now: int, faults: Faults)
    requires byToken.apiKey != "" && byAddress.apiKey == ""
    requires ClientAddress(byAddress) == byToken.apiKey
    requires faults.get.None?
    requires Observed(st, RateLimitKey(ClientAddress(byAddress)), now) >= rl.tokenLimit
    ensures Identify(rl, byToken).key == Identify(rl, byAddress).key
    ensures CheckLimit(rl, st, byToken, now, faults) == Checked(Verdict(false, Some(LimitExceeded)), st)
  {
  }

  // ---------------------------------------------------------------------------
  // Decisions

  /** A limit of zero or less rejects every request, whatever the store holds
      and however its calls end, and leaves the store as it was. */
  lemma NonPositiveLimitRejectsAll(rl: RateLimiter, st: Store, r: Request, now: int, faults: Faults)
    requires Identify(rl, r).limit <= 0
    ensures !CheckLimit(rl, st, r, now, faults).verdict.ok
    ensures CheckLimit(rl, st, r, now, faults).store == st
  {
  }

  /** A counter-store failure never admits: a failed read or a failed increment yields `(false, err)`. */
  lemma StoreFailureRejects(rl: RateLimiter, st: Store, r: Request, now: int, faults: Faults)
    requires faults.get.Some? || !faults.incr.Applied?
    ensures !CheckLimit(rl, st, r, now, faults).verdict.ok
    ensures CheckLimit(rl, st, r, now, faults).verdict.err.Some?
  {
  }
}
