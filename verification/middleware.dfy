/** The admission middleware (middleware.go): turn the engine's `(bool, error)`
    into either forwarding the request or a 429 response. */
module Middleware {
  import opened CounterStore
  import opened Limiter

  const StatusOK := 200
  const StatusTooManyRequests := 429

  /** `Forward`: the downstream handler runs. `Reject`: an error response with
      this status and body text; the handler does not run. */
  datatype Response = Forward | Reject(status: int, body: string)

  /** The decision-to-response mapping. The body of the no-error rejection is
      the same text the engine uses for `LimitExceeded`. */
  function Respond(v: Verdict): (resp: Response)
    // fail closed: the request goes through only on (true, nil)
    ensures resp.Forward? <==> v.ok && v.err.None?
    ensures resp.Reject? ==> resp.status == StatusTooManyRequests
    // any error wins over the flag and becomes the body
    ensures v.err.Some? ==> resp == Reject(StatusTooManyRequests, v.err.value)
    ensures !v.ok && v.err.None? ==> resp == Reject(StatusTooManyRequests, LimitExceeded)
  {
    if v.err.Some? then Reject(StatusTooManyRequests, v.err.value)
    else if !v.ok then Reject(StatusTooManyRequests, LimitExceeded)
    else Forward
  }

  /** The status a client sees; a forwarded request reaches the service's
      handler, which answers 200 "OK". */
  function Status(resp: Response): int {
    match resp
    case Forward => StatusOK
    case Reject(status, _) => status
  }

  /** One request through the middleware and the engine, with the store afterwards. */
  datatype Served = Served(response: Response, store: Store)

  function Serve(rl: RateLimiter, st: Store, r: Request, now: int, faults: Faults): (s: Served)
    ensures s.store == CheckLimit(rl, st, r, now, faults).store
    ensures s.response.Forward? <==> CheckLimit(rl, st, r, now, faults).verdict.ok
  {
    var c := CheckLimit(rl, st, r, now, faults);
    Served(Respond(c.verdict), c.store)
  }

  /** Fail closed end to end: when the counter store fails, the request is
      answered 429 with the store's error text and never forwarded. */
  lemma StoreFailureAnswers429(rl: RateLimiter, st: Store, r: Request, now: int, faults: Faults)
    requires faults.get.Some? || !faults.incr.Applied?
    ensures var s := Serve(rl, st, r, now, faults);
      && s.response.Reject?
      && Status(s.response) == StatusTooManyRequests
      && s.response.body == CheckLimit(rl, st, r, now, faults).verdict.err.value
  {
    StoreFailureRejects(rl, st, r, now, faults);
  }

  /** The fixed-message branch of the mapping is dead: the engine never returns
      `(false, nil)`, so every 429 carries the engine's own error text. */
  lemma FixedMessageBranchUnreachable(rl: RateLimiter, st: Store, r: Request, now: int, faults: Faults)
    ensures var v := CheckLimit(rl, st, r, now, faults).verdict;
      !(!v.ok && v.err.None?)
    ensures var v := CheckLimit(rl, st, r, now, faults).verdict;
      Respond(v).Reject? ==> Respond(v).body == v.err.value
  {
  }
}
