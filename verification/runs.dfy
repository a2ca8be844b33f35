/** Sequential runs of requests against one store: what the engine promises
    across many checks. Requests are handled one after another, each seeing
    the store the previous one left behind. */
module Runs {
  import opened Results
  import opened CounterStore
  import opened Limiter
  import opened Middleware

  /** A request, the time it is checked at, and how its store calls end. */
  datatype Arrival = Arrival(req: Request, now: int, faults: Faults)

  /** The verdicts of a run, in order, and the store at its end. */
  datatype Trace = Trace(verdicts: seq<Verdict>, store: Store)

  function Run(rl: RateLimiter, st: Store, arrivals: seq<Arrival>): (t: Trace)
    ensures |t.verdicts| == |arrivals|
    // every answer of a run is (true, nil) or (false, non-nil)
    ensures forall i :: 0 <= i < |arrivals| ==> (t.verdicts[i].ok <==> t.verdicts[i].err.None?)
    decreases |arrivals|
  {
    if |arrivals| == 0 then Trace([], st)
    else
      var a := arrivals[0];
      var c := CheckLimit(rl, st, a.req, a.now, a.faults);
      var rest := Run(rl, c.store, arrivals[1..]);
      Trace([c.verdict] + rest.verdicts, rest.store)
  }

  /** The HTTP statuses a run's clients see. */
  function Statuses(t: Trace): (codes: seq<int>)
    ensures |codes| == |t.verdicts|
    ensures forall i :: 0 <= i < |codes| ==>
              codes[i] == (if t.verdicts[i].ok && t.verdicts[i].err.None? then StatusOK else StatusTooManyRequests)
  {
    seq(|t.verdicts|, i requires 0 <= i < |t.verdicts| => Status(Respond(t.verdicts[i])))
  }

  function Min(a: int, b: int): int {
    if a <= b then a else b
  }

  /** Throughout the window [from, from + ttl) the counter under `key` reads `k`. */
  ghost predicate ReadsThroughout(st: Store, key: string, from: int, ttl: int, k: nat) {
    forall t :: from <= t < from + ttl ==> Observed(st, key, t) == k
  }

  /** Every arrival is charged to `id`, arrives inside the window
      [from, from + ttl) and meets a healthy store. */
  ghost predicate OneIdentityInWindow(rl: RateLimiter, arrivals: seq<Arrival>, id: Identity, from: int) {
    forall i :: 0 <= i < |arrivals| ==>
      && Identify(rl, arrivals[i].req) == id
      && arrivals[i].faults == NoFaults
      && from <= arrivals[i].now < from + rl.expiration
  }

  // ---------------------------------------------------------------------------
  // Quota within one window

  /** One healthy check inside the window: below the limit it is admitted and
      the counter reads one more for the rest of the window; at the limit it
      is rejected and the store stays as it was. */
  lemma CheckInWindow(rl: RateLimiter, st: Store, a: Arrival, id: Identity, from: int, k: nat)
    requires Identify(rl, a.req) == id && a.faults == NoFaults
    requires from <= a.now < from + rl.expiration
    requires ReadsThroughout(st, RateLimitKey(id.key), from, rl.expiration, k)
    ensures var c := CheckLimit(rl, st, a.req, a.now, a.faults);
      && (c.verdict.ok <==> k < id.limit)
      && (!c.verdict.ok ==> c == Checked(Verdict(false, Some(LimitExceeded)), st))
      && (c.verdict.ok ==> ReadsThroughout(c.store, RateLimitKey(id.key), from, rl.expiration, k + 1))
  {
    var key := RateLimitKey(id.key);
    var c := CheckLimit(rl, st, a.req, a.now, a.faults);
    assert Observed(st, key, a.now) == k;
    if c.verdict.ok {
      forall t | from <= t < from + rl.expiration
        ensures Observed(c.store, key, t) == k + 1
      {
        assert c.store[key].expiry == At(a.now + rl.expiration);
      }
    }
  }

  /** Starting from a counter that reads `k` throughout the window, a run of
      healthy requests for one identity admits exactly while `k` plus the
      number already handled is below the limit, and rejects from then on
      without touching the store. */
  lemma {:induction false} RunInWindow(rl: RateLimiter, st: Store, arrivals: seq<Arrival>, id: Identity, from: int, k: nat)
    requires OneIdentityInWindow(rl, arrivals, id, from)
    requires ReadsThroughout(st, RateLimitKey(id.key), from, rl.expiration, k)
    ensures var t := Run(rl, st, arrivals);
      && (forall i :: 0 <= i < |arrivals| ==> (t.verdicts[i].ok <==> k + i < id.limit))
      && (forall i :: 0 <= i < |arrivals| && !t.verdicts[i].ok ==> t.verdicts[i] == Verdict(false, Some(LimitExceeded)))
      && ReadsThroughout(t.store, RateLimitKey(id.key), from, rl.expiration,
                         if k >= id.limit then k else Min(k + |arrivals|, id.limit))
    decreases |arrivals|
  {
    if |arrivals| > 0 {
      var a := arrivals[0];
      var c := CheckLimit(rl, st, a.req, a.now, a.faults);
      CheckInWindow(rl, st, a, id, from, k);
      var k' := if c.verdict.ok then k + 1 else k;
      assert OneIdentityInWindow(rl, arrivals[1..], id, from) by {
        forall i | 0 <= i < |arrivals[1..]|
          ensures Identify(rl, arrivals[1..][i].req) == id
        {
          assert arrivals[1..][i] == arrivals[i + 1];
        }
      }
      RunInWindow(rl, c.store, arrivals[1..], id, from, k');
      var t := Run(rl, st, arrivals);
      assert t.verdicts[0] == c.verdict;
      forall i | 1 <= i < |arrivals|
        ensures t.verdicts[i] == Run(rl, c.store, arrivals[1..]).verdicts[i - 1]
      {
      }
    }
  }

  /** From a fresh or expired counter with limit L, requests inside one window
      get exactly L admits, then only rejections; a limit of zero or less
      admits nothing. */
  lemma ExactlyLimitAdmits(rl: RateLimiter, st: Store, arrivals: seq<Arrival>, id: Identity, from: int)
    requires OneIdentityInWindow(rl, arrivals, id, from)
    requires !Live(st, RateLimitKey(id.key), from)
    ensures var t := Run(rl, st, arrivals);
      && (forall i :: 0 <= i < |arrivals| ==> (t.verdicts[i].ok <==> i < id.limit))
      && (forall i :: 0 <= i < |arrivals| && !t.verdicts[i].ok ==> t.verdicts[i] == Verdict(false, Some(LimitExceeded)))
  {
    var key := RateLimitKey(id.key);
    forall t | from <= t < from + rl.expiration
      ensures Observed(st, key, t) == 0
    {
    }
    RunInWindow(rl, st, arrivals, id, from, 0);
  }

  /** The same run as the clients see it: L answers of 200, then 429s. */
  lemma StatusesInWindow(rl: RateLimiter, st: Store, arrivals: seq<Arrival>, id: Identity, from: int)
    requires OneIdentityInWindow(rl, arrivals, id, from)
    requires !Live(st, RateLimitKey(id.key), from)
    ensures var codes := Statuses(Run(rl, st, arrivals));
      forall i :: 0 <= i < |arrivals| ==> codes[i] == (if i < id.limit then StatusOK else StatusTooManyRequests)
  {
    ExactlyLimitAdmits(rl, st, arrivals, id, from);
  }

  // ---------------------------------------------------------------------------
  // Rejections consume nothing

  /** Requests that find their counter at or over the limit leave the store
      exactly as it was, however many of them arrive. */
  lemma {:induction false} RejectedRunChangesNothing(rl: RateLimiter, st: Store, arrivals: seq<Arrival>)
    requires forall i :: 0 <= i < |arrivals| ==>
      && arrivals[i].faults.get.None?
      && Observed(st, RateLimitKey(Identify(rl, arrivals[i].req).key), arrivals[i].now)
           >= Identify(rl, arrivals[i].req).limit
    ensures Run(rl, st, arrivals).store == st
    ensures forall i :: 0 <= i < |arrivals| ==>
              Run(rl, st, arrivals).verdicts[i] == Verdict(false, Some(LimitExceeded))
    decreases |arrivals|
  {
    if |arrivals| > 0 {
      var a := arrivals[0];
      assert CheckLimit(rl, st, a.req, a.now, a.faults).store == st;
      RejectedRunChangesNothing(rl, st, arrivals[1..]);
      var t := Run(rl, st, arrivals);
      forall i | 1 <= i < |arrivals|
        ensures t.verdicts[i] == Run(rl, st, arrivals[1..]).verdicts[i - 1]
      {
      }
    }
  }

  // ---------------------------------------------------------------------------
  // Independent identities

  /** A run that never charges `other` leaves the counter of `other` as it was. */
  lemma {:induction false} RunLeavesOtherCounters(rl: RateLimiter, st: Store, arrivals: seq<Arrival>, other: string)
    requires forall i :: 0 <= i < |arrivals| ==> Identify(rl, arrivals[i].req).key != other
    ensures var key := RateLimitKey(other);
      var end := Run(rl, st, arrivals).store;
      (key in end <==> key in st) && (key in st ==> end[key] == st[key])
    decreases |arrivals|
  {
    if |arrivals| > 0 {
      var a := arrivals[0];
      var c := CheckLimit(rl, st, a.req, a.now, a.faults);
      var key := RateLimitKey(other);
      RateLimitKeyInjective(Identify(rl, a.req).key, other);
      assert SameExcept(st, c.store, RateLimitKey(Identify(rl, a.req).key));
      assert (key in c.store <==> key in st) && (key in st ==> c.store[key] == st[key]) by {
        var own := RateLimitKey(Identify(rl, a.req).key);
        assert key in st - {own} <==> key in c.store - {own};
        if key in st {
          assert (st - {own})[key] == (c.store - {own})[key];
        }
      }
      RunLeavesOtherCounters(rl, c.store, arrivals[1..], other);
    }
  }

  /** Exhausting one identity leaves every other identity exactly as admissible
      as it was before: a later check for it decides the same way. */
  lemma OtherIdentityUnaffected(rl: RateLimiter, st: Store, arrivals: seq<Arrival>, r: Request, now: int, faults: Faults)
    requires forall i :: 0 <= i < |arrivals| ==> Identify(rl, arrivals[i].req).key != Identify(rl, r).key
    ensures CheckLimit(rl, Run(rl, st, arrivals).store, r, now, faults).verdict == CheckLimit(rl, st, r, now, faults).verdict
  {
    var key := RateLimitKey(Identify(rl, r).key);
    RunLeavesOtherCounters(rl, st, arrivals, Identify(rl, r).key);
    assert Observed(Run(rl, st, arrivals).store, key, now) == Observed(st, key, now);
  }

  // ---------------------------------------------------------------------------
  // The window slides and then lapses

  /** Healthy requests that all arrive at least one window before `bound` keep
      every counter expiring by `bound`: each admission moves the deadline to
      one window after itself, and nothing else moves it. */
  lemma {:induction false} RunExpiresBy(rl: RateLimiter, st: Store, arrivals: seq<Arrival>, key: string, bound: int)
    requires ExpiresBy(st, key, bound)
    requires forall i :: 0 <= i < |arrivals| ==>
      arrivals[i].faults == NoFaults && arrivals[i].now + rl.expiration <= bound
    ensures ExpiresBy(Run(rl, st, arrivals).store, key, bound)
    decreases |arrivals|
  {
    if |arrivals| > 0 {
      var a := arrivals[0];
      var c := CheckLimit(rl, st, a.req, a.now, a.faults);
      var own := RateLimitKey(Identify(rl, a.req).key);
      assert ExpiresBy(c.store, key, bound) by {
        if key != own {
          assert key in st - {own} <==> key in c.store - {own};
          if key in st {
            assert (st - {own})[key] == (c.store - {own})[key];
          }
        }
      }
      RunExpiresBy(rl, c.store, arrivals[1..], key, bound);
    }
  }

  /** Once a window has passed after the last admitted request of an
      identity, its quota is whole again: the next healthy request is admitted
      whenever its limit is at least one. */
  lemma QuotaReturnsAfterWindow(rl: RateLimiter, st: Store, arrivals: seq<Arrival>, bound: int, r: Request, later: int)
    requires ExpiresBy(st, RateLimitKey(Identify(rl, r).key), bound)
    requires forall i :: 0 <= i < |arrivals| ==>
      arrivals[i].faults == NoFaults && arrivals[i].now + rl.expiration <= bound
    requires bound <= later
    requires Identify(rl, r).limit >= 1
    ensures CheckLimit(rl, Run(rl, st, arrivals).store, r, later, NoFaults).verdict == Verdict(true, None)
  {
    var key := RateLimitKey(Identify(rl, r).key);
    RunExpiresBy(rl, st, arrivals, key, bound);
    assert Observed(Run(rl, st, arrivals).store, key, later) == 0;
  }

  /** The window slides rather than staying fixed: a second admission inside
      the first window carries the count past the first window's end, up to
      one window after the second admission. */
  lemma SlidingWindowKeepsCount(rl: RateLimiter, st: Store, r: Request, t1: int, t2: int, t: int)
    requires Identify(rl, r).limit >= 2
    requires !Live(st, RateLimitKey(Identify(rl, r).key), t1)
    requires t1 <= t2 < t1 + rl.expiration <= t < t2 + rl.expiration
    ensures var run := Run(rl, st, [Arrival(r, t1, NoFaults), Arrival(r, t2, NoFaults)]);
      && run.verdicts == [Verdict(true, None), Verdict(true, None)]
      && Observed(run.store, RateLimitKey(Identify(rl, r).key), t) == 2
  {
    var key := RateLimitKey(Identify(rl, r).key);
    var arrivals := [Arrival(r, t1, NoFaults), Arrival(r, t2, NoFaults)];
    var c1 := CheckLimit(rl, st, r, t1, NoFaults);
    assert c1.verdict.ok && c1.store[key].count == 1;
    assert Observed(c1.store, key, t2) == 1;
    var c2 := CheckLimit(rl, c1.store, r, t2, NoFaults);
    assert c2.verdict.ok && c2.store[key] == Entry(2, At(t2 + rl.expiration));
    var tail := [Arrival(r, t2, NoFaults)];
    assert arrivals[1..] == tail;
    assert tail[1..] == [];
    assert Run(rl, c2.store, []) == Trace([], c2.store);
    assert Run(rl, c1.store, tail) == Trace([c2.verdict], c2.store);
    assert Run(rl, st, arrivals) == Trace([c1.verdict, c2.verdict], c2.store);
  }

  // ---------------------------------------------------------------------------
  // The test scenarios

  /** `count` healthy copies of a request, all checked at time `at`. */
  function Repeated(r: Request, at: int, count: nat): (arrivals: seq<Arrival>)
    ensures |arrivals| == count
    ensures forall i :: 0 <= i < count ==> arrivals[i] == Arrival(r, at, NoFaults)
  {
    seq(count, i => Arrival(r, at, NoFaults))
  }

  /** IP limit 5, window 10: six requests forwarded for one address (the
      test uses "192.168.1.1:8080", port included) are answered 200 five
      times, then 429. */
  lemma IpLimitScenario(addr: string)
    requires addr != "" && ',' !in addr
    ensures var rl := RateLimiter(5, 10, 10);
      var arrivals := Repeated(Request(addr, "", ""), 0, 6);
      Statuses(Run(rl, map[], arrivals)) == [200, 200, 200, 200, 200, 429]
  {
    var rl := RateLimiter(5, 10, 10);
    var r := Request(addr, "", "");
    var arrivals := Repeated(r, 0, 6);
    ForwardedForKeptVerbatim(r);
    StatusesInWindow(rl, map[], arrivals, Identity(addr, 5), 0);
  }

  /** Token limit 10: eleven requests with one token (the test's "abc123")
      get ten 200s and a 429, whatever forwarded and remote addresses they
      carry; a request from another address with no history then gets 200. */
  lemma TokenLimitScenario(token: string, addr: string, remote: string, other: string)
    requires token != ""
    requires other != "" && ',' !in other && other != token
    ensures var rl := RateLimiter(5, 10, 10);
      var arrivals := Repeated(Request(addr, remote, token), 0, 11);
      var t := Run(rl, map[], arrivals);
      && Statuses(t) == [200, 200, 200, 200, 200, 200, 200, 200, 200, 200, 429]
      && CheckLimit(rl, t.store, Request(other, "", ""), 0, NoFaults).verdict == Verdict(true, None)
  {
    var rl := RateLimiter(5, 10, 10);
    var arrivals := Repeated(Request(addr, remote, token), 0, 11);
    StatusesInWindow(rl, map[], arrivals, Identity(token, 10), 0);
    var newcomer := Request(other, "", "");
    ForwardedForKeptVerbatim(newcomer);
    OtherIdentityUnaffected(rl, map[], arrivals, newcomer, 0, NoFaults);
  }

  /** Window 10: five admitted requests from one address and a rejected
      sixth, then a pause of a full window, and the address is admitted again. */
  lemma ExpiryScenario(addr: string)
    requires addr != "" && ',' !in addr
    ensures var rl := RateLimiter(5, 10, 10);
      var r := Request(addr, "", "");
      var arrivals := Repeated(r, 0, 6);
      var t := Run(rl, map[], arrivals);
      && Statuses(t) == [200, 200, 200, 200, 200, 429]
      && CheckLimit(rl, t.store, r, 10, NoFaults).verdict == Verdict(true, None)
  {
    var rl := RateLimiter(5, 10, 10);
    var r := Request(addr, "", "");
    var arrivals := Repeated(r, 0, 6);
    ForwardedForKeptVerbatim(r);
    StatusesInWindow(rl, map[], arrivals, Identity(addr, 5), 0);
    QuotaReturnsAfterWindow(rl, map[], arrivals, 10, r, 10);
  }
}
