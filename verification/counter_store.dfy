/** The key/counter store behind the rate limiter (redis.go), with the Redis
    server replaced by an immutable map under a logical clock.

    A stored counter has a count and an expiry. A counter is live while the
    clock is before its deadline, or forever if it has none; a counter that
    is not live behaves exactly like an absent one. Network failures are not
    performed but supplied: each store call is told, through `Faults`, how
    it ends. */
module CounterStore {
  import opened Results

  datatype Expiry = Persistent | At(deadline: int)

  datatype Entry = Entry(count: nat, expiry: Expiry)

  type Store = map<string, Entry>

  /** How the store calls of one request end.
      `get`: `Some(cause)` when the read fails with an error other than "key absent".
      `incr`: whether the increment reached the store and whether its reply came back.
      `expireFails`: the expiry refresh did not reach the store. */
  datatype Faults = Faults(get: Option<string>, incr: IncrReply, expireFails: bool)

  datatype IncrReply =
    | Applied                      // the counter was bumped and the reply arrived
    | Refused(cause: string)       // the call failed before the store applied it
    | Unacknowledged(cause: string) // the store applied it, but the caller saw an error

  const NoFaults := Faults(None, Applied, false)

  /** Prefixes of the client's error texts. */
  const ReadErrorPrefix: string := "get request count: "
  const IncrementErrorPrefix: string := "increment request count: "

  /** Namespace prefix of every counter key. */
  const KeyPrefix: string := "rate_limit:"

  // ---------------------------------------------------------------------------
  // Store state

  /** The counter under `key` exists and has not expired at time `now`. */
  predicate Live(st: Store, key: string, now: int) {
    key in st && (st[key].expiry.Persistent? || now < st[key].expiry.deadline)
  }

  /** The count a reader sees at time `now`: absent and expired counters read as zero. */
  function Observed(st: Store, key: string, now: int): nat {
    if Live(st, key, now) then st[key].count else 0
  }

  /** `a` and `b` agree on every key except `key`. */
  predicate SameExcept(a: Store, b: Store, key: string) {
    a - {key} == b - {key}
  }

  /** The counter under `key` has no deadline later than `bound`: from time
      `bound` on, it reads as zero unless it is incremented again. */
  predicate ExpiresBy(st: Store, key: string, bound: int) {
    key !in st || (st[key].expiry.At? && st[key].expiry.deadline <= bound)
  }

  // ---------------------------------------------------------------------------
  // Store primitives (the Redis commands the client issues)

  /** INCR: a live counter goes up by one and keeps its expiry; otherwise a new
      counter starts at one with no expiry. */
  function Incr(st: Store, key: string, now: int): Store {
    if Live(st, key, now) then st[key := Entry(st[key].count + 1, st[key].expiry)]
    else st[key := Entry(1, Persistent)]
  }

  /** EXPIRE: the counter's deadline becomes `ttl` after `now`. A deadline at or
      before `now` (a `ttl` of zero or less) leaves the counter dead at once,
      as Redis deletes a key given a non-positive expiry. */
  function Expire(st: Store, key: string, now: int, ttl: int): Store
    requires key in st
  {
    st[key := Entry(st[key].count, At(now + ttl))]
  }

  // ---------------------------------------------------------------------------
  // The client operations

  /** `getRateLimitKey`: the store key of an identity. */
  function RateLimitKey(identity: string): (key: string)
    ensures |key| == |KeyPrefix| + |identity|
    ensures key[..|KeyPrefix|] == KeyPrefix
    ensures key[|KeyPrefix|..] == identity
  {
    KeyPrefix + identity
  }

  /** The prefix is fixed, so distinct identities never share a counter. */
  lemma RateLimitKeyInjective(a: string, b: string)
    ensures RateLimitKey(a) == RateLimitKey(b) <==> a == b
  {
    if RateLimitKey(a) == RateLimitKey(b) {
      assert a == RateLimitKey(a)[|KeyPrefix|..];
    }
  }

  /** What `GetRequestCount` returns: a count and an error, as Go returns them. */
  datatype Counted = Counted(count: int, err: Option<string>)

  /** `GetRequestCount`: read the counter of `identity`. The function returns no
      store, so a read can neither create nor change a counter. */
  function GetRequestCount(st: Store, now: int, identity: string, getFault: Option<string>): (r: Counted)
    ensures getFault.Some? ==> r == Counted(0, Some(ReadErrorPrefix + getFault.value))
    ensures getFault.None? ==> r.err.None?
    ensures getFault.None? && !Live(st, RateLimitKey(identity), now) ==> r.count == 0
    ensures getFault.None? && Live(st, RateLimitKey(identity), now) ==>
              r.count == st[RateLimitKey(identity)].count
  {
    var key := RateLimitKey(identity);
    match getFault
    case Some(cause) => Counted(0, Some(ReadErrorPrefix + cause))
    case None => if Live(st, key, now) then Counted(st[key].count, None) else Counted(0, None)
  }

  /** What `IncrementRequestCount` returns: an error, and the store afterwards. */
  datatype Incremented = Incremented(err: Option<string>, store: Store)

  /** `IncrementRequestCount`: bump the counter of `identity`, then refresh its
      expiry to `ttl` from now. A failed increment skips the refresh; a failed
      refresh is ignored and still reports success. */
  function IncrementRequestCount(st: Store, now: int, identity: string, ttl: int, faults: Faults): (r: Incremented)
    ensures var key := RateLimitKey(identity);
      && (r.err.None? <==> faults.incr.Applied?)
      && (r.err.Some? ==> r.err.value == IncrementErrorPrefix + faults.incr.cause)
      && SameExcept(st, r.store, key)
      && (faults.incr.Refused? ==> r.store == st)
      && (!faults.incr.Refused? ==> key in r.store && r.store[key].count == Observed(st, key, now) + 1)
      && (faults.incr.Applied? && !faults.expireFails ==> r.store[key].expiry == At(now + ttl))
      && (!faults.incr.Refused? && (faults.incr.Unacknowledged? || faults.expireFails) ==>
            r.store[key].expiry == (if Live(st, key, now) then st[key].expiry else Persistent))
  {
    var key := RateLimitKey(identity);
    match faults.incr
    case Refused(cause) => Incremented(Some(IncrementErrorPrefix + cause), st)
    case Unacknowledged(cause) => Incremented(Some(IncrementErrorPrefix + cause), Incr(st, key, now))
    case Applied =>
      var bumped := Incr(st, key, now);
      if faults.expireFails then Incremented(None, bumped)
      else Incremented(None, Expire(bumped, key, now, ttl))
  }

  /** Reading back after a healthy increment (acknowledged, its expiry refresh
      not lost), anywhere inside the refreshed window, sees exactly one more
      than before. */
  lemma IncrementThenGet(st: Store, now: int, identity: string, ttl: int, later: int)
    requires now <= later < now + ttl
    ensures var before := GetRequestCount(st, now, identity, None);
      var after := IncrementRequestCount(st, now, identity, ttl, NoFaults).store;
      GetRequestCount(after, later, identity, None) == Counted(before.count + 1, None)
  {
  }

  /** Once the window refreshed by a healthy increment has passed with no
      further increment, the counter reads as zero again. */
  lemma IncrementThenExpire(st: Store, now: int, identity: string, ttl: int, later: int)
    requires now + ttl <= later
    ensures var after := IncrementRequestCount(st, now, identity, ttl, NoFaults).store;
      GetRequestCount(after, later, identity, None) == Counted(0, None)
  {
  }

  /** The documented risk of issuing INCR and EXPIRE separately: when a fresh
      counter is created but its expiry refresh is lost, it never expires. */
  lemma LostRefreshNeverExpires(st: Store, now: int, identity: string, ttl: int, later: int)
    requires !Live(st, RateLimitKey(identity), now)
    ensures var after := IncrementRequestCount(st, now, identity, ttl, Faults(None, Applied, true)).store;
      GetRequestCount(after, later, identity, None) == Counted(1, None)
  {
  }
}
