/**
 The fixed-window limiter of pkg/ratelimit/limiter.go: one Redis counter per API key and client
 second, with a time to live that starts at the first hit.

 Times are milliseconds. A call reads its window from the client's clock; the counter expires
 by the server's clock.
 */
module RateLimit {
  const TTL_MS := 1100

  /** Decimal digits, as `%d` prints a natural number. */
  function Decimal(n: nat): string {
    if n < 10 then [('0' as int + n) as char] else Decimal(n / 10) + [('0' as int + n % 10) as char]
  }

  function BucketKey(prefix: string, id: nat, second: nat): string {
    prefix + Decimal(id) + ":" + Decimal(second)
  }

  function DecimalValue(s: string): int {
    if s == "" then 0 else 10 * DecimalValue(s[..|s| - 1]) + (s[|s| - 1] as int - '0' as int)
  }

  lemma {:induction false} DecimalReadsBack(n: nat)
    ensures DecimalValue(Decimal(n)) == n && Decimal(n) != "" && ':' !in Decimal(n)
  {
    if n < 10 {
      assert Decimal(n)[..0] == "";
    } else {
      DecimalReadsBack(n / 10);
      assert Decimal(n)[..|Decimal(n)| - 1] == Decimal(n / 10);
    }
  }

  lemma SameBeforeTheColon(prefix: string, d: string, e: string, d': string, e': string)
    requires prefix + d + ":" + e == prefix + d' + ":" + e' && ':' !in d && ':' !in d'
    ensures d == d' && e == e'
  {
    var k, p := prefix + d + ":" + e, |prefix|;
    var k' := prefix + d' + ":" + e';
    assert k[p + |d|] == ':' && k'[p + |d'|] == ':';
    assert forall i | p <= i < p + |d| :: k[i] == d[i - p];
    assert forall i | p <= i < p + |d'| :: k'[i] == d'[i - p];
    assert |d| == |d'|;
    assert k[p..p + |d|] == d && k'[p..p + |d'|] == d';
    assert k[p + |d| + 1..] == e && k'[p + |d'| + 1..] == e';
  }

  /** Different API keys, or different seconds, never share a counter. */
  lemma BucketKeyIsInjective(prefix: string, id: nat, second: nat, id': nat, second': nat)
    requires BucketKey(prefix, id, second) == BucketKey(prefix, id', second')
    ensures id == id' && second == second'
  {
    DecimalReadsBack(id);
    DecimalReadsBack(id');
    DecimalReadsBack(second);
    DecimalReadsBack(second');
    SameBeforeTheColon(prefix, Decimal(id), Decimal(second), Decimal(id'), Decimal(second'));
  }

  // ---------------------------------------------------------------------------------------
  // Redis
  // ---------------------------------------------------------------------------------------

  datatype Counter = Counter(count: nat, expiresAt: nat)

  type Store = map<string, Counter>

  /** A key is gone once the server's clock has passed its expiry. */
  predicate Live(store: Store, key: string, now: nat) { key in store && now <= store[key].expiresAt }

  /** What the script leaves in the store and returns. */
  function Script(store: Store, key: string, ttl: nat, now: nat): (Store, nat) {
    if Live(store, key, now) then
      (store[key := store[key].(count := store[key].count + 1)], store[key].count + 1)
    else
      (store[key := Counter(1, now + ttl)], 1)
  }

  class Redis {
    var store: Store

    constructor ()
      ensures store == map[]
    {
      store := map[];
    }

    /** INCR, then PEXPIRE on the first hit, as one atomic script. */
    method Eval(key: string, ttl: nat, now: nat) returns (v: nat)
      requires forall k | k in store :: store[k].count >= 1
      modifies this
      ensures (store, v) == Script(old(store), key, ttl, now)
      ensures forall k | k in store :: store[k].count >= 1
    {
      ghost var before := store;
      if Live(store, key, now) {
        store := store[key := store[key].(count := store[key].count + 1)];
      } else {
        store := store[key := Counter(1, now)];
      }
      v := store[key].count;
      if v == 1 {
        store := store[key := store[key].(expiresAt := now + ttl)];
        assert store == before[key := Counter(1, now + ttl)];
      }
    }
  }

  // ---------------------------------------------------------------------------------------
  // Allow
  // ---------------------------------------------------------------------------------------

  /** `remaining` is -1 when no count is known. */
  datatype Decision = Decision(allowed: bool, remaining: int, retryAfterMs: nat)

  const UNCOUNTED := Decision(true, -1, 0)

  function Decide(limit: nat, count: nat): Decision {
    if count > limit then Decision(false, 0, 1000) else Decision(true, limit - count, 0)
  }

  /** How a round trip to Redis ends: with an answer, or with an error before or after the script ran. */
  datatype Fate = Answered | LostBefore | LostAfter

  class Limiter {
    const client: Redis?
    const prefix: string

    constructor (client: Redis?, prefix: string)
      ensures this.client == client && this.prefix == prefix
    {
      this.client, this.prefix := client, prefix;
    }

    /** A disabled limiter, a limit of zero or less and a Redis error all let the request through. */
    method Allow(id: nat, limitRPS: int, clientMs: nat, serverMs: nat, fate: Fate) returns (d: Decision)
      requires client != null ==> forall k | k in client.store :: client.store[k].count >= 1
      modifies client
      ensures client == null || limitRPS <= 0 || fate != Answered ==> d == Decision(true, -1, 0)
      ensures client != null && limitRPS <= 0 ==> client.store == old(client.store)
      ensures client != null && limitRPS > 0 ==>
                var key := BucketKey(prefix, id, clientMs / 1000);
                var (store, count) := Script(old(client.store), key, TTL_MS, serverMs);
                && client.store == (if fate == LostBefore then old(client.store) else store)
                && d == (if fate == Answered then Decide(limitRPS, count) else UNCOUNTED)
      ensures client != null ==> forall k | k in client.store :: client.store[k].count >= 1
    {
      if client == null || limitRPS <= 0 {
        return Decision(true, -1, 0);
      }
      var key := BucketKey(prefix, id, clientMs / 1000);
      if fate == LostBefore {
        return Decision(true, -1, 0);
      }
      var count := client.Eval(key, TTL_MS, serverMs);
      if fate == LostAfter {
        return Decision(true, -1, 0);
      }
      if count > limitRPS {
        return Decision(false, 0, 1000);
      }
      return Decision(true, limitRPS - count, 0);
    }
  }

  // ---------------------------------------------------------------------------------------
  // Runs
  // ---------------------------------------------------------------------------------------

  /** One call, in the order in which Redis sees them, and how its round trip ends. */
  datatype Attempt = Attempt(id: nat, limit: int, clientMs: nat, serverMs: nat, fate: Fate) {
    function Second(): nat { clientMs / 1000 }
  }

  /** The store after the first `n` attempts; an unlimited key and a lost request do not touch it. */
  function StoreAfter(prefix: string, run: seq<Attempt>, n: nat): Store
    requires n <= |run|
  {
    if n == 0 then map[]
    else
      var a := run[n - 1];
      var before := StoreAfter(prefix, run, n - 1);
      if a.limit <= 0 || a.fate == LostBefore then before
      else Script(before, BucketKey(prefix, a.id, a.Second()), TTL_MS, a.serverMs).0
  }

  /** What `Allow` decides. */
  function DecisionAt(prefix: string, run: seq<Attempt>, i: nat): Decision
    requires i < |run|
  {
    var a := run[i];
    if a.limit <= 0 || a.fate != Answered then UNCOUNTED
    else Decide(a.limit, Script(StoreAfter(prefix, run, i), BucketKey(prefix, a.id, a.Second()), TTL_MS, a.serverMs).1)
  }

  /** How many numbers below `n` satisfy `p`. */
  ghost function Count(n: nat, p: nat -> bool): nat {
    if n == 0 then 0 else Count(n - 1, p) + if p(n - 1) then 1 else 0
  }

  ghost predicate InWindow(a: Attempt, id: nat, second: nat) { a.id == id && a.Second() == second }

  ghost predicate Reaches(a: Attempt, id: nat, second: nat) { InWindow(a, id, second) && a.fate != LostBefore }

  /** The attempts of a window that Redis has counted. */
  ghost function Reached(run: seq<Attempt>, n: nat, id: nat, second: nat): nat {
    Count(n, (i: nat) => i < |run| && Reaches(run[i], id, second))
  }

  ghost function Attempts(run: seq<Attempt>, id: nat, second: nat): nat {
    Count(|run|, (i: nat) => i < |run| && InWindow(run[i], id, second))
  }

  /** Let through because Redis said so. */
  ghost predicate Granted(prefix: string, run: seq<Attempt>, i: nat) {
    i < |run| && run[i].fate == Answered && DecisionAt(prefix, run, i).allowed
  }

  ghost function GrantedIn(prefix: string, run: seq<Attempt>, id: nat, second: nat): nat -> bool {
    (i: nat) => Granted(prefix, run, i) && InWindow(run[i], id, second)
  }

  /** All that a window lets through, counted or not. */
  ghost function Admitted(prefix: string, run: seq<Attempt>, id: nat, second: nat): nat {
    Count(|run|, (i: nat) => i < |run| && InWindow(run[i], id, second) && DecisionAt(prefix, run, i).allowed)
  }

  /** Calls for key `id` the client made in `[fromMs, fromMs + lengthMs)` that were granted. */
  ghost function GrantedBetween(prefix: string, run: seq<Attempt>, id: nat, fromMs: nat, lengthMs: nat): nat {
    Count(|run|, (i: nat) =>
      Granted(prefix, run, i) && run[i].id == id && fromMs <= run[i].clientMs < fromMs + lengthMs)
  }

  /** Server time never goes back, and gains at most `drift` ms on client time within one window of the key. */
  ghost predicate Steady(run: seq<Attempt>, id: nat, drift: int) {
    && (forall i, j | 0 <= i < j < |run| :: run[i].serverMs <= run[j].serverMs)
    && (forall i, j | 0 <= i < j < |run| && run[i].id == run[j].id == id && run[i].Second() == run[j].Second() ::
          (run[j].serverMs - run[j].clientMs) - (run[i].serverMs - run[i].clientMs) <= drift)
  }

  /** The drift up to which a counter outlives its window: the time to live less the 999 ms a window can span. */
  const MAX_DRIFT := TTL_MS - 999

  ghost predicate LimitedBy(run: seq<Attempt>, id: nat, limit: nat) {
    limit >= 1 && forall i | 0 <= i < |run| && run[i].id == id :: run[i].limit == limit
  }

  ghost predicate AllAnswered(run: seq<Attempt>, id: nat) {
    forall i | 0 <= i < |run| && run[i].id == id :: run[i].fate == Answered
  }

  /** Attempt `f` is the first of its window to reach Redis. */
  ghost predicate IsFirst(run: seq<Attempt>, f: nat, id: nat, second: nat) {
    f < |run| && Reaches(run[f], id, second) && Reached(run, f, id, second) == 0
  }

  /** The time to live began with the first of the window's attempts. */
  ghost predicate StartedIn(run: seq<Attempt>, n: nat, id: nat, second: nat, expiresAt: nat) {
    exists f: nat | f < n <= |run| :: IsFirst(run, f, id, second) && expiresAt == run[f].serverMs + TTL_MS
  }

  /** The time to live outlasts the window: a counter in use never starts again at one. */
  lemma WindowStaysLive(prefix: string, run: seq<Attempt>, n: nat, id: nat, second: nat)
    requires n < |run| && Steady(run, id, MAX_DRIFT) && InWindow(run[n], id, second)
    requires var store, key := StoreAfter(prefix, run, n), BucketKey(prefix, id, second);
             key in store ==> StartedIn(run, n, id, second, store[key].expiresAt)
    ensures BucketKey(prefix, id, second) in StoreAfter(prefix, run, n)
       ==> Live(StoreAfter(prefix, run, n), BucketKey(prefix, id, second), run[n].serverMs)
  {
  }

  ghost predicate CountsSoFar(prefix: string, run: seq<Attempt>, n: nat, id: nat, second: nat)
    requires n <= |run|
  {
    var store, key := StoreAfter(prefix, run, n), BucketKey(prefix, id, second);
    if Reached(run, n, id, second) == 0 then key !in store
    else
      && key in store && store[key].count == Reached(run, n, id, second)
      && StartedIn(run, n, id, second, store[key].expiresAt)
  }

  lemma CountedNext(prefix: string, run: seq<Attempt>, n: nat, id: nat, limit: nat, second: nat)
    requires n < |run| && Steady(run, id, MAX_DRIFT) && LimitedBy(run, id, limit)
    requires Reaches(run[n], id, second) && CountsSoFar(prefix, run, n, id, second)
    ensures CountsSoFar(prefix, run, n + 1, id, second)
  {
    WindowStaysLive(prefix, run, n, id, second);
    assert Reached(run, n + 1, id, second) == Reached(run, n, id, second) + 1;
    var key := BucketKey(prefix, id, second);
    if Reached(run, n, id, second) == 0 {
      assert IsFirst(run, n, id, second);
      assert StartedIn(run, n + 1, id, second, run[n].serverMs + TTL_MS);
    } else {
      var f: nat :| f < n && IsFirst(run, f, id, second)
                    && StoreAfter(prefix, run, n)[key].expiresAt == run[f].serverMs + TTL_MS;
      assert StartedIn(run, n + 1, id, second, run[f].serverMs + TTL_MS);
    }
  }

  lemma UncountedNext(prefix: string, run: seq<Attempt>, n: nat, id: nat, second: nat)
    requires n < |run| && !Reaches(run[n], id, second) && CountsSoFar(prefix, run, n, id, second)
    ensures CountsSoFar(prefix, run, n + 1, id, second)
  {
    var a := run[n];
    if BucketKey(prefix, a.id, a.Second()) == BucketKey(prefix, id, second) {
      BucketKeyIsInjective(prefix, a.id, a.Second(), id, second);
    }
    assert Reached(run, n + 1, id, second) == Reached(run, n, id, second);
  }

  /** The counter of a window holds the number of attempts that reached Redis and expires 1100 ms after the first. */
  lemma {:induction false} CounterCountsTheWindow(prefix: string, run: seq<Attempt>, n: nat, id: nat, limit: nat,
                                                  second: nat)
    requires n <= |run| && Steady(run, id, MAX_DRIFT) && LimitedBy(run, id, limit)
    ensures CountsSoFar(prefix, run, n, id, second)
  {
    if n > 0 {
      CounterCountsTheWindow(prefix, run, n - 1, id, limit, second);
      if Reaches(run[n - 1], id, second) {
        CountedNext(prefix, run, n - 1, id, limit, second);
      } else {
        UncountedNext(prefix, run, n - 1, id, second);
      }
    }
  }

  /** The j-th attempt of a window to reach Redis, if answered, is let through exactly when j is at most the limit. */
  lemma AllowedIffUnderLimit(prefix: string, run: seq<Attempt>, i: nat, id: nat, limit: nat)
    requires i < |run| && Steady(run, id, MAX_DRIFT) && LimitedBy(run, id, limit) && run[i].id == id
    requires run[i].fate == Answered
    ensures var j := Reached(run, i, id, run[i].Second()) + 1;
            DecisionAt(prefix, run, i) == if j <= limit then Decision(true, limit - j, 0) else Decision(false, 0, 1000)
  {
    CounterCountsTheWindow(prefix, run, i, id, limit, run[i].Second());
    WindowStaysLive(prefix, run, i, id, run[i].Second());
  }

  function Min(a: nat, b: nat): nat { if a <= b then a else b }

  lemma {:induction false} GrantedUpTo(prefix: string, run: seq<Attempt>, n: nat, id: nat, limit: nat, second: nat)
    requires n <= |run| && Steady(run, id, MAX_DRIFT) && LimitedBy(run, id, limit)
    ensures Count(n, GrantedIn(prefix, run, id, second)) <= Min(Reached(run, n, id, second), limit)
    ensures AllAnswered(run, id) ==>
              Count(n, GrantedIn(prefix, run, id, second)) == Min(Reached(run, n, id, second), limit)
  {
    if n > 0 {
      GrantedUpTo(prefix, run, n - 1, id, limit, second);
      var before, granted := Reached(run, n - 1, id, second), GrantedIn(prefix, run, id, second)(n - 1);
      if !Reaches(run[n - 1], id, second) {
        assert Reached(run, n, id, second) == before && !granted;
      } else if run[n - 1].fate == LostAfter {
        assert Reached(run, n, id, second) == before + 1 && !granted;
      } else {
        AllowedIffUnderLimit(prefix, run, n - 1, id, limit);
        assert Reached(run, n, id, second) == before + 1 && granted == (before + 1 <= limit);
      }
    }
  }

  /** Whatever Redis fails to answer, no window is granted more than the limit. */
  lemma NeverGrantsMoreThanTheLimit(prefix: string, run: seq<Attempt>, id: nat, limit: nat, second: nat)
    requires Steady(run, id, MAX_DRIFT) && LimitedBy(run, id, limit)
    ensures Count(|run|, GrantedIn(prefix, run, id, second)) <= limit
  {
    GrantedUpTo(prefix, run, |run|, id, limit, second);
  }

  lemma {:induction false} SameCount(n: nat, p: nat -> bool, q: nat -> bool)
    requires forall i: nat | i < n :: p(i) == q(i)
    ensures Count(n, p) == Count(n, q)
  {
    if n > 0 {
      SameCount(n - 1, p, q);
    }
  }

  lemma {:induction false} CountAtMost(n: nat, p: nat -> bool, q: nat -> bool, r: nat -> bool)
    requires forall i: nat | i < n && p(i) :: q(i) || r(i)
    ensures Count(n, p) <= Count(n, q) + Count(n, r)
  {
    if n > 0 {
      CountAtMost(n - 1, p, q, r);
    }
  }

  ghost predicate AdmitsExactly(prefix: string, run: seq<Attempt>, id: nat, limit: nat, second: nat) {
    Admitted(prefix, run, id, second) == Min(Attempts(run, id, second), limit)
  }

  /** When Redis answers, each one-second window admits exactly the smaller of the limit and its attempts. */
  lemma WindowAdmitsExactly(prefix: string, run: seq<Attempt>, id: nat, limit: nat, second: nat)
    requires Steady(run, id, MAX_DRIFT) && LimitedBy(run, id, limit) && AllAnswered(run, id)
    ensures AdmitsExactly(prefix, run, id, limit, second)
  {
    GrantedUpTo(prefix, run, |run|, id, limit, second);
    SameCount(|run|, GrantedIn(prefix, run, id, second),
              (i: nat) => i < |run| && InWindow(run[i], id, second) && DecisionAt(prefix, run, i).allowed);
    SameCount(|run|, (i: nat) => i < |run| && Reaches(run[i], id, second),
              (i: nat) => i < |run| && InWindow(run[i], id, second));
  }

  /** The limiter fails open: an unlimited key, and a call Redis does not answer, are let through uncounted. */
  lemma FailsOpen(prefix: string, run: seq<Attempt>, i: nat)
    requires i < |run| && (run[i].limit <= 0 || run[i].fate != Answered)
    ensures DecisionAt(prefix, run, i) == Decision(true, -1, 0)
  {
  }

  lemma {:induction false} CountBoth(n: nat, p: nat -> bool, q: nat -> bool, r: nat -> bool)
    requires forall i: nat | i < n :: p(i) == (q(i) || r(i)) && !(q(i) && r(i))
    ensures Count(n, p) == Count(n, q) + Count(n, r)
  {
    if n > 0 {
      CountBoth(n - 1, p, q, r);
    }
  }

  ghost function UnansweredIn(run: seq<Attempt>, id: nat, second: nat): nat -> bool {
    (i: nat) => i < |run| && InWindow(run[i], id, second) && run[i].fate != Answered
  }

  /**
   A window lets through exactly what is granted and what Redis does not answer: at most the limit
   and the unanswered calls.
   */
  lemma OnlyUnansweredCallsAreExtra(prefix: string, run: seq<Attempt>, id: nat, limit: nat, second: nat)
    requires Steady(run, id, MAX_DRIFT) && LimitedBy(run, id, limit)
    ensures Admitted(prefix, run, id, second)
         == Count(|run|, GrantedIn(prefix, run, id, second)) + Count(|run|, UnansweredIn(run, id, second))
    ensures Admitted(prefix, run, id, second) <= limit + Count(|run|, UnansweredIn(run, id, second))
  {
    forall i: nat | i < |run| && run[i].fate != Answered
      ensures DecisionAt(prefix, run, i).allowed
    {
      FailsOpen(prefix, run, i);
    }
    CountBoth(|run|, (i: nat) => i < |run| && InWindow(run[i], id, second) && DecisionAt(prefix, run, i).allowed,
              GrantedIn(prefix, run, id, second), UnansweredIn(run, id, second));
    NeverGrantsMoreThanTheLimit(prefix, run, id, limit, second);
  }

  // ---------------------------------------------------------------------------------------
  // Any interval
  // ---------------------------------------------------------------------------------------

  lemma {:induction false} NoneCounted(n: nat, p: nat -> bool)
    requires forall i: nat | i < n :: !p(i)
    ensures Count(n, p) == 0
  {
    if n > 0 {
      NoneCounted(n - 1, p);
    }
  }

  /** Granted calls whose second lies in `[lo, hi)`. */
  ghost function GrantedWithin(prefix: string, run: seq<Attempt>, id: nat, lo: nat, hi: nat): nat -> bool {
    (i: nat) => Granted(prefix, run, i) && run[i].id == id && lo <= run[i].Second() < hi
  }

  lemma {:induction false} WindowsGrant(prefix: string, run: seq<Attempt>, id: nat, limit: nat, lo: nat, hi: nat)
    requires lo <= hi && Steady(run, id, MAX_DRIFT) && LimitedBy(run, id, limit)
    ensures Count(|run|, GrantedWithin(prefix, run, id, lo, hi)) <= limit * (hi - lo)
    decreases hi
  {
    if lo == hi {
      NoneCounted(|run|, GrantedWithin(prefix, run, id, lo, hi));
    } else {
      WindowsGrant(prefix, run, id, limit, lo, hi - 1);
      NeverGrantsMoreThanTheLimit(prefix, run, id, limit, hi - 1);
      CountAtMost(|run|, GrantedWithin(prefix, run, id, lo, hi), GrantedWithin(prefix, run, id, lo, hi - 1),
                  GrantedIn(prefix, run, id, hi - 1));
      assert limit * (hi - lo) == limit * (hi - 1 - lo) + limit;
    }
  }

  lemma Times(limit: nat, a: nat, b: nat)
    requires a <= b
    ensures limit * a <= limit * b
  {
  }

  lemma SecondsTouched(prefix: string, run: seq<Attempt>, id: nat, limit: nat, fromMs: nat, lengthMs: nat)
    requires Steady(run, id, MAX_DRIFT) && LimitedBy(run, id, limit) && lengthMs >= 1
    ensures GrantedBetween(prefix, run, id, fromMs, lengthMs) <= limit * ((lengthMs - 1 + 999) / 1000 + 1)
  {
    var lo, hi := fromMs / 1000, (fromMs + lengthMs - 1) / 1000 + 1;
    CountAtMost(|run|,
                (i: nat) => Granted(prefix, run, i) && run[i].id == id && fromMs <= run[i].clientMs < fromMs + lengthMs,
                GrantedWithin(prefix, run, id, lo, hi), (i: nat) => false);
    NoneCounted(|run|, (i: nat) => false);
    WindowsGrant(prefix, run, id, limit, lo, hi);
    Times(limit, hi - lo, (lengthMs - 1 + 999) / 1000 + 1);
  }

  /**
   Any interval of the client's clock is granted at most the limit for each second it can touch: for
   one second, twice the limit.
   */
  lemma IntervalBound(prefix: string, run: seq<Attempt>, id: nat, limit: nat, fromMs: nat, lengthMs: nat)
    requires Steady(run, id, MAX_DRIFT) && LimitedBy(run, id, limit) && lengthMs >= 1
    ensures GrantedBetween(prefix, run, id, fromMs, lengthMs) <= limit * ((lengthMs - 1 + 999) / 1000 + 1)
    ensures GrantedBetween(prefix, run, id, fromMs, 1000) <= 2 * limit
  {
    SecondsTouched(prefix, run, id, limit, fromMs, lengthMs);
    SecondsTouched(prefix, run, id, limit, fromMs, 1000);
  }

  function BurstAttempt(id: nat, limit: nat, early: bool): Attempt {
    if early then Attempt(id, limit, 999, 999, Answered) else Attempt(id, limit, 1000, 1000, Answered)
  }

  /** `limit` calls at the end of one second and as many at the start of the next. */
  ghost predicate IsBurst(run: seq<Attempt>, id: nat, limit: nat) {
    |run| == 2 * limit && forall i | 0 <= i < |run| :: run[i] == BurstAttempt(id, limit, i < limit)
  }

  lemma {:induction false} BurstWindow(run: seq<Attempt>, limit: nat, id: nat, n: nat)
    requires n <= |run| && IsBurst(run, id, limit)
    ensures Reached(run, n, id, 0) <= Min(n, limit)
    ensures Reached(run, n, id, 1) <= (if n <= limit then 0 else n - limit)
  {
    if n > 0 {
      BurstWindow(run, limit, id, n - 1);
    }
  }

  lemma BurstGranted(prefix: string, run: seq<Attempt>, i: nat, id: nat, limit: nat)
    requires i < |run| && limit >= 1 && IsBurst(run, id, limit) && Steady(run, id, MAX_DRIFT)
    ensures Granted(prefix, run, i)
  {
    AllowedIffUnderLimit(prefix, run, i, id, limit);
    BurstWindow(run, limit, id, i);
  }

  lemma {:induction false} AllCounted(n: nat, p: nat -> bool)
    requires forall i: nat | i < n :: p(i)
    ensures Count(n, p) == n
  {
    if n > 0 {
      AllCounted(n - 1, p);
    }
  }

  /** The bound for one second is met: twice the limit within two milliseconds, for every limit. */
  lemma BurstAcrossTheBoundary(prefix: string, id: nat, limit: nat, run: seq<Attempt>)
    requires limit >= 1 && IsBurst(run, id, limit)
    ensures Steady(run, id, 0) && LimitedBy(run, id, limit)
    ensures GrantedBetween(prefix, run, id, 999, 2) == 2 * limit
  {
    assert Steady(run, id, 0);
    forall i: nat | i < |run|
      ensures Granted(prefix, run, i)
    {
      BurstGranted(prefix, run, i, id, limit);
    }
    AllCounted(|run|, (i: nat) => Granted(prefix, run, i) && run[i].id == id && 999 <= run[i].clientMs < 999 + 2);
  }

  // ---------------------------------------------------------------------------------------
  // How far the clocks may drift
  // ---------------------------------------------------------------------------------------

  /** How often a window's counter can be set up when the server gains `drift` ms on the client in it. */
  function MaxLives(drift: nat): nat { (999 + drift) / (TTL_MS + 1) + 1 }

  /** The lives of a counter: how many, and the attempts that began the first and the latest one. */
  datatype Lives = Lives(count: nat, first: nat, latest: nat)

  ghost predicate HasLived(prefix: string, run: seq<Attempt>, n: nat, id: nat, limit: nat, second: nat, l: Lives)
    requires n <= |run|
  {
    var store, key := StoreAfter(prefix, run, n), BucketKey(prefix, id, second);
    var granted := Count(n, GrantedIn(prefix, run, id, second));
    if l.count == 0 then key !in store && granted == 0
    else
      && l.first <= l.latest < n && InWindow(run[l.first], id, second) && InWindow(run[l.latest], id, second)
      && key in store && store[key].count >= 1 && store[key].expiresAt == run[l.latest].serverMs + TTL_MS
      && run[l.latest].serverMs - run[l.first].serverMs >= (TTL_MS + 1) * (l.count - 1)
      && granted <= limit * (l.count - 1) + Min(store[key].count, limit)
  }

  /** An attempt of another window, or one that does not reach Redis. */
  lemma OtherAttempt(prefix: string, run: seq<Attempt>, n: nat, id: nat, limit: nat, second: nat, l: Lives)
    requires n < |run| && HasLived(prefix, run, n, id, limit, second, l) && !Reaches(run[n], id, second)
    ensures HasLived(prefix, run, n + 1, id, limit, second, l)
  {
    var a := run[n];
    assert !GrantedIn(prefix, run, id, second)(n);
    if !InWindow(a, id, second) && BucketKey(prefix, a.id, a.Second()) == BucketKey(prefix, id, second) {
      BucketKeyIsInjective(prefix, a.id, a.Second(), id, second);
    }
  }

  lemma GrantedWhenCounted(prefix: string, run: seq<Attempt>, n: nat, id: nat, limit: nat, second: nat)
    requires n < |run| && LimitedBy(run, id, limit) && Reaches(run[n], id, second)
    ensures var key := BucketKey(prefix, id, second);
            var (store, count) := Script(StoreAfter(prefix, run, n), key, TTL_MS, run[n].serverMs);
            && StoreAfter(prefix, run, n + 1) == store
            && (GrantedIn(prefix, run, id, second)(n) ==> count <= limit)
  {
  }

  lemma LifeGoesOn(prefix: string, run: seq<Attempt>, n: nat, id: nat, limit: nat, second: nat, l: Lives)
    requires n < |run| && LimitedBy(run, id, limit) && Reaches(run[n], id, second) && l.count > 0
    requires HasLived(prefix, run, n, id, limit, second, l)
    requires Live(StoreAfter(prefix, run, n), BucketKey(prefix, id, second), run[n].serverMs)
    ensures HasLived(prefix, run, n + 1, id, limit, second, l)
  {
    GrantedWhenCounted(prefix, run, n, id, limit, second);
  }

  lemma FirstLife(prefix: string, run: seq<Attempt>, n: nat, id: nat, limit: nat, second: nat, l: Lives)
    requires n < |run| && LimitedBy(run, id, limit) && Reaches(run[n], id, second) && l.count == 0
    requires HasLived(prefix, run, n, id, limit, second, l)
    ensures HasLived(prefix, run, n + 1, id, limit, second, Lives(1, n, n))
  {
    GrantedWhenCounted(prefix, run, n, id, limit, second);
  }

  lemma OneMoreTime(a: nat, n: nat)
    requires n >= 1
    ensures a * n == a * (n - 1) + a
  {
  }

  lemma NextLife(prefix: string, run: seq<Attempt>, n: nat, id: nat, limit: nat, second: nat, l: Lives)
    requires n < |run| && LimitedBy(run, id, limit) && Reaches(run[n], id, second) && l.count > 0
    requires HasLived(prefix, run, n, id, limit, second, l)
    requires !Live(StoreAfter(prefix, run, n), BucketKey(prefix, id, second), run[n].serverMs)
    ensures HasLived(prefix, run, n + 1, id, limit, second, Lives(l.count + 1, l.first, n))
  {
    GrantedWhenCounted(prefix, run, n, id, limit, second);
    OneMoreTime(limit, l.count);
    OneMoreTime(TTL_MS + 1, l.count);
    var grants := GrantedIn(prefix, run, id, second);
    assert Count(n + 1, grants) <= Count(n, grants) + 1;
    assert run[n].serverMs - run[l.latest].serverMs >= TTL_MS + 1;
  }

  /** An attempt that reaches Redis goes on with the life of the counter, or begins one. */
  lemma CountedAttempt(prefix: string, run: seq<Attempt>, n: nat, id: nat, limit: nat, second: nat, l: Lives)
    returns (l': Lives)
    requires n < |run| && LimitedBy(run, id, limit) && Reaches(run[n], id, second)
    requires HasLived(prefix, run, n, id, limit, second, l)
    ensures HasLived(prefix, run, n + 1, id, limit, second, l')
  {
    if l.count == 0 {
      FirstLife(prefix, run, n, id, limit, second, l);
      l' := Lives(1, n, n);
    } else if Live(StoreAfter(prefix, run, n), BucketKey(prefix, id, second), run[n].serverMs) {
      LifeGoesOn(prefix, run, n, id, limit, second, l);
      l' := l;
    } else {
      NextLife(prefix, run, n, id, limit, second, l);
      l' := Lives(l.count + 1, l.first, n);
    }
  }

  lemma NextAttempt(prefix: string, run: seq<Attempt>, n: nat, id: nat, limit: nat, second: nat, l: Lives)
    returns (l': Lives)
    requires n < |run| && LimitedBy(run, id, limit) && HasLived(prefix, run, n, id, limit, second, l)
    ensures HasLived(prefix, run, n + 1, id, limit, second, l')
  {
    if Reaches(run[n], id, second) {
      l' := CountedAttempt(prefix, run, n, id, limit, second, l);
    } else {
      OtherAttempt(prefix, run, n, id, limit, second, l);
      l' := l;
    }
  }

  lemma NoLifeYet(prefix: string, run: seq<Attempt>, id: nat, limit: nat, second: nat)
    ensures HasLived(prefix, run, 0, id, limit, second, Lives(0, 0, 0))
  {
  }

  lemma {:induction false} CounterLives(prefix: string, run: seq<Attempt>, n: nat, id: nat, limit: nat, second: nat)
    returns (l: Lives)
    requires n <= |run| && LimitedBy(run, id, limit)
    ensures HasLived(prefix, run, n, id, limit, second, l)
  {
    if n == 0 {
      NoLifeYet(prefix, run, id, limit, second);
      l := Lives(0, 0, 0);
    } else {
      var before := CounterLives(prefix, run, n - 1, id, limit, second);
      l := NextAttempt(prefix, run, n - 1, id, limit, second, before);
    }
  }

  lemma LivesTakeTime(run: seq<Attempt>, id: nat, second: nat, drift: nat, i: nat, j: nat)
    requires i <= j < |run| && Steady(run, id, drift) && InWindow(run[i], id, second) && InWindow(run[j], id, second)
    ensures run[j].serverMs - run[i].serverMs <= 999 + drift
  {
  }

  lemma GrantsOfLives(prefix: string, run: seq<Attempt>, n: nat, id: nat, limit: nat, second: nat, l: Lives)
    requires n <= |run| && HasLived(prefix, run, n, id, limit, second, l)
    ensures Count(n, GrantedIn(prefix, run, id, second)) <= limit * l.count
  {
    if l.count >= 1 {
      OneMoreTime(limit, l.count);
    }
  }

  lemma TimeOfLives(prefix: string, run: seq<Attempt>, n: nat, id: nat, limit: nat, second: nat, l: Lives, drift: nat)
    requires n <= |run| && HasLived(prefix, run, n, id, limit, second, l) && Steady(run, id, drift) && l.count >= 1
    ensures (TTL_MS + 1) * (l.count - 1) <= 999 + drift
  {
    LivesTakeTime(run, id, second, drift, l.first, l.latest);
  }

  lemma LivesAreBounded(drift: nat, count: nat)
    requires count >= 1 ==> (TTL_MS + 1) * (count - 1) <= 999 + drift
    ensures count <= MaxLives(drift)
  {
  }

  /** For any drift, a window grants at most the limit for every time its counter can be set up. */
  lemma DriftBound(prefix: string, run: seq<Attempt>, id: nat, limit: nat, second: nat, drift: nat)
    requires Steady(run, id, drift) && LimitedBy(run, id, limit)
    ensures Count(|run|, GrantedIn(prefix, run, id, second)) <= limit * MaxLives(drift)
  {
    var l := CounterLives(prefix, run, |run|, id, limit, second);
    GrantsOfLives(prefix, run, |run|, id, limit, second, l);
    if l.count >= 1 {
      TimeOfLives(prefix, run, |run|, id, limit, second, l, drift);
    }
    LivesAreBounded(drift, l.count);
    Times(limit, l.count, MaxLives(drift));
  }

  /** The window at its worst: `limit` calls each time the counter has just expired. */
  function DriftedAttempt(id: nat, limit: nat, i: nat): Attempt
    requires limit >= 1
  {
    Attempt(id, limit, if i < limit then 0 else 999, (TTL_MS + 1) * (i / limit), Answered)
  }

  ghost predicate IsDrifted(run: seq<Attempt>, id: nat, limit: nat, drift: nat)
    requires limit >= 1
  {
    |run| == limit * MaxLives(drift) && forall i | 0 <= i < |run| :: run[i] == DriftedAttempt(id, limit, i)
  }

  lemma DivisionIsUnique(n: nat, limit: nat, q: nat, r: nat)
    requires limit >= 1 && r < limit && n == q * limit + r
    ensures n / limit == q && n % limit == r
  {
    if n / limit > q {
      Times(limit, q + 1, n / limit);
    } else if n / limit < q {
      Times(limit, n / limit + 1, q);
    }
  }

  lemma StepOfDivision(n: nat, limit: nat)
    requires limit >= 1 && n >= 1
    ensures if n % limit == 0 then n / limit == (n - 1) / limit + 1 && (n - 1) % limit == limit - 1
            else n / limit == (n - 1) / limit && n % limit == (n - 1) % limit + 1
  {
    var q, r := (n - 1) / limit, (n - 1) % limit;
    assert n - 1 == q * limit + r;
    if r + 1 == limit {
      assert n == (q + 1) * limit;
      DivisionIsUnique(n, limit, q + 1, 0);
    } else {
      DivisionIsUnique(n, limit, q, r + 1);
    }
  }

  lemma {:induction false} DriftedIsCounted(prefix: string, run: seq<Attempt>, id: nat, limit: nat, drift: nat, n: nat)
    requires limit >= 1 && IsDrifted(run, id, limit, drift) && n <= |run|
    ensures var store, key := StoreAfter(prefix, run, n), BucketKey(prefix, id, 0);
            if n == 0 then key !in store
            else key in store
                 && store[key] == Counter((n - 1) % limit + 1, (TTL_MS + 1) * ((n - 1) / limit) + TTL_MS)
    ensures forall i | 0 <= i < n :: DecisionAt(prefix, run, i).allowed
  {
    if n > 0 {
      DriftedIsCounted(prefix, run, id, limit, drift, n - 1);
      assert run[n - 1] == DriftedAttempt(id, limit, n - 1) && run[n - 1].Second() == 0;
      if n > 1 {
        StepOfDivision(n - 1, limit);
      } else {
        DivisionIsUnique(0, limit, 0, 0);
      }
    }
  }

  lemma QuotientsGrow(limit: nat, i: nat, j: nat)
    requires limit >= 1 && i <= j
    ensures i / limit <= j / limit
  {
    var q, r := i / limit, j / limit;
    assert i == q * limit + i % limit && j == r * limit + j % limit;
    if q > r {
      Times(limit, r + 1, q);
    }
  }

  lemma QuotientBelow(limit: nat, j: nat, bound: nat)
    requires limit >= 1 && j < limit * bound
    ensures j / limit < bound
  {
    var r := j / limit;
    assert j == r * limit + j % limit;
    if r >= bound {
      Times(limit, bound, r);
    }
  }

  lemma DriftedServerTimes(limit: nat, drift: nat, i: nat, j: nat)
    requires limit >= 1 && i <= j < limit * MaxLives(drift)
    ensures i / limit <= j / limit < MaxLives(drift)
    ensures i < limit ==> i / limit == 0
  {
    QuotientsGrow(limit, i, j);
    QuotientBelow(limit, j, MaxLives(drift));
    if i < limit {
      DivisionIsUnique(i, limit, 0, i);
    }
  }

  lemma DriftedDistance(p: nat, q: nat, drift: nat)
    requires p <= q < MaxLives(drift)
    ensures (TTL_MS + 1) * q - (TTL_MS + 1) * p <= (if p == 0 then 999 + drift else drift)
    ensures (TTL_MS + 1) * p <= (TTL_MS + 1) * q && (p == q ==> (TTL_MS + 1) * q == (TTL_MS + 1) * p)
  {
  }

  lemma DriftedPair(id: nat, limit: nat, drift: nat, i: nat, j: nat)
    requires limit >= 1 && i <= j < limit * MaxLives(drift)
    ensures var a, b := DriftedAttempt(id, limit, i), DriftedAttempt(id, limit, j);
            a.serverMs <= b.serverMs && (b.serverMs - b.clientMs) - (a.serverMs - a.clientMs) <= drift
  {
    DriftedServerTimes(limit, drift, i, j);
    if i >= limit {
      DriftedServerTimes(limit, drift, limit, i);
      DivisionIsUnique(limit, limit, 1, 0);
    } else if j < limit {
      DivisionIsUnique(j, limit, 0, j);
    }
    DriftedDistance(i / limit, j / limit, drift);
  }

  lemma DriftedIsSteady(run: seq<Attempt>, id: nat, limit: nat, drift: nat)
    requires limit >= 1 && IsDrifted(run, id, limit, drift)
    ensures Steady(run, id, drift) && LimitedBy(run, id, limit) && AllAnswered(run, id)
    ensures forall i | 0 <= i < |run| :: InWindow(run[i], id, 0)
  {
    forall i, j | 0 <= i < j < |run|
      ensures run[i].serverMs <= run[j].serverMs
      ensures (run[j].serverMs - run[j].clientMs) - (run[i].serverMs - run[i].clientMs) <= drift
    {
      DriftedPair(id, limit, drift, i, j);
    }
  }

  lemma DriftedIsGranted(prefix: string, run: seq<Attempt>, id: nat, limit: nat, drift: nat)
    requires limit >= 1 && IsDrifted(run, id, limit, drift)
    ensures forall i: nat | i < |run| :: GrantedIn(prefix, run, id, 0)(i)
    ensures forall i: nat | i < |run| :: InWindow(run[i], id, 0) && DecisionAt(prefix, run, i).allowed
  {
    DriftedIsSteady(run, id, limit, drift);
    DriftedIsCounted(prefix, run, id, limit, drift, |run|);
  }

  /** The bound is met, for every key, limit and drift. */
  lemma DriftResetsTheWindow(prefix: string, run: seq<Attempt>, id: nat, limit: nat, drift: nat)
    requires limit >= 1 && IsDrifted(run, id, limit, drift)
    ensures Steady(run, id, drift) && LimitedBy(run, id, limit) && AllAnswered(run, id)
    ensures Admitted(prefix, run, id, 0) == Attempts(run, id, 0) == limit * MaxLives(drift)
    ensures Count(|run|, GrantedIn(prefix, run, id, 0)) == limit * MaxLives(drift)
  {
    DriftedIsSteady(run, id, limit, drift);
    DriftedIsGranted(prefix, run, id, limit, drift);
    AllCounted(|run|, (i: nat) => i < |run| && InWindow(run[i], id, 0) && DecisionAt(prefix, run, i).allowed);
    AllCounted(|run|, (i: nat) => i < |run| && InWindow(run[i], id, 0));
    AllCounted(|run|, GrantedIn(prefix, run, id, 0));
  }

  lemma DriftedRun(id: nat, limit: nat, drift: nat) returns (run: seq<Attempt>)
    requires limit >= 1
    ensures IsDrifted(run, id, limit, drift)
  {
    run := seq(limit * MaxLives(drift), i requires 0 <= i => DriftedAttempt(id, limit, i));
  }

  /** No run with this drift, whatever Redis fails to answer, grants more than `most` in a window. */
  ghost predicate GrantsAtMost(prefix: string, drift: nat, id: nat, limit: nat, most: nat) {
    forall run, second: nat | Steady(run, id, drift) && LimitedBy(run, id, limit) ::
      Count(|run|, GrantedIn(prefix, run, id, second)) <= most
  }

  /** The tight bound: limit * ((999 + drift) / 1101 + 1) calls in a window, and for no key or limit fewer. */
  lemma GrantsAtMostIff(prefix: string, drift: nat, id: nat, limit: nat, most: nat)
    requires limit >= 1
    ensures GrantsAtMost(prefix, drift, id, limit, most) <==> most >= limit * MaxLives(drift)
  {
    if most >= limit * MaxLives(drift) {
      forall run, second: nat | Steady(run, id, drift) && LimitedBy(run, id, limit)
        ensures Count(|run|, GrantedIn(prefix, run, id, second)) <= most
      {
        DriftBound(prefix, run, id, limit, second, drift);
      }
    } else {
      var run := DriftedRun(id, limit, drift);
      DriftResetsTheWindow(prefix, run, id, limit, drift);
      assert Count(|run|, GrantedIn(prefix, run, id, 0)) > most;
    }
  }

  /** Every run in which Redis answers and the clocks drift by at most `drift` admits exactly, in every window. */
  ghost predicate ExactUpTo(prefix: string, drift: int, id: nat, limit: nat) {
    forall run, second: nat | Steady(run, id, drift) && LimitedBy(run, id, limit) && AllAnswered(run, id) ::
      AdmitsExactly(prefix, run, id, limit, second)
  }

  /** For every key and every limit: admission is exact if and only if the drift is bounded by 101 ms. */
  lemma ExactIff(prefix: string, drift: int, id: nat, limit: nat)
    requires limit >= 1
    ensures ExactUpTo(prefix, drift, id, limit) <==> drift <= 101
  {
    if drift <= 101 {
      forall run, second: nat | Steady(run, id, drift) && LimitedBy(run, id, limit) && AllAnswered(run, id)
        ensures AdmitsExactly(prefix, run, id, limit, second)
      {
        assert Steady(run, id, MAX_DRIFT);
        WindowAdmitsExactly(prefix, run, id, limit, second);
      }
    } else {
      var run := DriftedRun(id, limit, drift);
      DriftResetsTheWindow(prefix, run, id, limit, drift);
      LivesAreBounded(drift, 2);
      Times(limit, 2, MaxLives(drift));
      assert !AdmitsExactly(prefix, run, id, limit, 0);
    }
  }
}
