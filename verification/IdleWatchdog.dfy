/**
 The idle watchdog of streamCopy in proxy-gateway/internal/usecase/proxy_request.go. Times are
 nanoseconds.

 The copy loop stores the time of every chunk; a ticker goroutine compares it with the time of
 each tick. The two share one atomic variable, so a run is a sequence of stores and ticks.
 */
module IdleWatchdog {
  const MIN_TICK := 250_000_000

  /** A quarter of the idle limit, but not less than 250 ms. */
  function TickEvery(idle: nat): nat { if idle / 4 < MIN_TICK then MIN_TICK else idle / 4 }

  datatype Event = Activity(at: int) | Tick(at: int)

  function Step(s: (int, bool), idle: nat, e: Event): (int, bool) {
    match e
    case Activity(at) => (at, s.1)
    case Tick(at) => (s.0, s.1 || at - s.0 >= idle)
  }

  class Watchdog {
    const idle: nat
    var lastActivity: int
    var idleTimeout: bool // set together with cancelling the upstream request

    constructor (idle: nat, now: int)
      requires idle > 0
      ensures this.idle == idle && lastActivity == now && !idleTimeout
    {
      this.idle, lastActivity, idleTimeout := idle, now, false;
    }

    ghost function State(): (int, bool)
      reads this
    {
      (lastActivity, idleTimeout)
    }

    method OnChunk(now: int)
      modifies this`lastActivity
      ensures State() == Step(old(State()), idle, Activity(now))
    {
      lastActivity := now;
    }

    /** After it has fired the goroutine is gone. */
    method OnTick(now: int)
      modifies this`idleTimeout
      ensures State() == Step(old(State()), idle, Tick(now))
    {
      if !idleTimeout && now - lastActivity >= idle {
        idleTimeout := true;
      }
    }
  }

  /** The state after the first `n` events; the copy begins, and stores its first activity, at `start`. */
  function After(start: int, idle: nat, events: seq<Event>, n: nat): (int, bool)
    requires n <= |events|
  {
    if n == 0 then (start, false) else Step(After(start, idle, events, n - 1), idle, events[n - 1])
  }

  /** The last recorded activity before event `n`. */
  function LastActivity(start: int, events: seq<Event>, n: nat): int
    requires n <= |events|
  {
    if n == 0 then start
    else if events[n - 1].Activity? then events[n - 1].at
    else LastActivity(start, events, n - 1)
  }

  ghost predicate InOrder(start: int, events: seq<Event>) {
    && (forall i | 0 <= i < |events| :: start <= events[i].at)
    && (forall i, j | 0 <= i < j < |events| :: events[i].at <= events[j].at)
  }

  /** Some tick saw at least the idle limit pass without activity. */
  ghost predicate SawIdle(start: int, idle: nat, events: seq<Event>, i: nat)
    requires i < |events|
  {
    events[i].Tick? && events[i].at - LastActivity(start, events, i) >= idle
  }

  /** It fires exactly when a tick sees the idle limit pass without activity. */
  lemma {:induction false} FiresIffATickSawIdle(start: int, idle: nat, events: seq<Event>, n: nat)
    requires n <= |events|
    ensures After(start, idle, events, n).0 == LastActivity(start, events, n)
    ensures After(start, idle, events, n).1 <==> exists i | 0 <= i < n :: SawIdle(start, idle, events, i)
  {
    if n > 0 {
      FiresIffATickSawIdle(start, idle, events, n - 1);
      assert After(start, idle, events, n).1
        <==> After(start, idle, events, n - 1).1 || SawIdle(start, idle, events, n - 1);
    }
  }

  /** Every gap between recorded activities, from the start to the end of the run, is below the limit. */
  ghost predicate Lively(start: int, idle: nat, events: seq<Event>) {
    forall i | 0 <= i < |events| && (events[i].Activity? || i == |events| - 1) ::
      events[i].at - LastActivity(start, events, i) < idle
  }

  lemma {:induction false} GapCovers(start: int, events: seq<Event>, i: nat, j: nat)
    requires i <= j < |events| && InOrder(start, events)
    requires forall k | i <= k < j :: events[k].Tick?
    ensures LastActivity(start, events, j) == LastActivity(start, events, i)
  {
    if i < j {
      GapCovers(start, events, i, j - 1);
    }
  }

  /** The next activity at or after event `i`, or the last event of the run. */
  lemma NextActivity(events: seq<Event>, i: nat) returns (j: nat)
    requires i < |events|
    ensures i <= j < |events| && (events[j].Activity? || j == |events| - 1)
    ensures forall k | i <= k < j :: events[k].Tick?
    decreases |events| - i
  {
    if events[i].Activity? || i == |events| - 1 {
      j := i;
    } else {
      j := NextActivity(events, i + 1);
    }
  }

  /** A healthy stream is never cut off. */
  lemma NeverFiresWhileLively(start: int, idle: nat, events: seq<Event>)
    requires InOrder(start, events) && Lively(start, idle, events)
    ensures !After(start, idle, events, |events|).1
  {
    FiresIffATickSawIdle(start, idle, events, |events|);
    forall i | 0 <= i < |events|
      ensures !SawIdle(start, idle, events, i)
    {
      var j := NextActivity(events, i);
      GapCovers(start, events, i, j);
      assert events[i].at <= events[j].at;
    }
  }

  /** When the `k`-th tick of a ticker started at `t0` is due. */
  function Due(t0: int, idle: nat, k: nat): int { t0 + k * TickEvery(idle) }

  ghost predicate TickAt(events: seq<Event>, t: int) { exists i | 0 <= i < |events| :: events[i] == Tick(t) }

  /** No tick that is due before the last tick of the run is missing. */
  ghost predicate TicksOnTime(t0: int, idle: nat, events: seq<Event>) {
    forall i, k: nat | 0 <= i < |events| && events[i].Tick? && k >= 1 && Due(t0, idle, k) <= events[i].at ::
      TickAt(events, Due(t0, idle, k))
  }

  /** Nothing arrives after time `a`, the last activity before event `n`, or ever again. */
  ghost predicate StalledSince(start: int, events: seq<Event>, n: nat, a: int)
    requires n <= |events|
  {
    LastActivity(start, events, n) == a && forall i | n <= i < |events| :: events[i].Tick?
  }

  /** The first tick that is due at or after time `t`. */
  function DueTick(t0: int, tick: nat, t: int): int
    requires tick > 0
  {
    if t <= t0 + tick then t0 + tick else t0 + (t - t0 + tick - 1) / tick * tick
  }

  lemma Multiples(tick: nat, a: nat, b: nat)
    requires a <= b
    ensures a * tick <= b * tick
  {
  }

  lemma RoundUp(x: nat, tick: nat)
    requires tick > 0
    ensures var q := (x + tick - 1) / tick; x <= q * tick < x + tick
  {
    var q := (x + tick - 1) / tick;
    assert x + tick - 1 == q * tick + (x + tick - 1) % tick;
  }

  lemma DueTickIsNext(t0: int, tick: nat, t: int)
    requires tick > 0 && t >= t0
    ensures exists k: nat :: k >= 1 && DueTick(t0, tick, t) == t0 + k * tick
    ensures t <= DueTick(t0, tick, t)
    ensures t > t0 ==> DueTick(t0, tick, t) < t + tick
    ensures forall k: nat | k >= 1 && t <= t0 + k * tick :: DueTick(t0, tick, t) <= t0 + k * tick
  {
    if t <= t0 + tick {
      assert DueTick(t0, tick, t) == t0 + 1 * tick;
      forall k: nat | k >= 1
        ensures t0 + tick <= t0 + k * tick
      {
        Multiples(tick, 1, k);
      }
    } else {
      var q := (t - t0 + tick - 1) / tick;
      RoundUp(t - t0, tick);
      assert DueTick(t0, tick, t) == t0 + q * tick;
      forall k: nat | k >= 1 && t <= t0 + k * tick
        ensures q * tick <= k * tick
      {
        if k < q {
          Multiples(tick, k, q - 1);
        } else {
          Multiples(tick, q, k);
        }
      }
    }
  }

  /** The first tick due at or after `t` comes, and less than one interval after `t`. */
  lemma DueTickArrives(t0: int, idle: nat, events: seq<Event>, t: int, last: nat) returns (d: nat)
    requires idle > 0 && TicksOnTime(t0, idle, events) && t0 < t
    requires last < |events| && events[last].Tick? && events[last].at >= t + TickEvery(idle)
    ensures d < |events| && events[d].Tick? && t <= events[d].at < t + TickEvery(idle)
  {
    var tick := TickEvery(idle);
    DueTickIsNext(t0, tick, t);
    var due := DueTick(t0, tick, t);
    var k: nat :| k >= 1 && due == t0 + k * tick;
    assert Due(t0, idle, k) <= events[last].at;
    assert TickAt(events, due);
    d :| 0 <= d < |events| && events[d] == Tick(due);
  }

  lemma {:induction false} LastActivityGrows(start: int, events: seq<Event>, i: nat, j: nat)
    requires i <= j <= |events| && InOrder(start, events)
    ensures start <= LastActivity(start, events, i) <= LastActivity(start, events, j)
    ensures forall k | j <= k < |events| :: LastActivity(start, events, j) <= events[k].at
  {
    if i < j {
      LastActivityGrows(start, events, i, j - 1);
    } else if i > 0 {
      LastActivityGrows(start, events, i - 1, j - 1);
    }
  }

  /** A tick that late comes after the stall began. */
  lemma DueTickIsInTheStall(start: int, idle: nat, events: seq<Event>, n: nat, a: int, d: nat)
    requires n <= |events| && d < |events| && InOrder(start, events)
    requires StalledSince(start, events, n, a) && !After(start, idle, events, n).1
    requires events[d].Tick? && events[d].at >= a + idle
    ensures d >= n
  {
    if d < n {
      FiresIffATickSawIdle(start, idle, events, n);
      LastActivityGrows(start, events, d, n);
      assert SawIdle(start, idle, events, d);
    }
  }

  /** The first tick from `n` on that sees the limit; event `d` is one that does. */
  lemma FirstFiring(start: int, idle: nat, events: seq<Event>, n: nat, a: int, d: nat) returns (i: nat)
    requires n <= d < |events| && InOrder(start, events)
    requires StalledSince(start, events, n, a) && !After(start, idle, events, n).1
    requires events[d].at >= a + idle
    ensures n <= i <= d && a + idle <= events[i].at <= events[d].at
    ensures !After(start, idle, events, i).1 && After(start, idle, events, i + 1).1
    decreases d - n
  {
    FiresIffATickSawIdle(start, idle, events, n);
    assert events[n].Tick?;
    if events[n].at >= a + idle {
      i := n;
      assert After(start, idle, events, n + 1) == Step(After(start, idle, events, n), idle, events[n]);
    } else {
      i := FirstFiring(start, idle, events, n + 1, a, d);
    }
  }

  /**
   A permanent stall. If the last activity is at `a`, no earlier tick fired, and the ticks go on,
   then the watchdog fires, and the tick that fires it comes at or after `a + idle` and less than
   one tick interval later.
   */
  lemma StallFiresInTime(start: int, t0: int, idle: nat, events: seq<Event>, n: nat, a: int)
    requires idle > 0 && n <= |events| && start <= t0 < a + idle
    requires InOrder(start, events) && TicksOnTime(t0, idle, events)
    requires StalledSince(start, events, n, a) && !After(start, idle, events, n).1
    requires n < |events| && events[|events| - 1].at >= a + idle + TickEvery(idle)
    ensures exists i | n <= i < |events| ::
              && After(start, idle, events, i + 1).1 && !After(start, idle, events, i).1
              && a + idle <= events[i].at < a + idle + (if idle / 4 > 250_000_000 then idle / 4 else 250_000_000)
  {
    assert events[|events| - 1].Tick?;
    var d := DueTickArrives(t0, idle, events, a + idle, |events| - 1);
    DueTickIsInTheStall(start, idle, events, n, a, d);
    var i := FirstFiring(start, idle, events, n, a, d);
  }
}
