/**
 The ring-buffer clients: sdk-python/echoproxy/client.py, whose buffer is shared by threads under
 a lock, and sdk-ts/src/ingest.ts, where one thread runs and only the sends overlap. Both are
 modelled before they are closed; a send either returns or fails in a way the client catches.
 */
module RingClient {
  type Event = string

  datatype Sizes = Sizes(buffer: int, batch: int)

  datatype Ring = Ring(buf: seq<Event>, dropped: nat)

  /** A full ring counts one drop and loses its oldest event, if it has one. */
  function Push(q: Ring, sizes: Sizes, ev: Event): Ring {
    if |q.buf| < sizes.buffer then q.(buf := q.buf + [ev])
    else Ring((if q.buf == [] then [] else q.buf[1..]) + [ev], q.dropped + 1)
  }

  function Settle(q: Ring, batch: seq<Event>, ok: bool): Ring {
    q.(dropped := q.dropped + if ok then 0 else |batch|)
  }

  // ---------------------------------------------------------------------------------------
  // The two clients
  // ---------------------------------------------------------------------------------------

  datatype Outcome = Raised | Posted(batch: seq<Event>) | Kept

  /** One thread's calls, with nobody else in between. */
  class PythonClient {
    const hasKey: bool
    const sizes: Sizes
    var buf: seq<Event>
    var dropped: nat

    /** A deque with a negative bound cannot be made. */
    constructor (hasKey: bool, sizes: Sizes)
      requires sizes.buffer >= 0
      ensures this.hasKey == hasKey && this.sizes == sizes && Now() == Ring([], 0)
    {
      this.hasKey, this.sizes := hasKey, sizes;
      buf, dropped := [], 0;
    }

    ghost function Now(): Ring
      reads this
    {
      Ring(buf, dropped)
    }

    /** Taking the oldest event off a ring of size 0 raises. */
    method Capture(ev: Event, sampled: bool, ok: bool) returns (r: Outcome)
      modifies this
      ensures r == Kept || r.Raised? || (r.Posted? && r.batch != [])
      ensures r.Raised? <==> hasKey && sampled && old(buf) == [] && sizes.buffer <= 0
      ensures !hasKey || !sampled || r.Raised? ==> Now() == old(Now()) && !r.Posted?
      ensures hasKey && sampled && !r.Raised? ==>
                var q := Push(old(Now()), sizes, ev);
                if |q.buf| >= sizes.batch then r == Posted(q.buf) && Now() == Settle(q.(buf := []), q.buf, ok)
                else r == Kept && Now() == q
    {
      if !hasKey || !sampled {
        return Kept;
      }
      if |buf| >= sizes.buffer {
        if |buf| == 0 {
          return Raised;
        }
        buf := buf[1..];
        dropped := dropped + 1;
      }
      buf := buf + [ev];
      if |buf| >= sizes.batch {
        r := Flush(ok);
      } else {
        r := Kept;
      }
    }

    method Flush(ok: bool) returns (r: Outcome)
      modifies this
      ensures if old(buf) == [] then r == Kept && Now() == old(Now())
              else r == Posted(old(buf)) && Now() == Settle(old(Now()).(buf := []), old(buf), ok)
    {
      if |buf| == 0 {
        return Kept;
      }
      var batch := buf;
      buf := [];
      if !ok {
        dropped := dropped + |batch|;
      }
      return Posted(batch);
    }
  }

  /** The calls up to the first await; `OnSettled` is what follows it. */
  class TypeScriptClient {
    const hasKey: bool
    const sizes: Sizes
    var buf: seq<Event>
    var dropped: nat

    constructor (hasKey: bool, sizes: Sizes)
      ensures this.hasKey == hasKey && this.sizes == sizes && Now() == Ring([], 0)
    {
      this.hasKey, this.sizes := hasKey, sizes;
      buf, dropped := [], 0;
    }

    ghost function Now(): Ring
      reads this
    {
      Ring(buf, dropped)
    }

    /** `sending` is the batch whose send this call began, if it is not empty. */
    method Capture(ev: Event, sampled: bool) returns (sending: seq<Event>)
      modifies this
      ensures !hasKey || !sampled ==> sending == [] && Now() == old(Now())
      ensures hasKey && sampled ==>
                var q := Push(old(Now()), sizes, ev);
                if |q.buf| >= sizes.batch then sending == q.buf && Now() == q.(buf := [])
                else sending == [] && Now() == q
    {
      if !hasKey || !sampled {
        return [];
      }
      if |buf| >= sizes.buffer {
        buf := if |buf| == 0 then [] else buf[1..];
        dropped := dropped + 1;
      }
      buf := buf + [ev];
      sending := [];
      if |buf| >= sizes.batch {
        sending := Flush();
      }
    }

    method Flush() returns (sending: seq<Event>)
      modifies this
      ensures if hasKey then sending == old(buf) && Now() == old(Now()).(buf := [])
              else sending == [] && Now() == old(Now())
    {
      if |buf| == 0 || !hasKey {
        return [];
      }
      sending := buf;
      buf := [];
    }

    method OnSettled(batch: seq<Event>, ok: bool)
      modifies this
      ensures Now() == Settle(old(Now()), batch, ok)
    {
      if !ok {
        dropped := dropped + |batch|;
      }
    }
  }

  // ---------------------------------------------------------------------------------------
  // A ledger of what became of every event
  // ---------------------------------------------------------------------------------------

  datatype Fate = Evicted | InFlight | Delivered | Failed

  /** Events that left the ring together: one evicted event, or a batch. */
  datatype Segment = Segment(events: seq<Event>, fate: Fate)

  datatype Ledger = Ledger(
    q: Ring,
    log: seq<Segment>,
    appended: seq<Event>,
    overcount: nat)  // drops counted when the ring held nothing to drop

  const BLANK := Ledger(Ring([], 0), [], [], 0)

  function Append(l: Ledger, sizes: Sizes, ev: Event): Ledger {
    var full := |l.q.buf| >= sizes.buffer;
    Ledger(
      Push(l.q, sizes, ev),
      if full && l.q.buf != [] then l.log + [Segment([l.q.buf[0]], Evicted)] else l.log,
      l.appended + [ev],
      l.overcount + if full && l.q.buf == [] then 1 else 0)
  }

  function Take(l: Ledger): Ledger {
    l.(q := l.q.(buf := []), log := l.log + [Segment(l.q.buf, InFlight)])
  }

  predicate IsInFlight(log: seq<Segment>, k: nat) { k < |log| && log[k].fate == InFlight }

  function SettleAt(l: Ledger, k: nat, ok: bool): Ledger
    requires IsInFlight(l.log, k)
  {
    var s := l.log[k];
    l.(q := Settle(l.q, s.events, ok), log := l.log[k := s.(fate := if ok then Delivered else Failed)])
  }

  function Flat(log: seq<Segment>): seq<Event> {
    if log == [] then [] else Flat(log[..|log| - 1]) + log[|log| - 1].events
  }

  function Size(s: Segment, fate: Fate): nat { if s.fate == fate then |s.events| else 0 }

  function Count(log: seq<Segment>, fate: Fate): nat {
    if log == [] then 0 else Count(log[..|log| - 1], fate) + Size(log[|log| - 1], fate)
  }

  /** Every event appended is in one segment or in the ring, in order; what was lost was counted. */
  ghost predicate Accounted(l: Ledger, sizes: Sizes) {
    && l.appended == Flat(l.log) + l.q.buf
    && l.q.dropped == Count(l.log, Evicted) + Count(l.log, Failed) + l.overcount
    && (sizes.buffer >= 1 ==> l.overcount == 0 && |l.q.buf| <= sizes.buffer)
  }

  lemma FlatSnoc(log: seq<Segment>, s: Segment)
    ensures Flat(log + [s]) == Flat(log) + s.events
  {
    assert (log + [s])[..|log|] == log;
  }

  lemma CountSnoc(log: seq<Segment>, s: Segment, fate: Fate)
    ensures Count(log + [s], fate) == Count(log, fate) + Size(s, fate)
  {
    assert (log + [s])[..|log|] == log;
  }

  lemma {:induction false} FlatUpdate(log: seq<Segment>, k: nat, fate: Fate)
    requires k < |log|
    ensures Flat(log[k := log[k].(fate := fate)]) == Flat(log)
  {
    var n := |log| - 1;
    var log' := log[k := log[k].(fate := fate)];
    if k < n {
      assert log'[..n] == log[..n][k := log[..n][k].(fate := fate)];
      FlatUpdate(log[..n], k, fate);
    } else {
      assert log'[..n] == log[..n];
    }
  }

  lemma {:induction false} CountUpdate(log: seq<Segment>, k: nat, s: Segment, fate: Fate)
    requires k < |log|
    ensures Count(log[k := s], fate) + Size(log[k], fate) == Count(log, fate) + Size(s, fate)
  {
    var n := |log| - 1;
    if k < n {
      assert log[k := s][..n] == log[..n][k := s];
      CountUpdate(log[..n], k, s, fate);
    } else {
      assert log[k := s][..n] == log[..n];
    }
  }

  lemma AppendKeepsAccounts(l: Ledger, sizes: Sizes, ev: Event)
    requires Accounted(l, sizes)
    ensures Accounted(Append(l, sizes, ev), sizes)
  {
    var flat, buf := Flat(l.log), l.q.buf;
    if |buf| >= sizes.buffer && buf != [] {
      var gone := Segment([buf[0]], Evicted);
      FlatSnoc(l.log, gone);
      CountSnoc(l.log, gone, Evicted);
      CountSnoc(l.log, gone, Failed);
      assert [buf[0]] + buf[1..] == buf;
      assert flat + ([buf[0]] + buf[1..]) + [ev] == flat + [buf[0]] + (buf[1..] + [ev]);
    } else {
      assert flat + buf + [ev] == flat + (buf + [ev]);
    }
  }

  lemma TakeKeepsAccounts(l: Ledger, sizes: Sizes)
    requires Accounted(l, sizes)
    ensures Accounted(Take(l), sizes)
  {
    var batch := Segment(l.q.buf, InFlight);
    FlatSnoc(l.log, batch);
    CountSnoc(l.log, batch, Evicted);
    CountSnoc(l.log, batch, Failed);
  }

  lemma SettleKeepsAccounts(l: Ledger, sizes: Sizes, k: nat, ok: bool)
    requires IsInFlight(l.log, k) && Accounted(l, sizes)
    ensures Accounted(SettleAt(l, k, ok), sizes)
  {
    var s := l.log[k].(fate := if ok then Delivered else Failed);
    FlatUpdate(l.log, k, s.fate);
    CountUpdate(l.log, k, s, Evicted);
    CountUpdate(l.log, k, s, Failed);
  }

  /** The fates partition the events that left the ring. */
  lemma {:induction false} FatesPartition(log: seq<Segment>)
    ensures |Flat(log)| == Count(log, Evicted) + Count(log, InFlight) + Count(log, Delivered) + Count(log, Failed)
  {
    if log != [] {
      FatesPartition(log[..|log| - 1]);
    }
  }

  /** Each batch is a contiguous run of append order, right after everything that left before it. */
  lemma {:induction false} BatchesAreContiguous(log: seq<Segment>, k: nat)
    requires k < |log|
    ensures var start := |Flat(log[..k])|;
            var end := start + |log[k].events|;
            end <= |Flat(log)| && Flat(log)[start..end] == log[k].events
  {
    var n := |log| - 1;
    if k < n {
      assert log[..n][..k] == log[..k];
      BatchesAreContiguous(log[..n], k);
    }
  }

  /** So the accounts balance in numbers, and every batch is a stretch of what was appended. */
  lemma AccountsBalance(l: Ledger, sizes: Sizes, k: nat)
    requires Accounted(l, sizes)
    ensures |l.appended| == Count(l.log, Evicted) + |l.q.buf| + Count(l.log, InFlight)
                            + Count(l.log, Delivered) + Count(l.log, Failed)
    ensures k < |l.log| ==>
              var start := |Flat(l.log[..k])|;
              start + |l.log[k].events| <= |l.appended|
              && l.appended[start..start + |l.log[k].events|] == l.log[k].events
  {
    FatesPartition(l.log);
    if k < |l.log| {
      BatchesAreContiguous(l.log, k);
      var start, flat := |Flat(l.log[..k])|, Flat(l.log);
      var end := start + |l.log[k].events|;
      assert l.appended[..|flat|] == flat;
      assert l.appended[start..end] == flat[start..end];
    }
  }

  ghost predicate EvictionFree(l: Ledger) { forall k | 0 <= k < |l.log| :: l.log[k].fate != Evicted }

  function AtLeastOne(n: int): (r: nat) { if n < 1 then 1 else n }

  // ---------------------------------------------------------------------------------------
  // Python: any number of capturing threads, and the flush thread
  // ---------------------------------------------------------------------------------------

  /** Wanting: the thread has seen a full batch, released the lock, and will flush next. */
  datatype Thread = Idle | Wanting | Sending(k: nat)

  /** Threads 0 to n - 1 capture; thread n is the flush loop, which only flushes. */
  datatype State = State(l: Ledger, threads: seq<Thread>)

  datatype Step = Capture(t: nat, ev: Event) | Flush(t: nat) | SendDone(t: nat, ok: bool)

  function Initial(n: nat): State { State(BLANK, seq(n + 1, _ => Idle)) }

  predicate Enabled(s: State, step: Step) {
    match step
    case Capture(t, _) => t < |s.threads| - 1 && s.threads[t] == Idle
    case Flush(t) => t < |s.threads| && !s.threads[t].Sending?
    case SendDone(t, _) => t < |s.threads| && s.threads[t].Sending? && IsInFlight(s.l.log, s.threads[t].k)
  }

  function Next(s: State, sizes: Sizes, step: Step): State
    requires Enabled(s, step)
  {
    match step
    case Capture(t, ev) =>
      if s.l.q.buf == [] && sizes.buffer <= 0 then s // it raises
      else
        var l := Append(s.l, sizes, ev);
        State(l, s.threads[t := if |l.q.buf| >= sizes.batch then Wanting else Idle])
    case Flush(t) =>
      if s.l.q.buf == [] then s.(threads := s.threads[t := Idle])
      else State(Take(s.l), s.threads[t := Sending(|s.l.log|)])
    case SendDone(t, ok) =>
      State(SettleAt(s.l, s.threads[t].k, ok), s.threads[t := Idle])
  }

  /** A capture whose steps nothing interrupts does what `PythonClient.Capture` does. */
  lemma UninterruptedCapture(s: State, sizes: Sizes, t: nat, ev: Event, ok: bool)
    requires Enabled(s, Capture(t, ev))
    ensures var q := Push(s.l.q, sizes, ev);
            var s1 := Next(s, sizes, Capture(t, ev));
            if s.l.q.buf == [] && sizes.buffer <= 0 then s1 == s
            else if |q.buf| < sizes.batch then s1.l.q == q && s1.threads == s.threads
            else
              var s2 := Next(s1, sizes, Flush(t));
              && s2.threads[t] == Sending(|s1.l.log|) && s2.l.log == s1.l.log + [Segment(q.buf, InFlight)]
              && Next(s2, sizes, SendDone(t, ok)).l.q == Settle(q.(buf := []), q.buf, ok)
  {
  }

  /** And so does a flush, by whichever thread. */
  lemma UninterruptedFlush(s: State, sizes: Sizes, t: nat, ok: bool)
    requires Enabled(s, Flush(t))
    ensures var s1 := Next(s, sizes, Flush(t));
            if s.l.q.buf == [] then s1.l == s.l && s1.threads[t] == Idle
            else
              && s1.threads[t] == Sending(|s.l.log|) && s1.l.log == s.l.log + [Segment(s.l.q.buf, InFlight)]
              && Next(s1, sizes, SendDone(t, ok)).l.q == Settle(s.l.q.(buf := []), s.l.q.buf, ok)
              && Next(s1, sizes, SendDone(t, ok)).threads[t] == Idle
  {
  }

  datatype Run = Run(states: seq<State>, steps: seq<Step>)

  ghost predicate IsRun(r: Run, sizes: Sizes, n: nat) {
    && |r.states| == |r.steps| + 1 && r.states[0] == Initial(n)
    && forall i | 0 <= i < |r.steps| ::
         Enabled(r.states[i], r.steps[i]) && r.states[i + 1] == Next(r.states[i], sizes, r.steps[i])
  }

  /** Each thread that is sending has one in-flight batch, no two the same, and none has no sender. */
  ghost predicate Owned(s: State) {
    && (forall t | 0 <= t < |s.threads| && s.threads[t].Sending? :: IsInFlight(s.l.log, s.threads[t].k))
    && (forall t, u | 0 <= t < u < |s.threads| && s.threads[t].Sending? :: s.threads[t] != s.threads[u])
    && (forall k: nat | IsInFlight(s.l.log, k) :: Sending(k) in s.threads)
  }

  function WantingIn(threads: seq<Thread>): nat {
    if threads == [] then 0
    else WantingIn(threads[..|threads| - 1]) + if threads[|threads| - 1] == Wanting then 1 else 0
  }

  /** Every event beyond a batch less one was put there by a thread that has not flushed yet. */
  ghost predicate Pressed(s: State, sizes: Sizes) {
    |s.l.q.buf| + 1 <= AtLeastOne(sizes.batch) + WantingIn(s.threads)
  }

  ghost predicate Safe(s: State, sizes: Sizes, n: nat) {
    |s.threads| == n + 1 && !s.threads[n].Wanting? && Accounted(s.l, sizes) && Owned(s) && Pressed(s, sizes)
  }

  function One(t: Thread): nat { if t == Wanting then 1 else 0 }

  lemma {:induction false} WantingUpdate(threads: seq<Thread>, t: nat, to: Thread)
    requires t < |threads|
    ensures WantingIn(threads[t := to]) + One(threads[t]) == WantingIn(threads) + One(to)
  {
    var n := |threads| - 1;
    if t < n {
      assert threads[t := to][..n] == threads[..n][t := to];
      WantingUpdate(threads[..n], t, to);
    } else {
      assert threads[t := to][..n] == threads[..n];
    }
  }

  lemma {:induction false} WantingAtMostAll(threads: seq<Thread>)
    ensures WantingIn(threads) <= |threads|
  {
    if threads != [] {
      WantingAtMostAll(threads[..|threads| - 1]);
    }
  }

  lemma {:induction false} NobodyWanting(threads: seq<Thread>)
    requires forall t | 0 <= t < |threads| :: threads[t] != Wanting
    ensures WantingIn(threads) == 0
  {
    if threads != [] {
      NobodyWanting(threads[..|threads| - 1]);
    }
  }

  lemma InitiallySafe(sizes: Sizes, n: nat)
    ensures Safe(Initial(n), sizes, n)
  {
    NobodyWanting(Initial(n).threads);
  }

  lemma PressedStep(s: State, sizes: Sizes, step: Step)
    requires Enabled(s, step) && Pressed(s, sizes)
    ensures Pressed(Next(s, sizes, step), sizes)
  {
    var s' := Next(s, sizes, step);
    WantingUpdate(s.threads, step.t, s'.threads[step.t]);
    assert s'.threads == s.threads[step.t := s'.threads[step.t]];
  }

  lemma AccountedStep(s: State, sizes: Sizes, step: Step)
    requires Enabled(s, step) && Accounted(s.l, sizes)
    ensures Accounted(Next(s, sizes, step).l, sizes)
  {
    match step
    case Capture(_, ev) => AppendKeepsAccounts(s.l, sizes, ev);
    case Flush(_) => TakeKeepsAccounts(s.l, sizes);
    case SendDone(t, ok) => SettleKeepsAccounts(s.l, sizes, s.threads[t].k, ok);
  }

  lemma OwnedStep(s: State, sizes: Sizes, step: Step)
    requires Enabled(s, step) && Owned(s)
    ensures Owned(Next(s, sizes, step))
  {
    var s' := Next(s, sizes, step);
    var t := step.t;
    forall k: nat | IsInFlight(s'.l.log, k)
      ensures Sending(k) in s'.threads
    {
      if k < |s.l.log| {
        assert IsInFlight(s.l.log, k);
        var u :| 0 <= u < |s.threads| && s.threads[u] == Sending(k);
        assert u != t;
        assert s'.threads[u] == Sending(k);
      } else {
        assert s'.threads[t] == Sending(k);
      }
    }
  }

  /** The flush loop never captures, so it never holds back a flush. */
  lemma FlushLoopStep(s: State, sizes: Sizes, n: nat, step: Step)
    requires Enabled(s, step) && |s.threads| == n + 1 && !s.threads[n].Wanting?
    ensures var s' := Next(s, sizes, step); |s'.threads| == n + 1 && !s'.threads[n].Wanting?
  {
  }

  lemma SafeStep(s: State, sizes: Sizes, n: nat, step: Step)
    requires Enabled(s, step) && Safe(s, sizes, n)
    ensures Safe(Next(s, sizes, step), sizes, n)
  {
    AccountedStep(s, sizes, step);
    OwnedStep(s, sizes, step);
    PressedStep(s, sizes, step);
    FlushLoopStep(s, sizes, n, step);
  }

  /**
   Over all interleavings: every event appended is evicted, in a batch, or still in the ring, in
   append order; dropped is what was evicted plus what was in failed batches; each batch in
   flight has exactly one thread sending it.
   */
  lemma {:induction false} EveryRunIsSafe(r: Run, sizes: Sizes, n: nat, i: nat)
    requires IsRun(r, sizes, n) && i < |r.states|
    ensures Safe(r.states[i], sizes, n)
  {
    if i == 0 {
      InitiallySafe(sizes, n);
    } else {
      var s, step := r.states[i - 1], r.steps[i - 1];
      EveryRunIsSafe(r, sizes, n, i - 1);
      assert Enabled(s, step) && r.states[i] == Next(s, sizes, step);
      SafeStep(s, sizes, n, step);
    }
  }

  lemma EvictionNeedsManyThreads(s: State, sizes: Sizes, n: nat, step: Step)
    requires sizes.buffer >= 1 && Safe(s, sizes, n) && Enabled(s, step) && EvictionFree(s.l)
    requires n + AtLeastOne(sizes.batch) <= sizes.buffer + 1
    ensures EvictionFree(Next(s, sizes, step).l)
  {
    if step.Capture? {
      var t := step.t;
      WantingUpdate(s.threads, t, Wanting);
      WantingUpdate(s.threads[t := Wanting], n, Wanting);
      WantingAtMostAll(s.threads[t := Wanting][n := Wanting]);
      assert |s.l.q.buf| < sizes.buffer;
    }
  }

  lemma {:induction false} NeverEvicts(r: Run, sizes: Sizes, n: nat, i: nat)
    requires sizes.buffer >= 1 && IsRun(r, sizes, n) && i < |r.states|
    requires n + AtLeastOne(sizes.batch) <= sizes.buffer + 1
    ensures EvictionFree(r.states[i].l)
  {
    if i > 0 {
      var s, step := r.states[i - 1], r.steps[i - 1];
      NeverEvicts(r, sizes, n, i - 1);
      EveryRunIsSafe(r, sizes, n, i - 1);
      assert Enabled(s, step) && r.states[i] == Next(s, sizes, step);
      EvictionNeedsManyThreads(s, sizes, n, step);
    }
  }

  function Last(r: Run): State
    requires r.states != []
  {
    r.states[|r.states| - 1]
  }

  lemma OneMoreStep(r: Run, sizes: Sizes, n: nat, step: Step) returns (longer: Run)
    requires IsRun(r, sizes, n) && Enabled(Last(r), step)
    ensures IsRun(longer, sizes, n) && Last(longer) == Next(Last(r), sizes, step)
  {
    longer := Run(r.states + [Next(Last(r), sizes, step)], r.steps + [step]);
    forall i | 0 <= i < |longer.steps|
      ensures Enabled(longer.states[i], longer.steps[i])
      ensures longer.states[i + 1] == Next(longer.states[i], sizes, longer.steps[i])
    {
      if i < |r.steps| {
        assert longer.steps[i] == r.steps[i];
        assert longer.states[i] == r.states[i] && longer.states[i + 1] == r.states[i + 1];
      } else {
        assert longer.states[i] == Last(r);
      }
    }
  }

  /** After `size` captures and no flush, one thread wants to flush for each event from a full batch on. */
  ghost predicate Filled(s: State, sizes: Sizes, n: nat, size: nat) {
    && |s.threads| == n + 1 && |s.l.q.buf| == size && s.l.log == []
    && forall t | 0 <= t <= n && t + AtLeastOne(sizes.batch) >= size + 1 :: s.threads[t] == Idle
  }

  lemma {:induction false} FillTheRing(sizes: Sizes, n: nat, size: nat) returns (r: Run)
    requires size <= sizes.buffer && n >= 1 && n + AtLeastOne(sizes.batch) > sizes.buffer + 1
    ensures IsRun(r, sizes, n) && Filled(Last(r), sizes, n, size)
  {
    if size == 0 {
      r := Run([Initial(n)], []);
    } else {
      var shorter := FillTheRing(sizes, n, size - 1);
      var b := AtLeastOne(sizes.batch);
      r := OneMoreStep(shorter, sizes, n, Capture(if size < b then 0 else size - b, "event"));
    }
  }

  lemma {:induction false} NobodyCaptures(r: Run, sizes: Sizes, i: nat)
    requires IsRun(r, sizes, 0) && i < |r.states|
    ensures EvictionFree(r.states[i].l) && |r.states[i].threads| == 1
  {
    if i > 0 {
      NobodyCaptures(r, sizes, i - 1);
      assert Enabled(r.states[i - 1], r.steps[i - 1]) && r.states[i] == Next(r.states[i - 1], sizes, r.steps[i - 1]);
    }
  }

  /**
   Some run evicts exactly when the buffer is smaller than a full batch plus one event for every
   other capturing thread: a batch size within the buffer size is not enough for two threads.
   */
  lemma EvictionReachableIff(sizes: Sizes, n: nat)
    requires sizes.buffer >= 1
    ensures (exists r :: IsRun(r, sizes, n) && !EvictionFree(Last(r).l))
       <==> n >= 1 && n + AtLeastOne(sizes.batch) > sizes.buffer + 1
  {
    if n == 0 {
      forall r | IsRun(r, sizes, n)
        ensures EvictionFree(Last(r).l)
      {
        NobodyCaptures(r, sizes, |r.states| - 1);
      }
    } else if n + AtLeastOne(sizes.batch) <= sizes.buffer + 1 {
      forall r | IsRun(r, sizes, n)
        ensures EvictionFree(Last(r).l)
      {
        NeverEvicts(r, sizes, n, |r.states| - 1);
      }
    } else {
      var full := FillTheRing(sizes, n, sizes.buffer);
      var b := AtLeastOne(sizes.batch);
      var t := if sizes.buffer + 1 < b then 0 else sizes.buffer + 1 - b;
      var r := OneMoreStep(full, sizes, n, Capture(t, "event"));
      assert Last(r).l.log[0].fate == Evicted;
    }
  }

  // ---------------------------------------------------------------------------------------
  // TypeScript: one thread, sends that settle later
  // ---------------------------------------------------------------------------------------

  datatype TsStep = TsCapture(ev: Event) | TsFlush | Settled(k: nat, ok: bool)

  predicate TsEnabled(l: Ledger, step: TsStep) { step.Settled? ==> IsInFlight(l.log, step.k) }

  function TsNext(l: Ledger, sizes: Sizes, step: TsStep): Ledger
    requires TsEnabled(l, step)
  {
    match step
    case TsCapture(ev) =>
      var full := Append(l, sizes, ev);
      if |full.q.buf| >= sizes.batch then Take(full) else full
    case TsFlush => if l.q.buf == [] then l else Take(l)
    case Settled(k, ok) => SettleAt(l, k, ok)
  }

  /**
   A capture begins a send when it makes a batch full, a flush when anything is buffered; the send
   takes all of it.
   */
  lemma TsSendsIff(l: Ledger, sizes: Sizes, step: TsStep)
    requires TsEnabled(l, step) && !step.Settled?
    ensures var next := TsNext(l, sizes, step);
            var buffered := if step.TsFlush? then l.q.buf else Push(l.q, sizes, step.ev).buf;
            if (if step.TsFlush? then buffered != [] else |buffered| >= sizes.batch) then
              && next.q.buf == [] && next.log != []
              && next.log[|next.log| - 1] == Segment(buffered, InFlight)
            else next.q.buf == buffered
  {
  }

  datatype TsRun = TsRun(states: seq<Ledger>, steps: seq<TsStep>)

  ghost predicate IsTsRun(r: TsRun, sizes: Sizes) {
    && |r.states| == |r.steps| + 1 && r.states[0] == BLANK
    && forall i | 0 <= i < |r.steps| ::
         TsEnabled(r.states[i], r.steps[i]) && r.states[i + 1] == TsNext(r.states[i], sizes, r.steps[i])
  }

  lemma TsStepIsAccounted(l: Ledger, sizes: Sizes, step: TsStep)
    requires TsEnabled(l, step) && Accounted(l, sizes)
    ensures Accounted(TsNext(l, sizes, step), sizes)
  {
    match step
    case TsCapture(ev) =>
      AppendKeepsAccounts(l, sizes, ev);
      TakeKeepsAccounts(Append(l, sizes, ev), sizes);
    case TsFlush => TakeKeepsAccounts(l, sizes);
    case Settled(k, ok) => SettleKeepsAccounts(l, sizes, k, ok);
  }

  /** The same accounts, and between two calls the buffer is always short of a batch. */
  lemma {:induction false} EveryTsRunIsSafe(r: TsRun, sizes: Sizes, i: nat)
    requires IsTsRun(r, sizes) && i < |r.states|
    ensures Accounted(r.states[i], sizes) && |r.states[i].q.buf| < AtLeastOne(sizes.batch)
  {
    if i > 0 {
      var l, step := r.states[i - 1], r.steps[i - 1];
      EveryTsRunIsSafe(r, sizes, i - 1);
      assert TsEnabled(l, step) && r.states[i] == TsNext(l, sizes, step);
      TsStepIsAccounted(l, sizes, step);
    }
  }

  lemma {:induction false} TsNeverEvicts(r: TsRun, sizes: Sizes, i: nat)
    requires IsTsRun(r, sizes) && i < |r.states| && AtLeastOne(sizes.batch) <= AtLeastOne(sizes.buffer)
    ensures EvictionFree(r.states[i])
  {
    if i > 0 {
      var l, step := r.states[i - 1], r.steps[i - 1];
      TsNeverEvicts(r, sizes, i - 1);
      EveryTsRunIsSafe(r, sizes, i - 1);
      assert TsEnabled(l, step) && r.states[i] == TsNext(l, sizes, step);
    }
  }

  function TsLast(r: TsRun): Ledger
    requires r.states != []
  {
    r.states[|r.states| - 1]
  }

  lemma OneMoreTsStep(r: TsRun, sizes: Sizes, step: TsStep) returns (longer: TsRun)
    requires IsTsRun(r, sizes) && TsEnabled(TsLast(r), step)
    ensures IsTsRun(longer, sizes) && TsLast(longer) == TsNext(TsLast(r), sizes, step)
  {
    longer := TsRun(r.states + [TsNext(TsLast(r), sizes, step)], r.steps + [step]);
    forall i | 0 <= i < |longer.steps|
      ensures TsEnabled(longer.states[i], longer.steps[i])
      ensures longer.states[i + 1] == TsNext(longer.states[i], sizes, longer.steps[i])
    {
      if i < |r.steps| {
        assert longer.steps[i] == r.steps[i];
        assert longer.states[i] == r.states[i] && longer.states[i + 1] == r.states[i + 1];
      } else {
        assert longer.states[i] == TsLast(r);
      }
    }
  }

  lemma {:induction false} FillTheBuffer(sizes: Sizes, size: nat) returns (r: TsRun)
    requires size <= AtLeastOne(sizes.buffer) < AtLeastOne(sizes.batch)
    ensures IsTsRun(r, sizes) && |TsLast(r).q.buf| == size && TsLast(r).log == []
  {
    if size == 0 {
      r := TsRun([BLANK], []);
    } else {
      var shorter := FillTheBuffer(sizes, size - 1);
      r := OneMoreTsStep(shorter, sizes, TsCapture("event"));
    }
  }

  /** Some run evicts exactly when a batch is larger than the buffer. */
  lemma TsEvictionReachableIff(sizes: Sizes)
    ensures (exists r :: IsTsRun(r, sizes) && !EvictionFree(TsLast(r)))
       <==> AtLeastOne(sizes.batch) > AtLeastOne(sizes.buffer)
  {
    if AtLeastOne(sizes.batch) <= AtLeastOne(sizes.buffer) {
      forall r | IsTsRun(r, sizes)
        ensures EvictionFree(TsLast(r))
      {
        TsNeverEvicts(r, sizes, |r.states| - 1);
      }
    } else {
      var full := FillTheBuffer(sizes, AtLeastOne(sizes.buffer));
      var r := OneMoreTsStep(full, sizes, TsCapture("event"));
      assert TsLast(r).log[0].fate == Evicted;
    }
  }

  /** A buffer of no size counts a drop at the first capture, although nothing was lost. */
  lemma TsOvercounts(sizes: Sizes, ev: Event)
    ensures var l := TsNext(BLANK, sizes, TsCapture(ev));
            (l.q.dropped > Count(l.log, Evicted) + Count(l.log, Failed)) <==> sizes.buffer <= 0
  {
    var full := Append(BLANK, sizes, ev);
    AppendKeepsAccounts(BLANK, sizes, ev);
    TakeKeepsAccounts(full, sizes);
  }
}
