/**
 The Go SDK's delivery pipeline, sdk-reference-go/sdk.go: captures that never block, a bounded
 channel, one flush loop, and a Close that drains.
 */
module GoSdk {
  type Event = string

  /** A batch handed to the transport, and whether the transport took it. */
  datatype Sent = Sent(batch: seq<Event>, ok: bool)

  datatype Pipe = Pipe(ch: seq<Event>, batch: seq<Event>, sent: seq<Sent>, dropped: nat)

  datatype Sizes = Sizes(buffer: nat, batch: nat)

  function Offer(p: Pipe, sizes: Sizes, ev: Event): Pipe {
    if |p.ch| < sizes.buffer then p.(ch := p.ch + [ev]) else p.(dropped := p.dropped + 1)
  }

  function TakeOne(p: Pipe): Pipe
    requires p.ch != []
  {
    p.(ch := p.ch[1..], batch := p.batch + [p.ch[0]])
  }

  /** A failed batch is counted and given up. */
  function Send(p: Pipe, ok: bool): Pipe {
    p.(batch := [], sent := p.sent + [Sent(p.batch, ok)], dropped := p.dropped + if ok then 0 else |p.batch|)
  }

  function Flush(p: Pipe, ok: bool): Pipe { if p.batch == [] then p else Send(p, ok) }

  class Client {
    const sizes: Sizes
    var ch: seq<Event>
    var batch: seq<Event>
    var sent: seq<Sent>
    var dropped: nat

    /** Sizes that are not positive fall back to 10000 buffered events and batches of 500. */
    constructor (bufferSize: int, batchSize: int)
      ensures Now() == Pipe([], [], [], 0)
      ensures sizes.buffer == (if bufferSize <= 0 then 10_000 else bufferSize)
      ensures sizes.batch == (if batchSize <= 0 then 500 else batchSize)
    {
      sizes := Sizes(if bufferSize <= 0 then 10_000 else bufferSize, if batchSize <= 0 then 500 else batchSize);
      ch, batch, sent, dropped := [], [], [], 0;
    }

    ghost function Now(): Pipe
      reads this
    {
      Pipe(ch, batch, sent, dropped)
    }

    /** Enqueues or counts, never waits; an event that is not sampled leaves no trace. */
    method Capture(ev: Event, sampled: bool)
      modifies this`ch, this`dropped
      ensures Now() == if sampled then Offer(old(Now()), sizes, ev) else old(Now())
    {
      if !sampled {
        return;
      }
      if |ch| < sizes.buffer {
        ch := ch + [ev];
      } else {
        dropped := dropped + 1;
      }
    }

    method FlushBatch(ok: bool)
      modifies this`batch, this`sent, this`dropped
      ensures Now() == Flush(old(Now()), ok)
    {
      if |batch| == 0 {
        return;
      }
      sent := sent + [Sent(batch, ok)];
      if !ok {
        dropped := dropped + |batch|;
      }
      batch := [];
    }

    method OnEvent(ok: bool)
      requires ch != []
      modifies this`ch, this`batch, this`sent, this`dropped
      ensures var taken := TakeOne(old(Now()));
              Now() == if |taken.batch| >= sizes.batch then Flush(taken, ok) else taken
    {
      batch := batch + [ch[0]];
      ch := ch[1..];
      if |batch| >= sizes.batch {
        FlushBatch(ok);
      }
    }

    method OnStop(ok: bool)
      modifies this`ch, this`batch, this`sent, this`dropped
      ensures Now() == Flush(old(Now()).(ch := [], batch := old(batch) + old(ch)), ok)
    {
      DrainAll();
      FlushBatch(ok);
    }

    method DrainAll()
      modifies this`ch, this`batch
      ensures ch == [] && batch == old(batch) + old(ch)
    {
      while |ch| > 0
        invariant batch + ch == old(batch) + old(ch)
        decreases |ch|
      {
        batch := batch + [ch[0]];
        ch := ch[1..];
      }
    }
  }

  // ---------------------------------------------------------------------------------------
  // Captures and the loop, interleaved
  // ---------------------------------------------------------------------------------------

  datatype Phase = Selecting | Sending(last: bool) | Draining | Done

  datatype State = State(
    p: Pipe,
    phase: Phase,
    closing: bool,
    accepted: seq<Event>, // every event that got into the channel
    refused: nat)         // how many found it full

  datatype Step =
    | Capture(ev: Event)
    | Close
    | Receive           // the loop takes an event; a full batch goes out
    | Tick              // the loop's timer; a batch that is not empty goes out
    | Stop              // the loop sees that the client is closing
    | DrainOne
    | DrainEnd
    | SendDone(ok: bool)

  const INITIAL := State(Pipe([], [], [], 0), Selecting, false, [], 0)

  predicate Enabled(s: State, step: Step) {
    match step
    case Capture(_) => true
    case Close => !s.closing
    case Receive => s.phase == Selecting && s.p.ch != []
    case Tick => s.phase == Selecting
    case Stop => s.phase == Selecting && s.closing
    case DrainOne => s.phase == Draining && s.p.ch != []
    case DrainEnd => s.phase == Draining && s.p.ch == []
    case SendDone(_) => s.phase.Sending?
  }

  function Next(s: State, sizes: Sizes, step: Step): State
    requires Enabled(s, step)
  {
    match step
    case Capture(ev) =>
      if |s.p.ch| < sizes.buffer then s.(p := Offer(s.p, sizes, ev), accepted := s.accepted + [ev])
      else s.(p := Offer(s.p, sizes, ev), refused := s.refused + 1)
    case Close => s.(closing := true)
    case Receive =>
      var taken := TakeOne(s.p);
      s.(p := taken, phase := if |taken.batch| >= sizes.batch then Sending(false) else Selecting)
    case Tick => s.(phase := if s.p.batch == [] then Selecting else Sending(false))
    case Stop => s.(phase := Draining)
    case DrainOne => s.(p := TakeOne(s.p))
    case DrainEnd => s.(phase := if s.p.batch == [] then Done else Sending(true))
    case SendDone(ok) => s.(p := Send(s.p, ok), phase := if s.phase.last then Done else Selecting)
  }

  /** The loop's drain with nothing captured meanwhile. */
  function Drained(s: State, sizes: Sizes): (end: State)
    requires s.phase == Draining
    ensures Enabled(end, DrainEnd)
    decreases |s.p.ch|
  {
    if s.p.ch == [] then s else Drained(Next(s, sizes, DrainOne), sizes)
  }

  /** What `OnStop` promises is what Stop, the drain and the last send do when no capture comes in between. */
  lemma {:induction false} UninterruptedDrain(s: State, sizes: Sizes)
    requires s.phase == Draining
    ensures Drained(s, sizes) == s.(p := s.p.(ch := [], batch := s.p.batch + s.p.ch))
    decreases |s.p.ch|
  {
    if s.p.ch == [] {
      assert s.p.batch + [] == s.p.batch;
    } else {
      var next := Next(s, sizes, DrainOne);
      UninterruptedDrain(next, sizes);
      assert [s.p.ch[0]] + s.p.ch[1..] == s.p.ch;
      assert next.p.batch + next.p.ch == s.p.batch + s.p.ch;
    }
  }

  lemma UninterruptedStop(s: State, sizes: Sizes, ok: bool)
    requires Enabled(s, Stop)
    ensures var drained := Drained(Next(s, sizes, Stop), sizes);
            var end := Next(drained, sizes, DrainEnd);
            (if end.phase == Done then end else Next(end, sizes, SendDone(ok)))
            == s.(p := Flush(s.p.(ch := [], batch := s.p.batch + s.p.ch), ok), phase := Done)
  {
    UninterruptedDrain(Next(s, sizes, Stop), sizes);
  }

  datatype Run = Run(states: seq<State>, steps: seq<Step>)

  ghost predicate IsRun(r: Run, sizes: Sizes) {
    && |r.states| == |r.steps| + 1 && r.states[0] == INITIAL
    && forall i | 0 <= i < |r.steps| ::
         Enabled(r.states[i], r.steps[i]) && r.states[i + 1] == Next(r.states[i], sizes, r.steps[i])
  }

  /** All events of the batches, in order. */
  function Flat(sent: seq<Sent>): seq<Event> {
    if sent == [] then [] else Flat(sent[..|sent| - 1]) + sent[|sent| - 1].batch
  }

  function FailedSize(sent: seq<Sent>): nat {
    if sent == [] then 0
    else FailedSize(sent[..|sent| - 1]) + if sent[|sent| - 1].ok then 0 else |sent[|sent| - 1].batch|
  }

  // ---------------------------------------------------------------------------------------
  // Conservation
  // ---------------------------------------------------------------------------------------

  ghost predicate Balanced(accepted: seq<Event>, refused: nat, p: Pipe) {
    && accepted == Flat(p.sent) + p.batch + p.ch
    && p.dropped == refused + FailedSize(p.sent)
  }

  predicate Shaped(p: Pipe, phase: Phase, sizes: Sizes) {
    && |p.ch| <= sizes.buffer
    && (phase == Selecting ==> |p.batch| < sizes.batch)
    && (phase.Sending? ==> p.batch != [])
    && (phase == Done ==> p.batch == [])
  }

  ghost predicate Conserved(s: State, sizes: Sizes) {
    Balanced(s.accepted, s.refused, s.p) && Shaped(s.p, s.phase, sizes)
  }

  lemma OfferBalances(accepted: seq<Event>, refused: nat, p: Pipe, sizes: Sizes, ev: Event)
    requires Balanced(accepted, refused, p)
    ensures if |p.ch| < sizes.buffer then Balanced(accepted + [ev], refused, Offer(p, sizes, ev))
            else Balanced(accepted, refused + 1, Offer(p, sizes, ev))
  {
    var sofar := Flat(p.sent) + p.batch;
    assert sofar + p.ch + [ev] == sofar + (p.ch + [ev]);
  }

  lemma TakeOneBalances(accepted: seq<Event>, refused: nat, p: Pipe)
    requires p.ch != [] && Balanced(accepted, refused, p)
    ensures Balanced(accepted, refused, TakeOne(p))
  {
    var flat, head, tail := Flat(p.sent), [p.ch[0]], p.ch[1..];
    assert head + tail == p.ch;
    assert flat + p.batch + (head + tail) == flat + (p.batch + head) + tail;
  }

  lemma SendBalances(accepted: seq<Event>, refused: nat, p: Pipe, ok: bool)
    requires Balanced(accepted, refused, p)
    ensures Balanced(accepted, refused, Send(p, ok))
  {
    var q := Send(p, ok);
    assert q.sent[..|q.sent| - 1] == p.sent;
    assert Flat(q.sent) + [] == Flat(p.sent) + p.batch;
  }

  lemma ConservedStep(s: State, sizes: Sizes, step: Step)
    requires sizes.batch > 0 && Enabled(s, step) && Conserved(s, sizes)
    ensures Conserved(Next(s, sizes, step), sizes)
  {
    match step
    case Capture(ev) => OfferBalances(s.accepted, s.refused, s.p, sizes, ev);
    case Receive => TakeOneBalances(s.accepted, s.refused, s.p);
    case DrainOne => TakeOneBalances(s.accepted, s.refused, s.p);
    case SendDone(ok) => SendBalances(s.accepted, s.refused, s.p, ok);
    case _ =>
  }

  lemma InitiallyConserved(sizes: Sizes)
    requires sizes.batch > 0
    ensures Conserved(INITIAL, sizes)
  {
  }

  /**
   In every run the accepted events are, in order, those of the batches sent (delivered or
   failed), then the current batch, then the channel; and the dropped counter is the number of
   refusals plus the sizes of the failed batches.
   */
  lemma {:induction false} EventsAreConserved(r: Run, sizes: Sizes, i: nat)
    requires sizes.batch > 0 && IsRun(r, sizes) && i < |r.states|
    ensures Conserved(r.states[i], sizes)
  {
    if i == 0 {
      InitiallyConserved(sizes);
    } else {
      var s, step := r.states[i - 1], r.steps[i - 1];
      assert Enabled(s, step) && r.states[i] == Next(s, sizes, step);
      EventsAreConserved(r, sizes, i - 1);
      ConservedStep(s, sizes, step);
    }
  }

  // ---------------------------------------------------------------------------------------
  // When batches go out
  // ---------------------------------------------------------------------------------------

  /** A batch goes out when an event makes it full, or at a tick or the end of the drain when it is not empty. */
  lemma SendsIff(r: Run, sizes: Sizes, i: nat)
    requires IsRun(r, sizes) && i < |r.steps| && !r.states[i].phase.Sending?
    ensures r.states[i + 1].phase.Sending? <==>
              || (r.steps[i] == Receive && |r.states[i].p.batch| + 1 >= sizes.batch)
              || (r.steps[i] in {Tick, DrainEnd} && r.states[i].p.batch != [])
  {
    assert Enabled(r.states[i], r.steps[i]) && r.states[i + 1] == Next(r.states[i], sizes, r.steps[i]);
  }

  /** While a batch is out it does not change, whatever is captured meanwhile; then it is recorded, whole, and gone. */
  lemma {:induction false} WholeBatchIsSent(r: Run, sizes: Sizes, i: nat, j: nat)
    requires IsRun(r, sizes) && i <= j < |r.steps| && r.states[i].phase.Sending?
    requires forall k | i <= k < j :: !r.steps[k].SendDone?
    ensures r.states[j].phase == r.states[i].phase && r.states[j].p.batch == r.states[i].p.batch
    ensures r.states[j].p.sent == r.states[i].p.sent
    ensures r.steps[j].SendDone? ==>
              && r.states[j + 1].p.sent == r.states[i].p.sent + [Sent(r.states[i].p.batch, r.steps[j].ok)]
              && r.states[j + 1].p.batch == []
  {
    assert Enabled(r.states[j], r.steps[j]) && r.states[j + 1] == Next(r.states[j], sizes, r.steps[j]);
    if i < j {
      assert Enabled(r.states[j - 1], r.steps[j - 1]) && r.states[j] == Next(r.states[j - 1], sizes, r.steps[j - 1]);
      WholeBatchIsSent(r, sizes, i, j - 1);
    }
  }

  // ---------------------------------------------------------------------------------------
  // A full channel
  // ---------------------------------------------------------------------------------------

  /** The ring that the documentation asks for: a full one loses its oldest event. */
  function DropOldest(ch: seq<Event>, buffer: nat, ev: Event): seq<Event> {
    if |ch| < buffer then ch + [ev] else (if ch == [] then [] else ch[1..]) + [ev]
  }

  /** A queue equals its own shift only if all of it is what comes in. */
  lemma {:induction false} ShiftedIsConstant(ch: seq<Event>, ev: Event, i: nat)
    requires i < |ch| && ch[1..] + [ev] == ch
    ensures ch[i] == ev
    decreases |ch| - i
  {
    assert ch[i] == (ch[1..] + [ev])[i];
    if i + 1 < |ch| {
      ShiftedIsConstant(ch, ev, i + 1);
    }
  }

  /**
   In every reachable state: a capture leaves what dropping the oldest event would leave if and only
   if the channel has room, or holds nothing but events equal to the new one.
   */
  lemma DropsOldestIff(r: Run, sizes: Sizes, i: nat, ev: Event)
    requires sizes.batch > 0 && sizes.buffer > 0 && IsRun(r, sizes) && i < |r.states|
    ensures var p := r.states[i].p;
            Offer(p, sizes, ev).ch == DropOldest(p.ch, sizes.buffer, ev) <==>
              |p.ch| < sizes.buffer || forall k | 0 <= k < |p.ch| :: p.ch[k] == ev
  {
    EventsAreConserved(r, sizes, i);
    var ch := r.states[i].p.ch;
    if |ch| == sizes.buffer {
      if ch[1..] + [ev] == ch {
        forall k | 0 <= k < |ch|
          ensures ch[k] == ev
        {
          ShiftedIsConstant(ch, ev, k);
        }
      }
    }
  }

  /** Whatever the channel holds, a capture takes nothing out of it. */
  lemma CaptureRemovesNothing(r: Run, sizes: Sizes, i: nat)
    requires IsRun(r, sizes) && i < |r.steps| && r.steps[i].Capture?
    ensures r.states[i].p.ch <= r.states[i + 1].p.ch
  {
    assert Enabled(r.states[i], r.steps[i]) && r.states[i + 1] == Next(r.states[i], sizes, r.steps[i]);
  }

  function Last(r: Run): State
    requires r.states != []
  {
    r.states[|r.states| - 1]
  }

  lemma OneMoreStep(r: Run, sizes: Sizes, step: Step) returns (longer: Run)
    requires IsRun(r, sizes) && Enabled(Last(r), step)
    ensures IsRun(longer, sizes) && longer.steps == r.steps + [step] && Last(longer) == Next(Last(r), sizes, step)
  {
    longer := Run(r.states + [Next(Last(r), sizes, step)], r.steps + [step]);
    forall i | 0 <= i < |longer.steps|
      ensures Enabled(longer.states[i], longer.steps[i])
      ensures longer.states[i + 1] == Next(longer.states[i], sizes, longer.steps[i])
    {
      if i < |r.steps| {
        assert longer.steps[i] == r.steps[i];
        assert longer.states[i] == r.states[i] && longer.states[i + 1] == r.states[i + 1];
      } else {
        assert longer.states[i] == Last(r);
      }
    }
  }

  function Captures(events: seq<Event>): seq<Step> { seq(|events|, i requires 0 <= i < |events| => Capture(events[i])) }

  lemma {:induction false} FillTheChannel(sizes: Sizes, events: seq<Event>) returns (r: Run)
    requires |events| <= sizes.buffer
    ensures IsRun(r, sizes) && r.steps == Captures(events)
    ensures Last(r) == INITIAL.(p := Pipe(events, [], [], 0), accepted := events)
  {
    var n := |events| - 1;
    if events == [] {
      r := Run([INITIAL], []);
    } else {
      var shorter := FillTheChannel(sizes, events[..n]);
      r := OneMoreStep(shorter, sizes, Capture(events[n]));
      assert events[..n] + [events[n]] == events;
    }
  }

  /**
   For every buffer size and any events: captures that the loop does not keep up with fill the
   channel with the first ones, and the newest is refused and counted.
   */
  lemma FullChannelRefusesTheNewest(sizes: Sizes, events: seq<Event>) returns (r: Run)
    requires |events| == sizes.buffer + 1
    ensures IsRun(r, sizes) && r.steps == Captures(events)
    ensures var s := Last(r); s.p.ch == s.accepted == events[..sizes.buffer] && s.refused == s.p.dropped == 1
  {
    var full := FillTheChannel(sizes, events[..sizes.buffer]);
    r := OneMoreStep(full, sizes, Capture(events[sizes.buffer]));
    assert events[..sizes.buffer] + [events[sizes.buffer]] == events;
  }

  // ---------------------------------------------------------------------------------------
  // Shutdown
  // ---------------------------------------------------------------------------------------

  ghost predicate NoCaptureFrom(r: Run, c: nat) { forall i | c <= i < |r.steps| :: !r.steps[i].Capture? }

  lemma {:induction false} DrainedStaysDrained(r: Run, sizes: Sizes, c: nat, i: nat)
    requires IsRun(r, sizes) && c <= i < |r.states| && NoCaptureFrom(r, c)
    requires !r.states[c].closing && (r.states[c].phase == Selecting || r.states[c].phase == Sending(false))
    ensures var s := r.states[i]; s.phase == Done || s.phase == Sending(true) ==> s.p.ch == []
  {
    if i > c {
      DrainedStaysDrained(r, sizes, c, i - 1);
      assert Enabled(r.states[i - 1], r.steps[i - 1]);
    }
  }

  lemma {:induction false} NotStoppedBeforeClose(r: Run, sizes: Sizes, i: nat)
    requires IsRun(r, sizes) && i < |r.states| && !r.states[i].closing
    ensures r.states[i].phase == Selecting || r.states[i].phase == Sending(false)
  {
    if i > 0 {
      assert Enabled(r.states[i - 1], r.steps[i - 1]);
      NotStoppedBeforeClose(r, sizes, i - 1);
    }
  }

  /**
   If captures stop before Close (step `c`), then once the loop is done the channel and the batch
   are empty, every accepted event is in a batch that was sent, and every one that was not
   delivered is in the dropped counter.
   */
  lemma ShutdownLeavesNothing(r: Run, sizes: Sizes, c: nat, n: nat)
    requires sizes.batch > 0 && IsRun(r, sizes) && c < |r.steps| && r.steps[c] == Close && NoCaptureFrom(r, c)
    requires c < n < |r.states| && r.states[n].phase == Done
    ensures var s := r.states[n];
            && s.p.ch == [] && s.p.batch == []
            && s.accepted == Flat(s.p.sent)
            && s.p.dropped == s.refused + FailedSize(s.p.sent)
  {
    assert Enabled(r.states[c], r.steps[c]);
    NotStoppedBeforeClose(r, sizes, c);
    DrainedStaysDrained(r, sizes, c, n);
    EventsAreConserved(r, sizes, n);
  }

  /** How much the loop still has to do once the client is closing. */
  function Rank(s: State): nat {
    match s.phase
    case Done => 0
    case Sending(last) => if last then 1 else 4 + 2 * |s.p.ch|
    case Draining => 2 + |s.p.ch|
    case Selecting => 3 + 2 * |s.p.ch|
  }

  function TicksIn(steps: seq<Step>, from: nat, to: nat): nat
    requires from <= to <= |steps|
  {
    if from == to then 0 else TicksIn(steps, from, to - 1) + if steps[to - 1] == Tick then 1 else 0
  }

  lemma StepUsesRank(s: State, sizes: Sizes, step: Step)
    requires Enabled(s, step) && s.closing && !step.Capture?
    ensures Next(s, sizes, step).closing
    ensures 1 + Rank(Next(s, sizes, step)) <= Rank(s) + if step == Tick then 2 else 0
  {
  }

  /** After Close every step but a tick uses up rank, and a tick gives back at most one. */
  lemma {:induction false} LoopRunsDown(r: Run, sizes: Sizes, c: nat, n: nat)
    requires IsRun(r, sizes) && c < |r.steps| && r.steps[c] == Close && NoCaptureFrom(r, c)
    requires c + 1 <= n < |r.states|
    ensures r.states[n].closing
    ensures (n - (c + 1)) + Rank(r.states[n]) <= Rank(r.states[c + 1]) + 2 * TicksIn(r.steps, c + 1, n)
  {
    if n == c + 1 {
      assert r.states[c + 1] == Next(r.states[c], sizes, r.steps[c]);
    } else {
      LoopRunsDown(r, sizes, c, n - 1);
      var step := r.steps[n - 1];
      assert r.states[n] == Next(r.states[n - 1], sizes, step) && !step.Capture?;
      StepUsesRank(r.states[n - 1], sizes, step);
    }
  }

  lemma RankIsBounded(s: State, sizes: Sizes)
    requires Conserved(s, sizes)
    ensures Rank(s) <= 4 + 2 * sizes.buffer
  {
  }

  predicate CanMove(s: State) {
    Enabled(s, Stop) || Enabled(s, DrainOne) || Enabled(s, DrainEnd) || Enabled(s, SendDone(true))
  }

  /**
   The loop terminates: after Close and without captures it takes at most 2 * buffer + 4 steps
   that are not ticks, one more for each tick, and while it is not done one of them can be taken.
   */
  lemma LoopTerminates(r: Run, sizes: Sizes, c: nat, n: nat)
    requires sizes.batch > 0 && IsRun(r, sizes) && c < |r.steps| && r.steps[c] == Close && NoCaptureFrom(r, c)
    requires c + 1 <= n < |r.states|
    ensures n - (c + 1) <= 2 * sizes.buffer + 4 + 2 * TicksIn(r.steps, c + 1, n)
    ensures r.states[n].phase != Done <==> CanMove(r.states[n])
  {
    LoopRunsDown(r, sizes, c, n);
    EventsAreConserved(r, sizes, c + 1);
    RankIsBounded(r.states[c + 1], sizes);
  }

  /** A loop that is done sends nothing more: what is captured later stays in the channel, uncounted. */
  lemma {:induction false} DoneIsFinal(r: Run, sizes: Sizes, n: nat, m: nat)
    requires IsRun(r, sizes) && n <= m < |r.states| && r.states[n].phase == Done
    ensures r.states[m].phase == Done && r.states[m].p.sent == r.states[n].p.sent
    ensures r.states[n].p.ch <= r.states[m].p.ch
    ensures r.states[m].p.dropped - r.states[n].p.dropped == r.states[m].refused - r.states[n].refused
  {
    if n < m {
      DoneIsFinal(r, sizes, n, m - 1);
      assert Enabled(r.states[m - 1], r.steps[m - 1]);
      assert r.states[m] == Next(r.states[m - 1], sizes, r.steps[m - 1]);
    }
  }

  // ---------------------------------------------------------------------------------------
  // Splitting and joining
  // ---------------------------------------------------------------------------------------

  function Split(s: string, sep: char): (parts: seq<string>)
    ensures parts != []
  {
    if s == "" then [""]
    else
      var rest := Split(s[1..], sep);
      if s[0] == sep then [""] + rest else [[s[0]] + rest[0]] + rest[1..]
  }

  function Join(parts: seq<string>, sep: char): string {
    if parts == [] then ""
    else if |parts| == 1 then parts[0]
    else parts[0] + [sep] + Join(parts[1..], sep)
  }

  /** `done` are the parts already cut off; `open` is the beginning of the next one. */
  function Resume(done: seq<string>, open: string, rest: seq<string>): seq<string>
    requires rest != []
  {
    done + [open + rest[0]] + rest[1..]
  }

  lemma CutHere(done: seq<string>, open: string, s: string, sep: char)
    requires s != "" && s[0] == sep
    ensures Resume(done, open, Split(s, sep)) == Resume(done + [open], "", Split(s[1..], sep))
  {
    var rest := Split(s[1..], sep);
    assert ([""] + rest)[1..] == rest && ([""] + rest)[0] == "";
    assert [rest[0]] + rest[1..] == rest;
    assert "" + rest[0] == rest[0] && open + "" == open;
  }

  lemma GoOn(done: seq<string>, open: string, s: string, sep: char)
    requires s != "" && s[0] != sep
    ensures Resume(done, open, Split(s, sep)) == Resume(done, open + [s[0]], Split(s[1..], sep))
  {
    var rest := Split(s[1..], sep);
    var all := [[s[0]] + rest[0]] + rest[1..];
    assert all[1..] == rest[1..] && all[0] == [s[0]] + rest[0];
    assert open + ([s[0]] + rest[0]) == open + [s[0]] + rest[0];
  }

  lemma FromTheStart(parts: seq<string>)
    requires parts != []
    ensures Resume([], "", parts) == parts
  {
    assert "" + parts[0] == parts[0];
  }

  method BytesSplit(s: string, sep: char) returns (out: seq<string>)
    ensures out == Split(s, sep)
  {
    out := [];
    var start := 0;
    FromTheStart(Split(s, sep));
    assert s[0..] == s;
    for i := 0 to |s|
      invariant start <= i
      invariant Resume(out, s[start..i], Split(s[i..], sep)) == Split(s, sep)
    {
      assert s[i..][1..] == s[i + 1..] && s[i..][0] == s[i];
      if s[i] == sep {
        CutHere(out, s[start..i], s[i..], sep);
        out := out + [s[start..i]];
        start := i + 1;
        assert s[start..i + 1] == "";
      } else {
        GoOn(out, s[start..i], s[i..], sep);
        assert s[start..i + 1] == s[start..i] + [s[i]];
      }
    }
    assert s[|s|..] == "" && s[start..|s|] == s[start..] && s[start..] + "" == s[start..];
    out := out + [s[start..]];
  }

  lemma {:induction false} JoinOneMore(parts: seq<string>, last: string, sep: char)
    requires parts != []
    ensures Join(parts + [last], sep) == Join(parts, sep) + [sep] + last
  {
    if |parts| > 1 {
      JoinOneMore(parts[1..], last, sep);
      assert (parts + [last])[1..] == parts[1..] + [last];
    } else {
      assert (parts + [last])[1..] == [last];
    }
  }

  method JoinComma(s: seq<string>) returns (out: string)
    ensures out == Join(s, ',')
  {
    if |s| == 0 {
      return "";
    }
    out := s[0];
    assert s[..1] == [s[0]];
    for i := 1 to |s|
      invariant out == Join(s[..i], ',')
    {
      JoinOneMore(s[..i], s[i], ',');
      assert s[..i + 1] == s[..i] + [s[i]];
      out := out + ("," + s[i]);
    }
    assert s[..|s|] == s;
  }

  /** Joining what was split gives the string back. */
  lemma {:induction false} JoinOfSplit(s: string, sep: char)
    ensures Join(Split(s, sep), sep) == s
  {
    if s != "" {
      JoinOfSplit(s[1..], sep);
      var rest := Split(s[1..], sep);
      if s[0] == sep {
        assert ([""] + rest)[1..] == rest;
      } else {
        var all := [[s[0]] + rest[0]] + rest[1..];
        assert all[1..] == rest[1..];
        assert Join(all, sep) == [s[0]] + Join(rest, sep);
      }
    }
  }

  lemma {:induction false} SplitWithout(p: string, sep: char)
    requires sep !in p
    ensures Split(p, sep) == [p]
  {
    if p != "" {
      SplitWithout(p[1..], sep);
      assert [p[0]] + p[1..] == p;
      assert [p[1..]][1..] == [];
    }
  }

  lemma {:induction false} SplitAfterPart(p: string, s: string, sep: char)
    requires sep !in p
    ensures Split(p + [sep] + s, sep) == [p] + Split(s, sep)
  {
    var all := p + [sep] + s;
    if p == "" {
      assert all[1..] == s;
    } else {
      assert all[1..] == p[1..] + [sep] + s;
      SplitAfterPart(p[1..], s, sep);
      var rest := [p[1..]] + Split(s, sep);
      assert rest[1..] == Split(s, sep);
      assert [p[0]] + p[1..] == p;
    }
  }

  /** Splitting what was joined gives the list back, when no element holds the separator. */
  lemma {:induction false} SplitOfJoin(parts: seq<string>, sep: char)
    requires parts != [] && forall p | p in parts :: sep !in p
    ensures Split(Join(parts, sep), sep) == parts
    decreases |parts|
  {
    if |parts| == 1 {
      SplitWithout(parts[0], sep);
    } else {
      SplitOfJoin(parts[1..], sep);
      SplitAfterPart(parts[0], Join(parts[1..], sep), sep);
    }
  }
}
