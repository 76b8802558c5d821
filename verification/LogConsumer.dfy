/**
 The log consumer: the batcher of log-consumer/internal/usecase/batcher.go and the two
 goroutines of log-consumer/internal/adapter/kafka/consumer.go that share it under a mutex.

 Inserting a batch into the sink is atomic: all of its rows or none.
 */
module LogConsumer {
  import opened Common

  type Record = string // a Kafka record's value
  type Row = string    // a decoded event

  type Decoder = Record -> Option<Row>

  // ---------------------------------------------------------------------------------------
  // The batcher
  // ---------------------------------------------------------------------------------------

  datatype Limits = Limits(maxSize: int, maxWait: int)

  ghost predicate Usable(l: Limits) { l.maxSize > 0 && l.maxWait > 0 }

  /** The batcher and its sink: rows waiting, when they are due, and rows in the sink. */
  datatype Batch = Batch(pending: seq<Row>, deadline: int, inserted: seq<Row>)

  /** A failed insert keeps the rows. */
  function FlushStep(b: Batch, ok: bool): Batch {
    if b.pending == [] || !ok then b else Batch([], b.deadline, b.inserted + b.pending)
  }

  function AddStep(b: Batch, l: Limits, row: Row, now: int, ok: bool): Batch {
    var added := Batch(b.pending + [row], if b.pending == [] then now + l.maxWait else b.deadline, b.inserted);
    if |added.pending| >= l.maxSize then FlushStep(added, ok) else added
  }

  function TickStep(b: Batch, now: int, ok: bool): Batch {
    if b.pending == [] || now < b.deadline then b else FlushStep(b, ok)
  }

  class Sink {
    var rows: seq<Row>

    constructor ()
      ensures rows == []
    {
      rows := [];
    }

    method Insert(batch: seq<Row>, ok: bool) returns (err: bool)
      modifies this
      ensures err == !ok && rows == if ok then old(rows) + batch else old(rows)
    {
      if ok {
        rows := rows + batch;
      }
      err := !ok;
    }
  }

  class Batcher {
    const sink: Sink
    const limits: Limits
    var pending: seq<Row>
    var deadline: int

    /** Sizes and waits that are not positive fall back to 1000 rows and one second. */
    constructor (sink: Sink, maxSize: int, maxWait: int)
      ensures this.sink == sink && Usable(limits) && pending == []
      ensures maxSize > 0 ==> limits.maxSize == maxSize
      ensures maxSize <= 0 ==> limits.maxSize == 1000
      ensures maxWait > 0 ==> limits.maxWait == maxWait
      ensures maxWait <= 0 ==> limits.maxWait == 1_000_000_000
    {
      this.sink := sink;
      this.limits := Limits(if maxSize <= 0 then 1000 else maxSize, if maxWait <= 0 then 1_000_000_000 else maxWait);
      this.pending := [];
      this.deadline := 0;
    }

    ghost function State(): Batch
      reads this, sink
    {
      Batch(pending, deadline, sink.rows)
    }

    method Add(row: Row, now: int, ok: bool) returns (err: bool)
      modifies this, sink
      ensures State() == AddStep(old(State()), limits, row, now, ok)
      ensures |old(pending)| + 1 < limits.maxSize ==> pending == old(pending) + [row] && sink.rows == old(sink.rows)
      ensures |old(pending)| + 1 >= limits.maxSize && ok ==>
                pending == [] && sink.rows == old(sink.rows) + old(pending) + [row]
      ensures err <==> |old(pending)| + 1 >= limits.maxSize && !ok
    {
      if |pending| == 0 {
        deadline := now + limits.maxWait;
      }
      pending := pending + [row];
      if |pending| >= limits.maxSize {
        err := Flush(ok);
        return;
      }
      return false;
    }

    method MaybeFlush(now: int, ok: bool) returns (err: bool)
      modifies this, sink
      ensures State() == TickStep(old(State()), now, ok)
      ensures now < old(deadline) ==> pending == old(pending) && sink.rows == old(sink.rows)
      ensures old(pending) != [] && now >= old(deadline) && ok ==>
                pending == [] && sink.rows == old(sink.rows) + old(pending)
      ensures err <==> old(pending) != [] && now >= old(deadline) && !ok
    {
      if |pending| == 0 {
        return false;
      }
      if now < deadline {
        return false;
      }
      err := Flush(ok);
    }

    method Flush(ok: bool) returns (err: bool)
      modifies this, sink
      ensures State() == FlushStep(old(State()), ok)
      ensures err <==> old(pending) != [] && !ok
    {
      if |pending| == 0 {
        return false;
      }
      err := sink.Insert(pending, ok);
      if err {
        return true;
      }
      pending := [];
      return false;
    }
  }

  // ---------------------------------------------------------------------------------------
  // The two goroutines
  // ---------------------------------------------------------------------------------------

  datatype Poller = Polling | Waiting | Flushed | Closed

  datatype Ticker = Selecting | Committing | Stopped

  /** The partition as the consumer sees it. */
  datatype Offsets = Offsets(
    polled: seq<Record>,      // everything PollFetches has returned, in order
    handed: nat,              // how many of them the poll loop has been through
    committed: nat)           // how many of them are committed

  datatype Control = Control(cancelled: bool, poller: Poller, ticker: Ticker)

  datatype Dates = Dates(
    now: int,
    lastTick: int,
    addedAt: seq<int>,        // when each inserted or pending row was added
    insertedAt: seq<int>)     // when each inserted row was inserted

  datatype State = State(b: Batch, q: Offsets, c: Control, d: Dates)

  datatype Step =
    | Poll(records: seq<Record>) // PollFetches returns; after cancellation its records are not handled
    | Handle(ok: bool)           // one record: decode it and, if that works, Add it under the mutex
    | Tick(ok: bool)             // MaybeFlush under the mutex
    | Commit(ok: bool)           // the ticker commits every polled offset, whatever MaybeFlush returned
    | Cancel
    | StopTicker
    | FinalFlush(ok: bool)
    | FinalCommit(ok: bool)

  function Initial(now: int): State {
    State(Batch([], 0, []), Offsets([], 0, 0), Control(false, Polling, Selecting), Dates(now, now, [], []))
  }

  predicate Enabled(s: State, step: Step) {
    match step
    case Poll(_) => s.c.poller == Polling && s.q.handed == |s.q.polled|
    case Handle(_) => s.c.poller == Polling && s.q.handed < |s.q.polled|
    case Tick(_) => s.c.ticker == Selecting
    case Commit(_) => s.c.ticker == Committing
    case Cancel => !s.c.cancelled
    case StopTicker => s.c.cancelled && s.c.ticker == Selecting
    case FinalFlush(_) => s.c.poller == Waiting && s.c.ticker == Stopped
    case FinalCommit(_) => s.c.poller == Flushed
  }

  function Repeat(t: int, n: int): seq<int> { if n <= 0 then [] else seq(n, i => t) }

  /** Dates the rows that moved between `b` and `b'`. */
  function Redate(d: Dates, b: Batch, b': Batch): Dates {
    d.(addedAt := d.addedAt + Repeat(d.now, |b'.inserted| + |b'.pending| - |b.inserted| - |b.pending|),
       insertedAt := d.insertedAt + Repeat(d.now, |b'.inserted| - |b.inserted|))
  }

  function Committed(q: Offsets, ok: bool): Offsets { if ok then q.(committed := |q.polled|) else q }

  /** The batcher and its dates after one record. */
  function Handled(b: Batch, d: Dates, l: Limits, row: Option<Row>, ok: bool): (Batch, Dates) {
    match row
    case None => (b, d)
    case Some(row) =>
      var b' := AddStep(b, l, row, d.now, ok);
      (b', Redate(d, b, b'))
  }

  function Next(s: State, l: Limits, decode: Decoder, step: Step): State
    requires Enabled(s, step)
  {
    match step
    case Poll(records) =>
      s.(q := s.q.(polled := s.q.polled + records), c := if s.c.cancelled then s.c.(poller := Waiting) else s.c)
    case Handle(ok) =>
      var (b, d) := Handled(s.b, s.d, l, decode(s.q.polled[s.q.handed]), ok);
      State(b, s.q.(handed := s.q.handed + 1), s.c, d)
    case Tick(ok) =>
      var b := TickStep(s.b, s.d.now, ok);
      State(b, s.q, s.c.(ticker := Committing), Redate(s.d, s.b, b).(lastTick := s.d.now))
    case Commit(ok) => s.(q := Committed(s.q, ok), c := s.c.(ticker := Selecting))
    case Cancel => s.(c := s.c.(cancelled := true))
    case StopTicker => s.(c := s.c.(ticker := Stopped))
    case FinalFlush(ok) =>
      var b := FlushStep(s.b, ok);
      State(b, s.q, s.c.(poller := Flushed), Redate(s.d, s.b, b))
    case FinalCommit(ok) => s.(q := Committed(s.q, ok), c := s.c.(poller := Closed))
  }

  /** The same state at a later time. */
  function AtTime(s: State, now: int): State { s.(d := s.d.(now := now)) }

  /** A step and the time at which it is taken. */
  datatype Event = Event(at: int, step: Step)

  datatype Run = Run(start: int, events: seq<Event>)

  /** The state after the first `n` events; None when one of them could not be taken. */
  function After(r: Run, l: Limits, decode: Decoder, n: nat): Option<State>
    requires n <= |r.events|
  {
    if n == 0 then Some(Initial(r.start))
    else
      var e := r.events[n - 1];
      match After(r, l, decode, n - 1)
      case None => None
      case Some(s) =>
        if e.at < s.d.now || !Enabled(s, e.step) then None
        else Some(Next(AtTime(s, e.at), l, decode, e.step))
  }

  ghost predicate Reaches(r: Run, l: Limits, decode: Decoder, s: State) {
    Usable(l) && After(r, l, decode, |r.events|) == Some(s)
  }

  /** The rows the records decode to, in order; records that do not decode are skipped. */
  function Decoded(records: seq<Record>, decode: Decoder): seq<Row> {
    if records == [] then []
    else
      Decoded(records[..|records| - 1], decode)
      + (match decode(records[|records| - 1]) case None => [] case Some(row) => [row])
  }

  // ---------------------------------------------------------------------------------------
  // Nothing lost, nothing twice
  // ---------------------------------------------------------------------------------------

  ghost predicate Conserved(b: Batch, q: Offsets, decode: Decoder) {
    && q.handed <= |q.polled|
    && q.committed <= |q.polled|
    && b.inserted + b.pending == Decoded(q.polled[..q.handed], decode)
  }

  lemma ConservedStep(s: State, l: Limits, decode: Decoder, step: Step)
    requires Enabled(s, step) && Conserved(s.b, s.q, decode)
    ensures var s' := Next(s, l, decode, step); Conserved(s'.b, s'.q, decode)
  {
    match step
    case Poll(records) =>
      assert (s.q.polled + records)[..s.q.handed] == s.q.polled[..s.q.handed];
    case Handle(ok) =>
      var records := s.q.polled[..s.q.handed + 1];
      assert records[..|records| - 1] == s.q.polled[..s.q.handed];
      if decode(s.q.polled[s.q.handed]).Some? {
        var row := decode(s.q.polled[s.q.handed]).value;
        var b := AddStep(s.b, l, row, s.d.now, ok);
        assert b.inserted + b.pending == (s.b.inserted + s.b.pending) + [row];
      }
    case _ =>
  }

  /** Event `n` is a step of the machine, taken at its time. */
  lemma EventIsStep(r: Run, l: Limits, decode: Decoder, n: nat) returns (before: State, s: State, step: Step)
    requires 0 < n <= |r.events| && After(r, l, decode, n).Some?
    ensures After(r, l, decode, n - 1) == Some(before) && step == r.events[n - 1].step
    ensures s == AtTime(before, r.events[n - 1].at) && before.d.now <= s.d.now
    ensures Enabled(s, step) && After(r, l, decode, n) == Some(Next(s, l, decode, step))
  {
    before := After(r, l, decode, n - 1).value;
    s := AtTime(before, r.events[n - 1].at);
    step := r.events[n - 1].step;
  }

  /**
   In every run, whatever the interleaving and whichever inserts fail: the rows in the sink
   followed by the rows waiting are the decodable records handled so far, in order.
   */
  lemma {:induction false} RowsAreConserved(r: Run, l: Limits, decode: Decoder, n: nat)
    requires n <= |r.events| && After(r, l, decode, n).Some?
    ensures var s := After(r, l, decode, n).value; Conserved(s.b, s.q, decode)
  {
    if n > 0 {
      var _, s, step := EventIsStep(r, l, decode, n);
      RowsAreConserved(r, l, decode, n - 1);
      ConservedStep(s, l, decode, step);
    }
  }

  /** The final flush, whether it succeeds or not, is the last that happens to the batch. */
  lemma {:induction false} FinalFlushIsLast(r: Run, l: Limits, decode: Decoder, f: nat, n: nat)
    requires f < n <= |r.events| && After(r, l, decode, n).Some? && r.events[f].step.FinalFlush?
    ensures After(r, l, decode, f).Some?
    ensures var before, s := After(r, l, decode, f).value, After(r, l, decode, n).value;
            && (s.c.poller == Flushed || s.c.poller == Closed) && s.c.ticker == Stopped
            && s.b == FlushStep(before.b, r.events[f].step.ok)
  {
    var _, s, step := EventIsStep(r, l, decode, n);
    if f + 1 < n {
      FinalFlushIsLast(r, l, decode, f, n - 1);
    }
  }

  /**
   After a final flush that succeeds, and for the rest of the run, nothing waits: every row handled
   is in the sink, once and in order.
   */
  lemma FinalFlushDrains(r: Run, l: Limits, decode: Decoder, f: nat, n: nat)
    requires f < n <= |r.events| && After(r, l, decode, n).Some? && r.events[f].step == FinalFlush(true)
    ensures var s := After(r, l, decode, n).value;
            && (s.c.poller == Flushed || s.c.poller == Closed) && s.c.ticker == Stopped
            && s.b.pending == []
            && s.q.handed <= |s.q.polled| && s.b.inserted == Decoded(s.q.polled[..s.q.handed], decode)
  {
    FinalFlushIsLast(r, l, decode, f, n);
    RowsAreConserved(r, l, decode, n);
  }

  /** The poll loop goes through the records it has, whatever becomes of the inserts. */
  function HandleAll(s: State, l: Limits, decode: Decoder, ok: bool): State
    requires s.c.poller == Polling && s.q.handed <= |s.q.polled|
    decreases |s.q.polled| - s.q.handed
  {
    if s.q.handed == |s.q.polled| then s else HandleAll(Next(s, l, decode, Handle(ok)), l, decode, ok)
  }

  /**
   A poll's records are all handled, those that do not decode are skipped, and the next poll can
   begin: no record holds the loop up.
   */
  lemma {:induction false} PollIsHandled(s: State, l: Limits, decode: Decoder, ok: bool)
    requires s.c.poller == Polling && Conserved(s.b, s.q, decode)
    ensures var end := HandleAll(s, l, decode, ok);
            && end.q == s.q.(handed := |s.q.polled|) && Enabled(end, Poll([]))
            && end.b.inserted + end.b.pending == Decoded(s.q.polled, decode)
    decreases |s.q.polled| - s.q.handed
  {
    if s.q.handed == |s.q.polled| {
      assert s.q.polled[..s.q.handed] == s.q.polled;
    } else {
      ConservedStep(s, l, decode, Handle(ok));
      PollIsHandled(Next(s, l, decode, Handle(ok)), l, decode, ok);
    }
  }

  // ---------------------------------------------------------------------------------------
  // Offsets
  // ---------------------------------------------------------------------------------------

  /** Every decodable record whose offset is committed is in the sink. */
  ghost predicate CommittedIsInserted(s: State, decode: Decoder)
    requires s.q.committed <= |s.q.polled|
  {
    Decoded(s.q.polled[..s.q.committed], decode) <= s.b.inserted
  }

  lemma {:induction false} DecodedConcat(a: seq<Record>, b: seq<Record>, decode: Decoder)
    ensures Decoded(a + b, decode) == Decoded(a, decode) + Decoded(b, decode)
  {
    if b == [] {
      assert a + b == a;
    } else {
      assert (a + b)[..|a + b| - 1] == a + b[..|b| - 1];
      DecodedConcat(a, b[..|b| - 1], decode);
    }
  }

  /**
   The ticker commits whatever the flush did. So after a commit, committed rows are in the sink
   exactly when, before it, no row was waiting and no polled record still had a row to give.
   */
  lemma CommitCoversExactlyWhenIdle(s: State, l: Limits, decode: Decoder, step: Step)
    requires Conserved(s.b, s.q, decode) && Enabled(s, step) && (step == Commit(true) || step == FinalCommit(true))
    ensures CommittedIsInserted(Next(s, l, decode, step), decode)
       <==> s.b.pending == [] && Decoded(s.q.polled[s.q.handed..], decode) == []
  {
    var handled, rest := s.q.polled[..s.q.handed], s.q.polled[s.q.handed..];
    assert s.q.polled == handled + rest && s.q.polled[..|s.q.polled|] == s.q.polled;
    DecodedConcat(handled, rest, decode);
    var all := Decoded(s.q.polled, decode);
    assert |all| == |s.b.inserted| + |s.b.pending| + |Decoded(rest, decode)|;
    if all <= s.b.inserted {
      assert |all| <= |s.b.inserted|;
    }
  }

  /** An insert that fails at the tick: the offset is committed, the row is only in memory. */
  lemma CommitRunsAhead(row: Row) returns (r: Run, s: State)
    ensures Reaches(r, Limits(10, 5), rec => Some(rec), s)
    ensures s.q.committed == 1 && s.q.polled == [row] && s.b.inserted == [] && s.b.pending == [row]
  {
    var l, decode := Limits(10, 5), (rec: Record) => Some(rec);
    r := Run(0, [Event(0, Poll([row])), Event(0, Handle(true)), Event(5, Tick(false)), Event(5, Commit(true))]);
    var s1 := Next(Initial(0), l, decode, Poll([row]));
    var s2 := Next(s1, l, decode, Handle(true));
    assert s2.b == Batch([row], 5, []);
    var s3 := Next(AtTime(s2, 5), l, decode, Tick(false));
    s := Next(s3, l, decode, Commit(true));
    assert After(r, l, decode, 1) == Some(s1);
    assert After(r, l, decode, 2) == Some(s2);
    assert After(r, l, decode, 3) == Some(s3);
    assert After(r, l, decode, 4) == Some(s);
  }

  /**
   Records that a poll returns once the context is cancelled are never handled, and the final
   commit covers them: with every insert successful, a row is still lost.
   */
  lemma ShutdownSkipsPolledRecords(row: Row) returns (r: Run, s: State)
    ensures Reaches(r, Limits(10, 5), rec => Some(rec), s)
    ensures s.c.poller == Closed && s.q.committed == 1 && s.q.polled == [row] && s.b.inserted == s.b.pending == []
  {
    var l, decode := Limits(10, 5), (rec: Record) => Some(rec);
    r := Run(0, [Event(0, Cancel), Event(0, Poll([row])), Event(0, StopTicker),
                 Event(0, FinalFlush(true)), Event(0, FinalCommit(true))]);
    var s1 := Next(Initial(0), l, decode, Cancel);
    var s2 := Next(s1, l, decode, Poll([row]));
    var s3 := Next(s2, l, decode, StopTicker);
    var s4 := Next(s3, l, decode, FinalFlush(true));
    s := Next(s4, l, decode, FinalCommit(true));
    assert After(r, l, decode, 1) == Some(s1);
    assert After(r, l, decode, 2) == Some(s2);
    assert After(r, l, decode, 3) == Some(s3);
    assert After(r, l, decode, 4) == Some(s4);
    assert After(r, l, decode, 5) == Some(s);
  }

  /** The records of a poll that returns after cancellation are never handled. */
  lemma {:induction false} CancelledPollIsNotHandled(r: Run, l: Limits, decode: Decoder, p: nat, n: nat)
    requires p < n <= |r.events| && After(r, l, decode, n).Some?
    requires After(r, l, decode, p).Some? && After(r, l, decode, p).value.c.cancelled && r.events[p].step.Poll?
    ensures var before, s := After(r, l, decode, p).value, After(r, l, decode, n).value;
            && s.c.poller != Polling && s.q.handed == |before.q.polled|
            && s.q.polled == before.q.polled + r.events[p].step.records
  {
    var _, s, step := EventIsStep(r, l, decode, n);
    if p + 1 < n {
      assert After(r, l, decode, n - 1).Some?;
      CancelledPollIsNotHandled(r, l, decode, p, n - 1);
    }
  }

  /**
   What a shutdown loses, exactly. Every decodable polled record is in the sink if and only if the
   poll that returned after cancellation brought none, and the final flush succeeded or had nothing
   to insert. The final commit covers all of them in any case.
   */
  lemma ShutdownIsCompleteIff(r: Run, l: Limits, decode: Decoder, p: nat, f: nat, n: nat)
    requires p < f < n <= |r.events| && After(r, l, decode, n).Some?
    requires After(r, l, decode, p).Some? && After(r, l, decode, p).value.c.cancelled && r.events[p].step.Poll?
    requires r.events[f].step.FinalFlush?
    ensures After(r, l, decode, f).Some?
    ensures var s, waiting := After(r, l, decode, n).value, After(r, l, decode, f).value.b.pending;
            s.b.inserted == Decoded(s.q.polled, decode) <==>
              Decoded(r.events[p].step.records, decode) == [] && (waiting == [] || r.events[f].step.ok)
  {
    CancelledPollIsNotHandled(r, l, decode, p, n);
    FinalFlushIsLast(r, l, decode, f, n);
    RowsAreConserved(r, l, decode, n);
    var handled := After(r, l, decode, p).value.q.polled;
    var s := After(r, l, decode, n).value;
    assert s.q.polled[..s.q.handed] == handled;
    DecodedConcat(handled, r.events[p].step.records, decode);
    var late := Decoded(r.events[p].step.records, decode);
    assert |Decoded(s.q.polled, decode)| == |s.b.inserted| + |s.b.pending| + |late|;
  }

  // ---------------------------------------------------------------------------------------
  // Batching
  // ---------------------------------------------------------------------------------------

  /** The batch is full with the row that comes, its time has come, or it is the last flush. */
  predicate IsDue(before: State, l: Limits, e: Event) {
    match e.step
    case Handle(_) => |before.b.pending| + 1 >= l.maxSize
    case Tick(_) => before.b.pending != [] && e.at >= before.b.deadline
    case FinalFlush(_) => true
    case _ => false
  }

  /** Rows get into the sink only as a full batch, at a tick not before the deadline, or at the end. */
  lemma InsertsOnlyWhenDue(r: Run, l: Limits, decode: Decoder, n: nat)
    requires n < |r.events| && After(r, l, decode, n + 1).Some?
    requires After(r, l, decode, n).Some?
    ensures var before, s := After(r, l, decode, n).value, After(r, l, decode, n + 1).value;
            s.b.inserted != before.b.inserted ==> IsDue(before, l, r.events[n])
  {
    var before, s, step := EventIsStep(r, l, decode, n + 1);
  }

  /** And when a batch is due at a tick or at the end, and the sink works, all of it gets there. */
  lemma DueBatchIsInserted(r: Run, l: Limits, decode: Decoder, n: nat)
    requires n < |r.events| && After(r, l, decode, n + 1).Some? && After(r, l, decode, n).Some?
    requires r.events[n].step.Tick? || r.events[n].step.FinalFlush?
    requires IsDue(After(r, l, decode, n).value, l, r.events[n]) && r.events[n].step.ok
    ensures var before, s := After(r, l, decode, n).value, After(r, l, decode, n + 1).value;
            s.b.inserted == before.b.inserted + before.b.pending && s.b.pending == []
  {
    var before, s, step := EventIsStep(r, l, decode, n + 1);
  }

  // ---------------------------------------------------------------------------------------
  // Latency
  // ---------------------------------------------------------------------------------------

  /** Times in ascending order, none later than `now`. */
  ghost predicate Ascending(times: seq<int>, now: int) {
    && (forall i, j | 0 <= i < j < |times| :: times[i] <= times[j])
    && (times != [] ==> times[|times| - 1] <= now)
  }

  /** Each row was inserted within `bound` of being added. */
  ghost predicate Prompt(insertedAt: seq<int>, addedAt: seq<int>, bound: int)
    requires |insertedAt| <= |addedAt|
  {
    forall i | 0 <= i < |insertedAt| :: insertedAt[i] - addedAt[i] < bound
  }

  /** While rows wait, the deadline is the oldest one's time plus the maximal wait, failures or not. */
  ghost predicate Dated(b: Batch, d: Dates, l: Limits) {
    && |d.addedAt| == |b.inserted| + |b.pending|
    && |d.insertedAt| == |b.inserted|
    && Ascending(d.addedAt, d.now)
    && d.lastTick <= d.now
    && (b.pending != [] ==> b.deadline == d.addedAt[|b.inserted|] + l.maxWait)
  }

  lemma AddDated(b: Batch, d: Dates, l: Limits, row: Row, ok: bool)
    requires Usable(l) && Dated(b, d, l)
    ensures var b' := AddStep(b, l, row, d.now, ok); Dated(b', Redate(d, b, b'), l)
  {
    var b' := AddStep(b, l, row, d.now, ok);
    assert Redate(d, b, b').addedAt == d.addedAt + [d.now];
  }

  lemma FlushDated(b: Batch, d: Dates, l: Limits, ok: bool)
    requires Dated(b, d, l)
    ensures var b' := FlushStep(b, ok); Dated(b', Redate(d, b, b'), l)
    ensures Redate(d, b, b) == d
  {
    assert Redate(d, b, FlushStep(b, ok)).addedAt == d.addedAt;
  }

  lemma DatedStep(s: State, l: Limits, decode: Decoder, step: Step)
    requires Usable(l) && Enabled(s, step) && Dated(s.b, s.d, l)
    ensures var s' := Next(s, l, decode, step); Dated(s'.b, s'.d, l)
  {
    match step
    case Handle(ok) =>
      if decode(s.q.polled[s.q.handed]).Some? {
        AddDated(s.b, s.d, l, decode(s.q.polled[s.q.handed]).value, ok);
      }
    case Tick(ok) => FlushDated(s.b, s.d, l, ok);
    case FinalFlush(ok) => FlushDated(s.b, s.d, l, ok);
    case _ =>
  }

  /** In every run the deadline is the oldest waiting row's time plus the maximal wait. */
  lemma {:induction false} DeadlineIsTheOldestRows(r: Run, l: Limits, decode: Decoder, n: nat)
    requires Usable(l) && n <= |r.events| && After(r, l, decode, n).Some?
    ensures var s := After(r, l, decode, n).value; Dated(s.b, s.d, l)
  {
    if n > 0 {
      var _, s, step := EventIsStep(r, l, decode, n);
      DeadlineIsTheOldestRows(r, l, decode, n - 1);
      DatedStep(s, l, decode, step);
    }
  }

  predicate Works(step: Step) {
    match step
    case Handle(ok) => ok
    case Tick(ok) => ok
    case FinalFlush(ok) => ok
    case _ => true
  }

  ghost predicate HealthyEvent(r: Run, l: Limits, decode: Decoder, tickEvery: int, i: nat)
    requires i < |r.events|
  {
    After(r, l, decode, i).Some? ==>
      Works(r.events[i].step) && r.events[i].at <= After(r, l, decode, i).value.d.lastTick + tickEvery
  }

  /** Every insert succeeds, and no event comes later than one tick interval after the last tick. */
  ghost predicate Healthy(r: Run, l: Limits, decode: Decoder, tickEvery: int) {
    forall i | 0 <= i < |r.events| :: HealthyEvent(r, l, decode, tickEvery, i)
  }

  /** Each waiting row was added less than `bound` ago. */
  ghost predicate Young(b: Batch, d: Dates, bound: int)
    requires |d.addedAt| == |b.inserted| + |b.pending|
  {
    forall i | |b.inserted| <= i < |d.addedAt| :: d.now - d.addedAt[i] < bound
  }

  /** No row is overdue at the last tick; rows waited, or have been waiting, less than the bound. */
  ghost predicate OnTime(b: Batch, d: Dates, l: Limits, tickEvery: int) {
    && Dated(b, d, l)
    && (b.pending != [] ==> d.lastTick < b.deadline && d.now <= d.lastTick + tickEvery)
    && Prompt(d.insertedAt, d.addedAt, l.maxWait + tickEvery)
  }

  lemma WaitingRowsAreYoung(b: Batch, d: Dates, l: Limits, tickEvery: int)
    requires OnTime(b, d, l, tickEvery)
    ensures Young(b, d, l.maxWait + tickEvery)
  {
    forall i | |b.inserted| <= i < |d.addedAt|
      ensures d.now - d.addedAt[i] < l.maxWait + tickEvery
    {
      assert d.addedAt[|b.inserted|] <= d.addedAt[i];
    }
  }

  lemma AddOnTime(b: Batch, d: Dates, l: Limits, row: Row, tickEvery: int)
    requires Usable(l) && OnTime(b, d, l, tickEvery) && d.now <= d.lastTick + tickEvery
    ensures var b' := AddStep(b, l, row, d.now, true); OnTime(b', Redate(d, b, b'), l, tickEvery)
  {
    AddDated(b, d, l, row, true);
    var b' := AddStep(b, l, row, d.now, true);
    var d' := Redate(d, b, b');
    assert d'.addedAt == d.addedAt + [d.now];
    assert forall i | |b.inserted| <= i < |d.addedAt| :: d.addedAt[|b.inserted|] <= d.addedAt[i];
  }

  lemma FlushOnTime(b: Batch, d: Dates, l: Limits, tickEvery: int)
    requires Usable(l) && OnTime(b, d, l, tickEvery) && d.now <= d.lastTick + tickEvery
    ensures var b' := FlushStep(b, true); OnTime(b', Redate(d, b, b'), l, tickEvery)
    ensures Redate(d, b, b) == d
  {
    FlushDated(b, d, l, true);
    assert Redate(d, b, FlushStep(b, true)).addedAt == d.addedAt;
    assert forall i | |b.inserted| <= i < |d.addedAt| :: d.addedAt[|b.inserted|] <= d.addedAt[i];
  }

  lemma OnTimeStep(s: State, l: Limits, decode: Decoder, step: Step, tickEvery: int)
    requires Usable(l) && Enabled(s, step) && OnTime(s.b, s.d, l, tickEvery)
    requires Works(step) && s.d.now <= s.d.lastTick + tickEvery
    ensures var s' := Next(s, l, decode, step); OnTime(s'.b, s'.d, l, tickEvery)
  {
    match step
    case Handle(_) =>
      if decode(s.q.polled[s.q.handed]).Some? {
        AddOnTime(s.b, s.d, l, decode(s.q.polled[s.q.handed]).value, tickEvery);
      }
    case Tick(_) => FlushOnTime(s.b, s.d, l, tickEvery);
    case FinalFlush(_) => FlushOnTime(s.b, s.d, l, tickEvery);
    case _ =>
  }

  /**
   With ticks on time and a working sink, no row waits as long as the maximal wait plus one tick
   interval: neither the rows in the sink did, nor do the rows that are still waiting.
   */
  lemma {:induction false} RowsAreInsertedInTime(r: Run, l: Limits, decode: Decoder, tickEvery: int, n: nat)
    requires Usable(l) && Healthy(r, l, decode, tickEvery)
    requires n <= |r.events| && After(r, l, decode, n).Some?
    ensures var s := After(r, l, decode, n).value;
            && OnTime(s.b, s.d, l, tickEvery)
            && Prompt(s.d.insertedAt, s.d.addedAt, l.maxWait + tickEvery)
            && Young(s.b, s.d, l.maxWait + tickEvery)
  {
    if n > 0 {
      var _, s, step := EventIsStep(r, l, decode, n);
      RowsAreInsertedInTime(r, l, decode, tickEvery, n - 1);
      assert HealthyEvent(r, l, decode, tickEvery, n - 1);
      OnTimeStep(s, l, decode, step, tickEvery);
    }
    var s := After(r, l, decode, n).value;
    WaitingRowsAreYoung(s.b, s.d, l, tickEvery);
  }

  /** As long as the inserts of full batches succeed, fewer rows than a full batch wait, whenever ticks come. */
  lemma {:induction false} PendingBelowMax(r: Run, l: Limits, decode: Decoder, n: nat)
    requires Usable(l) && n <= |r.events| && After(r, l, decode, n).Some?
    requires forall i | 0 <= i < n && r.events[i].step.Handle? :: r.events[i].step.ok
    ensures |After(r, l, decode, n).value.b.pending| < l.maxSize
  {
    if n > 0 {
      var _, s, step := EventIsStep(r, l, decode, n);
      PendingBelowMax(r, l, decode, n - 1);
    }
  }
}
