/**
 The buffer pool of proxy-gateway/internal/usecase/proxy_request.go, shared by all requests. A
 request takes two buffers from it, one for its own body and one for the response. The
 transport fills the first while it sends the body, on its own goroutine, through a tee; it may
 still do so when the request has been answered and its buffers are back in the pool.

 Every byte carries the request it came from. A buffer the pool has dropped is one it does not
 hand out again.
 */
module PooledBuffers {
  import opened Common
  import StreamCopy

  type Request = nat

  type BufferId = nat

  datatype Byte = Byte(of: Request, value: char)

  /** A buffer and the request that has taken it; nobody has a buffer that is in the pool. */
  datatype Buffer = Buffer(bytes: seq<Byte>, holder: Option<Request>)

  /** A request being served. */
  datatype Slot = Slot(req: BufferId, res: BufferId, cap: int, emitted: bool)

  /** A transport that may still read a request's body, and where the tee writes. */
  datatype Tee = Tee(buf: BufferId, cap: int)

  datatype State = State(
    next: Request,
    bufs: map<BufferId, Buffer>,
    held: map<Request, Slot>,
    tees: map<Request, Tee>)

  datatype Step =
    | Begin(a: BufferId, b: BufferId, cap: int) // a request takes two buffers, from the pool or new
    | TeeWrite(q: Request, p: string)           // the transport reads some of the body
    | LetGo(q: Request)                         // the transport will not read the body again
    | Respond(q: Request, p: string)            // the handler captures some of the response
    | Emit(q: Request)                          // the event is built from both buffers
    | Put(q: Request)                           // both buffers are reset and go back to the pool

  const START := State(0, map[], map[], map[])

  predicate Free(s: State, b: BufferId) { b in s.bufs ==> s.bufs[b].holder.None? }

  function Contents(s: State, b: BufferId): seq<Byte> { if b in s.bufs then s.bufs[b].bytes else [] }

  predicate Enabled(s: State, step: Step) {
    match step
    case Begin(a, b, _) => a != b && Free(s, a) && Free(s, b)
    case TeeWrite(q, _) => q in s.tees && s.tees[q].buf in s.bufs
    case LetGo(q) => q in s.tees
    case Respond(q, _) => q in s.held && !s.held[q].emitted && s.held[q].res in s.bufs
    case Emit(q) => q in s.held && !s.held[q].emitted
    case Put(q) => q in s.held && s.held[q].emitted
  }

  function Tagged(q: Request, p: string): seq<Byte> { seq(|p|, i requires 0 <= i < |p| => Byte(q, p[i])) }

  /** What the capped writer of a request leaves in a buffer, whatever is in it. */
  function Appended(b: Buffer, q: Request, p: string, cap: int): Buffer {
    if |b.bytes| >= cap then b else b.(bytes := b.bytes + Tagged(q, StreamCopy.Take(p, cap - |b.bytes|)))
  }

  function Next(s: State, step: Step): State
    requires Enabled(s, step)
  {
    match step
    case Begin(a, b, cap) =>
      var q := s.next;
      State(q + 1, s.bufs[a := Buffer(Contents(s, a), Some(q))][b := Buffer(Contents(s, b), Some(q))],
            s.held[q := Slot(a, b, cap, false)], s.tees[q := Tee(a, cap)])
    case TeeWrite(q, p) =>
      var t := s.tees[q];
      s.(bufs := s.bufs[t.buf := Appended(s.bufs[t.buf], q, p, t.cap)])
    case LetGo(q) => s.(tees := s.tees - {q})
    case Respond(q, p) =>
      var slot := s.held[q];
      s.(bufs := s.bufs[slot.res := Appended(s.bufs[slot.res], q, p, slot.cap)])
    case Emit(q) => s.(held := s.held[q := s.held[q].(emitted := true)])
    case Put(q) =>
      var slot := s.held[q];
      s.(bufs := s.bufs[slot.req := Buffer([], None)][slot.res := Buffer([], None)], held := s.held - {q})
  }

  datatype Run = Run(states: seq<State>, steps: seq<Step>)

  ghost predicate IsRun(r: Run) {
    && |r.states| == |r.steps| + 1
    && forall i | 0 <= i < |r.steps| ::
         Enabled(r.states[i], r.steps[i]) && r.states[i + 1] == Next(r.states[i], r.steps[i])
  }

  // ---------------------------------------------------------------------------------------
  // Whose bytes
  // ---------------------------------------------------------------------------------------

  predicate AllOf(bytes: seq<Byte>, q: Request) { forall k | 0 <= k < |bytes| :: bytes[k].of == q }

  /** The event of a request holds bytes of that request only. */
  predicate OwnEvent(s: State, q: Request)
    requires q in s.held
  {
    AllOf(Contents(s, s.held[q].req), q) && AllOf(Contents(s, s.held[q].res), q)
  }

  /** The transport can still write to the tee's buffer. */
  predicate Reading(s: State, q: Request) { q in s.tees && s.tees[q].cap > 0 }

  /** No request gives its buffers back while its transport can still write. */
  predicate Prompt(s: State, step: Step) { step.Put? ==> !Reading(s, step.q) }

  ghost predicate PromptFrom(r: Run, i: nat)
    requires IsRun(r)
  {
    forall j | i <= j < |r.steps| :: Prompt(r.states[j], r.steps[j])
  }

  predicate EmitsOwn(s: State, step: Step)
    requires Enabled(s, step)
  {
    step.Emit? ==> OwnEvent(s, step.q)
  }

  ghost predicate EmitsOwnFrom(r: Run, i: nat)
    requires IsRun(r)
  {
    forall j | i <= j < |r.steps| :: EmitsOwn(r.states[j], r.steps[j])
  }

  // ---------------------------------------------------------------------------------------
  // What every step keeps
  // ---------------------------------------------------------------------------------------

  predicate OlderThan(bytes: seq<Byte>, q: Request) { forall k | 0 <= k < |bytes| :: bytes[k].of < q }

  ghost predicate SlotHeld(s: State, q: Request)
    requires q in s.held
  {
    var slot := s.held[q];
    && q < s.next && slot.req != slot.res && slot.req in s.bufs && slot.res in s.bufs
    && s.bufs[slot.req].holder == s.bufs[slot.res].holder == Some(q)
  }

  ghost predicate BufferKnown(s: State, b: BufferId)
    requires b in s.bufs
  {
    && OlderThan(s.bufs[b].bytes, s.next)
    && (s.bufs[b].holder.Some? ==>
          var q := s.bufs[b].holder.value; q in s.held && (b == s.held[q].req || b == s.held[q].res))
  }

  ghost predicate TeeKnown(s: State, q: Request)
    requires q in s.tees
  {
    && q < s.next && s.tees[q].buf in s.bufs
    && (q in s.held ==> s.tees[q] == Tee(s.held[q].req, s.held[q].cap))
  }

  ghost predicate WellFormed(s: State) {
    && (forall q | q in s.held :: SlotHeld(s, q))
    && (forall b | b in s.bufs :: BufferKnown(s, b))
    && (forall q | q in s.tees :: TeeKnown(s, q))
  }

  lemma SlotStaysHeld(s: State, step: Step, q: Request)
    requires WellFormed(s) && Enabled(s, step) && q in Next(s, step).held
    ensures SlotHeld(Next(s, step), q)
  {
    if q in s.held {
      assert SlotHeld(s, q);
      if step.Put? {
        assert SlotHeld(s, step.q);
      }
    }
  }

  lemma BufferStaysKnown(s: State, step: Step, b: BufferId)
    requires WellFormed(s) && Enabled(s, step) && b in Next(s, step).bufs
    ensures BufferKnown(Next(s, step), b)
  {
    if b in s.bufs {
      assert BufferKnown(s, b);
    }
    match step
    case TeeWrite(q, _) => assert TeeKnown(s, q);
    case Respond(q, _) => assert SlotHeld(s, q);
    case Put(q) => assert SlotHeld(s, q);
    case _ =>
  }

  lemma TeeStaysKnown(s: State, step: Step, q: Request)
    requires WellFormed(s) && Enabled(s, step) && q in Next(s, step).tees
    ensures TeeKnown(Next(s, step), q)
  {
    if q in s.tees {
      assert TeeKnown(s, q);
    }
  }

  lemma WellFormedStep(s: State, step: Step)
    requires WellFormed(s) && Enabled(s, step)
    ensures WellFormed(Next(s, step))
  {
    var s' := Next(s, step);
    forall q | q in s'.held
      ensures SlotHeld(s', q)
    {
      SlotStaysHeld(s, step, q);
    }
    forall b | b in s'.bufs
      ensures BufferKnown(s', b)
    {
      BufferStaysKnown(s, step, b);
    }
    forall q | q in s'.tees
      ensures TeeKnown(s', q)
    {
      TeeStaysKnown(s, step, q);
    }
  }

  lemma {:induction false} WellFormedFrom(r: Run, i: nat)
    requires IsRun(r) && i < |r.states| && WellFormed(r.states[0])
    ensures WellFormed(r.states[i])
  {
    if i > 0 {
      WellFormedFrom(r, i - 1);
      WellFormedStep(r.states[i - 1], r.steps[i - 1]);
    }
  }

  // ---------------------------------------------------------------------------------------
  // Clean states
  // ---------------------------------------------------------------------------------------

  /** What a buffer holds cannot get into another request's event. */
  predicate CleanBuffer(s: State, b: BufferId)
    requires b in s.bufs
  {
    match s.bufs[b].holder
    case None => s.bufs[b].bytes == []
    case Some(q) => q in s.held && !s.held[q].emitted ==> AllOf(s.bufs[b].bytes, q)
  }

  /** The pool is empty of bytes, no open event holds others' bytes, and nobody writes late. */
  ghost predicate Clean(s: State) {
    && (forall b | b in s.bufs :: CleanBuffer(s, b))
    && (forall q | q in s.tees :: Reading(s, q) ==> q in s.held)
  }

  lemma AppendedStaysOwn(b: Buffer, q: Request, p: string, cap: int)
    ensures AllOf(b.bytes, q) ==> AllOf(Appended(b, q, p, cap).bytes, q)
    ensures cap <= 0 ==> Appended(b, q, p, cap) == b
  {
  }

  /** A write by the transport or the handler, into one buffer. */
  lemma WriteStaysClean(s: State, step: Step, b: BufferId)
    requires WellFormed(s) && Enabled(s, step) && Clean(s) && b in s.bufs && (step.TeeWrite? || step.Respond?)
    ensures CleanBuffer(Next(s, step), b)
  {
    assert BufferKnown(s, b) && CleanBuffer(s, b);
    match step
    case TeeWrite(q, p) =>
      assert TeeKnown(s, q);
      assert Reading(s, q) ==> q in s.held;
      AppendedStaysOwn(s.bufs[b], q, p, s.tees[q].cap);
    case Respond(q, p) =>
      assert SlotHeld(s, q);
      AppendedStaysOwn(s.bufs[b], q, p, s.held[q].cap);
  }

  lemma BufferStaysClean(s: State, step: Step, b: BufferId)
    requires WellFormed(s) && Enabled(s, step) && Clean(s) && b in Next(s, step).bufs
    ensures CleanBuffer(Next(s, step), b)
  {
    if step.TeeWrite? || step.Respond? {
      WriteStaysClean(s, step, b);
    } else {
      if b in s.bufs {
        assert BufferKnown(s, b) && CleanBuffer(s, b);
      }
      if step.Put? {
        assert SlotHeld(s, step.q);
      }
    }
  }

  lemma CleanStep(s: State, step: Step)
    requires WellFormed(s) && Enabled(s, step) && Clean(s) && Prompt(s, step)
    ensures Clean(Next(s, step))
  {
    var s' := Next(s, step);
    forall b | b in s'.bufs
      ensures CleanBuffer(s', b)
    {
      BufferStaysClean(s, step, b);
    }
    forall q | q in s'.tees && Reading(s', q)
      ensures q in s'.held
    {
      if q in s.tees {
        assert Reading(s, q);
      }
    }
  }

  lemma CleanEmitsOwn(s: State, step: Step)
    requires WellFormed(s) && Enabled(s, step) && Clean(s)
    ensures EmitsOwn(s, step)
  {
    if step.Emit? {
      assert SlotHeld(s, step.q);
      assert CleanBuffer(s, s.held[step.q].req) && CleanBuffer(s, s.held[step.q].res);
    }
  }

  lemma {:induction false} CleanFrom(r: Run, i: nat)
    requires IsRun(r) && i < |r.states| && WellFormed(r.states[0]) && Clean(r.states[0]) && PromptFrom(r, 0)
    ensures Clean(r.states[i])
  {
    if i > 0 {
      CleanFrom(r, i - 1);
      WellFormedFrom(r, i - 1);
      assert Prompt(r.states[i - 1], r.steps[i - 1]);
      CleanStep(r.states[i - 1], r.steps[i - 1]);
    }
  }

  /**
   If every transport has let go of a request's body before the buffers go back to the pool, every
   event holds bytes of its own request only.
   */
  lemma EventsHoldTheirOwnBytes(r: Run)
    requires IsRun(r) && r.states[0] == START && PromptFrom(r, 0)
    ensures EmitsOwnFrom(r, 0)
  {
    forall i | 0 <= i < |r.steps|
      ensures EmitsOwn(r.states[i], r.steps[i])
    {
      WellFormedFrom(r, i);
      CleanFrom(r, i);
      CleanEmitsOwn(r.states[i], r.steps[i]);
    }
  }

  // ---------------------------------------------------------------------------------------
  // What an event holds
  // ---------------------------------------------------------------------------------------

  /** What a step moves of a request's body, and of its response. */
  function BodyPart(step: Step, q: Request): string { if step.TeeWrite? && step.q == q then step.p else "" }

  function ResponsePart(step: Step, q: Request): string { if step.Respond? && step.q == q then step.p else "" }

  /** What the first `i` steps have moved of a request's body, and of its response. */
  function BodyRead(steps: seq<Step>, i: nat, q: Request): string
    requires i <= |steps|
  {
    if i == 0 then "" else BodyRead(steps, i - 1, q) + BodyPart(steps[i - 1], q)
  }

  function Responded(steps: seq<Step>, i: nat, q: Request): string
    requires i <= |steps|
  {
    if i == 0 then "" else Responded(steps, i - 1, q) + ResponsePart(steps[i - 1], q)
  }

  /** Until the event is built, one buffer has the capped body and the other the capped response. */
  ghost predicate Captured(s: State, q: Request, body: string, response: string)
    requires q in s.held
  {
    var slot := s.held[q];
    !slot.emitted ==>
      && Contents(s, slot.req) == Tagged(q, StreamCopy.Take(body, slot.cap))
      && Contents(s, slot.res) == Tagged(q, StreamCopy.Take(response, slot.cap))
  }

  /** The buffers are filled as the capped writer of `StreamCopy` fills its buffer. */
  lemma AppendedIsCapped(b: Buffer, q: Request, p: string, cap: int, text: string)
    requires b.bytes == Tagged(q, StreamCopy.Take(text, cap))
    ensures Appended(b, q, p, cap).bytes == Tagged(q, StreamCopy.Take(text + p, cap))
  {
    if |b.bytes| < cap {
      assert StreamCopy.Take(text + p, cap) == text + StreamCopy.Take(p, cap - |text|);
    }
  }

  /** What others write goes into their own buffers. */
  lemma OthersWriteElsewhere(s: State, step: Step, q: Request, b: BufferId)
    requires WellFormed(s) && Clean(s) && Enabled(s, step) && (step.TeeWrite? || step.Respond?) && step.q != q
    requires b in s.bufs && s.bufs[b].holder == Some(q)
    ensures Contents(Next(s, step), b) == Contents(s, b)
  {
    match step
    case TeeWrite(w, p) =>
      assert TeeKnown(s, w) && (Reading(s, w) ==> w in s.held);
      AppendedStaysOwn(s.bufs[s.tees[w].buf], w, p, s.tees[w].cap);
      if w in s.held {
        assert SlotHeld(s, w);
      }
    case Respond(w, p) => assert SlotHeld(s, w);
  }

  /** A step taken by nobody but others leaves a request's two buffers alone. */
  lemma OthersLeaveItAlone(s: State, step: Step, q: Request)
    requires WellFormed(s) && Clean(s) && Enabled(s, step) && q in s.held && q in Next(s, step).held
    requires (step.TeeWrite? || step.Respond? ==> step.q != q)
    ensures var slot, s' := s.held[q], Next(s, step);
            Contents(s', slot.req) == Contents(s, slot.req) && Contents(s', slot.res) == Contents(s, slot.res)
  {
    assert SlotHeld(s, q);
    if step.TeeWrite? || step.Respond? {
      OthersWriteElsewhere(s, step, q, s.held[q].req);
      OthersWriteElsewhere(s, step, q, s.held[q].res);
    } else if step.Put? {
      assert SlotHeld(s, step.q);
    }
  }

  lemma OwnWriteIsCaptured(s: State, step: Step, q: Request, body: string, response: string)
    requires WellFormed(s) && Enabled(s, step) && q in s.held && Captured(s, q, body, response)
    requires (step.TeeWrite? || step.Respond?) && step.q == q
    ensures Captured(Next(s, step), q, body + BodyPart(step, q), response + ResponsePart(step, q))
  {
    assert SlotHeld(s, q);
    var slot := s.held[q];
    if slot.emitted {
    } else if step.TeeWrite? {
      assert TeeKnown(s, q);
      AppendedIsCapped(s.bufs[slot.req], q, step.p, slot.cap, body);
      assert response + "" == response;
    } else {
      AppendedIsCapped(s.bufs[slot.res], q, step.p, slot.cap, response);
      assert body + "" == body;
    }
  }

  /** A request begins with two empty buffers. */
  lemma BeginsEmpty(s: State, step: Step, q: Request)
    requires WellFormed(s) && Clean(s) && Enabled(s, step) && q !in s.held && q in Next(s, step).held
    ensures q == s.next && Captured(Next(s, step), q, "" + BodyPart(step, q), "" + ResponsePart(step, q))
  {
    var a, b := step.a, step.b;
    assert a in s.bufs ==> CleanBuffer(s, a);
    assert b in s.bufs ==> CleanBuffer(s, b);
    assert Tagged(q, StreamCopy.Take("", step.cap)) == [];
  }

  lemma CapturedStep(s: State, step: Step, q: Request, body: string, response: string)
    requires WellFormed(s) && Clean(s) && Enabled(s, step) && q in s.held && q in Next(s, step).held
    requires Captured(s, q, body, response)
    ensures Captured(Next(s, step), q, body + BodyPart(step, q), response + ResponsePart(step, q))
  {
    if (step.TeeWrite? || step.Respond?) && step.q == q {
      OwnWriteIsCaptured(s, step, q, body, response);
    } else {
      OthersLeaveItAlone(s, step, q);
      assert body + "" == body && response + "" == response;
    }
  }

  lemma {:induction false} NothingBeforeItBegins(r: Run, i: nat, q: Request)
    requires IsRun(r) && i < |r.states| && WellFormed(r.states[0]) && q >= r.states[i].next
    ensures BodyRead(r.steps, i, q) == Responded(r.steps, i, q) == ""
  {
    if i > 0 {
      var s, step := r.states[i - 1], r.steps[i - 1];
      WellFormedFrom(r, i - 1);
      assert Enabled(s, step) && r.states[i] == Next(s, step);
      NothingBeforeItBegins(r, i - 1, q);
      if step.TeeWrite? {
        assert TeeKnown(s, step.q);
      } else if step.Respond? {
        assert SlotHeld(s, step.q);
      }
    }
  }

  lemma CapturedNext(s: State, step: Step, s': State, q: Request, body: string, response: string)
    requires WellFormed(s) && Clean(s) && Enabled(s, step) && s' == Next(s, step) && q in s'.held
    requires if q in s.held then Captured(s, q, body, response) else q >= s.next ==> body == response == ""
    ensures Captured(s', q, body + BodyPart(step, q), response + ResponsePart(step, q))
  {
    if q in s.held {
      CapturedStep(s, step, q, body, response);
    } else {
      BeginsEmpty(s, step, q);
    }
  }

  lemma RunIsClean(r: Run, i: nat)
    requires IsRun(r) && r.states[0] == START && PromptFrom(r, 0) && i < |r.states|
    ensures WellFormed(r.states[i]) && Clean(r.states[i])
  {
    WellFormedFrom(r, i);
    CleanFrom(r, i);
  }

  lemma {:induction false} OpenEventIsExact(r: Run, i: nat, q: Request)
    requires IsRun(r) && r.states[0] == START && PromptFrom(r, 0) && i < |r.states| && q in r.states[i].held
    ensures Captured(r.states[i], q, BodyRead(r.steps, i, q), Responded(r.steps, i, q))
  {
    if i > 0 {
      var s, step := r.states[i - 1], r.steps[i - 1];
      if q in s.held {
        OpenEventIsExact(r, i - 1, q);
      } else if q >= s.next {
        NothingBeforeItBegins(r, i - 1, q);
      }
      RunIsClean(r, i - 1);
      CapturedNext(s, step, r.states[i], q, BodyRead(r.steps, i - 1, q), Responded(r.steps, i - 1, q));
    }
  }

  /**
   And then the event holds exactly what it should: the first `cap` bytes the transport has read of
   the request's body, and the first `cap` bytes of its response, whatever other requests do.
   */
  lemma EventsAreExact(r: Run, i: nat)
    requires IsRun(r) && r.states[0] == START && PromptFrom(r, 0) && i < |r.steps| && r.steps[i].Emit?
    ensures var s, q := r.states[i], r.steps[i].q;
            && q in s.held
            && var slot := s.held[q];
               && Contents(s, slot.req) == Tagged(q, StreamCopy.Take(BodyRead(r.steps, i, q), slot.cap))
               && Contents(s, slot.res) == Tagged(q, StreamCopy.Take(Responded(r.steps, i, q), slot.cap))
  {
    assert Enabled(r.states[i], r.steps[i]);
    OpenEventIsExact(r, i, r.steps[i].q);
  }

  // ---------------------------------------------------------------------------------------
  // The condition is exact
  // ---------------------------------------------------------------------------------------

  /** The run goes on from `s`, and its step `i` builds such an event. */
  ghost predicate MixesAt(s: State, r: Run, i: nat) {
    && IsRun(r) && r.states[0] == s && PromptFrom(r, 0)
    && i < |r.steps| && !EmitsOwn(r.states[i], r.steps[i])
  }

  /** Some continuation, in which nobody else is late, builds an event with another request's bytes. */
  ghost predicate Mixes(s: State) { exists r: Run, i: nat :: MixesAt(s, r, i) }

  lemma MixesNow(s: State, q: Request)
    requires Enabled(s, Emit(q)) && !OwnEvent(s, q)
    ensures Mixes(s)
  {
    var r := Run([s, Next(s, Emit(q))], [Emit(q)]);
    assert MixesAt(s, r, 0);
  }

  /** One more step at the start of a run. */
  lemma StartWith(s: State, step: Step, r: Run) returns (e: Run)
    requires IsRun(r) && PromptFrom(r, 0) && Enabled(s, step) && Prompt(s, step) && r.states[0] == Next(s, step)
    ensures e == Run([s] + r.states, [step] + r.steps) && IsRun(e) && PromptFrom(e, 0)
  {
    e := Run([s] + r.states, [step] + r.steps);
    forall i | 0 <= i < |e.steps|
      ensures Enabled(e.states[i], e.steps[i]) && e.states[i + 1] == Next(e.states[i], e.steps[i])
      ensures Prompt(e.states[i], e.steps[i])
    {
      if i > 0 {
        assert e.states[i] == r.states[i - 1] && e.steps[i] == r.steps[i - 1] && e.states[i + 1] == r.states[i];
        assert Prompt(r.states[i - 1], r.steps[i - 1]);
      }
    }
  }

  lemma MixesBefore(s: State, step: Step)
    requires Enabled(s, step) && Prompt(s, step) && Mixes(Next(s, step))
    ensures Mixes(s)
  {
    var r: Run, i: nat :| MixesAt(Next(s, step), r, i);
    var e := StartWith(s, step, r);
    assert e.states[i + 1] == r.states[i] && e.steps[i + 1] == r.steps[i];
    assert MixesAt(s, e, i + 1);
  }

  /** Bytes in a pooled buffer get into the event of the request that takes it next. */
  lemma DirtyPoolMixes(s: State, b: BufferId)
    requires WellFormed(s) && b in s.bufs && s.bufs[b].holder.None? && s.bufs[b].bytes != []
    ensures Mixes(s)
  {
    var other := FreshNat(s.bufs.Keys);
    var begin := Begin(b, other, 1);
    var s' := Next(s, begin);
    assert BufferKnown(s, b);
    assert Contents(s', b)[0].of < s.next;
    MixesNow(s', s.next);
    MixesBefore(s, begin);
  }

  lemma PooledTeeMixes(s: State, q: Request)
    requires WellFormed(s) && Reading(s, q) && s.bufs[s.tees[q].buf].holder.None?
    ensures Mixes(s)
  {
    var b := s.tees[q].buf;
    if s.bufs[b].bytes == [] {
      var write := TeeWrite(q, "x");
      WellFormedStep(s, write);
      assert Next(s, write).bufs[b].bytes == [Byte(q, 'x')];
      DirtyPoolMixes(Next(s, write), b);
      MixesBefore(s, write);
    } else {
      DirtyPoolMixes(s, b);
    }
  }

  /** The holder of the buffer is done with it: it goes back to the pool, where the late writer finds it. */
  lemma ReturnedTeeMixes(s: State, q: Request, h: Request)
    requires WellFormed(s) && Reading(s, q) && q !in s.held
    requires s.bufs[s.tees[q].buf].holder == Some(h) && s.held[h].emitted && h !in s.tees
    ensures Mixes(s)
  {
    assert SlotHeld(s, h) && BufferKnown(s, s.tees[q].buf);
    WellFormedStep(s, Put(h));
    PooledTeeMixes(Next(s, Put(h)), q);
    MixesBefore(s, Put(h));
  }

  lemma EmittedTeeMixes(s: State, q: Request, h: Request)
    requires WellFormed(s) && Reading(s, q) && q !in s.held
    requires s.bufs[s.tees[q].buf].holder == Some(h) && s.held[h].emitted
    ensures Mixes(s)
  {
    if h in s.tees {
      assert BufferKnown(s, s.tees[q].buf);
      WellFormedStep(s, LetGo(h));
      ReturnedTeeMixes(Next(s, LetGo(h)), q, h);
      MixesBefore(s, LetGo(h));
    } else {
      ReturnedTeeMixes(s, q, h);
    }
  }

  lemma HeldTeeMixes(s: State, q: Request, h: Request)
    requires WellFormed(s) && Reading(s, q) && q !in s.held && s.bufs[s.tees[q].buf].holder == Some(h)
    ensures Mixes(s)
  {
    assert BufferKnown(s, s.tees[q].buf);
    if s.held[h].emitted {
      EmittedTeeMixes(s, q, h);
    } else {
      WellFormedStep(s, Emit(h));
      EmittedTeeMixes(Next(s, Emit(h)), q, h);
      MixesBefore(s, Emit(h));
    }
  }

  lemma UncleanMixes(s: State)
    requires WellFormed(s) && !Clean(s)
    ensures Mixes(s)
  {
    if b :| b in s.bufs && !CleanBuffer(s, b) {
      assert BufferKnown(s, b);
      match s.bufs[b].holder
      case None => DirtyPoolMixes(s, b);
      case Some(q) => MixesNow(s, q);
    } else {
      var q :| q in s.tees && Reading(s, q) && q !in s.held;
      assert TeeKnown(s, q);
      match s.bufs[s.tees[q].buf].holder
      case None => PooledTeeMixes(s, q);
      case Some(h) => HeldTeeMixes(s, q, h);
    }
  }

  /**
   Clean is the exact condition: in every continuation in which nobody else is late, every event
   holds its own bytes, if and only if the state is clean.
   */
  lemma MixesIff(s: State)
    requires WellFormed(s)
    ensures Mixes(s) <==> !Clean(s)
  {
    if Clean(s) {
      forall r: Run, i: nat | IsRun(r) && r.states[0] == s && PromptFrom(r, 0) && i < |r.steps|
        ensures EmitsOwn(r.states[i], r.steps[i])
      {
        WellFormedFrom(r, i);
        CleanFrom(r, i);
        CleanEmitsOwn(r.states[i], r.steps[i]);
      }
    } else {
      UncleanMixes(s);
    }
  }

  /**
   So in a run in which nobody was late so far, giving back a request's buffers can put its bytes
   into another event if and only if its transport is still reading the body into the tee.
   */
  lemma PutMixesIffStillReading(r: Run, q: Request)
    requires IsRun(r) && r.states[0] == START && PromptFrom(r, 0)
    requires Enabled(r.states[|r.steps|], Put(q))
    ensures Mixes(Next(r.states[|r.steps|], Put(q))) <==> Reading(r.states[|r.steps|], q)
  {
    var s := r.states[|r.steps|];
    WellFormedFrom(r, |r.steps|);
    CleanFrom(r, |r.steps|);
    WellFormedStep(s, Put(q));
    MixesIff(Next(s, Put(q)));
    if Reading(s, q) {
      assert Reading(Next(s, Put(q)), q);
    } else {
      CleanStep(s, Put(q));
    }
  }
}
