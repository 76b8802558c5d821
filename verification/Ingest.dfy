/**
 ingest-api/internal/usecase/ingest.go: one authorized batch is checked, stamped, scrubbed and
 pushed event by event, and every event that fails is counted. What the lookup of the key, the
 limiter, the id generator, the clock and the sink answer are parameters.
 */
module Ingest {
  import opened Common
  import opened PatternScrub
  import opened Redact

  datatype Event = Event(
    projectId: nat, apiKeyId: nat, eventId: string, timestampNs: int, verb: string, host: string,
    reqHeaders: map<string, string>, resHeaders: map<string, string>, reqBody: string, resBody: string)

  class HttpEvent {
    var projectId: nat
    var apiKeyId: nat
    var eventId: string
    var timestampNs: int
    var verb: string
    var host: string
    var reqHeaders: map<string, string>
    var resHeaders: map<string, string>
    var reqBody: string
    var resBody: string

    ghost function Value(): Event
      reads this
    {
      Event(projectId, apiKeyId, eventId, timestampNs, verb, host, reqHeaders, resHeaders, reqBody, resBody)
    }
  }

  /** An empty verb or host, and a missing event, are invalid. */
  function Validate(ev: Option<Event>): Option<string> {
    if ev.None? then Some("event invalid: nil event")
    else if ev.value.verb == "" then Some("event invalid: method required")
    else if ev.value.host == "" then Some("event invalid: host required")
    else None
  }

  class Sink {
    var pushed: seq<Event>

    method Push(ev: HttpEvent, failure: Option<string>) returns (err: Option<string>)
      modifies this
      ensures err == failure
      ensures pushed == if err.None? then old(pushed) + [ev.Value()] else old(pushed)
    {
      if failure.None? {
        pushed := pushed + [Event(ev.projectId, ev.apiKeyId, ev.eventId, ev.timestampNs, ev.verb, ev.host,
                                  ev.reqHeaders, ev.resHeaders, ev.reqBody, ev.resBody)];
      }
      return failure;
    }
  }

  datatype APIKey = APIKey(id: nat, projectId: nat, status: string, redactor: Option<Redactor>)

  /** For each event of a batch: a new id, the time, and the sink's error if it has one. */
  datatype World = World(newId: nat -> string, now: nat -> int, push: nat -> Option<string>)

  datatype Result = Result(accepted: nat, rejected: nat, reason: string)

  datatype Error = KeyNotFound | LookupFailed | KeyRevoked | RateLimited | AllRejected(reason: string)

  // ---------------------------------------------------------------------------------------
  // What a batch should come to
  // ---------------------------------------------------------------------------------------

  function HeaderOf(h: map<string, string>, name: string): string { if name in h then h[name] else "" }

  function ScrubbedBody(red: Redactor, codec: Codec, body: string, headers: map<string, string>): string {
    Body(red, codec, body, HeaderOf(headers, "Content-Type"))
  }

  function Stamped(key: APIKey, red: Redactor, codec: Codec, e: Event, newId: string, now: int): Event {
    var reqHeaders := MaskHeaders(red.headers.Hits(), e.reqHeaders);
    var resHeaders := MaskHeaders(red.headers.Hits(), e.resHeaders);
    Event(
      key.projectId, key.id,
      if e.eventId == "" then newId else e.eventId,
      if e.timestampNs == 0 then now else e.timestampNs,
      e.verb, e.host, reqHeaders, resHeaders,
      ScrubbedBody(red, codec, e.reqBody, reqHeaders), ScrubbedBody(red, codec, e.resBody, resHeaders))
  }

  function Counted(t: Result, failure: Option<string>): Result {
    match failure
    case None => t.(accepted := t.accepted + 1)
    case Some(m) => t.(rejected := t.rejected + 1, reason := if t.reason == "" then m else t.reason)
  }

  /** What a batch comes to: the failure of each event, if it has one, and the event when the call is over. */
  datatype Plan = Plan(failures: seq<Option<string>>, after: seq<Option<Event>>) {
    predicate Valid() {
      |after| == |failures| && forall i | 0 <= i < |failures| && failures[i].None? :: after[i].Some?
    }

    /** What the sink takes of event i: the event, or nothing. */
    function Sent(i: nat): seq<Event>
      requires Valid() && i < |failures|
    {
      if failures[i].None? then [after[i].value] else []
    }

    /** Which of the first n events are accepted. */
    function Accepted(n: nat): seq<nat>
      requires n <= |failures|
    {
      if n == 0 then [] else Accepted(n - 1) + if failures[n - 1].None? then [n - 1] else []
    }

    function Pushed(n: nat): seq<Event>
      requires Valid() && n <= |failures|
    {
      if n == 0 then [] else Pushed(n - 1) + Sent(n - 1)
    }

    function Tally(n: nat): Result
      requires n <= |failures|
    {
      if n == 0 then Result(0, 0, "") else Counted(Tally(n - 1), failures[n - 1])
    }
  }

  datatype Call = Call(key: APIKey, red: Redactor, codec: Codec, world: World, events: seq<Option<Event>>) {
    function After(i: nat): Option<Event>
      requires i < |events|
    {
      if Validate(events[i]).Some? then events[i]
      else Some(Stamped(key, red, codec, events[i].value, world.newId(i), world.now(i)))
    }

    function Failure(i: nat): Option<string>
      requires i < |events|
    {
      if Validate(events[i]).Some? then Validate(events[i]) else world.push(i)
    }

    function ToPlan(): (p: Plan)
      ensures p.Valid() && |p.failures| == |events|
    {
      Plan(seq(|events|, i requires 0 <= i < |events| => Failure(i)),
           seq(|events|, i requires 0 <= i < |events| => After(i)))
    }
  }

  ghost function ValueOf(ev: HttpEvent?): Option<Event>
    reads ev
  {
    if ev == null then None else Some(ev.Value())
  }

  ghost function Values(events: seq<HttpEvent?>): seq<Option<Event>>
    reads events
  {
    seq(|events|, i requires 0 <= i < |events| reads events => ValueOf(events[i]))
  }

  ghost predicate Distinct(events: seq<HttpEvent?>) {
    forall i, j | 0 <= i < j < |events| && events[i] != null :: events[i] != events[j]
  }

  // ---------------------------------------------------------------------------------------
  // The loop
  // ---------------------------------------------------------------------------------------

  method Check(ev: HttpEvent?) returns (err: Option<string>)
    ensures err == Validate(ValueOf(ev))
    ensures err.None? <==> ev != null && ev.verb != "" && ev.host != ""
  {
    if ev == null {
      return Some("event invalid: nil event");
    }
    if ev.verb == "" {
      return Some("event invalid: method required");
    }
    if ev.host == "" {
      return Some("event invalid: host required");
    }
    return None;
  }

  method ScrubHeaders(ev: HttpEvent, red: Redactor)
    modifies ev
    ensures ev.Value() == old(ev.Value()).(reqHeaders := MaskHeaders(red.headers.Hits(), old(ev.reqHeaders)),
                                           resHeaders := MaskHeaders(red.headers.Hits(), old(ev.resHeaders)))
  {
    ev.reqHeaders := Headers(red.headers.Hits(), ev.reqHeaders);
    ev.resHeaders := Headers(red.headers.Hits(), ev.resHeaders);
  }

  method ScrubBodies(ev: HttpEvent, red: Redactor, codec: Codec)
    modifies ev
    ensures ev.Value() == old(ev.Value()).(reqBody := ScrubbedBody(red, codec, old(ev.reqBody), old(ev.reqHeaders)),
                                           resBody := ScrubbedBody(red, codec, old(ev.resBody), old(ev.resHeaders)))
  {
    ev.reqBody := ScrubbedBody(red, codec, ev.reqBody, ev.reqHeaders);
    ev.resBody := ScrubbedBody(red, codec, ev.resBody, ev.resHeaders);
  }

  method Stamp(ev: HttpEvent, key: APIKey, red: Redactor, codec: Codec, newId: string, now: int)
    modifies ev
    ensures ev.Value() == Stamped(key, red, codec, old(ev.Value()), newId, now)
  {
    ev.projectId := key.projectId;
    ev.apiKeyId := key.id;
    if ev.eventId == "" {
      ev.eventId := newId;
    }
    if ev.timestampNs == 0 {
      ev.timestampNs := now;
    }
    ScrubHeaders(ev, red);
    ScrubBodies(ev, red, codec);
  }

  ghost predicate Planned(call: Call, plan: Plan, i: nat)
    requires i < |call.events| == |plan.failures| == |plan.after|
  {
    plan.failures[i] == call.Failure(i) && plan.after[i] == call.After(i)
  }

  ghost predicate Follows(plan: Plan, call: Call) {
    && plan.Valid() && |call.events| == |plan.failures|
    && forall i | 0 <= i < |call.events| :: Planned(call, plan, i)
  }

  lemma ToPlanFollows(call: Call)
    ensures Follows(call.ToPlan(), call)
  {
  }

  /** When i events are done: event j is as the call leaves it, or as the call found it. */
  ghost predicate InStep(call: Call, plan: Plan, ev: HttpEvent?, j: nat, i: nat)
    requires j < |call.events| == |plan.after|
    reads ev
  {
    ValueOf(ev) == if j < i then plan.after[j] else call.events[j]
  }

  ghost predicate Midway(call: Call, plan: Plan, events: seq<HttpEvent?>, i: nat)
    requires |events| == |call.events| == |plan.after|
    reads events
  {
    forall j | 0 <= j < |events| :: InStep(call, plan, events[j], j, i)
  }

  /** One turn of the loop, up to the counting. */
  method Handle(key: APIKey, red: Redactor, codec: Codec, world: World, events: seq<HttpEvent?>, i: nat, sink: Sink,
                ghost call: Call, ghost plan: Plan)
    returns (err: Option<string>)
    requires Distinct(events) && call == Call(key, red, codec, world, call.events) && Follows(plan, call)
    requires i < |events| == |call.events| && Midway(call, plan, events, i)
    modifies sink, events[i]
    ensures err == plan.failures[i]
    ensures sink.pushed == old(sink.pushed) + plan.Sent(i)
    ensures Midway(call, plan, events, i + 1)
  {
    var ev := events[i];
    assert InStep(call, plan, ev, i, i);
    err := Check(ev);
    if err.None? {
      Stamp(ev, key, red, codec, world.newId(i), world.now(i));
      err := sink.Push(ev, world.push(i));
    }
    assert Planned(call, plan, i);
    forall j | 0 <= j < |events|
      ensures InStep(call, plan, events[j], j, i + 1)
    {
      assert old(InStep(call, plan, events[j], j, i));
    }
  }

  method Count(soFar: Result, err: Option<string>) returns (res: Result)
    ensures res == Counted(soFar, err)
  {
    res := soFar;
    if err.Some? {
      res := res.(rejected := res.rejected + 1);
      if res.reason == "" {
        res := res.(reason := err.value);
      }
      return;
    }
    res := res.(accepted := res.accepted + 1);
  }

  method Process(key: APIKey, red: Redactor, codec: Codec, world: World, events: seq<HttpEvent?>, sink: Sink,
                 ghost call: Call, ghost plan: Plan)
    returns (res: Result)
    requires Distinct(events) && call == Call(key, red, codec, world, call.events) && Follows(plan, call)
    requires |call.events| == |events| && Midway(call, plan, events, 0)
    modifies sink, set e: HttpEvent | e in events
    ensures res == plan.Tally(|events|)
    ensures sink.pushed == old(sink.pushed) + plan.Pushed(|events|)
    ensures Midway(call, plan, events, |events|)
  {
    res := Result(0, 0, "");
    for i := 0 to |events|
      invariant res == plan.Tally(i)
      invariant sink.pushed == old(sink.pushed) + plan.Pushed(i)
      invariant Midway(call, plan, events, i)
    {
      var err := Handle(key, red, codec, world, events, i, sink, call, plan);
      res := Count(res, err);
      Reassociate(old(sink.pushed), plan.Pushed(i), plan.Sent(i));
    }
  }

  class KeyStore {
    var entries: map<string, APIKey>

    constructor ()
      ensures entries == map[]
    {
      entries := map[];
    }
  }

  /** The cached key, or on a miss the repository's, which then fills the cache; None when there is none. */
  method LookUp(cache: KeyStore, hash: string, reply: Option<APIKey>) returns (key: Option<APIKey>)
    modifies cache
    ensures hash in old(cache.entries) ==> key == Some(old(cache.entries)[hash]) && cache.entries == old(cache.entries)
    ensures hash !in old(cache.entries) ==> key == reply
    ensures hash !in old(cache.entries) && reply.Some? ==> cache.entries == old(cache.entries)[hash := reply.value]
    ensures reply.None? ==> cache.entries == old(cache.entries)
  {
    if hash in cache.entries {
      return Some(cache.entries[hash]);
    }
    if reply.Some? {
      cache.entries := cache.entries[hash := reply.value];
    }
    return reply;
  }

  /** Past authorization: the batch is processed with the key's redactor, or else the service's own. */
  method Execute(cache: KeyStore, hashKey: string -> string, rawKey: string, reply: Option<APIKey>, allowed: bool,
                 fallback: Redactor, codec: Codec, world: World, events: seq<HttpEvent?>, sink: Sink)
    returns (res: Result, err: Option<Error>)
    requires Distinct(events)
    modifies cache, sink, set e: HttpEvent | e in events
    // The key
    ensures rawKey == "" || reply.None? || hashKey(rawKey) in old(cache.entries) ==> cache.entries == old(cache.entries)
    ensures rawKey != "" && reply.Some? && hashKey(rawKey) !in old(cache.entries) ==>
              cache.entries == old(cache.entries)[hashKey(rawKey) := reply.value]
    // The refusals
    ensures err == Some(KeyNotFound) <==> rawKey == ""
    ensures err == Some(LookupFailed) <==> rawKey != "" && reply.None? && hashKey(rawKey) !in old(cache.entries)
    ensures err == Some(KeyRevoked) <==>
              && rawKey != "" && hashKey(rawKey) in cache.entries && cache.entries[hashKey(rawKey)].status == "revoked"
    ensures err == Some(RateLimited) <==>
              && rawKey != "" && hashKey(rawKey) in cache.entries && cache.entries[hashKey(rawKey)].status != "revoked"
              && !allowed
    ensures err.Some? && !err.value.AllRejected? ==>
              res == Result(0, 0, "") && sink.pushed == old(sink.pushed) && Values(events) == old(Values(events))
    // The batch
    ensures err.None? || err.value.AllRejected? ==>
              && rawKey != "" && hashKey(rawKey) in cache.entries
              && var key := cache.entries[hashKey(rawKey)];
                 var red := if key.redactor.Some? then key.redactor.value else fallback;
                 var call := Call(key, red, codec, world, old(Values(events)));
                 var plan := call.ToPlan();
                 && res == plan.Tally(|events|)
                 && sink.pushed == old(sink.pushed) + plan.Pushed(|events|)
                 && Values(events) == plan.after
                 && err == (if res.accepted == 0 && res.rejected > 0 then Some(AllRejected(res.reason)) else None)
  {
    if rawKey == "" {
      return Result(0, 0, ""), Some(KeyNotFound);
    }
    ghost var values := Values(events);
    var found := LookUp(cache, hashKey(rawKey), reply);
    assert Values(events) == values;
    if found.None? {
      return Result(0, 0, ""), Some(LookupFailed);
    }
    var key := found.value;
    if key.status == "revoked" {
      return Result(0, 0, ""), Some(KeyRevoked);
    }
    if !allowed {
      return Result(0, 0, ""), Some(RateLimited);
    }
    var red := if key.redactor.Some? then key.redactor.value else fallback;
    ghost var call := Call(key, red, codec, world, Values(events));
    ToPlanFollows(call);
    res := Process(key, red, codec, world, events, sink, call, call.ToPlan());
    assert forall j | 0 <= j < |events| :: InStep(call, call.ToPlan(), events[j], j, |events|);
    err := if res.accepted == 0 && res.rejected > 0 then Some(AllRejected(res.reason)) else None;
  }

  // ---------------------------------------------------------------------------------------
  // Partial success
  // ---------------------------------------------------------------------------------------

  /** Every event is counted once, and as many are pushed as are counted as accepted. */
  lemma {:induction false} EveryEventIsCounted(p: Plan, n: nat)
    requires p.Valid() && n <= |p.failures|
    ensures p.Tally(n).accepted + p.Tally(n).rejected == n
    ensures p.Tally(n).accepted == |p.Pushed(n)| == |p.Accepted(n)|
  {
    if n > 0 {
      EveryEventIsCounted(p, n - 1);
    }
  }

  /** `idx` lists, in order, the events among the first n that do not fail. */
  ghost predicate Selects(p: Plan, idx: seq<nat>, n: nat)
    requires n <= |p.failures|
  {
    && (forall k | 0 <= k < |idx| :: idx[k] < n && p.failures[idx[k]].None?)
    && (forall k, l | 0 <= k < l < |idx| :: idx[k] < idx[l])
    && (forall i: nat | i < n && p.failures[i].None? :: i in idx)
  }

  lemma {:induction false} AcceptedSelects(p: Plan, n: nat)
    requires n <= |p.failures|
    ensures Selects(p, p.Accepted(n), n)
  {
    if n > 0 {
      AcceptedSelects(p, n - 1);
    }
  }

  /** The pushes are the accepted events in input order: the k-th is the k-th accepted event as the call leaves it. */
  lemma {:induction false} PushesAreTheAcceptedEvents(p: Plan, n: nat, k: nat)
    requires p.Valid() && n <= |p.failures| && k < |p.Pushed(n)|
    ensures k < |p.Accepted(n)| && p.Accepted(n)[k] < n
    ensures Some(p.Pushed(n)[k]) == p.after[p.Accepted(n)[k]] && p.failures[p.Accepted(n)[k]].None?
  {
    EveryEventIsCounted(p, n);
    if n > 0 {
      EveryEventIsCounted(p, n - 1);
      var last := |p.Pushed(n - 1)|;
      if k < last {
        PushesAreTheAcceptedEvents(p, n - 1, k);
        assert p.Pushed(n)[k] == p.Pushed(n - 1)[k] && p.Accepted(n)[k] == p.Accepted(n - 1)[k];
      } else {
        assert p.failures[n - 1].None? && p.Accepted(n)[last] == n - 1;
      }
    }
  }

  lemma NothingSelected(p: Plan, idx: seq<nat>, n: nat)
    requires n <= |p.failures| && Selects(p, idx, n)
    ensures idx == [] <==> forall i | 0 <= i < n :: p.failures[i].Some?
  {
    if idx != [] {
      assert p.failures[idx[0]].None?;
    }
  }

  /** A batch past authorization is an error exactly when it is not empty and nothing was accepted. */
  lemma ErrorIffNothingAccepted(p: Plan)
    requires p.Valid()
    ensures var t := p.Tally(|p.failures|);
            (t.accepted == 0 && t.rejected > 0) <==>
            (p.failures != [] && forall i | 0 <= i < |p.failures| :: p.failures[i].Some?)
  {
    EveryEventIsCounted(p, |p.failures|);
    AcceptedSelects(p, |p.failures|);
    NothingSelected(p, p.Accepted(|p.failures|), |p.failures|);
  }

  /** The reason is the message of the first failure that has one. */
  lemma {:induction false} ReasonIsTheFirstFailure(p: Plan, n: nat)
    requires n <= |p.failures|
    ensures if p.Tally(n).reason == "" then forall i | 0 <= i < n :: p.failures[i] in {None, Some("")}
            else exists i | 0 <= i < n :: p.failures[i] == Some(p.Tally(n).reason)
                                       && forall j | 0 <= j < i :: p.failures[j] in {None, Some("")}
  {
    if n > 0 {
      ReasonIsTheFirstFailure(p, n - 1);
      if p.Tally(n).reason != "" && p.Tally(n - 1).reason == "" {
        assert p.failures[n - 1] == Some(p.Tally(n).reason);
      }
    }
  }

  /**
   Partial success, for any batch and any failing pushes: every event is counted once; the accepted
   ones, in input order, are those that are valid and whose push succeeds; they are what is pushed.
   */
  lemma PartialSuccess(c: Call)
    ensures var p, n := c.ToPlan(), |c.events|;
            && p.Tally(n).accepted + p.Tally(n).rejected == n
            && p.Tally(n).accepted == |p.Accepted(n)| == |p.Pushed(n)|
            && (forall i: nat | i < n :: i in p.Accepted(n) <==> Validate(c.events[i]).None? && c.world.push(i).None?)
            && (forall k, l | 0 <= k < l < |p.Accepted(n)| :: p.Accepted(n)[k] < p.Accepted(n)[l])
            && (forall k | 0 <= k < |p.Pushed(n)| ::
                  p.Accepted(n)[k] < n && Some(p.Pushed(n)[k]) == c.After(p.Accepted(n)[k]))
    ensures forall i: nat | i < |c.events| ::
              c.After(i) ==
              if Validate(c.events[i]).Some? then c.events[i]
              else Some(Stamped(c.key, c.red, c.codec, c.events[i].value, c.world.newId(i), c.world.now(i)))
  {
    var p, n := c.ToPlan(), |c.events|;
    EveryEventIsCounted(p, n);
    AcceptedSelects(p, n);
    forall i: nat | i < n
      ensures i in p.Accepted(n) <==> Validate(c.events[i]).None? && c.world.push(i).None?
    {
      assert p.failures[i] == c.Failure(i);
    }
    forall k | 0 <= k < |p.Pushed(n)|
      ensures p.Accepted(n)[k] < n && Some(p.Pushed(n)[k]) == c.After(p.Accepted(n)[k])
    {
      PushesAreTheAcceptedEvents(p, n, k);
    }
  }

  // ---------------------------------------------------------------------------------------
  // What is pushed
  // ---------------------------------------------------------------------------------------

  ghost predicate HeadersAreScrubbed(deny: Deny, h: map<string, string>) {
    forall k | k in h && deny(k) :: h[k] == MASK
  }

  ghost predicate BodyIsScrubbed(patterns: seq<Pattern>, body: string) {
    forall i | 0 <= i < |patterns| && IsTokenPattern(patterns[i]) :: Free(patterns[i].re.pieces, body)
  }

  lemma StampedIsScrubbed(key: APIKey, red: Redactor, codec: Codec, sent: Event, newId: string, now: int)
    ensures var e := Stamped(key, red, codec, sent, newId, now);
            && HeadersAreScrubbed(red.headers.Hits(), e.reqHeaders)
            && HeadersAreScrubbed(red.headers.Hits(), e.resHeaders)
            && BodyIsScrubbed(red.patterns, e.reqBody) && BodyIsScrubbed(red.patterns, e.resBody)
  {
    var e := Stamped(key, red, codec, sent, newId, now);
    BodyLeavesNoToken(red, codec, sent.reqBody, HeaderOf(e.reqHeaders, "Content-Type"));
    BodyLeavesNoToken(red, codec, sent.resBody, HeaderOf(e.resHeaders, "Content-Type"));
  }

  /** Whatever the client sent: the key's ids, no denied header value, no token in a body. */
  lemma EveryPushIsStampedAndScrubbed(c: Call, n: nat, k: nat)
    requires n <= |c.events| && k < |c.ToPlan().Pushed(n)|
    ensures var e := c.ToPlan().Pushed(n)[k];
            && e.projectId == c.key.projectId && e.apiKeyId == c.key.id
            && HeadersAreScrubbed(c.red.headers.Hits(), e.reqHeaders)
            && HeadersAreScrubbed(c.red.headers.Hits(), e.resHeaders)
            && BodyIsScrubbed(c.red.patterns, e.reqBody) && BodyIsScrubbed(c.red.patterns, e.resBody)
  {
    PushesAreTheAcceptedEvents(c.ToPlan(), n, k);
    var i := c.ToPlan().Accepted(n)[k];
    assert c.Failure(i).None?;
    StampedIsScrubbed(c.key, c.red, c.codec, c.events[i].value, c.world.newId(i), c.world.now(i));
  }

  /** The content type that a body is scrubbed by: the header as it is pushed, so a denied one does not count. */
  ghost predicate ScrubbedAs(contentType: string, deny: Deny, sent: map<string, string>) {
    contentType ==
    if "Content-Type" !in sent then ""
    else if deny("Content-Type") then "[REDACTED]"
    else sent["Content-Type"]
  }

  /**
   What stamping keeps: ids and times the client gave, verb and host, headers that are not denied,
   and of each body its own text.
   */
  lemma StampedKeepsTheRest(key: APIKey, red: Redactor, codec: Codec, sent: Event, newId: string, now: int,
                            reqType: string, resType: string)
    requires ScrubbedAs(reqType, red.headers.Hits(), sent.reqHeaders)
    requires ScrubbedAs(resType, red.headers.Hits(), sent.resHeaders)
    ensures var e := Stamped(key, red, codec, sent, newId, now);
            && (sent.eventId != "" ==> e.eventId == sent.eventId) && (sent.eventId == "" ==> e.eventId == newId)
            && (sent.timestampNs != 0 ==> e.timestampNs == sent.timestampNs)
            && (sent.timestampNs == 0 ==> e.timestampNs == now)
            && e.verb == sent.verb && e.host == sent.host
            && e.reqHeaders.Keys == sent.reqHeaders.Keys && e.resHeaders.Keys == sent.resHeaders.Keys
            && (forall k | k in sent.reqHeaders && !red.headers.Hits()(k) :: e.reqHeaders[k] == sent.reqHeaders[k])
            && (forall k | k in sent.resHeaders && !red.headers.Hits()(k) :: e.resHeaders[k] == sent.resHeaders[k])
            && e.reqBody == Body(red, codec, sent.reqBody, reqType)
            && e.resBody == Body(red, codec, sent.resBody, resType)
  {
  }

  /** Two events alike but for the ids they claim and the values of their denied headers. */
  ghost predicate DifferInClaims(deny: Deny, a: Option<Event>, b: Option<Event>) {
    || (a.None? && b.None?)
    || (&& a.Some? && b.Some?
        && MaskHeaders(deny, a.value.reqHeaders) == MaskHeaders(deny, b.value.reqHeaders)
        && MaskHeaders(deny, a.value.resHeaders) == MaskHeaders(deny, b.value.resHeaders)
        && b.value == a.value.(projectId := b.value.projectId, apiKeyId := b.value.apiKeyId,
                               reqHeaders := b.value.reqHeaders, resHeaders := b.value.resHeaders))
  }

  lemma {:induction false} SamePushes(p: Plan, q: Plan, n: nat)
    requires p.Valid() && q.Valid() && p.failures == q.failures && n <= |p.failures|
    requires forall i | 0 <= i < n && p.failures[i].None? :: p.after[i] == q.after[i]
    ensures p.Pushed(n) == q.Pushed(n)
  {
    if n > 0 {
      SamePushes(p, q, n - 1);
    }
  }

  /** Nothing a client claims about who it is, or puts in a denied header, reaches the sink. */
  lemma ClaimsCannotBeForged(a: Call, b: Call)
    requires |a.events| == |b.events| && b == a.(events := b.events)
    requires forall i | 0 <= i < |a.events| :: DifferInClaims(a.red.headers.Hits(), a.events[i], b.events[i])
    ensures a.ToPlan().failures == b.ToPlan().failures
    ensures a.ToPlan().Pushed(|a.events|) == b.ToPlan().Pushed(|a.events|)
  {
    forall i | 0 <= i < |a.events|
      ensures a.Failure(i) == b.Failure(i) && (a.Failure(i).None? ==> a.After(i) == b.After(i))
    {
      assert DifferInClaims(a.red.headers.Hits(), a.events[i], b.events[i]);
    }
    SamePushes(a.ToPlan(), b.ToPlan(), |a.events|);
  }

  /**
   Headers an SDK scrubbed with its own rules, and its own notion of lower case, come out as if one
   service denied what either of the two denies.
   */
  lemma DefenseInDepth(sdk: Deny, c: Call, i: nat, original: Event)
    requires i < |c.events| && Validate(c.events[i]).None?
    requires c.events[i].value.reqHeaders == MaskHeaders(sdk, original.reqHeaders)
    requires c.events[i].value.resHeaders == MaskHeaders(sdk, original.resHeaders)
    ensures var both := Either(sdk, c.red.headers.Hits());
            && c.After(i).value.reqHeaders == MaskHeaders(both, original.reqHeaders)
            && c.After(i).value.resHeaders == MaskHeaders(both, original.resHeaders)
  {
    HeadersCompose(sdk, c.red.headers.Hits(), original.reqHeaders);
    HeadersCompose(sdk, c.red.headers.Hits(), original.resHeaders);
  }
}
