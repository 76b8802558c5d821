/**
 API-key authorization: the cache that proxy-gateway/internal/usecase/validate_apikey.go reads
 and fills on a miss, and that proxy-gateway/internal/adapter/postgres/loader.go refreshes.

 The two classes are the code. The state machine below them cuts both into the steps that can
 interleave with each other, with writes to the database and with evictions.
 */
module KeyCache {
  import opened Common

  type Hash = string

  datatype Status = Active | Revoked

  datatype APIKey = APIKey(id: nat, projectId: nat, hash: Hash, allowlist: seq<string>, status: Status)

  datatype Error = NotFound | LookupFailed | KeyRevoked | TargetNotAllowed

  datatype Outcome = Allowed(key: APIKey) | Denied(offender: Option<APIKey>, err: Error)

  /** What the repository answers to one query. */
  datatype Reply = Row(key: APIKey) | NoRow | Failed

  /** An empty allowlist allows every host; otherwise the comparison ignores case. */
  predicate AllowsHost(key: APIKey, host: string, lower: Lower) {
    |key.allowlist| == 0 || exists i | 0 <= i < |key.allowlist| :: lower(key.allowlist[i]) == lower(host)
  }

  /** The verdict on a key that has been found. A revoked key is refused before its hosts are looked at. */
  function Verdict(key: APIKey, host: string, lower: Lower): Outcome {
    if key.status == Revoked then Denied(Some(key), KeyRevoked)
    else if !AllowsHost(key, host, lower) then Denied(Some(key), TargetNotAllowed)
    else Allowed(key)
  }

  /** A key is let through exactly if it is active and its allowlist is empty or names the host, in any case. */
  lemma VerdictMeans(key: APIKey, host: string, lower: Lower)
    ensures Verdict(key, host, lower) == Allowed(key) <==>
              && key.status == Active
              && (key.allowlist == [] || exists n | n in key.allowlist :: lower(n) == lower(host))
    ensures Verdict(key, host, lower) == Denied(Some(key), KeyRevoked) <==> key.status == Revoked
    ensures Verdict(key, host, lower) in
              {Allowed(key), Denied(Some(key), KeyRevoked), Denied(Some(key), TargetNotAllowed)}
  {
    if AllowsHost(key, host, lower) && key.allowlist != [] {
      var i :| 0 <= i < |key.allowlist| && lower(key.allowlist[i]) == lower(host);
      assert key.allowlist[i] in key.allowlist;
    }
  }

  type Entries = map<Hash, APIKey>

  class Cache {
    var entries: Entries

    constructor ()
      ensures entries == map[]
    {
      entries := map[];
    }

    method Get(hash: Hash) returns (key: Option<APIKey>)
      ensures key == if hash in entries then Some(entries[hash]) else None
    {
      key := if hash in entries then Some(entries[hash]) else None;
    }

    method Set(hash: Hash, key: APIKey)
      modifies this
      ensures entries == old(entries)[hash := key]
    {
      entries := entries[hash := key];
    }
  }

  /** One undisturbed call: the cache it leaves and what it returns. */
  function Lookup(entries: Entries, hash: Hash, host: string, reply: Reply, lower: Lower): (Entries, Outcome) {
    if hash in entries then (entries, Verdict(entries[hash], host, lower))
    else
      match reply
      case Failed => (entries, Denied(None, LookupFailed))
      case NoRow => (entries, Denied(None, NotFound))
      case Row(key) => (entries[hash := key], Verdict(key, host, lower))
  }

  class ValidateAPIKey {
    const cache: Cache
    const lower: Lower
    const hashKey: string -> Hash

    constructor (cache: Cache, lower: Lower, hashKey: string -> Hash)
      ensures this.cache == cache && this.lower == lower && this.hashKey == hashKey
    {
      this.cache, this.lower, this.hashKey := cache, lower, hashKey;
    }

    /** `reply` is what the repository would answer; it is asked only on a miss. */
    method Execute(rawKey: string, targetHost: string, reply: Reply) returns (out: Outcome)
      modifies cache
      ensures out.Allowed? <==>
                var h := hashKey(rawKey);
                && rawKey != "" && h in cache.entries && (h in old(cache.entries) || reply.Row?)
                && cache.entries[h].status == Active
                && (cache.entries[h].allowlist == []
                    || exists i | 0 <= i < |cache.entries[h].allowlist| ::
                         lower(cache.entries[h].allowlist[i]) == lower(targetHost))
      ensures out == Denied(None, NotFound) <==>
                rawKey == "" || (hashKey(rawKey) !in old(cache.entries) && reply.NoRow?)
      ensures out == Denied(None, LookupFailed) <==>
                rawKey != "" && hashKey(rawKey) !in old(cache.entries) && reply.Failed?
      ensures rawKey == "" || reply.NoRow? || reply.Failed? || hashKey(rawKey) in old(cache.entries) ==>
                cache.entries == old(cache.entries)
      ensures rawKey != "" && hashKey(rawKey) !in old(cache.entries) && reply.Row? ==>
                cache.entries == old(cache.entries)[hashKey(rawKey) := reply.key]
      ensures rawKey != "" ==>
                (cache.entries, out) == Lookup(old(cache.entries), hashKey(rawKey), targetHost, reply, lower)
    {
      if rawKey == "" {
        return Denied(None, NotFound);
      }
      var hash := hashKey(rawKey);
      var found := cache.Get(hash);
      var key: APIKey;
      if found.None? {
        match reply
        case Failed => return Denied(None, LookupFailed);
        case NoRow => return Denied(None, NotFound);
        case Row(k) =>
          cache.Set(hash, k);
          key := k;
      } else {
        key := found.value;
      }
      if key.status == Revoked {
        return Denied(Some(key), KeyRevoked);
      }
      if !AllowsHost(key, targetHost, lower) {
        return Denied(Some(key), TargetNotAllowed);
      }
      return Allowed(key);
    }
  }

  ghost predicate IsLastOf(keys: seq<APIKey>, h: Hash, i: int) {
    0 <= i < |keys| && keys[i].hash == h && forall j | i < j < |keys| :: keys[j].hash != h
  }

  lemma {:induction false} NoneListed(keys: seq<APIKey>, h: Hash)
    requires !exists i :: IsLastOf(keys, h, i)
    ensures forall j | 0 <= j < |keys| :: keys[j].hash != h
  {
    if keys != [] {
      var n := |keys| - 1;
      assert !IsLastOf(keys, h, n);
      if i :| IsLastOf(keys[..n], h, i) {
        assert IsLastOf(keys, h, i);
      }
      NoneListed(keys[..n], h);
    }
  }

  /** The cache after the keys have been set one by one; a later row wins. */
  function SetAll(entries: Entries, keys: seq<APIKey>): Entries
    decreases |keys|
  {
    if keys == [] then entries else SetAll(entries[keys[0].hash := keys[0]], keys[1..])
  }

  /** For each hash the last listed row counts; hashes that are not listed keep what they had. */
  lemma {:induction false} SetAllMeans(entries: Entries, keys: seq<APIKey>, h: Hash)
    ensures if exists i :: IsLastOf(keys, h, i)
            then exists i :: IsLastOf(keys, h, i) && h in SetAll(entries, keys) && SetAll(entries, keys)[h] == keys[i]
            else
              && (h in SetAll(entries, keys) <==> h in entries)
              && (h in entries ==> SetAll(entries, keys)[h] == entries[h])
    decreases |keys|
  {
    if keys != [] {
      var rest := entries[keys[0].hash := keys[0]];
      SetAllMeans(rest, keys[1..], h);
      if i :| IsLastOf(keys[1..], h, i) {
        assert forall j | 0 < j < |keys| :: keys[j] == keys[1..][j - 1];
        assert IsLastOf(keys, h, i + 1);
      } else if keys[0].hash == h {
        NoneListed(keys[1..], h);
        assert forall j | 0 < j < |keys| :: keys[j] == keys[1..][j - 1];
        assert IsLastOf(keys, h, 0);
      } else if i :| IsLastOf(keys, h, i) {
        assert forall j | 0 < j < |keys| :: keys[j] == keys[1..][j - 1];
        assert IsLastOf(keys[1..], h, i - 1);
      }
    }
  }

  class Loader {
    const cache: Cache

    constructor (cache: Cache)
      ensures this.cache == cache
    {
      this.cache := cache;
    }

    /** Sets every listed key; keys that are not listed stay. `listed` is None when the query fails. */
    method Refresh(listed: Option<seq<APIKey>>) returns (ok: bool)
      modifies cache
      ensures ok == listed.Some?
      ensures cache.entries == if listed.Some? then SetAll(old(cache.entries), listed.value) else old(cache.entries)
    {
      if listed.None? {
        return false;
      }
      var keys := listed.value;
      for i := 0 to |keys|
        invariant SetAll(cache.entries, keys[i..]) == SetAll(old(cache.entries), keys)
      {
        assert keys[i..][1..] == keys[i + 1..];
        cache.Set(keys[i].hash, keys[i]);
      }
      return true;
    }
  }

  // ---------------------------------------------------------------------------------------
  // Interleavings
  // ---------------------------------------------------------------------------------------

  type Caller = nat

  /** Where a call of `Execute` is after it missed the cache. */
  datatype Phase = Missed(hash: Hash, host: string) | HasRow(hash: Hash, host: string, key: APIKey)

  datatype State = State(
    db: map<Hash, APIKey>,
    cache: Entries,
    calls: map<Caller, Phase>,
    toSet: seq<APIKey>) // listed by the refresher and not yet set

  datatype Step =
    | Write(hash: Hash, row: Option<APIKey>)    // someone changes or deletes a row
    | Begin(c: Caller, h: Hash, host: string)   // a call looks into the cache
    | Read(c: Caller, answered: bool)           // a call that missed queries the repository
    | Fill(c: Caller)                           // a call that missed sets the cache
    | List(keys: seq<APIKey>)                   // the refresher takes its snapshot
    | SetNext                                   // the refresher sets one key
    | Evict(h: Hash)

  ghost predicate Enabled(s: State, step: Step) {
    match step
    case Write(h, row) => row.Some? ==> row.value.hash == h
    case Begin(c, _, _) => c !in s.calls
    case Read(c, _) => c in s.calls && s.calls[c].Missed?
    case Fill(c) => c in s.calls && s.calls[c].HasRow?
    case List(keys) => s.toSet == [] && (set k | k in keys) == s.db.Values
    case SetNext => s.toSet != []
    case Evict(_) => true
  }

  function Next(s: State, step: Step): State
    requires Enabled(s, step)
  {
    match step
    case Write(h, row) => s.(db := if row.Some? then s.db[h := row.value] else s.db - {h})
    case Begin(c, h, host) => if h in s.cache then s else s.(calls := s.calls[c := Missed(h, host)])
    case Read(c, answered) =>
      var p := s.calls[c];
      s.(calls := if answered && p.hash in s.db then s.calls[c := HasRow(p.hash, p.host, s.db[p.hash])]
                  else s.calls - {c})
    case Fill(c) =>
      var p := s.calls[c];
      s.(cache := s.cache[p.hash := p.key], calls := s.calls - {c})
    case List(keys) => s.(toSet := keys)
    case SetNext => s.(cache := s.cache[s.toSet[0].hash := s.toSet[0]], toSet := s.toSet[1..])
    case Evict(h) => s.(cache := s.cache - {h})
  }

  /** What the step returns to the caller, and for which key, when it ends a call. */
  function Returns(s: State, step: Step, lower: Lower): Option<(Hash, Outcome)>
    requires Enabled(s, step)
  {
    match step
    case Begin(_, h, host) => if h in s.cache then Some((h, Verdict(s.cache[h], host, lower))) else None
    case Read(c, answered) =>
      var h := s.calls[c].hash;
      if !answered then Some((h, Denied(None, LookupFailed)))
      else if h !in s.db then Some((h, Denied(None, NotFound)))
      else None
    case Fill(c) => Some((s.calls[c].hash, Verdict(s.calls[c].key, s.calls[c].host, lower)))
    case _ => None
  }

  datatype Run = Run(states: seq<State>, steps: seq<Step>)

  ghost predicate IsRun(r: Run) {
    && |r.states| == |r.steps| + 1
    && (forall h | h in r.states[0].db :: r.states[0].db[h].hash == h)
    && forall i | 0 <= i < |r.steps| ::
         Enabled(r.states[i], r.steps[i]) && r.states[i + 1] == Next(r.states[i], r.steps[i])
  }

  // ---------------------------------------------------------------------------------------
  // The steps, undisturbed, are the code
  // ---------------------------------------------------------------------------------------

  /** A call whose steps nothing interrupts does what `Execute` does. */
  lemma UninterruptedCall(s: State, c: Caller, h: Hash, host: string, answered: bool, lower: Lower)
    requires c !in s.calls
    ensures var reply := if !answered then Failed else if h in s.db then Row(s.db[h]) else NoRow;
            var (cache, out) := Lookup(s.cache, h, host, reply, lower);
            var s1 := Next(s, Begin(c, h, host));
            if h in s.cache then Returns(s, Begin(c, h, host), lower) == Some((h, out)) && s1.cache == cache
            else
              var s2 := Next(s1, Read(c, answered));
              if reply.Row? then
                Returns(s2, Fill(c), lower) == Some((h, out)) && Next(s2, Fill(c)).cache == cache
              else
                Returns(s1, Read(c, answered), lower) == Some((h, out)) && s2.cache == cache
  {
  }

  function SetRest(s: State): State
    decreases |s.toSet|
  {
    if s.toSet == [] then s else SetRest(Next(s, SetNext))
  }

  /** A refresh whose steps nothing interrupts does what `Refresh` does. */
  lemma {:induction false} UninterruptedRefresh(s: State)
    ensures SetRest(s) == s.(cache := SetAll(s.cache, s.toSet), toSet := [])
    decreases |s.toSet|
  {
    if s.toSet != [] {
      UninterruptedRefresh(Next(s, SetNext));
    }
  }

  // ---------------------------------------------------------------------------------------
  // Revocation
  // ---------------------------------------------------------------------------------------

  ghost predicate RevokedRow(s: State, h: Hash) { h in s.db && s.db[h].status == Revoked }

  /** A call that has read the row while it was not revoked and has not set the cache yet. */
  ghost predicate HoldsStale(s: State, c: Caller, h: Hash) {
    c in s.calls && s.calls[c].HasRow? && s.calls[c].hash == h && s.calls[c].key.status != Revoked
  }

  ghost predicate NobodyHoldsStale(s: State, h: Hash) { forall c | c in s.calls :: !HoldsStale(s, c, h) }

  ghost predicate ListsOnlyRevoked(s: State, h: Hash) {
    forall i | 0 <= i < |s.toSet| && s.toSet[i].hash == h :: s.toSet[i].status == Revoked
  }

  /** Nothing that could put an active copy of the key back is left anywhere. */
  ghost predicate Sealed(s: State, h: Hash) {
    && (h in s.cache ==> s.cache[h].status == Revoked)
    && ListsOnlyRevoked(s, h)
    && NobodyHoldsStale(s, h)
  }

  lemma {:induction false} RowsKnowTheirHash(r: Run, i: nat)
    requires IsRun(r) && i < |r.states|
    ensures forall h | h in r.states[i].db :: r.states[i].db[h].hash == h
  {
    if i > 0 {
      RowsKnowTheirHash(r, i - 1);
      assert Enabled(r.states[i - 1], r.steps[i - 1]);
    }
  }

  /** A stale holder after the revoke was one at the revoke and has not set the cache since. */
  lemma {:induction false} StaleSinceRevoke(r: Run, h: Hash, a: nat, i: nat, c: Caller)
    requires IsRun(r) && a <= i < |r.states| && HoldsStale(r.states[i], c, h)
    requires forall j | a <= j <= i :: RevokedRow(r.states[j], h)
    ensures HoldsStale(r.states[a], c, h)
    ensures forall j | a <= j < i :: r.steps[j] != Fill(c)
  {
    if i > a {
      assert r.states[i] == Next(r.states[i - 1], r.steps[i - 1]);
      assert RevokedRow(r.states[i - 1], h);
      assert HoldsStale(r.states[i - 1], c, h);
      assert r.steps[i - 1] != Fill(c);
      StaleSinceRevoke(r, h, a, i - 1, c);
    }
  }

  lemma {:induction false} ListedSinceRevoke(r: Run, h: Hash, l: nat, i: nat)
    requires IsRun(r) && l < i < |r.states| && r.steps[l].List?
    requires forall j | l <= j <= i :: RevokedRow(r.states[j], h)
    ensures ListsOnlyRevoked(r.states[i], h)
  {
    var s, step := r.states[i - 1], r.steps[i - 1];
    assert Enabled(s, step) && r.states[i] == Next(s, step) && RevokedRow(s, h);
    if step.List? {
      RowsKnowTheirHash(r, i - 1);
      forall k | 0 <= k < |step.keys| && step.keys[k].hash == h
        ensures step.keys[k].status == Revoked
      {
        assert step.keys[k] in s.db.Values;
        var g :| g in s.db && s.db[g] == step.keys[k];
      }
    } else {
      ListedSinceRevoke(r, h, l, i - 1);
    }
  }

  /** Once sealed, sealed for as long as the row stays revoked: no step reopens it. */
  lemma SealedStep(s: State, step: Step, h: Hash)
    requires Enabled(s, step) && Sealed(s, h)
    requires forall g | g in s.db :: s.db[g].hash == g
    requires RevokedRow(s, h) && RevokedRow(Next(s, step), h)
    ensures Sealed(Next(s, step), h)
  {
    var s' := Next(s, step);
    if step.List? {
      forall k | 0 <= k < |step.keys| && step.keys[k].hash == h
        ensures step.keys[k].status == Revoked
      {
        assert step.keys[k] in s.db.Values;
        var g :| g in s.db && s.db[g] == step.keys[k];
      }
    }
    assert forall c :: HoldsStale(s', c, h) ==> HoldsStale(s, c, h);
    if step.Fill? {
      assert !HoldsStale(s, step.c, h);
    }
  }

  lemma SealedNext(r: Run, h: Hash, i: nat)
    requires IsRun(r) && 0 < i < |r.states| && Sealed(r.states[i - 1], h)
    requires RevokedRow(r.states[i - 1], h) && RevokedRow(r.states[i], h)
    ensures Sealed(r.states[i], h)
  {
    RowsKnowTheirHash(r, i - 1);
    var s, step := r.states[i - 1], r.steps[i - 1];
    assert Enabled(s, step) && r.states[i] == Next(s, step);
    SealedStep(s, step, h);
  }

  lemma {:induction false} SealedFrom(r: Run, h: Hash, b: nat, i: nat)
    requires IsRun(r) && b <= i < |r.states| && Sealed(r.states[b], h)
    requires forall j | b <= j <= i :: RevokedRow(r.states[j], h)
    ensures Sealed(r.states[i], h)
  {
    if i > b {
      SealedFrom(r, h, b, i - 1);
      assert RevokedRow(r.states[i - 1], h) && RevokedRow(r.states[i], h);
      SealedNext(r, h, i);
    }
  }

  ghost predicate RevokedFrom(r: Run, h: Hash, a: nat) { forall j | a <= j < |r.states| :: RevokedRow(r.states[j], h) }

  /** If the step ends a call for the key, the call is refused as revoked, or the repository did not answer it. */
  ghost predicate Refuses(s: State, step: Step, h: Hash, lower: Lower)
    requires Enabled(s, step)
  {
    var answer := Returns(s, step, lower);
    answer.Some? && answer.value.0 == h ==>
      || (answer.value.1.Denied? && answer.value.1.err == KeyRevoked)
      || (step.Read? && !step.answered)
  }

  ghost predicate RefusesFrom(r: Run, h: Hash, b: nat, lower: Lower)
    requires IsRun(r)
  {
    forall i | b <= i < |r.steps| :: Refuses(r.states[i], r.steps[i], h, lower)
  }

  lemma SealedRefuses(s: State, step: Step, h: Hash, lower: Lower)
    requires Enabled(s, step) && Sealed(s, h) && RevokedRow(s, h)
    ensures Refuses(s, step, h, lower)
  {
    if step.Fill? {
      assert !HoldsStale(s, step.c, h);
    }
  }

  /** Once a refresh listed since the revoke has set the key, only calls can still bring the old row back. */
  lemma SealedIffNobodyHoldsStale(r: Run, h: Hash, a: nat, l: nat, b: nat)
    requires IsRun(r) && a <= l < b < |r.steps| && forall j | a <= j <= b + 1 :: RevokedRow(r.states[j], h)
    requires r.steps[l].List?
    requires r.steps[b] == SetNext && r.states[b].toSet[0].hash == h
    ensures Sealed(r.states[b + 1], h) <==> NobodyHoldsStale(r.states[b + 1], h)
  {
    ListedSinceRevoke(r, h, l, b);
    ListedSinceRevoke(r, h, l, b + 1);
    assert r.states[b + 1] == Next(r.states[b], r.steps[b]);
  }

  /**
   Revocation. The row is revoked from state `a` on. A refresh lists the rows at step `l`, after
   that, and sets the key at step `b`; by then every call that held the old row has set the
   cache. Then every call that ends after step `b` is refused as revoked, unless the repository
   failed to answer it, wherever evictions, other writes and other calls fall.
   */
  lemma RevocationTakesEffect(r: Run, h: Hash, a: nat, l: nat, b: nat, lower: Lower)
    requires IsRun(r) && a <= l < b < |r.steps| && RevokedFrom(r, h, a)
    requires r.steps[l].List?
    requires r.steps[b] == SetNext && r.states[b].toSet[0].hash == h
    requires forall c | HoldsStale(r.states[a], c, h) :: exists j | a <= j < b :: r.steps[j] == Fill(c)
    ensures RefusesFrom(r, h, b + 1, lower)
  {
    var s := r.states[b + 1];
    forall c | c in s.calls
      ensures !HoldsStale(s, c, h)
    {
      if HoldsStale(s, c, h) {
        StaleSinceRevoke(r, h, a, b + 1, c);
      }
    }
    SealedIffNobodyHoldsStale(r, h, a, l, b);
    forall i | b + 1 <= i < |r.steps|
      ensures Refuses(r.states[i], r.steps[i], h, lower)
    {
      SealedFrom(r, h, b + 1, i);
      assert RevokedRow(r.states[i], h);
      SealedRefuses(r.states[i], r.steps[i], h, lower);
    }
  }

  // ---------------------------------------------------------------------------------------
  // When revocation holds
  // ---------------------------------------------------------------------------------------

  ghost predicate KeyedByHash(s: State) { forall h | h in s.db :: s.db[h].hash == h }

  /** However a run goes on from `s`, as long as the row stays revoked every call for the key is refused. */
  ghost predicate AlwaysRefuses(s: State, h: Hash, lower: Lower) {
    forall r: Run | IsRun(r) && r.states[0] == s && RevokedFrom(r, h, 0) :: RefusesFrom(r, h, 0, lower)
  }

  /** One more step at the start of a run. */
  lemma StartWith(s: State, step: Step, r: Run) returns (e: Run)
    requires KeyedByHash(s) && Enabled(s, step) && IsRun(r) && r.states[0] == Next(s, step)
    ensures IsRun(e) && e == Run([s] + r.states, [step] + r.steps)
  {
    e := Run([s] + r.states, [step] + r.steps);
    forall i | 0 <= i < |e.steps|
      ensures Enabled(e.states[i], e.steps[i]) && e.states[i + 1] == Next(e.states[i], e.steps[i])
    {
      if i > 0 {
        assert e.states[i] == r.states[i - 1] && e.steps[i] == r.steps[i - 1] && e.states[i + 1] == r.states[i];
        assert Enabled(r.states[i - 1], r.steps[i - 1]) && r.states[i] == Next(r.states[i - 1], r.steps[i - 1]);
      }
    }
  }

  /** A run of one step that lets a call for the key through, or refuses it for another reason. */
  lemma LeakNow(s: State, step: Step, h: Hash, lower: Lower) returns (r: Run, leak: nat)
    requires KeyedByHash(s) && RevokedRow(s, h) && Enabled(s, step) && RevokedRow(Next(s, step), h)
    requires !Refuses(s, step, h, lower)
    ensures IsRun(r) && r.states[0] == s && RevokedFrom(r, h, 0)
    ensures leak < |r.steps| && !Refuses(r.states[leak], r.steps[leak], h, lower)
  {
    r, leak := Run([s, Next(s, step)], [step]), 0;
  }

  /** An active copy that only the refresher holds moves towards the cache. */
  lemma StillUnsealed(s: State, h: Hash) returns (rest: State)
    requires KeyedByHash(s) && RevokedRow(s, h) && !ListsOnlyRevoked(s, h)
    ensures Enabled(s, SetNext) && rest == Next(s, SetNext) && |rest.toSet| < |s.toSet|
    ensures KeyedByHash(rest) && RevokedRow(rest, h) && !Sealed(rest, h)
  {
    rest := Next(s, SetNext);
    var i :| 0 <= i < |s.toSet| && s.toSet[i].hash == h && s.toSet[i].status != Revoked;
    if i > 0 {
      assert rest.toSet[i - 1] == s.toSet[i];
    }
  }

  lemma RevokedOneEarlier(s: State, later: Run, r: Run, h: Hash)
    requires RevokedRow(s, h) && RevokedFrom(later, h, 0) && r.states == [s] + later.states
    ensures RevokedFrom(r, h, 0)
  {
    forall j | 0 <= j < |r.states|
      ensures RevokedRow(r.states[j], h)
    {
      if j > 0 {
        assert r.states[j] == later.states[j - 1];
      }
    }
  }

  /** As long as an active copy is left anywhere, some run from here lets a call through. */
  lemma {:induction false} UnsealedLeaks(s: State, h: Hash, lower: Lower) returns (r: Run, leak: nat)
    requires KeyedByHash(s) && RevokedRow(s, h) && !Sealed(s, h)
    ensures IsRun(r) && r.states[0] == s && RevokedFrom(r, h, 0)
    ensures leak < |r.steps| && !Refuses(r.states[leak], r.steps[leak], h, lower)
    decreases |s.toSet|
  {
    if c :| c in s.calls && HoldsStale(s, c, h) {
      r, leak := LeakNow(s, Fill(c), h, lower);
    } else if h in s.cache && s.cache[h].status != Revoked {
      var c := FreshNat(s.calls.Keys);
      r, leak := LeakNow(s, Begin(c, h, ""), h, lower);
    } else {
      var rest := StillUnsealed(s, h);
      var later, i := UnsealedLeaks(rest, h, lower);
      r := StartWith(s, SetNext, later);
      leak := i + 1;
      RevokedOneEarlier(s, later, r, h);
      assert r.states[leak] == later.states[i] && r.steps[leak] == later.steps[i];
    }
  }

  /**
   Sealed is the exact condition: from a state in which the row is revoked, every call for the key is
   refused in every run that keeps it revoked if and only if no active copy is left in the
   cache, with the refresher, or with a call.
   */
  lemma SealedIsExact(s: State, h: Hash, lower: Lower)
    requires KeyedByHash(s) && RevokedRow(s, h)
    ensures AlwaysRefuses(s, h, lower) <==> Sealed(s, h)
  {
    if Sealed(s, h) {
      forall r: Run | IsRun(r) && r.states[0] == s && RevokedFrom(r, h, 0)
        ensures RefusesFrom(r, h, 0, lower)
      {
        forall i | 0 <= i < |r.steps|
          ensures Refuses(r.states[i], r.steps[i], h, lower)
        {
          SealedFrom(r, h, 0, i);
          assert RevokedRow(r.states[i], h);
          SealedRefuses(r.states[i], r.steps[i], h, lower);
        }
      }
    } else {
      var r, leak := UnsealedLeaks(s, h, lower);
      assert !Refuses(r.states[leak], r.steps[leak], h, lower);
      assert !RefusesFrom(r, h, 0, lower);
    }
  }

  /**
   The revocation window, exactly. When a refresh listed since the revoke has set the key, every
   later call is refused, however the run goes on, if and only if no call still holds the old row.
   */
  lemma RevocationHoldsIff(r: Run, h: Hash, a: nat, l: nat, b: nat, lower: Lower)
    requires IsRun(r) && a <= l < b < |r.steps| && forall j | a <= j <= b + 1 :: RevokedRow(r.states[j], h)
    requires r.steps[l].List?
    requires r.steps[b] == SetNext && r.states[b].toSet[0].hash == h
    ensures AlwaysRefuses(r.states[b + 1], h, lower) <==> NobodyHoldsStale(r.states[b + 1], h)
  {
    RowsKnowTheirHash(r, b + 1);
    assert RevokedRow(r.states[b + 1], h);
    SealedIsExact(r.states[b + 1], h, lower);
    SealedIffNobodyHoldsStale(r, h, a, l, b);
  }

  /** One more step at the end of a run. */
  lemma Play(r: Run, step: Step, s: State) returns (e: Run)
    requires IsRun(r) && Enabled(r.states[|r.steps|], step) && Next(r.states[|r.steps|], step) == s
    ensures IsRun(e) && e == Run(r.states + [s], r.steps + [step])
  {
    e := Run(r.states + [s], r.steps + [step]);
    forall i | 0 <= i < |e.steps|
      ensures Enabled(e.states[i], e.steps[i]) && e.states[i + 1] == Next(e.states[i], e.steps[i])
    {
      if i < |r.steps| {
        assert Enabled(r.states[i], r.steps[i]) && r.states[i + 1] == Next(r.states[i], r.steps[i]);
      }
    }
  }

  lemma ReadBeforeTheRevoke(key: APIKey, gone: APIKey) returns (r: Run)
    requires key.hash == gone.hash == "h"
    ensures IsRun(r) && |r.steps| == 3 && r.steps[2] == Write("h", Some(gone))
    ensures r.states[3] == State(map["h" := gone], map[], map[0 := HasRow("h", "x", key)], [])
  {
    r := Run([State(map["h" := key], map[], map[], [])], []);
    r := Play(r, Begin(0, "h", "x"), State(map["h" := key], map[], map[0 := Missed("h", "x")], []));
    r := Play(r, Read(0, true), State(map["h" := key], map[], map[0 := HasRow("h", "x", key)], []));
    r := Play(r, Write("h", Some(gone)), State(map["h" := gone], map[], map[0 := HasRow("h", "x", key)], []));
  }

  /**
   Waiting for the refresh alone is not enough: a call that read the row before the revoke (step
   2) can set the cache (step 5) after the refresh has (step 4), and the next call is let through.
   */
  lemma StaleCallUndoesTheRefresh(lower: Lower) returns (r: Run, key: APIKey)
    ensures IsRun(r) && |r.steps| == 6 && r.steps[2] == Write(key.hash, Some(key.(status := Revoked)))
    ensures RevokedRow(r.states[3], key.hash) && RevokedRow(r.states[6], key.hash)
    ensures r.steps[3].List? && r.steps[4] == SetNext && key.hash in r.states[5].cache
    ensures r.states[5].cache[key.hash].status == Revoked
    ensures Enabled(r.states[6], Begin(1, key.hash, "x"))
    ensures Returns(r.states[6], Begin(1, key.hash, "x"), lower) == Some((key.hash, Allowed(key)))
  {
    key := APIKey(1, 1, "h", [], Active);
    var gone := key.(status := Revoked);
    r := ReadBeforeTheRevoke(key, gone);
    assert map["h" := gone].Values == {gone} by {
      assert map["h" := gone]["h"] == gone;
    }
    r := Play(r, List([gone]), State(map["h" := gone], map[], map[0 := HasRow("h", "x", key)], [gone]));
    r := Play(r, SetNext, State(map["h" := gone], map["h" := gone], map[0 := HasRow("h", "x", key)], []));
    r := Play(r, Fill(0), State(map["h" := gone], map["h" := key], map[], []));
  }

  /** The row is gone, and no call and no snapshot holds a copy. */
  ghost predicate Gone(s: State, h: Hash) {
    && h !in s.db
    && (forall c | c in s.calls && s.calls[c].HasRow? :: s.calls[c].hash != h)
    && forall k | 0 <= k < |s.toSet| :: s.toSet[k].hash != h
  }

  lemma GoneStep(s: State, step: Step, h: Hash)
    requires KeyedByHash(s) && Enabled(s, step) && Gone(s, h) && h !in Next(s, step).db
    ensures Gone(Next(s, step), h)
    ensures h in Next(s, step).cache <==> h in s.cache && step != Evict(h)
    ensures h in Next(s, step).cache ==> Next(s, step).cache[h] == s.cache[h]
  {
    if step.List? {
      forall k | 0 <= k < |step.keys|
        ensures step.keys[k].hash != h
      {
        assert step.keys[k] in s.db.Values;
        var g :| g in s.db && s.db[g] == step.keys[k];
      }
    }
  }

  ghost predicate NeverEvicted(r: Run, h: Hash, a: nat, i: nat)
    requires i <= |r.steps|
  {
    forall j | a <= j < i :: r.steps[j] != Evict(h)
  }

  /**
   A row that is deleted, not marked: no refresh takes the key out of the cache again, and nothing
   puts it back. It stays, with its old value, exactly until it is evicted.
   */
  lemma {:induction false} DeletedKeyStaysCached(r: Run, h: Hash, a: nat, i: nat)
    requires IsRun(r) && a <= i < |r.states| && h in r.states[a].cache && Gone(r.states[a], h)
    requires forall j | a <= j <= i :: h !in r.states[j].db
    ensures h in r.states[i].cache <==> NeverEvicted(r, h, a, i)
    ensures h in r.states[i].cache ==> r.states[i].cache[h] == r.states[a].cache[h]
    ensures Gone(r.states[i], h)
  {
    if i > a {
      DeletedKeyStaysCached(r, h, a, i - 1);
      RowsKnowTheirHash(r, i - 1);
      var s, step := r.states[i - 1], r.steps[i - 1];
      assert Enabled(s, step) && r.states[i] == Next(s, step);
      GoneStep(s, step, h);
      assert NeverEvicted(r, h, a, i) <==> NeverEvicted(r, h, a, i - 1) && step != Evict(h);
    }
  }
}
