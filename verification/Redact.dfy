/**
 pkg/redact/redact.go around the pattern pass: building a redactor, masking headers, masking
 JSON fields in place, and scrubbing a body.

 Lower-casing is a parameter (`lower`), so the results hold for Go's Unicode folding and for
 the ports' own. JSON text is read and written by the two functions of a `Codec`.
 */
module Redact {
  import opened Common
  import opened PatternScrub

  // ---------------------------------------------------------------------------------------
  // Rules
  // ---------------------------------------------------------------------------------------

  const DEFAULT_HEADERS := ["authorization", "proxy-authorization", "cookie", "set-cookie", "x-api-key",
    "x-auth-token", "x-csrf-token", "x-xsrf-token", "x-session-token", "x-access-token", "x-echo-key",
    "x-forwarded-authorization", "www-authenticate"]

  const DEFAULT_JSON_FIELDS := ["password", "passwd", "pwd", "secret", "client_secret", "token", "access_token",
    "refresh_token", "id_token", "session_token", "api_key", "apikey", "auth_token", "authorization",
    "private_key", "privatekey", "credit_card", "cardnumber", "card_number", "cvv", "cvc", "ssn"]

  datatype Rules = Rules(
    headerDenylist: seq<string>,
    jsonFieldDenylist: seq<string>,
    patterns: seq<Pattern>,
    disableDefaults: bool)

  /** Which keys are denied. */
  type Deny = string -> bool

  /** The names a denylist catches, under one notion of lower case. */
  datatype Denylist = Denylist(names: set<string>, lower: Lower) {
    function Hits(): Deny { (key: string) => lower(key) in names }
  }

  function Either(a: Deny, b: Deny): Deny { (key: string) => a(key) || b(key) }

  datatype Redactor = Redactor(headers: Denylist, fields: Denylist, patterns: seq<Pattern>, lower: Lower)

  ghost function DenySet(defaults: seq<string>, names: seq<string>, disableDefaults: bool, lower: Lower): set<string> {
    (if disableDefaults then {} else set d | d in defaults) + set n | n in names :: lower(n)
  }

  /** A key is denied by a default name it folds to, unless they are off, or by a name that folds as it does. */
  ghost predicate DeniedBy(defaults: seq<string>, names: seq<string>, disableDefaults: bool, lower: Lower,
                           key: string)
  {
    (!disableDefaults && lower(key) in defaults) || exists n | n in names :: lower(n) == lower(key)
  }

  /** A denylist built from rules catches exactly what the rules deny, however the key is written. */
  lemma HitsIffDenied(defaults: seq<string>, names: seq<string>, disableDefaults: bool, lower: Lower, key: string)
    ensures Denylist(DenySet(defaults, names, disableDefaults, lower), lower).Hits()(key)
       <==> DeniedBy(defaults, names, disableDefaults, lower, key)
  {
  }

  ghost predicate HeaderDenied(r: Rules, lower: Lower, key: string) {
    DeniedBy(DEFAULT_HEADERS, r.headerDenylist, r.disableDefaults, lower, key)
  }

  ghost predicate FieldDenied(r: Rules, lower: Lower, key: string) {
    DeniedBy(DEFAULT_JSON_FIELDS, r.jsonFieldDenylist, r.disableDefaults, lower, key)
  }

  method DenyNames(defaults: seq<string>, names: seq<string>, disableDefaults: bool, lower: Lower)
    returns (out: set<string>)
    ensures out == DenySet(defaults, names, disableDefaults, lower)
  {
    out := {};
    if !disableDefaults {
      for i := 0 to |defaults|
        invariant out == set d | d in defaults[..i]
      {
        out := out + {defaults[i]};
      }
      assert defaults[..|defaults|] == defaults;
    }
    ghost var start := out;
    for i := 0 to |names|
      invariant out == start + set n | n in names[..i] :: lower(n)
    {
      assert names[..i + 1] == names[..i] + [names[i]];
      out := out + {lower(names[i])};
    }
    assert names[..|names|] == names;
  }

  /** The two denylists that rules stand for. */
  ghost predicate BuiltFrom(redactor: Redactor, r: Rules, lower: Lower) {
    && redactor.headers.names == DenySet(DEFAULT_HEADERS, r.headerDenylist, r.disableDefaults, lower)
    && redactor.fields.names == DenySet(DEFAULT_JSON_FIELDS, r.jsonFieldDenylist, r.disableDefaults, lower)
    && redactor.headers.lower == redactor.fields.lower == redactor.lower == lower
  }

  /** The defaults, unless disabled, and the caller's names in lower case. */
  method New(r: Rules, lower: Lower, card: Finder) returns (redactor: Redactor)
    ensures BuiltFrom(redactor, r, lower)
    ensures redactor.patterns == (if r.disableDefaults then [] else DefaultPatterns(card)) + r.patterns
  {
    var headers := DenyNames(DEFAULT_HEADERS, r.headerDenylist, r.disableDefaults, lower);
    var jsonFields := DenyNames(DEFAULT_JSON_FIELDS, r.jsonFieldDenylist, r.disableDefaults, lower);
    var patterns := if r.disableDefaults then [] else DefaultPatterns(card);
    return Redactor(Denylist(headers, lower), Denylist(jsonFields, lower), patterns + r.patterns, lower);
  }

  // ---------------------------------------------------------------------------------------
  // Headers
  // ---------------------------------------------------------------------------------------

  function MaskHeaders(deny: Deny, h: map<string, string>): map<string, string> {
    map k | k in h :: if deny(k) then MASK else h[k]
  }

  /** Copies the map, masking the denied names. */
  method Headers(deny: Deny, h: map<string, string>) returns (out: map<string, string>)
    ensures out == MaskHeaders(deny, h)
    ensures out.Keys == h.Keys && forall k | k in h :: out[k] == if deny(k) then "[REDACTED]" else h[k]
  {
    if |h| == 0 {
      return h;
    }
    out := map[];
    var left := h.Keys;
    while left != {}
      invariant left <= h.Keys && out.Keys == h.Keys - left
      invariant forall k | k in out :: out[k] == MaskHeaders(deny, h)[k]
      decreases left
    {
      var k :| k in left;
      left := left - {k};
      if deny(k) {
        out := out[k := MASK];
        continue;
      }
      out := out[k := h[k]];
    }
  }

  /** A redactor built from rules puts the mask for exactly the headers the rules deny. */
  lemma RulesMaskHeaders(redactor: Redactor, r: Rules, lower: Lower, h: map<string, string>, k: string)
    requires BuiltFrom(redactor, r, lower) && k in h
    ensures var out := MaskHeaders(redactor.headers.Hits(), h);
            k in out && out[k] == if HeaderDenied(r, lower, k) then "[REDACTED]" else h[k]
  {
    HitsIffDenied(DEFAULT_HEADERS, r.headerDenylist, r.disableDefaults, lower, k);
  }

  /** Two header maps come out the same exactly when they differ only in values under denied names. */
  lemma HeadersHideExactlyDeniedValues(deny: Deny, a: map<string, string>, b: map<string, string>)
    ensures MaskHeaders(deny, a) == MaskHeaders(deny, b)
       <==> a.Keys == b.Keys && forall k | k in a && !deny(k) :: a[k] == b[k]
  {
    var ma, mb := MaskHeaders(deny, a), MaskHeaders(deny, b);
    assert ma.Keys == a.Keys && mb.Keys == b.Keys;
    if ma == mb {
      forall k | k in a && !deny(k)
        ensures a[k] == b[k]
      {
        assert ma[k] == a[k] && mb[k] == b[k];
      }
    }
  }

  lemma HeadersInTurn(a: Deny, b: Deny, h: map<string, string>)
    ensures MaskHeaders(b, MaskHeaders(a, h)) == MaskHeaders(Either(a, b), h)
  {
    var twice, once := MaskHeaders(b, MaskHeaders(a, h)), MaskHeaders(Either(a, b), h);
    forall k | k in h
      ensures twice[k] == once[k]
    {
      assert MaskHeaders(a, h)[k] == if a(k) then MASK else h[k];
    }
    assert twice == once;
  }

  lemma SameHitsSameHeaders(a: Deny, b: Deny, h: map<string, string>)
    requires forall k | k in h :: a(k) == b(k)
    ensures MaskHeaders(a, h) == MaskHeaders(b, h)
  {
    forall k | k in h
      ensures MaskHeaders(a, h)[k] == MaskHeaders(b, h)[k]
    {
    }
  }

  /**
   One service after another, in either order, masks as one service that denies what either of
   them does, however each of them folds case.
   */
  lemma HeadersCompose(a: Deny, b: Deny, h: map<string, string>)
    ensures MaskHeaders(b, MaskHeaders(a, h)) == MaskHeaders(Either(a, b), h)
    ensures MaskHeaders(a, MaskHeaders(b, h)) == MaskHeaders(Either(a, b), h)
    ensures MaskHeaders(a, MaskHeaders(a, h)) == MaskHeaders(a, h)
  {
    HeadersInTurn(a, b, h);
    HeadersInTurn(b, a, h);
    HeadersInTurn(a, a, h);
    SameHitsSameHeaders(Either(b, a), Either(a, b), h);
    SameHitsSameHeaders(Either(a, a), a, h);
  }

  /** Merging two rule sets merges what they deny; the defaults stay unless both drop them. */
  lemma RulesMerge(defaults: seq<string>, a: seq<string>, b: seq<string>, offA: bool, offB: bool, lower: Lower)
    ensures DenySet(defaults, a + b, offA && offB, lower)
         == DenySet(defaults, a, offA, lower) + DenySet(defaults, b, offB, lower)
  {
    assert forall n :: n in a + b <==> n in a || n in b;
  }

  // ---------------------------------------------------------------------------------------
  // JSON documents
  // ---------------------------------------------------------------------------------------

  datatype Json =
    | Null
    | Bool(b: bool)
    | Num(n: real)
    | Str(s: string)
    | Arr(items: seq<Json>)
    | Obj(fields: map<string, Json>)

  function MaskJson(deny: Deny, j: Json): Json {
    match j
    case Obj(fields) =>
      Obj(map k | k in fields :: if deny(k) then Str(MASK) else MaskJson(deny, fields[k]))
    case Arr(items) =>
      Arr(seq(|items|, i requires 0 <= i < |items| => MaskJson(deny, items[i])))
    case _ => j
  }

  /** A redactor built from rules puts the mask for exactly the fields the rules deny, and walks into the others. */
  lemma RulesMaskFields(redactor: Redactor, r: Rules, lower: Lower, fields: map<string, Json>, k: string)
    requires BuiltFrom(redactor, r, lower) && k in fields
    ensures var deny, out := redactor.fields.Hits(), MaskJson(redactor.fields.Hits(), Obj(fields));
            && out.Obj? && k in out.fields
            && out.fields[k] == if FieldDenied(r, lower, k) then Str("[REDACTED]") else MaskJson(deny, fields[k])
  {
    HitsIffDenied(DEFAULT_JSON_FIELDS, r.jsonFieldDenylist, r.disableDefaults, lower, k);
  }

  /** The documents differ at most in values under denied keys. */
  ghost predicate SameOutside(deny: Deny, a: Json, b: Json) {
    match a
    case Obj(fa) =>
      b.Obj? && fa.Keys == b.fields.Keys
      && forall k | k in fa && !deny(k) :: SameOutside(deny, fa[k], b.fields[k])
    case Arr(ia) =>
      b.Arr? && |ia| == |b.items|
      && forall i | 0 <= i < |ia| :: SameOutside(deny, ia[i], b.items[i])
    case _ => a == b
  }

  /** Non-interference, exactly: nothing else is hidden, and nothing under a denied key shows. */
  lemma {:induction false} MaskHidesExactlyDeniedValues(deny: Deny, a: Json, b: Json)
    ensures MaskJson(deny, a) == MaskJson(deny, b) <==> SameOutside(deny, a, b)
  {
    match (a, b)
    case (Obj(fa), Obj(fb)) =>
      var ma, mb := MaskJson(deny, a).fields, MaskJson(deny, b).fields;
      assert ma.Keys == fa.Keys && mb.Keys == fb.Keys;
      if fa.Keys == fb.Keys {
        forall k | k in fa && !deny(k)
          ensures ma[k] == mb[k] <==> SameOutside(deny, fa[k], fb[k])
        {
          MaskHidesExactlyDeniedValues(deny, fa[k], fb[k]);
        }
        if SameOutside(deny, a, b) {
          assert ma == mb;
        }
      }
    case (Arr(ia), Arr(ib)) =>
      var ma, mb := MaskJson(deny, a).items, MaskJson(deny, b).items;
      if |ia| == |ib| {
        forall i | 0 <= i < |ia|
          ensures ma[i] == mb[i] <==> SameOutside(deny, ia[i], ib[i])
        {
          MaskHidesExactlyDeniedValues(deny, ia[i], ib[i]);
        }
        if SameOutside(deny, a, b) {
          assert ma == mb;
        }
      }
    case _ =>
  }

  /** One service after another masks as one service that denies what either of them does. */
  lemma {:induction false} MasksCompose(a: Deny, b: Deny, j: Json)
    ensures MaskJson(b, MaskJson(a, j)) == MaskJson(Either(a, b), j)
  {
    match j
    case Obj(fields) =>
      var first := MaskJson(a, j).fields;
      var once := MaskJson(Either(a, b), j).fields;
      var twice := MaskJson(b, MaskJson(a, j)).fields;
      forall k | k in fields
        ensures twice[k] == once[k]
      {
        MasksCompose(a, b, fields[k]);
        assert first[k] == if a(k) then Str(MASK) else MaskJson(a, fields[k]);
        assert twice[k] == if b(k) then Str(MASK) else MaskJson(b, first[k]);
        assert once[k] == if a(k) || b(k) then Str(MASK) else MaskJson(Either(a, b), fields[k]);
      }
      assert twice == once;
    case Arr(items) =>
      forall i | 0 <= i < |items|
        ensures MaskJson(b, MaskJson(a, items[i])) == MaskJson(Either(a, b), items[i])
      {
        MasksCompose(a, b, items[i]);
      }
    case _ =>
  }

  lemma {:induction false} SameHitsSameMask(a: Deny, b: Deny, j: Json)
    requires forall k :: a(k) == b(k)
    ensures MaskJson(a, j) == MaskJson(b, j)
  {
    match j
    case Obj(fields) =>
      forall k | k in fields
        ensures MaskJson(a, fields[k]) == MaskJson(b, fields[k])
      {
        SameHitsSameMask(a, b, fields[k]);
      }
      assert MaskJson(a, j).fields == MaskJson(b, j).fields;
    case Arr(items) =>
      forall i | 0 <= i < |items|
        ensures MaskJson(a, items[i]) == MaskJson(b, items[i])
      {
        SameHitsSameMask(a, b, items[i]);
      }
    case _ =>
  }

  /** Defence in depth: the order of the services does not matter and repeating one adds nothing. */
  lemma MaskOrderDoesNotMatter(a: Deny, b: Deny, j: Json)
    ensures MaskJson(b, MaskJson(a, j)) == MaskJson(a, MaskJson(b, j)) == MaskJson(Either(a, b), j)
    ensures MaskJson(a, MaskJson(a, j)) == MaskJson(a, j)
  {
    MasksCompose(a, b, j);
    MasksCompose(b, a, j);
    MasksCompose(a, a, j);
    SameHitsSameMask(Either(a, b), Either(b, a), j);
    SameHitsSameMask(Either(a, a), a, j);
  }

  /** Two services that fold case alike mask, one after the other, as one service with the merged rules. */
  lemma MergedRulesMask(a: set<string>, b: set<string>, lower: Lower, h: map<string, string>, j: Json)
    ensures var first, second := Denylist(a, lower).Hits(), Denylist(b, lower).Hits();
            var merged := Denylist(a + b, lower).Hits();
            && MaskHeaders(second, MaskHeaders(first, h)) == MaskHeaders(merged, h)
            && MaskJson(second, MaskJson(first, j)) == MaskJson(merged, j)
  {
    var first, second := Denylist(a, lower).Hits(), Denylist(b, lower).Hits();
    var merged := Denylist(a + b, lower).Hits();
    HeadersInTurn(first, second, h);
    SameHitsSameHeaders(Either(first, second), merged, h);
    MasksCompose(first, second, j);
    SameHitsSameMask(Either(first, second), merged, j);
  }

  // ---------------------------------------------------------------------------------------
  // What stands at a path
  // ---------------------------------------------------------------------------------------

  datatype Step = Key(k: string) | Index(i: nat)

  function Lookup(j: Json, path: seq<Step>): Option<Json> {
    if path == [] then Some(j)
    else
      match (path[0], j)
      case (Key(k), Obj(fields)) => if k in fields then Lookup(fields[k], path[1..]) else None
      case (Index(i), Arr(items)) => if i < |items| then Lookup(items[i], path[1..]) else None
      case _ => None
  }

  /** How far the path goes before it meets a denied key. */
  function CleanPrefix(deny: Deny, path: seq<Step>): (n: nat)
    ensures n <= |path|
  {
    if path == [] || (path[0].Key? && deny(path[0].k)) then 0 else 1 + CleanPrefix(deny, path[1..])
  }

  /** What masking leaves at every path of a document. */
  lemma {:induction false} MaskedAtPath(deny: Deny, j: Json, path: seq<Step>)
    ensures var n := CleanPrefix(deny, path);
      Lookup(MaskJson(deny, j), path) ==
        if n == |path| then
          (match Lookup(j, path) case Some(v) => Some(MaskJson(deny, v)) case None => None)
        else if n == |path| - 1 && Lookup(j, path).Some? then Some(Str(MASK))
        else None
  {
    if path != [] {
      match (path[0], j)
      case (Key(k), Obj(fields)) =>
        if k in fields {
          if !deny(k) {
            MaskedAtPath(deny, fields[k], path[1..]);
          } else if |path| > 1 {
            assert path[1..] != [];
          }
        }
      case (Index(i), Arr(items)) =>
        if i < |items| {
          MaskedAtPath(deny, items[i], path[1..]);
        }
      case _ =>
    }
  }

  lemma {:induction false} CleanPrefixStops(deny: Deny, path: seq<Step>, k: string)
    requires deny(k)
    ensures CleanPrefix(deny, path + [Key(k)]) <= |path|
  {
    if path != [] {
      assert (path + [Key(k)])[1..] == path[1..] + [Key(k)];
      CleanPrefixStops(deny, path[1..], k);
    }
  }

  /** Wherever a denied key still stands, its value is the mask. */
  lemma NoDeniedValueIsKept(deny: Deny, j: Json, path: seq<Step>, k: string)
    requires deny(k)
    requires Lookup(MaskJson(deny, j), path + [Key(k)]).Some?
    ensures Lookup(MaskJson(deny, j), path + [Key(k)]) == Some(Str(MASK))
  {
    MaskedAtPath(deny, j, path + [Key(k)]);
    CleanPrefixStops(deny, path, k);
  }

  // ---------------------------------------------------------------------------------------
  // Masking in place
  // ---------------------------------------------------------------------------------------

  /** A decoded object, as Go's map: the walk assigns into it. */
  class JObject {
    var fields: map<string, JValue>

    constructor (fields: map<string, JValue>)
      ensures this.fields == fields
    {
      this.fields := fields;
    }
  }

  /** A decoded value. Objects are references; scalars stand for themselves. */
  datatype JValue = Scalar(v: Json) | List(items: seq<JValue>) | Object(o: JObject)

  /** The tree a decoded value unfolds to: which object sits where. */
  datatype Shape =
    | ScalarShape(v: Json)
    | ListShape(elems: seq<Shape>)
    | ObjectShape(o: JObject, kids: map<string, Shape>)

  ghost function ValueOf(t: Shape): JValue {
    match t
    case ScalarShape(v) => Scalar(v)
    case ListShape(elems) => List(seq(|elems|, i requires 0 <= i < |elems| => ValueOf(elems[i])))
    case ObjectShape(o, _) => Object(o)
  }

  ghost function Document(t: Shape): Json {
    match t
    case ScalarShape(v) => v
    case ListShape(elems) => Arr(seq(|elems|, i requires 0 <= i < |elems| => Document(elems[i])))
    case ObjectShape(_, kids) => Obj(map k | k in kids :: Document(kids[k]))
  }

  /** The objects of the tree. */
  ghost function Objects(t: Shape): set<JObject> {
    match t
    case ScalarShape(_) => {}
    case ListShape(elems) => set i, x | 0 <= i < |elems| && x in Objects(elems[i]) :: x
    case ObjectShape(o, kids) => {o} + set k, x | k in kids && x in Objects(kids[k]) :: x
  }

  /** No object occurs twice, and the leaves are scalars: what a JSON decoder builds. */
  ghost predicate IsTree(t: Shape) {
    match t
    case ScalarShape(v) => !v.Obj? && !v.Arr?
    case ListShape(elems) =>
      && (forall i | 0 <= i < |elems| :: IsTree(elems[i]))
      && (forall i, j | 0 <= i < j < |elems| :: Objects(elems[i]) !! Objects(elems[j]))
    case ObjectShape(o, kids) =>
      && (forall k | k in kids :: IsTree(kids[k]) && o !in Objects(kids[k]))
      && (forall k, l | k in kids && l in kids && k != l :: Objects(kids[k]) !! Objects(kids[l]))
  }

  type Heap = map<JObject, map<string, JValue>>

  /** What the objects hold now. */
  ghost function Fields(area: set<JObject>): Heap
    reads area
  {
    map x | x in area :: x.fields
  }

  /** What the objects hold agrees with the tree. */
  ghost predicate Holds(t: Shape, h: Heap)
    requires Objects(t) <= h.Keys
  {
    match t
    case ScalarShape(_) => true
    case ListShape(elems) => forall i | 0 <= i < |elems| :: Holds(elems[i], h)
    case ObjectShape(o, kids) =>
      && h[o].Keys == kids.Keys
      && forall k | k in kids :: h[o][k] == ValueOf(kids[k]) && Holds(kids[k], h)
  }

  /** Only the objects of a tree matter to it. */
  lemma {:induction false} HoldsInBoth(t: Shape, h: Heap, h': Heap)
    requires Objects(t) <= h.Keys && Objects(t) <= h'.Keys
    requires forall x | x in Objects(t) :: h[x] == h'[x]
    ensures Holds(t, h) == Holds(t, h')
  {
    match t
    case ScalarShape(_) =>
    case ListShape(elems) =>
      forall i | 0 <= i < |elems|
        ensures Holds(elems[i], h) == Holds(elems[i], h')
      {
        HoldsInBoth(elems[i], h, h');
      }
    case ObjectShape(o, kids) =>
      forall k | k in kids
        ensures Holds(kids[k], h) == Holds(kids[k], h')
      {
        HoldsInBoth(kids[k], h, h');
      }
  }

  ghost function MaskKid(deny: Deny, k: string, t: Shape): (r: Shape)
    ensures Objects(r) <= Objects(t)
    ensures !deny(k) ==> ValueOf(r) == ValueOf(t)
    decreases t, 1
  {
    if deny(k) then ScalarShape(Str(MASK)) else MaskShape(deny, t)
  }

  ghost function MaskShape(deny: Deny, t: Shape): (r: Shape)
    ensures Objects(r) <= Objects(t) && ValueOf(r) == ValueOf(t)
    decreases t, 0
  {
    match t
    case ScalarShape(_) => t
    case ListShape(elems) =>
      var r := ListShape(seq(|elems|, i requires 0 <= i < |elems| => MaskShape(deny, elems[i])));
      assert ValueOf(r).items == ValueOf(t).items;
      r
    case ObjectShape(o, kids) => ObjectShape(o, map k | k in kids :: MaskKid(deny, k, kids[k]))
  }

  lemma MaskedKid(deny: Deny, k: string, t: Shape)
    requires Document(MaskShape(deny, t)) == MaskJson(deny, Document(t))
    ensures Document(MaskKid(deny, k, t)) == if deny(k) then Str(MASK) else MaskJson(deny, Document(t))
  {
  }

  /** The masked tree spells the masked document. */
  lemma {:induction false} MaskShapeIsMaskJson(deny: Deny, t: Shape)
    requires IsTree(t)
    ensures Document(MaskShape(deny, t)) == MaskJson(deny, Document(t))
  {
    match t
    case ScalarShape(_) =>
    case ListShape(elems) =>
      forall i | 0 <= i < |elems|
        ensures Document(MaskShape(deny, elems[i])) == MaskJson(deny, Document(elems[i]))
      {
        MaskShapeIsMaskJson(deny, elems[i]);
      }
    case ObjectShape(o, kids) =>
      var masked, expected := Document(MaskShape(deny, t)).fields, MaskJson(deny, Document(t)).fields;
      forall k | k in kids
        ensures masked[k] == expected[k]
      {
        MaskShapeIsMaskJson(deny, kids[k]);
        MaskedKid(deny, k, kids[k]);
      }
      assert masked == expected;
  }

  ghost function KidNow(deny: Deny, k: string, t: Shape, waiting: bool): (r: Shape)
    ensures Objects(r) <= Objects(t)
  {
    if waiting then t else MaskKid(deny, k, t)
  }

  ghost predicate KidHeld(deny: Deny, t: Shape, k: string, waiting: bool, h: Heap)
    requires t.ObjectShape? && Objects(t) <= h.Keys && k in t.kids && t.kids.Keys == h[t.o].Keys
  {
    var kid := KidNow(deny, k, t.kids[k], waiting);
    h[t.o][k] == ValueOf(kid) && Holds(kid, h)
  }

  /** Midway through an object: the keys in `left` still hold their old values. */
  ghost predicate Midway(deny: Deny, t: Shape, left: set<string>, h: Heap)
    requires t.ObjectShape? && Objects(t) <= h.Keys
  {
    && left <= t.kids.Keys == h[t.o].Keys
    && forall k | k in t.kids :: KidHeld(deny, t, k, k in left, h)
  }

  lemma SiblingKept(deny: Deny, t: Shape, k: string, l: string, waiting: bool, before: Heap, after: Heap)
    requires t.ObjectShape? && IsTree(t) && k in t.kids && l in t.kids && l != k
    requires before.Keys == after.Keys == Objects(t) && before[t.o].Keys == after[t.o].Keys == t.kids.Keys
    requires KidHeld(deny, t, l, waiting, before) && after[t.o][l] == before[t.o][l]
    requires forall x | x in Objects(t) && x != t.o && x !in Objects(t.kids[k]) :: after[x] == before[x]
    ensures KidHeld(deny, t, l, waiting, after)
  {
    assert Objects(t.kids[l]) !! Objects(t.kids[k]);
    HoldsInBoth(KidNow(deny, l, t.kids[l], waiting), before, after);
  }

  lemma KidReplaced(deny: Deny, t: Shape, k: string, before: Heap, after: Heap)
    requires t.ObjectShape? && k in t.kids && before.Keys == after.Keys == Objects(t)
    requires before[t.o].Keys == t.kids.Keys && KidHeld(deny, t, k, true, before)
    requires after[t.o] == if deny(k) then before[t.o][k := Scalar(Str(MASK))] else before[t.o]
    requires Holds(MaskKid(deny, k, t.kids[k]), after)
    ensures after[t.o].Keys == t.kids.Keys && KidHeld(deny, t, k, false, after)
  {
  }

  lemma KidKept(deny: Deny, t: Shape, k: string, l: string, left: set<string>, before: Heap, after: Heap)
    requires t.ObjectShape? && IsTree(t) && k in t.kids && l in t.kids && l != k
    requires before.Keys == after.Keys == Objects(t) && Midway(deny, t, left, before)
    requires after[t.o].Keys == t.kids.Keys && after[t.o][l] == before[t.o][l]
    requires forall x | x in Objects(t) && x != t.o && x !in Objects(t.kids[k]) :: after[x] == before[x]
    ensures KidHeld(deny, t, l, l in left, after)
  {
    assert KidHeld(deny, t, l, l in left, before);
    SiblingKept(deny, t, k, l, l in left, before, after);
  }

  lemma FieldStep(deny: Deny, t: Shape, k: string, left: set<string>, before: Heap, after: Heap)
    requires t.ObjectShape? && IsTree(t) && k in left
    requires before.Keys == after.Keys == Objects(t) && Midway(deny, t, left, before)
    requires forall x | x in Objects(t) && x != t.o && x !in Objects(t.kids[k]) :: after[x] == before[x]
    requires after[t.o] == if deny(k) then before[t.o][k := Scalar(Str(MASK))] else before[t.o]
    requires Holds(MaskKid(deny, k, t.kids[k]), after)
    ensures Midway(deny, t, left - {k}, after)
  {
    assert KidHeld(deny, t, k, true, before);
    KidReplaced(deny, t, k, before, after);
    forall l | l in t.kids
      ensures KidHeld(deny, t, l, l in left - {k}, after)
    {
      if l != k {
        KidKept(deny, t, k, l, left, before, after);
      }
    }
  }

  method ReplaceField(deny: Deny, o: JObject, k: string, ghost t: Shape, ghost left: set<string>)
    requires t.ObjectShape? && IsTree(t) && t.o == o && k in left && deny(k)
    requires Midway(deny, t, left, Fields(Objects(t)))
    modifies o
    ensures Midway(deny, t, left - {k}, Fields(Objects(t)))
  {
    ghost var before := Fields(Objects(t));
    o.fields := o.fields[k := Scalar(Str(MASK))];
    FieldStep(deny, t, k, left, before, Fields(Objects(t)));
  }

  ghost function ElemNow(deny: Deny, t: Shape, k: nat, done: nat): (r: Shape)
    ensures Objects(r) <= Objects(t)
  {
    if k < done then MaskShape(deny, t) else t
  }

  /** Midway through a list: the first `done` elements have been walked. */
  ghost predicate MidList(deny: Deny, t: Shape, done: nat, h: Heap)
    requires t.ListShape? && Objects(t) <= h.Keys
  {
    forall k | 0 <= k < |t.elems| :: Holds(ElemNow(deny, t.elems[k], k, done), h)
  }

  /** Walks the document in place, replacing the value of every denied key at any depth. */
  method MaskJSONValue(deny: Deny, v: JValue, ghost t: Shape)
    requires IsTree(t) && Holds(t, Fields(Objects(t))) && v == ValueOf(t)
    modifies Objects(t)
    ensures Holds(MaskShape(deny, t), Fields(Objects(t))) && v == ValueOf(MaskShape(deny, t))
    ensures Document(MaskShape(deny, t)) == MaskJson(deny, Document(t))
    decreases t, 1
  {
    MaskShapeIsMaskJson(deny, t);
    match v
    case Scalar(_) =>
    case List(items) =>
      for i := 0 to |items|
        invariant MidList(deny, t, i, Fields(Objects(t)))
      {
        MaskItem(deny, items[i], i, t);
      }
    case Object(o) =>
      var left := o.fields.Keys;
      while left != {}
        invariant Midway(deny, t, left, Fields(Objects(t)))
        decreases left
      {
        var k :| k in left;
        if deny(k) {
          ReplaceField(deny, o, k, t, left);
        } else {
          WalkField(deny, o, k, t, left);
        }
        left := left - {k};
      }
  }

  lemma ListStep(deny: Deny, t: Shape, i: nat, before: Heap, after: Heap)
    requires t.ListShape? && IsTree(t) && i < |t.elems|
    requires before.Keys == after.Keys == Objects(t) && MidList(deny, t, i, before)
    requires forall x | x in Objects(t) && x !in Objects(t.elems[i]) :: after[x] == before[x]
    requires Holds(MaskShape(deny, t.elems[i]), after)
    ensures MidList(deny, t, i + 1, after)
  {
    forall k | 0 <= k < |t.elems| && k != i
      ensures Holds(ElemNow(deny, t.elems[k], k, i + 1), after)
    {
      assert Objects(t.elems[k]) !! Objects(t.elems[i]);
      HoldsInBoth(ElemNow(deny, t.elems[k], k, i), before, after);
    }
  }

  method MaskItem(deny: Deny, item: JValue, i: nat, ghost t: Shape)
    requires t.ListShape? && IsTree(t) && i < |t.elems| && item == ValueOf(t.elems[i])
    requires MidList(deny, t, i, Fields(Objects(t)))
    modifies Objects(t)
    ensures MidList(deny, t, i + 1, Fields(Objects(t)))
    decreases t, 0
  {
    ghost var before, elem := Fields(Objects(t)), t.elems[i];
    MaskPart(deny, item, elem, Objects(t));
    ListStep(deny, t, i, before, Fields(Objects(t)));
  }

  /** Walks a part of a document whose objects are `area`. */
  method MaskPart(deny: Deny, v: JValue, ghost t: Shape, ghost area: set<JObject>)
    requires IsTree(t) && Objects(t) <= area && v == ValueOf(t) && Holds(t, Fields(area))
    modifies Objects(t)
    ensures Holds(MaskShape(deny, t), Fields(area))
    decreases t, 2
  {
    HoldsInBoth(t, Fields(area), Fields(Objects(t)));
    MaskJSONValue(deny, v, t);
    HoldsInBoth(MaskShape(deny, t), Fields(Objects(t)), Fields(area));
  }

  method WalkField(deny: Deny, o: JObject, k: string, ghost t: Shape, ghost left: set<string>)
    requires t.ObjectShape? && IsTree(t) && t.o == o && k in left && !deny(k)
    requires Midway(deny, t, left, Fields(Objects(t)))
    modifies Objects(t.kids[k])
    ensures Midway(deny, t, left - {k}, Fields(Objects(t)))
    decreases t, 0
  {
    ghost var before, kid := Fields(Objects(t)), t.kids[k];
    assert KidHeld(deny, t, k, true, before);
    MaskPart(deny, o.fields[k], kid, Objects(t));
    FieldStep(deny, t, k, left, before, Fields(Objects(t)));
  }

  // ---------------------------------------------------------------------------------------
  // Bodies
  // ---------------------------------------------------------------------------------------

  /** Reading and writing JSON text; writing the masked form of a document that was read never fails. */
  datatype Codec = Codec(parse: string -> Option<Json>, write: Json -> string)

  predicate Contains(s: string, t: string) { t <= s || (s != [] && Contains(s[1..], t)) }

  /** Unicode white space. */
  predicate IsSpace(c: char) {
    || '\t' <= c <= '\r' || c == ' ' || c == '\U{85}' || c == '\U{A0}' || c == '\U{1680}'
    || '\U{2000}' <= c <= '\U{200A}' || c == '\U{2028}' || c == '\U{2029}' || c == '\U{202F}'
    || c == '\U{205F}' || c == '\U{3000}'
  }

  function TrimLeft(s: string): string {
    if s != [] && IsSpace(s[0]) then TrimLeft(s[1..]) else s
  }

  predicate IsJSON(lower: Lower, contentType: string, body: string) {
    || Contains(lower(contentType), "json")
    || (var t := TrimLeft(body); t != [] && (t[0] == '{' || t[0] == '['))
  }

  lemma {:induction false} ContainsIff(s: string, t: string)
    ensures Contains(s, t) <==> exists k: nat :: OccursAt(s, t, k)
  {
    if t <= s {
      assert OccursAt(s, t, 0);
    }
    if s != [] {
      ContainsIff(s[1..], t);
      if k: nat :| OccursAt(s[1..], t, k) {
        assert s[1..][k..k + |t|] == s[k + 1..k + 1 + |t|];
        assert OccursAt(s, t, k + 1);
      }
      if k: nat :| OccursAt(s, t, k) {
        if k > 0 {
          assert s[1..][k - 1..k - 1 + |t|] == s[k..k + |t|];
          assert OccursAt(s[1..], t, k - 1);
        }
      }
    }
  }

  /** The first character that is not white space. */
  predicate FirstIs(s: string, k: nat) { k < |s| && !IsSpace(s[k]) && forall i | 0 <= i < k :: IsSpace(s[i]) }

  lemma {:induction false} TrimLeftIff(s: string, c: char)
    ensures (TrimLeft(s) != [] && TrimLeft(s)[0] == c) <==> exists k: nat :: FirstIs(s, k) && s[k] == c
  {
    if s != [] && IsSpace(s[0]) {
      TrimLeftIff(s[1..], c);
      if k: nat :| FirstIs(s[1..], k) && s[1..][k] == c {
        assert forall i | 0 < i < |s| :: s[i] == s[1..][i - 1];
        assert FirstIs(s, k + 1) && s[k + 1] == c;
      }
      if k: nat :| FirstIs(s, k) && s[k] == c {
        assert FirstIs(s[1..], k - 1) && s[1..][k - 1] == c;
      }
    } else if s != [] {
      assert FirstIs(s, 0);
    }
  }

  /** A body is taken for JSON by its content type, in any case, or by its first character that is not white space. */
  lemma IsJSONIff(lower: Lower, contentType: string, body: string)
    ensures IsJSON(lower, contentType, body) <==>
              || (exists k: nat :: OccursAt(lower(contentType), "json", k))
              || (exists k: nat :: FirstIs(body, k) && body[k] == '{')
              || (exists k: nat :: FirstIs(body, k) && body[k] == '[')
  {
    ContainsIff(lower(contentType), "json");
    TrimLeftIff(body, '{');
    TrimLeftIff(body, '[');
  }

  function MaskJSON(r: Redactor, codec: Codec, body: string): Option<string> {
    match codec.parse(body)
    case None => None
    case Some(doc) => Some(codec.write(MaskJson(r.fields.Hits(), doc)))
  }

  function Body(r: Redactor, codec: Codec, body: string, contentType: string): string {
    if body == "" then body
    else
      var masked := if IsJSON(r.lower, contentType, body) then MaskJSON(r, codec, body) else None;
      ScrubBody(r.patterns, if masked.Some? then masked.value else body)
  }

  /** Whichever branch a body takes, JSON or not, no token of a token pattern is left in the result. */
  lemma BodyLeavesNoToken(r: Redactor, codec: Codec, body: string, contentType: string)
    ensures forall i | 0 <= i < |r.patterns| && IsTokenPattern(r.patterns[i]) ::
              Free(r.patterns[i].re.pieces, Body(r, codec, body, contentType))
  {
    var masked := if IsJSON(r.lower, contentType, body) then MaskJSON(r, codec, body) else None;
    NoTokenSurvives(r.patterns, if masked.Some? then masked.value else body);
    NoTokenSurvives(r.patterns, "");
  }

  /** Two JSON bodies that differ only under denied keys come out as the same bytes. */
  lemma BodyHidesDeniedFields(r: Redactor, codec: Codec, a: string, b: string, ctA: string, ctB: string)
    requires a != "" && b != ""
    requires IsJSON(r.lower, ctA, a) && IsJSON(r.lower, ctB, b)
    requires codec.parse(a).Some? && codec.parse(b).Some?
    requires SameOutside(r.fields.Hits(), codec.parse(a).value, codec.parse(b).value)
    ensures Body(r, codec, a, ctA) == Body(r, codec, b, ctB)
  {
    MaskHidesExactlyDeniedValues(r.fields.Hits(), codec.parse(a).value, codec.parse(b).value);
  }

  /** The patterns come last: they are applied to what masking the fields left. */
  lemma PatternsComeLast(r: Redactor, codec: Codec, body: string, contentType: string)
    ensures var masked := Body(r.(patterns := []), codec, body, contentType);
            Body(r, codec, body, contentType) == ScrubBody(r.patterns, masked)
  {
  }

  /** A body that is JSON, and parses, reads back as the masked document, when there are no patterns. */
  lemma JsonBodyReadsBack(r: Redactor, codec: Codec, body: string, contentType: string)
    requires body != "" && r.patterns == [] && IsJSON(r.lower, contentType, body) && codec.parse(body).Some?
    requires forall j :: codec.parse(codec.write(j)) == Some(j)
    ensures codec.parse(Body(r, codec, body, contentType)) == Some(MaskJson(r.fields.Hits(), codec.parse(body).value))
  {
    var doc := MaskJson(r.fields.Hits(), codec.parse(body).value);
    assert codec.parse(codec.write(doc)) == Some(doc);
  }

  /** Any other body is left to the patterns. */
  lemma OtherBodyIsOnlyScrubbed(r: Redactor, codec: Codec, body: string, contentType: string)
    requires !IsJSON(r.lower, contentType, body) || codec.parse(body).None?
    ensures Body(r, codec, body, contentType) == ScrubBody(r.patterns, body)
  {
  }
}
