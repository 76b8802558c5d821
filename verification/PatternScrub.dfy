/**
 The pattern pass of pkg/redact/redact.go: every pattern in turn replaces its matches with
 the mask.

 The eight token patterns are sequences of character classes with repetition counts, so they
 are modelled exactly, with the greedy backtracking search that picks their matches. The
 credit-card pattern and the patterns a caller adds are arbitrary: each is a function from a
 text to the ordered, disjoint spans its search finds there.
 */
module PatternScrub {
  import opened Common
  import Luhn

  const MASK := "[REDACTED]"

  // ---------------------------------------------------------------------------------------
  // Token patterns
  // ---------------------------------------------------------------------------------------

  /** A character class: the union of inclusive ranges. */
  type CharClass = seq<(char, char)>

  predicate InClass(c: char, cls: CharClass) {
    exists i | 0 <= i < |cls| :: cls[i].0 <= c <= cls[i].1
  }

  /** `cls{min}`, or `cls{min,}` when `open`. */
  datatype Piece = Piece(cls: CharClass, min: nat, open: bool)

  const UPPER: CharClass := [('A', 'Z')]
  const LOWER: CharClass := [('a', 'z')]
  const DIGIT: CharClass := [('0', '9')]
  const ALNUM: CharClass := UPPER + LOWER + DIGIT
  const WORD_DASH: CharClass := ALNUM + [('_', '_'), ('-', '-')]
  // Case folding adds U+017F (folds to s) and U+212A (folds to k) to a folded letter range.
  const BEARER_CHARS: CharClass :=
    ALNUM + [('.', '.'), ('_', '_'), ('-', '-'), ('\U{17F}', '\U{17F}'), ('\U{212A}', '\U{212A}')]
  const SPACE: CharClass := [('\t', '\n'), ('\U{C}', '\r'), (' ', ' ')]

  function Only(c: char): Piece { Piece([(c, c)], 1, false) }

  function Exactly(cls: CharClass, n: nat): Piece { Piece(cls, n, false) }

  function AtLeast(cls: CharClass, n: nat): Piece { Piece(cls, n, true) }

  function Literal(s: string): seq<Piece> { seq(|s|, i requires 0 <= i < |s| => Only(s[i])) }

  function OneOf(chars: string): CharClass { seq(|chars|, i requires 0 <= i < |chars| => (chars[i], chars[i])) }

  /** A literal that matches in either case, letter by letter. */
  function Folded(upper: string, lower: string): seq<Piece>
    requires |upper| == |lower|
  {
    seq(|upper|, i requires 0 <= i < |upper| => Piece([(upper[i], upper[i]), (lower[i], lower[i])], 1, false))
  }

  const JWT :=
    Literal("eyJ") + [AtLeast(WORD_DASH, 10), Only('.'), AtLeast(WORD_DASH, 10), Only('.'), AtLeast(WORD_DASH, 10)]
  const BEARER := Folded("BEARER", "bearer") + [AtLeast(SPACE, 1), AtLeast(BEARER_CHARS, 20)]
  const AWS_ACCESS_KEY := Literal("AKIA") + [Exactly(DIGIT + UPPER, 16)]
  const GITHUB_TOKEN := Literal("gh") + [Exactly(OneOf("pousr"), 1), Only('_'), AtLeast(ALNUM, 36)]
  const STRIPE_LIVE := Literal("sk_live_") + [AtLeast(ALNUM, 20)]
  const STRIPE_TEST := Literal("sk_test_") + [AtLeast(ALNUM, 20)]
  const GOOGLE_API := Literal("AIza") + [Exactly(WORD_DASH, 35)]
  const SLACK_TOKEN := Literal("xox") + [Exactly(OneOf("baprs"), 1), Only('-'),
                                         AtLeast(ALNUM + [('-', '-')], 10)]

  predicate Fits(p: Piece, s: string) {
    && p.min <= |s|
    && (!p.open ==> |s| == p.min)
    && forall i | 0 <= i < |s| :: InClass(s[i], p.cls)
  }

  /** The language of a token pattern: `s` splits into one stretch per piece. */
  ghost predicate Matches(pieces: seq<Piece>, s: string) {
    if pieces == [] then s == []
    else exists k: nat | k <= |s| :: Fits(pieces[0], s[..k]) && Matches(pieces[1..], s[k..])
  }

  function MinLength(pieces: seq<Piece>): nat {
    if pieces == [] then 0 else pieces[0].min + MinLength(pieces[1..])
  }

  predicate Bracketless(pieces: seq<Piece>) {
    forall i | 0 <= i < |pieces| :: !InClass('[', pieces[i].cls) && !InClass(']', pieces[i].cls)
  }

  /** The two facts about a token pattern that the pass rests on. */
  predicate IsTokenShape(pieces: seq<Piece>) {
    MinLength(pieces) > 8 && Bracketless(pieces)
  }

  // ---------------------------------------------------------------------------------------
  // The search
  // ---------------------------------------------------------------------------------------

  /** How many characters from `i` on are in the class. */
  function RunLength(cls: CharClass, s: string, i: nat): (n: nat)
    requires i <= |s|
    ensures i + n <= |s|
    ensures forall k | i <= k < i + n :: InClass(s[k], cls)
    ensures i + n < |s| ==> !InClass(s[i + n], cls)
    decreases |s| - i
  {
    if i < |s| && InClass(s[i], cls) then 1 + RunLength(cls, s, i + 1) else 0
  }

  /** The end of the match that starts at `i`: each piece takes as much as it can and gives back. */
  function MatchEnd(pieces: seq<Piece>, s: string, i: nat): (end: Option<nat>)
    requires i <= |s|
    ensures end.Some? ==> i <= end.value <= |s|
    decreases |pieces|, 1, 0
  {
    if pieces == [] then Some(i)
    else
      var run := RunLength(pieces[0].cls, s, i);
      if run < pieces[0].min then None
      else Backtrack(pieces, s, i, if pieces[0].open then run else pieces[0].min)
  }

  function Backtrack(pieces: seq<Piece>, s: string, i: nat, taken: nat): (end: Option<nat>)
    requires pieces != [] && i + taken <= |s| && taken >= pieces[0].min
    ensures end.Some? ==> i <= end.value <= |s|
    decreases |pieces|, 0, taken
  {
    var end := MatchEnd(pieces[1..], s, i + taken);
    if end.Some? then end
    else if taken == pieces[0].min then None
    else Backtrack(pieces, s, i, taken - 1)
  }

  lemma {:induction false} MatchEndIsSound(pieces: seq<Piece>, s: string, i: nat)
    requires i <= |s| && MatchEnd(pieces, s, i).Some?
    ensures Matches(pieces, s[i..MatchEnd(pieces, s, i).value])
    decreases |pieces|, 1, 0
  {
    if pieces != [] {
      var run := RunLength(pieces[0].cls, s, i);
      BacktrackIsSound(pieces, s, i, if pieces[0].open then run else pieces[0].min);
    }
  }

  lemma PieceFirst(pieces: seq<Piece>, s: string, i: nat, k: nat, j: nat)
    requires pieces != [] && i <= k <= j <= |s|
    requires Fits(pieces[0], s[i..k]) && Matches(pieces[1..], s[k..j])
    ensures Matches(pieces, s[i..j])
  {
    var t := s[i..j];
    assert t[..k - i] == s[i..k] && t[k - i..] == s[k..j];
  }

  lemma {:induction false} BacktrackIsSound(pieces: seq<Piece>, s: string, i: nat, taken: nat)
    requires pieces != [] && i <= |s| && pieces[0].min <= taken <= RunLength(pieces[0].cls, s, i)
    requires (!pieces[0].open ==> taken == pieces[0].min)
    requires Backtrack(pieces, s, i, taken).Some?
    ensures Matches(pieces, s[i..Backtrack(pieces, s, i, taken).value])
    decreases |pieces|, 0, taken
  {
    var end := MatchEnd(pieces[1..], s, i + taken);
    if end.Some? {
      MatchEndIsSound(pieces[1..], s, i + taken);
      PieceFirst(pieces, s, i, i + taken, end.value);
    } else {
      BacktrackIsSound(pieces, s, i, taken - 1);
    }
  }

  lemma RunCovers(cls: CharClass, s: string, i: nat, t: string)
    requires i + |t| <= |s| && s[i..i + |t|] == t
    requires forall k | 0 <= k < |t| :: InClass(t[k], cls)
    ensures |t| <= RunLength(cls, s, i)
  {
    assert forall k | 0 <= k < |t| :: s[i + k] == t[k];
  }

  /** A match splits into what its first piece covers and a match of the others. */
  lemma FirstStretch(pieces: seq<Piece>, s: string, i: nat, j: nat) returns (k: nat)
    requires pieces != [] && i <= j <= |s| && Matches(pieces, s[i..j])
    ensures i + k <= j && pieces[0].min <= k <= RunLength(pieces[0].cls, s, i)
    ensures !pieces[0].open ==> k == pieces[0].min
    ensures Matches(pieces[1..], s[i + k..j])
  {
    var t := s[i..j];
    k :| k <= |t| && Fits(pieces[0], t[..k]) && Matches(pieces[1..], t[k..]);
    SliceOfSlice(s, i, j, k);
    RunCovers(pieces[0].cls, s, i, t[..k]);
  }

  /** If anything that starts at `i` is in the language, the search finds a match at `i`. */
  lemma {:induction false} MatchEndIsComplete(pieces: seq<Piece>, s: string, i: nat, j: nat)
    requires i <= j <= |s| && Matches(pieces, s[i..j])
    ensures MatchEnd(pieces, s, i).Some?
    decreases |pieces|, 1, 0
  {
    if pieces != [] {
      var k := FirstStretch(pieces, s, i, j);
      BacktrackIsComplete(pieces, s, i, if pieces[0].open then RunLength(pieces[0].cls, s, i) else pieces[0].min, k, j);
    }
  }

  lemma {:induction false} BacktrackIsComplete(pieces: seq<Piece>, s: string, i: nat, taken: nat, k: nat, j: nat)
    requires pieces != [] && pieces[0].min <= k <= taken && i + taken <= |s|
    requires i + k <= j <= |s| && Matches(pieces[1..], s[i + k..j])
    ensures Backtrack(pieces, s, i, taken).Some?
    decreases |pieces|, 0, taken
  {
    if k == taken {
      MatchEndIsComplete(pieces[1..], s, i + taken, j);
    } else {
      BacktrackIsComplete(pieces, s, i, taken - 1, k, j);
    }
  }

  /** A stretch of a text, `[lo, hi)`. */
  datatype Span = Span(lo: nat, hi: nat)

  /** Spans from left to right, disjoint, inside `[from, to)`. */
  predicate Ordered(spans: seq<Span>, from: nat, to: nat) {
    if spans == [] then from <= to
    else from <= spans[0].lo <= spans[0].hi <= to && Ordered(spans[1..], spans[0].hi, to)
  }

  lemma OrderedFrom(spans: seq<Span>, from: nat, i: nat, n: nat)
    requires from <= i && Ordered(spans, i, n)
    ensures Ordered(spans, from, n)
  {
  }

  /** Leftmost, non-overlapping matches of a token pattern from position `i` on. */
  function TokenSpans(pieces: seq<Piece>, s: string, i: nat): (spans: seq<Span>)
    requires i <= |s|
    ensures Ordered(spans, i, |s|)
    decreases |s| - i
  {
    if i == |s| then []
    else
      var end := MatchEnd(pieces, s, i);
      if end.Some? && end.value > i then [Span(i, end.value)] + TokenSpans(pieces, s, end.value)
      else
        var spans := TokenSpans(pieces, s, i + 1);
        OrderedFrom(spans, i, i + 1, |s|);
        spans
  }

  // ---------------------------------------------------------------------------------------
  // Replacing
  // ---------------------------------------------------------------------------------------

  /** The text from `i` on, with every span replaced by the mask. */
  function Splice(s: string, spans: seq<Span>, i: nat): string
    requires i <= |s| && Ordered(spans, i, |s|)
  {
    if spans == [] then s[i..]
    else s[i..spans[0].lo] + MASK + Splice(s, spans[1..], spans[0].hi)
  }

  ghost predicate OccursAt(s: string, t: string, p: nat) {
    p + |t| <= |s| && s[p..p + |t|] == t
  }

  ghost predicate Occurs(s: string, t: string) { exists p: nat :: OccursAt(s, t, p) }

  /** No substring of `s` is in the language. */
  ghost predicate Free(pieces: seq<Piece>, s: string) {
    forall t | Occurs(s, t) :: !Matches(pieces, t)
  }

  predicate NoBrackets(t: string) { forall i | 0 <= i < |t| :: t[i] != '[' && t[i] != ']' }

  /** Longer than what stands between the mask's brackets, and without brackets. */
  predicate AvoidsMask(t: string) { |t| > 8 && NoBrackets(t) }

  lemma {:induction false} TokensAvoidMask(pieces: seq<Piece>, t: string)
    requires Bracketless(pieces)
    requires Matches(pieces, t)
    ensures |t| >= MinLength(pieces) && NoBrackets(t)
  {
    if pieces != [] {
      var k: nat :| k <= |t| && Fits(pieces[0], t[..k]) && Matches(pieces[1..], t[k..]);
      TokensAvoidMask(pieces[1..], t[k..]);
      forall i | 0 <= i < |t|
        ensures t[i] != '[' && t[i] != ']'
      {
        assert t[i] == if i < k then t[..k][i] else t[k..][i - k];
      }
    }
  }

  /** What avoids the mask and occurs around it occurs entirely before it or entirely after it. */
  lemma OccursBesideMask(a: string, b: string, t: string)
    requires AvoidsMask(t) && Occurs(a + MASK + b, t)
    ensures Occurs(a, t) || Occurs(b, t)
  {
    var s := a + MASK + b;
    var p: nat :| OccursAt(s, t, p);
    var q := p + |t|;
    assert forall k | p <= k < q :: s[k] == t[k - p];
    assert s[|a|] == '[' && s[|a| + 9] == ']';
    if q <= |a| {
      assert s[p..q] == a[p..q];
      assert OccursAt(a, t, p);
    } else {
      assert s[p..q] == b[p - |a| - 10..q - |a| - 10];
      assert OccursAt(b, t, p - |a| - 10);
    }
  }

  lemma OccursInSlice(s: string, lo: nat, hi: nat, t: string) returns (p: nat)
    requires lo <= hi <= |s| && Occurs(s[lo..hi], t)
    ensures lo <= p && p + |t| <= hi && s[p..p + |t|] == t && OccursAt(s, t, p)
  {
    var q: nat :| OccursAt(s[lo..hi], t, q);
    p := lo + q;
    assert forall k | 0 <= k < |t| :: t[k] == s[lo..hi][q..q + |t|][k] == s[lo..hi][q + k] == s[p + k];
    assert s[p..p + |t|] == t;
  }

  /** Masking never creates a token: what avoids the mask in the output was in the input. */
  lemma {:induction false} SpliceCreatesNothing(s: string, spans: seq<Span>, i: nat, t: string)
    requires i <= |s| && Ordered(spans, i, |s|) && AvoidsMask(t)
    requires Occurs(Splice(s, spans, i), t)
    ensures Occurs(s, t)
  {
    if spans == [] {
      assert s[i..|s|] == s[i..];
      var _ := OccursInSlice(s, i, |s|, t);
    } else {
      var a, b := s[i..spans[0].lo], Splice(s, spans[1..], spans[0].hi);
      OccursBesideMask(a, b, t);
      if Occurs(a, t) {
        var _ := OccursInSlice(s, i, spans[0].lo, t);
      } else {
        SpliceCreatesNothing(s, spans[1..], spans[0].hi, t);
      }
    }
  }

  lemma {:induction false} MatchesAtLeast(pieces: seq<Piece>, t: string)
    requires Matches(pieces, t)
    ensures |t| >= MinLength(pieces)
  {
    if pieces != [] {
      var k: nat :| k <= |t| && Fits(pieces[0], t[..k]) && Matches(pieces[1..], t[k..]);
      MatchesAtLeast(pieces[1..], t[k..]);
    }
  }

  /** No token starts at `k`. */
  ghost predicate NoneAt(pieces: seq<Piece>, s: string, k: nat)
    requires k <= |s|
  {
    forall j | k <= j <= |s| :: !Matches(pieces, s[k..j])
  }

  lemma FreeStretch(pieces: seq<Piece>, s: string, gap: nat, i: nat)
    requires gap <= i <= |s| && MinLength(pieces) > 0
    requires forall k | gap <= k < i :: NoneAt(pieces, s, k)
    ensures Free(pieces, s[gap..i])
  {
    forall t | Occurs(s[gap..i], t)
      ensures !Matches(pieces, t)
    {
      var p := OccursInSlice(s, gap, i, t);
      if t != [] {
        assert NoneAt(pieces, s, p);
      } else if Matches(pieces, t) {
        MatchesAtLeast(pieces, t);
      }
    }
  }

  lemma FreeAroundMask(pieces: seq<Piece>, a: string, b: string)
    requires IsTokenShape(pieces) && Free(pieces, a) && Free(pieces, b)
    ensures Free(pieces, a + MASK + b)
  {
    forall t | Occurs(a + MASK + b, t)
      ensures !Matches(pieces, t)
    {
      if Matches(pieces, t) {
        TokensAvoidMask(pieces, t);
        OccursBesideMask(a, b, t);
      }
    }
  }

  lemma NothingMatchesAt(pieces: seq<Piece>, s: string, i: nat)
    requires i <= |s| && MatchEnd(pieces, s, i).None?
    ensures NoneAt(pieces, s, i)
  {
    forall j | i <= j <= |s|
      ensures !Matches(pieces, s[i..j])
    {
      if Matches(pieces, s[i..j]) {
        MatchEndIsComplete(pieces, s, i, j);
      }
    }
  }

  /** Text in which nothing matches, then a masked match, then spliced text that is free. */
  lemma FreeUpToMatch(pieces: seq<Piece>, s: string, gap: nat, i: nat, end: nat, rest: seq<Span>)
    requires IsTokenShape(pieces) && gap <= i < end <= |s| && Ordered(rest, end, |s|)
    requires forall k | gap <= k < i :: NoneAt(pieces, s, k)
    requires Free(pieces, Splice(s, rest, end))
    ensures Free(pieces, Splice(s, [Span(i, end)] + rest, gap))
  {
    FreeStretch(pieces, s, gap, i);
    FreeAroundMask(pieces, s[gap..i], Splice(s, rest, end));
    assert ([Span(i, end)] + rest)[1..] == rest;
  }

  /** A pattern's own search leaves none of its tokens behind. */
  lemma {:induction false} SpliceRemovesOwnTokens(pieces: seq<Piece>, s: string, i: nat, gap: nat)
    requires IsTokenShape(pieces) && gap <= i <= |s|
    requires forall k | gap <= k < i :: NoneAt(pieces, s, k)
    ensures Ordered(TokenSpans(pieces, s, i), gap, |s|)
    ensures Free(pieces, Splice(s, TokenSpans(pieces, s, i), gap))
    decreases |s| - i
  {
    OrderedFrom(TokenSpans(pieces, s, i), gap, i, |s|);
    if i == |s| {
      FreeStretch(pieces, s, gap, |s|);
      assert s[gap..|s|] == s[gap..];
    } else {
      var end := MatchEnd(pieces, s, i);
      if end.Some? {
        MatchEndIsSound(pieces, s, i);
        TokensAvoidMask(pieces, s[i..end.value]);
        SpliceRemovesOwnTokens(pieces, s, end.value, end.value);
        FreeUpToMatch(pieces, s, gap, i, end.value, TokenSpans(pieces, s, end.value));
      } else {
        NothingMatchesAt(pieces, s, i);
        SpliceRemovesOwnTokens(pieces, s, i + 1, gap);
      }
    }
  }

  // ---------------------------------------------------------------------------------------
  // The whole pass
  // ---------------------------------------------------------------------------------------

  /** A search the model does not look into: it reports ordered, disjoint spans. */
  type Finder = f: string -> seq<Span> | (forall s: string :: Ordered(f(s), 0, |s|))
    witness (s: string) => []

  datatype Regex = Tokens(pieces: seq<Piece>) | Engine(search: Finder) {
    function Find(s: string): (spans: seq<Span>)
      ensures Ordered(spans, 0, |s|)
      ensures Engine? ==> spans == search(s)
    {
      match this
      case Tokens(pieces) => TokenSpans(pieces, s, 0)
      case Engine(search) => search(s)
    }
  }

  datatype Pattern = Pattern(name: string, re: Regex)

  const CREDIT_CARD := "credit_card"

  function DefaultToken(i: nat): Pattern
    requires i < 8
  {
    match i
    case 0 => Pattern("jwt", Tokens(JWT))
    case 1 => Pattern("bearer", Tokens(BEARER))
    case 2 => Pattern("aws_access_key", Tokens(AWS_ACCESS_KEY))
    case 3 => Pattern("github_token", Tokens(GITHUB_TOKEN))
    case 4 => Pattern("stripe_live", Tokens(STRIPE_LIVE))
    case 5 => Pattern("stripe_test", Tokens(STRIPE_TEST))
    case 6 => Pattern("google_api", Tokens(GOOGLE_API))
    case 7 => Pattern("slack_token", Tokens(SLACK_TOKEN))
  }

  function DefaultTokens(from: nat): (r: seq<Pattern>)
    requires from <= 8
    ensures |r| == 8 - from && forall k | 0 <= k < 8 - from :: r[k] == DefaultToken(from + k)
    decreases 8 - from
  {
    if from == 8 then [] else [DefaultToken(from)] + DefaultTokens(from + 1)
  }

  /** The package defaults, in their order; `card` stands for the credit-card expression. */
  function DefaultPatterns(card: Finder): seq<Pattern> {
    DefaultTokens(0) + [Pattern(CREDIT_CARD, Engine(card))]
  }

  /** The matches whose text passes the Luhn check; the others are put back as they were. */
  function LuhnOnly(s: string, spans: seq<Span>, from: nat): (r: seq<Span>)
    requires Ordered(spans, from, |s|)
    ensures Ordered(r, from, |s|)
    ensures forall m | m in spans :: m.lo <= m.hi <= |s| && (m in r <==> Luhn.Valid(s[m.lo..m.hi]))
    ensures forall m | m in r :: m in spans
  {
    if spans == [] then []
    else
      var rest := LuhnOnly(s, spans[1..], spans[0].hi);
      if Luhn.Valid(s[spans[0].lo..spans[0].hi]) then [spans[0]] + rest
      else
        OrderedFrom(rest, from, spans[0].hi, |s|);
        rest
  }

  /** What is replaced: of the matches of the card pattern those that pass the Luhn check, of any other pattern all. */
  function Masked(p: Pattern, s: string): (spans: seq<Span>)
    ensures Ordered(spans, 0, |s|)
  {
    if p.name == CREDIT_CARD then LuhnOnly(s, p.re.Find(s), 0) else p.re.Find(s)
  }

  /** All the patterns, the last one applied last. */
  function Scrub(patterns: seq<Pattern>, s: string): string {
    if patterns == [] then s
    else
      var before := Scrub(patterns[..|patterns| - 1], s);
      Splice(before, Masked(patterns[|patterns| - 1], before), 0)
  }

  /** An empty body is left alone, whatever the patterns. */
  function ScrubBody(patterns: seq<Pattern>, body: string): string {
    if body == "" then "" else Scrub(patterns, body)
  }

  /** Pattern `i` is one whose tokens the pass promises to remove. */
  predicate IsTokenPattern(p: Pattern) {
    p.name != CREDIT_CARD && p.re.Tokens? && IsTokenShape(p.re.pieces)
  }

  predicate AllTokens(patterns: seq<Pattern>) { forall i | 0 <= i < |patterns| :: IsTokenPattern(patterns[i]) }

  ghost predicate AllFree(patterns: seq<Pattern>, s: string)
    requires AllTokens(patterns)
  {
    forall i | 0 <= i < |patterns| :: Free(patterns[i].re.pieces, s)
  }

  lemma SpliceNext(out: string, s: string, spans: seq<Span>, i: nat, done: nat)
    requires i < |spans| && done <= |s| && Ordered(spans[i..], done, |s|)
    ensures done <= spans[i].lo <= spans[i].hi <= |s| && Ordered(spans[i + 1..], spans[i].hi, |s|)
    ensures out + Splice(s, spans[i..], done)
         == out + s[done..spans[i].lo] + MASK + Splice(s, spans[i + 1..], spans[i].hi)
  {
    assert spans[i..][1..] == spans[i + 1..];
    var gap, rest := s[done..spans[i].lo], Splice(s, spans[i + 1..], spans[i].hi);
    Reassociate(out, gap + MASK, rest);
    Reassociate(out, gap, MASK);
  }

  /** Replaces the matches of one pattern, left to right. */
  method ReplaceAll(p: Pattern, s: string) returns (out: string)
    ensures out == Splice(s, Masked(p, s), 0)
  {
    var spans := Masked(p, s);
    out := "";
    var i, done: nat := 0, 0;
    while i < |spans|
      invariant i <= |spans| && done <= |s| && Ordered(spans[i..], done, |s|)
      invariant out + Splice(s, spans[i..], done) == Splice(s, spans, 0)
    {
      SpliceNext(out, s, spans, i, done);
      out := out + s[done..spans[i].lo] + MASK;
      done := spans[i].hi;
      i := i + 1;
    }
    assert spans[i..] == [];
    out := out + s[done..];
  }

  lemma FreeAfterSplice(pieces: seq<Piece>, s: string, spans: seq<Span>)
    requires IsTokenShape(pieces) && Free(pieces, s) && Ordered(spans, 0, |s|)
    ensures Free(pieces, Splice(s, spans, 0))
  {
    forall t | Occurs(Splice(s, spans, 0), t)
      ensures !Matches(pieces, t)
    {
      if Matches(pieces, t) {
        TokensAvoidMask(pieces, t);
        SpliceCreatesNothing(s, spans, 0, t);
      }
    }
  }

  lemma {:induction false} TokenGoneAfterScrub(patterns: seq<Pattern>, i: nat, s: string)
    requires i < |patterns| && IsTokenPattern(patterns[i])
    ensures Free(patterns[i].re.pieces, Scrub(patterns, s))
    decreases |patterns|
  {
    var n := |patterns| - 1;
    var before := Scrub(patterns[..n], s);
    var pieces := patterns[i].re.pieces;
    if i == n {
      SpliceRemovesOwnTokens(pieces, before, 0, 0);
    } else {
      assert patterns[..n][i] == patterns[i];
      TokenGoneAfterScrub(patterns[..n], i, s);
      FreeAfterSplice(pieces, before, Masked(patterns[n], before));
    }
  }

  /**
   After the pass no substring of the output is a token of any of the token patterns, whatever
   the credit-card search and the caller's own patterns did before, in between or afterwards.
   */
  lemma NoTokenSurvives(patterns: seq<Pattern>, body: string)
    ensures forall i | 0 <= i < |patterns| && IsTokenPattern(patterns[i]) ::
              Free(patterns[i].re.pieces, ScrubBody(patterns, body))
  {
    forall i | 0 <= i < |patterns| && IsTokenPattern(patterns[i])
      ensures Free(patterns[i].re.pieces, ScrubBody(patterns, body))
    {
      if body == "" {
        FreeStretch(patterns[i].re.pieces, "", 0, 0);
      } else {
        TokenGoneAfterScrub(patterns, i, body);
      }
    }
  }

  method MaskPatterns(patterns: seq<Pattern>, body: string) returns (out: string)
    ensures out == ScrubBody(patterns, body)
    ensures forall i | 0 <= i < |patterns| && IsTokenPattern(patterns[i]) :: Free(patterns[i].re.pieces, out)
  {
    if |patterns| == 0 || body == "" {
      NoTokenSurvives(patterns, body);
      return body;
    }
    out := body;
    for n := 0 to |patterns|
      invariant out == Scrub(patterns[..n], body)
    {
      assert patterns[..n + 1][..n] == patterns[..n];
      out := ReplaceAll(patterns[n], out);
    }
    assert patterns[..|patterns|] == patterns;
    NoTokenSurvives(patterns, body);
  }

  /** One piece that repeats often enough makes every match long. */
  lemma {:induction false} LongPiece(pieces: seq<Piece>, k: nat)
    requires k < |pieces| && pieces[k].min > 8
    ensures MinLength(pieces) > 8
  {
    if k > 0 {
      LongPiece(pieces[1..], k - 1);
    }
  }

  lemma AfterLiteral(s: string, rest: seq<Piece>, k: nat)
    requires NoBrackets(s) && Bracketless(rest) && k < |rest| && rest[k].min > 8
    ensures IsTokenShape(Literal(s) + rest)
  {
    LongPiece(Literal(s) + rest, |s| + k);
  }

  lemma AfterFolded(upper: string, lower: string, rest: seq<Piece>, k: nat)
    requires |upper| == |lower| && NoBrackets(upper) && NoBrackets(lower)
    requires Bracketless(rest) && k < |rest| && rest[k].min > 8
    ensures IsTokenShape(Folded(upper, lower) + rest)
  {
    LongPiece(Folded(upper, lower) + rest, |upper| + k);
  }

  lemma JwtShape() ensures IsTokenShape(JWT) {
    var part, dot := AtLeast(WORD_DASH, 10), Only('.');
    AfterLiteral("eyJ", [part, dot, part, dot, part], 0);
  }

  lemma BearerShape() ensures IsTokenShape(BEARER) {
    AfterFolded("BEARER", "bearer", [AtLeast(SPACE, 1), AtLeast(BEARER_CHARS, 20)], 1);
  }

  lemma AwsShape() ensures IsTokenShape(AWS_ACCESS_KEY) {
    AfterLiteral("AKIA", [Exactly(DIGIT + UPPER, 16)], 0);
  }

  lemma GithubShape() ensures IsTokenShape(GITHUB_TOKEN) {
    AfterLiteral("gh", [Exactly(OneOf("pousr"), 1), Only('_'), AtLeast(ALNUM, 36)], 2);
  }

  lemma StripeShape() ensures IsTokenShape(STRIPE_LIVE) && IsTokenShape(STRIPE_TEST) {
    AfterLiteral("sk_live_", [AtLeast(ALNUM, 20)], 0);
    AfterLiteral("sk_test_", [AtLeast(ALNUM, 20)], 0);
  }

  lemma GoogleShape() ensures IsTokenShape(GOOGLE_API) {
    AfterLiteral("AIza", [Exactly(WORD_DASH, 35)], 0);
  }

  lemma SlackShape() ensures IsTokenShape(SLACK_TOKEN) {
    AfterLiteral("xox", [Exactly(OneOf("baprs"), 1), Only('-'), AtLeast(ALNUM + [('-', '-')], 10)], 2);
  }

  /** The eight default token patterns have the shape the pass relies on. */
  lemma DefaultsAreTokenPatterns(i: nat)
    requires i < 8
    ensures IsTokenPattern(DefaultToken(i))
  {
    match i
    case 0 => JwtShape();
    case 1 => BearerShape();
    case 2 => AwsShape();
    case 3 => GithubShape();
    case 4 => StripeShape();
    case 5 => StripeShape();
    case 6 => GoogleShape();
    case 7 => SlackShape();
  }

  lemma PatternGone(a: seq<Pattern>, b: seq<Pattern>, c: seq<Pattern>, body: string, i: nat, p: Pattern)
    requires i < |a| && a[i] == p && IsTokenPattern(p)
    ensures Free(p.re.pieces, ScrubBody(a + b + c, body))
  {
    NoTokenSurvives(a + b + c, body);
    assert (a + b + c)[i] == p;
  }

  /** With the package defaults, and any patterns of the caller's after them. */
  lemma NoDefaultTokenSurvives(card: Finder, extra: seq<Pattern>, body: string, i: nat)
    requires i < 8
    ensures var p := DefaultTokens(0)[i];
            IsTokenPattern(p) && Free(p.re.pieces, ScrubBody(DefaultPatterns(card) + extra, body))
  {
    var p := DefaultTokens(0)[i];
    DefaultsAreTokenPatterns(i);
    PatternGone(DefaultTokens(0), [Pattern(CREDIT_CARD, Engine(card))], extra, body, i, p);
  }

  lemma {:induction false} FreeFindsNothing(pieces: seq<Piece>, s: string, i: nat)
    requires i <= |s| && Free(pieces, s)
    ensures TokenSpans(pieces, s, i) == []
    decreases |s| - i
  {
    if i < |s| {
      if MatchEnd(pieces, s, i).Some? {
        MatchEndIsSound(pieces, s, i);
        var t := s[i..MatchEnd(pieces, s, i).value];
        assert OccursAt(s, t, i);
        assert false;
      }
      FreeFindsNothing(pieces, s, i + 1);
    }
  }

  lemma {:induction false} FreeIsUnchanged(patterns: seq<Pattern>, s: string)
    requires AllTokens(patterns) && AllFree(patterns, s)
    ensures Scrub(patterns, s) == s
  {
    if patterns != [] {
      FreeIsUnchanged(patterns[..|patterns| - 1], s);
      FreeFindsNothing(patterns[|patterns| - 1].re.pieces, s, 0);
    }
  }

  /** Token patterns change a text exactly when it holds a token. */
  lemma ChangedIffTokenPresent(patterns: seq<Pattern>, s: string)
    requires AllTokens(patterns)
    ensures ScrubBody(patterns, s) == s <==> AllFree(patterns, s)
  {
    NoTokenSurvives(patterns, s);
    if AllFree(patterns, s) {
      FreeIsUnchanged(patterns, s);
    }
  }

  /** Scrubbing twice is scrubbing once. */
  lemma TokenScrubIsIdempotent(patterns: seq<Pattern>, s: string)
    requires AllTokens(patterns)
    ensures ScrubBody(patterns, ScrubBody(patterns, s)) == ScrubBody(patterns, s)
  {
    NoTokenSurvives(patterns, s);
    ChangedIffTokenPresent(patterns, ScrubBody(patterns, s));
  }
}
