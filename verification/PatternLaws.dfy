/**
 What the pattern pass of pkg/redact/redact.go finds and what it leaves: the search is leftmost
 and greedy, as the regular expressions it stands for are, and replacing touches nothing but the
 matches.
 */
module PatternLaws {
  import opened Common
  import opened PatternScrub
  import Luhn

  // ---------------------------------------------------------------------------------------
  // Greedy
  // ---------------------------------------------------------------------------------------

  /** `lens` says how many characters each piece covers, in a match of `s` from `i` to `j`. */
  ghost predicate Parses(pieces: seq<Piece>, s: string, i: nat, lens: seq<nat>, j: nat)
    decreases |pieces|
  {
    if pieces == [] then lens == [] && i == j <= |s|
    else
      && lens != [] && i + lens[0] <= |s| && Fits(pieces[0], s[i..i + lens[0]])
      && Parses(pieces[1..], s, i + lens[0], lens[1..], j)
  }

  /** The first piece for which the two differ covers fewer characters in `a`. */
  predicate NotGreedier(a: seq<nat>, b: seq<nat>) {
    a == [] || b == [] || a[0] < b[0] || (a[0] == b[0] && NotGreedier(a[1..], b[1..]))
  }

  /** Each piece in turn covers as much as it can, given what the pieces before it cover. */
  ghost predicate Greediest(pieces: seq<Piece>, s: string, i: nat, lens: seq<nat>, j: nat) {
    && Parses(pieces, s, i, lens, j)
    && forall others, k: nat | Parses(pieces, s, i, others, k) :: NotGreedier(others, lens)
  }

  lemma {:induction false} ParsesInside(pieces: seq<Piece>, s: string, i: nat, lens: seq<nat>, j: nat)
    requires Parses(pieces, s, i, lens, j)
    ensures i <= j <= |s| && Matches(pieces, s[i..j])
    decreases |pieces|
  {
    if pieces != [] {
      ParsesInside(pieces[1..], s, i + lens[0], lens[1..], j);
      PieceFirst(pieces, s, i, i + lens[0], j);
    }
  }

  lemma FirstPieceAtMost(pieces: seq<Piece>, s: string, i: nat, lens: seq<nat>, j: nat)
    requires pieces != [] && i <= |s| && Parses(pieces, s, i, lens, j)
    ensures lens[0] <= RunLength(pieces[0].cls, s, i) && (!pieces[0].open ==> lens[0] == pieces[0].min)
  {
    RunCovers(pieces[0].cls, s, i, s[i..i + lens[0]]);
  }

  /** Of all the ways to match at `i`, the search takes the greediest. */
  lemma {:induction false} SearchIsGreedy(pieces: seq<Piece>, s: string, i: nat) returns (lens: seq<nat>)
    requires i <= |s| && MatchEnd(pieces, s, i).Some?
    ensures Greediest(pieces, s, i, lens, MatchEnd(pieces, s, i).value)
    decreases |pieces|, 1, 0
  {
    if pieces == [] {
      lens := [];
    } else {
      var run := RunLength(pieces[0].cls, s, i);
      lens := BacktrackIsGreedy(pieces, s, i, if pieces[0].open then run else pieces[0].min);
      forall others, k: nat | Parses(pieces, s, i, others, k)
        ensures NotGreedier(others, lens)
      {
        FirstPieceAtMost(pieces, s, i, others, k);
      }
    }
  }

  /** The same for the ways in which the first piece covers at most `most` characters. */
  ghost predicate GreedyUpTo(pieces: seq<Piece>, s: string, i: nat, lens: seq<nat>, most: nat)
    requires pieces != []
  {
    forall others, k: nat | Parses(pieces, s, i, others, k) && others[0] <= most :: NotGreedier(others, lens)
  }

  lemma GreediestBehind(pieces: seq<Piece>, s: string, i: nat, taken: nat, rest: seq<nat>, j: nat)
    requires pieces != [] && i + taken <= |s| && Fits(pieces[0], s[i..i + taken])
    requires Greediest(pieces[1..], s, i + taken, rest, j)
    ensures Parses(pieces, s, i, [taken] + rest, j) && GreedyUpTo(pieces, s, i, [taken] + rest, taken)
  {
    assert ([taken] + rest)[1..] == rest;
    forall others, k: nat | Parses(pieces, s, i, others, k) && others[0] <= taken
      ensures NotGreedier(others, [taken] + rest)
    {
      if others[0] == taken {
        assert Parses(pieces[1..], s, i + taken, others[1..], k);
      }
    }
  }

  lemma ParsedIsFound(pieces: seq<Piece>, s: string, i: nat, lens: seq<nat>, j: nat)
    requires Parses(pieces, s, i, lens, j)
    ensures i <= |s| && MatchEnd(pieces, s, i).Some?
  {
    ParsesInside(pieces, s, i, lens, j);
    MatchEndIsComplete(pieces, s, i, j);
  }

  lemma NothingThatLong(pieces: seq<Piece>, s: string, i: nat, lens: seq<nat>, taken: nat)
    requires pieces != [] && 0 < taken && i + taken <= |s| && MatchEnd(pieces[1..], s, i + taken).None?
    requires GreedyUpTo(pieces, s, i, lens, taken - 1)
    ensures GreedyUpTo(pieces, s, i, lens, taken)
  {
    forall others, k: nat | Parses(pieces, s, i, others, k)
      ensures others[0] != taken
    {
      ParsedIsFound(pieces[1..], s, i + others[0], others[1..], k);
    }
  }

  lemma {:induction false} BacktrackIsGreedy(pieces: seq<Piece>, s: string, i: nat, taken: nat) returns (lens: seq<nat>)
    requires pieces != [] && i <= |s| && pieces[0].min <= taken <= RunLength(pieces[0].cls, s, i)
    requires (!pieces[0].open ==> taken == pieces[0].min) && Backtrack(pieces, s, i, taken).Some?
    ensures Parses(pieces, s, i, lens, Backtrack(pieces, s, i, taken).value)
    ensures GreedyUpTo(pieces, s, i, lens, taken)
    decreases |pieces|, 0, taken
  {
    var end := MatchEnd(pieces[1..], s, i + taken);
    if end.Some? {
      var rest := SearchIsGreedy(pieces[1..], s, i + taken);
      lens := [taken] + rest;
      GreediestBehind(pieces, s, i, taken, rest, end.value);
    } else {
      lens := BacktrackIsGreedy(pieces, s, i, taken - 1);
      NothingThatLong(pieces, s, i, lens, taken);
    }
  }

  // ---------------------------------------------------------------------------------------
  // Leftmost
  // ---------------------------------------------------------------------------------------

  /** From left to right: nothing matches before the next span, and the span is the greediest match there. */
  ghost predicate Leftmost(pieces: seq<Piece>, s: string, spans: seq<Span>, from: nat)
    requires from <= |s| && Ordered(spans, from, |s|)
  {
    if spans == [] then forall k | from <= k <= |s| :: NoneAt(pieces, s, k)
    else
      && (forall k | from <= k < spans[0].lo :: NoneAt(pieces, s, k))
      && (exists lens :: Greediest(pieces, s, spans[0].lo, lens, spans[0].hi))
      && Leftmost(pieces, s, spans[1..], spans[0].hi)
  }

  lemma EmptyIsNoToken(pieces: seq<Piece>, s: string)
    requires MinLength(pieces) > 0
    ensures NoneAt(pieces, s, |s|)
  {
    forall j | |s| <= j <= |s|
      ensures !Matches(pieces, s[|s|..j])
    {
      if Matches(pieces, s[|s|..j]) {
        MatchesAtLeast(pieces, s[|s|..j]);
      }
    }
  }

  lemma MatchIsLonger(pieces: seq<Piece>, s: string, i: nat)
    requires MinLength(pieces) > 0 && i <= |s| && MatchEnd(pieces, s, i).Some?
    ensures MatchEnd(pieces, s, i).value > i
  {
    MatchEndIsSound(pieces, s, i);
    MatchesAtLeast(pieces, s[i..MatchEnd(pieces, s, i).value]);
  }

  /** The search for a token pattern reports the leftmost, greediest, non-overlapping matches. */
  lemma {:induction false} FindsLeftmost(pieces: seq<Piece>, s: string, i: nat, gap: nat)
    requires MinLength(pieces) > 0 && gap <= i <= |s| && forall k | gap <= k < i :: NoneAt(pieces, s, k)
    ensures Ordered(TokenSpans(pieces, s, i), gap, |s|) && Leftmost(pieces, s, TokenSpans(pieces, s, i), gap)
    decreases |s| - i
  {
    OrderedFrom(TokenSpans(pieces, s, i), gap, i, |s|);
    if i == |s| {
      EmptyIsNoToken(pieces, s);
    } else if MatchEnd(pieces, s, i).Some? {
      var end := MatchEnd(pieces, s, i).value;
      MatchIsLonger(pieces, s, i);
      var lens := SearchIsGreedy(pieces, s, i);
      FindsLeftmost(pieces, s, end, end);
      assert TokenSpans(pieces, s, i)[1..] == TokenSpans(pieces, s, end);
    } else {
      NothingMatchesAt(pieces, s, i);
      FindsLeftmost(pieces, s, i + 1, gap);
    }
  }

  // ---------------------------------------------------------------------------------------
  // The whole token
  // ---------------------------------------------------------------------------------------

  /** A search whose last piece is open stops only where that piece cannot go on. */
  lemma {:induction false} OpenEndIsTaken(pieces: seq<Piece>, s: string, i: nat)
    requires i <= |s| && pieces != [] && pieces[|pieces| - 1].open && MatchEnd(pieces, s, i).Some?
    ensures var e := MatchEnd(pieces, s, i).value; e == |s| || !InClass(s[e], pieces[|pieces| - 1].cls)
    decreases |pieces|, 1, 0
  {
    BacktrackTakesOpenEnd(pieces, s, i, if pieces[0].open then RunLength(pieces[0].cls, s, i) else pieces[0].min);
  }

  lemma {:induction false} BacktrackTakesOpenEnd(pieces: seq<Piece>, s: string, i: nat, taken: nat)
    requires pieces != [] && pieces[|pieces| - 1].open && i + taken <= |s| && taken >= pieces[0].min
    requires |pieces| == 1 ==> taken == RunLength(pieces[0].cls, s, i)
    requires Backtrack(pieces, s, i, taken).Some?
    ensures var e := Backtrack(pieces, s, i, taken).value; e == |s| || !InClass(s[e], pieces[|pieces| - 1].cls)
    decreases |pieces|, 0, taken
  {
    if |pieces| > 1 {
      if MatchEnd(pieces[1..], s, i + taken).Some? {
        OpenEndIsTaken(pieces[1..], s, i + taken);
      } else {
        BacktrackTakesOpenEnd(pieces, s, i, taken - 1);
      }
    }
  }

  lemma {:induction false} SpansTakeOpenEnds(pieces: seq<Piece>, s: string, i: nat)
    requires i <= |s| && pieces != [] && pieces[|pieces| - 1].open
    ensures forall m | m in TokenSpans(pieces, s, i) ::
              m.hi == |s| || (m.hi < |s| && !InClass(s[m.hi], pieces[|pieces| - 1].cls))
    decreases |s| - i
  {
    if i < |s| {
      var end := MatchEnd(pieces, s, i);
      if end.Some? && end.value > i {
        OpenEndIsTaken(pieces, s, i);
        SpansTakeOpenEnds(pieces, s, end.value);
      } else {
        SpansTakeOpenEnds(pieces, s, i + 1);
      }
    }
  }

  // ---------------------------------------------------------------------------------------
  // Where everything is after replacing
  // ---------------------------------------------------------------------------------------

  /** Where the `n`-th mask begins. */
  function MaskPosition(spans: seq<Span>, from: nat, n: nat): int
    requires n < |spans|
  {
    if n == 0 then spans[0].lo - from
    else spans[0].lo - from + |MASK| + MaskPosition(spans[1..], spans[0].hi, n - 1)
  }

  /** Where the character `k` of the text comes to stand, when no span covers it. */
  function KeptPosition(spans: seq<Span>, from: nat, k: nat): int {
    if spans == [] || k < spans[0].lo then k - from
    else spans[0].lo - from + |MASK| + KeptPosition(spans[1..], spans[0].hi, k)
  }

  predicate Covered(spans: seq<Span>, k: nat) { exists n | 0 <= n < |spans| :: spans[n].lo <= k < spans[n].hi }

  /** How many characters the spans cover. */
  function Size(spans: seq<Span>): int { if spans == [] then 0 else spans[0].hi - spans[0].lo + Size(spans[1..]) }

  lemma {:induction false} SpliceLength(s: string, spans: seq<Span>, from: nat)
    requires from <= |s| && Ordered(spans, from, |s|)
    ensures |Splice(s, spans, from)| == |s| - from - Size(spans) + |MASK| * |spans|
  {
    if spans != [] {
      SpliceLength(s, spans[1..], spans[0].hi);
    }
  }

  /** Each match becomes the mask. */
  lemma {:induction false} SpliceMasks(s: string, spans: seq<Span>, from: nat, n: nat)
    requires from <= |s| && Ordered(spans, from, |s|) && n < |spans|
    ensures var p, out := MaskPosition(spans, from, n), Splice(s, spans, from);
            0 <= p && p + |MASK| <= |out| && out[p..p + |MASK|] == "[REDACTED]"
  {
    var head, rest := s[from..spans[0].lo] + MASK, Splice(s, spans[1..], spans[0].hi);
    if n > 0 {
      SpliceMasks(s, spans[1..], spans[0].hi, n - 1);
      var q := MaskPosition(spans[1..], spans[0].hi, n - 1);
      assert (head + rest)[|head| + q..|head| + q + |MASK|] == rest[q..q + |MASK|];
    } else {
      assert (head + rest)[spans[0].lo - from..][..|MASK|] == MASK;
    }
  }

  /** Each character that no match covers is kept, in its place between the masks. */
  lemma {:induction false} SpliceKeeps(s: string, spans: seq<Span>, from: nat, k: nat)
    requires from <= k < |s| && Ordered(spans, from, |s|) && !Covered(spans, k)
    ensures var p, out := KeptPosition(spans, from, k), Splice(s, spans, from);
            0 <= p < |out| && out[p] == s[k]
  {
    if spans != [] && k >= spans[0].lo {
      assert k >= spans[0].hi;
      assert forall n | 0 <= n < |spans[1..]| :: spans[1..][n] == spans[n + 1];
      SpliceKeeps(s, spans[1..], spans[0].hi, k);
    }
  }

  /** What follows a mask: the end, the next mask, or the character after the match. */
  lemma {:induction false} BehindTheMask(s: string, spans: seq<Span>, from: nat, n: nat)
    requires from <= |s| && Ordered(spans, from, |s|) && n < |spans|
    ensures var q, out := MaskPosition(spans, from, n) + |MASK|, Splice(s, spans, from);
            && 0 <= q <= |out| && spans[n].hi <= |s|
            && (q < |out| ==> out[q] == '[' || (spans[n].hi < |s| && out[q] == s[spans[n].hi]))
  {
    if n > 0 {
      BehindTheMask(s, spans[1..], spans[0].hi, n - 1);
    }
  }

  /**
   Right behind a masked token whose pattern is open at its end stands no character that could
   have belonged to it.
   */
  lemma NoTailIsLeft(p: Pattern, s: string, n: nat)
    requires IsTokenPattern(p) && p.re.pieces != [] && p.re.pieces[|p.re.pieces| - 1].open && n < |Masked(p, s)|
    ensures var q, out := MaskPosition(Masked(p, s), 0, n) + |MASK|, Splice(s, Masked(p, s), 0);
            0 <= q <= |out| && (q < |out| ==> !InClass(out[q], p.re.pieces[|p.re.pieces| - 1].cls))
  {
    var spans := TokenSpans(p.re.pieces, s, 0);
    assert Masked(p, s) == spans;
    BehindTheMask(s, spans, 0, n);
    SpansTakeOpenEnds(p.re.pieces, s, 0);
    assert spans[n] in spans;
  }

  // ---------------------------------------------------------------------------------------
  // Which matches are replaced
  // ---------------------------------------------------------------------------------------

  lemma {:induction false} OrderedInside(spans: seq<Span>, from: nat, to: nat)
    requires Ordered(spans, from, to)
    ensures forall m | m in spans :: from <= m.lo <= m.hi <= to
  {
    if spans != [] {
      OrderedInside(spans[1..], spans[0].hi, to);
    }
  }

  /** Of the matches of the card pattern those that pass the Luhn check are replaced, of any other pattern all are. */
  lemma ReplacesTheRightMatches(p: Pattern, s: string, m: Span)
    requires m in p.re.Find(s) || m in Masked(p, s)
    ensures m.lo <= m.hi <= |s| && m in p.re.Find(s)
    ensures m in Masked(p, s) <==> p.name != CREDIT_CARD || Luhn.Valid(s[m.lo..m.hi])
  {
    OrderedInside(p.re.Find(s), 0, |s|);
  }

  // ---------------------------------------------------------------------------------------
  // Patterns in turn
  // ---------------------------------------------------------------------------------------

  /** More patterns go on where the first ones left off; one pattern replaces what it finds. */
  lemma {:induction false} ScrubInTurn(a: seq<Pattern>, b: seq<Pattern>, s: string)
    ensures Scrub(a + b, s) == Scrub(b, Scrub(a, s))
    decreases |b|
  {
    if b == [] {
      assert a + b == a;
    } else {
      var n := |b| - 1;
      assert (a + b)[..|a + b| - 1] == a + b[..n];
      ScrubInTurn(a, b[..n], s);
    }
  }

  lemma ScrubBodyInTurn(a: seq<Pattern>, p: Pattern, s: string)
    requires s != ""
    ensures var before := ScrubBody(a, s); ScrubBody(a + [p], s) == Splice(before, Masked(p, before), 0)
    ensures ScrubBody([], s) == s
  {
    ScrubInTurn(a, [p], s);
    assert [p][..0] == [];
  }
}
