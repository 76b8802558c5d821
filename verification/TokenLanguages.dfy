/**
 The languages of the eight token patterns of pkg/redact/redact.go, spelled out character by
 character, without the pieces that the search works on.
 */
module TokenLanguages {
  import opened PatternScrub
  import Redact

  predicate IsUpper(c: char) { 'A' <= c <= 'Z' }

  predicate IsLower(c: char) { 'a' <= c <= 'z' }

  predicate IsDigit(c: char) { '0' <= c <= '9' }

  predicate IsAlnum(c: char) { IsUpper(c) || IsLower(c) || IsDigit(c) }

  predicate IsWordOrDash(c: char) { IsAlnum(c) || c == '_' || c == '-' }

  /** White space to the regular expressions: no vertical tab. */
  predicate IsBlank(c: char) { c == ' ' || c == '\t' || c == '\n' || c == '\r' || c == '\U{C}' }

  /** A case-folded letter range also takes the long s and the Kelvin sign. */
  predicate IsBearerChar(c: char) {
    IsAlnum(c) || c == '.' || c == '_' || c == '-' || c == '\U{17F}' || c == '\U{212A}'
  }

  // ---------------------------------------------------------------------------------------
  // Classes
  // ---------------------------------------------------------------------------------------

  lemma InUnion(c: char, a: CharClass, b: CharClass)
    ensures InClass(c, a + b) <==> InClass(c, a) || InClass(c, b)
  {
    if i :| 0 <= i < |a| && a[i].0 <= c <= a[i].1 {
      assert (a + b)[i] == a[i];
    } else if i :| 0 <= i < |b| && b[i].0 <= c <= b[i].1 {
      assert (a + b)[|a| + i] == b[i];
    }
  }

  lemma InRange(c: char, lo: char, hi: char)
    ensures InClass(c, [(lo, hi)]) <==> lo <= c <= hi
  {
    assert [(lo, hi)][0] == (lo, hi);
  }

  lemma Alnum(c: char)
    ensures InClass(c, ALNUM) <==> IsAlnum(c)
    ensures InClass(c, DIGIT + UPPER) <==> IsDigit(c) || IsUpper(c)
  {
    InUnion(c, UPPER + LOWER, DIGIT);
    InUnion(c, UPPER, LOWER);
    InUnion(c, DIGIT, UPPER);
    InRange(c, 'A', 'Z');
    InRange(c, 'a', 'z');
    InRange(c, '0', '9');
  }

  lemma WordOrDash(c: char)
    ensures InClass(c, WORD_DASH) <==> IsWordOrDash(c)
    ensures InClass(c, ALNUM + [('-', '-')]) <==> IsAlnum(c) || c == '-'
  {
    Alnum(c);
    InUnion(c, ALNUM, [('_', '_'), ('-', '-')]);
    InUnion(c, [('_', '_')], [('-', '-')]);
    assert [('_', '_'), ('-', '-')] == [('_', '_')] + [('-', '-')];
    InUnion(c, ALNUM, [('-', '-')]);
    InRange(c, '_', '_');
    InRange(c, '-', '-');
  }

  lemma BearerChar(c: char)
    ensures InClass(c, BEARER_CHARS) <==> IsBearerChar(c)
    ensures InClass(c, SPACE) <==> IsBlank(c)
  {
    Alnum(c);
    var extra := [('.', '.'), ('_', '_'), ('-', '-'), ('\U{17F}', '\U{17F}'), ('\U{212A}', '\U{212A}')];
    InUnion(c, ALNUM, extra);
    assert extra[0] == ('.', '.') && extra[1] == ('_', '_') && extra[2] == ('-', '-');
    assert extra[3] == ('\U{17F}', '\U{17F}') && extra[4] == ('\U{212A}', '\U{212A}');
    assert SPACE[0] == ('\t', '\n') && SPACE[1] == ('\U{C}', '\r') && SPACE[2] == (' ', ' ');
  }

  lemma OneOfClass(c: char, chars: string)
    ensures InClass(c, OneOf(chars)) <==> c in chars
  {
    if c in chars {
      var i :| 0 <= i < |chars| && chars[i] == c;
      assert OneOf(chars)[i] == (c, c);
    }
  }

  // ---------------------------------------------------------------------------------------
  // Pieces in turn
  // ---------------------------------------------------------------------------------------

  lemma LastPiece(p: Piece, s: string)
    ensures Matches([p], s) <==> Fits(p, s)
  {
    if Fits(p, s) {
      assert s[..|s|] == s && s[|s|..] == [];
      assert Matches([p][1..], s[|s|..]);
    }
    if Matches([p], s) {
      var k: nat :| k <= |s| && Fits([p][0], s[..k]) && Matches([p][1..], s[k..]);
      assert s[..k] == s;
    }
  }

  lemma FixedPiece(p: Piece, rest: seq<Piece>, s: string)
    requires !p.open
    ensures Matches([p] + rest, s) <==> |s| >= p.min && Fits(p, s[..p.min]) && Matches(rest, s[p.min..])
  {
    assert ([p] + rest)[1..] == rest;
  }

  lemma OpenPiece(p: Piece, rest: seq<Piece>, s: string)
    ensures Matches([p] + rest, s) <==> exists k: nat | k <= |s| :: Fits(p, s[..k]) && Matches(rest, s[k..])
  {
    assert ([p] + rest)[1..] == rest;
  }

  lemma OneChar(c: char, rest: seq<Piece>, s: string)
    ensures Matches([Only(c)] + rest, s) <==> s != [] && s[0] == c && Matches(rest, s[1..])
  {
    FixedPiece(Only(c), rest, s);
    if s != [] {
      InRange(s[0], c, c);
      assert s[..1] == [s[0]];
    }
  }

  lemma {:induction false} AfterLiteral(l: string, rest: seq<Piece>, s: string)
    ensures Matches(Literal(l) + rest, s) <==> l <= s && Matches(rest, s[|l|..])
  {
    if l == [] {
      assert Literal(l) + rest == rest && s[0..] == s;
    } else {
      assert Literal(l) + rest == [Only(l[0])] + (Literal(l[1..]) + rest);
      OneChar(l[0], Literal(l[1..]) + rest, s);
      if s != [] {
        AfterLiteral(l[1..], rest, s[1..]);
        assert l == [l[0]] + l[1..] && s == [s[0]] + s[1..];
        if |l| <= |s| {
          assert s[1..][|l[1..]|..] == s[|l|..];
        }
      }
    }
  }

  predicate FoldsTo(upper: string, lower: string, s: string) {
    |upper| == |lower| <= |s| && forall i | 0 <= i < |upper| :: s[i] == upper[i] || s[i] == lower[i]
  }

  function EitherCase(upper: char, lower: char): Piece { Piece([(upper, upper), (lower, lower)], 1, false) }

  lemma OneFolded(upper: char, lower: char, rest: seq<Piece>, s: string)
    ensures Matches([EitherCase(upper, lower)] + rest, s)
       <==> s != [] && (s[0] == upper || s[0] == lower) && Matches(rest, s[1..])
  {
    var p := EitherCase(upper, lower);
    FixedPiece(p, rest, s);
    if s != [] {
      assert p.cls[0] == (upper, upper) && p.cls[1] == (lower, lower);
      assert s[..1] == [s[0]];
    }
  }

  lemma FoldsStep(upper: string, lower: string, s: string)
    requires |upper| == |lower| > 0 && s != []
    ensures FoldsTo(upper, lower, s)
       <==> (s[0] == upper[0] || s[0] == lower[0]) && FoldsTo(upper[1..], lower[1..], s[1..])
  {
    var u, l, t := upper[1..], lower[1..], s[1..];
    assert forall i | 0 <= i < |u| :: u[i] == upper[i + 1] && l[i] == lower[i + 1];
    assert forall i | 0 <= i < |t| :: t[i] == s[i + 1];
    if FoldsTo(u, l, t) && (s[0] == upper[0] || s[0] == lower[0]) {
      forall i | 0 <= i < |upper|
        ensures s[i] == upper[i] || s[i] == lower[i]
      {
        if i > 0 {
          assert t[i - 1] == u[i - 1] || t[i - 1] == l[i - 1];
        }
      }
    }
  }

  lemma {:induction false} AfterFolded(upper: string, lower: string, rest: seq<Piece>, s: string)
    requires |upper| == |lower|
    ensures Matches(Folded(upper, lower) + rest, s) <==> FoldsTo(upper, lower, s) && Matches(rest, s[|upper|..])
  {
    if upper == [] {
      assert Folded(upper, lower) + rest == rest && s[0..] == s;
    } else {
      var others := Folded(upper[1..], lower[1..]) + rest;
      assert Folded(upper, lower) + rest == [EitherCase(upper[0], lower[0])] + others;
      OneFolded(upper[0], lower[0], others, s);
      if s != [] {
        AfterFolded(upper[1..], lower[1..], rest, s[1..]);
        FoldsStep(upper, lower, s);
        if |upper| <= |s| {
          assert s[1..][|upper[1..]|..] == s[|upper|..];
        }
      }
    }
  }

  /** At least `min` characters, all of one kind. */
  predicate AllOfKind(s: string, min: nat, kind: char -> bool) { |s| >= min && forall i | 0 <= i < |s| :: kind(s[i]) }

  lemma FitsKind(p: Piece, s: string, kind: char -> bool)
    requires p.open && forall c: char :: InClass(c, p.cls) == kind(c)
    ensures Fits(p, s) <==> AllOfKind(s, p.min, kind)
  {
  }

  /** A prefix and then, to the end, only characters of one kind, at least `min` of them. */
  predicate PrefixAndTail(prefix: string, s: string, min: nat, kind: char -> bool) {
    prefix <= s && |s| >= |prefix| + min && forall i | |prefix| <= i < |s| :: kind(s[i])
  }

  lemma LiteralAndTail(prefix: string, p: Piece, s: string, kind: char -> bool)
    requires forall c: char :: InClass(c, p.cls) == kind(c)
    ensures Matches(Literal(prefix) + [p], s)
       <==> PrefixAndTail(prefix, s, p.min, kind) && (p.open || |s| == |prefix| + p.min)
  {
    AfterLiteral(prefix, [p], s);
    if prefix <= s {
      LastPiece(p, s[|prefix|..]);
      assert forall i | |prefix| <= i < |s| :: s[i] == s[|prefix|..][i - |prefix|];
    }
  }

  // ---------------------------------------------------------------------------------------
  // The eight languages
  // ---------------------------------------------------------------------------------------

  predicate IsAwsAccessKey(s: string) { |s| == 20 && PrefixAndTail("AKIA", s, 16, c => IsDigit(c) || IsUpper(c)) }

  lemma AwsAccessKey(s: string)
    ensures Matches(AWS_ACCESS_KEY, s) <==> IsAwsAccessKey(s)
  {
    forall c: char
      ensures InClass(c, DIGIT + UPPER) == (IsDigit(c) || IsUpper(c))
    {
      Alnum(c);
    }
    LiteralAndTail("AKIA", Exactly(DIGIT + UPPER, 16), s, c => IsDigit(c) || IsUpper(c));
  }

  lemma StripeKeys(s: string)
    ensures Matches(STRIPE_LIVE, s) <==> PrefixAndTail("sk_live_", s, 20, IsAlnum)
    ensures Matches(STRIPE_TEST, s) <==> PrefixAndTail("sk_test_", s, 20, IsAlnum)
  {
    forall c: char
      ensures InClass(c, ALNUM) == IsAlnum(c)
    {
      Alnum(c);
    }
    LiteralAndTail("sk_live_", AtLeast(ALNUM, 20), s, IsAlnum);
    LiteralAndTail("sk_test_", AtLeast(ALNUM, 20), s, IsAlnum);
  }

  predicate IsGoogleApiKey(s: string) { |s| == 39 && PrefixAndTail("AIza", s, 35, IsWordOrDash) }

  lemma GoogleApiKey(s: string)
    ensures Matches(GOOGLE_API, s) <==> IsGoogleApiKey(s)
  {
    forall c: char
      ensures InClass(c, WORD_DASH) == IsWordOrDash(c)
    {
      WordOrDash(c);
    }
    LiteralAndTail("AIza", Exactly(WORD_DASH, 35), s, IsWordOrDash);
  }

  lemma OneLetter(letters: string, rest: seq<Piece>, s: string)
    ensures Matches([Exactly(OneOf(letters), 1)] + rest, s) <==> s != [] && s[0] in letters && Matches(rest, s[1..])
  {
    FixedPiece(Exactly(OneOf(letters), 1), rest, s);
    if s != [] {
      OneOfClass(s[0], letters);
      assert s[..1] == [s[0]];
    }
  }

  lemma LetterSepTail(letters: string, sep: char, p: Piece, t: string, kind: char -> bool)
    requires p.open && forall c: char :: InClass(c, p.cls) == kind(c)
    ensures Matches([Exactly(OneOf(letters), 1)] + ([Only(sep)] + [p]), t) <==>
              |t| >= 2 && t[0] in letters && t[1] == sep && AllOfKind(t[2..], p.min, kind)
  {
    OneLetter(letters, [Only(sep)] + [p], t);
    if |t| >= 1 {
      OneChar(sep, [p], t[1..]);
      if |t| >= 2 {
        LastPiece(p, t[2..]);
        FitsKind(p, t[2..], kind);
        assert t[1..][1..] == t[2..];
      }
    }
  }

  /** A prefix, one of some letters, a separator, and a tail. */
  lemma LetterAndTail(prefix: string, letters: string, sep: char, p: Piece, s: string, kind: char -> bool)
    requires p.open && forall c: char :: InClass(c, p.cls) == kind(c)
    ensures Matches(Literal(prefix) + [Exactly(OneOf(letters), 1), Only(sep), p], s) <==>
              var n := |prefix|;
              && prefix <= s && |s| >= n + 2 + p.min && s[n] in letters && s[n + 1] == sep
              && forall i | n + 2 <= i < |s| :: kind(s[i])
  {
    var n, letter := |prefix|, Exactly(OneOf(letters), 1);
    AfterLiteral(prefix, [letter, Only(sep), p], s);
    if prefix <= s {
      assert [letter, Only(sep), p] == [letter] + ([Only(sep)] + [p]);
      LetterSepTail(letters, sep, p, s[n..], kind);
      if |s| >= n + 2 {
        assert s[n..][2..] == s[n + 2..] && s[n..][0] == s[n] && s[n..][1] == s[n + 1];
        assert forall i | n + 2 <= i < |s| :: s[i] == s[n + 2..][i - (n + 2)];
      }
    }
  }

  predicate IsGithubToken(s: string) {
    "gh" <= s && |s| >= 40 && s[2] in "pousr" && s[3] == '_' && forall i | 4 <= i < |s| :: IsAlnum(s[i])
  }

  lemma GithubToken(s: string)
    ensures Matches(GITHUB_TOKEN, s) <==> IsGithubToken(s)
  {
    forall c: char
      ensures InClass(c, ALNUM) == IsAlnum(c)
    {
      Alnum(c);
    }
    LetterAndTail("gh", "pousr", '_', AtLeast(ALNUM, 36), s, IsAlnum);
  }

  predicate IsSlackToken(s: string) {
    && "xox" <= s && |s| >= 15 && s[3] in "baprs" && s[4] == '-'
    && forall i | 5 <= i < |s| :: IsAlnum(s[i]) || s[i] == '-'
  }

  lemma SlackToken(s: string)
    ensures Matches(SLACK_TOKEN, s) <==> IsSlackToken(s)
  {
    forall c: char
      ensures InClass(c, ALNUM + [('-', '-')]) == (IsAlnum(c) || c == '-')
    {
      WordOrDash(c);
    }
    LetterAndTail("xox", "baprs", '-', AtLeast(ALNUM + [('-', '-')], 10), s, c => IsAlnum(c) || c == '-');
  }

  predicate IsBearerToken(s: string) {
    && FoldsTo("BEARER", "bearer", s)
    && exists k: nat | k <= |s| - 6 ::
         AllOfKind(s[6..][..k], 1, IsBlank) && AllOfKind(s[6..][k..], 20, IsBearerChar)
  }

  /** "Bearer" in any case, blanks, and at least twenty token characters. */
  lemma BearerToken(s: string)
    ensures Matches(BEARER, s) <==> IsBearerToken(s)
  {
    var blanks, token := AtLeast(SPACE, 1), AtLeast(BEARER_CHARS, 20);
    forall c: char
      ensures InClass(c, SPACE) == IsBlank(c) && InClass(c, BEARER_CHARS) == IsBearerChar(c)
    {
      BearerChar(c);
    }
    AfterFolded("BEARER", "bearer", [blanks, token], s);
    if FoldsTo("BEARER", "bearer", s) {
      var t := s[6..];
      assert [blanks, token] == [blanks] + [token];
      OpenPiece(blanks, [token], t);
      forall k: nat | k <= |t|
        ensures Fits(blanks, t[..k]) && Matches([token], t[k..])
           <==> AllOfKind(t[..k], 1, IsBlank) && AllOfKind(t[k..], 20, IsBearerChar)
      {
        FitsKind(blanks, t[..k], IsBlank);
        FitsKind(token, t[k..], IsBearerChar);
        LastPiece(token, t[k..]);
      }
    }
  }

  /** "eyJ" and three parts of at least ten word characters or dashes, with dots between them. */
  ghost predicate IsJwt(s: string) {
    exists a, b, c ::
      && s == "eyJ" + a + "." + b + "." + c
      && AllOfKind(a, 10, IsWordOrDash) && AllOfKind(b, 10, IsWordOrDash) && AllOfKind(c, 10, IsWordOrDash)
  }

  lemma CutAtDot(s: string, k: nat)
    requires k < |s| && s[k..][0] == '.'
    ensures s == s[..k] + "." + s[k + 1..] && s[k..][1..] == s[k + 1..]
  {
  }

  lemma PartBeforeDot(p: Piece, rest: seq<Piece>, s: string) returns (a: string, t: string)
    requires Matches([p] + ([Only('.')] + rest), s)
    ensures s == a + "." + t && Fits(p, a) && Matches(rest, t)
  {
    var others := [Only('.')] + rest;
    OpenPiece(p, others, s);
    var k: nat :| k <= |s| && Fits(p, s[..k]) && Matches(others, s[k..]);
    OneChar('.', rest, s[k..]);
    CutAtDot(s, k);
    a, t := s[..k], s[k + 1..];
  }

  lemma DotAfterPart(p: Piece, rest: seq<Piece>, a: string, t: string)
    requires Fits(p, a) && Matches(rest, t)
    ensures Matches([p] + ([Only('.')] + rest), a + "." + t)
  {
    var s, k := a + "." + t, |a|;
    assert s[..k] == a && s[k..] == "." + t && s[k..][0] == '.' && s[k..][1..] == t;
    OneChar('.', rest, s[k..]);
    OpenPiece(p, [Only('.')] + rest, s);
  }

  lemma WordPart(s: string)
    ensures Fits(AtLeast(WORD_DASH, 10), s) <==> AllOfKind(s, 10, IsWordOrDash)
  {
    forall c: char
      ensures InClass(c, WORD_DASH) == IsWordOrDash(c)
    {
      WordOrDash(c);
    }
    FitsKind(AtLeast(WORD_DASH, 10), s, IsWordOrDash);
  }

  const WORD := AtLeast(WORD_DASH, 10)

  function TwoWords(): seq<Piece> { [WORD] + ([Only('.')] + [WORD]) }

  lemma ThreeWords(s: string)
    ensures Matches(JWT, s) <==> "eyJ" <= s && Matches([WORD] + ([Only('.')] + TwoWords()), s[3..])
  {
    var three := [WORD] + ([Only('.')] + TwoWords());
    assert [WORD, Only('.'), WORD, Only('.'), WORD] == three;
    AfterLiteral("eyJ", three, s);
  }

  lemma ThreeParts(s: string, a: string, t: string, b: string, c: string)
    requires t == b + "." + c
    ensures "eyJ" <= s && s[3..] == a + "." + t <==> s == "eyJ" + a + "." + b + "." + c
  {
    var whole := "eyJ" + a + "." + b + "." + c;
    assert whole == "eyJ" + (a + "." + t);
    assert whole[..3] == "eyJ" && whole[3..] == a + "." + t;
    if "eyJ" <= s && s[3..] == a + "." + t {
      assert s == s[..3] + s[3..];
    }
  }

  lemma JwtHasThreeParts(s: string)
    requires Matches(JWT, s)
    ensures IsJwt(s)
  {
    ThreeWords(s);
    var a, t := PartBeforeDot(WORD, TwoWords(), s[3..]);
    var b, c := PartBeforeDot(WORD, [WORD], t);
    LastPiece(WORD, c);
    WordPart(a);
    WordPart(b);
    WordPart(c);
    ThreeParts(s, a, t, b, c);
  }

  lemma ThreePartsAreJwt(a: string, b: string, c: string)
    requires AllOfKind(a, 10, IsWordOrDash) && AllOfKind(b, 10, IsWordOrDash) && AllOfKind(c, 10, IsWordOrDash)
    ensures Matches(JWT, "eyJ" + a + "." + b + "." + c)
  {
    WordPart(a);
    WordPart(b);
    WordPart(c);
    LastPiece(WORD, c);
    DotAfterPart(WORD, [WORD], b, c);
    DotAfterPart(WORD, TwoWords(), a, b + "." + c);
    var s := "eyJ" + a + "." + b + "." + c;
    ThreeParts(s, a, b + "." + c, b, c);
    ThreeWords(s);
  }

  lemma JsonWebToken(s: string)
    ensures Matches(JWT, s) <==> IsJwt(s)
  {
    if Matches(JWT, s) {
      JwtHasThreeParts(s);
    }
    if IsJwt(s) {
      var a, b, c :| s == "eyJ" + a + "." + b + "." + c && AllOfKind(a, 10, IsWordOrDash)
                     && AllOfKind(b, 10, IsWordOrDash) && AllOfKind(c, 10, IsWordOrDash);
      ThreePartsAreJwt(a, b, c);
    }
  }

  // ---------------------------------------------------------------------------------------
  // No secret survives
  // ---------------------------------------------------------------------------------------

  predicate IsStripeKey(s: string) {
    PrefixAndTail("sk_live_", s, 20, IsAlnum) || PrefixAndTail("sk_test_", s, 20, IsAlnum)
  }

  ghost predicate IsSecret(s: string) {
    || IsJwt(s) || IsBearerToken(s) || IsAwsAccessKey(s) || IsGithubToken(s) || IsStripeKey(s)
    || IsGoogleApiKey(s) || IsSlackToken(s)
  }

  /** The expressions of the defaults, in the order of the defaults. */
  function DefaultExpressions(): seq<seq<Piece>> {
    [JWT, BEARER, AWS_ACCESS_KEY, GITHUB_TOKEN, STRIPE_LIVE, STRIPE_TEST, GOOGLE_API, SLACK_TOKEN]
  }

  lemma DefaultExpression(i: nat)
    requires i < 8
    ensures DefaultTokens(0)[i].re == Tokens(DefaultExpressions()[i])
  {
    assert DefaultTokens(0)[i] == DefaultToken(i);
  }

  lemma DefaultIsFree(card: Finder, extra: seq<Pattern>, body: string, i: nat, pieces: seq<Piece>)
    requires i < 8 && DefaultTokens(0)[i].re == Tokens(pieces)
    ensures Free(pieces, ScrubBody(DefaultPatterns(card) + extra, body))
  {
    NoDefaultTokenSurvives(card, extra, body, i);
  }

  lemma SecretIsInALanguage(s: string) returns (i: nat)
    requires IsSecret(s)
    ensures i < 8 && Matches(DefaultExpressions()[i], s)
  {
    if IsJwt(s) {
      JsonWebToken(s);
      i := 0;
    } else if IsBearerToken(s) {
      BearerToken(s);
      i := 1;
    } else if IsAwsAccessKey(s) {
      AwsAccessKey(s);
      i := 2;
    } else if IsGithubToken(s) {
      GithubToken(s);
      i := 3;
    } else if IsStripeKey(s) {
      StripeKeys(s);
      i := if PrefixAndTail("sk_live_", s, 20, IsAlnum) then 4 else 5;
    } else if IsGoogleApiKey(s) {
      GoogleApiKey(s);
      i := 6;
    } else {
      SlackToken(s);
      i := 7;
    }
  }

  /** With the defaults, and any patterns after them, no substring of a scrubbed body is a secret. */
  lemma NoSecretSurvives(card: Finder, extra: seq<Pattern>, body: string, t: string)
    requires Occurs(ScrubBody(DefaultPatterns(card) + extra, body), t)
    ensures !IsSecret(t)
  {
    if IsSecret(t) {
      var i := SecretIsInALanguage(t);
      DefaultExpression(i);
      DefaultIsFree(card, extra, body, i, DefaultExpressions()[i]);
    }
  }

  /** Nor of any body, JSON or not, that comes out of a redactor with the default patterns. */
  lemma NoSecretInABody(r: Redact.Redactor, card: Finder, extra: seq<Pattern>, codec: Redact.Codec, body: string,
                        contentType: string, t: string)
    requires r.patterns == DefaultPatterns(card) + extra && Occurs(Redact.Body(r, codec, body, contentType), t)
    ensures !IsSecret(t)
  {
    var masked := Redact.Body(r.(patterns := []), codec, body, contentType);
    Redact.PatternsComeLast(r, codec, body, contentType);
    NoSecretSurvives(card, extra, masked, t);
  }

  lemma LanguageIsSecret(s: string, i: nat)
    requires i < 8 && Matches(DefaultExpressions()[i], s)
    ensures IsSecret(s)
  {
    match i
    case 0 => JsonWebToken(s);
    case 1 => BearerToken(s);
    case 2 => AwsAccessKey(s);
    case 3 => GithubToken(s);
    case 4 => StripeKeys(s);
    case 5 => StripeKeys(s);
    case 6 => GoogleApiKey(s);
    case 7 => SlackToken(s);
  }

  /** Nothing else makes the defaults, without the card expression, change a text. */
  lemma OnlySecretsAreMasked(s: string)
    requires forall t | Occurs(s, t) :: !IsSecret(t)
    ensures ScrubBody(DefaultTokens(0), s) == s
  {
    forall i | 0 <= i < 8
      ensures IsTokenPattern(DefaultTokens(0)[i]) && Free(DefaultTokens(0)[i].re.pieces, s)
    {
      DefaultsAreTokenPatterns(i);
      forall t | Occurs(s, t)
        ensures !Matches(DefaultExpressions()[i], t)
      {
        if Matches(DefaultExpressions()[i], t) {
          LanguageIsSecret(t, i);
        }
      }
      DefaultExpression(i);
    }
    ChangedIffTokenPresent(DefaultTokens(0), s);
  }
}
