/**
 The Luhn check that filters credit-card matches: the Go routine of pkg/redact/redact.go, its
 Python port and its PHP port, each as the loop it is, against one specification.

 The specification reads left to right; the three loops read right to left, and each one
 tracks the doubling and skips the separators in its own way.
 */
module Luhn {
  import opened Common

  predicate IsDigit(c: char) { '0' <= c <= '9' }

  predicate IsSeparator(c: char) { c == ' ' || c == '-' }

  predicate AllDigits(s: string) { forall i | 0 <= i < |s| :: IsDigit(s[i]) }

  /** The value of a digit character; any other character counts as zero. */
  function DigitValue(c: char): nat { if IsDigit(c) then (c - '0') as nat else 0 }

  /** `s` without its spaces and hyphens. */
  function Strip(s: string): string {
    if s == [] then []
    else if IsSeparator(s[0]) then Strip(s[1..])
    else [s[0]] + Strip(s[1..])
  }

  /** What one digit adds to the sum: itself, or its double with nine cast out. */
  function Weight(d: nat, doubled: bool): nat {
    if !doubled then d else if 2 * d > 9 then 2 * d - 9 else 2 * d
  }

  /** Every second digit, counted from the right end, is doubled. */
  function Checksum(digits: string): nat {
    if digits == [] then 0
    else Weight(DigitValue(digits[0]), |digits| % 2 == 0) + Checksum(digits[1..])
  }

  predicate Valid(s: string) {
    var digits := Strip(s);
    AllDigits(digits) && 13 <= |digits| <= 19 && Checksum(digits) % 10 == 0
  }

  /** `s.replace(c, "")` */
  function Without(s: string, c: char): string {
    if s == [] then []
    else if s[0] == c then Without(s[1..], c)
    else [s[0]] + Without(s[1..], c)
  }

  /** Doubling adds the digits of the double. */
  lemma WeightIsDigitSum(d: nat)
    requires d <= 9
    ensures Weight(d, true) == 2 * d / 10 + 2 * d % 10 && Weight(d, false) == d
  {
  }

  lemma ChecksumStep(c: char, rest: string)
    ensures Checksum([c] + rest) == Weight(DigitValue(c), (|rest| + 1) % 2 == 0) + Checksum(rest)
  {
    assert ([c] + rest)[1..] == rest;
  }

  lemma NextParity(n: int)
    ensures ((n - 1) % 2 == 0) == !(n % 2 == 0)
  {
  }

  /** From the right: the last digit counts as it is, the one before it doubled, and so on in pairs. */
  lemma ChecksumByPairs(a: char, b: char, rest: string)
    requires IsDigit(a) && IsDigit(b) && |rest| % 2 == 0
    ensures Checksum([a, b] + rest)
         == 2 * DigitValue(a) / 10 + 2 * DigitValue(a) % 10 + DigitValue(b) + Checksum(rest)
    ensures Checksum([b] + rest) == DigitValue(b) + Checksum(rest)
  {
    NextParity(|rest| + 1);
    NextParity(|rest| + 2);
    ChecksumStep(b, rest);
    ChecksumStep(a, [b] + rest);
    assert [a, b] + rest == [a] + ([b] + rest);
    WeightIsDigitSum(DigitValue(a));
    WeightIsDigitSum(DigitValue(b));
  }

  lemma StripStep(s: string, i: nat)
    requires i < |s|
    ensures Strip(s[i..]) == (if IsSeparator(s[i]) then [] else [s[i]]) + Strip(s[i + 1..])
  {
    assert s[i..][1..] == s[i + 1..];
  }

  lemma {:induction false} StripConcat(a: string, b: string)
    ensures Strip(a + b) == Strip(a) + Strip(b)
  {
    if a == [] {
      assert a + b == b;
    } else {
      assert (a + b)[1..] == a[1..] + b;
      StripConcat(a[1..], b);
    }
  }

  lemma StripSuffix(s: string, i: nat)
    requires i <= |s|
    ensures Strip(s) == Strip(s[..i]) + Strip(s[i..])
  {
    assert s == s[..i] + s[i..];
    StripConcat(s[..i], s[i..]);
  }

  lemma NonDigitSurvives(s: string, i: nat)
    requires i < |s| && !IsDigit(s[i]) && !IsSeparator(s[i])
    ensures !AllDigits(Strip(s))
  {
    StripSuffix(s, i);
    StripStep(s, i);
    assert Strip(s)[|Strip(s[..i])|] == s[i];
  }

  /** Valid numbers have 13 to 19 digits, and nothing else but separators. */
  lemma ValidIsANumber(s: string)
    requires Valid(s)
    ensures 13 <= |Strip(s)| <= 19 && forall i | 0 <= i < |s| :: IsDigit(s[i]) || IsSeparator(s[i])
  {
    forall i | 0 <= i < |s|
      ensures IsDigit(s[i]) || IsSeparator(s[i])
    {
      if !IsDigit(s[i]) && !IsSeparator(s[i]) {
        NonDigitSurvives(s, i);
      }
    }
  }

  // ---------------------------------------------------------------------------------------
  // Stripping
  // ---------------------------------------------------------------------------------------

  lemma {:induction false} WithoutBoth(s: string)
    ensures Without(Without(s, ' '), '-') == Strip(s)
  {
    if s != [] {
      WithoutBoth(s[1..]);
      var rest := Without(s[1..], ' ');
      assert ([s[0]] + rest)[1..] == rest;
    }
  }

  lemma {:induction false} StripClean(s: string)
    ensures forall i | 0 <= i < |Strip(s)| :: !IsSeparator(Strip(s)[i])
    ensures Strip(Strip(s)) == Strip(s)
  {
    if s != [] {
      StripClean(s[1..]);
      assert ([s[0]] + Strip(s[1..]))[1..] == Strip(s[1..]);
    }
  }

  lemma {:induction false} StripNothing(s: string)
    requires forall i | 0 <= i < |s| :: !IsSeparator(s[i])
    ensures Strip(s) == s
  {
    if s != [] {
      StripNothing(s[1..]);
    }
  }

  lemma StripAround(s: string, i: nat)
    requires i < |s| && !IsSeparator(s[i])
    ensures Strip(s) == Strip(s[..i]) + [s[i]] + Strip(s[i + 1..])
  {
    StripSuffix(s, i);
    StripStep(s, i);
  }

  /** Replacing one digit of a separated number replaces one digit of the bare number. */
  lemma StripUpdate(s: string, i: nat, c: char)
    requires i < |s| && !IsSeparator(s[i]) && !IsSeparator(c)
    ensures var j := |Strip(s[..i])|;
            j < |Strip(s)| && Strip(s)[j] == s[i] && Strip(s[i := c]) == Strip(s)[j := c]
  {
    StripAround(s, i);
    StripAround(s[i := c], i);
    assert s[i := c][..i] == s[..i] && s[i := c][i + 1..] == s[i + 1..];
  }

  // ---------------------------------------------------------------------------------------
  // Digits in Python
  // ---------------------------------------------------------------------------------------

  /** `isdigit` and `int` on one character; no value where `int` raises. */
  datatype Numerals = Numerals(isDigit: char -> bool, value: char -> Option<nat>)

  /** Both are what they should be on ASCII, and a value is a digit. */
  ghost predicate Python(u: Numerals) {
    && (forall c: char | c as int < 128 :: u.isDigit(c) == IsDigit(c))
    && (forall c: char | IsDigit(c) :: u.value(c) == Some(DigitValue(c)))
    && (forall c: char | u.value(c).Some? :: u.value(c).value <= 9)
  }

  predicate IsAscii(s: string) { forall i | 0 <= i < |s| :: s[i] as int < 128 }

  function AsciiDigit(u: Numerals, c: char): char {
    match u.value(c)
    case Some(v) => if v <= 9 then '0' + v as char else '0'
    case None => '0'
  }

  /** The number in ASCII digits. */
  function InAscii(u: Numerals, s: string): string { seq(|s|, i requires 0 <= i < |s| => AsciiDigit(u, s[i])) }

  lemma AsciiStep(u: Numerals, s: string, j: nat)
    requires Python(u) && j < |s| && u.value(s[j]).Some?
    ensures Checksum(InAscii(u, s)[j..])
         == Weight(u.value(s[j]).value, (|s| - j) % 2 == 0) + Checksum(InAscii(u, s)[j + 1..])
  {
    assert InAscii(u, s)[j..][1..] == InAscii(u, s)[j + 1..];
    assert DigitValue(InAscii(u, s)[j]) == u.value(s[j]).value;
  }

  /** The check on the digits of any script; None when one of them has no value. */
  function PythonVerdict(u: Numerals, s: string): Option<bool> {
    var clean := Strip(s);
    if !(13 <= |clean| <= 19) || exists i | 0 <= i < |clean| :: !u.isDigit(clean[i]) then Some(false)
    else if exists i | 0 <= i < |clean| :: u.value(clean[i]).None? then None
    else Some(Checksum(InAscii(u, clean)) % 10 == 0)
  }

  lemma {:induction false} StripKeepsAscii(s: string)
    requires IsAscii(s)
    ensures IsAscii(Strip(s))
  {
    if s != [] {
      StripKeepsAscii(s[1..]);
    }
  }

  lemma PythonOnAscii(u: Numerals, s: string)
    requires Python(u) && IsAscii(s)
    ensures PythonVerdict(u, s) == Some(Valid(s))
  {
    var clean := Strip(s);
    StripKeepsAscii(s);
    if AllDigits(clean) {
      assert InAscii(u, clean) == clean;
    }
  }

  // ---------------------------------------------------------------------------------------
  // The three routines
  // ---------------------------------------------------------------------------------------

  /** Go: one pass from the right that skips separators as it meets them. */
  method GoLuhn(b: string) returns (ok: bool)
    ensures ok == Valid(b)
  {
    var sum, n := 0, 0;
    var odd := true;
    var i := |b| - 1;
    ghost var seen := "";
    while i >= 0
      invariant -1 <= i < |b|
      invariant seen == Strip(b[i + 1..])
      invariant AllDigits(seen)
      invariant n == |seen| && odd == (n % 2 == 0) && sum == Checksum(seen)
      decreases i
    {
      var c := b[i];
      StripStep(b, i);
      i := i - 1;
      if !(c == ' ' || c == '-') {
        if c < '0' || c > '9' {
          NonDigitSurvives(b, i + 1);
          return false;
        }
        var d := (c - '0') as int;
        if !odd {
          d := d * 2;
          if d > 9 {
            d := d - 9;
          }
        }
        ChecksumStep(c, seen);
        NextParity(n + 1);
        sum := sum + d;
        n := n + 1;
        odd := !odd;
        seen := [c] + seen;
      }
    }
    assert b[0..] == b;
    return n >= 13 && n <= 19 && sum % 10 == 0;
  }

  method PythonTotal(u: Numerals, clean: string) returns (sum: Option<nat>)
    requires Python(u)
    ensures sum.None? <==> exists i | 0 <= i < |clean| :: u.value(clean[i]).None?
    ensures sum.Some? ==> sum.value == Checksum(InAscii(u, clean))
  {
    var n, total := |clean|, 0;
    for i := 0 to n
      invariant forall k | n - i <= k < n :: u.value(clean[k]).Some?
      invariant total == Checksum(InAscii(u, clean)[n - i..])
    {
      var value := u.value(clean[n - 1 - i]);
      if value.None? {
        return None;
      }
      AsciiStep(u, clean, n - 1 - i);
      NextParity(i + 1);
      var d: int := value.value;
      if i % 2 != 0 {
        d := d * 2;
        if d > 9 {
          d := d - 9;
        }
      }
      total := total + d;
    }
    assert InAscii(u, clean)[0..] == InAscii(u, clean);
    return Some(total);
  }

  /** Python: strip first, then double by the parity of the index into the reversed string. None: it raises. */
  method PythonLuhn(u: Numerals, digits: string) returns (ok: Option<bool>)
    requires Python(u)
    ensures ok == PythonVerdict(u, digits)
  {
    var clean := Without(Without(digits, ' '), '-');
    WithoutBoth(digits);
    var n := |clean|;
    if n < 13 || n > 19 || exists i | 0 <= i < n :: !u.isDigit(clean[i]) {
      return Some(false);
    }
    var total := PythonTotal(u, clean);
    return if total.None? then None else Some(total.value % 10 == 0);
  }

  /** PHP: strip first, then a toggle, with the digit test inside the loop. */
  method PhpLuhn(digits: string) returns (ok: bool)
    ensures ok == Valid(digits)
  {
    var clean := Strip(digits);
    var n := |clean|;
    if n < 13 || n > 19 {
      return false;
    }
    var sum := 0;
    var odd := true;
    var i := n - 1;
    while i >= 0
      invariant -1 <= i < n
      invariant AllDigits(clean[i + 1..])
      invariant odd == ((n - 1 - i) % 2 == 0)
      invariant sum == Checksum(clean[i + 1..])
      decreases i
    {
      if !IsDigit(clean[i]) {
        return false;
      }
      assert clean[i..][1..] == clean[i + 1..];
      NextParity(n - i);
      var d := (clean[i] - '0') as int;
      if !odd {
        d := d * 2;
        if d > 9 {
          d := d - 9;
        }
      }
      sum := sum + d;
      odd := !odd;
      i := i - 1;
    }
    assert clean[0..] == clean;
    return sum % 10 == 0;
  }

  /** Go and PHP agree on every string, and Python agrees with them wherever there is only ASCII. */
  method PortsAgree(u: Numerals, s: string) returns (go: bool, python: Option<bool>, php: bool)
    requires Python(u)
    ensures go == php
    ensures IsAscii(s) ==> python == Some(go)
  {
    go := GoLuhn(s);
    python := PythonLuhn(u, s);
    php := PhpLuhn(s);
    if IsAscii(s) {
      PythonOnAscii(u, s);
    }
  }

  /**
   The ports differ exactly on strings with a character outside ASCII and a card number's length
   of what `isdigit` takes for digits, when one of them has no value, so that `int` raises, or the
   number they denote passes the check.
   */
  lemma PythonDiffersIff(u: Numerals, s: string)
    requires Python(u)
    ensures PythonVerdict(u, s) != Some(Valid(s)) <==>
              var digits := Strip(s);
              && !IsAscii(s) && 13 <= |digits| <= 19 && (forall i | 0 <= i < |digits| :: u.isDigit(digits[i]))
              && ((exists i | 0 <= i < |digits| :: u.value(digits[i]).None?)
                  || Checksum(InAscii(u, digits)) % 10 == 0)
  {
    if IsAscii(s) {
      PythonOnAscii(u, s);
    } else {
      var i :| 0 <= i < |s| && s[i] as int >= 128;
      NonDigitSurvives(s, i);
    }
  }

  const ARABIC_ZERO := '\U{660}'

  lemma {:induction false} ZeroChecksum(s: string)
    requires forall i | 0 <= i < |s| :: s[i] == '0'
    ensures Checksum(s) == 0
  {
    if s != [] {
      ZeroChecksum(s[1..]);
    }
  }

  /** A number in Arabic-Indic zeros is a valid number to the Python port alone. */
  lemma PythonAcceptsOtherScripts(u: Numerals, s: string)
    requires Python(u) && u.isDigit(ARABIC_ZERO) && u.value(ARABIC_ZERO) == Some(0)
    requires 13 <= |s| <= 19 && forall i | 0 <= i < |s| :: s[i] == ARABIC_ZERO
    ensures PythonVerdict(u, s) == Some(true) && !Valid(s)
  {
    NonDigitSurvives(s, 0);
    StripNothing(s);
    ZeroChecksum(InAscii(u, s));
  }

  // ---------------------------------------------------------------------------------------
  // What the check detects (ISO/IEC 7812-1, Annex B)
  // ---------------------------------------------------------------------------------------

  /** Spaces and hyphens may be put anywhere, or taken out, without changing the verdict. */
  lemma SeparatorsDoNotMatter(a: string, sep: char, b: string)
    requires IsSeparator(sep)
    ensures Valid(a + [sep] + b) == Valid(a + b) == Valid(Strip(a + b))
  {
    StripConcat(a + [sep], b);
    StripConcat(a, [sep]);
    assert Strip([sep]) == [];
    assert Strip(a + [sep]) == Strip(a);
    StripConcat(a, b);
    StripClean(a + b);
  }

  lemma {:induction false} ChecksumUpdate(s: string, i: nat, c: char, doubled: bool)
    requires i < |s| && doubled == ((|s| - i) % 2 == 0)
    ensures Checksum(s[i := c]) + Weight(DigitValue(s[i]), doubled) == Checksum(s) + Weight(DigitValue(c), doubled)
  {
    if i == 0 {
      assert s[i := c][1..] == s[1..];
    } else {
      ChecksumUpdate(s[1..], i - 1, c, doubled);
      assert s[i := c][1..] == s[1..][i - 1 := c];
    }
  }

  /** The digit that completes `prefix`. */
  function CheckDigit(prefix: string): char {
    var r := Checksum(prefix + "0") % 10;
    '0' + ((10 - r) % 10) as char
  }

  lemma OneResidue(sum: nat, d: nat)
    requires d <= 9
    ensures (sum + d) % 10 == 0 <==> d == (10 - sum % 10) % 10
  {
  }

  /** Every digit prefix of an accepted length has exactly one valid check digit. */
  lemma CheckDigitExistsAndIsUnique(prefix: string, c: char)
    requires AllDigits(prefix) && 12 <= |prefix| <= 18
    ensures IsDigit(CheckDigit(prefix))
    ensures IsDigit(c) ==> (Valid(prefix + [c]) <==> c == CheckDigit(prefix))
  {
    if IsDigit(c) {
      StripNothing(prefix + [c]);
      assert (prefix + "0")[|prefix| := c] == prefix + [c];
      ChecksumUpdate(prefix + "0", |prefix|, c, false);
      OneResidue(Checksum(prefix + "0"), DigitValue(c));
    }
  }

  lemma WeightsDiffer(a: nat, b: nat, doubled: bool)
    requires a <= 9 && b <= 9 && a != b
    ensures Weight(a, doubled) <= 9 && Weight(b, doubled) <= 9 && Weight(a, doubled) != Weight(b, doubled)
  {
  }

  /** Sums that differ by less than ten are both multiples of ten only when they are equal. */
  lemma SameResidue(x: nat, w: nat, x': nat, w': nat)
    requires x' + w == x + w' && x % 10 == 0 && -10 < w - w' < 10
    ensures x' % 10 == 0 <==> w == w'
  {
    if x' % 10 == 0 {
      assert x' - x == 10 * (x' / 10 - x / 10);
    }
  }

  /** Changing any one digit of a valid number, separated or not, makes it invalid. */
  lemma SingleDigitErrorDetected(s: string, i: nat, c: char)
    requires Valid(s)
    requires i < |s| && !IsSeparator(s[i]) && IsDigit(c) && c != s[i]
    ensures !Valid(s[i := c])
  {
    StripUpdate(s, i, c);
    var j := |Strip(s[..i])|;
    var digits := Strip(s);
    assert IsDigit(digits[j]);
    var doubled := (|digits| - j) % 2 == 0;
    ChecksumUpdate(digits, j, c, doubled);
    WeightsDiffer(DigitValue(s[i]), DigitValue(c), doubled);
    SameResidue(Checksum(digits), Weight(DigitValue(s[i]), doubled),
                Checksum(digits[j := c]), Weight(DigitValue(c), doubled));
  }

  lemma {:induction false} StripSeparators(s: string)
    requires forall k | 0 <= k < |s| :: IsSeparator(s[k])
    ensures Strip(s) == []
  {
    if s != [] {
      StripSeparators(s[1..]);
    }
  }

  /** Separators do not come between digits. */
  lemma NextDigit(s: string, i: nat, j: nat)
    requires i < j <= |s| && !IsSeparator(s[i]) && forall k | i < k < j :: IsSeparator(s[k])
    ensures |Strip(s[..j])| == |Strip(s[..i])| + 1
  {
    StripAround(s[..j], i);
    assert s[..j][..i] == s[..i];
    StripSeparators(s[..j][i + 1..]);
  }

  function PairWeight(left: char, right: char, leftDoubled: bool): nat {
    Weight(DigitValue(left), leftDoubled) + Weight(DigitValue(right), !leftDoubled)
  }

  lemma ChecksumSwap(s: string, i: nat)
    requires i + 1 < |s|
    ensures Checksum(s[i := s[i + 1]][i + 1 := s[i]]) + PairWeight(s[i], s[i + 1], (|s| - i) % 2 == 0)
         == Checksum(s) + PairWeight(s[i + 1], s[i], (|s| - i) % 2 == 0)
  {
    var t := s[i := s[i + 1]];
    var doubled := (|s| - i) % 2 == 0;
    assert |t| == |s| && t[i + 1] == s[i + 1];
    NextParity(|s| - i);
    ChecksumUpdate(s, i, s[i + 1], doubled);
    ChecksumUpdate(t, i + 1, s[i], !doubled);
  }

  lemma SwapWeights(a: nat, b: nat, p: bool)
    requires a <= 9 && b <= 9 && a != b
    ensures -10 < (Weight(a, p) + Weight(b, !p)) - (Weight(b, p) + Weight(a, !p)) < 10
    ensures Weight(a, p) + Weight(b, !p) == Weight(b, p) + Weight(a, !p)
       <==> (a == 0 && b == 9) || (a == 9 && b == 0)
  {
  }

  lemma BareSwapDetected(s: string, i: nat)
    requires AllDigits(s) && Valid(s)
    requires i + 1 < |s| && s[i] != s[i + 1]
    ensures Valid(s[i := s[i + 1]][i + 1 := s[i]])
       <==> (s[i] == '0' && s[i + 1] == '9') || (s[i] == '9' && s[i + 1] == '0')
  {
    var t := s[i := s[i + 1]];
    var u := t[i + 1 := s[i]];
    StripNothing(s);
    StripNothing(u);
    ChecksumSwap(s, i);
    var p := (|s| - i) % 2 == 0;
    var x, y := DigitValue(s[i]), DigitValue(s[i + 1]);
    SwapWeights(x, y, p);
    SameResidue(Checksum(s), Weight(x, p) + Weight(y, !p), Checksum(u), Weight(y, p) + Weight(x, !p));
  }

  /**
   Swapping two neighbouring, different digits of a valid number goes unnoticed exactly for 0 and
   9, also when separators stand between them.
   */
  lemma AdjacentSwapDetected(s: string, i: nat, j: nat)
    requires Valid(s) && i < j < |s| && !IsSeparator(s[i]) && !IsSeparator(s[j]) && s[i] != s[j]
    requires forall k | i < k < j :: IsSeparator(s[k])
    ensures Valid(s[i := s[j]][j := s[i]]) <==> (s[i] == '0' && s[j] == '9') || (s[i] == '9' && s[j] == '0')
  {
    var u := s[i := s[j]];
    var v := u[j := s[i]];
    var digits, a := Strip(s), |Strip(s[..i])|;
    StripUpdate(s, i, s[j]);
    StripUpdate(u, j, s[i]);
    NextDigit(u, i, j);
    assert u[..i] == s[..i];
    assert Strip(v) == digits[a := digits[a + 1]][a + 1 := digits[a]];
    StripClean(s);
    StripClean(v);
    BareSwapDetected(digits, a);
  }
}
