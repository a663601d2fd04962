/**
 * The five free-text secret patterns of the redactor and JavaScript's global
 * `String.prototype.replace` over them.
 *
 * Each pattern is `KEYWORD["\s]*[:=]["\s]*([^"\s,}]+)` with the flags `gi`.
 * Instead of a regular-expression engine, each pattern is a hand-written
 * matcher that reads a string from its first character and says whether, and
 * where, a match starting there ends. Because `["\s]` can match neither `:`,
 * `=` nor a value character, the backtracking engine has only one way to
 * match at a given start, and the greedy runs below are exactly what it finds.
 */
module Patterns {
  import opened Wrappers
  import opened Text

  datatype Pattern = Password | Secret | Token | ApiKey | Auth

  /** The patterns in the order the redactor applies them. */
  const SecretPatterns: seq<Pattern> := [Password, Secret, Token, ApiKey, Auth]

  /** The fixed replacement text. */
  const Marker: string := "***REDACTED***"

  /** A match found at the start of a string: the captured value is `[valueStart, valueEnd)`. */
  datatype Match = Match(valueStart: nat, valueEnd: nat)

  /** The lower-case text every keyword of the pattern begins with. */
  function Stem(p: Pattern): (w: string)
    ensures |w| >= 3 && IsLowerLetter(w[0]) && IsLowerLetter(w[1])
  {
    match p
    case Password => "password"
    case Secret => "secret"
    case Token => "token"
    case ApiKey => "api"
    case Auth => "auth"
  }

  /** `["\s]`: a quote or a white-space character. */
  predicate IsSep(c: char) {
    c == '"' || IsSpace(c)
  }

  /** `[:=]` */
  predicate IsAssign(c: char) {
    c == ':' || c == '='
  }

  /** `[^"\s,}]`: a character the captured value may contain. */
  predicate IsValueChar(c: char) {
    !IsSep(c) && c != ',' && c != '}'
  }

  predicate IsSepOrAssign(c: char) {
    IsSep(c) || IsAssign(c)
  }

  /** Characters a keyword is spelled with. */
  predicate IsKeywordChar(c: char) {
    IsLetter(c) || c == '_' || c == '-'
  }

  /**
   * The length of the keyword of `p` at the start of `u`, if there is one.
   * `api[_-]?key` first tries to take the optional separator, then backs off.
   */
  function KeywordLen(p: Pattern, u: string): (r: Option<nat>)
    ensures r.Some? ==> 3 <= r.value <= |u|
    ensures r.Some? ==> Lower(u[0]) == Stem(p)[0] && Lower(u[1]) == Stem(p)[1]
  {
    match p
    case ApiKey =>
      if !WordAtCI(u, 0, "api") then None
      else if 3 < |u| && (u[3] == '_' || u[3] == '-') && WordAtCI(u, 4, "key") then Some(7)
      else if WordAtCI(u, 3, "key") then Some(6)
      else None
    case _ =>
      if WordAtCI(u, 0, Stem(p)) then Some(|Stem(p)|) else None
  }

  /**
   * A keyword is spelled with letters, `_` and `-`, and past its first
   * character no letter of it folds to the stem's first letter.
   */
  lemma KeywordChars(p: Pattern, u: string)
    requires KeywordLen(p, u).Some?
    ensures forall t :: 0 <= t < KeywordLen(p, u).value ==> IsKeywordChar(u[t])
    ensures forall t :: 0 < t < KeywordLen(p, u).value ==> Lower(u[t]) != Stem(p)[0]
  {
    var k := KeywordLen(p, u).value;
    var w := if p == ApiKey then (if k == 7 then "api" + [u[3]] + "key" else "apikey") else Stem(p);
    assert |w| == k;
    forall t | 0 <= t < k ensures Lower(u[t]) == Lower(w[t]) {
      if p == ApiKey && t >= 3 {
        if k == 7 && t >= 4 {
          assert Lower(u[4 + (t - 4)]) == "key"[t - 4];
        } else if k == 6 {
          assert Lower(u[3 + (t - 3)]) == "key"[t - 3];
        }
      }
    }
    forall t | 0 <= t < k ensures IsKeywordChar(u[t]) && (t > 0 ==> Lower(u[t]) != Stem(p)[0]) {
      if !IsLetter(u[t]) {
        assert Lower(u[t]) == u[t];
      }
    }
  }

  /** The length of the greedy run `["\s]*` that starts at offset `k` of `u`. */
  function SepRun(u: string, k: nat): (n: nat)
    requires k <= |u|
    ensures k + n <= |u|
    decreases |u| - k
  {
    if k < |u| && IsSep(u[k]) then 1 + SepRun(u, k + 1) else 0
  }

  /** The length of the greedy run `[^"\s,}]*` that starts at offset `k` of `u`. */
  function ValueRun(u: string, k: nat): (n: nat)
    requires k <= |u|
    ensures k + n <= |u|
    decreases |u| - k
  {
    if k < |u| && IsValueChar(u[k]) then 1 + ValueRun(u, k + 1) else 0
  }

  /** The separator run from `k` is all separators and stops at a non-separator. */
  lemma {:induction false} SepRunFrom(u: string, k: nat)
    requires k <= |u|
    ensures forall t :: k <= t < k + SepRun(u, k) ==> IsSep(u[t])
    ensures k + SepRun(u, k) < |u| ==> !IsSep(u[k + SepRun(u, k)])
    decreases |u| - k
  {
    if k < |u| && IsSep(u[k]) {
      SepRunFrom(u, k + 1);
    }
  }

  /** The value run from `k` is all value characters and stops at another character. */
  lemma {:induction false} ValueRunFrom(u: string, k: nat)
    requires k <= |u|
    ensures forall t :: k <= t < k + ValueRun(u, k) ==> IsValueChar(u[t])
    ensures k + ValueRun(u, k) < |u| ==> !IsValueChar(u[k + ValueRun(u, k)])
    decreases |u| - k
  {
    if k < |u| && IsValueChar(u[k]) {
      ValueRunFrom(u, k + 1);
    }
  }

  /** A maximal run is determined by where it stops. */
  lemma {:induction false} SepRunIs(u: string, k: nat, n: nat)
    requires k + n <= |u|
    requires forall t :: k <= t < k + n ==> IsSep(u[t])
    requires k + n < |u| ==> !IsSep(u[k + n])
    ensures SepRun(u, k) == n
    decreases n
  {
    if n > 0 {
      SepRunIs(u, k + 1, n - 1);
    }
  }

  lemma {:induction false} ValueRunIs(u: string, k: nat, n: nat)
    requires k + n <= |u|
    requires forall t :: k <= t < k + n ==> IsValueChar(u[t])
    requires k + n < |u| ==> !IsValueChar(u[k + n])
    ensures ValueRun(u, k) == n
    decreases n
  {
    if n > 0 {
      ValueRunIs(u, k + 1, n - 1);
    }
  }

  /** The value run from offset `k` of `u` is the value run at the start of `u[k..]`. */
  lemma ValueRunShift(u: string, k: nat)
    requires k <= |u|
    ensures ValueRun(u[k..], 0) == ValueRun(u, k)
  {
    var n := ValueRun(u, k);
    var v := u[k..];
    ValueRunFrom(u, k);
    forall t | 0 <= t < n ensures IsValueChar(v[t]) {
      assert v[t] == u[k + t];
    }
    if n < |v| {
      assert v[n] == u[k + n];
    }
    ValueRunIs(v, 0, n);
  }

  /** Quote, white space, `:` and `=` are not letters, so lower-casing leaves them alone. */
  lemma SepOrAssignIsNotLetter(c: char)
    requires IsSepOrAssign(c)
    ensures !IsLetter(c) && Lower(c) == c && c != '*'
  {
  }

  /**
   * Where the captured value would start when a keyword ends at `k`: past
   * `["\s]*`, then `[:=]`, then `["\s]*`.
   */
  function HeadFrom(u: string, k: nat): (r: Option<nat>)
    requires k <= |u|
    ensures r.Some? ==> k < r.value <= |u|
  {
    var i := k + SepRun(u, k);
    if i < |u| && IsAssign(u[i]) then Some(i + 1 + SepRun(u, i + 1)) else None
  }

  /**
   * The length of the part of a match before its captured value, when the
   * start of `u` has the keyword of `p`, then `["\s]*`, then `[:=]`, then
   * `["\s]*`.
   */
  function HeadLen(p: Pattern, u: string): (r: Option<nat>)
    ensures r.Some? ==> KeywordLen(p, u).Some? && KeywordLen(p, u).value < r.value <= |u|
  {
    match KeywordLen(p, u)
    case None => None
    case Some(k) => HeadFrom(u, k)
  }

  /**
   * Past the keyword, every character of a match head is a quote, a white
   * space, `:` or `=`, and the head is followed by something else.
   */
  lemma HeadSeps(u: string, k: nat)
    requires k <= |u| && HeadFrom(u, k).Some?
    ensures forall t :: k <= t < HeadFrom(u, k).value ==> IsSepOrAssign(u[t])
    ensures HeadFrom(u, k).value < |u| ==> !IsSep(u[HeadFrom(u, k).value])
  {
    var i := k + SepRun(u, k);
    assert i < |u| && IsAssign(u[i]);
    var j := i + 1 + SepRun(u, i + 1);
    assert HeadFrom(u, k) == Some(j);
    SepRunFrom(u, k);
    SepRunFrom(u, i + 1);
    forall t | k <= t < j ensures IsSepOrAssign(u[t]) {
      if t < i {
        assert IsSep(u[t]);
      } else if i < t {
        assert IsSep(u[t]);
      }
    }
  }

  /**
   * So no character of a match head is `*`, its last one is a separator, and
   * past the first one none folds to the stem's first letter: a second match
   * of the same pattern cannot start inside the head of a first.
   */
  lemma HeadChars(p: Pattern, u: string)
    requires HeadLen(p, u).Some?
    ensures IsSepOrAssign(u[HeadLen(p, u).value - 1])
    ensures forall t :: 0 <= t < HeadLen(p, u).value ==> u[t] != '*'
    ensures forall t :: 0 < t < HeadLen(p, u).value ==> Lower(u[t]) != Stem(p)[0]
  {
    var j := HeadLen(p, u).value;
    var k := KeywordLen(p, u).value;
    HeadSeps(u, k);
    KeywordChars(p, u);
    forall t | 0 <= t < j ensures u[t] != '*' && (t > 0 ==> Lower(u[t]) != Stem(p)[0]) {
      if t >= k {
        SepOrAssignIsNotLetter(u[t]);
      }
    }
  }

  /**
   * The match of `p` that starts at the first character of `u`, if any: a
   * head followed by a non-empty captured value, the longest run of value
   * characters after the head.
   */
  function MatchAt(p: Pattern, u: string): (r: Option<Match>)
    ensures r.Some? ==> r.value.valueStart < r.value.valueEnd <= |u|
  {
    match HeadLen(p, u)
    case None => None
    case Some(j) => CaptureFrom(u, j)
  }

  /** `([^"\s,}]+)` from `j`: the longest non-empty run of value characters there. */
  function CaptureFrom(u: string, j: nat): (r: Option<Match>)
    requires j <= |u|
    ensures r.Some? ==> r.value.valueStart == j < r.value.valueEnd <= |u|
  {
    var e := j + ValueRun(u, j);
    if j < e then Some(Match(j, e)) else None
  }

  /**
   * A match starts its capture right after the head, and the capture is
   * all value characters and stops at the end of `u` or at a character
   * that cannot be in a value.
   */
  lemma MatchFacts(p: Pattern, u: string)
    requires MatchAt(p, u).Some?
    ensures var m := MatchAt(p, u).value;
      && HeadLen(p, u) == Some(m.valueStart)
      && m.valueEnd == m.valueStart + ValueRun(u, m.valueStart)
      && (forall t :: m.valueStart <= t < m.valueEnd ==> IsValueChar(u[t]))
      && (m.valueEnd < |u| ==> !IsValueChar(u[m.valueEnd]))
  {
    ValueRunFrom(u, HeadLen(p, u).value);
  }

  /**
   * A regular expression as a global replace sees it: the match, if any,
   * that starts at the first character of a string.
   */
  type Matcher = string -> Option<Match>

  /** The matcher of pattern `p`. */
  function MatcherOf(p: Pattern): Matcher {
    u => MatchAt(p, u)
  }

  /** Every match lies inside the string and captures at least one character. */
  ghost predicate Bounded(m: Matcher) {
    forall u :: m(u).Some? ==> m(u).value.valueStart < m(u).value.valueEnd <= |u|
  }

  lemma PatternBounded(p: Pattern)
    ensures Bounded(MatcherOf(p))
  {
  }

  /**
   * JavaScript's `text.replace(pattern, f)` for a global pattern: matches are
   * looked for from left to right, each match `m` with captured value `c` is
   * replaced by `f(m, c)`, and the search resumes after the match.
   */
  function GlobalReplace(m: Matcher, s: string, f: (string, string) -> string): string
    requires Bounded(m)
    decreases |s|
  {
    if s == [] then []
    else match m(s)
      case Some(mt) => f(s[..mt.valueEnd], s[mt.valueStart..mt.valueEnd]) + GlobalReplace(m, s[mt.valueEnd..], f)
      case None => [s[0]] + GlobalReplace(m, s[1..], f)
  }

  /** The first position at which `w` occurs in `s`, as `String.prototype.indexOf` finds it. */
  function IndexOf(s: string, w: string): (r: Option<nat>)
    ensures r.Some? ==> OccursAt(s, w, r.value)
    ensures r.Some? ==> forall i :: 0 <= i < r.value ==> !OccursAt(s, w, i)
    ensures r.None? ==> forall i :: 0 <= i <= |s| - |w| ==> !OccursAt(s, w, i)
    decreases |s|
  {
    if |s| < |w| then None
    else if s[..|w|] == w then
      assert s[0..|w|] == s[..|w|];
      Some(0)
    else match IndexOf(s[1..], w)
      case None =>
        forall i | 0 <= i <= |s| - |w| ensures !OccursAt(s, w, i) {
          if i > 0 { OccursShift(s, w, i); }
          else { assert s[0..|w|] == s[..|w|]; }
        }
        None
      case Some(i) =>
        OccursShift(s, w, i + 1);
        forall j | 0 <= j < i + 1 ensures !OccursAt(s, w, j) {
          if j > 0 { OccursShift(s, w, j); }
          else { assert s[0..|w|] == s[..|w|]; }
        }
        Some(i + 1)
  }

  /** An occurrence past the first character is an occurrence in the tail. */
  lemma OccursShift(s: string, w: string, i: int)
    requires s != [] && 1 <= i
    ensures OccursAt(s, w, i) <==> OccursAt(s[1..], w, i - 1)
  {
    if i + |w| <= |s| {
      var a, b := s[i..i + |w|], s[1..][i - 1..i - 1 + |w|];
      assert |a| == |b|;
      forall t | 0 <= t < |a| ensures a[t] == b[t] {
        assert a[t] == s[i + t];
        assert b[t] == s[1..][i - 1 + t];
      }
      assert a == b;
    }
  }

  /** `s.replace(w, rep)` with a string pattern: only the first occurrence is replaced. */
  function ReplaceFirst(s: string, w: string, rep: string): (r: string)
    ensures IndexOf(s, w).None? ==> r == s
    ensures IndexOf(s, w).Some? ==> StartsWith(r, s[..IndexOf(s, w).value] + rep)
    ensures IndexOf(s, w).Some? ==>
      var i := IndexOf(s, w).value;
      |r| == |s| - |w| + |rep| && r[i + |rep|..] == s[i + |w|..]
  {
    match IndexOf(s, w)
    case None => s
    case Some(i) =>
      assert (s[..i] + rep + s[i + |w|..])[..i + |rep|] == s[..i] + rep;
      s[..i] + rep + s[i + |w|..]
  }

  /**
   * The replacement callback as written: `match.replace(capture, marker)`,
   * which replaces the first occurrence of the captured text anywhere in the
   * match, possibly inside the keyword.
   */
  function RedactCaptureAsWritten(m: string, c: string): string {
    ReplaceFirst(m, c, Marker)
  }

  /**
   * The replacement callback as intended: the captured value, which always
   * ends the match, is what gets replaced; the keyword and the separator stay.
   */
  function RedactCapture(m: string, c: string): string {
    if |c| <= |m| then m[..|m| - |c|] + Marker else Marker
  }

  /** Applies the patterns one after the other, each globally, to the text. */
  function ApplyPatterns(ps: seq<Pattern>, s: string, f: (string, string) -> string): string
    decreases |ps|
  {
    if ps == [] then s
    else
      PatternBounded(ps[|ps| - 1]);
      GlobalReplace(MatcherOf(ps[|ps| - 1]), ApplyPatterns(ps[..|ps| - 1], s, f), f)
  }

  /** `redactSecrets` as the source writes it. */
  function RedactSecretsAsWritten(text: string): string {
    ApplyPatterns(SecretPatterns, text, RedactCaptureAsWritten)
  }

  /** `redactSecrets` with the intended callback; the rest of the model uses this one. */
  function RedactedText(text: string): string {
    ApplyPatterns(SecretPatterns, text, RedactCapture)
  }
}
