/**
 * What the free-text redactor achieves, proved for the intended callback
 * (`RedactCapture`):
 *
 *  - `Refines`: one global replacement changes nothing but captured values,
 *    each of which becomes the marker;
 *  - `Clean`: afterwards no match of the pattern, anywhere in the text,
 *    captures anything but the marker, and later patterns keep it that way,
 *    so the redacted text has no keyword-and-value pair left in clear for any
 *    of the five patterns.
 *
 * The replacement proofs are about any matcher with the `MatcherFacts` of a
 * pattern; `PatternFacts` shows that each pattern's own matcher has them.
 *
 * It also exhibits, for the callback as written (`RedactCaptureAsWritten`),
 * an input whose secret survives while its keyword is destroyed.
 */
module RedactionProofs {
  import opened Wrappers
  import opened Text
  import opened Patterns

  // ---------------------------------------------------------------------
  // What is proved
  // ---------------------------------------------------------------------

  /** A match at the start of `u`, if any, captures exactly the marker. */
  ghost predicate CaptureOk(m: Matcher, u: string) {
    match m(u)
    case None => true
    case Some(mt) => mt.valueStart <= mt.valueEnd <= |u| && u[mt.valueStart..mt.valueEnd] == Marker
  }

  /** No match anywhere in `s` captures anything but the marker. */
  ghost predicate Clean(m: Matcher, s: string) {
    forall j :: 0 <= j <= |s| ==> CaptureOk(m, s[j..])
  }

  /** Whether the character before the rest of the text is a quote, a space, `:` or `=`. */
  function AfterSep(a: string, prev: bool): bool {
    if a == [] then prev else IsSepOrAssign(a[|a| - 1])
  }

  /**
   * `y` is `x` with some of its value runs replaced by the marker: each
   * replaced run directly follows a quote, a space, `:` or `=` (`afterSep`
   * says whether the character before `x` is one) and is a longest run of
   * value characters. Everything else is copied.
   */
  predicate Refines(x: string, y: string, afterSep: bool)
    decreases |x|, 1
  {
    (x == [] && y == []) || CopyStep(x, y) || RedactStep(x, y, afterSep)
  }

  /** The first character is copied. */
  predicate CopyStep(x: string, y: string)
    decreases |x|, 0
  {
    x != [] && y != [] && x[0] == y[0] && Refines(x[1..], y[1..], IsSepOrAssign(x[0]))
  }

  /** The value run at the start is replaced by the marker. */
  predicate RedactStep(x: string, y: string, afterSep: bool)
    decreases |x|, 0
  {
    afterSep && ValueRun(x, 0) > 0 && |Marker| <= |y| && y[..|Marker|] == Marker
    && Refines(x[ValueRun(x, 0)..], y[|Marker|..], false)
  }

  // ---------------------------------------------------------------------
  // The facts about a pattern's matcher that the proofs use
  // ---------------------------------------------------------------------

  /**
   * The shape of a match of pattern `p` at the start of `u`: it begins with
   * the first two letters of the stem; its head has no `*`, ends with a
   * quote, a space, `:` or `=`, and past its first character has no letter
   * folding to the stem's first letter; its capture is the whole value run
   * after the head.
   */
  ghost predicate Shape(p: Pattern, u: string, mt: Match) {
    && 3 < mt.valueStart < mt.valueEnd <= |u|
    && Lower(u[0]) == Stem(p)[0] && Lower(u[1]) == Stem(p)[1]
    && IsSepOrAssign(u[mt.valueStart - 1])
    && (forall t :: 0 <= t < mt.valueStart ==> u[t] != '*')
    && (forall t :: 0 < t < mt.valueStart ==> Lower(u[t]) != Stem(p)[0])
    && mt.valueEnd == mt.valueStart + ValueRun(u, mt.valueStart)
  }

  /** `x` agrees with `u` before `n` and has a value character at `n`. */
  ghost predicate ExtendsHead(x: string, u: string, n: nat) {
    n < |x| && n <= |u| && (forall t :: 0 <= t < n ==> x[t] == u[t]) && IsValueChar(x[n])
  }

  /** Every match of `m` has the shape of a match of `p`. */
  ghost predicate ShapeFacts(p: Pattern, m: Matcher) {
    forall u :: m(u).Some? ==> Shape(p, u, m(u).value)
  }

  /** If `x` extends the head of a match of `m` at the start of `u`, `m` matches `x` at the same place. */
  ghost predicate PrefixAt(m: Matcher, u: string, x: string) {
    m(u).Some? && ExtendsHead(x, u, m(u).value.valueStart) ==>
      m(x) == Some(Match(m(u).value.valueStart, m(u).value.valueStart + ValueRun(x, m(u).value.valueStart)))
  }

  /** A match of `m` depends only on its head and on the value run after it. */
  ghost predicate PrefixFacts(m: Matcher) {
    forall u, x :: PrefixAt(m, u, x)
  }

  /** What the replacement proofs know of the matcher of pattern `p`. */
  ghost predicate MatcherFacts(p: Pattern, m: Matcher) {
    Bounded(m) && ShapeFacts(p, m) && PrefixFacts(m)
  }

  /** The keyword test reads no further than the keyword it finds. */
  lemma KeywordLenPrefix(p: Pattern, u: string, v: string, n: nat)
    requires KeywordLen(p, u).Some? && KeywordLen(p, u).value <= n
    requires n <= |u| && n <= |v|
    requires forall t :: 0 <= t < n ==> u[t] == v[t]
    ensures KeywordLen(p, v) == KeywordLen(p, u)
  {
    var k := KeywordLen(p, u).value;
    if p == ApiKey {
      assert WordAtCI(v, 0, "api") by {
        assert WordAtCI(u, 0, "api");
      }
      if k == 7 {
        assert 3 < |u| && (u[3] == '_' || u[3] == '-') && WordAtCI(u, 4, "key");
      } else {
        assert WordAtCI(u, 3, "key");
        assert u[3] == v[3] && Lower(u[3 + 0]) == "key"[0];
      }
    } else {
      assert WordAtCI(u, 0, Stem(p));
      assert WordAtCI(v, 0, Stem(p));
    }
  }

  /** Two texts that agree before `m`, where a separator run of `y` from `k` stops, have the same run from `k`. */
  lemma SepRunSame(x: string, y: string, k: nat, m: nat)
    requires k <= m < |x| && m <= |y|
    requires forall t :: k <= t < m ==> x[t] == y[t]
    requires m == k + SepRun(y, k)
    requires !IsSep(x[m])
    ensures SepRun(x, k) == SepRun(y, k)
  {
    SepRunFrom(y, k);
    SepRunIs(x, k, m - k);
  }

  /** The head after a keyword depends only on its own characters and on the one after it. */
  lemma HeadFromPrefix(x: string, y: string, k: nat, vs: nat)
    requires k <= |y| && HeadFrom(y, k) == Some(vs)
    requires vs < |x| && vs <= |y|
    requires forall t :: 0 <= t < vs ==> x[t] == y[t]
    requires !IsSep(x[vs])
    ensures HeadFrom(x, k) == Some(vs)
  {
    var i := k + SepRun(y, k);
    assert i < |y| && IsAssign(y[i]) && vs == i + 1 + SepRun(y, i + 1);
    SepRunSame(x, y, k, i);
    SepRunSame(x, y, i + 1, vs);
    assert x[i] == y[i];
  }

  /** The head of a match depends only on its own characters and on the one after it. */
  lemma HeadLenPrefix(p: Pattern, x: string, y: string, vs: nat)
    requires HeadLen(p, y) == Some(vs)
    requires vs < |x| && vs <= |y|
    requires forall t :: 0 <= t < vs ==> x[t] == y[t]
    requires !IsSep(x[vs])
    ensures HeadLen(p, x) == Some(vs)
  {
    var k := KeywordLen(p, y).value;
    assert HeadFrom(y, k) == Some(vs);
    assert KeywordLen(p, x) == Some(k) by {
      KeywordLenPrefix(p, y, x, vs);
    }
    HeadFromPrefix(x, y, k, vs);
  }

  /** A match of pattern `p` has the shape of one. */
  lemma MatchShape(p: Pattern, u: string)
    requires MatchAt(p, u).Some?
    ensures Shape(p, u, MatchAt(p, u).value)
  {
    MatchFacts(p, u);
    HeadChars(p, u);
  }

  /** A match of pattern `p` depends only on its head and on the value run after it. */
  lemma MatchAtPrefix(p: Pattern, x: string, y: string, vs: nat)
    requires HeadLen(p, y) == Some(vs)
    requires ExtendsHead(x, y, vs)
    ensures MatchAt(p, x) == Some(Match(vs, vs + ValueRun(x, vs)))
  {
    HeadLenPrefix(p, x, y, vs);
    MatchAtFromHead(p, x, vs);
  }

  lemma MatchAtFromHead(p: Pattern, u: string, j: nat)
    requires HeadLen(p, u) == Some(j)
    ensures MatchAt(p, u) == CaptureFrom(u, j)
  {
  }

  lemma MatcherOfIs(p: Pattern, u: string)
    ensures MatcherOf(p)(u) == MatchAt(p, u)
  {
  }

  lemma PatternShapes(p: Pattern)
    ensures ShapeFacts(p, MatcherOf(p))
  {
    forall u | MatcherOf(p)(u).Some? ensures Shape(p, u, MatcherOf(p)(u).value) {
      MatchShape(p, u);
    }
  }

  lemma PatternPrefixes(p: Pattern)
    ensures PrefixFacts(MatcherOf(p))
  {
    forall u, x ensures PrefixAt(MatcherOf(p), u, x) {
      PatternPrefixAt(p, u, x);
    }
  }

  lemma PatternPrefixAt(p: Pattern, u: string, x: string)
    ensures PrefixAt(MatcherOf(p), u, x)
  {
    MatcherOfIs(p, u);
    MatcherOfIs(p, x);
    if MatchAt(p, u).Some? && ExtendsHead(x, u, MatchAt(p, u).value.valueStart) {
      MatchExtends(p, u, x);
    }
  }

  lemma MatchExtends(p: Pattern, u: string, x: string)
    requires MatchAt(p, u).Some? && ExtendsHead(x, u, MatchAt(p, u).value.valueStart)
    ensures var vs := MatchAt(p, u).value.valueStart;
      MatchAt(p, x) == Some(Match(vs, vs + ValueRun(x, vs)))
  {
    MatchFacts(p, u);
    MatchAtPrefix(p, x, u, MatchAt(p, u).value.valueStart);
  }

  /** Each pattern's matcher has the facts the replacement proofs use. */
  lemma PatternFacts(p: Pattern)
    ensures MatcherFacts(p, MatcherOf(p))
  {
    PatternBounded(p);
    PatternShapes(p);
    PatternPrefixes(p);
  }

  // ---------------------------------------------------------------------
  // The marker
  // ---------------------------------------------------------------------

  lemma MarkerChars()
    ensures |Marker| == 14
    ensures forall t :: 0 <= t < |Marker| ==> Marker[t] == '*' || IsUpperLetter(Marker[t])
    ensures Marker[0] == '*' && Marker[|Marker| - 1] == '*'
  {
  }

  /** No two neighbouring letters of the marker spell the start of a stem. */
  lemma NoStemPairInMarker(p: Pattern)
    ensures forall t :: 0 <= t < |Marker| - 1 ==> !(Lower(Marker[t]) == Stem(p)[0] && Lower(Marker[t + 1]) == Stem(p)[1])
  {
  }

  /** No match starts anywhere inside the marker, whatever follows it. */
  lemma NoMatchInMarker(p: Pattern, m: Matcher, t: nat, rest: string)
    requires MatcherFacts(p, m)
    requires t < |Marker|
    ensures m(Marker[t..] + rest).None?
  {
    var u := Marker[t..] + rest;
    MarkerChars();
    NoStemPairInMarker(p);
    assert u[0] == Marker[t];
    if t + 1 < |Marker| {
      assert u[1] == Marker[t + 1];
    }
    assert !(|u| >= 2 && Lower(u[0]) == Stem(p)[0] && Lower(u[1]) == Stem(p)[1]);
  }

  /** No match starts inside a marker, whatever surrounds it. */
  lemma MarkerPositionsOk(p: Pattern, m: Matcher, pre: string, rest: string)
    requires MatcherFacts(p, m)
    ensures forall j :: |pre| <= j < |pre| + |Marker| ==> CaptureOk(m, (pre + Marker + rest)[j..])
  {
    MarkerChars();
    forall j | |pre| <= j < |pre| + |Marker| ensures CaptureOk(m, (pre + Marker + rest)[j..]) {
      SuffixFromMiddle(pre, Marker, rest, j);
      NoMatchInMarker(p, m, j - |pre|, rest);
    }
  }

  /** A suffix that starts inside the middle part of a concatenation. */
  lemma SuffixFromMiddle(a: string, b: string, c: string, j: nat)
    requires |a| <= j <= |a| + |b|
    ensures (a + b + c)[j..] == b[j - |a|..] + c
  {
  }

  // ---------------------------------------------------------------------
  // One global replacement only replaces captured values
  // ---------------------------------------------------------------------

  lemma {:induction false} RefinesPrefix(a: string, x: string, y: string, prev: bool)
    requires Refines(x, y, AfterSep(a, prev))
    ensures Refines(a + x, a + y, prev)
    decreases |a|
  {
    if a != [] {
      var a' := a[1..];
      assert AfterSep(a', IsSepOrAssign(a[0])) == AfterSep(a, prev) by {
        if a' != [] {
          assert a'[|a'| - 1] == a[|a| - 1];
        }
      }
      RefinesPrefix(a', x, y, IsSepOrAssign(a[0]));
      var ax, ay := a + x, a + y;
      assert ax[1..] == a' + x;
      assert ay[1..] == a' + y;
      assert ax[0] == a[0] && ay[0] == a[0];
      assert CopyStep(ax, ay);
    } else {
      assert a + x == x && a + y == y;
    }
  }

  /** Replacing a value run that follows a separator by the marker is a refinement. */
  lemma RefinesAfterMatch(s: string, vs: nat, e: nat, rest: string, prev: bool)
    requires 0 < vs < e <= |s|
    requires IsSepOrAssign(s[vs - 1])
    requires ValueRun(s, vs) == e - vs
    requires Refines(s[e..], rest, false)
    ensures Refines(s, s[..vs] + Marker + rest, prev)
  {
    var x := s[vs..];
    var y := Marker + rest;
    ValueRunShift(s, vs);
    assert x[ValueRun(x, 0)..] == s[e..];
    assert y[..|Marker|] == Marker && y[|Marker|..] == rest;
    assert RedactStep(x, y, true);
    assert AfterSep(s[..vs], prev) by {
      assert s[..vs][vs - 1] == s[vs - 1];
    }
    RefinesPrefix(s[..vs], x, y, prev);
    assert s[..vs] + x == s;
    assert s[..vs] + y == s[..vs] + Marker + rest;
  }

  /** One step of the intended global replacement at a match. */
  lemma ReplacedAtMatch(m: Matcher, s: string)
    requires Bounded(m)
    requires m(s).Some?
    ensures GlobalReplace(m, s, RedactCapture)
      == s[..m(s).value.valueStart] + Marker + GlobalReplace(m, s[m(s).value.valueEnd..], RedactCapture)
  {
    var mt := m(s).value;
    assert s[..mt.valueEnd][..mt.valueStart] == s[..mt.valueStart];
  }

  /** The intended global replacement copies everything but captured values, which become the marker. */
  lemma {:induction false} ReplaceRefines(p: Pattern, m: Matcher, s: string, prev: bool)
    requires MatcherFacts(p, m)
    ensures Refines(s, GlobalReplace(m, s, RedactCapture), prev)
    decreases |s|
  {
    if s != [] {
      match m(s)
      case None =>
        ReplaceRefines(p, m, s[1..], IsSepOrAssign(s[0]));
        assert CopyStep(s, GlobalReplace(m, s, RedactCapture));
      case Some(mt) =>
        ReplacedAtMatch(m, s);
        assert Shape(p, s, mt);
        ReplaceRefines(p, m, s[mt.valueEnd..], false);
        RefinesAfterMatch(s, mt.valueStart, mt.valueEnd, GlobalReplace(m, s[mt.valueEnd..], RedactCapture), prev);
    }
  }

  // ---------------------------------------------------------------------
  // Only captured values are replaced
  // ---------------------------------------------------------------------

  /**
   * The value run at the start of `x` is the capture of a match of `m` that
   * starts inside `pre`, the text already read before `x`.
   */
  ghost predicate CapturedAt(m: Matcher, pre: string, x: string) {
    0 < ValueRun(x, 0)
    && exists i :: 0 <= i < |pre| && m((pre + x)[i..]) == Some(Match(|pre| - i, |pre| - i + ValueRun(x, 0)))
  }

  /**
   * `y` is `x` with some captured values replaced by the marker: everything
   * is copied except value runs that a match of `m` captures, each of which
   * becomes the marker. `pre` is the part of the input before `x`.
   */
  ghost predicate OnlyCapturesReplaced(m: Matcher, pre: string, x: string, y: string)
    decreases |x|, 1
  {
    (x == [] && y == []) || CopiedFirst(m, pre, x, y) || ReplacedCapture(m, pre, x, y)
  }

  ghost predicate CopiedFirst(m: Matcher, pre: string, x: string, y: string)
    decreases |x|, 0
  {
    x != [] && y != [] && x[0] == y[0] && OnlyCapturesReplaced(m, pre + [x[0]], x[1..], y[1..])
  }

  ghost predicate ReplacedCapture(m: Matcher, pre: string, x: string, y: string)
    decreases |x|, 0
  {
    CapturedAt(m, pre, x) && |Marker| <= |y| && y[..|Marker|] == Marker
    && OnlyCapturesReplaced(m, pre + x[..ValueRun(x, 0)], x[ValueRun(x, 0)..], y[|Marker|..])
  }

  /** Copying a common part `a` extends the relation to the left. */
  lemma {:induction false} CopiedPrefix(m: Matcher, pre: string, a: string, x: string, y: string)
    requires OnlyCapturesReplaced(m, pre + a, x, y)
    ensures OnlyCapturesReplaced(m, pre, a + x, a + y)
    decreases |a|
  {
    if a != [] {
      assert pre + [a[0]] + a[1..] == pre + a;
      CopiedPrefix(m, pre + [a[0]], a[1..], x, y);
      assert (a + x)[1..] == a[1..] + x;
      assert (a + y)[1..] == a[1..] + y;
      assert CopiedFirst(m, pre, a + x, a + y);
    } else {
      assert pre + a == pre && a + x == x && a + y == y;
    }
  }

  /**
   * The intended global replacement, run on `s` after the text `pre`,
   * replaces nothing but the values its matches capture.
   */
  lemma {:induction false} ReplaceOnlyCaptures(p: Pattern, m: Matcher, pre: string, s: string)
    requires MatcherFacts(p, m)
    ensures OnlyCapturesReplaced(m, pre, s, GlobalReplace(m, s, RedactCapture))
    decreases |s|
  {
    if s != [] {
      match m(s)
      case None =>
        ReplaceOnlyCaptures(p, m, pre + [s[0]], s[1..]);
        assert CopiedFirst(m, pre, s, GlobalReplace(m, s, RedactCapture));
      case Some(mt) =>
        assert Shape(p, s, mt);
        ReplacedAtMatch(m, s);
        ReplaceOnlyCaptures(p, m, pre + s[..mt.valueEnd], s[mt.valueEnd..]);
        ReplacedMatch(m, pre, s, mt.valueStart, mt.valueEnd, GlobalReplace(m, s[mt.valueEnd..], RedactCapture));
    }
  }

  /** A match's value replaced by the marker, with the rest related, relates the whole text. */
  lemma ReplacedMatch(m: Matcher, pre: string, s: string, vs: nat, e: nat, rest: string)
    requires 0 < vs < e <= |s| && e == vs + ValueRun(s, vs)
    requires m(s) == Some(Match(vs, e))
    requires OnlyCapturesReplaced(m, pre + s[..e], s[e..], rest)
    ensures OnlyCapturesReplaced(m, pre, s, s[..vs] + Marker + rest)
  {
    var x, y := s[vs..], Marker + rest;
    MatchCaptured(m, pre, s, vs, e);
    assert x[..e - vs] == s[vs..e] && x[e - vs..] == s[e..];
    assert pre + s[..vs] + x[..e - vs] == pre + s[..e];
    assert y[..|Marker|] == Marker && y[|Marker|..] == rest;
    assert ReplacedCapture(m, pre + s[..vs], x, y);
    CopiedPrefix(m, pre, s[..vs], x, y);
    assert s[..vs] + x == s;
    assert s[..vs] + y == s[..vs] + Marker + rest;
  }

  /** The value of a match of `m` at the start of `s` is captured, seen from the match's start. */
  lemma MatchCaptured(m: Matcher, pre: string, s: string, vs: nat, e: nat)
    requires 0 < vs < e <= |s| && e == vs + ValueRun(s, vs)
    requires m(s) == Some(Match(vs, e))
    ensures ValueRun(s[vs..], 0) == e - vs
    ensures CapturedAt(m, pre + s[..vs], s[vs..])
  {
    ValueRunShift(s, vs);
    var x, pre2 := s[vs..], pre + s[..vs];
    SplitAgain(pre, s, vs);
    assert m((pre2 + x)[|pre|..]) == Some(Match(|pre2| - |pre|, |pre2| - |pre| + ValueRun(x, 0)));
  }

  /** Splitting `s` at `vs` and reading on from the end of `pre` gives `s` back. */
  lemma SplitAgain(pre: string, s: string, vs: nat)
    requires vs <= |s|
    ensures (pre + s[..vs] + s[vs..])[|pre|..] == s
  {
    assert pre + s[..vs] + s[vs..] == pre + s;
  }

  /** Where `m` matches nowhere, the relation allows no change at all. */
  lemma {:induction false} NothingReplacedWithoutMatch(m: Matcher, pre: string, x: string, y: string)
    requires forall j :: 0 <= j < |pre + x| ==> m((pre + x)[j..]).None?
    requires OnlyCapturesReplaced(m, pre, x, y)
    ensures y == x
    decreases |x|
  {
    assert !CapturedAt(m, pre, x);
    if x != [] {
      assert CopiedFirst(m, pre, x, y);
      assert pre + [x[0]] + x[1..] == pre + x;
      NothingReplacedWithoutMatch(m, pre + [x[0]], x[1..], y[1..]);
      assert y == [y[0]] + y[1..] && x == [x[0]] + x[1..];
    }
  }

  /** `foo: bar` has no keyword, so no pattern may change its value. */
  lemma UnkeyedPairKept(p: Pattern, y: string)
    requires OnlyCapturesReplaced(MatcherOf(p), [], "foo: bar", y)
    ensures y == "foo: bar"
  {
    var s := "foo: bar";
    NoStemInUnkeyedPair(p, s);
    NoStemNoMatch(p, s);
    assert [] + s == s;
    NothingReplacedWithoutMatch(MatcherOf(p), [], s, y);
  }

  lemma NoStemInUnkeyedPair(p: Pattern, s: string)
    requires s == "foo: bar"
    ensures forall j :: 0 <= j < |s| - 1 ==> !(Lower(s[j]) == Stem(p)[0] && Lower(s[j + 1]) == Stem(p)[1])
  {
    var w := Stem(p);
    forall j | 0 <= j < |s| - 1 ensures !(Lower(s[j]) == w[0] && Lower(s[j + 1]) == w[1]) {
      if s[j] == 'a' {
        assert j == 6 && s[j + 1] == 'r';
      }
    }
  }

  /** Each pattern's global replacement leaves the text outside its captured values as it was. */
  lemma PatternReplacesOnlyCaptures(p: Pattern, s: string)
    ensures OnlyCapturesReplaced(MatcherOf(p), [], s, GlobalReplace(MatcherOf(p), s, RedactCapture))
  {
    PatternFacts(p);
    ReplaceOnlyCaptures(p, MatcherOf(p), [], s);
  }

  // ---------------------------------------------------------------------
  // Walking a refinement
  // ---------------------------------------------------------------------

  /** Where `y` has no `*`, no marker was put: the two texts agree there. */
  lemma {:induction false} PrefixWalk(x: string, y: string, prev: bool, n: nat)
    requires Refines(x, y, prev)
    requires n <= |y|
    requires forall t :: 0 <= t < n ==> y[t] != '*'
    ensures n <= |x|
    ensures forall t :: 0 <= t < n ==> x[t] == y[t]
    ensures Refines(x[n..], y[n..], AfterSep(y[..n], prev))
    decreases n
  {
    if n > 0 {
      MarkerChars();
      assert !RedactStep(x, y, prev) by {
        if |Marker| <= |y| && y[..|Marker|] == Marker {
          assert y[0] == Marker[0];
        }
      }
      assert CopyStep(x, y);
      var x', y' := x[1..], y[1..];
      forall t | 0 <= t < n - 1 ensures y'[t] != '*' {
        assert y'[t] == y[t + 1];
      }
      PrefixWalk(x', y', IsSepOrAssign(x[0]), n - 1);
      forall t | 0 <= t < n ensures x[t] == y[t] {
        if t > 0 {
          assert x[t] == x'[t - 1] && y[t] == y'[t - 1];
        }
      }
      assert x'[n - 1..] == x[n..];
      assert y'[n - 1..] == y[n..];
      assert AfterSep(y'[..n - 1], IsSepOrAssign(x[0])) == AfterSep(y[..n], prev) by {
        if n > 1 {
          assert y'[..n - 1][n - 2] == y[..n][n - 1];
        }
      }
    }
  }

  /** Without a preceding separator, a refinement starts with the same character. */
  lemma FirstCharKept(x: string, y: string)
    requires Refines(x, y, false)
    ensures x == [] <==> y == []
    ensures x != [] ==> y[0] == x[0]
  {
    assert !RedactStep(x, y, false);
  }

  /** The value run at the start of a text, one character at a time. */
  lemma ValueRunStep(x: string)
    requires x != []
    ensures ValueRun(x, 0) == if IsValueChar(x[0]) then 1 + ValueRun(x[1..], 0) else 0
  {
    ValueRunShift(x, 1);
  }

  /** The value run from `k`, read as a slice. */
  lemma RunSlice(u: string, k: nat)
    requires k <= |u|
    ensures ValueRun(u[k..], 0) == ValueRun(u, k)
    ensures u[k..][..ValueRun(u[k..], 0)] == u[k..k + ValueRun(u, k)]
  {
    ValueRunShift(u, k);
  }

  /** A value run with no `:` or `=` in it, not preceded by a separator, is copied whole. */
  lemma {:induction false} RunKept(x: string, y: string)
    requires Refines(x, y, false)
    requires forall t :: 0 <= t < ValueRun(x, 0) ==> !IsAssign(x[t])
    ensures ValueRun(y, 0) == ValueRun(x, 0)
    ensures y[..ValueRun(y, 0)] == x[..ValueRun(x, 0)]
    decreases |x|
  {
    FirstCharKept(x, y);
    if x != [] && IsValueChar(x[0]) {
      assert !RedactStep(x, y, false);
      assert CopyStep(x, y);
      assert !IsAssign(x[0]);
      assert !IsSepOrAssign(x[0]);
      var x', y' := x[1..], y[1..];
      ValueRunStep(x);
      ValueRunStep(y);
      forall t | 0 <= t < ValueRun(x', 0) ensures !IsAssign(x'[t]) {
        assert x'[t] == x[t + 1];
      }
      RunKept(x', y');
      var n := ValueRun(x', 0);
      assert x[..n + 1] == [x[0]] + x'[..n];
      assert y[..n + 1] == [y[0]] + y'[..n];
    } else if x != [] {
      ValueRunStep(x);
      ValueRunStep(y);
    }
  }

  /** A marker put in place of a value run is, in the result, a whole value run of its own. */
  lemma MarkerRun(r: string, r': string)
    requires Refines(r, r', false)
    requires r == [] || !IsValueChar(r[0])
    ensures ValueRun(Marker + r', 0) == |Marker|
  {
    MarkerChars();
    FirstCharKept(r, r');
    var u := Marker + r';
    forall t | 0 <= t < |Marker| ensures IsValueChar(u[t]) {
      assert u[t] == Marker[t];
    }
    if |Marker| < |u| {
      assert u[|Marker|] == r'[0];
    }
    ValueRunIs(u, 0, |Marker|);
  }

  /**
   * Where `y` has a value run after a `*`-free stretch ending in a
   * separator, either that run is a marker put in by the refinement, or
   * `x` has the same stretch followed by a value run that, if it is the
   * marker, was copied into `y` whole.
   */
  lemma CaptureTransfer(x: string, y: string, prev: bool, vs: nat)
    requires Refines(x, y, prev)
    requires 0 < vs < |y|
    requires forall t :: 0 <= t < vs ==> y[t] != '*'
    requires IsSepOrAssign(y[vs - 1])
    requires IsValueChar(y[vs])
    ensures vs < |x| && forall t :: 0 <= t < vs ==> x[t] == y[t]
    ensures || y[vs..vs + ValueRun(y, vs)] == Marker
            || (IsValueChar(x[vs]) && (x[vs..vs + ValueRun(x, vs)] == Marker ==> y[vs..vs + ValueRun(y, vs)] == Marker))
  {
    PrefixWalk(x, y, prev, vs);
    assert AfterSep(y[..vs], prev) by {
      assert y[..vs][vs - 1] == y[vs - 1];
    }
    assert y[vs..][0] == y[vs];
    RunTransfer(x[vs..], y[vs..]);
    assert x[vs..][0] == x[vs];
    RunSlice(x, vs);
    RunSlice(y, vs);
  }

  /**
   * A value run at the start of a refinement that follows a separator is
   * either a marker put there, or the copy of a value run that is the
   * marker only if the copy is.
   */
  lemma RunTransfer(x: string, y: string)
    requires Refines(x, y, true)
    requires y != [] && IsValueChar(y[0])
    ensures x != []
    ensures || y[..ValueRun(y, 0)] == Marker
            || (IsValueChar(x[0]) && (x[..ValueRun(x, 0)] == Marker ==> y[..ValueRun(y, 0)] == Marker))
  {
    if RedactStep(x, y, true) {
      RedactedRun(x, y);
    } else {
      assert CopyStep(x, y);
      if x[..ValueRun(x, 0)] == Marker {
        CopiedMarker(x, y);
      }
    }
  }

  /** A value run replaced by the marker reads, in the result, as the marker. */
  lemma RedactedRun(x: string, y: string)
    requires RedactStep(x, y, true)
    ensures y[..ValueRun(y, 0)] == Marker
  {
    var r, r' := x[ValueRun(x, 0)..], y[|Marker|..];
    assert r == [] || !IsValueChar(r[0]) by {
      ValueRunFrom(x, 0);
      if r != [] {
        assert r[0] == x[ValueRun(x, 0)];
      }
    }
    MarkerRun(r, r');
    assert y == Marker + r';
  }

  /** A marker in the input that the refinement starts copying is copied whole. */
  lemma CopiedMarker(x: string, y: string)
    requires CopyStep(x, y)
    requires x[..ValueRun(x, 0)] == Marker
    ensures y[..ValueRun(y, 0)] == Marker
  {
    var n := ValueRun(x, 0);
    MarkerChars();
    assert x[0] == Marker[0];
    ValueRunStep(x);
    ValueRunStep(y);
    var n' := ValueRun(x[1..], 0);
    assert n == 1 + n';
    forall t | 0 <= t < n' ensures !IsAssign(x[1..][t]) {
      assert x[1..][t] == x[..n][t + 1];
    }
    RunKept(x[1..], y[1..]);
    assert y[..n' + 1] == [y[0]] + y[1..][..n'];
    assert x[..n' + 1] == [x[0]] + x[1..][..n'];
  }

  /** Refinement keeps the first position clean: a match in `y` comes from a clean match in `x` or from a marker. */
  lemma MatchTransfer(p: Pattern, m: Matcher, x: string, y: string, prev: bool)
    requires MatcherFacts(p, m)
    requires Refines(x, y, prev)
    requires CaptureOk(m, x)
    ensures CaptureOk(m, y)
  {
    if m(y).Some? {
      var mt := m(y).value;
      var vs := mt.valueStart;
      assert 0 < vs < |y| && mt.valueEnd == vs + ValueRun(y, vs) by {
        assert Shape(p, y, mt);
      }
      assert IsValueChar(y[vs]) by {
        assert Shape(p, y, mt);
        ValueRunFrom(y, vs);
      }
      assert y[vs - 1] != '*' && IsSepOrAssign(y[vs - 1]) && forall t :: 0 <= t < vs ==> y[t] != '*' by {
        assert Shape(p, y, mt);
      }
      CaptureTransfer(x, y, prev, vs);
      if IsValueChar(x[vs]) {
        assert ExtendsHead(x, y, vs);
        CleanExtension(m, x, y);
      }
    }
  }

  /** A clean text that extends the head of a match has the marker as its value there. */
  lemma CleanExtension(m: Matcher, x: string, y: string)
    requires PrefixFacts(m)
    requires m(y).Some? && ExtendsHead(x, y, m(y).value.valueStart)
    requires CaptureOk(m, x)
    ensures var vs := m(y).value.valueStart; x[vs..vs + ValueRun(x, vs)] == Marker
  {
    assert PrefixAt(m, y, x);
  }

  // ---------------------------------------------------------------------
  // Clean texts
  // ---------------------------------------------------------------------

  lemma CleanSuffix(m: Matcher, s: string, n: nat)
    requires Clean(m, s) && n <= |s|
    ensures Clean(m, s[n..])
  {
    forall j | 0 <= j <= |s[n..]| ensures CaptureOk(m, s[n..][j..]) {
      assert s[n..][j..] == s[n + j..];
    }
  }

  /** A text is clean when its first `n` positions are and the rest is. */
  lemma CleanFromParts(m: Matcher, s: string, n: nat)
    requires n <= |s|
    requires forall j :: 0 <= j < n ==> CaptureOk(m, s[j..])
    requires Clean(m, s[n..])
    ensures Clean(m, s)
  {
    forall j | n <= j <= |s| ensures CaptureOk(m, s[j..]) {
      assert s[n..][j - n..] == s[j..];
    }
  }

  /** Replacing value runs by the marker keeps a clean text clean, for every pattern. */
  lemma {:induction false} CleanPreserved(p: Pattern, m: Matcher, x: string, y: string, prev: bool)
    requires MatcherFacts(p, m)
    requires Clean(m, x)
    requires Refines(x, y, prev)
    ensures Clean(m, y)
    decreases |x|
  {
    if x == [] && y == [] {
    } else if RedactStep(x, y, prev) {
      var r, r' := x[ValueRun(x, 0)..], y[|Marker|..];
      assert Clean(m, r') by {
        CleanSuffix(m, x, ValueRun(x, 0));
        CleanPreserved(p, m, r, r', false);
      }
      assert forall j :: 0 <= j < |Marker| ==> CaptureOk(m, y[j..]) by {
        MarkerPositionsOk(p, m, [], r');
        assert [] + Marker + r' == y;
      }
      CleanFromParts(m, y, |Marker|);
    } else {
      assert CopyStep(x, y);
      assert CaptureOk(m, y[0..]) by {
        assert x[0..] == x && y[0..] == y;
        MatchTransfer(p, m, x, y, prev);
      }
      assert Clean(m, y[1..]) by {
        CleanSuffix(m, x, 1);
        CleanPreserved(p, m, x[1..], y[1..], IsSepOrAssign(x[0]));
      }
      CleanFromParts(m, y, 1);
    }
  }

  /** Once its value is replaced by the marker, a match captures the marker. */
  lemma CaptureOkAtMatch(p: Pattern, m: Matcher, s: string, rest: string)
    requires MatcherFacts(p, m)
    requires m(s).Some?
    requires Refines(s[m(s).value.valueEnd..], rest, false)
    ensures CaptureOk(m, s[..m(s).value.valueStart] + Marker + rest)
  {
    var mt := m(s).value;
    var vs, e := mt.valueStart, mt.valueEnd;
    var out := s[..vs] + Marker + rest;
    assert 0 < vs < e <= |s| && e == vs + ValueRun(s, vs) by {
      assert Shape(p, s, mt);
    }
    MarkedValue(s, vs, e, rest);
    assert PrefixAt(m, s, out);
  }

  /** Putting the marker in place of a whole value run keeps the head and makes the marker the new value run. */
  lemma MarkedValue(s: string, vs: nat, e: nat, rest: string)
    requires 0 < vs < e <= |s| && e == vs + ValueRun(s, vs)
    requires Refines(s[e..], rest, false)
    ensures var out := s[..vs] + Marker + rest;
      && ExtendsHead(out, s, vs)
      && ValueRun(out, vs) == |Marker|
      && out[vs..vs + |Marker|] == Marker
  {
    var out := s[..vs] + Marker + rest;
    assert ExtendsHead(out, s, vs) && out[vs..] == Marker + rest by {
      MarkerChars();
      assert forall t :: 0 <= t < vs ==> out[t] == s[t];
      assert out[vs] == Marker[0];
    }
    assert s[e..] == [] || !IsValueChar(s[e..][0]) by {
      ValueRunFrom(s, vs);
      if e < |s| {
        assert s[e..][0] == s[e];
      }
    }
    MarkerRun(s[e..], rest);
    ValueRunShift(out, vs);
  }

  /** No match starts inside the head of a match, after its first character. */
  lemma HeadPositionsOk(p: Pattern, m: Matcher, s: string, out: string)
    requires MatcherFacts(p, m)
    requires m(s).Some?
    requires m(s).value.valueStart <= |out|
    requires forall t :: 0 <= t < m(s).value.valueStart ==> out[t] == s[t]
    ensures forall j :: 0 < j < m(s).value.valueStart ==> CaptureOk(m, out[j..])
  {
    assert Shape(p, s, m(s).value);
    forall j | 0 < j < m(s).value.valueStart ensures m(out[j..]).None? {
      assert out[j..][0] == s[j];
    }
  }

  /** After the intended global replacement, no match is left unredacted. */
  lemma {:induction false} ReplaceClean(p: Pattern, m: Matcher, s: string)
    requires MatcherFacts(p, m)
    ensures Clean(m, GlobalReplace(m, s, RedactCapture))
    decreases |s|
  {
    var out := GlobalReplace(m, s, RedactCapture);
    if s == [] {
      assert out[0..] == [];
    } else {
      match m(s)
      case None =>
        assert Clean(m, out[1..]) by {
          ReplaceClean(p, m, s[1..]);
          assert out[1..] == GlobalReplace(m, s[1..], RedactCapture);
        }
        assert CaptureOk(m, out[0..]) by {
          ReplaceRefines(p, m, s, false);
          assert s[0..] == s && out[0..] == out;
          MatchTransfer(p, m, s, out, false);
        }
        CleanFromParts(m, out, 1);
      case Some(mt) =>
        var vs, e := mt.valueStart, mt.valueEnd;
        var rest := GlobalReplace(m, s[e..], RedactCapture);
        ReplacedAtMatch(m, s);
        assert Shape(p, s, mt);
        assert CaptureOk(m, out[0..]) by {
          ReplaceRefines(p, m, s[e..], false);
          CaptureOkAtMatch(p, m, s, rest);
          assert out[0..] == out;
        }
        HeadPositionsOk(p, m, s, out);
        MarkerPositionsOk(p, m, s[..vs], rest);
        assert Clean(m, out[vs + |Marker|..]) by {
          ReplaceClean(p, m, s[e..]);
          assert out[vs + |Marker|..] == rest;
        }
        CleanFromParts(m, out, vs + |Marker|);
    }
  }

  /** Each pattern applied leaves its own matches and those of the patterns before it redacted. */
  lemma {:induction false} ApplyPatternsClean(ps: seq<Pattern>, s: string)
    ensures forall q :: q in ps ==> Clean(MatcherOf(q), ApplyPatterns(ps, s, RedactCapture))
    decreases |ps|
  {
    if ps != [] {
      var init := ps[..|ps| - 1];
      var last := ps[|ps| - 1];
      var before := ApplyPatterns(init, s, RedactCapture);
      PatternFacts(last);
      var after := GlobalReplace(MatcherOf(last), before, RedactCapture);
      assert ApplyPatterns(ps, s, RedactCapture) == after;
      ApplyPatternsClean(init, s);
      ReplaceClean(last, MatcherOf(last), before);
      ReplaceRefines(last, MatcherOf(last), before, false);
      forall q | q in ps ensures Clean(MatcherOf(q), after) {
        if q != last {
          assert q in init;
          PatternFacts(q);
          CleanPreserved(q, MatcherOf(q), before, after, false);
        }
      }
    }
  }

  /**
   * The redacted text has no keyword-and-value pair of any of the five
   * patterns left with a value other than the marker.
   */
  lemma RedactedTextClean(text: string)
    ensures forall p :: p in SecretPatterns ==> Clean(MatcherOf(p), RedactedText(text))
  {
    ApplyPatternsClean(SecretPatterns, text);
  }

  // ---------------------------------------------------------------------
  // Texts without matches
  // ---------------------------------------------------------------------

  /** A global replacement changes nothing in a text where the pattern matches nowhere. */
  lemma {:induction false} GlobalReplaceNoMatch(m: Matcher, s: string, f: (string, string) -> string)
    requires Bounded(m)
    requires forall j :: 0 <= j < |s| ==> m(s[j..]).None?
    ensures GlobalReplace(m, s, f) == s
    decreases |s|
  {
    if s != [] {
      assert s[0..] == s;
      forall j | 0 <= j < |s[1..]| ensures m(s[1..][j..]).None? {
        assert s[1..][j..] == s[j + 1..];
      }
      GlobalReplaceNoMatch(m, s[1..], f);
    }
  }

  /** A match needs the stem's first two letters, so a text without them has no match. */
  lemma NoStemNoMatch(p: Pattern, s: string)
    requires forall j :: 0 <= j < |s| - 1 ==> !(Lower(s[j]) == Stem(p)[0] && Lower(s[j + 1]) == Stem(p)[1])
    ensures forall j :: 0 <= j < |s| ==> MatcherOf(p)(s[j..]).None?
  {
    forall j | 0 <= j < |s| ensures KeywordLen(p, s[j..]).None? {
      if j + 1 < |s| {
        assert s[j..][0] == s[j] && s[j..][1] == s[j + 1];
      }
    }
  }

  /**
   * Text in which no pattern's keyword is followed by a separator and a
   * value comes back unchanged, from either version of the redactor.
   */
  lemma {:induction false} ApplyPatternsNoMatch(ps: seq<Pattern>, s: string, f: (string, string) -> string)
    requires forall q, j :: q in ps && 0 <= j < |s| ==> MatcherOf(q)(s[j..]).None?
    ensures ApplyPatterns(ps, s, f) == s
    decreases |ps|
  {
    if ps != [] {
      var init := ps[..|ps| - 1];
      var last := ps[|ps| - 1];
      assert forall q :: q in init ==> q in ps;
      ApplyPatternsNoMatch(init, s, f);
      assert last in ps;
      PatternBounded(last);
      GlobalReplaceNoMatch(MatcherOf(last), s, f);
    }
  }

  // ---------------------------------------------------------------------
  // The callback as written
  // ---------------------------------------------------------------------

  /**
   * `match.replace(capture, marker)` replaces the first occurrence of the
   * captured text in the match. For `password: pass` that occurrence is
   * inside the keyword: the keyword is mangled and the secret stays.
   */
  lemma AsWrittenCallbackKeepsSecret()
    ensures RedactCaptureAsWritten("password: pass", "pass") == "***REDACTED***word: pass"
    ensures RedactCapture("password: pass", "pass") == "password: ***REDACTED***"
  {
    AsWrittenHitsKeyword("password: pass", "***REDACTED***word: pass");
    IntendedHitsValue("password: pass", "password: ***REDACTED***");
  }

  lemma AsWrittenHitsKeyword(m: string, out: string)
    requires m == "password: pass" && out == "***REDACTED***word: pass"
    ensures RedactCaptureAsWritten(m, "pass") == out
  {
    assert m[0..4] == "pass";
    assert OccursAt(m, "pass", 0);
    assert IndexOf(m, "pass") == Some(0);
    assert m[..0] == [] && m[4..] == "word: pass";
    assert ReplaceFirst(m, "pass", Marker) == m[..0] + Marker + m[4..];
    assert out == Marker + m[4..];
  }

  lemma IntendedHitsValue(m: string, out: string)
    requires m == "password: pass" && out == "password: ***REDACTED***"
    ensures RedactCapture(m, "pass") == out
  {
    assert m[..10] == "password: ";
    assert out == m[..10] + Marker;
  }

  /** The first pattern matches `password: pass` at its start and captures `pass`. */
  lemma PasswordMatch()
    ensures MatchAt(Password, "password: pass") == Some(Match(10, 14))
  {
    var s := "password: pass";
    PasswordHead(s);
    ValueRunIs(s, 10, 4);
  }

  lemma PasswordHead(s: string)
    requires s == "password: pass"
    ensures HeadLen(Password, s) == Some(10)
  {
    assert WordAtCI(s, 0, "password");
    assert KeywordLen(Password, s) == Some(8);
    SepRunIs(s, 8, 0);
    SepRunIs(s, 9, 1);
  }

  /**
   * A `:` is a value character, so a value can swallow the next keyword:
   * in `auth: auth: x` the capture is `auth:`, and `x` is no longer
   * preceded by a keyword of its own.
   */
  lemma ValueMayHoldKeyword()
    ensures MatchAt(Auth, "auth: auth: x") == Some(Match(6, 11))
  {
    var s := "auth: auth: x";
    AuthHead(s);
    assert forall t :: 6 <= t < 11 ==> IsValueChar(s[t]);
    assert !IsValueChar(s[11]);
    ValueRunIs(s, 6, 5);
  }

  lemma AuthHead(s: string)
    requires s == "auth: auth: x"
    ensures HeadLen(Auth, s) == Some(6)
  {
    assert WordAtCI(s, 0, "auth");
    assert KeywordLen(Auth, s) == Some(4);
    SepRunIs(s, 4, 0);
    SepRunIs(s, 5, 1);
  }

  /** The first pass, for `password`, mangles the keyword and keeps the value. */
  lemma AsWrittenFirstPass()
    ensures Bounded(MatcherOf(Password))
    ensures GlobalReplace(MatcherOf(Password), "password: pass", RedactCaptureAsWritten) == "***REDACTED***word: pass"
  {
    PatternBounded(Password);
    FirstPassMatch();
    FirstPassCallback();
    WholeMatchPass(MatcherOf(Password), "password: pass", 10, RedactCaptureAsWritten);
  }

  /** A global replacement whose first match takes the whole text calls the callback once. */
  lemma WholeMatchPass(m: Matcher, s: string, vs: nat, f: (string, string) -> string)
    requires Bounded(m)
    requires m(s) == Some(Match(vs, |s|))
    ensures GlobalReplace(m, s, f) == f(s[..|s|], s[vs..|s|])
  {
    assert s[|s|..] == [];
  }

  lemma FirstPassMatch()
    ensures MatcherOf(Password)("password: pass") == Some(Match(10, 14))
  {
    MatcherOfIs(Password, "password: pass");
    PasswordMatch();
  }

  lemma FirstPassCallback()
    ensures RedactCaptureAsWritten("password: pass"[..14], "password: pass"[10..14]) == "***REDACTED***word: pass"
  {
    var s := "password: pass";
    assert s[..14] == s && s[10..14] == "pass";
    AsWrittenCallbackKeepsSecret();
  }

  /** No later pattern finds its stem in the mangled text. */
  lemma MangledHasNoOtherMatch(q: Pattern)
    requires q != Password
    ensures forall j :: 0 <= j < |"***REDACTED***word: pass"| ==> MatcherOf(q)("***REDACTED***word: pass"[j..]).None?
  {
    NoStemInMangled(q, "***REDACTED***word: pass");
    NoStemNoMatch(q, "***REDACTED***word: pass");
  }

  lemma NoStemInMangled(q: Pattern, s: string)
    requires q != Password && s == "***REDACTED***word: pass"
    ensures forall j :: 0 <= j < |s| - 1 ==> !(Lower(s[j]) == Stem(q)[0] && Lower(s[j + 1]) == Stem(q)[1])
  {
    var w := Stem(q);
    forall j | 0 <= j < |s| - 1 ensures !(Lower(s[j]) == w[0] && Lower(s[j + 1]) == w[1]) {
      if Lower(s[j]) == 'a' {
        assert j == 6 || j == 21;
      }
    }
  }

  /** Applying `ps + [q]` is applying `ps`, then `q`. */
  lemma ApplyPatternsSnoc(ps: seq<Pattern>, q: Pattern, s: string, f: (string, string) -> string)
    ensures Bounded(MatcherOf(q))
    ensures ApplyPatterns(ps + [q], s, f) == GlobalReplace(MatcherOf(q), ApplyPatterns(ps, s, f), f)
  {
    PatternBounded(q);
    assert (ps + [q])[..|ps|] == ps;
  }

  /** A pattern that matches nowhere in what the earlier ones produced leaves it alone. */
  lemma UnmatchedStep(ps: seq<Pattern>, q: Pattern, s: string, t: string, f: (string, string) -> string)
    requires ApplyPatterns(ps, s, f) == t
    requires forall j :: 0 <= j < |t| ==> MatcherOf(q)(t[j..]).None?
    ensures ApplyPatterns(ps + [q], s, f) == t
  {
    ApplyPatternsSnoc(ps, q, s, f);
    GlobalReplaceNoMatch(MatcherOf(q), t, f);
  }

  /** When only the first pattern changes the text, the redactor's output is the first pass's. */
  lemma OnlyFirstPassChanges(s: string, t: string, f: (string, string) -> string)
    requires ApplyPatterns([Password], s, f) == t
    requires forall q, j :: q != Password && 0 <= j < |t| ==> MatcherOf(q)(t[j..]).None?
    ensures ApplyPatterns(SecretPatterns, s, f) == t
  {
    UnmatchedStep([Password], Secret, s, t, f);
    assert [Password] + [Secret] == [Password, Secret];
    UnmatchedStep([Password, Secret], Token, s, t, f);
    assert [Password, Secret] + [Token] == [Password, Secret, Token];
    UnmatchedStep([Password, Secret, Token], ApiKey, s, t, f);
    assert [Password, Secret, Token] + [ApiKey] == [Password, Secret, Token, ApiKey];
    UnmatchedStep([Password, Secret, Token, ApiKey], Auth, s, t, f);
    assert [Password, Secret, Token, ApiKey] + [Auth] == SecretPatterns;
  }

  /** The first pass as a one-pattern application. */
  lemma AsWrittenFirstApplied()
    ensures ApplyPatterns([Password], "password: pass", RedactCaptureAsWritten) == "***REDACTED***word: pass"
  {
    ApplyPatternsSnoc([], Password, "password: pass", RedactCaptureAsWritten);
    assert [] + [Password] == [Password];
    AsWrittenFirstPass();
  }

  /** The whole redactor as written leaves the secret of `password: pass` in its output. */
  lemma AsWrittenRedactorKeepsSecret()
    ensures RedactSecretsAsWritten("password: pass") == "***REDACTED***word: pass"
  {
    AsWrittenFirstApplied();
    forall q | q != Password
      ensures forall j :: 0 <= j < |"***REDACTED***word: pass"| ==> MatcherOf(q)("***REDACTED***word: pass"[j..]).None?
    {
      MangledHasNoOtherMatch(q);
    }
    OnlyFirstPassChanges("password: pass", "***REDACTED***word: pass", RedactCaptureAsWritten);
  }
}
