/**
 * The security helpers of the gateway: structural and free-text redaction
 * of audit payloads, the app-name sanitiser, the path scope check and the
 * API-key check.
 */
module Security {
  import opened Wrappers
  import opened Text
  import opened Patterns
  import opened RedactionProofs
  import opened JsonValues

  // ---------------------------------------------------------------------
  // Free-text redaction
  // ---------------------------------------------------------------------

  /**
   * `redactSecrets`: the five patterns in their fixed order, each applied
   * globally to what the previous ones left, with the intended callback.
   */
  method RedactSecrets(text: string) returns (redacted: string)
    ensures redacted == RedactedText(text)
    ensures forall p :: p in SecretPatterns ==> Clean(MatcherOf(p), redacted)
    ensures forall i :: 0 <= i < |SecretPatterns| ==>
      OnlyCapturesReplaced(MatcherOf(SecretPatterns[i]), [],
        ApplyPatterns(SecretPatterns[..i], text, RedactCapture),
        ApplyPatterns(SecretPatterns[..i + 1], text, RedactCapture))
  {
    var patterns := SecretPatterns;
    redacted := text;
    for i := 0 to |patterns|
      invariant redacted == ApplyPatterns(patterns[..i], text, RedactCapture)
    {
      PatternBounded(patterns[i]);
      ApplyPatternsPrefix(patterns, i, text, RedactCapture);
      redacted := GlobalReplace(MatcherOf(patterns[i]), redacted, RedactCapture);
    }
    assert patterns[..|patterns|] == patterns;
    RedactedTextClean(text);
    forall i | 0 <= i < |SecretPatterns|
      ensures OnlyCapturesReplaced(MatcherOf(SecretPatterns[i]), [],
        ApplyPatterns(SecretPatterns[..i], text, RedactCapture),
        ApplyPatterns(SecretPatterns[..i + 1], text, RedactCapture))
    {
      RedactedTextOnlyCaptures(text, i);
    }
  }

  /**
   * Each of the five passes changes only the values its own pattern's
   * matches capture in what the earlier passes left; all other text is
   * carried through unchanged.
   */
  lemma RedactedTextOnlyCaptures(text: string, i: nat)
    requires i < |SecretPatterns|
    ensures OnlyCapturesReplaced(MatcherOf(SecretPatterns[i]), [],
      ApplyPatterns(SecretPatterns[..i], text, RedactCapture),
      ApplyPatterns(SecretPatterns[..i + 1], text, RedactCapture))
  {
    ApplyPatternsPrefix(SecretPatterns, i, text, RedactCapture);
    PatternReplacesOnlyCaptures(SecretPatterns[i], ApplyPatterns(SecretPatterns[..i], text, RedactCapture));
  }

  /** Applying one more pattern of a list is one more global replacement. */
  lemma ApplyPatternsPrefix(ps: seq<Pattern>, i: nat, s: string, f: (string, string) -> string)
    requires i < |ps|
    ensures Bounded(MatcherOf(ps[i]))
    ensures ApplyPatterns(ps[..i + 1], s, f) == GlobalReplace(MatcherOf(ps[i]), ApplyPatterns(ps[..i], s, f), f)
  {
    PatternBounded(ps[i]);
    assert ps[..i + 1][..i] == ps[..i];
  }

  // ---------------------------------------------------------------------
  // Structural redaction
  // ---------------------------------------------------------------------

  /** The key names that mark a value as sensitive, once the key is lower-cased. */
  const SensitiveWords: seq<string> := ["password", "secret", "token", "apikey", "auth"]

  /** ASCII lower-casing of a whole string. */
  function LowerString(s: string): (r: string)
    ensures |r| == |s|
    ensures forall i :: 0 <= i < |s| ==> r[i] == Lower(s[i])
  {
    if s == [] then [] else LowerString(s[..|s| - 1]) + [Lower(s[|s| - 1])]
  }

  /** The lower-cased key contains one of the sensitive words. */
  predicate IsSensitiveKey(key: string) {
    exists w | w in SensitiveWords :: Contains(LowerString(key), w)
  }

  /**
   * The new value of one member: the marker under a sensitive key whatever
   * the value; otherwise nested objects are redacted in turn, strings go
   * through the free-text redactor, and arrays, numbers, booleans and null
   * are kept.
   */
  function RedactValue(key: string, value: Json): (r: Json)
    ensures IsSensitiveKey(key) ==> r == Str(Marker)
    ensures !IsSensitiveKey(key) && (value.Arr? || value.Num? || value.Bool? || value.Null?) ==> r == value
    ensures r.Obj? ==> value.Obj? && Keys(r.members) == Keys(value.members)
    decreases value, 1
  {
    if IsSensitiveKey(key) then Str(Marker)
    else match value
      case Obj(ms) => Obj(RedactMembers(ms))
      case Str(s) => Str(RedactedText(s))
      case _ => value
  }

  /** `redactObject`: every member keeps its key and its place, and gets its redacted value. */
  function RedactMembers(ms: seq<Member>): (r: seq<Member>)
    ensures Keys(r) == Keys(ms)
    decreases ms, 0
  {
    if ms == [] then []
    else
      var last := ms[|ms| - 1];
      assert last in ms;
      RedactMembers(ms[..|ms| - 1]) + [Member(last.key, RedactValue(last.key, last.value))]
  }

  /** The members of `r` are those of `ms`, one by one, with their values redacted. */
  lemma {:induction false} RedactMembersAt(ms: seq<Member>, i: nat)
    requires i < |ms|
    ensures |RedactMembers(ms)| == |ms|
    ensures RedactMembers(ms)[i] == Member(ms[i].key, RedactValue(ms[i].key, ms[i].value))
    decreases |ms|
  {
    if i < |ms| - 1 {
      RedactMembersAt(ms[..|ms| - 1], i);
    }
  }

  /**
   * What a redacted object promises: under a sensitive key there is only the
   * marker; a string under any other key has no keyword-and-value pair of
   * the five patterns in clear; nested objects are redacted in turn. Arrays
   * are not looked into.
   */
  ghost predicate RedactedMember(key: string, value: Json)
    decreases value, 1
  {
    if IsSensitiveKey(key) then value == Str(Marker)
    else match value
      case Obj(ms) => RedactedObject(ms)
      case Str(s) => forall p :: p in SecretPatterns ==> Clean(MatcherOf(p), s)
      case _ => true
  }

  ghost predicate RedactedObject(ms: seq<Member>)
    decreases ms, 0
  {
    forall i | 0 <= i < |ms| :: assert ms[i] in ms; RedactedMember(ms[i].key, ms[i].value)
  }

  /** Structural redaction leaves no sensitive value and no free-text secret behind. */
  lemma {:induction false} RedactMembersRedacted(ms: seq<Member>)
    ensures RedactedObject(RedactMembers(ms))
    decreases ms, 0
  {
    var r := RedactMembers(ms);
    forall i | 0 <= i < |r| ensures RedactedMember(r[i].key, r[i].value) {
      RedactMembersAt(ms, i);
      assert ms[i] in ms;
      RedactValueRedacted(ms[i].key, ms[i].value);
    }
  }

  lemma {:induction false} RedactValueRedacted(key: string, value: Json)
    ensures RedactedMember(key, RedactValue(key, value))
    decreases value, 1
  {
    if !IsSensitiveKey(key) {
      match value
      case Obj(ms) => RedactMembersRedacted(ms);
      case Str(s) => RedactedTextClean(s);
      case _ =>
    }
  }

  /**
   * `redactObject` as the source runs it: a loop over the members that
   * fills the result, recursing into nested objects.
   */
  method RedactObject(obj: seq<Member>) returns (result: seq<Member>)
    ensures result == RedactMembers(obj)
    ensures RedactedObject(result)
    decreases obj
  {
    result := [];
    for i := 0 to |obj|
      invariant result == RedactMembers(obj[..i])
    {
      var key, value := obj[i].key, obj[i].value;
      assert obj[i] in obj;
      var v: Json;
      if IsSensitiveKey(key) {
        v := Str(Marker);
      } else if value.Obj? {
        var inner := RedactObject(value.members);
        v := Obj(inner);
      } else if value.Str? {
        var s := RedactSecrets(value.s);
        v := Str(s);
      } else {
        v := value;
      }
      assert v == RedactValue(key, value);
      RedactMembersSnoc(obj, i);
      result := result + [Member(key, v)];
    }
    assert obj[..|obj|] == obj;
    RedactMembersRedacted(obj);
  }

  /** Redacting one more member of a list appends that member, redacted. */
  lemma RedactMembersSnoc(ms: seq<Member>, i: nat)
    requires i < |ms|
    ensures RedactMembers(ms[..i + 1]) == RedactMembers(ms[..i]) + [Member(ms[i].key, RedactValue(ms[i].key, ms[i].value))]
  {
    assert ms[..i + 1][..i] == ms[..i];
  }

  // ---------------------------------------------------------------------
  // App names
  // ---------------------------------------------------------------------

  /** `sanitizeAppName`: every character outside `[a-zA-Z0-9_-]` is dropped. */
  function SanitizeAppName(name: string): (r: string)
    ensures |r| <= |name|
    ensures forall i :: 0 <= i < |r| ==> IsAppNameChar(r[i])
  {
    if name == [] then []
    else (if IsAppNameChar(name[0]) then [name[0]] else []) + SanitizeAppName(name[1..])
  }

  /** The sanitiser works character by character: it maps concatenation to concatenation. */
  lemma {:induction false} SanitizeAppend(a: string, b: string)
    ensures SanitizeAppName(a + b) == SanitizeAppName(a) + SanitizeAppName(b)
    decreases |a|
  {
    if a != [] {
      assert (a + b)[1..] == a[1..] + b;
      SanitizeAppend(a[1..], b);
    } else {
      assert a + b == b;
    }
  }

  /** One character is kept exactly when it is allowed. */
  lemma SanitizeChar(c: char)
    ensures SanitizeAppName([c]) == if IsAppNameChar(c) then [c] else []
  {
  }

  /** A name made only of allowed characters is left as it is. */
  lemma {:induction false} SanitizeValidIsIdentity(name: string)
    requires forall i :: 0 <= i < |name| ==> IsAppNameChar(name[i])
    ensures SanitizeAppName(name) == name
    decreases |name|
  {
    if name != [] {
      SanitizeValidIsIdentity(name[1..]);
    }
  }

  /** Sanitising twice is sanitising once. */
  lemma SanitizeIdempotent(name: string)
    ensures SanitizeAppName(SanitizeAppName(name)) == SanitizeAppName(name)
  {
    SanitizeValidIsIdentity(SanitizeAppName(name));
  }

  /** The output is the input exactly when every character of the input is allowed. */
  lemma SanitizeFixedPoints(name: string)
    ensures SanitizeAppName(name) == name <==> forall i :: 0 <= i < |name| ==> IsAppNameChar(name[i])
  {
    if forall i :: 0 <= i < |name| ==> IsAppNameChar(name[i]) {
      SanitizeValidIsIdentity(name);
    }
  }

  // ---------------------------------------------------------------------
  // Path scope
  // ---------------------------------------------------------------------

  /** `replace(/\\/g, '/')`: every backslash becomes a slash. */
  function NormalizeSeparators(s: string): (r: string)
    ensures |r| == |s|
    ensures forall i :: 0 <= i < |s| ==> r[i] == if s[i] == '\\' then '/' else s[i]
  {
    if s == [] then [] else NormalizeSeparators(s[..|s| - 1]) + [if s[|s| - 1] == '\\' then '/' else s[|s| - 1]]
  }

  /** `replace(/\/+/g, '/')`: every run of slashes becomes one slash. */
  function CollapseSlashes(s: string): (r: string)
    ensures |r| <= |s|
    ensures s != [] ==> r != [] && r[0] == s[0]
  {
    if |s| <= 1 then s
    else if s[0] == '/' && s[1] == '/' then CollapseSlashes(s[1..])
    else [s[0]] + CollapseSlashes(s[1..])
  }

  /** Whether position `i` of `s` survives collapsing: anything but a slash that follows a slash. */
  predicate KeptByCollapse(s: string, i: nat)
    requires i < |s|
  {
    s[i] != '/' || i == 0 || s[i - 1] != '/'
  }

  /** The characters of `s` from position `k` on that survive collapsing, in order. */
  function KeptFrom(s: string, k: nat): string
    requires k <= |s|
    decreases |s| - k
  {
    if k == |s| then [] else (if KeptByCollapse(s, k) then [s[k]] else []) + KeptFrom(s, k + 1)
  }

  /** Collapsing as a left-to-right scan that remembers whether it has just passed a slash. */
  function CollapseScan(s: string, afterSlash: bool): string {
    if s == [] then []
    else if s[0] == '/' && afterSlash then CollapseScan(s[1..], true)
    else [s[0]] + CollapseScan(s[1..], s[0] == '/')
  }

  lemma {:induction false} CollapseScanIs(s: string)
    ensures CollapseScan(s, false) == CollapseSlashes(s)
    ensures CollapseScan(s, true) == if s != [] && s[0] == '/' then CollapseSlashes(s)[1..] else CollapseSlashes(s)
    decreases |s|
  {
    if s != [] {
      CollapseScanIs(s[1..]);
    }
  }

  lemma {:induction false} ScanIsKept(s: string, k: nat)
    requires k <= |s|
    ensures CollapseScan(s[k..], k > 0 && s[k - 1] == '/') == KeptFrom(s, k)
    decreases |s| - k
  {
    if k < |s| {
      ScanIsKept(s, k + 1);
      assert s[k..][1..] == s[k + 1..];
    }
  }

  /**
   * Collapsing keeps, in order, exactly the characters that are not a slash
   * following a slash: every other character is kept and each run of slashes
   * leaves one slash.
   */
  lemma CollapseKeepsOneSlashPerRun(s: string)
    ensures CollapseSlashes(s) == KeptFrom(s, 0)
  {
    CollapseScanIs(s);
    ScanIsKept(s, 0);
    assert s[0..] == s;
  }

  /** After collapsing, no two slashes are neighbours. */
  lemma {:induction false} CollapsedHasNoDoubleSlash(s: string)
    ensures !Contains(CollapseSlashes(s), "//")
    decreases |s|
  {
    var r := CollapseSlashes(s);
    if |s| > 1 {
      CollapsedHasNoDoubleSlash(s[1..]);
      if !(s[0] == '/' && s[1] == '/') {
        var t := CollapseSlashes(s[1..]);
        assert r == [s[0]] + t;
        forall i | 0 <= i <= |r| - 2 ensures !OccursAt(r, "//", i) {
          if i == 0 {
            assert r[1] == t[0] == s[1];
            assert r[0..2] == [r[0], r[1]];
          } else {
            assert r[i..i + 2] == t[i - 1..i + 1];
            assert !OccursAt(t, "//", i - 1);
          }
        }
      }
    } else {
      assert forall i :: 0 <= i <= |r| - 2 ==> !OccursAt(r, "//", i);
    }
  }

  /** Collapsing slashes keeps every `..`: only slashes are dropped. */
  lemma {:induction false} CollapseKeepsDotDot(s: string)
    requires Contains(s, "..")
    ensures Contains(CollapseSlashes(s), "..")
    decreases |s|
  {
    var i :| 0 <= i <= |s| - 2 && OccursAt(s, "..", i);
    var r := CollapseSlashes(s);
    assert s[i] == '.' && s[i + 1] == '.' by {
      assert s[i..i + 2] == "..";
    }
    if i == 0 {
      assert |s| > 1 && r == [s[0]] + CollapseSlashes(s[1..]);
      var t := CollapseSlashes(s[1..]);
      assert t[0] == s[1];
      assert r[0..2] == "..";
      assert OccursAt(r, "..", 0);
    } else {
      assert OccursAt(s[1..], "..", i - 1) by {
        assert s[1..][i - 1..i + 1] == s[i..i + 2];
      }
      CollapseKeepsDotDot(s[1..]);
      var t := CollapseSlashes(s[1..]);
      var j :| 0 <= j <= |t| - 2 && OccursAt(t, "..", j);
      if s[0] == '/' && s[1] == '/' {
        assert r == t;
      } else {
        assert r == [s[0]] + t;
        OccursAfter([s[0]], t, "..", j);
      }
    }
  }

  /** Turning backslashes into slashes keeps every `..`. */
  lemma NormalizeKeepsDotDot(s: string)
    requires Contains(s, "..")
    ensures Contains(NormalizeSeparators(s), "..")
  {
    var r := NormalizeSeparators(s);
    var i :| 0 <= i <= |s| - 2 && OccursAt(s, "..", i);
    assert s[i] == '.' && s[i + 1] == '.' by {
      assert s[i..i + 2] == "..";
    }
    assert r[i..i + 2] == "..";
    assert OccursAt(r, "..", i);
  }

  /** The directory a request for `appName` is confined to: `appsRoot/appName/`, slashes collapsed. */
  function AllowedPrefix(appsRoot: string, appName: string): string {
    CollapseSlashes(appsRoot + "/" + appName + "/")
  }

  /** The path a request resolves to: an absolute path as it is, a relative one under the prefix. */
  function FullPath(requestedPath: string, appName: string, appsRoot: string): string {
    var normalized := CollapseSlashes(NormalizeSeparators(requestedPath));
    if StartsWith(normalized, "/") then normalized else AllowedPrefix(appsRoot, appName) + normalized
  }

  /** `validatePath`: the resolved path has no `..` and lies under the app's directory. */
  function ValidatePath(requestedPath: string, appName: string, appsRoot: string): (ok: bool)
    ensures ok ==> StartsWith(FullPath(requestedPath, appName, appsRoot), AllowedPrefix(appsRoot, appName))
  {
    var full := FullPath(requestedPath, appName, appsRoot);
    if Contains(full, "..") then false else StartsWith(full, AllowedPrefix(appsRoot, appName))
  }

  /** A `..` anywhere in the request, written with either kind of slash, is refused. */
  lemma DotDotRejected(requestedPath: string, appName: string, appsRoot: string)
    requires Contains(requestedPath, "..")
    ensures !ValidatePath(requestedPath, appName, appsRoot)
  {
    NormalizeKeepsDotDot(requestedPath);
    CollapseKeepsDotDot(NormalizeSeparators(requestedPath));
    var normalized := CollapseSlashes(NormalizeSeparators(requestedPath));
    if !StartsWith(normalized, "/") {
      var prefix := AllowedPrefix(appsRoot, appName);
      var j :| 0 <= j <= |normalized| - 2 && OccursAt(normalized, "..", j);
      OccursAfter(prefix, normalized, "..", j);
    }
  }

  /** A relative request is accepted exactly when the prefixed path has no `..`. */
  lemma RelativePathScope(requestedPath: string, appName: string, appsRoot: string)
    requires !StartsWith(CollapseSlashes(NormalizeSeparators(requestedPath)), "/")
    ensures var full := AllowedPrefix(appsRoot, appName) + CollapseSlashes(NormalizeSeparators(requestedPath));
      ValidatePath(requestedPath, appName, appsRoot) <==> !Contains(full, "..")
  {
    var prefix := AllowedPrefix(appsRoot, appName);
    var normalized := CollapseSlashes(NormalizeSeparators(requestedPath));
    assert (prefix + normalized)[..|prefix|] == prefix;
  }

  /** An absolute request is accepted exactly when it lies under the prefix and has no `..`. */
  lemma AbsolutePathScope(requestedPath: string, appName: string, appsRoot: string)
    requires StartsWith(CollapseSlashes(NormalizeSeparators(requestedPath)), "/")
    ensures var full := CollapseSlashes(NormalizeSeparators(requestedPath));
      (ValidatePath(requestedPath, appName, appsRoot)
       <==> StartsWith(full, AllowedPrefix(appsRoot, appName)) && !Contains(full, ".."))
  {
  }

  // ---------------------------------------------------------------------
  // API key
  // ---------------------------------------------------------------------

  /** `verifyApiKey`: the hash of the presented key equals the stored hash. */
  predicate VerifyApiKey(hash: string -> string, providedKey: string, storedHash: string) {
    hash(providedKey) == storedHash
  }

  /** With a collision-free hash, the key whose hash is stored is the only one accepted. */
  lemma OnlyTheKeyVerifies(hash: string -> string, key: string, providedKey: string)
    requires forall a, b :: hash(a) == hash(b) ==> a == b
    ensures VerifyApiKey(hash, providedKey, hash(key)) <==> providedKey == key
  {
  }
}
