/**
 * The argument schemas the capabilities declare, and the way a failed
 * validation is reported. The schema library is seen only through what it
 * returns: the parsed data, or a list of issues, each a path and a message.
 */
module Validate {
  import opened Wrappers
  import opened Text
  import opened JsonValues
  import Security

  // ---------------------------------------------------------------------
  // The two regular expressions
  // ---------------------------------------------------------------------

  /** The length of the greedy run `[a-zA-Z0-9_-]*` from offset `k` of `s`. */
  function NameRun(s: string, k: nat): (n: nat)
    requires k <= |s|
    ensures k + n <= |s|
    decreases |s| - k
  {
    if k < |s| && IsAppNameChar(s[k]) then 1 + NameRun(s, k + 1) else 0
  }

  /** The run from `k` is all name characters and stops at another character. */
  lemma {:induction false} NameRunFrom(s: string, k: nat)
    requires k <= |s|
    ensures forall t :: k <= t < k + NameRun(s, k) ==> IsAppNameChar(s[t])
    ensures k + NameRun(s, k) < |s| ==> !IsAppNameChar(s[k + NameRun(s, k)])
    decreases |s| - k
  {
    if k < |s| && IsAppNameChar(s[k]) {
      NameRunFrom(s, k + 1);
    }
  }

  /** A maximal run is determined by where it stops. */
  lemma {:induction false} NameRunIs(s: string, k: nat, n: nat)
    requires k + n <= |s|
    requires forall t :: k <= t < k + n ==> IsAppNameChar(s[t])
    requires k + n < |s| ==> !IsAppNameChar(s[k + n])
    ensures NameRun(s, k) == n
    decreases n
  {
    if n > 0 {
      NameRunIs(s, k + 1, n - 1);
    }
  }

  /** `^[a-zA-Z0-9_-]+$` */
  predicate MatchesNamePattern(s: string) {
    1 <= |s| && NameRun(s, 0) == |s|
  }

  /** `^[a-zA-Z0-9_-]+\.sql$`: the name run cannot take the `.`, so it ends where the extension starts. */
  predicate MatchesBackupPattern(s: string) {
    var n := NameRun(s, 0);
    1 <= n && s[n..] == ".sql"
  }

  /** The name pattern accepts exactly the non-empty strings of name characters. */
  lemma NamePatternIff(s: string)
    ensures MatchesNamePattern(s) <==> 1 <= |s| && forall i :: 0 <= i < |s| ==> IsAppNameChar(s[i])
  {
    NameRunFrom(s, 0);
    if 1 <= |s| && forall i :: 0 <= i < |s| ==> IsAppNameChar(s[i]) {
      NameRunIs(s, 0, |s|);
    }
  }

  /** The backup pattern accepts exactly a non-empty stem of name characters followed by `.sql`. */
  lemma BackupPatternIff(s: string)
    ensures MatchesBackupPattern(s)
      <==> 5 <= |s| && s[|s| - 4..] == ".sql" && forall i :: 0 <= i < |s| - 4 ==> IsAppNameChar(s[i])
  {
    NameRunFrom(s, 0);
    var n := NameRun(s, 0);
    if 5 <= |s| && s[|s| - 4..] == ".sql" && forall i :: 0 <= i < |s| - 4 ==> IsAppNameChar(s[i]) {
      assert s[|s| - 4] == '.';
      NameRunIs(s, 0, |s| - 4);
    }
    if MatchesBackupPattern(s) {
      assert |s| == n + 4;
    }
  }

  // ---------------------------------------------------------------------
  // The schemas
  // ---------------------------------------------------------------------

  /** `AppNameSchema`: a string of 1 to 64 characters matching the name pattern. */
  predicate AppNameSchema(v: Json) {
    v.Str? && 1 <= |v.s| && |v.s| <= 64 && MatchesNamePattern(v.s)
  }

  /** `PortSchema`: an integral number from 1024 to 65535. */
  predicate PortSchema(v: Json) {
    v.Num? && v.n.Floor as real == v.n && 1024 as real <= v.n <= 65535 as real
  }

  /** `ComposeFileSchema`: a non-empty string. */
  predicate ComposeFileSchema(v: Json) {
    v.Str? && 1 <= |v.s|
  }

  /** `MigrationFileSchema`: a non-empty string. */
  predicate MigrationFileSchema(v: Json) {
    v.Str? && 1 <= |v.s|
  }

  /** `BackupNameSchema`: a string matching the backup pattern. */
  predicate BackupNameSchema(v: Json) {
    v.Str? && MatchesBackupPattern(v.s)
  }

  /** An app name is 1 to 64 name characters. */
  lemma AppNameSchemaIff(v: Json)
    ensures AppNameSchema(v)
      <==> v.Str? && 1 <= |v.s| <= 64 && forall i :: 0 <= i < |v.s| ==> IsAppNameChar(v.s[i])
  {
    if v.Str? {
      NamePatternIff(v.s);
    }
  }

  /** A port is one of the integers 1024 to 65535: an integer is accepted exactly in that range, and nothing else is. */
  lemma PortSchemaIff(v: Json, k: int)
    ensures PortSchema(Num(k as real)) <==> 1024 <= k <= 65535
    ensures PortSchema(v) ==> v == Num(v.n.Floor as real) && 1024 <= v.n.Floor <= 65535
  {
  }

  /** A backup name is at least five characters long and ends in `.sql`. */
  lemma BackupNameSchemaIff(v: Json)
    ensures BackupNameSchema(v)
      <==> v.Str? && 5 <= |v.s| && v.s[|v.s| - 4..] == ".sql"
           && forall i :: 0 <= i < |v.s| - 4 ==> IsAppNameChar(v.s[i])
  {
    if v.Str? {
      BackupPatternIff(v.s);
    }
  }

  /** A name the schema accepts is one the sanitiser leaves alone. */
  lemma ValidAppNameIsSanitized(v: Json)
    requires AppNameSchema(v)
    ensures Security.SanitizeAppName(v.s) == v.s
  {
    AppNameSchemaIff(v);
    Security.SanitizeFixedPoints(v.s);
  }

  // ---------------------------------------------------------------------
  // Reporting a failed validation
  // ---------------------------------------------------------------------

  /** One step of an issue's path: a member name or an array index. */
  datatype PathSegment = Key(name: string) | Index(index: nat)

  datatype Issue = Issue(path: seq<PathSegment>, message: string)

  /** What `safeParse` returns. */
  datatype ParseOutcome<T> = Parsed(data: T) | Failed(issues: seq<Issue>)

  function SegmentText(p: PathSegment): string {
    match p
    case Key(name) => name
    case Index(i) => DecimalString(i)
  }

  function SegmentTexts(path: seq<PathSegment>): (r: seq<string>)
    ensures |r| == |path|
    ensures forall i :: 0 <= i < |path| ==> r[i] == SegmentText(path[i])
  {
    if path == [] then [] else SegmentTexts(path[..|path| - 1]) + [SegmentText(path[|path| - 1])]
  }

  /** `${path.join('.')}: ${message}` */
  function FormatIssue(i: Issue): string {
    Join(".", SegmentTexts(i.path)) + ": " + i.message
  }

  function FormatIssues(issues: seq<Issue>): (r: seq<string>)
    ensures |r| == |issues|
    ensures forall k :: 0 <= k < |issues| ==> r[k] == FormatIssue(issues[k])
  {
    if issues == [] then [] else FormatIssues(issues[..|issues| - 1]) + [FormatIssue(issues[|issues| - 1])]
  }

  const ValidationFailed: string := "Validation failed: "

  /**
   * `validateArgs`: the parsed data when parsing succeeded; otherwise the
   * error `Validation failed: ` followed by the formatted issues, joined by
   * `, `.
   */
  function ValidateArgs<T>(outcome: ParseOutcome<T>): (r: Result<T, string>)
    ensures r.Ok? <==> outcome.Parsed?
    ensures r.Ok? ==> r.value == outcome.data
    ensures r.Err? ==> StartsWith(r.error, ValidationFailed)
  {
    match outcome
    case Parsed(data) => Ok(data)
    case Failed(issues) =>
      var msg := ValidationFailed + Join(", ", FormatIssues(issues));
      assert msg[..|ValidationFailed|] == ValidationFailed;
      Err(msg)
  }

  /** The error names every issue, with its path and its message, after the prefix. */
  lemma ErrorListsEveryIssue<T>(issues: seq<Issue>, k: nat)
    requires k < |issues|
    ensures ValidateArgs<T>(Failed(issues)).Err?
    ensures Contains(ValidateArgs<T>(Failed(issues)).error, FormatIssue(issues[k]))
  {
    var joined := Join(", ", FormatIssues(issues));
    JoinContainsEach(", ", FormatIssues(issues), k);
    var i :| 0 <= i <= |joined| - |FormatIssue(issues[k])| && OccursAt(joined, FormatIssue(issues[k]), i);
    OccursAfter(ValidationFailed, joined, FormatIssue(issues[k]), i);
  }
}
