# IKOMA MCP gateway: a verified model of its security core

The IKOMA MCP gateway lets a client call a fixed set of named administrative
capabilities (databases, container stacks) over the Model Context Protocol.
Before a capability runs, the gateway checks that it exists and that the
session's role ranks high enough. The call then goes through an audit
wrapper. The wrapper runs the handler once and appends one log entry, with
the arguments redacted. This project models that security core in Dafny and
proves what it promises.

- `roles.dfy` (`Roles`) holds the four roles, their rank table and the
  permission check. It also has the check on role names, which fails closed
  on unknown names.
- `patterns.dfy` (`Patterns`) holds the five free-text secret patterns
  `KEYWORD["\s]*[:=]["\s]*([^"\s,}]+)` (flags `gi`) as hand-written
  matchers. It also models JavaScript's global `String.prototype.replace`,
  and `indexOf`/`replace` with a string pattern.
- `redaction_proofs.dfy` (`RedactionProofs`) proves the free-text results:
  - one global replacement changes only captured values, each into
    `***REDACTED***`;
  - after all five passes, no match of any pattern captures anything but
    the marker;
  - text without matches comes back unchanged;
  - the callback as the source writes it can keep a secret (see Findings).
- `security.dfy` (`Security`) holds:
  - `redactSecrets`, as a loop over the patterns;
  - `redactObject`, as a loop over the members that recurses into nested
    objects, with its pure specification;
  - the app-name sanitiser;
  - the path scope check;
  - the API-key check under an abstract hash.
- `validate.dfy` (`Validate`) holds the argument schemas, their
  regular-expression checks and the `Validation failed: ` message format.
  The schema library is seen only through its issue list.
- `audit.dfy` (`Audit`) has a class `AuditLog`. Its `entries` field is the
  append-only log. Its methods are `logAudit` and `auditCapabilityCall`. A
  ghost counter records how many handlers ran.
- `server.dfy` (`Server`) holds:
  - the list-tools projection;
  - the dispatch decision;
  - the response envelopes;
  - the call-tool handler, as a method of a server class that shares the
    audit log.
- `json.dfy`, `text.dfy` and `wrappers.dfy` hold the JSON values, the
  character and string helpers, and `Option`/`Result`.

Clocks, the request-id generator, the outcome of the log append and the
handler's result are parameters. The handler is a function value, and the
model records that it is called once.

Where the prose description of the redactor and the code differ, the model
follows the code:
- the `:` or `=` after the keyword is required, not optional;
- the `api` keyword also matches `apikey`, with no separator, because
  `[_-]?` is optional.

## Model

| member | source | states |
|---|---|---|
| Roles.RoleLevel | src/core/roles.ts:18-20 | The rank of a role is between 1 and 4, and the role sits at that position in the order observer, operator, builder, admin. |
| Roles.RanksStrictlyIncrease | src/core/roles.ts:3-8 | The ranks are 1, 2, 3 and 4 in that order, so they strictly increase and no two roles share a rank. |
| Roles.HasPermission | src/core/roles.ts:10-12 | The caller holds the required role when its rank is at least the required rank. |
| Roles.HasPermissionByName | src/core/roles.ts:10-12 | The same check on role names through the rank table: both names must be in the table and the caller's rank must be at least the required one. |
| Roles.PermissionIsTotalPreorder | src/core/roles.ts:10-12 | Permission is reflexive, transitive and total over the four roles. |
| Roles.AdminAndObserver | src/core/roles.ts:3-12 | Admin holds every role. Every role holds observer. Observer holds only observer. |
| Roles.PermissionByNameAgrees | src/core/roles.ts:10-12 | On the four role names, the table lookup by name decides exactly as the comparison of ranks does. |
| Roles.PermissionByNameFailsClosed | src/core/roles.ts:11 | If either name is not one of the four roles, the model's check refuses permission. For names inherited from `Object.prototype`, see the line under Left out. |
| Roles.ValidateRole | src/core/roles.ts:14-16 | A name is valid when it is one of the four literals `observer`, `operator`, `builder`, `admin`. |
| Roles.ParseRole | src/core/roles.ts:14-16 | A name parses to the role it spells, and to none when no role has that name. |
| Roles.ValidateRoleIsParse | src/core/roles.ts:14-16 | A name passes `validateRole` exactly when it names one of the four roles. |
| Patterns.KeywordLen | src/core/security.ts:4-10 | A keyword found at the start of the text is at least three characters long and begins with its stem's first two letters, compared case-insensitively. |
| Patterns.HeadChars | src/core/security.ts:5-9 | The head of a match ends in a quote, a space, `:` or `=`. It contains no `*`. Past its first character, no letter folds to the stem's first letter. |
| Patterns.MatchFacts | src/core/security.ts:5-9 | The capture starts right after the head and is the longest run of value characters there. It stops at the end of the text or at a character that cannot be in a value. |
| Patterns.IndexOf | src/core/security.ts:26 | The position returned is an occurrence and no earlier position is one. None means there is no occurrence at all. |
| Patterns.ReplaceFirst | src/core/security.ts:26 | A string-pattern replace leaves the text alone when the pattern does not occur. Otherwise the text up to the first occurrence, then the replacement, starts the result, and the text after the occurrence ends it. The length changes by the replacement's length minus the pattern's. |
| Patterns.GlobalReplace | src/core/security.ts:24-28 | A global `replace` with a callback: matches are looked for from left to right, each is replaced by the callback applied to the match and its capture, and the search resumes after the match. |
| Patterns.RedactCaptureAsWritten | src/core/security.ts:25-27 | The callback as written: the first occurrence of the capture anywhere in the match becomes the marker. |
| Patterns.RedactSecretsAsWritten | src/core/security.ts:21-31 | The redactor as written: the five patterns in order, each applied globally with the callback as written. |
| RedactionProofs.PatternFacts | src/core/security.ts:4-10 | Each pattern's matcher has the properties the replacement proofs rely on: bounded matches, the match shape, and matches that depend only on the head and the value after it. |
| RedactionProofs.ReplaceRefines | src/core/security.ts:24-28 | One global replacement with the intended callback copies the text, except that some whole value runs following a separator become the marker. This is weaker than `ReplaceOnlyCaptures` and does not mention the matcher. It is the form `CleanPreserved` uses to show that later passes keep earlier ones clean. |
| RedactionProofs.ReplaceOnlyCaptures | src/core/security.ts:24-28 | One global replacement with the intended callback copies the text, except that values captured by a match of that pattern become the marker. Nothing else changes. |
| RedactionProofs.NothingReplacedWithoutMatch | src/core/security.ts:24-28 | Where the pattern matches nowhere, "replacing only captured values" allows no change at all. |
| RedactionProofs.PatternReplacesOnlyCaptures | src/core/security.ts:24-28 | Each of the five patterns' global replacements changes only the values its own matches capture. |
| RedactionProofs.UnkeyedPairKept | src/core/security.ts:4-10 | `foo: bar` has no keyword, so no pattern may change it. |
| RedactionProofs.ReplaceClean | src/core/security.ts:24-28 | After one global replacement, every match of that pattern, at every position, captures exactly the marker. |
| RedactionProofs.CleanPreserved | src/core/security.ts:23-28 | A later pass that only turns value runs into the marker keeps an earlier pattern's matches redacted. |
| RedactionProofs.ApplyPatternsClean | src/core/security.ts:23-28 | After any prefix of the passes, every pattern applied so far has no match left that captures anything but the marker. |
| RedactionProofs.RedactedTextClean | src/core/security.ts:21-31 | In the redacted text, every match of every one of the five patterns captures exactly the marker. This is a statement about matches in the output: a value that ends in `:` can swallow the next keyword (see `RedactionProofs.ValueMayHoldKeyword`). |
| RedactionProofs.ValueMayHoldKeyword | src/core/security.ts:9 | In `auth: auth: x` the capture is `auth:`, because `:` is a value character. So `x` is left without a keyword of its own, with either callback. |
| RedactionProofs.ApplyPatternsNoMatch | src/core/security.ts:21-31 | A text in which no pattern matches anywhere comes back unchanged, whichever callback is used. |
| RedactionProofs.AsWrittenCallbackKeepsSecret | src/core/security.ts:25-27 | For the match `password: pass`, the callback as written gives `***REDACTED***word: pass`. The intended one gives `password: ***REDACTED***`. |
| RedactionProofs.AsWrittenRedactorKeepsSecret | src/core/security.ts:21-31 | The whole redactor as written turns `password: pass` into `***REDACTED***word: pass`, so the secret stays. |
| Security.RedactSecrets | src/core/security.ts:21-31 | The loop over the five patterns computes the redacted text. No match of any pattern in its output captures anything but the marker. Each pass changes only the values its own pattern captures in what the earlier passes left. |
| Security.RedactedTextOnlyCaptures | src/core/security.ts:21-31 | Pass i of the redactor copies the text left by passes 0..i-1, except that values captured by a match of pattern i become the marker. |
| Security.IsSensitiveKey | src/core/security.ts:37-43 | A key is sensitive when its lower-cased form contains `password`, `secret`, `token`, `apikey` or `auth`. |
| Security.LowerString | src/core/security.ts:37 | Lower-casing keeps the length and lower-cases each character. |
| Security.RedactValue | src/core/security.ts:37-50 | Under a sensitive key the value becomes the marker, whatever its type. Arrays, numbers, booleans and null under other keys are kept. A redacted object keeps its keys. |
| Security.RedactMembers | src/core/security.ts:33-55 | Redaction returns the same keys in the same order. A member named `__proto__` is the exception in the source; see Left out. |
| Security.RedactMembersAt | src/core/security.ts:36-52 | Each member keeps its place and its key and gets its own value redacted. |
| Security.RedactMembersRedacted | src/core/security.ts:33-55 | In the redacted object, sensitive keys hold only the marker. Strings under other keys hold no pattern match in clear. Nested objects are redacted the same way. |
| Security.RedactObject | src/core/security.ts:33-55 | The loop, with its recursion into nested objects, returns the redaction of the whole object, and the result is fully redacted. |
| Security.SanitizeAppName | src/core/security.ts:71-73 | The result is no longer than the name and has only `[a-zA-Z0-9_-]` characters. |
| Security.SanitizeChar | src/core/security.ts:72 | A single character is kept exactly when it is allowed. |
| Security.SanitizeAppend | src/core/security.ts:72 | Sanitising a concatenation is the concatenation of the two sanitised parts, so the kept characters stay in order. |
| Security.SanitizeValidIsIdentity | src/core/security.ts:71-73 | A name made only of allowed characters is left unchanged. |
| Security.SanitizeIdempotent | src/core/security.ts:71-73 | Sanitising twice is the same as sanitising once. |
| Security.SanitizeFixedPoints | src/core/security.ts:71-73 | A name is unchanged exactly when every character in it is allowed. |
| Security.NormalizeSeparators | src/core/security.ts:58 | Every backslash becomes `/` and every other character is kept. |
| Security.CollapseSlashes | src/core/security.ts:58 | Collapsing slash runs never lengthens the path and keeps its first character. |
| Security.CollapseKeepsOneSlashPerRun | src/core/security.ts:58 | Collapsing equals the independent reference that keeps, in order, every character except a slash that directly follows a slash. So every other character is kept and each run of slashes leaves one slash. |
| Security.CollapsedHasNoDoubleSlash | src/core/security.ts:58 | After collapsing, no two slashes are next to each other. |
| Security.ValidatePath | src/core/security.ts:57-69 | An accepted path resolves to a path under `appsRoot/appName/`. |
| Security.DotDotRejected | src/core/security.ts:58-66 | A request containing `..` is refused, whatever its slashes and whether it is relative or absolute. |
| Security.RelativePathScope | src/core/security.ts:59-68 | A relative request is accepted exactly when the prefixed path has no `..`. |
| Security.AbsolutePathScope | src/core/security.ts:59-68 | An absolute request is accepted exactly when it starts with the app's prefix and has no `..`. |
| Security.VerifyApiKey | src/core/security.ts:16-19 | A key is accepted when its hash equals the stored hash. |
| Security.OnlyTheKeyVerifies | src/core/security.ts:16-19 | With a collision-free hash, the only key accepted is the one whose hash is stored. |
| Validate.AppNameSchema | src/core/validate.ts:3-6 | A string of 1 to 64 characters that matches the name pattern. |
| Validate.PortSchema | src/core/validate.ts:10 | A number that is an integer from 1024 to 65535. |
| Validate.ComposeFileSchema | src/core/validate.ts:12 | A non-empty string. |
| Validate.MigrationFileSchema | src/core/validate.ts:14 | A non-empty string. |
| Validate.BackupNameSchema | src/core/validate.ts:16-17 | A string that matches the backup pattern. |
| Validate.NamePatternIff | src/core/validate.ts:6 | `^[a-zA-Z0-9_-]+$` accepts exactly the non-empty strings of name characters. |
| Validate.AppNameSchemaIff | src/core/validate.ts:3-6 | An app name is valid exactly when it is a string of 1 to 64 name characters. |
| Validate.PortSchemaIff | src/core/validate.ts:10 | An integer is a valid port exactly when it is between 1024 and 65535. Any accepted value is such an integer. |
| Validate.BackupPatternIff | src/core/validate.ts:17 | `^[a-zA-Z0-9_-]+\.sql$` accepts exactly the strings of at least five characters that end in `.sql` after a stem of name characters. |
| Validate.BackupNameSchemaIff | src/core/validate.ts:16-17 | A backup name is valid exactly when it is such a string. |
| Validate.ValidAppNameIsSanitized | src/core/validate.ts:3-6 | Every valid app name is a fixed point of `sanitizeAppName`. |
| Validate.SegmentTexts | src/core/validate.ts:23 | Each path segment is rendered in place: a key as itself, an index in decimal. |
| Validate.FormatIssues | src/core/validate.ts:23 | Each issue is formatted in place as its dotted path, `: ` and its message. |
| Validate.ValidateArgs | src/core/validate.ts:19-28 | The call succeeds exactly when parsing succeeded, and then returns the parsed data. A failure message starts with `Validation failed: `. |
| Validate.ErrorListsEveryIssue | src/core/validate.ts:22-24 | The failure message contains every issue's formatted path and message. |
| Audit.LoggedEntry | src/core/audit.ts:13-17 | The stored entry carries the redaction of the given arguments. |
| Audit.EntryFor | src/core/audit.ts:37-62 | The entry copies the request id, capability and role. Its result is success exactly when the handler returned. It has no error on success and the message on failure. Its arguments are redacted. Its duration is not negative when the clock does not run backwards. |
| Audit.EntryArgumentsRedacted | src/core/audit.ts:16 | An entry's arguments hold no sensitive value and no free-text secret. |
| Audit.AuditLog.LogAudit | src/core/audit.ts:12-26 | Exactly one stamped, redacted entry is appended. A failed write leaves the log as it was. Earlier entries never change. |
| Audit.AuditLog.AuditCapabilityCall | src/core/audit.ts:28-63 | The handler runs once and its value or error is handed back unchanged. One entry for that outcome is appended on success and on failure alike, unless the write fails. The log only grows. A throw while building the entry is not modelled; see Left out. |
| Server.ListTools | src/mcp/server.ts:26-34 | The tool list has one entry per capability, in registry order, with its name, description and schema. |
| Server.FindCapability | src/mcp/server.ts:40 | The lookup finds the first capability with that name, or reports that none has it. |
| Server.ListedIffFound | src/mcp/server.ts:26-42 | A name can be called exactly when it appears in the tool list. |
| Server.Decide | src/mcp/server.ts:40-70 | A call is not found exactly when no capability has the name. Otherwise the first capability with the name decides: the call is allowed, with that capability's index, exactly when the session's role ranks at least as high as the role it requires, and is denied with that required role otherwise. |
| Server.NotFoundResponse | src/mcp/server.ts:42-54 | The reply to an unknown name: `{error: 'Capability not found', capability: name}`, not flagged. |
| Server.DeniedResponse | src/mcp/server.ts:57-70 | The reply to an insufficient role: `{error: 'Insufficient permissions', required, current}`, not flagged. |
| Server.OutcomeResponse | src/mcp/server.ts:79-109 | The reply is flagged as an error exactly when the handler failed. On success its payload is the handler's value. |
| Server.RejectionsAreNotFlagged | src/mcp/server.ts:42-70 | The not-found and denied replies are not flagged as errors. |
| Server.McpServer.CallTool | src/mcp/server.ts:37-110 | An unknown name or an insufficient role gets its reply with no handler run and no log entry. Otherwise the handler runs once, with the arguments (or `{}`) and a context holding the session role and the request id. The same id and arguments are audited, and the reply reflects the outcome. |

## Findings

| source | as written | input that shows it | evidently intended | confidence | as-written member | corrected member |
|---|---|---|---|---|---|---|
| src/core/security.ts:25-27 | The callback replaces the first occurrence of the captured value anywhere in the match text, with `match.replace(capture, marker)`. | `password: pass` becomes `***REDACTED***word: pass`. The keyword is destroyed and the secret `pass` stays. | Replace the captured value itself, which ends the match, so the result is `password: ***REDACTED***`. | not executed | RedactionProofs.AsWrittenRedactorKeepsSecret | RedactionProofs.RedactedTextClean |

`Patterns.RedactSecretsAsWritten` is the redactor as written, with
`Patterns.RedactCaptureAsWritten`. `Patterns.RedactedText` uses the intended
`Patterns.RedactCapture`. `Security.RedactSecrets`, `redactObject` and the
audit log use the intended version.

## Left out

- File I/O: creating the log directory, `appendFile` and `console.error` are not modelled. A failed append is a boolean parameter that leaves the log unchanged.
- Concurrent appends from calls in flight are not modelled. The log is a sequence appended to one call at a time.
- `JSON.stringify` of entries and replies is not modelled, and neither are ISO-8601 timestamps. Timestamps and durations are natural numbers of milliseconds.
- `Date.now()` is not modelled. The two clock reads are parameters. The context's timestamp `now` is a separate parameter, and the entry is stamped with the end read.
- `nanoid` is not modelled. The request id is a parameter.
- The MCP SDK server, the stdio transport and the `text` content wrapper of replies are not modelled. A reply is a JSON payload and an `isError` flag.
- `src/core/capabilities.ts` is not part of this model. The registry is a sequence of capabilities, and `getCapability` is taken to return the first one with the name.
- Zod's parser and its default messages are not modelled. `safeParse` is seen only as its result: the parsed data or a list of issues.
- `EnvVarSchema` (`z.record(z.string())`) is left out because no part of the modelled core uses it.
- Numbers are real numbers, not IEEE doubles. `PortSchema`'s `.int()` is modelled as "equal to its floor".
- Case-insensitive matching and `toLowerCase` fold ASCII letters only. The model has no Unicode case folding and no UTF-16 surrogates.
- Objects are member sequences in `Object.entries` order. Duplicate keys and the reordering of integer-like keys are not modelled.
- Arrays under non-sensitive keys are passed through unredacted, as in the source.
- Errors thrown by handlers are messages. `String(error)` for values that are not `Error` objects is not modelled.
- `hashApiKey`'s SHA-256 is an abstract function parameter, and the configured key hash is a parameter. Timing behaviour is not modelled.
- Configuration loading, `src/index.ts`, `src/core/database.ts` and `src/core/docker.ts` are not modelled: they are process start-up, SQL and subprocess I/O.
- Audit.AuditLog.AuditCapabilityCall: the handler always returns or fails. A handler that never settles, which would leave no entry and no reply, is not modelled, because the handler is a total function value.
- Server.McpServer.CallTool: arguments are values. In the source, the handler and the audit wrapper share one arguments object, and it is redacted only after the handler has returned. A handler that changes its arguments in place would therefore change what is logged. The model logs the arguments as they were passed.
- Server.McpServer.CallTool: the session role is assumed to be one of the four roles. `src/index.ts` casts the configured role without `validateRole`. With any other string, every call to an existing capability is denied (the rank comparison fails) and the reply carries that string as `current`. The model cannot express that case.
- Roles.PermissionByNameFailsClosed: holds of the model's table, which has only the four names. In the source, the rank table is a plain object, so names such as `constructor`, `toString` or `__proto__` look up inherited values. For example, `hasPermission('constructor', 'constructor')` compares the same inherited function with itself and is true. With one of the four real roles on the other side the comparison involves `NaN` and is false, so the dispatcher, which always passes a real required role, still refuses.
- Audit.AuditLog.AuditCapabilityCall: a throw while `logAudit` builds the entry is not modelled. `redactObject` and `JSON.stringify` run outside the `try` that guards only `appendFile` (src/core/audit.ts:13-25). They can throw, for example on arguments nested deeply enough to exhaust the stack. After a successful handler, the throw reaches the `catch` of the wrapper, whose own `logAudit` throws again. No entry is written, and the caller replies with an error although the handler ran. After a failed handler, the new error replaces the handler's. The model takes entry building as total, so it always hands back the handler's outcome and appends unless the write fails.
- Security.RedactMembers: keeps a member named `__proto__`. In the source, `result[key] = …` writes into a plain `{}` (src/core/security.ts:34-51). For the key `__proto__`, which `JSON.parse` creates as an own member, that write calls the inherited prototype setter instead of creating a member. The logged arguments then lack that member, or get a different prototype when its value is an object. The model's "same keys in the same order" holds only for objects without such a member.
- Audit.AuditLog.AuditCapabilityCall: the ghost counter `handlerRuns` states that the handler ran once. The model does not rule out other effects of the handler, which is a pure function value here.
