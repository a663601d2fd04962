/**
 * The audit trail: an append-only log of one entry per audited call, each
 * carrying the call's identity, its redacted arguments, its outcome and its
 * duration. Clock reads and the success of the file append are parameters.
 */
module Audit {
  import opened Wrappers
  import opened JsonValues
  import opened Roles
  import Security

  datatype AuditResult = Success | Error

  /** One line of the audit log; `timestamp` and `duration` are in milliseconds. */
  datatype AuditEntry = AuditEntry(
    timestamp: nat,
    requestId: string,
    capability: string,
    role: Role,
    arguments: seq<Member>,
    result: AuditResult,
    error: Option<string>,
    duration: int)

  /** What a handler does: return a value, or throw an error with a message. */
  type Outcome = Result<Json, string>

  /** The line `logAudit` writes: the entry as given, stamped with the time, its arguments redacted. */
  function LoggedEntry(now: nat, requestId: string, capability: string, role: Role, args: seq<Member>,
                       result: AuditResult, error: Option<string>, duration: int): (e: AuditEntry)
    ensures e.arguments == Security.RedactMembers(args)
  {
    AuditEntry(now, requestId, capability, role, Security.RedactMembers(args), result, error, duration)
  }

  /**
   * The entry an audited call leaves: the call's identity copied, the
   * arguments redacted, the outcome recorded (with the message on failure
   * only) and the time between the two clock reads.
   */
  function EntryFor(requestId: string, capability: string, role: Role, args: seq<Member>,
                    outcome: Outcome, clockStart: nat, clockEnd: nat): (e: AuditEntry)
    ensures e.requestId == requestId && e.capability == capability && e.role == role
    ensures e.result == Success <==> outcome.Ok?
    ensures outcome.Ok? ==> e.error.None?
    ensures outcome.Err? ==> e.error == Some(outcome.error)
    ensures e.arguments == Security.RedactMembers(args)
    ensures clockStart <= clockEnd ==> e.duration >= 0
  {
    LoggedEntry(clockEnd, requestId, capability, role, args,
                if outcome.Ok? then Success else Error,
                if outcome.Err? then Some(outcome.error) else None,
                clockEnd - clockStart)
  }

  /** The arguments an entry records are redacted: no sensitive value and no free-text secret is left in them. */
  lemma EntryArgumentsRedacted(requestId: string, capability: string, role: Role, args: seq<Member>,
                               outcome: Outcome, clockStart: nat, clockEnd: nat)
    ensures Security.RedactedObject(EntryFor(requestId, capability, role, args, outcome, clockStart, clockEnd).arguments)
  {
    Security.RedactMembersRedacted(args);
  }

  /** The fields of the entry for an outcome, one by one. */
  lemma EntryForIs(requestId: string, capability: string, role: Role, args: seq<Member>,
                   outcome: Outcome, clockStart: nat, clockEnd: nat)
    ensures EntryFor(requestId, capability, role, args, outcome, clockStart, clockEnd)
      == LoggedEntry(clockEnd, requestId, capability, role, args,
                     if outcome.Ok? then Success else Error,
                     if outcome.Err? then Some(outcome.error) else None,
                     clockEnd - clockStart)
  {
  }

  class AuditLog {
    /** The lines written so far, oldest first. */
    var entries: seq<AuditEntry>
    /** How many handlers have been run through the audit wrapper. */
    ghost var handlerRuns: nat

    constructor()
      ensures entries == [] && handlerRuns == 0
    {
      entries := [];
      handlerRuns := 0;
    }

    /**
     * `logAudit`: stamps the entry, redacts its arguments and appends it.
     * A failed append is swallowed: the log is then left as it was.
     */
    method LogAudit(requestId: string, capability: string, role: Role, args: seq<Member>,
                    result: AuditResult, error: Option<string>, duration: int,
                    now: nat, writeFails: bool)
      modifies this
      ensures handlerRuns == old(handlerRuns)
      ensures old(entries) <= entries
      ensures writeFails ==> entries == old(entries)
      ensures !writeFails ==>
        entries == old(entries) + [LoggedEntry(now, requestId, capability, role, args, result, error, duration)]
    {
      var redacted := Security.RedactObject(args);
      var fullEntry := AuditEntry(now, requestId, capability, role, redacted, result, error, duration);
      if !writeFails {
        entries := entries + [fullEntry];
      }
    }

    /**
     * `auditCapabilityCall`: runs the handler once, then logs one entry for
     * it, on success and on failure alike, and hands back what the handler
     * returned or threw.
     */
    method AuditCapabilityCall(requestId: string, capability: string, role: Role, args: seq<Member>,
                               handler: () -> Outcome, clockStart: nat, clockEnd: nat, writeFails: bool)
      returns (r: Outcome)
      modifies this
      ensures r == handler()
      ensures handlerRuns == old(handlerRuns) + 1
      ensures old(entries) <= entries
      ensures writeFails ==> entries == old(entries)
      ensures !writeFails ==> entries == old(entries) + [EntryFor(requestId, capability, role, args, r, clockStart, clockEnd)]
    {
      var startTime: int := clockStart;
      var outcome := handler();
      handlerRuns := handlerRuns + 1;
      var endTime := clockEnd;
      match outcome {
        case Ok(value) =>
          LogAudit(requestId, capability, role, args, Success, None, endTime - startTime, endTime, writeFails);
          r := Ok(value);
        case Err(message) =>
          LogAudit(requestId, capability, role, args, Error, Some(message), endTime - startTime, endTime, writeFails);
          r := Err(message);
      }
      EntryForIs(requestId, capability, role, args, r, clockStart, clockEnd);
    }
  }
}
