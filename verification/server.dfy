/**
 * The tool server's two request handlers: listing the registered
 * capabilities, and calling one. A call is checked against the registry and
 * the session's role before anything runs; only a call that passes both is
 * run, through the audit wrapper.
 */
module Server {
  import opened Wrappers
  import opened JsonValues
  import opened Roles
  import opened Audit

  /** What a handler is told about the call it serves. */
  datatype ExecutionContext = ExecutionContext(role: Role, requestId: string, timestamp: nat)

  /** A capability's handler: the arguments and the context in, a value or an error out. */
  type Handler = (seq<Member>, ExecutionContext) -> Outcome

  datatype Capability = Capability(
    name: string,
    description: string,
    schema: Json,
    requiredRole: Role,
    handler: Handler)

  /** A capability as the tool list shows it. */
  datatype ToolInfo = ToolInfo(name: string, description: string, inputSchema: Json)

  /** The tool list: one entry per capability, in registry order. */
  function ListTools(registry: seq<Capability>): (tools: seq<ToolInfo>)
    ensures |tools| == |registry|
    ensures forall i :: 0 <= i < |registry| ==>
      tools[i] == ToolInfo(registry[i].name, registry[i].description, registry[i].schema)
  {
    if registry == [] then []
    else
      var c := registry[|registry| - 1];
      ListTools(registry[..|registry| - 1]) + [ToolInfo(c.name, c.description, c.schema)]
  }

  /** The position of the first capability registered under `name`, if any. */
  function FindCapability(registry: seq<Capability>, name: string): (r: Option<nat>)
    ensures r.Some? ==> r.value < |registry| && registry[r.value].name == name
    ensures r.Some? ==> forall j :: 0 <= j < r.value ==> registry[j].name != name
    ensures r.None? ==> forall j :: 0 <= j < |registry| ==> registry[j].name != name
  {
    if registry == [] then None
    else if registry[0].name == name then Some(0)
    else match FindCapability(registry[1..], name)
      case None => None
      case Some(i) => Some(i + 1)
  }

  /** A name can be called exactly when the tool list shows it. */
  lemma ListedIffFound(registry: seq<Capability>, name: string)
    ensures FindCapability(registry, name).Some?
      <==> exists i :: 0 <= i < |ListTools(registry)| && ListTools(registry)[i].name == name
  {
    var tools := ListTools(registry);
    if FindCapability(registry, name).Some? {
      var i := FindCapability(registry, name).value;
      assert tools[i].name == name;
    }
  }

  /** What the dispatcher decides about a call before running anything. */
  datatype Decision = NotFound | Denied(required: Role) | Allowed(index: nat)

  /** The two guards of a call: the capability must exist, and the session's role must rank high enough. */
  function Decide(registry: seq<Capability>, role: Role, name: string): (d: Decision)
    ensures d.NotFound? <==> forall j :: 0 <= j < |registry| ==> registry[j].name != name
    ensures d.Denied? ==>
      exists j :: 0 <= j < |registry| && registry[j].name == name && registry[j].requiredRole == d.required
                  && !HasPermission(role, d.required)
    ensures d.Allowed? ==>
      d.index < |registry| && registry[d.index].name == name && HasPermission(role, registry[d.index].requiredRole)
    ensures FindCapability(registry, name).Some? ==>
      var i := FindCapability(registry, name).value;
      (d.Allowed? <==> HasPermission(role, registry[i].requiredRole))
      && (d.Allowed? ==> d.index == i)
      && (d.Denied? ==> d.required == registry[i].requiredRole)
  {
    match FindCapability(registry, name)
    case None => NotFound
    case Some(i) =>
      if HasPermission(role, registry[i].requiredRole) then Allowed(i) else Denied(registry[i].requiredRole)
  }

  /** The reply the client sees: a JSON payload, flagged when it reports a handler failure. */
  datatype CallResponse = CallResponse(payload: Json, isError: bool)

  function NotFoundResponse(name: string): CallResponse {
    CallResponse(Obj([Member("error", Str("Capability not found")), Member("capability", Str(name))]), false)
  }

  function DeniedResponse(required: Role, current: Role): CallResponse {
    CallResponse(Obj([Member("error", Str("Insufficient permissions")),
                      Member("required", Str(RoleName(required))),
                      Member("current", Str(RoleName(current)))]), false)
  }

  /** The reply to a call that reached its handler. */
  function OutcomeResponse(name: string, outcome: Outcome): (r: CallResponse)
    ensures r.isError <==> outcome.Err?
    ensures outcome.Ok? ==> r.payload == outcome.value
  {
    match outcome
    case Ok(value) => CallResponse(value, false)
    case Err(message) => CallResponse(Obj([Member("error", Str(message)), Member("capability", Str(name))]), true)
  }

  /** The rejections are plain replies, never flagged as errors. */
  lemma RejectionsAreNotFlagged(name: string, required: Role, current: Role)
    ensures !NotFoundResponse(name).isError && !DeniedResponse(required, current).isError
  {
  }

  /** The tool server of one session: a fixed registry, the session's role and the shared audit log. */
  class McpServer {
    const registry: seq<Capability>
    const role: Role
    const log: AuditLog

    constructor(registry: seq<Capability>, role: Role, log: AuditLog)
      ensures this.registry == registry && this.role == role && this.log == log
    {
      this.registry := registry;
      this.role := role;
      this.log := log;
    }

    /**
     * The call-tool handler. An unknown name or an insufficient role is
     * answered at once: no handler runs and nothing is audited. Otherwise
     * the handler runs once, with the arguments (an empty object when there
     * are none) and a context carrying the session's role and a fresh
     * request id, and the audit wrapper logs the same id and arguments.
     */
    method CallTool(name: string, args: Option<seq<Member>>, requestId: string,
                    now: nat, clockStart: nat, clockEnd: nat, writeFails: bool)
      returns (resp: CallResponse)
      modifies log
      ensures old(log.entries) <= log.entries
      ensures Decide(registry, role, name) == NotFound ==>
        resp == NotFoundResponse(name)
        && log.entries == old(log.entries) && log.handlerRuns == old(log.handlerRuns)
      ensures Decide(registry, role, name).Denied? ==>
        resp == DeniedResponse(Decide(registry, role, name).required, role)
        && log.entries == old(log.entries) && log.handlerRuns == old(log.handlerRuns)
      ensures Decide(registry, role, name).Allowed? ==>
        var cap := registry[Decide(registry, role, name).index];
        var arguments := args.GetOr([]);
        var outcome := cap.handler(arguments, ExecutionContext(role, requestId, now));
        && log.handlerRuns == old(log.handlerRuns) + 1
        && (writeFails ==> log.entries == old(log.entries))
        && (!writeFails ==> log.entries == old(log.entries) + [EntryFor(requestId, name, role, arguments, outcome, clockStart, clockEnd)])
        && resp == OutcomeResponse(name, outcome)
    {
      match FindCapability(registry, name) {
        case None =>
          resp := NotFoundResponse(name);
        case Some(i) =>
          var capability := registry[i];
          if !HasPermission(role, capability.requiredRole) {
            resp := DeniedResponse(capability.requiredRole, role);
          } else {
            var context := ExecutionContext(role, requestId, now);
            var arguments := args.GetOr([]);
            var handler := capability.handler;
            var result := log.AuditCapabilityCall(requestId, name, role, arguments,
                                                  () => handler(arguments, context),
                                                  clockStart, clockEnd, writeFails);
            resp := OutcomeResponse(name, result);
          }
      }
    }
  }
}
