/**
 JSON-RPC dispatch as a function: what one message does to a session and what it answers.

 `Session.Session` is the imperative dispatcher; it is proved to compute these functions.
 */
module Protocol {
  import opened Wrappers
  import opened Json
  import opened Service

  const PARSE_ERROR: int := -32700
  const INVALID_REQUEST: int := -32600
  const METHOD_NOT_FOUND: int := -32601
  const INVALID_PARAMS: int := -32602
  const INTERNAL_ERROR: int := -32603
  const NOT_INITIALIZED: int := -32002

  /** The revision that introduced the optional `serverInfo` members. */
  const METADATA_REVISION: string := "2025-11-25"

  /** The output of one message: an optional response, then notifications to flush. */
  datatype Dispatch = Dispatch(response: Option<Json>, notifications: seq<Json>)

  datatype Outcome = Reply(value: Json) | Fault(code: int, message: string) | Silent

  /** Everything a message can change: the session's handshake flag and the service's history. */
  datatype State = State(initialized: bool, history: History)

  function SuccessResponse(id: Option<Json>, result: Json): Json {
    Obj(map["jsonrpc" := Str("2.0"), "id" := OrNull(id), "result" := result])
  }

  function ErrorResponse(id: Option<Json>, code: int, message: string): Json {
    Obj(map["jsonrpc" := Str("2.0"), "id" := OrNull(id),
            "error" := Obj(map["code" := Int(code), "message" := Str(message)])])
  }

  function ToolErrorResult(message: string): Json {
    Obj(map["isError" := Bool(true),
            "content" := Arr([Obj(map["type" := Str("text"), "text" := Str(message)])])])
  }

  const LIST_CHANGED: Json :=
    Obj(map["jsonrpc" := Str("2.0"), "method" := Str("notifications/tools/list_changed")])

  function Finish(isRequest: bool, id: Option<Json>, outcome: Outcome, notifications: seq<Json>): Dispatch {
    var response :=
      if !isRequest then None
      else match outcome
        case Reply(value) => Some(SuccessResponse(id, value))
        case Fault(code, message) => Some(ErrorResponse(id, code, message))
        case Silent => None;
    Dispatch(response, notifications)
  }

  // ----- initialize -----

  function NegotiateVersion(config: Config, requested: string): string {
    if requested in config.protocolVersions then requested else config.LatestProtocolVersion()
  }

  function WithKey(m: map<string, Json>, key: string, value: Option<string>): map<string, Json> {
    if value.Some? then m[key := Str(value.value)] else m
  }

  function ServerInfo(config: Config, negotiated: string): Json {
    var base := map["name" := Str(config.name), "version" := Str(config.version)];
    Obj(if LexLe(METADATA_REVISION, negotiated) then
          WithKey(WithKey(WithKey(base, "title", config.title), "description", config.description), "websiteUrl", config.websiteUrl)
        else base)
  }

  function InitializeResult(config: Config, params: Json): Json {
    var asked := GetStr(params, "protocolVersion");
    var requested := if asked.Some? then asked.value else config.LatestProtocolVersion();
    var negotiated := NegotiateVersion(config, requested);
    var capabilities := Obj(map["tools" := Obj(map["listChanged" := Bool(config.toolsListChanged)])]);
    var base := map["protocolVersion" := Str(negotiated),
                    "serverInfo" := ServerInfo(config, negotiated),
                    "capabilities" := capabilities];
    Obj(WithKey(base, "instructions", config.instructions))
  }

  // ----- tools -----

  function ToolsJson(service: Service, history: History): Json {
    var tools := service.tools(history);
    Arr(seq(|tools|, i requires 0 <= i < |tools| => tools[i].ToJson()))
  }

  /** The answer to a finished tool call, and whether the tool list changed. */
  function CallOutcome(result: CallResult): (Outcome, seq<Json>) {
    match result
    case Ok(reply) => (Reply(reply.ToResultJson()), if reply.toolsListChanged then [LIST_CHANGED] else [])
    case Err(Tool(message)) => (Reply(ToolErrorResult(message)), [])
    case Err(InvalidParams(message)) => (Reply(ToolErrorResult(message)), [])
    case Err(Internal(message)) => (Fault(INTERNAL_ERROR, message), [])
  }

  datatype Effect = Effect(outcome: Outcome, notifications: seq<Json>, next: State)

  function ToolsCall(service: Service, s: State, params: Json): Effect {
    if !s.initialized then Effect(Fault(NOT_INITIALIZED, "server not initialized"), [], s)
    else
      match GetStr(params, "name")
      case None => Effect(Fault(INVALID_PARAMS, "missing tool name"), [], s)
      case Some(name) =>
        var arguments := OrNull(Get(params, "arguments"));
        var (outcome, notifications) := CallOutcome(service.callTool(s.history, name, arguments));
        Effect(outcome, notifications, s.(history := s.history + [CallTool(name, arguments)]))
  }

  // ----- dispatch -----

  function Perform(config: Config, service: Service, s: State, name: Option<string>, params: Json): Effect {
    match name
    case None => Effect(Fault(INVALID_REQUEST, "missing method"), [], s)
    case Some(verb) =>
      if verb == "initialize" then
        Effect(Reply(InitializeResult(config, params)), [], s.(initialized := true))
      else if verb == "notifications/initialized" || verb == "initialized" then
        Effect(Silent, [], s.(initialized := true))
      else if verb == "ping" then
        Effect(Reply(Obj(map[])), [], s)
      else if verb == "tools/list" then
        Effect(if s.initialized then Reply(Obj(map["tools" := ToolsJson(service, s.history)]))
               else Fault(NOT_INITIALIZED, "server not initialized"), [], s)
      else if verb == "tools/call" then
        ToolsCall(service, s, params)
      else if verb == "shutdown" then
        Effect(Reply(Null), [], State(false, s.history + [Shutdown]))
      else
        Effect(Fault(METHOD_NOT_FOUND, "method not found: " + verb), [], s)
  }

  /** An object that does not claim a JSON-RPC version other than 2.0: the messages that reach a method. */
  predicate Effective(message: Json) {
    message.Obj? && (GetStr(message, "jsonrpc").Some? ==> GetStr(message, "jsonrpc").value == "2.0")
  }

  function Route(config: Config, service: Service, s: State, message: Json): (Dispatch, State) {
    if !message.Obj? then
      var text := if message.Arr? then "batch requests (JSON arrays) are not supported"
                  else "request must be a JSON object";
      (Dispatch(Some(ErrorResponse(Some(Null), INVALID_REQUEST, text)), []), s)
    else
      var id := Get(message, "id");
      if !Effective(message) then
        var version := GetStr(message, "jsonrpc").value;
        (Finish(id.Some?, id, Fault(INVALID_REQUEST, "invalid jsonrpc version: " + version), []), s)
      else
        var e := Perform(config, service, s, GetStr(message, "method"), OrNull(Get(message, "params")));
        (Finish(id.Some?, id, e.outcome, e.notifications), e.next)
  }
}
