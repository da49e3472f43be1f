/** The per-connection dispatcher and the core that all connections share. */
module Session {
  import opened Wrappers
  import opened Json
  import opened Service
  import P = Protocol

  /** Shared by every session: fixed configuration and service, and the service's own state. */
  class ServerCore {
    const config: Config
    const service: Service
    var history: History

    constructor (config: Config, service: Service)
      ensures this.config == config && this.service == service && history == []
    {
      this.config, this.service, history := config, service, [];
    }

    method CallTool(name: string, arguments: Json) returns (r: CallResult)
      modifies this
      ensures r == service.callTool(old(history), name, arguments)
      ensures history == old(history) + [ServiceCall.CallTool(name, arguments)]
    {
      r := service.callTool(history, name, arguments);
      history := history + [ServiceCall.CallTool(name, arguments)];
    }

    method Shutdown()
      modifies this
      ensures history == old(history) + [ServiceCall.Shutdown]
    {
      history := history + [ServiceCall.Shutdown];
    }
  }

  class Session {
    const core: ServerCore
    var initialized: bool

    constructor (core: ServerCore)
      ensures this.core == core && !initialized
    {
      this.core, initialized := core, false;
    }

    ghost function State(): P.State
      reads this, core
    {
      P.State(initialized, core.history)
    }

    method HandleInitialize(params: Json) returns (result: Json)
      modifies this
      ensures initialized
      ensures result == P.InitializeResult(core.config, params)
    {
      var asked := GetStr(params, "protocolVersion");
      var requested := if asked.Some? then asked.value else core.config.LatestProtocolVersion();
      var negotiated := P.NegotiateVersion(core.config, requested);

      initialized := true;

      var serverInfo := map["name" := Str(core.config.name), "version" := Str(core.config.version)];
      if LexLe(P.METADATA_REVISION, negotiated) {
        if core.config.title.Some? {
          serverInfo := serverInfo["title" := Str(core.config.title.value)];
        }
        if core.config.description.Some? {
          serverInfo := serverInfo["description" := Str(core.config.description.value)];
        }
        if core.config.websiteUrl.Some? {
          serverInfo := serverInfo["websiteUrl" := Str(core.config.websiteUrl.value)];
        }
      }

      var fields := map[
        "protocolVersion" := Str(negotiated),
        "serverInfo" := Obj(serverInfo),
        "capabilities" := Obj(map["tools" := Obj(map["listChanged" := Bool(core.config.toolsListChanged)])])];
      if core.config.instructions.Some? {
        fields := fields["instructions" := Str(core.config.instructions.value)];
      }
      result := Obj(fields);
    }

    method HandleToolsCall(params: Json) returns (outcome: P.Outcome, notifications: seq<Json>)
      modifies core
      ensures P.Effect(outcome, notifications, State()) == P.ToolsCall(core.service, old(State()), params)
    {
      notifications := [];
      if !initialized {
        return P.Fault(P.NOT_INITIALIZED, "server not initialized"), notifications;
      }
      var name := GetStr(params, "name");
      if name.None? {
        return P.Fault(P.INVALID_PARAMS, "missing tool name"), notifications;
      }
      var arguments := OrNull(Get(params, "arguments"));
      var result := core.CallTool(name.value, arguments);
      match result
      case Ok(reply) =>
        if reply.toolsListChanged {
          notifications := notifications + [P.LIST_CHANGED];
        }
        outcome := P.Reply(reply.ToResultJson());
      case Err(Tool(message)) =>
        outcome := P.Reply(P.ToolErrorResult(message));
      case Err(InvalidParams(message)) =>
        outcome := P.Reply(P.ToolErrorResult(message));
      case Err(Internal(message)) =>
        outcome := P.Fault(P.INTERNAL_ERROR, message);
    }

    /** Handle one parsed message: the response, the notifications and the whole new state. */
    method Route(message: Json) returns (d: P.Dispatch)
      modifies this, core
      ensures (d, State()) == P.Route(core.config, core.service, old(State()), message)
    {
      if !message.Obj? {
        var text := if message.Arr? then "batch requests (JSON arrays) are not supported"
                    else "request must be a JSON object";
        return P.Dispatch(Some(P.ErrorResponse(Some(Null), P.INVALID_REQUEST, text)), []);
      }
      var id := Get(message, "id");
      var isRequest := id.Some?;
      var version := GetStr(message, "jsonrpc");
      if version.Some? && version.value != "2.0" {
        var refusal := P.Fault(P.INVALID_REQUEST, "invalid jsonrpc version: " + version.value);
        return P.Finish(isRequest, id, refusal, []);
      }
      var verb := GetStr(message, "method");
      var params := OrNull(Get(message, "params"));
      var notifications: seq<Json> := [];
      var outcome;
      if verb.None? {
        outcome := P.Fault(P.INVALID_REQUEST, "missing method");
      } else if verb.value == "initialize" {
        var result := HandleInitialize(params);
        outcome := P.Reply(result);
      } else if verb.value == "notifications/initialized" || verb.value == "initialized" {
        initialized := true;
        outcome := P.Silent;
      } else if verb.value == "ping" {
        outcome := P.Reply(Obj(map[]));
      } else if verb.value == "tools/list" {
        if !initialized {
          outcome := P.Fault(P.NOT_INITIALIZED, "server not initialized");
        } else {
          outcome := P.Reply(Obj(map["tools" := P.ToolsJson(core.service, core.history)]));
        }
      } else if verb.value == "tools/call" {
        outcome, notifications := HandleToolsCall(params);
      } else if verb.value == "shutdown" {
        core.Shutdown();
        initialized := false;
        outcome := P.Reply(Null);
      } else {
        outcome := P.Fault(P.METHOD_NOT_FOUND, "method not found: " + verb.value);
      }
      d := P.Finish(isRequest, id, outcome, notifications);
    }
  }
}
