/**
 What a client finds on the wire, message by message.

 Every message falls under exactly one of the lemmas below. Each says which values the message
 makes the server send, in order, and what becomes of the session, in the words of `Messages`.
 */
module OnTheWire {
  import opened Wrappers
  import opened Json
  import opened Service
  import opened Messages
  import opened SessionRuns
  import opened Versions
  import P = Protocol

  /** One message served on its own: the values sent, and the state after it. */
  function Exchange(config: Config, service: Service, s: P.State, message: Json): (seq<Json>, P.State) {
    var (dispatches, next) := Serve(config, service, s, [message]);
    (Wire(dispatches), next)
  }

  /** Only a request is answered. */
  function IfRequest(message: Json, answer: Json): seq<Json> {
    if IsRequest(message) then [answer] else []
  }

  lemma ExchangeIs(config: Config, service: Service, s: P.State, message: Json)
    ensures var (d, next) := P.Route(config, service, s, message);
            Exchange(config, service, s, message) == (Sent(d), next)
  {
    hide P.Route, Sent;
    var (d, next) := P.Route(config, service, s, message);
    var one := [message];
    assert one[0] == message && one[1..] == [];
    assert Serve(config, service, next, []) == ([], next);
    assert Serve(config, service, s, one) == ([d] + [], next);
    var ds := [d];
    assert ds + [] == ds && ds[0] == d && ds[1..] == [];
    assert Wire(ds) == Sent(d) + [];
    assert Sent(d) + [] == Sent(d);
  }

  lemma FinishSends(message: Json, outcome: P.Outcome, notifications: seq<Json>)
    requires message.Obj?
    ensures Sent(P.Finish(Get(message, "id").Some?, Get(message, "id"), outcome, notifications)) ==
              (match outcome
               case Reply(value) => IfRequest(message, ResultMessage(Id(message), value))
               case Fault(code, text) => IfRequest(message, ErrorMessage(Id(message), code, text))
               case Silent => [])
              + notifications
  {
    hide P.SuccessResponse, P.ErrorResponse;
    match outcome
    case Reply(value) => SuccessIsResponse(Get(message, "id"), value);
    case Fault(code, text) => ErrorIsResponse(Get(message, "id"), code, text);
    case Silent =>
  }

  /** An object in a version the server speaks sends what its method does. */
  lemma CurrentSends(config: Config, service: Service, s: P.State, message: Json, e: P.Effect)
    requires IsCurrent(message)
    requires e == P.Perform(config, service, s, GetStr(message, "method"), Params(message))
    ensures Exchange(config, service, s, message) ==
              ((match e.outcome
                case Reply(value) => IfRequest(message, ResultMessage(Id(message), value))
                case Fault(code, text) => IfRequest(message, ErrorMessage(Id(message), code, text))
                case Silent => [])
               + e.notifications, e.next)
  {
    hide P.Perform, P.Finish, IfRequest, ResultMessage, ErrorMessage;
    ExchangeIs(config, service, s, message);
    GateIsLiteral(message);
    FinishSends(message, e.outcome, e.notifications);
  }

  // ----- What is refused, with what code and text -----

  function ShapeText(message: Json): string {
    if message.Arr? then "batch requests (JSON arrays) are not supported" else "request must be a JSON object"
  }

  /** Anything but an object is refused with a null id, and does nothing. */
  lemma NonObjectOnTheWire(config: Config, service: Service, s: P.State, message: Json)
    requires !message.Obj?
    ensures Exchange(config, service, s, message) == ([ErrorMessage(Null, -32600, ShapeText(message))], s)
  {
    hide P.Perform, P.ErrorResponse;
    ExchangeIs(config, service, s, message);
    ErrorIsResponse(Some(Null), -32600, ShapeText(message));
    var answer := [ErrorMessage(Null, -32600, ShapeText(message))];
    assert answer + [] == answer;
  }

  /**
   The version gate: any other version string is refused and does nothing; a message that claims
   2.0, or no version, and names a method is never refused as invalid, and takes its effect.
   */
  lemma VersionGate(config: Config, service: Service, s: P.State, message: Json)
    requires message.Obj?
    ensures HasText(message, "jsonrpc") && message.fields["jsonrpc"].s != "2.0" ==>
              Exchange(config, service, s, message) ==
                (IfRequest(message, ErrorMessage(Id(message), -32600, "invalid jsonrpc version: " + message.fields["jsonrpc"].s)), s)
    ensures (!HasText(message, "jsonrpc") || message.fields["jsonrpc"].s == "2.0") && HasText(message, "method") ==>
              var verb := message.fields["method"].s;
              var (sent, next) := Exchange(config, service, s, message);
              && (forall i :: 0 <= i < |sent| ==> !IsErrorWith(sent[i], -32600))
              && next.initialized ==
                   (verb in {"initialize", "initialized", "notifications/initialized"} || (verb != "shutdown" && s.initialized))
              && next.history == s.history +
                   (if verb == "shutdown" then [Shutdown]
                    else if verb == "tools/call" && s.initialized && HasText(Params(message), "name") then
                      [CallTool(Params(message).fields["name"].s, ToolArguments(message))]
                    else [])
  {
    hide P.Perform, Exchange;
    if HasText(message, "jsonrpc") && message.fields["jsonrpc"].s != "2.0" {
      WrongVersion(config, service, s, message);
    } else if HasText(message, "method") {
      NeverInvalid(config, service, s, message);
      ExchangeIs(config, service, s, message);
      RouteSetsFlag(config, service, s, message);
      RouteCalls(config, service, s, message);
    }
  }

  lemma WrongVersion(config: Config, service: Service, s: P.State, message: Json)
    requires HasText(message, "jsonrpc") && message.fields["jsonrpc"].s != "2.0"
    ensures Exchange(config, service, s, message) ==
              (IfRequest(message, ErrorMessage(Id(message), -32600, "invalid jsonrpc version: " + message.fields["jsonrpc"].s)), s)
  {
    hide P.Perform, P.Finish;
    ExchangeIs(config, service, s, message);
    var text := "invalid jsonrpc version: " + message.fields["jsonrpc"].s;
    FinishSends(message, P.Fault(-32600, text), []);
    var answer := IfRequest(message, ErrorMessage(Id(message), -32600, text));
    assert answer + [] == answer;
  }

  lemma NeverInvalid(config: Config, service: Service, s: P.State, message: Json)
    requires IsCurrent(message) && HasMethod(message)
    ensures forall i :: 0 <= i < |Exchange(config, service, s, message).0| ==>
              !IsErrorWith(Exchange(config, service, s, message).0[i], -32600)
  {
    hide P.InitializeResult, P.ToolsJson, Exchange;
    var e := P.Perform(config, service, s, GetStr(message, "method"), Params(message));
    CurrentSends(config, service, s, message, e);
    assert e.outcome.Fault? ==> e.outcome.code != -32600;
    assert forall i :: 0 <= i < |e.notifications| ==> !Has(e.notifications[i], "error");
  }

  /** The refusals of a message in a version the server speaks. None of them does anything. */
  lemma RefusalsOnTheWire(config: Config, service: Service, s: P.State, message: Json)
    requires IsCurrent(message)
    ensures var sends := (code: int, text: string) =>
              Exchange(config, service, s, message) == (IfRequest(message, ErrorMessage(Id(message), code, text)), s);
            && (!HasMethod(message) ==> sends(-32600, "missing method"))
            && (HasMethod(message) && message.fields["method"].s !in METHODS ==>
                  sends(-32601, "method not found: " + message.fields["method"].s))
            && (Asks(message, "tools/list") && !s.initialized ==> sends(-32002, "server not initialized"))
            && (Asks(message, "tools/call") && !s.initialized ==> sends(-32002, "server not initialized"))
            && (Asks(message, "tools/call") && s.initialized && !CallsTool(message) ==>
                  sends(-32602, "missing tool name"))
  {
    hide P.InitializeResult, P.ToolsJson, P.CallOutcome, Exchange, ErrorMessage, ResultMessage, IfRequest;
    var e := P.Perform(config, service, s, GetStr(message, "method"), Params(message));
    CurrentSends(config, service, s, message, e);
    if e.outcome.Fault? && e.notifications == [] {
      var answer := IfRequest(message, ErrorMessage(Id(message), e.outcome.code, e.outcome.message));
      assert answer + e.notifications == answer;
    }
  }

  // ----- What is granted -----

  /** `ping` is answered with an empty object and does nothing. */
  lemma PingOnTheWire(config: Config, service: Service, s: P.State, message: Json)
    requires Asks(message, "ping")
    ensures Exchange(config, service, s, message) == (IfRequest(message, ResultMessage(Id(message), Obj(map[]))), s)
  {
    hide Exchange, ResultMessage, IfRequest;
    CurrentSends(config, service, s, message, P.Effect(P.Reply(Obj(map[])), [], s));
    var answer := IfRequest(message, ResultMessage(Id(message), Obj(map[])));
    assert answer + [] == answer;
  }

  /** `shutdown` is answered with null, tells the service and ends the handshake. */
  lemma ShutdownOnTheWire(config: Config, service: Service, s: P.State, message: Json)
    requires Asks(message, "shutdown")
    ensures Exchange(config, service, s, message) ==
              (IfRequest(message, ResultMessage(Id(message), Null)), P.State(false, s.history + [Shutdown]))
  {
    hide Exchange, ResultMessage, IfRequest;
    CurrentSends(config, service, s, message, P.Effect(P.Reply(Null), [], P.State(false, s.history + [Shutdown])));
    var answer := IfRequest(message, ResultMessage(Id(message), Null));
    assert answer + [] == answer;
  }

  /** The acknowledgement of the handshake is answered by nothing, even with an id. */
  lemma AcknowledgementOnTheWire(config: Config, service: Service, s: P.State, message: Json)
    requires IsAcknowledgement(message)
    ensures Exchange(config, service, s, message) == ([], s.(initialized := true))
  {
    hide Exchange, ResultMessage, IfRequest;
    var none: seq<Json> := [];
    CurrentSends(config, service, s, message, P.Effect(P.Silent, none, s.(initialized := true)));
    assert none + none == none;
  }

  // ----- initialize -----

  /** The version both sides settle on: the one asked for if it is configured, else the last configured. */
  function AgreedVersion(config: Config, params: Json): string {
    if HasText(params, "protocolVersion") && params.fields["protocolVersion"].s in config.protocolVersions then
      params.fields["protocolVersion"].s
    else if config.protocolVersions == [] then "2025-11-25"
    else config.protocolVersions[|config.protocolVersions| - 1]
  }

  /** The member is this string, or absent when there is none. */
  predicate SaysIfSet(j: Json, key: string, value: Option<string>) {
    match value
    case Some(text) => Says(j, key, text)
    case None => !Has(j, key)
  }

  function If(condition: bool, value: Option<string>): Option<string> {
    if condition then value else None
  }

  /** What `serverInfo` tells a client, with or without the members that came with revision 2025-11-25. */
  ghost predicate Introduces(info: Json, config: Config, late: bool) {
    && Says(info, "name", config.name) && Says(info, "version", config.version)
    && SaysIfSet(info, "title", If(late, config.title))
    && SaysIfSet(info, "description", If(late, config.description))
    && SaysIfSet(info, "websiteUrl", If(late, config.websiteUrl))
    && info.fields.Keys <= {"name", "version", "title", "description", "websiteUrl"}
  }

  ghost predicate Welcomes(result: Json, config: Config, version: string) {
    && Says(result, "protocolVersion", version)
    && Has(result, "serverInfo") && Introduces(result.fields["serverInfo"], config, LexLe("2025-11-25", version))
    && Has(result, "capabilities")
    && result.fields["capabilities"] == Obj(map["tools" := Obj(map["listChanged" := Bool(config.toolsListChanged)])])
    && SaysIfSet(result, "instructions", config.instructions)
    && result.fields.Keys <= {"protocolVersion", "serverInfo", "capabilities", "instructions"}
  }

  lemma InfoIntroduces(config: Config, version: string)
    ensures Introduces(P.ServerInfo(config, version), config, LexLe("2025-11-25", version))
  {
    hide LexLe;
  }

  lemma ResultWelcomes(config: Config, params: Json)
    ensures Welcomes(P.InitializeResult(config, params), config, AgreedVersion(config, params))
  {
    hide P.ServerInfo, Introduces, LexLe;
    InfoIntroduces(config, AgreedVersion(config, params));
  }

  /** An initialize request is answered for the version agreed on, from what it asked; the session opens. */
  lemma InitializeOnTheWire(config: Config, service: Service, s: P.State, message: Json)
    requires Asks(message, "initialize")
    ensures Exchange(config, service, s, message).1 == s.(initialized := true)
    ensures exists result :: Welcomes(result, config, AgreedVersion(config, Params(message)))
              && Exchange(config, service, s, message).0 == IfRequest(message, ResultMessage(Id(message), result))
  {
    hide Exchange, ResultMessage, IfRequest, P.InitializeResult, Welcomes;
    var result := P.InitializeResult(config, Params(message));
    CurrentSends(config, service, s, message, P.Effect(P.Reply(result), [], s.(initialized := true)));
    ResultWelcomes(config, Params(message));
    var answer := IfRequest(message, ResultMessage(Id(message), result));
    assert answer + [] == answer;
  }

  /** The version a client is told is stable: asking for it again gets it again. And for a dated one, late means late. */
  lemma AgreementIsStable(config: Config, params: Json, again: Json)
    requires Says(again, "protocolVersion", AgreedVersion(config, params))
    ensures AgreedVersion(config, again) == AgreedVersion(config, params)
    ensures forall d: Date :: Writable(d) && AgreedVersion(config, params) == DateText(d) ==>
              (LexLe("2025-11-25", AgreedVersion(config, params)) <==> NotLater(Date(2025, 11, 25), d))
  {
    hide LexLe, DateText;
    forall d: Date | Writable(d) && AgreedVersion(config, params) == DateText(d)
      ensures LexLe("2025-11-25", DateText(d)) <==> NotLater(Date(2025, 11, 25), d)
    {
      MetadataRevisionText();
      RevisionOrder(Date(2025, 11, 25), d);
    }
  }

  // ----- tools -----

  /** A block is a text block carrying its text, or the raw value itself. */
  predicate Carries(block: Json, content: Content) {
    match content
    case Text(t) => Says(block, "type", "text") && Says(block, "text", t)
    case Raw(v) => block == v
  }

  /** A tool result: its blocks in order, its error flag, and structured content exactly when there is some. */
  ghost predicate Reports(result: Json, content: seq<Content>, isError: bool, structured: Option<Json>) {
    && Has(result, "content") && result.fields["content"].Arr? && |result.fields["content"].items| == |content|
    && (forall i :: 0 <= i < |content| ==> Carries(result.fields["content"].items[i], content[i]))
    && Has(result, "isError") && result.fields["isError"] == Bool(isError)
    && (match structured
        case Some(v) => Has(result, "structuredContent") && result.fields["structuredContent"] == v
        case None => !Has(result, "structuredContent"))
  }

  lemma ReplyReports(reply: ToolReply)
    ensures Reports(reply.ToResultJson(), reply.content, reply.isError, reply.structured)
  {
    var items := reply.ToResultJson().fields["content"].items;
    forall i | 0 <= i < |reply.content| ensures Carries(items[i], reply.content[i]) {
      assert items[i] == reply.content[i].ToJson();
    }
  }

  lemma ToolErrorReports(text: string)
    ensures Reports(P.ToolErrorResult(text), [Text(text)], true, None)
  {
    assert Carries(Obj(map["type" := Str("text"), "text" := Str(text)]), Text(text));
  }

  /** The values a finished call sends: an answer if it was a request, then the announcement if the tools changed. */
  ghost predicate CallSends(sent: seq<Json>, message: Json, called: CallResult) {
    match called
    case Ok(reply) =>
      exists result :: Reports(result, reply.content, reply.isError, reply.structured)
        && sent == IfRequest(message, ResultMessage(Id(message), result))
                 + (if reply.toolsListChanged then [ListChangedMessage()] else [])
    case Err(Internal(text)) =>
      sent == IfRequest(message, ErrorMessage(Id(message), -32603, text))
    case Err(e) =>
      exists result :: Reports(result, [Text(e.message)], true, None)
        && sent == IfRequest(message, ResultMessage(Id(message), result))
  }

  /**
   A tool call in an initialized session, with or without an id: the service is asked once, with
   the name and arguments of the message; a tool-level failure of either kind is a result the
   model can read; only an internal fault is a protocol error.
   */
  lemma CallOnTheWire(config: Config, service: Service, s: P.State, message: Json)
    requires CallsTool(message) && s.initialized
    ensures var name, args := ToolName(message), ToolArguments(message);
            var (sent, next) := Exchange(config, service, s, message);
            && next == s.(history := s.history + [CallTool(name, args)])
            && CallSends(sent, message, service.callTool(s.history, name, args))
  {
    hide Exchange, ResultMessage, ErrorMessage, IfRequest, Reports, P.ToolErrorResult;
    var name, args := ToolName(message), ToolArguments(message);
    var called := service.callTool(s.history, name, args);
    var (outcome, notifications) := P.CallOutcome(called);
    CurrentSends(config, service, s, message,
                 P.Effect(outcome, notifications, s.(history := s.history + [CallTool(name, args)])));
    OutcomeSends(message, called);
  }

  lemma OutcomeSends(message: Json, called: CallResult)
    ensures var (outcome, notifications) := P.CallOutcome(called);
            outcome != P.Silent &&
            CallSends((match outcome
                       case Reply(value) => IfRequest(message, ResultMessage(Id(message), value))
                       case Fault(code, text) => IfRequest(message, ErrorMessage(Id(message), code, text))
                       case Silent => [])
                      + notifications, message, called)
  {
    hide ResultMessage, ErrorMessage, IfRequest, Reports, P.ToolErrorResult;
    match called
    case Ok(reply) =>
      ReplyReports(reply);
    case Err(Internal(text)) =>
      var answer := IfRequest(message, ErrorMessage(Id(message), -32603, text));
      assert answer + [] == answer;
    case Err(e) =>
      ToolErrorReports(e.message);
      var answer := IfRequest(message, ResultMessage(Id(message), P.ToolErrorResult(e.message)));
      assert answer + [] == answer;
  }

  /** A listed tool reads back as it was defined: its schema verbatim, its annotations exactly when set. */
  ghost predicate Describes(j: Json, tool: ToolDef) {
    && Says(j, "name", tool.name) && Says(j, "description", tool.description)
    && Has(j, "inputSchema") && j.fields["inputSchema"] == tool.inputSchema
    && (match tool.annotations
        case Some(v) => Has(j, "annotations") && j.fields["annotations"] == v
        case None => !Has(j, "annotations"))
    && j.fields.Keys <= {"name", "description", "inputSchema", "annotations"}
  }

  ghost predicate Lists(result: Json, tools: seq<ToolDef>) {
    && Has(result, "tools") && result.fields["tools"].Arr? && |result.fields["tools"].items| == |tools|
    && forall i :: 0 <= i < |tools| ==> Describes(result.fields["tools"].items[i], tools[i])
  }

  lemma ToolsJsonLists(service: Service, h: History)
    ensures Lists(Obj(map["tools" := P.ToolsJson(service, h)]), service.tools(h))
  {
    var tools := service.tools(h);
    var items := P.ToolsJson(service, h).items;
    forall i | 0 <= i < |tools| ensures Describes(items[i], tools[i]) {
      assert items[i] == tools[i].ToJson();
    }
  }

  /** Listing in an initialized session names every tool the service offers then, in order, and does nothing. */
  lemma ListOnTheWire(config: Config, service: Service, s: P.State, message: Json)
    requires Asks(message, "tools/list") && s.initialized
    ensures Exchange(config, service, s, message).1 == s
    ensures exists result :: Lists(result, service.tools(s.history))
              && Exchange(config, service, s, message).0 == IfRequest(message, ResultMessage(Id(message), result))
  {
    hide Exchange, ResultMessage, IfRequest, P.ToolsJson, Lists;
    var result := Obj(map["tools" := P.ToolsJson(service, s.history)]);
    CurrentSends(config, service, s, message, P.Effect(P.Reply(result), [], s));
    ToolsJsonLists(service, s.history);
    var answer := IfRequest(message, ResultMessage(Id(message), result));
    assert answer + [] == answer;
  }

  // ----- In a conversation -----

  lemma {:induction false} WireConcat(a: seq<P.Dispatch>, b: seq<P.Dispatch>)
    ensures Wire(a + b) == Wire(a) + Wire(b)
    decreases |a|
  {
    hide Sent;
    if a == [] {
      assert a + b == b;
    } else {
      assert (a + b)[1..] == a[1..] + b;
      WireConcat(a[1..], b);
      assert Sent(a[0]) + (Wire(a[1..]) + Wire(b)) == Sent(a[0]) + Wire(a[1..]) + Wire(b);
    }
  }

  lemma {:induction false} ServeConcat(config: Config, service: Service, s: P.State, a: seq<Json>, b: seq<Json>)
    ensures var (first, mid) := Serve(config, service, s, a);
            var (second, end) := Serve(config, service, mid, b);
            Serve(config, service, s, a + b) == (first + second, end)
    decreases |a|
  {
    hide P.Route;
    if a == [] {
      assert a + b == b;
      assert [] + Serve(config, service, s, b).0 == Serve(config, service, s, b).0;
    } else {
      assert (a + b)[1..] == a[1..] + b;
      var (d, next) := P.Route(config, service, s, a[0]);
      ServeConcat(config, service, next, a[1..], b);
      var (first, mid) := Serve(config, service, next, a[1..]);
      var second := Serve(config, service, mid, b).0;
      assert [d] + (first + second) == ([d] + first) + second;
    }
  }

  /** What a message sends stands between what the messages before it and after it send. */
  lemma ExchangeInContext(config: Config, service: Service, s: P.State, before: seq<Json>, message: Json, after: seq<Json>)
    ensures var (first, mid) := Serve(config, service, s, before);
            var (sent, next) := Exchange(config, service, mid, message);
            var (last, end) := Serve(config, service, next, after);
            var (all, final) := Serve(config, service, s, before + [message] + after);
            Wire(all) == Wire(first) + sent + Wire(last) && final == end
  {
    hide Serve, Wire;
    var (first, mid) := Serve(config, service, s, before);
    var (one, next) := Serve(config, service, mid, [message]);
    var last := Serve(config, service, next, after).0;
    ServeConcat(config, service, s, before + [message], after);
    ServeConcat(config, service, s, before, [message]);
    WireConcat(first + one, last);
    WireConcat(first, one);
  }

  /** A call that is answered and changed the tools puts its answer immediately before the announcement. */
  lemma AnnouncementFollowsAnswer(config: Config, service: Service, s: P.State, before: seq<Json>, message: Json, after: seq<Json>)
    requires CallsTool(message) && IsRequest(message)
    requires var mid := Serve(config, service, s, before).1;
             && mid.initialized
             && var called := service.callTool(mid.history, ToolName(message), ToolArguments(message));
             called.Ok? && called.value.toolsListChanged
    ensures exists result, later ::
              Wire(Serve(config, service, s, before + [message] + after).0) ==
                Wire(Serve(config, service, s, before).0) + [ResultMessage(Id(message), result), ListChangedMessage()] + later
  {
    hide Serve, Wire, Exchange, Reports, ResultMessage, ListChangedMessage;
    var (first, mid) := Serve(config, service, s, before);
    var (sent, next) := Exchange(config, service, mid, message);
    CallOnTheWire(config, service, mid, message);
    ExchangeInContext(config, service, s, before, message, after);
    var reply := service.callTool(mid.history, ToolName(message), ToolArguments(message)).value;
    var result :| Reports(result, reply.content, reply.isError, reply.structured)
               && sent == IfRequest(message, ResultMessage(Id(message), result)) + [ListChangedMessage()];
    assert sent == [ResultMessage(Id(message), result), ListChangedMessage()];
    var later := Wire(Serve(config, service, next, after).0);
    assert Wire(Serve(config, service, s, before + [message] + after).0)
        == Wire(first) + [ResultMessage(Id(message), result), ListChangedMessage()] + later;
  }

  // ----- Error codes -----

  predicate RefusedWith(sent: seq<Json>, code: int) {
    exists i :: 0 <= i < |sent| && IsErrorWith(sent[i], code)
  }

  /** The tool call of a message ends in an internal fault of the service. */
  predicate BreaksDown(service: Service, h: History, message: Json) {
    CallsTool(message) &&
    var r := service.callTool(h, ToolName(message), ToolArguments(message));
    r.Err? && r.error.Internal?
  }

  /** For each error code, exactly which messages due an answer are refused with it. */
  lemma ErrorCodes(config: Config, service: Service, s: P.State, message: Json)
    requires !message.Obj? || IsRequest(message)
    ensures var sent := Exchange(config, service, s, message).0;
            && (RefusedWith(sent, -32600) <==> !IsCurrent(message) || !HasMethod(message))
            && (RefusedWith(sent, -32601) <==>
                  IsCurrent(message) && HasMethod(message) && message.fields["method"].s !in METHODS)
            && (RefusedWith(sent, -32002) <==>
                  (Asks(message, "tools/list") || Asks(message, "tools/call")) && !s.initialized)
            && (RefusedWith(sent, -32602) <==> Asks(message, "tools/call") && s.initialized && !CallsTool(message))
            && (RefusedWith(sent, -32603) <==> s.initialized && BreaksDown(service, s.history, message))
  {
    hide Exchange, P.InitializeResult, P.ToolsJson;
    if !message.Obj? {
      NonObjectOnTheWire(config, service, s, message);
      OneErrorCode(Null, -32600, ShapeText(message));
    } else if !IsCurrent(message) {
      WrongVersion(config, service, s, message);
      OneErrorCode(Id(message), -32600, "invalid jsonrpc version: " + message.fields["jsonrpc"].s);
    } else {
      var e := P.Perform(config, service, s, GetStr(message, "method"), Params(message));
      CurrentSends(config, service, s, message, e);
      EffectCode(message, e);
      PerformCodes(config, service, s, message);
    }
  }

  lemma OneErrorCode(id: Json, code: int, text: string)
    ensures forall c :: RefusedWith([ErrorMessage(id, code, text)], c) <==> c == code
  {
    assert IsErrorWith([ErrorMessage(id, code, text)][0], code);
  }

  lemma EffectCode(message: Json, e: P.Effect)
    requires IsRequest(message)
    requires forall i :: 0 <= i < |e.notifications| ==> e.notifications[i] == ListChangedMessage()
    ensures var sent := (match e.outcome
                         case Reply(value) => IfRequest(message, ResultMessage(Id(message), value))
                         case Fault(code, text) => IfRequest(message, ErrorMessage(Id(message), code, text))
                         case Silent => []) + e.notifications;
            forall c :: RefusedWith(sent, c) <==> e.outcome.Fault? && e.outcome.code == c
  {
    assert !Has(ListChangedMessage(), "error");
    var sent := (match e.outcome
                 case Reply(value) => IfRequest(message, ResultMessage(Id(message), value))
                 case Fault(code, text) => IfRequest(message, ErrorMessage(Id(message), code, text))
                 case Silent => []) + e.notifications;
    if e.outcome.Fault? {
      assert IsErrorWith(sent[0], e.outcome.code);
    }
  }

  lemma PerformCodes(config: Config, service: Service, s: P.State, message: Json)
    requires IsCurrent(message)
    ensures var e := P.Perform(config, service, s, GetStr(message, "method"), Params(message));
            && (forall i :: 0 <= i < |e.notifications| ==> e.notifications[i] == ListChangedMessage())
            && (e.outcome.Fault? <==>
                  || !HasMethod(message)
                  || message.fields["method"].s !in METHODS
                  || ((Asks(message, "tools/list") || Asks(message, "tools/call")) && !s.initialized)
                  || (Asks(message, "tools/call") && (!CallsTool(message) || BreaksDown(service, s.history, message))))
            && (e.outcome.Fault? ==>
                  e.outcome.code == (if !HasMethod(message) then -32600
                                     else if message.fields["method"].s !in METHODS then -32601
                                     else if !s.initialized then -32002
                                     else if !CallsTool(message) then -32602
                                     else -32603))
  {
    hide P.InitializeResult, P.ToolsJson;
  }
}
