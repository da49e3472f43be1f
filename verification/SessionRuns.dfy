/**
 Whole conversations: what a session guarantees over any sequence of messages.
 */
module SessionRuns {
  import opened Wrappers
  import opened Json
  import opened Service
  import opened Messages
  import opened Protocol

  /** The dispatches of a conversation, in order, and the state it ends in. */
  function Serve(config: Config, service: Service, s: State, messages: seq<Json>): (r: (seq<Dispatch>, State))
    ensures |r.0| == |messages|
    decreases |messages|
  {
    if messages == [] then ([], s)
    else
      var (d, next) := Route(config, service, s, messages[0]);
      var (more, end) := Serve(config, service, next, messages[1..]);
      ([d] + more, end)
  }

  /** The values a dispatch puts on the wire: its response, then its notifications. */
  function Sent(d: Dispatch): seq<Json> {
    (if d.response.Some? then [d.response.value] else []) + d.notifications
  }

  function Wire(dispatches: seq<Dispatch>): seq<Json> {
    if dispatches == [] then [] else Sent(dispatches[0]) + Wire(dispatches[1..])
  }

  // ----- Who gets an answer (JSON-RPC 2.0, sections 4.1, 5 and 5.1) -----

  predicate Answerable(message: Json) {
    !message.Obj? || (IsRequest(message) && !IsAcknowledgement(message))
  }

  /** The dispatcher's tests are the tests of the protocol. */
  lemma GateIsLiteral(message: Json)
    ensures Effective(message) <==> IsCurrent(message)
    ensures forall verb :: Asks(message, verb) <==> Effective(message) && GetStr(message, "method") == Some(verb)
    ensures Get(message, "id").Some? <==> IsRequest(message)
    ensures OrNull(Get(message, "id")) == Id(message) && OrNull(Get(message, "params")) == Params(message)
  {}

  lemma SuccessIsResponse(id: Option<Json>, result: Json)
    ensures SuccessResponse(id, result) == ResultMessage(OrNull(id), result)
    ensures IsResponse(SuccessResponse(id, result), OrNull(id))
  {}

  lemma ErrorIsResponse(id: Option<Json>, code: int, message: string)
    ensures ErrorResponse(id, code, message) == ErrorMessage(OrNull(id), code, message)
    ensures IsResponse(ErrorResponse(id, code, message), OrNull(id))
  {}

  lemma FinishAnswers(isRequest: bool, id: Option<Json>, outcome: Outcome, notifications: seq<Json>)
    ensures var d := Finish(isRequest, id, outcome, notifications);
            && d.notifications == notifications
            && (d.response.Some? <==> isRequest && outcome != Silent)
            && (d.response.Some? ==> IsResponse(d.response.value, OrNull(id)))
  {
    hide IsResponse, SuccessResponse, ErrorResponse;
    match outcome
    case Reply(value) => SuccessIsResponse(id, value);
    case Fault(code, message) => ErrorIsResponse(id, code, message);
    case Silent =>
  }

  lemma SilentIsAcknowledgement(config: Config, service: Service, s: State, message: Json)
    requires Effective(message)
    ensures var e := Perform(config, service, s, GetStr(message, "method"), OrNull(Get(message, "params")));
            && (e.outcome == Silent <==> IsAcknowledgement(message))
            && (forall i :: 0 <= i < |e.notifications| ==> e.notifications[i] == ListChangedMessage())
  {
    hide InitializeResult, ToolsJson;
  }

  lemma NonObjectAnswers(message: Json)
    requires !message.Obj?
    ensures Id(message) == Null
  {}

  /** One message is answered exactly when it is due an answer, by one well-formed response to its own id. */
  lemma AnswersItsOwn(config: Config, service: Service, s: State, message: Json)
    ensures var d := Route(config, service, s, message).0;
            && (d.response.Some? <==> Answerable(message))
            && (d.response.Some? ==> IsResponse(d.response.value, Id(message)))
            && (forall i :: 0 <= i < |d.notifications| ==> d.notifications[i] == ListChangedMessage())
  {
    hide Perform, Finish, IsResponse, ErrorResponse;
    GateIsLiteral(message);
    if !message.Obj? {
      ErrorIsResponse(Some(Null), INVALID_REQUEST, "batch requests (JSON arrays) are not supported");
      ErrorIsResponse(Some(Null), INVALID_REQUEST, "request must be a JSON object");
      NonObjectAnswers(message);
    } else {
      var id := Get(message, "id");
      if Effective(message) {
        var e := Perform(config, service, s, GetStr(message, "method"), OrNull(Get(message, "params")));
        SilentIsAcknowledgement(config, service, s, message);
        FinishAnswers(id.Some?, id, e.outcome, e.notifications);
      } else {
        var refusal := Fault(INVALID_REQUEST, "invalid jsonrpc version: " + GetStr(message, "jsonrpc").value);
        FinishAnswers(id.Some?, id, refusal, []);
      }
    }
  }

  /** The ids on the wire, in order; only responses carry one. */
  function WireIds(wire: seq<Json>): seq<Json> {
    if wire == [] then [] else IdIfAny(wire[0]) + WireIds(wire[1..])
  }

  function IdIfAny(j: Json): seq<Json> {
    if Has(j, "id") then [j.fields["id"]] else []
  }

  function DueIds(messages: seq<Json>): seq<Json> {
    if messages == [] then []
    else (if Answerable(messages[0]) then [Id(messages[0])] else []) + DueIds(messages[1..])
  }

  lemma {:induction false} WireIdsConcat(a: seq<Json>, b: seq<Json>)
    ensures WireIds(a + b) == WireIds(a) + WireIds(b)
    decreases |a|
  {
    hide IdIfAny;
    if a == [] {
      assert a + b == b;
    } else {
      assert (a + b)[1..] == a[1..] + b;
      WireIdsConcat(a[1..], b);
      assert IdIfAny(a[0]) + (WireIds(a[1..]) + WireIds(b)) == IdIfAny(a[0]) + WireIds(a[1..]) + WireIds(b);
    }
  }

  lemma {:induction false} NotificationsHaveNoIds(notifications: seq<Json>)
    requires forall i :: 0 <= i < |notifications| ==> notifications[i] == ListChangedMessage()
    ensures WireIds(notifications) == []
  {
    if notifications != [] {
      NotificationsHaveNoIds(notifications[1..]);
    }
  }

  /** Over any conversation, the wire carries one response per message due one, in the order asked, and no other. */
  lemma {:induction false} AnswersInOrder(config: Config, service: Service, s: State, messages: seq<Json>)
    ensures WireIds(Wire(Serve(config, service, s, messages).0)) == DueIds(messages)
    decreases |messages|
  {
    hide Route, Answerable;
    if messages != [] {
      var (d, next) := Route(config, service, s, messages[0]);
      var more := Serve(config, service, next, messages[1..]).0;
      AnswersItsOwn(config, service, s, messages[0]);
      AnswersInOrder(config, service, next, messages[1..]);
      assert ([d] + more)[1..] == more;
      WireIdsConcat(Sent(d), Wire(more));
      NotificationsHaveNoIds(d.notifications);
      WireIdsConcat(if d.response.Some? then [d.response.value] else [], d.notifications);
      if d.response.Some? {
        assert WireIds([d.response.value]) == [Id(messages[0])] + WireIds([]);
      }
    }
  }

  // ----- When the handshake is done -----

  /** Some message opened the session and no later one closed it. */
  ghost predicate HandshakeDone(messages: seq<Json>) {
    exists i :: 0 <= i < |messages| && Opens(messages[i]) && forall j :: i < j < |messages| ==> !Closes(messages[j])
  }

  lemma RouteSetsFlag(config: Config, service: Service, s: State, message: Json)
    ensures var next := Route(config, service, s, message).1;
            next.initialized == (if Opens(message) then true else if Closes(message) then false else s.initialized)
  {
    hide InitializeResult, ToolsJson, CallOutcome, Finish;
  }

  lemma HandshakeStep(before: seq<Json>, message: Json)
    ensures HandshakeDone(before + [message]) <==> Opens(message) || (HandshakeDone(before) && !Closes(message))
  {
    hide Opens, Closes;
    var all := before + [message];
    assert !(Opens(message) && Closes(message)) by { OpensOrCloses(message); }
    if Opens(message) {
      assert Opens(all[|before|]);
    }
    if HandshakeDone(before) && !Closes(message) {
      var i :| 0 <= i < |before| && Opens(before[i]) && forall j :: i < j < |before| ==> !Closes(before[j]);
      assert Opens(all[i]) && forall j :: i < j < |all| ==> !Closes(all[j]);
    }
    if HandshakeDone(all) && !Opens(message) {
      var i :| 0 <= i < |all| && Opens(all[i]) && forall j :: i < j < |all| ==> !Closes(all[j]);
      assert i < |before| && all[i] == before[i] && !Closes(all[|before|]);
      assert forall j :: i < j < |before| ==> all[j] == before[j];
    }
  }

  lemma OpensOrCloses(message: Json)
    ensures !(Opens(message) && Closes(message))
  {}

  lemma {:induction false} ServeSnoc(config: Config, service: Service, s: State, messages: seq<Json>, last: Json)
    ensures var (ds, mid) := Serve(config, service, s, messages);
            var (d, end) := Route(config, service, mid, last);
            Serve(config, service, s, messages + [last]) == (ds + [d], end)
    decreases |messages|
  {
    hide Route;
    var all := messages + [last];
    if messages == [] {
      var (d, end) := Route(config, service, s, last);
      assert all[1..] == [] && all[0] == last;
      assert Serve(config, service, end, []) == ([], end);
      assert [d] + [] == [] + [d];
    } else {
      var (d0, next) := Route(config, service, s, messages[0]);
      assert all[1..] == messages[1..] + [last];
      ServeSnoc(config, service, next, messages[1..], last);
      var (ds, mid) := Serve(config, service, next, messages[1..]);
      var (d, end) := Route(config, service, mid, last);
      assert [d0] + (ds + [d]) == ([d0] + ds) + [d];
    }
  }

  /** The calls the service is due at message `i`, judged by the messages alone. */
  ghost function CallsAt(messages: seq<Json>, i: nat): History
    requires i < |messages|
  {
    var m := messages[i];
    if Closes(m) then [Shutdown]
    else if CallsTool(m) && HandshakeDone(messages[..i]) then [CallTool(ToolName(m), ToolArguments(m))]
    else []
  }

  ghost function CallsUpTo(messages: seq<Json>, n: nat): History
    requires n <= |messages|
  {
    if n == 0 then [] else CallsUpTo(messages, n - 1) + CallsAt(messages, n - 1)
  }

  lemma {:induction false} CallsUpToPrefix(messages: seq<Json>, last: Json, n: nat)
    requires n <= |messages|
    ensures CallsUpTo(messages + [last], n) == CallsUpTo(messages, n)
  {
    if n > 0 {
      CallsUpToPrefix(messages, last, n - 1);
      assert (messages + [last])[..n - 1] == messages[..n - 1];
    }
  }

  lemma RouteCalls(config: Config, service: Service, s: State, message: Json)
    ensures Route(config, service, s, message).1.history == s.history +
              (if Closes(message) then [Shutdown]
               else if CallsTool(message) && s.initialized then [CallTool(ToolName(message), ToolArguments(message))]
               else [])
  {
    hide Perform, Finish, ToolName, ToolArguments;
    GateIsLiteral(message);
    if IsCurrent(message) {
      PerformCalls(config, service, s, message);
    } else {
      assert s.history + [] == s.history;
    }
  }

  lemma PerformCalls(config: Config, service: Service, s: State, message: Json)
    requires IsCurrent(message)
    ensures Perform(config, service, s, GetStr(message, "method"), Params(message)).next.history == s.history +
              (if Closes(message) then [Shutdown]
               else if CallsTool(message) && s.initialized then [CallTool(ToolName(message), ToolArguments(message))]
               else [])
  {
    hide InitializeResult, ToolsJson, CallOutcome;
    assert s.history + [] == s.history;
  }

  /**
   Handshake gating over a whole conversation: the flag is the history of the messages, and the
   service is called exactly for the tool calls made while the handshake is done, with or
   without an id, and for shutdowns.
   */
  lemma {:induction false} HandshakeGates(config: Config, service: Service, history: History, messages: seq<Json>)
    ensures var end := Serve(config, service, State(false, history), messages).1;
            && (end.initialized <==> HandshakeDone(messages))
            && end.history == history + CallsUpTo(messages, |messages|)
    decreases |messages|
  {
    hide Route, Opens, Closes, HandshakeDone;
    var n := |messages|;
    if n == 0 {
      assert !HandshakeDone(messages) by { NoHandshake(); }
    } else {
      var before, last := messages[..n - 1], messages[n - 1];
      assert messages == before + [last];
      HandshakeGates(config, service, history, before);
      ServeSnoc(config, service, State(false, history), before, last);
      var mid := Serve(config, service, State(false, history), before).1;
      RouteSetsFlag(config, service, mid, last);
      RouteCalls(config, service, mid, last);
      HandshakeStep(before, last);
      CallsUpToPrefix(before, last, n - 1);
      OpensOrCloses(last);
      assert messages[..n - 1] == before;
    }
  }

  lemma NoHandshake()
    ensures !HandshakeDone([])
  {}

  /** `tools/list` is answered with a result exactly while the handshake is done. */
  lemma ToolsListGated(config: Config, service: Service, history: History, before: seq<Json>, message: Json)
    requires Asks(message, "tools/list") && IsRequest(message)
    ensures var s := Serve(config, service, State(false, history), before).1;
            var d := Route(config, service, s, message).0;
            && d.response.Some?
            && (Has(d.response.value, "result") <==> HandshakeDone(before))
            && (!HandshakeDone(before) ==>
                  d.response == Some(ErrorMessage(Id(message), -32002, "server not initialized")))
  {
    hide HandshakeDone, InitializeResult, ToolsJson, CallOutcome, Closes, Opens, CallsTool;
    HandshakeGates(config, service, history, before);
  }

  // ----- Notifications -----

  /** How many of the values on the wire announce a changed tool list. */
  function ListChangedCount(wire: seq<Json>): nat {
    if wire == [] then 0 else (if wire[0] == ListChangedMessage() then 1 else 0) + ListChangedCount(wire[1..])
  }

  lemma {:induction false} ListChangedConcat(a: seq<Json>, b: seq<Json>)
    ensures ListChangedCount(a + b) == ListChangedCount(a) + ListChangedCount(b)
    decreases |a|
  {
    if a == [] {
      assert a + b == b;
    } else {
      assert (a + b)[1..] == a[1..] + b;
      ListChangedConcat(a[1..], b);
    }
  }

  predicate Flagged(service: Service, h: History, call: ServiceCall) {
    call.CallTool? &&
    var r := service.callTool(h, call.name, call.arguments);
    r.Ok? && r.value.toolsListChanged
  }

  /** How many calls of a history the service answered with a changed tool list. */
  function FlaggedCalls(service: Service, h: History): nat {
    if h == [] then 0
    else
      var before := h[..|h| - 1];
      FlaggedCalls(service, before) + (if Flagged(service, before, h[|h| - 1]) then 1 else 0)
  }

  lemma FlaggedCallsSnoc(service: Service, h: History, call: ServiceCall)
    ensures FlaggedCalls(service, h + [call]) == FlaggedCalls(service, h) + (if Flagged(service, h, call) then 1 else 0)
  {
    assert (h + [call])[..|h|] == h;
  }

  lemma RouteNotifies(config: Config, service: Service, s: State, message: Json)
    ensures var (d, next) := Route(config, service, s, message);
            |d.notifications| + FlaggedCalls(service, s.history) == FlaggedCalls(service, next.history)
  {
    hide FlaggedCalls, InitializeResult, ToolsJson;
    var (d, next) := Route(config, service, s, message);
    if |next.history| == |s.history| + 1 {
      FlaggedCallsSnoc(service, s.history, next.history[|s.history|]);
    }
  }

  lemma {:induction false} AllListChanged(notifications: seq<Json>)
    requires forall i :: 0 <= i < |notifications| ==> notifications[i] == ListChangedMessage()
    ensures ListChangedCount(notifications) == |notifications|
  {
    if notifications != [] {
      AllListChanged(notifications[1..]);
    }
  }

  lemma SentNotifies(config: Config, service: Service, s: State, message: Json)
    ensures var (d, next) := Route(config, service, s, message);
            ListChangedCount(Sent(d)) + FlaggedCalls(service, s.history) == FlaggedCalls(service, next.history)
  {
    hide Route, FlaggedCalls;
    var d := Route(config, service, s, message).0;
    RouteNotifies(config, service, s, message);
    AnswersItsOwn(config, service, s, message);
    AllListChanged(d.notifications);
    ListChangedConcat(if d.response.Some? then [d.response.value] else [], d.notifications);
    if d.response.Some? {
      ResponseIsNoNotification(d.response.value, Id(message));
      assert ListChangedCount([d.response.value]) == ListChangedCount([]);
    }
  }

  lemma ResponseIsNoNotification(r: Json, id: Json)
    requires IsResponse(r, id)
    ensures r != ListChangedMessage() && Has(r, "id") && r.fields["id"] == id
  {
    assert !Has(ListChangedMessage(), "id");
  }

  /** Conservation on the wire: one list_changed message is sent per call that reported a change, answered or not. */
  lemma {:induction false} NotificationsConserved(config: Config, service: Service, s: State, messages: seq<Json>)
    ensures var (dispatches, end) := Serve(config, service, s, messages);
            ListChangedCount(Wire(dispatches)) + FlaggedCalls(service, s.history) == FlaggedCalls(service, end.history)
    decreases |messages|
  {
    hide Route, FlaggedCalls, Sent;
    if messages != [] {
      var (d, next) := Route(config, service, s, messages[0]);
      SentNotifies(config, service, s, messages[0]);
      NotificationsConserved(config, service, next, messages[1..]);
      var more := Serve(config, service, next, messages[1..]).0;
      assert ([d] + more)[1..] == more;
      ListChangedConcat(Sent(d), Wire(more));
    }
  }

  // ----- Error kinds -----

  /** What is left of a call result once the two tool-level error kinds are told apart no longer. */
  function Erase(r: CallResult): CallResult {
    if r.Err? && r.error.InvalidParams? then Err(Tool(r.error.message)) else r
  }

  ghost predicate SameUpToErrorKind(a: Service, b: Service) {
    && (forall h :: a.tools(h) == b.tools(h))
    && (forall h, name, args :: Erase(a.callTool(h, name, args)) == Erase(b.callTool(h, name, args)))
  }

  lemma CallOutcomeErases(r: CallResult)
    ensures CallOutcome(r) == CallOutcome(Erase(r))
  {}

  lemma RouteErases(config: Config, a: Service, b: Service, s: State, message: Json)
    requires SameUpToErrorKind(a, b)
    ensures Route(config, a, s, message) == Route(config, b, s, message)
  {
    var params := OrNull(Get(message, "params"));
    if GetStr(params, "name").Some? {
      var name, args := GetStr(params, "name").value, OrNull(Get(params, "arguments"));
      CallOutcomeErases(a.callTool(s.history, name, args));
      CallOutcomeErases(b.callTool(s.history, name, args));
    }
    assert ToolsJson(a, s.history) == ToolsJson(b, s.history);
  }

  /** Services that differ only in which tool-level error kind they report cannot be told apart. */
  lemma {:induction false} ErrorKindInvisible(config: Config, a: Service, b: Service, s: State, messages: seq<Json>)
    requires SameUpToErrorKind(a, b)
    ensures Serve(config, a, s, messages) == Serve(config, b, s, messages)
    decreases |messages|
  {
    hide Route, SameUpToErrorKind;
    if messages != [] {
      RouteErases(config, a, b, s, messages[0]);
      ErrorKindInvisible(config, a, b, Route(config, a, s, messages[0]).1, messages[1..]);
    }
  }
}
