/**
 Connections side by side: one session each, over one shared core.

 Connections are served one message at a time in any interleaving. What a session does to
 itself never depends on the others; what it answers can depend on them only through the
 service, and not at all when the service keeps no state.
 */
module Independence {
  import opened Wrappers
  import opened Json
  import opened Service
  import opened Protocol
  import opened SessionRuns

  type ConnId = nat

  datatype Arrival = Arrival(conn: ConnId, message: Json)
  datatype Answer = Answer(conn: ConnId, dispatch: Dispatch)

  /** The connections whose handshake is done, and what the shared service has been asked so far. */
  datatype System = System(ready: set<ConnId>, history: History)

  function StepSystem(config: Config, service: Service, sys: System, a: Arrival): (Answer, System) {
    var (d, next) := Route(config, service, State(a.conn in sys.ready, sys.history), a.message);
    (Answer(a.conn, d),
     System(if next.initialized then sys.ready + {a.conn} else sys.ready - {a.conn}, next.history))
  }

  function ServeAll(config: Config, service: Service, sys: System, arrivals: seq<Arrival>): (seq<Answer>, System)
    decreases |arrivals|
  {
    if arrivals == [] then ([], sys)
    else
      var (a, next) := StepSystem(config, service, sys, arrivals[0]);
      var (more, end) := ServeAll(config, service, next, arrivals[1..]);
      ([a] + more, end)
  }

  /** The messages of one connection, in order. */
  function MessagesOf(arrivals: seq<Arrival>, conn: ConnId): seq<Json> {
    if arrivals == [] then []
    else (if arrivals[0].conn == conn then [arrivals[0].message] else []) + MessagesOf(arrivals[1..], conn)
  }

  /** What one connection is sent, in order. */
  function AnswersOf(answers: seq<Answer>, conn: ConnId): seq<Dispatch> {
    if answers == [] then []
    else (if answers[0].conn == conn then [answers[0].dispatch] else []) + AnswersOf(answers[1..], conn)
  }

  /** A service whose answers do not depend on what it was asked before. */
  ghost predicate Stateless(service: Service) {
    && (forall h, h' :: service.tools(h) == service.tools(h'))
    && (forall h, h', name, args :: service.callTool(h, name, args) == service.callTool(h', name, args))
  }

  lemma FlagIgnoresService(config: Config, a: Service, b: Service, s: State, s': State, message: Json)
    requires s.initialized == s'.initialized
    ensures Route(config, a, s, message).1.initialized == Route(config, b, s', message).1.initialized
  {
    RouteSetsFlag(config, a, s, message);
    RouteSetsFlag(config, b, s', message);
  }

  lemma DispatchIgnoresHistory(config: Config, service: Service, s: State, s': State, message: Json)
    requires Stateless(service) && s.initialized == s'.initialized
    ensures Route(config, service, s, message).0 == Route(config, service, s', message).0
  {
    var params := OrNull(Get(message, "params"));
    assert ToolsJson(service, s.history) == ToolsJson(service, s'.history) by {
      assert service.tools(s.history) == service.tools(s'.history);
    }
    assert ToolsCall(service, s, params).outcome == ToolsCall(service, s', params).outcome;
    assert ToolsCall(service, s, params).notifications == ToolsCall(service, s', params).notifications;
  }

  /** A session's handshake is its own: it ends as if the session had been served alone, whatever the service. */
  lemma {:induction false} HandshakeIsPrivate(config: Config, service: Service, sys: System, arrivals: seq<Arrival>,
                                              conn: ConnId, alone: State)
    requires alone.initialized == (conn in sys.ready)
    ensures (conn in ServeAll(config, service, sys, arrivals).1.ready)
         == Serve(config, service, alone, MessagesOf(arrivals, conn)).1.initialized
    decreases |arrivals|
  {
    hide Route;
    if arrivals != [] {
      var first := arrivals[0];
      var next := StepSystem(config, service, sys, first).1;
      if first.conn == conn {
        var s := State(conn in sys.ready, sys.history);
        FlagIgnoresService(config, service, service, s, alone, first.message);
        var messages := MessagesOf(arrivals, conn);
        assert messages[0] == first.message && messages[1..] == MessagesOf(arrivals[1..], conn);
        HandshakeIsPrivate(config, service, next, arrivals[1..], conn, Route(config, service, alone, first.message).1);
      } else {
        assert [] + MessagesOf(arrivals[1..], conn) == MessagesOf(arrivals[1..], conn);
        HandshakeIsPrivate(config, service, next, arrivals[1..], conn, alone);
      }
    }
  }

  /** Over a stateless service, each connection gets exactly what it would have got alone, under every interleaving. */
  lemma {:induction false} SessionsAreIndependent(config: Config, service: Service, sys: System, arrivals: seq<Arrival>,
                                                  conn: ConnId, alone: State)
    requires Stateless(service) && alone.initialized == (conn in sys.ready)
    ensures AnswersOf(ServeAll(config, service, sys, arrivals).0, conn)
         == Serve(config, service, alone, MessagesOf(arrivals, conn)).0
    decreases |arrivals|
  {
    hide Route, Stateless;
    if arrivals != [] {
      var first := arrivals[0];
      var (answer, next) := StepSystem(config, service, sys, first);
      var more := ServeAll(config, service, next, arrivals[1..]).0;
      assert ([answer] + more)[1..] == more;
      if first.conn == conn {
        var s := State(conn in sys.ready, sys.history);
        FlagIgnoresService(config, service, service, s, alone, first.message);
        DispatchIgnoresHistory(config, service, s, alone, first.message);
        var messages := MessagesOf(arrivals, conn);
        assert messages[0] == first.message && messages[1..] == MessagesOf(arrivals[1..], conn);
        SessionsAreIndependent(config, service, next, arrivals[1..], conn, Route(config, service, alone, first.message).1);
      } else {
        SessionsAreIndependent(config, service, next, arrivals[1..], conn, alone);
        assert [] + AnswersOf(more, conn) == AnswersOf(more, conn);
        assert [] + MessagesOf(arrivals[1..], conn) == MessagesOf(arrivals[1..], conn);
      }
    }
  }
}
