/** Several connections over one core: one session object each, as `serve_unix` creates them. */
module Connections {
  import opened Wrappers
  import opened Json
  import opened Service
  import opened Independence
  import Protocol
  import Session

  /** One distinct session per connection, all over the same core. */
  ghost predicate OneEach(core: Session.ServerCore, sessions: seq<Session.Session>) {
    && (forall i :: 0 <= i < |sessions| ==> sessions[i].core == core)
    && (forall i, j :: 0 <= i < j < |sessions| ==> sessions[i] != sessions[j])
  }

  ghost function Snapshot(core: Session.ServerCore, sessions: seq<Session.Session>): System
    reads core, sessions
  {
    System((set i: nat | i < |sessions| && sessions[i].initialized), core.history)
  }

  /** Accept a connection: a fresh session over the shared core. */
  method Accept(core: Session.ServerCore, sessions: seq<Session.Session>) returns (more: seq<Session.Session>)
    requires OneEach(core, sessions)
    ensures |more| == |sessions| + 1 && more[..|sessions|] == sessions && fresh(more[|sessions|])
    ensures OneEach(core, more)
    ensures Snapshot(core, more) == old(Snapshot(core, sessions))
  {
    var session := new Session.Session(core);
    more := sessions + [session];
    assert forall i :: 0 <= i < |sessions| ==> more[i] == sessions[i];
  }

  /** Serve one message that arrived on one of the connections. */
  method ServeOne(core: Session.ServerCore, sessions: seq<Session.Session>, a: Arrival) returns (answer: Answer)
    requires OneEach(core, sessions) && a.conn < |sessions|
    modifies core, sessions[a.conn]
    ensures (answer, Snapshot(core, sessions))
         == StepSystem(core.config, core.service, old(Snapshot(core, sessions)), a)
  {
    hide Protocol.Route;
    var session := sessions[a.conn];
    var d := session.Route(a.message);
    answer := Answer(a.conn, d);
    assert forall i :: 0 <= i < |sessions| && i != a.conn ==> sessions[i].initialized == old(sessions[i].initialized);
    var before := old(Snapshot(core, sessions)).ready;
    assert Snapshot(core, sessions).ready == if session.initialized then before + {a.conn} else before - {a.conn};
  }

  /** Serve messages in the order they arrive, whichever connections they arrive on. */
  method ServeArrivals(core: Session.ServerCore, sessions: seq<Session.Session>, arrivals: seq<Arrival>) returns (answers: seq<Answer>)
    requires OneEach(core, sessions)
    requires forall i :: 0 <= i < |arrivals| ==> arrivals[i].conn < |sessions|
    modifies core, sessions
    ensures (answers, Snapshot(core, sessions))
         == ServeAll(core.config, core.service, old(Snapshot(core, sessions)), arrivals)
  {
    hide StepSystem;
    answers := [];
    assert arrivals[0..] == arrivals;
    ghost var whole := ServeAll(core.config, core.service, Snapshot(core, sessions), arrivals);
    assert [] + whole.0 == whole.0;
    for i := 0 to |arrivals|
      invariant var (later, end) := ServeAll(core.config, core.service, Snapshot(core, sessions), arrivals[i..]);
                whole == (answers + later, end)
    {
      ghost var left := arrivals[i..];
      assert left[0] == arrivals[i] && left[1..] == arrivals[i + 1..];
      var answer := ServeOne(core, sessions, arrivals[i]);
      ghost var later := ServeAll(core.config, core.service, Snapshot(core, sessions), arrivals[i + 1..]).0;
      assert answers + ([answer] + later) == (answers + [answer]) + later;
      answers := answers + [answer];
    }
    assert arrivals[|arrivals|..] == [];
    assert answers + [] == answers;
  }
}
