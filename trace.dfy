/**
 * Runs of the server: the handlers are invoked one at a time, each to
 * completion, in the order the event loop delivers the transport's events and
 * the operator's requests. This module states what holds after any run that
 * the transport can produce.
 */
module Trace {
  import opened Protocol
  import opened Registry

  /** One event delivered by the event loop. Status requests change nothing and are left out. */
  datatype Event =
    | Connected(id: ConnId)
    | Received(id: ConnId, payload: Payload, now: nat)
    | ClosingStarted(id: ConnId)
    | Disconnected(id: ConnId)
    | ControlRequest(relay: BodyField, action: BodyField)

  /**
   * What the transport guarantees: every connection has a fresh handle, and a
   * closed connection sees no further frames, state changes or close events.
   */
  predicate Enabled(st: State, e: Event) {
    match e
    case Connected(id) => id !in st.sockets
    case Received(id, _, _) => id in st.sockets && st.sockets[id].readyState != Closed
    case ClosingStarted(id) => id in st.sockets && st.sockets[id].readyState != Closed
    case Disconnected(id) => id in st.sockets && st.sockets[id].readyState != Closed
    case ControlRequest(_, _) => true
  }

  /**
   * Runs the handler of one event. Every handler keeps the registry
   * invariant, and a connection once recorded as a relay board stays one.
   */
  function Step(st: State, e: Event): (r: State)
    requires Enabled(st, e)
    ensures Valid(st) ==> Valid(r)
    ensures forall k :: k in st.sockets && st.sockets[k].deviceType == Some(ESP32) ==>
              k in r.sockets && r.sockets[k].deviceType == Some(ESP32)
  {
    match e
    case Connected(id) => Connect(st, id)
    case Received(id, p, now) => Receive(st, id, Classify(p), now)
    case ClosingStarted(id) => BeginClosing(st, id)
    case Disconnected(id) => Close(st, id)
    case ControlRequest(relay, action) => Registry.Control(st, relay, action).0
  }

  /** The state after a sequence of events, or `None` if the transport could not produce it. */
  function Run(st: State, events: seq<Event>): (r: Option<State>)
    ensures Valid(st) && r.Some? ==> Valid(r.value)
  {
    if events == [] then Some(st)
    else
      match Run(st, events[..|events| - 1])
      case None => None
      case Some(prev) =>
        var e := events[|events| - 1];
        if Enabled(prev, e) then Some(Step(prev, e)) else None
  }

  /** The event registers `id`: a frame on it that identifies a relay board. */
  predicate Registers(e: Event, id: ConnId) {
    && e.Received?
    && e.id == id
    && Classify(e.payload).Identify?
    && Classify(e.payload).device == Some(RELAY_DEVICE)
  }

  /** How one event changes the membership of `id`. */
  lemma StepMembership(st: State, e: Event, id: ConnId)
    requires Enabled(st, e)
    ensures id in Step(st, e).espClients <==> Registers(e, id) || (id in st.espClients && e != Disconnected(id))
  {
  }

  /** `id` identified as a relay board at event `i` and has not closed since. */
  predicate RegisteredAt(events: seq<Event>, id: ConnId, i: int) {
    && 0 <= i < |events|
    && Registers(events[i], id)
    && forall j :: i < j < |events| ==> events[j] != Disconnected(id)
  }

  /** An earlier registration still stands after one more event unless that event closes the connection. */
  lemma RegisteredAtExtend(events: seq<Event>, id: ConnId, i: int)
    requires 0 <= i < |events| - 1
    ensures RegisteredAt(events, id, i) <==>
      RegisteredAt(events[..|events| - 1], id, i) && events[|events| - 1] != Disconnected(id)
  {
    var pre := events[..|events| - 1];
    assert forall j :: i < j < |pre| ==> pre[j] == events[j];
  }

  /**
   * After any run from the start, a connection is registered exactly when it
   * identified as a relay board at some point and has not closed since.
   */
  lemma {:induction false} RegisteredIff(events: seq<Event>, st: State, id: ConnId)
    requires Run(INIT, events) == Some(st)
    ensures id in st.espClients <==> exists i :: RegisteredAt(events, id, i)
  {
    if events != [] {
      var n := |events|;
      var pre := events[..n - 1];
      var e := events[n - 1];
      var prev := Run(INIT, pre).value;
      RegisteredIff(pre, prev, id);
      StepMembership(prev, e, id);
      if id in st.espClients {
        if Registers(e, id) {
          assert RegisteredAt(events, id, n - 1);
        } else {
          var i :| RegisteredAt(pre, id, i);
          RegisteredAtExtend(events, id, i);
        }
      }
      if exists i :: RegisteredAt(events, id, i) {
        var i :| RegisteredAt(events, id, i);
        if i < n - 1 {
          RegisteredAtExtend(events, id, i);
        }
      }
    }
  }

  /**
   * A board identifies with address 10.0.0.5, the operator switches relay 1
   * on, and the board disconnects.
   */
  lemma IdentifyControlClose()
    ensures
      var a: ConnId := 7;
      var s1 := Receive(Connect(INIT, a), a,
                        Classify(Json(Some(IDENTIFY), Some(RELAY_DEVICE), Some("10.0.0.5"), None, None)), 1000);
      var c := Registry.Control(s1, Text("relay1"), Text("on"));
      var s3 := Close(c.0, a);
      && Valid(s1) && Valid(c.0) && Valid(s3)
      && Summary(s1).connectedDevices == 1
      && s1.sockets[a].ip == Some("10.0.0.5")
      && c.1 == Sent("relay1_on") && c.1.Code() == 200
      && c.0.sockets[a].outbox == ["relay1_on"]
      && Summary(s3).connectedDevices == 0
  {
    var a: ConnId := 7;
    var s0 := Connect(INIT, a);
    var frame := Json(Some(IDENTIFY), Some(RELAY_DEVICE), Some("10.0.0.5"), None, None);
    IdentifyRegisters(s0, a, Some("10.0.0.5"), None, None, 1000);
    var s1 := Receive(s0, a, Classify(frame), 1000);
    assert Elems(s1.espClients) == {a};
    var intent := Intent(Relay1, On);
    assert Command(intent) == "relay1_on";
    ControlBroadcasts(s1, Text("relay1"), Text("on"), intent);
    assert AnyOpen(s1) by {
      assert a in s1.espClients && s1.sockets[a].readyState == Open;
    }
    var c := Registry.Control(s1, Text("relay1"), Text("on"));
    CloseRemoves(c.0, a);
    assert Elems(Close(c.0, a).espClients) == {};
  }

  /** An unknown relay is refused with 400 and changes nothing, even with no board connected. */
  lemma UnknownRelayRefused()
    ensures Registry.Control(INIT, Text("relay9"), Text("on")) == (INIT, Rejected(InvalidField))
    ensures Registry.Control(INIT, Text("relay1"), Text("toggle")) == (INIT, Rejected(InvalidField))
    ensures Registry.Control(INIT, Undefined, Text("on")) == (INIT, Rejected(MissingField))
  {
  }
}
