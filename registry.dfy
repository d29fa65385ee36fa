/**
 * The gateway's state as a value: the registry of relay boards (`espClients`)
 * and the per-connection fields the handlers read and write. Every handler of
 * the server is a function from the old state to the new one here; the class
 * in module Server runs the same handlers in place and is proved equal to
 * these functions.
 */
module Registry {
  import opened Protocol

  /** A connection handle: the transport gives every connection its own. */
  type ConnId = nat

  /** The WebSocket `readyState` of a server-side connection, which starts open. */
  datatype ReadyState = Open | Closing | Closed

  /**
   * One connection and the properties the server hangs on it. `outbox` is the
   * sequence of command strings sent to it, in order.
   */
  datatype Socket = Socket(
    readyState: ReadyState,
    deviceType: Option<string>,
    ip: Option<string>,
    heap: Option<int>,
    rssi: Option<int>,
    lastHeartbeat: Option<nat>,
    outbox: seq<string>)

  /** The device type recorded on a connection once it identifies as a relay board. */
  const ESP32 := "esp32"

  /** A connection just accepted by the transport. */
  const NEW_SOCKET := Socket(Open, None, None, None, None, None, [])

  /**
   * `espClients` is the JavaScript `Set` of registered connections: no
   * duplicates, iterated in insertion order. `sockets` holds every connection
   * the transport ever accepted.
   */
  datatype State = State(espClients: seq<ConnId>, sockets: map<ConnId, Socket>)

  /** The state when the server starts. */
  const INIT := State([], map[])

  predicate Distinct(s: seq<ConnId>) {
    forall i, j :: 0 <= i < j < |s| ==> s[i] != s[j]
  }

  function Elems(s: seq<ConnId>): set<ConnId> {
    set x | x in s
  }

  /**
   * The registry invariant: no connection is registered twice, and every
   * registered connection is a known, not yet closed connection that
   * identified itself as a relay board.
   */
  predicate Valid(st: State) {
    && Distinct(st.espClients)
    && (forall id :: id in st.espClients ==> id in st.sockets)
    && (forall id :: id in st.espClients ==>
          st.sockets[id].deviceType == Some(ESP32) && st.sockets[id].readyState != Closed)
  }

  // ---------------------------------------------------------------------------
  // The registry as an insertion-ordered set
  // ---------------------------------------------------------------------------

  /** `Set.prototype.add`: a member keeps its place, a new one goes last. */
  function Add(s: seq<ConnId>, x: ConnId): (r: seq<ConnId>)
    ensures forall y :: y in r <==> y in s || y == x
    ensures Distinct(s) ==> Distinct(r)
    ensures |r| == if x in s then |s| else |s| + 1
    ensures r[..|s|] == s
  {
    if x in s then s else s + [x]
  }

  /** `Set.prototype.delete`: drops `x`, keeping the order of the others. */
  function Remove(s: seq<ConnId>, x: ConnId): (r: seq<ConnId>)
    ensures forall y :: y in r <==> y in s && y != x
    ensures Distinct(s) ==> Distinct(r)
    ensures x !in s ==> r == s
    ensures Distinct(s) && x in s ==> |r| == |s| - 1
  {
    if s == [] then []
    else if s[0] == x then Remove(s[1..], x)
    else
      var rest := Remove(s[1..], x);
      assert Distinct(s) ==> s[0] !in s[1..] && Distinct(s[1..]);
      assert Distinct(s) ==> s[0] !in rest;
      [s[0]] + rest
  }

  /**
   * Deleting the member at position `k` cuts out exactly that entry and leaves
   * the others in their order: the registry is iterated in insertion order
   * before and after.
   */
  lemma {:induction false} RemoveKeepsOrder(s: seq<ConnId>, x: ConnId, k: nat)
    requires Distinct(s) && k < |s| && s[k] == x
    ensures Remove(s, x) == s[..k] + s[k + 1..]
  {
    var t := s[1..];
    assert s[0] !in t && Distinct(t);
    if k == 0 {
      assert Remove(s, x) == t;
    } else {
      assert s[0] != x && t[k - 1] == x;
      RemoveKeepsOrder(t, x, k - 1);
      assert s[..k] == [s[0]] + t[..k - 1];
      assert s[k + 1..] == t[k..];
    }
  }

  /** A sequence without duplicates has as many members as elements. */
  lemma {:induction false} DistinctCard(s: seq<ConnId>)
    requires Distinct(s)
    ensures |Elems(s)| == |s|
  {
    if s != [] {
      DistinctCard(s[1..]);
      assert Elems(s) == {s[0]} + Elems(s[1..]);
      assert s[0] !in Elems(s[1..]);
    }
  }

  /** In a sequence without duplicates every member occurs exactly once. */
  lemma {:induction false} DistinctOnce(s: seq<ConnId>, x: ConnId)
    requires Distinct(s)
    ensures multiset(s)[x] == if x in s then 1 else 0
  {
    if s != [] {
      DistinctOnce(s[1..], x);
      assert s == [s[0]] + s[1..];
      assert multiset(s) == multiset{s[0]} + multiset(s[1..]);
      assert s[0] !in s[1..];
    }
  }

  // ---------------------------------------------------------------------------
  // Connection events
  // ---------------------------------------------------------------------------

  /** The transport accepted a new connection. */
  function Connect(st: State, id: ConnId): (r: State)
    requires id !in st.sockets
    ensures r.espClients == st.espClients
    ensures r.sockets.Keys == st.sockets.Keys + {id} && r.sockets[id] == NEW_SOCKET
    ensures forall other :: other in st.sockets ==> r.sockets[other] == st.sockets[other]
    ensures Valid(st) ==> Valid(r)
  {
    st.(sockets := st.sockets[id := NEW_SOCKET])
  }

  /**
   * The message handler. An `identify` from a relay board records the device
   * type and overwrites the address and telemetry with the frame's values
   * (absent ones included), then registers the connection; an `identify` with
   * any other device tag does nothing. A `heartbeat` stamps the time and
   * overwrites the telemetry, registered or not. Everything else is ignored.
   */
  function Receive(st: State, id: ConnId, m: Message, now: nat): (r: State)
    requires id in st.sockets && st.sockets[id].readyState != Closed
    ensures r.sockets.Keys == st.sockets.Keys
    ensures forall other :: other in st.sockets && other != id ==> r.sockets[other] == st.sockets[other]
    ensures Valid(st) ==> Valid(r)
  {
    var ws := st.sockets[id];
    match m
    case Identify(device, ip, heap, rssi) =>
      if device == Some(RELAY_DEVICE) then
        State(Add(st.espClients, id),
              st.sockets[id := ws.(deviceType := Some(ESP32), ip := ip, heap := heap, rssi := rssi)])
      else st
    case Heartbeat(heap, rssi) =>
      st.(sockets := st.sockets[id := ws.(lastHeartbeat := Some(now), heap := heap, rssi := rssi)])
    case _ => st
  }

  /**
   * The transport began its closing handshake: an OPEN connection becomes
   * CLOSING, one already closing or closed stays as it is, and nothing stored
   * on the connection changes.
   */
  function BeginClosing(st: State, id: ConnId): (r: State)
    requires id in st.sockets
    ensures r.espClients == st.espClients && r.sockets.Keys == st.sockets.Keys
    ensures r.sockets[id].readyState != Open
    ensures st.sockets[id].readyState == Open ==> r.sockets[id].readyState == Closing
    ensures st.sockets[id].readyState != Open ==> r.sockets[id] == st.sockets[id]
    ensures r.sockets[id].(readyState := st.sockets[id].readyState) == st.sockets[id]
    ensures forall other :: other in st.sockets && other != id ==> r.sockets[other] == st.sockets[other]
    ensures Valid(st) ==> Valid(r)
  {
    var ws := st.sockets[id];
    if ws.readyState == Open then st.(sockets := st.sockets[id := ws.(readyState := Closing)]) else st
  }

  /** The close handler: the connection is closed and leaves the registry. */
  function Close(st: State, id: ConnId): (r: State)
    requires id in st.sockets
    ensures r.sockets.Keys == st.sockets.Keys
    ensures r.sockets[id].readyState == Closed
    ensures Valid(st) ==> Valid(r)
  {
    State(Remove(st.espClients, id), st.sockets[id := st.sockets[id].(readyState := Closed)])
  }

  // ---------------------------------------------------------------------------
  // Control and status
  // ---------------------------------------------------------------------------

  /** `send` on one connection. */
  function Push(ws: Socket, command: string): Socket {
    ws.(outbox := ws.outbox + [command])
  }

  /** Sends `command` once to every connection in `targets` that is OPEN. */
  function Deliver(sockets: map<ConnId, Socket>, targets: set<ConnId>, command: string): map<ConnId, Socket> {
    map id | id in sockets :: if id in targets && sockets[id].readyState == Open then Push(sockets[id], command) else sockets[id]
  }

  /** Sending to one more connection extends a delivery by that one send, if it is OPEN. */
  lemma DeliverOneMore(sockets: map<ConnId, Socket>, targets: set<ConnId>, x: ConnId, command: string)
    requires x in sockets && x !in targets
    ensures Deliver(sockets, targets, command)[x] == sockets[x]
    ensures Deliver(sockets, targets + {x}, command) ==
      if sockets[x].readyState == Open then Deliver(sockets, targets, command)[x := Push(sockets[x], command)]
      else Deliver(sockets, targets, command)
  {
  }

  /** Sending changes no connection's state or device type, so the registry invariant survives it. */
  lemma DeliverValid(st: State, targets: set<ConnId>, command: string)
    requires Valid(st)
    ensures Valid(st.(sockets := Deliver(st.sockets, targets, command)))
  {
  }

  /** Some registered connection is OPEN. */
  predicate AnyOpen(st: State) {
    exists id :: id in st.espClients && id in st.sockets && st.sockets[id].readyState == Open
  }

  /** Some connection among `ids` is OPEN. */
  predicate AnyOpenIn(sockets: map<ConnId, Socket>, ids: seq<ConnId>) {
    exists k :: 0 <= k < |ids| && ids[k] in sockets && sockets[ids[k]].readyState == Open
  }

  lemma AnyOpenInSnoc(sockets: map<ConnId, Socket>, ids: seq<ConnId>, x: ConnId)
    ensures AnyOpenIn(sockets, ids + [x]) <==>
      AnyOpenIn(sockets, ids) || (x in sockets && sockets[x].readyState == Open)
  {
    var s := ids + [x];
    if AnyOpenIn(sockets, s) {
      var k :| 0 <= k < |s| && s[k] in sockets && sockets[s[k]].readyState == Open;
      if k < |ids| {
        assert ids[k] == s[k];
      }
    }
    if AnyOpenIn(sockets, ids) {
      var k :| 0 <= k < |ids| && ids[k] in sockets && sockets[ids[k]].readyState == Open;
      assert s[k] == ids[k];
    }
    assert s[|ids|] == x;
  }

  lemma AnyOpenInAll(st: State)
    ensures AnyOpen(st) <==> AnyOpenIn(st.sockets, st.espClients)
  {
    if AnyOpen(st) {
      var id :| id in st.espClients && id in st.sockets && st.sockets[id].readyState == Open;
      var k :| 0 <= k < |st.espClients| && st.espClients[k] == id;
    }
  }

  /**
   * The control endpoint: validate, build the command, send it to every
   * registered OPEN connection, and answer 200 if any send happened, 503 if
   * none did.
   */
  function Control(st: State, relay: BodyField, action: BodyField): (r: (State, Reply))
    ensures r.0.espClients == st.espClients && r.0.sockets.Keys == st.sockets.Keys
    ensures Valid(st) ==> Valid(r.0)
  {
    match Validate(relay, action)
    case Err(why) => (st, Rejected(why))
    case Ok(intent) =>
      var command := Command(intent);
      (st.(sockets := Deliver(st.sockets, Elems(st.espClients), command)),
       if AnyOpen(st) then Sent(command) else NoDevices)
  }

  /** One entry of the status listing. */
  datatype DeviceInfo = DeviceInfo(ip: Option<string>, heap: Option<int>, rssi: Option<int>, lastSeen: Option<nat>)

  /** The body of the status endpoint's reply. */
  datatype StatusBody = StatusBody(connectedDevices: nat, devices: seq<DeviceInfo>, status: string)

  function Describe(ws: Socket): DeviceInfo {
    DeviceInfo(ws.ip, ws.heap, ws.rssi, ws.lastHeartbeat)
  }

  /**
   * The status endpoint: the number of registered boards, one record per
   * board in registration order, and "connected" exactly when there is one.
   */
  function Summary(st: State): (r: StatusBody)
    requires Valid(st)
    ensures r.connectedDevices == |Elems(st.espClients)|
    ensures |r.devices| == r.connectedDevices == |st.espClients|
    ensures forall i :: 0 <= i < |r.devices| ==> r.devices[i] == Describe(st.sockets[st.espClients[i]])
    ensures forall id :: id in st.espClients ==> Describe(st.sockets[id]) in r.devices
    ensures r.status == "connected" <==> r.connectedDevices > 0
    ensures r.status == "disconnected" <==> r.connectedDevices == 0
  {
    DistinctCard(st.espClients);
    var n := |st.espClients|;
    var devices := seq(n, i requires 0 <= i < n => Describe(st.sockets[st.espClients[i]]));
    assert forall id :: id in st.espClients ==> Describe(st.sockets[id]) in devices by {
      forall id | id in st.espClients
        ensures Describe(st.sockets[id]) in devices
      {
        var k :| 0 <= k < n && st.espClients[k] == id;
        assert devices[k] == Describe(st.sockets[id]);
      }
    }
    StatusBody(n, devices, if n > 0 then "connected" else "disconnected")
  }

  // ---------------------------------------------------------------------------
  // What the handlers promise
  // ---------------------------------------------------------------------------

  /**
   * An `identify` from a relay board registers the connection exactly once,
   * records it as a relay board, sets address and telemetry from the frame and
   * leaves its state, heartbeat time and sent commands alone.
   */
  lemma IdentifyRegisters(st: State, id: ConnId, ip: Option<string>, heap: Option<int>, rssi: Option<int>, now: nat)
    requires Valid(st) && id in st.sockets && st.sockets[id].readyState != Closed
    ensures var r := Receive(st, id, Identify(Some(RELAY_DEVICE), ip, heap, rssi), now);
      && Valid(r)
      && Elems(r.espClients) == Elems(st.espClients) + {id}
      && multiset(r.espClients)[id] == 1
      && r.espClients[..|st.espClients|] == st.espClients
      && r.sockets[id].deviceType == Some(ESP32)
      && r.sockets[id].ip == ip && r.sockets[id].heap == heap && r.sockets[id].rssi == rssi
      && r.sockets[id].readyState == st.sockets[id].readyState
      && r.sockets[id].lastHeartbeat == st.sockets[id].lastHeartbeat
      && r.sockets[id].outbox == st.sockets[id].outbox
  {
    var r := Receive(st, id, Identify(Some(RELAY_DEVICE), ip, heap, rssi), now);
    DistinctOnce(r.espClients, id);
  }

  /** Identifying an already registered connection again leaves the registry as it is. */
  lemma IdentifyAgain(st: State, id: ConnId, ip: Option<string>, heap: Option<int>, rssi: Option<int>, now: nat)
    requires Valid(st) && id in st.espClients
    ensures var r := Receive(st, id, Identify(Some(RELAY_DEVICE), ip, heap, rssi), now);
      r.espClients == st.espClients && multiset(r.espClients)[id] == 1
  {
    DistinctOnce(st.espClients, id);
  }

  /** An `identify` with any other device tag changes nothing. */
  lemma IdentifyOtherDevice(st: State, id: ConnId, device: Option<string>, ip: Option<string>,
                            heap: Option<int>, rssi: Option<int>, now: nat)
    requires id in st.sockets && st.sockets[id].readyState != Closed
    requires device != Some(RELAY_DEVICE)
    ensures Receive(st, id, Identify(device, ip, heap, rssi), now) == st
  {
  }

  /**
   * A heartbeat stamps the given time and overwrites the telemetry of its own
   * connection only, registered or not, and never changes the registry.
   */
  lemma HeartbeatUpdates(st: State, id: ConnId, heap: Option<int>, rssi: Option<int>, now: nat)
    requires id in st.sockets && st.sockets[id].readyState != Closed
    ensures var r := Receive(st, id, Heartbeat(heap, rssi), now);
      && r.espClients == st.espClients
      && r.sockets[id].lastHeartbeat == Some(now)
      && r.sockets[id].heap == heap && r.sockets[id].rssi == rssi
      && r.sockets[id].deviceType == st.sockets[id].deviceType
      && r.sockets[id].ip == st.sockets[id].ip
      && r.sockets[id].readyState == st.sockets[id].readyState
      && r.sockets[id].outbox == st.sockets[id].outbox
  {
  }

  /** `status` frames, frames of another type and frames that do not decode change nothing. */
  lemma IgnoredFrames(st: State, id: ConnId, p: Payload, now: nat)
    requires id in st.sockets && st.sockets[id].readyState != Closed
    requires p.Unparseable? || (p.kind != Some(IDENTIFY) && p.kind != Some(HEARTBEAT))
    ensures Receive(st, id, Classify(p), now) == st
  {
  }

  /**
   * Closing removes the connection from the registry and marks it closed;
   * nothing else changes, and closing it again has no further effect.
   */
  lemma CloseRemoves(st: State, id: ConnId)
    requires Valid(st) && id in st.sockets
    ensures var r := Close(st, id);
      && Valid(r)
      && id !in r.espClients
      && Elems(r.espClients) == Elems(st.espClients) - {id}
      && |r.espClients| == (if id in st.espClients then |st.espClients| - 1 else |st.espClients|)
      && r.sockets[id] == st.sockets[id].(readyState := Closed)
      && (forall other :: other in st.sockets && other != id ==> r.sockets[other] == st.sockets[other])
      && Close(r, id) == r
  {
    var r := Close(st, id);
    assert r.sockets[id := r.sockets[id].(readyState := Closed)] == r.sockets;
  }

  /** A request that fails validation is answered 400 before anything is sent, whatever the registry holds. */
  lemma ControlRejects(st: State, relay: BodyField, action: BodyField)
    requires Validate(relay, action).Err?
    ensures Control(st, relay, action) == (st, Rejected(Validate(relay, action).error))
    ensures Control(st, relay, action).1.Code() == 400
  {
  }

  /**
   * A valid request sends `<relay>_<action>` once to every registered OPEN
   * connection and to no other, changes nothing else, and is answered 200
   * exactly when some send happened and 503 otherwise.
   */
  lemma ControlBroadcasts(st: State, relay: BodyField, action: BodyField, i: Intent)
    requires Valid(st) && Validate(relay, action) == Ok(i)
    ensures var out := Control(st, relay, action);
      && out.0.espClients == st.espClients
      && out.0.sockets.Keys == st.sockets.Keys
      && (forall id :: id in st.sockets ==>
            && out.0.sockets[id].outbox == st.sockets[id].outbox +
                 (if id in st.espClients && st.sockets[id].readyState == Open then [Command(i)] else [])
            && out.0.sockets[id] == st.sockets[id].(outbox := out.0.sockets[id].outbox))
      && (out.1 == Sent(Command(i)) <==> AnyOpen(st))
      && (out.1 == NoDevices <==> !AnyOpen(st))
      && (out.1.Code() == 200 <==> AnyOpen(st))
      && (out.1.Code() == 503 <==> !AnyOpen(st))
  {
  }

  /** Each connection receives the command exactly once if it is registered and OPEN, and never otherwise. */
  lemma ControlSendsOnce(st: State, relay: BodyField, action: BodyField, i: Intent, id: ConnId)
    requires Valid(st) && Validate(relay, action) == Ok(i) && id in st.sockets
    ensures multiset(Control(st, relay, action).0.sockets[id].outbox)[Command(i)] ==
            multiset(st.sockets[id].outbox)[Command(i)] +
            (if id in st.espClients && st.sockets[id].readyState == Open then 1 else 0)
  {
    ControlBroadcasts(st, relay, action, i);
  }

  /** With no board registered a valid request sends nothing and is answered 503. */
  lemma ControlWithEmptyRegistry(st: State, relay: BodyField, action: BodyField)
    requires Valid(st) && st.espClients == [] && Validate(relay, action).Ok?
    ensures Control(st, relay, action) == (st, NoDevices)
  {
    assert Deliver(st.sockets, Elems(st.espClients), Command(Validate(relay, action).value)) == st.sockets;
  }
}
