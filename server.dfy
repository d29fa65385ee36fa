/**
 * The server's handlers as they run: one object holding the registry of
 * relay boards and the connections' properties, updated in place by the
 * connection, message and close handlers and by the control endpoint's
 * broadcast loop. Each method is proved to compute exactly the corresponding
 * function of module Registry.
 */
module Server {
  import opened Protocol
  import opened Registry

  class Gateway {
    /** The `Set` of registered relay-board connections, in insertion order. */
    var espClients: seq<ConnId>
    /** Every accepted connection and the properties stored on it. */
    var sockets: map<ConnId, Socket>

    ghost function Model(): State
      reads this
    {
      State(espClients, sockets)
    }

    ghost predicate Valid()
      reads this
    {
      Registry.Valid(Model())
    }

    constructor ()
      ensures Valid() && Model() == INIT
    {
      espClients := [];
      sockets := map[];
    }

    /** A new connection from the transport. */
    method OnConnection(id: ConnId)
      requires Valid() && id !in sockets
      modifies this
      ensures Valid() && Model() == Connect(old(Model()), id)
    {
      sockets := sockets[id := NEW_SOCKET];
    }

    /** The message handler of connection `id`; `now` is the clock's reading. */
    method OnMessage(id: ConnId, payload: Payload, now: nat)
      requires Valid() && id in sockets && sockets[id].readyState != Closed
      modifies this
      ensures Valid() && Model() == Receive(old(Model()), id, Classify(payload), now)
    {
      var parsed := Classify(payload);
      if parsed.Identify? && parsed.device == Some(RELAY_DEVICE) {
        var ws := sockets[id];
        ws := ws.(deviceType := Some(ESP32));
        ws := ws.(ip := parsed.ip);
        ws := ws.(heap := parsed.heap);
        ws := ws.(rssi := parsed.rssi);
        sockets := sockets[id := ws];
        espClients := Add(espClients, id);
      }
      if parsed.Heartbeat? {
        var ws := sockets[id];
        ws := ws.(lastHeartbeat := Some(now));
        ws := ws.(heap := parsed.heap);
        ws := ws.(rssi := parsed.rssi);
        sockets := sockets[id := ws];
      }
    }

    /** The transport starts closing connection `id`. */
    method OnClosing(id: ConnId)
      requires Valid() && id in sockets
      modifies this
      ensures Valid() && Model() == BeginClosing(old(Model()), id)
    {
      if sockets[id].readyState == Open {
        sockets := sockets[id := sockets[id].(readyState := Closing)];
      }
    }

    /** The close handler of connection `id`. */
    method OnClose(id: ConnId)
      requires Valid() && id in sockets
      modifies this
      ensures Valid() && Model() == Close(old(Model()), id)
    {
      sockets := sockets[id := sockets[id].(readyState := Closed)];
      espClients := Remove(espClients, id);
    }

    /**
     * The control endpoint: validate the body, then broadcast the command and
     * answer according to whether any send happened.
     */
    method Control(relay: BodyField, action: BodyField) returns (reply: Reply)
      requires Valid()
      modifies this
      ensures Valid() && (Model(), reply) == Registry.Control(old(Model()), relay, action)
    {
      var checked := Validate(relay, action);
      if checked.Err? {
        return Rejected(checked.error);
      }
      var command := Command(checked.value);
      var sent := Broadcast(command);
      reply := if sent then Sent(command) else NoDevices;
    }

    /**
     * The `forEach` over the registry: send `command` to every registered
     * connection that is OPEN and report whether any send happened.
     */
    method Broadcast(command: string) returns (sent: bool)
      requires Valid()
      modifies this
      ensures Valid()
      ensures espClients == old(espClients)
      ensures sockets == Deliver(old(sockets), Elems(espClients), command)
      ensures sent == AnyOpen(old(Model()))
    {
      var clients := espClients;
      ghost var before := sockets;
      assert Registry.Valid(State(clients, before));
      sent := false;
      for i := 0 to |clients|
        invariant espClients == clients
        invariant sockets == Deliver(before, Elems(clients[..i]), command)
        invariant sent == AnyOpenIn(before, clients[..i])
      {
        var client := clients[i];
        ghost var done := clients[..i];
        assert clients[..i + 1] == done + [client];
        assert client !in Elems(done);
        assert Elems(done + [client]) == Elems(done) + {client};
        DeliverOneMore(before, Elems(done), client, command);
        AnyOpenInSnoc(before, done, client);
        if sockets[client].readyState == Open {
          sockets := sockets[client := Push(sockets[client], command)];
          sent := true;
        }
      }
      assert clients[..|clients|] == clients;
      DeliverValid(State(clients, before), Elems(clients), command);
      AnyOpenInAll(State(clients, before));
    }

    /** The status endpoint. */
    method Status() returns (body: StatusBody)
      requires Valid()
      ensures body == Summary(Model())
      ensures body.connectedDevices == |Elems(espClients)|
    {
      body := Summary(State(espClients, sockets));
    }
  }
}
