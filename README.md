# Relay gateway: device registry and command dispatch

A model of the core of a small relay-control gateway (`index.js`). The gateway
accepts WebSocket connections from ESP32 relay boards and keeps the boards
that have identified themselves in a registry, the `espClients` set. It
records each board's address and telemetry, which are free heap and signal
strength. An operator's `POST /api/control` sends `relay1_on`, `relay2_off`
and so on to every registered board whose connection is OPEN.
`GET /api/status` lists the registered boards.

The project has four modules:

- `protocol.dfy`, module `Protocol`, holds the messages:
  - a device frame after JSON decoding (`Payload`) and its classification by `type` (`Classify`), with an inverse (`Encode`) used to prove that classification loses nothing;
  - the control request body, whose fields follow JavaScript truthiness (`BodyField`), and its validation (`Validate`);
  - the command string (`Command`) and its inverse (`ParseCommand`), used to prove that distinct intents give distinct commands;
  - the HTTP reply (`Reply`: 200, 400 or 503, with its text).
- `registry.dfy`, module `Registry`, holds the gateway state as a value:
  - `espClients` models the JavaScript `Set` as a sequence without duplicates, in insertion order.
  - `sockets` maps each connection to a `Socket` record. The record holds `readyState`, `deviceType`, `ip`, `heap`, `rssi` and `lastHeartbeat`, plus an `outbox` of the commands sent on it.
  - Each handler is a function from the old state to the new one: `Connect`, `Receive`, `BeginClosing`, `Close`, `Control` and `Summary`.
  - The lemmas state what the handlers promise.
- `server.dfy`, module `Server`, holds the class `Gateway`:
  - its two fields are updated in place by the handlers;
  - `Broadcast` is the `forEach` loop that sends and raises the `sent` flag;
  - each method is proved to compute exactly the matching `Registry` function.
- `trace.dfy`, module `Trace`, covers runs of the server:
  - every event is handled to completion, one at a time;
  - every handler keeps the registry invariant;
  - after any run, a connection is registered exactly when it identified as a relay board and has not closed since;
  - it also holds two concrete scenarios.

Behaviours of the code that the model keeps as they are:

- Every `identify` from `esp32_relay` overwrites `ip`, `heap` and `rssi` (index.js:43-45), so the address is not fixed at the first identification. A field the frame leaves out is overwritten with `undefined`, modelled as `None`.
- A connection joins the registry only after an `identify` from `esp32_relay` (index.js:41-46). It stays registered while its transport is CLOSING, until the close event (index.js:65-68). This is why the broadcast checks for `OPEN` (index.js:87), and the model keeps it.
- `send` is called only on OPEN connections and its outcome is not inspected (index.js:87-89). The model treats a send to an OPEN connection as delivered.
- `deviceType` is rewritten with the same value on every matching `identify` (index.js:42) and never reverts (`Trace.Step`).

## Model

| member | source | states |
|---|---|---|
| `Protocol.Classify` | index.js:37-62 | A frame that does not decode is malformed. Otherwise the `type` field alone picks identify, heartbeat, status or other, and identify and heartbeat carry exactly the frame's `device`, `ip`, `heap` and `rssi` values. |
| `Protocol.ClassifyEncode` | index.js:41-58 | `Encode` is a right inverse of classification: classifying the encoding of any well-formed message gives back that message with all its fields, so classification loses nothing the handlers use. |
| `Protocol.ClassifyRoundTrip` | index.js:38-62 | Every classified frame is well-formed (an `Other` never carries a handled `type`), and encoding it and classifying again gives the same message. |
| `Protocol.RelayNamed` | index.js:79 | A name is accepted as a relay exactly when it is `relay1` or `relay2`, and it yields that relay. |
| `Protocol.ActionNamed` | index.js:79 | A name is accepted as an action exactly when it is `on` or `off`, and it yields that action. |
| `Protocol.Validate` | index.js:73-81 | The answer is "missing" exactly when `relay` or `action` is falsy. A request is accepted exactly when both are the exact strings of a relay and an action, and the resulting intent is made of those two. Anything else is "invalid". |
| `Protocol.ParseCommand` | index.js:83 | The inverse of `Command`: whatever it accepts is exactly the `<relay>_<action>` string of the intent it returns. |
| `Protocol.ParseCommandOfCommand` | index.js:83 | The command `relay + "_" + action` is read back as the intent it was built from. |
| `Protocol.CommandInjective` | index.js:83 | Distinct intents give distinct command strings. |
| `Registry.Add` | index.js:46 | Adding to the registry gives its old members plus the new one. No duplicate appears, old members keep their places, and it grows by one only when the connection was not already there. |
| `Registry.RemoveKeepsOrder` | index.js:67 | Deleting a member from the registry cuts out exactly the entry at its position and leaves the other members in their order, as `Set.prototype.delete` does. |
| `Registry.Remove` | index.js:67 | Deleting from the registry removes exactly that connection. No duplicate appears, and it shrinks by one when the connection was a member, otherwise it is unchanged. |
| `Registry.DistinctCard` | index.js:110 | The registry's length is the number of distinct connections in it. |
| `Registry.DistinctOnce` | index.js:28 | Each connection occurs in the registry at most once. |
| `Registry.Connect` | index.js:30-31 | A new connection gets a fresh socket and does not join the registry. Every existing connection stays as it was. |
| `Registry.Receive` | index.js:33-63 | Handling a frame changes no other connection and keeps the registry invariant. |
| `Registry.BeginClosing` | index.js:87 | When the transport starts closing, an OPEN connection becomes CLOSING and one that is not OPEN is left as it is. The connection's stored properties, the registry and the other connections stay unchanged. |
| `Registry.Close` | index.js:65-68 | The close handler marks the connection closed and keeps the registry invariant. |
| `Registry.DeliverOneMore` | index.js:86-91 | Sending to one more connection adds exactly one send, and only when that connection is OPEN. |
| `Registry.DeliverValid` | index.js:86-91 | Sending changes no connection's state or device type, so the registry invariant holds after a broadcast. |
| `Registry.Control` | index.js:72-98 | A control request never changes registry membership or the set of connections, and keeps the invariant. |
| `Registry.Summary` | index.js:101-113 | `connectedDevices` is the number of distinct registered boards. There is one record per board, in registration order, with its `ip`, `heap`, `rssi` and `lastHeartbeat`, and every registered board is listed. The status is "connected" exactly when the count is positive, otherwise "disconnected". |
| `Registry.IdentifyRegisters` | index.js:41-48 | An `identify` from `esp32_relay` adds the connection exactly once and records it as a relay board. Its `ip`, `heap` and `rssi` become the frame's values. Its state, heartbeat time and sent commands stay as they were, and earlier members keep their places. |
| `Registry.IdentifyAgain` | index.js:46 | Identifying a registered connection again leaves the registry identical, still with exactly one entry for it. |
| `Registry.IdentifyOtherDevice` | index.js:41 | An `identify` with any other device tag changes neither the registry nor the connection. |
| `Registry.HeartbeatUpdates` | index.js:50-54 | A heartbeat sets `lastHeartbeat` to the given time and overwrites `heap` and `rssi`, whether the connection is registered or not. It leaves the registry and the connection's other fields unchanged. |
| `Registry.IgnoredFrames` | index.js:56-62 | `status` frames, frames of any other type and text that does not decode change nothing. |
| `Registry.CloseRemoves` | index.js:65-68 | Closing removes the connection from the registry, which shrinks by one if it was a member. Other connections stay unchanged, and closing again has no further effect. |
| `Registry.ControlRejects` | index.js:75-81 | A request that fails validation is answered 400 with the validation's reason. The state is unchanged, whatever the registry holds, so nothing is sent. |
| `Registry.ControlBroadcasts` | index.js:83-97 | For a valid request, every registered OPEN connection gets `<relay>_<action>` appended, and no other connection gets anything. Nothing else changes. The reply is 200 with that command exactly when some registered connection is OPEN, otherwise 503. |
| `Registry.ControlSendsOnce` | index.js:85-91 | Each connection receives the command exactly once if it is registered and OPEN, and never otherwise. |
| `Registry.ControlWithEmptyRegistry` | index.js:93-97 | With an empty registry a valid request sends nothing and is answered 503. |
| `Server.Gateway.constructor` | index.js:28 | The server starts with an empty registry and no connections. |
| `Server.Gateway.OnConnection` | index.js:30-31 | The in-place connection handler has exactly the effect of `Registry.Connect`. |
| `Server.Gateway.OnMessage` | index.js:33-63 | The in-place message handler, which assigns fields one by one and adds to the set, has exactly the effect of `Registry.Receive` on the classified frame. |
| `Server.Gateway.OnClosing` | index.js:87 | A transport that starts closing has exactly the effect of `Registry.BeginClosing`. |
| `Server.Gateway.OnClose` | index.js:65-68 | The in-place close handler has exactly the effect of `Registry.Close`. |
| `Server.Gateway.Control` | index.js:72-98 | The control endpoint's new state and reply are exactly those of `Registry.Control`. |
| `Server.Gateway.Broadcast` | index.js:85-91 | The loop over a snapshot of the registry sends the command to exactly the registered OPEN connections. `sent` is true exactly when one exists, and the registry is unchanged. |
| `Server.Gateway.Status` | index.js:101-113 | The status endpoint returns `Registry.Summary` of the current state, whose count is the number of distinct registered boards. |
| `Trace.Step` | index.js:30-98 | Every event handler keeps the registry invariant. A connection once recorded as a relay board stays one. |
| `Trace.Run` | index.js:30-98 | Any run the transport can produce, starting from a valid state, ends in a valid state. |
| `Trace.StepMembership` | index.js:33-68 | One event registers a connection exactly when it is a relay board's `identify` on it. It unregisters the connection exactly when it is that connection's close. |
| `Trace.RegisteredIff` | index.js:28-68 | After any run from startup, a connection is registered exactly when it identified as a relay board at some point and has not closed since. |
| `Trace.IdentifyControlClose` | index.js:41-113 | Scenario: a board identifies with address 10.0.0.5, which makes the count 1 and records the address. `relay1`/`on` then sends it exactly `relay1_on` with reply 200, and its disconnect brings the count back to 0. |
| `Trace.UnknownRelayRefused` | index.js:75-81 | `relay9`, the action `toggle` and a missing relay are each refused with the matching reason, and change nothing, even with no board connected. |

## Left out

- HTTP and framework setup is not modelled: Express, CORS, static files, the `/` route, basic authentication, environment configuration and `server.listen`. It is wiring around the core.
- `JSON.parse` is not modelled. A device frame enters as an already decoded `Payload`. The cases where `JSON.parse` throws, and `null`, whose fields cannot be read (index.js:41), are `Unparseable`.
- Field types in device frames are fixed: `ip` is a string and `heap`/`rssi` are integers when present. A board sending other JSON types there is not modelled.
- `JSON.stringify` of `{ command }` is not modelled. A connection's `outbox` records the command string itself, and the JSON response bodies are reduced to `Reply.Code` and `Reply.Body`.
- `console.log` calls, including the whole `status` handler, are not modelled. They only log.
- `Date.now()` is not modelled. The current time is the parameter `now`.
- The WebSocket transport is abstracted. `readyState` is `Open`, `Closing` or `Closed`. The start of a closing handshake is the event `BeginClosing`, and the transport's guarantees are preconditions: fresh handles, and no frames or second close after a close. Delivery of a send on an OPEN connection is assumed.
- Concurrency is not modelled because there is none in the source. Node runs each handler to completion, so events are a sequence (`Trace`).
- The status endpoint is not an event in `Trace`, because it changes nothing.
