/**
 * The messages exchanged by the relay gateway: the frames relay boards send
 * over their WebSocket (after JSON decoding), the body of an operator's control
 * request, the command string broadcast to the boards, and the HTTP reply to a
 * control request.
 */
module Protocol {

  datatype Option<+T> = None | Some(value: T)

  datatype Result<+T, +E> = Ok(value: T) | Err(error: E)

  // ---------------------------------------------------------------------------
  // Inbound device frames
  // ---------------------------------------------------------------------------

  /** Values of the JSON `type` field that the server reacts to. */
  const IDENTIFY := "identify"
  const HEARTBEAT := "heartbeat"
  const STATUS := "status"

  /** The `device` tag a relay board announces itself with. */
  const RELAY_DEVICE := "esp32_relay"

  /**
   * A text frame from a device after JSON decoding. `Unparseable` stands for
   * text that is not JSON, and for JSON whose fields cannot be read (`null`).
   * Of a decoded object only the fields the server looks at are kept; each is
   * present or absent on its own, a missing one is not an error.
   */
  datatype Payload =
    | Unparseable
    | Json(kind: Option<string>, device: Option<string>, ip: Option<string>,
           heap: Option<int>, rssi: Option<int>)

  /** A device frame classified by its `type` discriminant. */
  datatype Message =
    | Identify(device: Option<string>, ip: Option<string>, heap: Option<int>, rssi: Option<int>)
    | Heartbeat(heap: Option<int>, rssi: Option<int>)
    | Status
    | Other(kind: Option<string>)
    | Malformed

  /** The `type` values that select a handler. */
  predicate Known(kind: Option<string>) {
    kind == Some(IDENTIFY) || kind == Some(HEARTBEAT) || kind == Some(STATUS)
  }

  /**
   * Dispatch on the `type` field, taking the fields each kind uses from the
   * frame; a frame that did not decode is `Malformed`.
   */
  function Classify(p: Payload): (m: Message)
    ensures m.Malformed? <==> p.Unparseable?
    ensures m.Identify? <==> p.Json? && p.kind == Some(IDENTIFY)
    ensures m.Heartbeat? <==> p.Json? && p.kind == Some(HEARTBEAT)
    ensures m.Status? <==> p.Json? && p.kind == Some(STATUS)
    ensures m.Other? <==> p.Json? && !Known(p.kind)
    ensures m.Identify? ==> m.device == p.device && m.ip == p.ip && m.heap == p.heap && m.rssi == p.rssi
    ensures m.Heartbeat? ==> m.heap == p.heap && m.rssi == p.rssi
  {
    match p
    case Unparseable => Malformed
    case Json(kind, device, ip, heap, rssi) =>
      if kind == Some(IDENTIFY) then Identify(device, ip, heap, rssi)
      else if kind == Some(HEARTBEAT) then Heartbeat(heap, rssi)
      else if kind == Some(STATUS) then Status
      else Other(kind)
  }

  /** Messages `Classify` can produce: an `Other` never carries a known type. */
  predicate WellFormed(m: Message) {
    m.Other? ==> !Known(m.kind)
  }

  /**
   * An inverse of `Classify`: a frame that classifies as the given message.
   * It serves to prove that classification loses nothing.
   */
  function Encode(m: Message): Payload {
    match m
    case Identify(device, ip, heap, rssi) => Json(Some(IDENTIFY), device, ip, heap, rssi)
    case Heartbeat(heap, rssi) => Json(Some(HEARTBEAT), None, None, heap, rssi)
    case Status => Json(Some(STATUS), None, None, None, None)
    case Other(kind) => Json(kind, None, None, None, None)
    case Malformed => Unparseable
  }

  /** Classification recovers every well-formed message from its encoding, fields included. */
  lemma ClassifyEncode(m: Message)
    requires WellFormed(m)
    ensures Classify(Encode(m)) == m
  {
  }

  /**
   * Every classified frame is well-formed, so encoding the message and
   * classifying again gives the same message: nothing the handlers use is lost.
   */
  lemma ClassifyRoundTrip(p: Payload)
    ensures WellFormed(Classify(p))
    ensures Classify(Encode(Classify(p))) == Classify(p)
  {
    ClassifyEncode(Classify(p));
  }

  // ---------------------------------------------------------------------------
  // Control requests
  // ---------------------------------------------------------------------------

  /**
   * One field of the JSON body of a control request as the handler sees it:
   * absent, a string, or some other JSON value, of which only its JavaScript
   * truthiness matters (`null`, `false` and `0` are falsy; other numbers,
   * `true`, arrays and objects are truthy).
   */
  datatype BodyField = Undefined | Text(text: string) | NonText(truthy: bool)

  /** JavaScript's `!field`. */
  predicate Falsy(f: BodyField) {
    f.Undefined? || f == Text("") || f == NonText(false)
  }

  datatype Relay = Relay1 | Relay2
  datatype Action = On | Off

  /** A validated operator intent: one of the two relays and one of two actions. */
  datatype Intent = Intent(relay: Relay, action: Action)

  function RelayName(r: Relay): string {
    match r
    case Relay1 => "relay1"
    case Relay2 => "relay2"
  }

  function ActionName(a: Action): string {
    match a
    case On => "on"
    case Off => "off"
  }

  /** Membership in the list of relay names: the relay so named, if any. */
  function RelayNamed(name: string): (r: Option<Relay>)
    ensures forall x :: r == Some(x) <==> name == RelayName(x)
  {
    if name == "relay1" then Some(Relay1)
    else if name == "relay2" then Some(Relay2)
    else None
  }

  /** Membership in the list of action names: the action so named, if any. */
  function ActionNamed(name: string): (r: Option<Action>)
    ensures forall x :: r == Some(x) <==> name == ActionName(x)
  {
    if name == "on" then Some(On)
    else if name == "off" then Some(Off)
    else None
  }

  /** Why a control request was refused with status 400. */
  datatype Rejection = MissingField | InvalidField

  /**
   * Validation of a control request: a falsy `relay` or `action` is reported
   * as missing; otherwise both must be exactly one of the known names.
   */
  function Validate(relay: BodyField, action: BodyField): (r: Result<Intent, Rejection>)
    ensures r == Err(MissingField) <==> Falsy(relay) || Falsy(action)
    ensures forall i :: r == Ok(i) <==> relay == Text(RelayName(i.relay)) && action == Text(ActionName(i.action))
  {
    if Falsy(relay) || Falsy(action) then Err(MissingField)
    else
      var r := if relay.Text? then RelayNamed(relay.text) else None;
      var a := if action.Text? then ActionNamed(action.text) else None;
      if r.Some? && a.Some? then Ok(Intent(r.value, a.value)) else Err(InvalidField)
  }

  /** The command string broadcast to the boards, `<relay>_<action>`. */
  function Command(i: Intent): string {
    RelayName(i.relay) + "_" + ActionName(i.action)
  }

  /** Position of the first occurrence of `c` in `s`. */
  function IndexOf(s: string, c: char): (r: Option<nat>)
    ensures r.None? <==> c !in s
    ensures r.Some? ==> r.value < |s| && s[r.value] == c && c !in s[..r.value]
  {
    if s == [] then None
    else if s[0] == c then Some(0)
    else
      match IndexOf(s[1..], c)
      case None => None
      case Some(k) => assert s[1..][..k] == s[1..k + 1]; Some(k + 1)
  }

  /**
   * An inverse of `Command`: the relay name before the first `_` and the
   * action after it. It serves to prove that distinct intents give distinct
   * commands; whatever it accepts is exactly a command.
   */
  function ParseCommand(s: string): (r: Option<Intent>)
    ensures forall i :: r == Some(i) ==> s == Command(i)
  {
    match IndexOf(s, '_')
    case None => None
    case Some(k) =>
      var relay := RelayNamed(s[..k]);
      var action := ActionNamed(s[k + 1..]);
      if relay.Some? && action.Some? then
        assert s == s[..k] + "_" + s[k + 1..];
        Some(Intent(relay.value, action.value))
      else None
  }

  /** A separator not in the prefix is found right after it. */
  lemma IndexOfAfter(p: string, c: char, q: string)
    requires c !in p
    ensures IndexOf(p + [c] + q, c) == Some(|p|)
  {
    var s := p + [c] + q;
    assert s[|p|] == c;
    assert s[..|p|] == p;
  }

  /** Every command string is read back as the intent it was built from. */
  lemma ParseCommandOfCommand(i: Intent)
    ensures ParseCommand(Command(i)) == Some(i)
  {
    var name := RelayName(i.relay);
    assert '_' !in name by {
      match i.relay
      case Relay1 =>
      case Relay2 =>
    }
    var s := Command(i);
    IndexOfAfter(name, '_', ActionName(i.action));
    assert s[..|name|] == name;
    assert s[|name| + 1..] == ActionName(i.action);
  }

  /** Distinct intents are broadcast as distinct commands. */
  lemma CommandInjective(i: Intent, j: Intent)
    requires Command(i) == Command(j)
    ensures i == j
  {
    ParseCommandOfCommand(i);
    ParseCommandOfCommand(j);
  }

  /** What the control endpoint answers. */
  datatype Reply = Sent(command: string) | Rejected(reason: Rejection) | NoDevices {

    /** The HTTP status code of the reply. */
    function Code(): nat {
      match this
      case Sent(_) => 200
      case Rejected(_) => 400
      case NoDevices => 503
    }

    /** The `message` of a success body, or the `error` of a failure body. */
    function Body(): string {
      match this
      case Sent(command) => "Command sent: " + command
      case Rejected(MissingField) => "Missing relay or action"
      case Rejected(InvalidField) => "Invalid relay or action"
      case NoDevices => "No ESP32 devices connected"
    }
  }
}
