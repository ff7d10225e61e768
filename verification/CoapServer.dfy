/**
 * The hello/led resources of src/coap_server.c: response building into caller
 * buffers, routing, and the LED as a one-bit register.
 */
module CoapServer {
  import opened Bytes
  import opened CoapMessage
  import CoapClient

  const GET: byte := 0x01
  const PUT: byte := 0x03
  const CONTENT: byte := 0x45      // 2.05
  const CHANGED: byte := 0x44      // 2.04
  const BAD_REQUEST: byte := 0x80  // 4.00
  const NOT_FOUND: byte := 0x84    // 4.04
  const CON := 0
  const NON := 1
  const ACK := 2

  const URI_PATH := CoapClient.URI_PATH
  const OPTION_SLOTS := 2

  const HELLO_PATH: seq<bytes> := [[0x68, 0x65, 0x6c, 0x6c, 0x6f]]
  const LED_PATH: seq<bytes> := [[0x6c, 0x65, 0x64]]
  // "Hello from ZBook over USB-NCM\n"
  const GREETING: bytes := [
    0x48, 0x65, 0x6c, 0x6c, 0x6f, 0x20, 0x66, 0x72, 0x6f, 0x6d, 0x20, 0x5a, 0x42, 0x6f, 0x6f,
    0x6b, 0x20, 0x6f, 0x76, 0x65, 0x72, 0x20, 0x55, 0x53, 0x42, 0x2d, 0x4e, 0x43, 0x4d, 0x0a]

  /** A parsed request, and whether `coap_find_options` can read its options. */
  datatype Request = Request(msg: Message, readable: bool)

  // ---- routing ----

  function UriPath(options: seq<Opt>): seq<bytes> {
    if options == [] then []
    else (if options[0].number == URI_PATH then [options[0].value] else []) + UriPath(options[1..])
  }

  function Truncated<T>(s: seq<T>, n: nat): seq<T> {
    if |s| <= n then s else s[..n]
  }

  /** What fits the two option slots (164-168); an error counts as no options. */
  function CollectedPath(r: Request): seq<bytes> {
    if r.readable then Truncated(UriPath(r.msg.options), OPTION_SLOTS) else []
  }

  datatype Resource = Hello | LedGet | LedPut | Nothing

  /** Lines 170-181. */
  function Route(r: Request): Resource {
    var path := CollectedPath(r);
    if r.msg.code == GET && path == HELLO_PATH then Hello
    else if path == LED_PATH && r.msg.code == GET then LedGet
    else if path == LED_PATH && r.msg.code == PUT then LedPut
    else Nothing
  }

  /** A request names a resource if its complete path is that resource's path. */
  predicate Names(r: Request, path: seq<bytes>) {
    r.readable && UriPath(r.msg.options) == path
  }

  /**
   * Looking at the first `n` segments only decides equality with `path`, for
   * requests of any length, exactly when `path` leaves a slot to spare.
   */
  lemma TruncationExact(path: seq<bytes>, n: nat)
    ensures (forall full: seq<bytes> :: Truncated(full, n) == path <==> full == path) <==> |path| < n
  {
    if |path| >= n {
      var full := path + [[]];
      assert full[..n] == path[..n];
      assert Truncated(full, n) == path[..n];
      assert Truncated(path, n) == path[..n];
    }
  }

  /** So two slots are enough: routing by them is routing by the complete path. */
  lemma RoutingExact(r: Request)
    ensures Route(r) == Hello <==> r.msg.code == GET && Names(r, HELLO_PATH)
    ensures Route(r) == LedGet <==> r.msg.code == GET && Names(r, LED_PATH)
    ensures Route(r) == LedPut <==> r.msg.code == PUT && Names(r, LED_PATH)
  {
    TruncationExact(HELLO_PATH, OPTION_SLOTS);
    TruncationExact(LED_PATH, OPTION_SLOTS);
    assert HELLO_PATH != LED_PATH by { assert HELLO_PATH[0][0] != LED_PATH[0][0]; }
  }

  // ---- the specification of a dispatch ----

  /** `parse_onoff` (88-104): 1, 0, or -1; only a prefix of the payload is looked at. */
  function ParseOnOff(payload: bytes): int {
    if |payload| >= 1 && payload[0] == 0x31 then 1
    else if |payload| >= 1 && payload[0] == 0x30 then 0
    else if |payload| >= 2 && payload[..2] == [0x6f, 0x6e] then 1
    else if |payload| >= 3 && payload[..3] == [0x6f, 0x66, 0x66] then 0
    else -1
  }

  lemma OnOffMeaning(payload: bytes)
    ensures ParseOnOff(payload) == 1 <==> [0x31] <= payload || [0x6f, 0x6e] <= payload
    ensures ParseOnOff(payload) == 0 <==> [0x30] <= payload || [0x6f, 0x66, 0x66] <= payload
    ensures ParseOnOff(payload) in {-1, 0, 1}
  {
    if [0x6f, 0x66, 0x66] <= payload {
      assert payload[..3] == [0x6f, 0x66, 0x66];
      assert payload[..2][1] != [0x6f, 0x6e][1];
    }
    if [0x6f, 0x6e] <= payload { assert payload[..2] == [0x6f, 0x6e]; }
  }

  /** A PUT to the led resource with an intelligible payload. */
  predicate Sets(r: Request) {
    r.msg.code == PUT && Names(r, LED_PATH) && ParseOnOff(r.msg.payload) >= 0
  }

  function NextLed(led: bool, r: Request): bool {
    if Sets(r) then ParseOnOff(r.msg.payload) == 1 else led
  }

  function LedByte(led: bool): byte {
    if led then 0x31 else 0x30
  }

  /** The response message, with the request's token and id and no options. */
  function Respond(led: bool, r: Request): Message {
    var m := r.msg;
    if m.code == GET && Names(r, HELLO_PATH) then Message(ACK, CONTENT, m.id, m.token, [], GREETING)
    else if m.code == GET && Names(r, LED_PATH) then Message(ACK, CONTENT, m.id, m.token, [], [LedByte(led)])
    else if m.code == PUT && Names(r, LED_PATH) then
      Message(ACK, if Sets(r) then CHANGED else BAD_REQUEST, m.id, m.token, [], [])
    else Message(ACK, NOT_FOUND, m.id, m.token, [], [])
  }

  // ---- the implementation ----

  /** `struct coap_packet` as the response builders use it. */
  class Packet {
    var data: array<byte>
    var offset: nat

    constructor ()
      ensures Valid() && Contents() == [] && fresh(data)
    {
      data := new byte[0];
      offset := 0;
    }

    ghost predicate Valid() reads this {
      offset <= data.Length
    }

    function Contents(): bytes
      requires Valid()
      reads this, data
    {
      data[..offset]
    }

    method Append(s: bytes) returns (ok: bool)
      requires Valid()
      modifies this`offset, data
      ensures Valid() && ok == (old(offset) + |s| <= data.Length)
      ensures Contents() == if ok then old(Contents()) + s else old(Contents())
    {
      if offset + |s| > data.Length {
        return false;
      }
      forall i | 0 <= i < |s| {
        data[offset + i] := s[i];
      }
      offset := offset + |s|;
      return true;
    }

    /** `coap_packet_init`, version 1. */
    method Init(buf: array<byte>, kind: nat, token: bytes, code: byte, id: nat) returns (ok: bool)
      requires kind < 4 && |token| <= MAX_TOKEN && id < 0x1_0000
      modifies this, buf
      ensures Valid() && data == buf && ok == (4 + |token| <= buf.Length)
      ensures ok ==> Contents() == Header(kind, |token|, code, id) + token
    {
      data := buf;
      offset := 0;
      ok := Append(Header(kind, |token|, code, id));
      if ok {
        ok := Append(token);
      }
    }

    /** The marker and the payload, as the builders append them. */
    method AppendPayload(payload: bytes) returns (ok: bool)
      requires Valid()
      modifies this`offset, data
      ensures Valid() && ok == (old(offset) + 1 + |payload| <= data.Length)
      ensures ok ==> Contents() == old(Contents()) + ([PAYLOAD_MARKER] + payload)
    {
      ok := Append([PAYLOAD_MARKER]);
      if ok {
        ok := Append(payload);
      }
    }
  }

  lemma OptionFree(m: Message)
    requires WellFormed(m) && m.options == []
    ensures Serialize(m) == Header(m.kind, |m.token|, m.code, m.id) + m.token + SerializePayload(m.payload)
  {
  }

  class Server {
    /** `led_state`: off at power-on. */
    var ledState: bool

    constructor ()
      ensures !ledState
    {
      ledState := false;
    }

    /** `build_hello` and `build_led_get` differ in their payload only. */
    method BuildContent(rsp: Packet, buf: array<byte>, m: Message, payload: bytes) returns (ok: bool)
      requires WellFormed(m) && payload != []
      modifies rsp, buf
      ensures rsp.Valid() && rsp.data == buf
      ensures var out := Serialize(Message(ACK, CONTENT, m.id, m.token, [], payload));
              ok == (|out| <= buf.Length) && (ok ==> rsp.Contents() == out)
    {
      OptionFree(Message(ACK, CONTENT, m.id, m.token, [], payload));
      ok := rsp.Init(buf, ACK, m.token, CONTENT, m.id);
      if ok {
        ok := rsp.AppendPayload(payload);
      }
    }

    /** The LED changes before the response is built, so also when the buffer is too small. */
    method BuildLedPut(r: Request, rsp: Packet, buf: array<byte>) returns (ok: bool)
      requires WellFormed(r.msg) && r.msg.code == PUT && Names(r, LED_PATH)
      modifies this, rsp, buf
      ensures rsp.Valid() && rsp.data == buf
      ensures ledState == NextLed(old(ledState), r)
      ensures var out := Serialize(Respond(old(ledState), r));
              ok == (|out| <= buf.Length) && (ok ==> rsp.Contents() == out)
    {
      var value := ParseOnOff(r.msg.payload);
      var code := BAD_REQUEST;
      if value >= 0 {
        ledState := value == 1;
        code := CHANGED;
      }
      OptionFree(Message(ACK, code, r.msg.id, r.msg.token, [], []));
      ok := rsp.Init(buf, ACK, r.msg.token, code, r.msg.id);
    }

    /** `coap_server_dispatch_inner`. */
    method DispatchInner(r: Request, buf: array<byte>, rsp: Packet) returns (ok: bool)
      requires WellFormed(r.msg)
      modifies this, rsp, buf
      ensures rsp.Valid() && rsp.data == buf
      ensures ledState == NextLed(old(ledState), r)
      ensures var out := Serialize(Respond(old(ledState), r));
              ok == (|out| <= buf.Length) && (ok ==> rsp.Contents() == out)
    {
      RoutingExact(r);
      assert HELLO_PATH != LED_PATH by { assert HELLO_PATH[0][0] != LED_PATH[0][0]; }
      var path := CollectedPath(r);
      if r.msg.code == GET && path == HELLO_PATH {
        ok := BuildContent(rsp, buf, r.msg, GREETING);
        return;
      }
      if path == LED_PATH {
        if r.msg.code == GET {
          ok := BuildContent(rsp, buf, r.msg, [LedByte(ledState)]);
          return;
        }
        if r.msg.code == PUT {
          ok := BuildLedPut(r, rsp, buf);
          return;
        }
      }
      OptionFree(Message(ACK, NOT_FOUND, r.msg.id, r.msg.token, [], []));
      ok := rsp.Init(buf, ACK, r.msg.token, NOT_FOUND, r.msg.id);
    }
  }

  // ---- what it promises ----

  const SMALLEST_BUFFER := 64   // CONFIG_COAP_SERVER_BLOCK_SIZE, prj.conf

  /** Every response is well-formed, echoes token and id, and fits the smallest buffer configured. */
  lemma ResponseFits(led: bool, r: Request)
    requires WellFormed(r.msg)
    ensures var m := Respond(led, r);
            && WellFormed(m) && m.kind == ACK && m.options == [] && m.token == r.msg.token && m.id == r.msg.id
            && |Serialize(m)| <= SMALLEST_BUFFER
  {
    OptionFree(Respond(led, r));
  }

  /** The state after a sequence of dispatched requests. */
  function RunLed(led: bool, rs: seq<Request>): bool
    decreases |rs|
  {
    if rs == [] then led else NextLed(RunLed(led, rs[..|rs| - 1]), rs[|rs| - 1])
  }

  /** `v` was the value of the latest intelligible PUT to the LED, or the initial one if there was none. */
  ghost predicate LatestPut(led: bool, rs: seq<Request>, v: bool) {
    (exists k :: 0 <= k < |rs| && Sets(rs[k]) && v == (ParseOnOff(rs[k].msg.payload) == 1)
                 && forall j :: k < j < |rs| ==> !Sets(rs[j]))
    || (v == led && forall j :: 0 <= j < |rs| ==> !Sets(rs[j]))
  }

  /** Register refinement: the state is the latest PUT, and no other value would be. */
  lemma LedIsRegister(led: bool, rs: seq<Request>, v: bool)
    ensures RunLed(led, rs) == v <==> LatestPut(led, rs, v)
  {
    LatestExists(led, rs);
    if LatestPut(led, rs, v) { LatestUnique(led, rs, v, RunLed(led, rs)); }
  }

  lemma {:induction false} LatestExists(led: bool, rs: seq<Request>)
    ensures LatestPut(led, rs, RunLed(led, rs))
    decreases |rs|
  {
    if rs != [] {
      var before, r := rs[..|rs| - 1], rs[|rs| - 1];
      LatestExists(led, before);
      LatestExtends(led, before, r, RunLed(led, before));
      assert rs == before + [r];
    }
  }

  lemma LatestExtends(led: bool, before: seq<Request>, r: Request, v: bool)
    requires LatestPut(led, before, v)
    ensures LatestPut(led, before + [r], NextLed(v, r))
  {
    var rs := before + [r];
    assert forall j :: 0 <= j < |before| ==> rs[j] == before[j];
    if Sets(r) { assert Sets(rs[|before|]); }
  }

  lemma LatestUnique(led: bool, rs: seq<Request>, u: bool, v: bool)
    requires LatestPut(led, rs, u) && LatestPut(led, rs, v)
    ensures u == v
  {
  }

  // ---- the server behind the CoAP service ----

  /** The resource definitions: which method of which path has `app_request` as its handler. */
  predicate InTable(code: byte, path: seq<bytes>) {
    (code == GET && path == HELLO_PATH) || ((code == GET || code == PUT) && path == LED_PATH)
  }

  /** The longest datagram taken in: the block size, raised in the EDHOC and OSCORE build. */
  function MessageSize(oscore: bool): nat {
    if oscore then 256 else SMALLEST_BUFFER
  }

  /**
   * The service passes a datagram to `app_request`: it carries a request, it
   * fits, and a resource lists its method and complete path.
   */
  predicate ReachesHandler(kind: nat, code: byte, path: seq<bytes>, size: nat, oscore: bool) {
    (kind == CON || kind == NON) && size <= MessageSize(oscore) && InTable(code, path)
  }

  datatype Served = Served(answer: bytes, led: bool)

  /** The board on one datagram; `service` is what becomes of those that do not reach the handler, and is open. */
  function Serve(led: bool, wire: bytes, oscore: bool, service: (bool, bytes) -> Served): Served {
    match Parse(wire)
    case Err => service(led, wire)
    case Ok(m) =>
      SerializeParse(wire);
      var r := Request(m, true);
      if ReachesHandler(m.kind, m.code, UriPath(m.options), |wire|, oscore)
      then ResponseFits(led, r); Served(Serialize(Respond(led, r)), NextLed(led, r))
      else service(led, wire)
  }

  datatype Shown = Shown(response: CoapClient.Response, led: bool)

  /** What the host tool prints for the board's answer, and the LED afterwards. */
  function Exchange(led: bool, wire: bytes, oscore: bool, service: (bool, bytes) -> Served): Shown {
    var served := Serve(led, wire, oscore, service);
    Shown(CoapClient.ParseResponse(served.answer), served.led)
  }

  /** The segments of a path as the host tool sends them. */
  function NonEmpty(segments: seq<bytes>): seq<bytes> {
    if segments == [] then []
    else (if segments[0] == [] then [] else [segments[0]]) + NonEmpty(segments[1..])
  }

  lemma {:induction false} PathSent(segments: seq<bytes>)
    ensures UriPath(CoapClient.PathOptions(segments)) == NonEmpty(segments)
  {
    if segments != [] {
      PathSent(segments[1..]);
      var os := CoapClient.PathOptions(segments);
      if segments[0] != [] { assert os[1..] == CoapClient.PathOptions(segments[1..]); }
    }
  }

  /** What the host tool prints for a dispatched request, by method and complete path. */
  function Printed(led: bool, code: byte, path: seq<bytes>, payload: bytes): CoapClient.Response {
    if code == GET && path == HELLO_PATH then CoapClient.Response("2.05", "Content", GREETING)
    else if code == GET && path == LED_PATH then CoapClient.Response("2.05", "Content", [LedByte(led)])
    else if code == PUT && path == LED_PATH then
      if ParseOnOff(payload) >= 0 then CoapClient.Response("2.04", "Changed", [])
      else CoapClient.Response("4.00", "Bad Request", [])
    else CoapClient.Response("4.04", "Not Found", [])
  }

  /** The LED after a dispatched request, in the same terms. */
  function LedAfter(led: bool, code: byte, path: seq<bytes>, payload: bytes): bool {
    if code == PUT && path == LED_PATH && ParseOnOff(payload) >= 0 then ParseOnOff(payload) == 1 else led
  }

  /**
   * End to end, for any request the host tool can encode: whatever the CoAP
   * service answers on its own account, the tool prints what `Printed` says and
   * the LED ends up as `LedAfter` says, if and only if the request reaches the
   * handler.
   */
  lemma EndToEnd(led: bool, oscore: bool, code: byte, segments: seq<bytes>, mtype: nat, mid: nat, token: bytes,
                 payload: Option<bytes>)
    requires CoapClient.Encodable(segments, mtype, mid, token, payload)
    ensures var wire := CoapClient.RequestWire(code, segments, mtype, mid, token, payload);
            var path, body := NonEmpty(segments), if payload.Some? then payload.value else [];
            && wire.Some?
            && ((forall service: (bool, bytes) -> Served ::
                   Exchange(led, wire.value, oscore, service)
                   == Shown(Printed(led, code, path, body), LedAfter(led, code, path, body)))
                <==> ReachesHandler(mtype, code, path, |wire.value|, oscore))
  {
    RequestParses(code, segments, mtype, mid, token, payload);
    PathSent(segments);
    var wire := CoapClient.RequestWire(code, segments, mtype, mid, token, payload).value;
    HandlerAnswers(led, wire, oscore, CoapClient.Intended(code, segments, mtype, mid, token, payload));
  }

  lemma HandlerAnswers(led: bool, wire: bytes, oscore: bool, m: Message)
    requires Parse(wire) == Ok(m) && WellFormed(m)
    ensures var path := UriPath(m.options);
            (forall service: (bool, bytes) -> Served ::
               Exchange(led, wire, oscore, service)
               == Shown(Printed(led, m.code, path, m.payload), LedAfter(led, m.code, path, m.payload)))
            <==> ReachesHandler(m.kind, m.code, path, |wire|, oscore)
  {
    if ReachesHandler(m.kind, m.code, UriPath(m.options), |wire|, oscore) {
      AnswerPrints(led, Request(m, true));
    } else {
      var silent := (_: bool, _: bytes) => Served([], led);
      assert Exchange(led, wire, oscore, silent).response.code == "(short)";
      assert Printed(led, m.code, UriPath(m.options), m.payload).code != "(short)";
    }
  }

  /** After any dispatched requests, a GET of the led resource prints the value of the latest PUT, in both builds. */
  lemma LedEndToEnd(rs: seq<Request>, oscore: bool, mtype: nat, mid: nat, token: bytes,
                    service: (bool, bytes) -> Served)
    requires (mtype == CON || mtype == NON) && mid < 0x1_0000 && |token| <= MAX_TOKEN
    ensures var led := RunLed(false, rs);
            var wire := CoapClient.RequestWire(GET, LED_PATH, mtype, mid, token, None);
            && LatestPut(false, rs, led)
            && wire.Some?
            && Exchange(led, wire.value, oscore, service)
               == Shown(CoapClient.Response("2.05", "Content", [LedByte(led)]), led)
  {
    LatestExists(false, rs);
    LedPathSent();
    LedGetSize(mtype, mid, token);
    EndToEnd(RunLed(false, rs), oscore, GET, LED_PATH, mtype, mid, token, None);
  }

  lemma LedGetSize(mtype: nat, mid: nat, token: bytes)
    requires mtype < 4 && mid < 0x1_0000 && |token| <= MAX_TOKEN
    ensures var wire := CoapClient.RequestWire(GET, LED_PATH, mtype, mid, token, None);
            wire.Some? ==> |wire.value| == 8 + |token|
  {
    assert LED_PATH[1..] == [];
  }

  lemma LedPathSent()
    ensures NonEmpty(LED_PATH) == LED_PATH && LED_PATH != HELLO_PATH && forall b | b in LED_PATH :: |b| <= 12
  {
    assert LED_PATH[1..] == [];
    assert HELLO_PATH[0][0] != LED_PATH[0][0];
  }

  lemma RequestParses(code: byte, segments: seq<bytes>, mtype: nat, mid: nat, token: bytes, payload: Option<bytes>)
    requires CoapClient.Encodable(segments, mtype, mid, token, payload)
    ensures var wire := CoapClient.RequestWire(code, segments, mtype, mid, token, payload);
            var m := CoapClient.Intended(code, segments, mtype, mid, token, payload);
            WellFormed(m) && wire.Some? && Parse(wire.value) == Ok(m)
  {
    CoapClient.EncodesIntended(code, segments, mtype, mid, token, payload);
    ParseSerialize(CoapClient.Intended(code, segments, mtype, mid, token, payload));
  }

  /**
   * Every request that is dispatched, also one that arrives inside OSCORE and
   * so passes no resource table, is answered by a message that the host tool's
   * decoder reads as `Printed` says; options that cannot be read name no path.
   */
  lemma AnswerPrints(led: bool, r: Request)
    requires WellFormed(r.msg)
    ensures var rsp := Respond(led, r);
            var path := if r.readable then UriPath(r.msg.options) else [];
            && WellFormed(rsp)
            && CoapClient.ParseResponse(Serialize(rsp)) == Printed(led, r.msg.code, path, r.msg.payload)
            && NextLed(led, r) == LedAfter(led, r.msg.code, path, r.msg.payload)
  {
    var rsp := Respond(led, r);
    ResponseFits(led, r);
    CoapClient.OptionFreeResponse(rsp);
    CodeNames(rsp.code);
  }

  /** The four response codes as the host tool shows them. */
  lemma CodeNames(code: byte)
    ensures var text := CoapClient.CodeText(code);
            && (code == CONTENT ==> text == "2.05" && CoapClient.CodeName(text) == "Content")
            && (code == CHANGED ==> text == "2.04" && CoapClient.CodeName(text) == "Changed")
            && (code == BAD_REQUEST ==> text == "4.00" && CoapClient.CodeName(text) == "Bad Request")
            && (code == NOT_FOUND ==> text == "4.04" && CoapClient.CodeName(text) == "Not Found")
  {
  }
}
