/**
 * The device as a state machine over handler calls: `edhoc_post`,
 * `oscore_post` (src/edhoc_oscore.c) and `app_request` (src/coap_server.c).
 * All three run on the one CoAP server thread, so each is one step.
 */
module Handlers {
  import opened Bytes
  import opened CoapMessage
  import opened CoapServer
  import opened EdhocSession
  import opened Framing

  const EDHOC_MSG_MAX := 256

  /** `oscore2coap`: both `ok` and `first_request_after_reboot` count as opened. */
  datatype OpenAnswer = NotOscore | Refused | Opened(piv: nat, plain: bytes)

  /**
   * uoscore, as one call brings it along.  `ownPiv` is its choice between a
   * nonce made from its own Sender Sequence Number and the request's nonce
   * (section 8.3 of RFC 8613).
   */
  datatype OscoreLib = OscoreLib(
    open: (OscoreContext, bytes) -> OpenAnswer,
    readable: bool,
    ownPiv: bool,
    sealOk: bool,
    seal: (OscoreParams, Nonce, bytes) -> bytes)

  datatype Device<C> = Device(session: Session<C>, led: bool)

  /** `Plain` is any request `app_request` could be called with; the resource table passes only some of them. */
  datatype Event<!C> =
    | Edhoc(request: Message, lib: EdhocLib<C, bytes>)
    | Oscore(packet: bytes, uoscore: OscoreLib)
    | Plain(inbound: Request)

  /** The handlers' return values; `Answer` is the datagram handed to the stack. */
  datatype Return = Invalid | BadMessage | NoRoom | NotConnected | NotFound | ParseError | Answer(packet: bytes)

  datatype Effect<C> = Effect(next: Device<C>, result: Return, calls: seq<Call>)

  /** Lines 496-527: the reply is built after the mutex is released, and may not fit. */
  function EdhocReply(request: Message, out: Option<bytes>): Return
    requires WellFormed(request)
  {
    if out.None? then BadMessage
    else
      var packet := Serialize(Message(ACK, CHANGED, request.id, request.token, [], out.value));
      if |packet| > EDHOC_MSG_MAX then NoRoom else Answer(packet)
  }

  /**
   * The client reads the reply back, with its own token and id; the reply fails
   * exactly when header, token, marker and message exceed the buffer.
   */
  lemma ReplyReadBack(request: Message, out: bytes)
    requires WellFormed(request)
    ensures var r := EdhocReply(request, Some(out));
            if out != [] && 4 + |request.token| + 1 + |out| > 256 then r == NoRoom
            else r.Answer? && Parse(r.packet) == Ok(Message(ACK, CHANGED, request.id, request.token, [], out))
  {
    var m := Message(ACK, CHANGED, request.id, request.token, [], out);
    OptionFree(m);
    ParseSerialize(m);
  }

  function OnEdhoc<C>(d: Device<C>, request: Message, lib: EdhocLib<C, bytes>): Effect<C>
    requires WellFormed(request)
  {
    match Strip(request.payload)
    case None => Effect(d, Invalid, [])
    case Some(f) =>
      var o := OnFrame(d.session, f, lib);
      Effect(d.(session := o.next), EdhocReply(request, o.reply), o.calls)
  }

  /** An error from building the reply comes too late to undo anything: the session has taken the successful step. */
  lemma ErrorAfterSuccess<C>(d: Device<C>, request: Message, lib: EdhocLib<C, bytes>)
    requires WellFormed(request) && OnEdhoc(d, request, lib).result == NoRoom
    ensures var f := Strip(request.payload);
            var s := OnEdhoc(d, request, lib).next.session;
            f.Some? && if f.value.Message1? then s.active else s.ready && !s.active
  {
  }

  /** The nonce of the response to the request with Partial IV `piv`. */
  function ResponseNonce<C>(s: Session<C>, piv: nat, u: OscoreLib): Nonce {
    if u.ownPiv then Nonce(s.SenderId(), s.osc.ssn) else Nonce(s.osc.key.recipientId, piv)
  }

  /** Lines 578-593: protecting the response `out` to the request with Partial IV `piv`. */
  function OnResponse<C>(s: Session<C>, piv: nat, out: bytes, u: OscoreLib): (Session<C>, Return, Call) {
    var nonce := ResponseNonce(s, piv, u);
    (s.(osc := if u.ownPiv then s.osc.(ssn := s.osc.ssn + 1) else s.osc),
     if u.sealOk then Answer(u.seal(s.osc.key, nonce, out)) else BadMessage,
     Protect(s.osc.key, nonce))
  }

  /** Lines 573-593, for a request that was opened and parsed. */
  function OnInner<C>(d: Device<C>, piv: nat, r: Request, u: OscoreLib): Effect<C>
    requires WellFormed(r.msg)
  {
    ResponseFits(d.led, r);
    var (s, result, protect) := OnResponse(d.session, piv, Serialize(Respond(d.led, r)), u);
    Effect(Device(s, NextLed(d.led, r)), result, LedCalls(d.led, r) + [protect])
  }

  /** Lines 567-593. */
  function OnPlaintext<C>(d: Device<C>, piv: nat, plain: bytes, u: OscoreLib): Effect<C> {
    match Parse(plain)
    case Err => Effect(d, ParseError, [])
    case Ok(m) => SerializeParse(plain); OnInner(d, piv, Request(m, u.readable), u)
  }

  function LedCalls(led: bool, r: Request): seq<Call> {
    if Sets(r) then [SetLed(NextLed(led, r))] else []
  }

  /**
   * The library's replay window is the contract of section 7.4 of RFC 8613: it
   * opens each Partial IV at most once per context.
   */
  function OpenOnce<C>(s: Session<C>, packet: bytes, u: OscoreLib): OpenAnswer {
    var answer := u.open(s.osc, packet);
    if answer.Opened? && answer.piv in s.osc.seen then Refused else answer
  }

  function Accept<C>(s: Session<C>, piv: nat): Session<C> {
    s.(osc := s.osc.(seen := s.osc.seen + {piv}))
  }

  /** `oscore_post`. */
  function OnOscore<C>(d: Device<C>, packet: bytes, u: OscoreLib): Effect<C> {
    if !d.session.ready then Effect(d, NotConnected, [])
    else
      match OpenOnce(d.session, packet, u)
      case NotOscore => Effect(d, NotFound, [])
      case Refused => Effect(d, BadMessage, [])
      case Opened(piv, plain) =>
        var o := OnPlaintext(d.(session := Accept(d.session, piv)), piv, plain, u);
        o.(calls := [Unprotect(piv)] + o.calls)
  }

  predicate ValidEvent<C>(e: Event<C>) {
    (e.Edhoc? ==> WellFormed(e.request)) && (e.Plain? ==> WellFormed(e.inbound.msg))
  }

  function Step<C>(d: Device<C>, e: Event<C>): Effect<C>
    requires ValidEvent(e)
  {
    match e
    case Edhoc(request, lib) => OnEdhoc(d, request, lib)
    case Oscore(packet, u) => OnOscore(d, packet, u)
    case Plain(r) => Effect(d.(led := NextLed(d.led, r)), Answer(Serialize(Respond(d.led, r))),
                            LedCalls(d.led, r))
  }

  ghost predicate Valid<C>(es: seq<Event<C>>) {
    forall k :: 0 <= k < |es| ==> ValidEvent(es[k])
  }

  /** The device after the handler calls `es`. */
  function Run<C>(d: Device<C>, es: seq<Event<C>>): Device<C>
    requires Valid(es)
    decreases |es|
  {
    if es == [] then d else Step(Run(d, es[..|es| - 1]), es[|es| - 1]).next
  }

  /** Everything the handlers did on the way, in order. */
  function Trace<C>(d: Device<C>, es: seq<Event<C>>): seq<Call>
    requires Valid(es)
    decreases |es|
  {
    if es == [] then []
    else
      var before := es[..|es| - 1];
      Trace(d, before) + Step(Run(d, before), es[|es| - 1]).calls
  }

  /** Power-on: static memory is zero. */
  predicate Boot<C>(d: Device<C>) {
    !d.session.active && !d.session.ready && !d.led
  }

  /** One step keeps the session invariant; OSCORE traffic does not touch keys or buffers. */
  lemma StepKeepsInv<C>(d: Device<C>, e: Event<C>)
    requires ValidEvent(e) && EdhocSession.Inv(d.session)
    ensures EdhocSession.Inv(Step(d, e).next.session)
  {
    if e.Edhoc? && Strip(e.request.payload).Some? {
      FrameKeepsInv(d.session, Strip(e.request.payload).value, e.lib);
    }
  }

  /**
   * Aliasing safety over whole runs: whenever the device answers OSCORE, no
   * handshake is pending and the Sender ID bytes its context points at, as well
   * as the other key buffers, are those the context was initialised with.
   */
  lemma {:induction false} RunKeepsInv<C>(d: Device<C>, es: seq<Event<C>>)
    requires Boot(d) && Valid(es)
    ensures EdhocSession.Inv(Run(d, es).session)
    decreases |es|
  {
    if es != [] {
      var before := es[..|es| - 1];
      RunKeepsInv(d, before);
      StepKeepsInv(Run(d, before), es[|es| - 1]);
    }
  }
}
