/**
 * What each handler returns, and what it does to the device, branch by branch:
 * stated on the messages a peer would read out of the answer.
 */
module HandlerResults {
  import opened Bytes
  import opened CoapMessage
  import opened CoapServer
  import CoapClient
  import opened DeviceHistory
  import opened EdhocSession
  import opened Framing
  import opened Handlers

  // ---- edhoc_post ----

  /** The POST opens a handshake, or completes the pending one. */
  predicate Succeeds<C>(s: Session<C>, f: Frame<bytes>, lib: EdhocLib<C, bytes>) {
    match f
    case Message1(m) => Opens(m, lib)
    case Message3(m) => s.active && Completes(s.ctx, m, lib)
  }

  /**
   * A payload without a frame changes nothing.  Any other POST is answered by
   * -EBADMSG if and only if it fails, and by a 2.04 with its own token and id, or
   * an error for want of room, otherwise.
   */
  lemma EdhocResult<C>(d: Device<C>, e: Event<C>)
    requires ValidEvent(e) && e.Edhoc?
    ensures var o := Step(d, e);
            match Strip(e.request.payload)
            case None => o == Effect(d, Invalid, [])
            case Some(f) =>
              && (o.result == BadMessage <==> !Succeeds(d.session, f, e.lib))
              && (o.result != BadMessage ==> o.result == NoRoom || AnswersRequest(e.request, o.result))
  {
    if Strip(e.request.payload).Some? {
      var out := OnFrame(d.session, Strip(e.request.payload).value, e.lib).reply;
      if out.Some? { ReplyReadBack(e.request, out.value); }
    }
  }

  predicate AnswersRequest(request: Message, r: Return) {
    r.Answer? && match Parse(r.packet)
                 case Err => false
                 case Ok(m) => m.kind == ACK && m.code == CHANGED && m.id == request.id && m.token == request.token
  }

  // ---- oscore_post ----

  /**
   * Before the handshake, for other packets, for packets the library refuses and
   * for replays: an error, and nothing happens.
   */
  lemma OscoreRejected<C>(d: Device<C>, e: Event<C>)
    requires ValidEvent(e) && e.Oscore?
    ensures var s := d.session;
            var answer := e.uoscore.open(s.osc, e.packet);
            && (!s.ready ==> Step(d, e) == Effect(d, NotConnected, []))
            && (s.ready && answer.NotOscore? ==> Step(d, e) == Effect(d, NotFound, []))
            && (s.ready && answer.Refused? ==> Step(d, e) == Effect(d, BadMessage, []))
            && (s.ready && answer.Opened? && answer.piv in s.osc.seen ==> Step(d, e) == Effect(d, BadMessage, []))
  {
  }

  /** The library opens the packet with a Partial IV that the context has not seen. */
  ghost predicate OpensFresh<C>(d: Device<C>, e: Event<C>)
    requires e.Oscore?
  {
    var answer := e.uoscore.open(d.session.osc, e.packet);
    d.session.ready && answer.Opened? && answer.piv !in d.session.osc.seen
  }

  /** What was inside cannot be parsed: an error, but the Partial IV is used up. */
  lemma OscoreUnparseable<C>(d: Device<C>, e: Event<C>)
    requires ValidEvent(e) && e.Oscore? && OpensFresh(d, e)
    ensures var answer := e.uoscore.open(d.session.osc, e.packet);
            Parse(answer.plain).Err? ==>
              Step(d, e) == Effect(d.(session := Accept(d.session, answer.piv)), ParseError, [Unprotect(answer.piv)])
  {
  }

  /** The nonce for the answer to Partial IV `piv`, by the Sender ID and Recipient ID of the live context. */
  function AnswerNonce(osc: OscoreContext, piv: nat, own: bool): Nonce {
    if own then Nonce(osc.key.senderId, osc.ssn) else Nonce(osc.key.recipientId, piv)
  }

  /**
   * A fresh request is answered by the server's response to it, protected: the
   * packet handed out is the seal, under the live keys and the nonce of the one
   * protection made, of the serialised response.  The LED follows the request.
   */
  lemma OscoreAnswered<C>(d: Device<C>, e: Event<C>)
    requires ValidEvent(e) && e.Oscore? && EdhocSession.Inv(d.session) && OpensFresh(d, e)
    requires Parse(e.uoscore.open(d.session.osc, e.packet).plain).Ok?
    ensures var u, osc := e.uoscore, d.session.osc;
            var answer := u.open(osc, e.packet);
            var q := Request(Parse(answer.plain).value, u.readable);
            var rsp := Respond(d.led, q);
            var nonce := AnswerNonce(osc, answer.piv, u.ownPiv);
            var o := Step(d, e);
            && WellFormed(rsp)
            && o.result == (if u.sealOk then Answer(u.seal(osc.key, nonce, Serialize(rsp))) else BadMessage)
            && o.calls == [Unprotect(answer.piv)]
                          + (if Sets(q) then [SetLed(ParseOnOff(q.msg.payload) == 1)] else [])
                          + [Protect(osc.key, nonce)]
            && o.next.led == NextLed(d.led, q)
            && o.next.session.osc.seen == osc.seen + {answer.piv}
            && o.next.session.osc.ssn == osc.ssn + if u.ownPiv then 1 else 0
  {
    var answer := e.uoscore.open(d.session.osc, e.packet);
    SerializeParse(answer.plain);
    var q := Request(Parse(answer.plain).value, e.uoscore.readable);
    ResponseFits(d.led, q);
    InnerAnswered(d.(session := Accept(d.session, answer.piv)), answer.piv, q, e.uoscore);
  }

  lemma InnerAnswered<C>(d: Device<C>, piv: nat, q: Request, u: OscoreLib)
    requires EdhocSession.Inv(d.session) && d.session.ready && WellFormed(q.msg) && WellFormed(Respond(d.led, q))
    ensures var o := OnInner(d, piv, q, u);
            var osc := d.session.osc;
            var nonce := AnswerNonce(osc, piv, u.ownPiv);
            && o.result == (if u.sealOk then Answer(u.seal(osc.key, nonce, Serialize(Respond(d.led, q))))
                            else BadMessage)
            && o.calls == (if Sets(q) then [SetLed(ParseOnOff(q.msg.payload) == 1)] else []) + [Protect(osc.key, nonce)]
            && o.next.led == NextLed(d.led, q)
            && o.next.session.osc == osc.(ssn := osc.ssn + if u.ownPiv then 1 else 0)
  {
  }

  /**
   * So a peer that holds the keys and can undo the seal reads what `Printed`
   * says for the request it protected, just as a peer in the clear does.
   */
  lemma ProtectedEndToEnd<C>(d: Device<C>, e: Event<C>, unseal: (OscoreParams, Nonce, bytes) -> bytes)
    requires ValidEvent(e) && e.Oscore? && EdhocSession.Inv(d.session) && OpensFresh(d, e)
    requires Parse(e.uoscore.open(d.session.osc, e.packet).plain).Ok?
    requires e.uoscore.sealOk && e.uoscore.readable
    requires forall k, n, b :: unseal(k, n, e.uoscore.seal(k, n, b)) == b
    ensures var answer := e.uoscore.open(d.session.osc, e.packet);
            var m := Parse(answer.plain).value;
            var nonce := AnswerNonce(d.session.osc, answer.piv, e.uoscore.ownPiv);
            var o := Step(d, e);
            && o.result.Answer?
            && CoapClient.ParseResponse(unseal(d.session.osc.key, nonce, o.result.packet))
               == Printed(d.led, m.code, UriPath(m.options), m.payload)
            && o.next.led == LedAfter(d.led, m.code, UriPath(m.options), m.payload)
  {
    var answer := e.uoscore.open(d.session.osc, e.packet);
    SerializeParse(answer.plain);
    OscoreAnswered(d, e);
    AnswerPrints(d.led, Request(Parse(answer.plain).value, true));
  }

  // ---- app_request ----

  /** A plain request is answered as the board's server serves it, and touches no session. */
  lemma PlainAnswered<C>(d: Device<C>, e: Event<C>)
    requires ValidEvent(e) && e.Plain?
    ensures var o := Step(d, e);
            var path := if e.inbound.readable then UriPath(e.inbound.msg.options) else [];
            && o.next.session == d.session && o.result.Answer?
            && CoapClient.ParseResponse(o.result.packet)
               == Printed(d.led, e.inbound.msg.code, path, e.inbound.msg.payload)
            && Parse(o.result.packet) == Ok(Respond(d.led, e.inbound))
            && o.next.led == LedAfter(d.led, e.inbound.msg.code, path, e.inbound.msg.payload)
  {
    AnswerPrints(d.led, e.inbound);
    ParseSerialize(Respond(d.led, e.inbound));
  }

  // ---- the LED calls of a run ----

  /** What the latest SetLed among the calls left behind. */
  function LedSet(led: bool, calls: seq<Call>): bool
    decreases |calls|
  {
    if calls == [] then led
    else
      var c := calls[|calls| - 1];
      if c.SetLed? then c.on else LedSet(led, calls[..|calls| - 1])
  }

  lemma {:induction false} LedSetAppend(led: bool, calls: seq<Call>, more: seq<Call>)
    ensures LedSet(led, calls + more) == LedSet(LedSet(led, calls), more)
    decreases |more|
  {
    if more == [] {
      assert calls + more == calls;
    } else {
      var n := |more| - 1;
      assert (calls + more)[..|calls| + n] == calls + more[..n];
      LedSetAppend(led, calls, more[..n]);
    }
  }

  lemma {:induction false} LedUnset(led: bool, calls: seq<Call>)
    requires forall c | c in calls :: !c.SetLed?
    ensures LedSet(led, calls) == led
    decreases |calls|
  {
    if calls != [] { LedUnset(led, calls[..|calls| - 1]); }
  }

  /** The LED is never out of step with `led_state`: over every run the state is what was last written to the pin. */
  lemma {:induction false} LedIsLastSet<C>(d: Device<C>, es: seq<Event<C>>)
    requires Boot(d) && Valid(es)
    ensures Run(d, es).led == LedSet(false, Trace(d, es))
    decreases |es|
  {
    if es != [] {
      var before, e := es[..|es| - 1], es[|es| - 1];
      LedIsLastSet(d, before);
      RunKeepsInv(d, before);
      StepSetsLed(Run(d, before), e);
      LedSetAppend(false, Trace(d, before), Step(Run(d, before), e).calls);
    }
  }

  lemma StepSetsLed<C>(d: Device<C>, e: Event<C>)
    requires ValidEvent(e) && EdhocSession.Inv(d.session)
    ensures Step(d, e).next.led == LedSet(d.led, Step(d, e).calls)
  {
    match e
    case Edhoc(_, _) => LedUnset(d.led, Step(d, e).calls);
    case Plain(r) => LedOfCalls(d.led, r, []);
    case Oscore(_, u) => OscoreSetsLed(d, e);
  }

  lemma OscoreSetsLed<C>(d: Device<C>, e: Event<C>)
    requires ValidEvent(e) && e.Oscore? && EdhocSession.Inv(d.session)
    ensures Step(d, e).next.led == LedSet(d.led, Step(d, e).calls)
  {
    if OpensFresh(d, e) {
      var answer := e.uoscore.open(d.session.osc, e.packet);
      if Parse(answer.plain).Ok? {
        OscoreAnswered(d, e);
        var q := Request(Parse(answer.plain).value, e.uoscore.readable);
        var calls := Step(d, e).calls;
        var protect := calls[|calls| - 1];
        assert calls == ([Unprotect(answer.piv)] + LedCalls(d.led, q)) + [protect];
        LedSetAppend(d.led, [Unprotect(answer.piv)] + LedCalls(d.led, q), [protect]);
        LedOfCalls(d.led, q, [Unprotect(answer.piv)]);
      } else {
        OscoreUnparseable(d, e);
        LedUnset(d.led, Step(d, e).calls);
      }
    } else {
      OscoreRejected(d, e);
      LedUnset(d.led, Step(d, e).calls);
    }
  }

  lemma LedOfCalls(led: bool, q: Request, before: seq<Call>)
    requires forall c | c in before :: !c.SetLed?
    ensures LedSet(led, before + LedCalls(led, q)) == NextLed(led, q)
    ensures LedSet(led, LedCalls(led, q)) == NextLed(led, q)
  {
    LedUnset(led, before);
    LedSetAppend(led, before, LedCalls(led, q));
  }
}
