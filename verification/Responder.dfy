/**
 * The handlers of src/edhoc_oscore.c on their file-scope state: flags, contexts
 * and key buffers updated in place, and an OSCORE context that points into one
 * of the buffers.  Each handler is proved to be a step of module `Handlers`.
 */
module Responder {
  import opened Bytes
  import Cbor
  import opened CoapMessage
  import opened CoapServer
  import opened Handlers
  import opened EdhocSession
  import opened Framing

  /** `struct context`: the Sender ID is held by reference. */
  datatype OscoreHandle = OscoreHandle(
    key: OscoreParams,
    senderRef: array<byte>,
    senderLen: IdLen,
    seen: set<nat>,
    ssn: nat)

  class Responder<C> {
    var edhocCtx: C
    var edhocCtxActive: bool
    var oscoreReady: bool
    var oscoreCtx: OscoreHandle
    const masterSecret: array<byte>
    const masterSalt: array<byte>
    const senderId: array<byte>
    const recipientId: array<byte>
    const server: Server
    /** The library calls that matter, in order. */
    ghost var log: seq<Call>

    /** Sizes, separation of the buffers, and where the context points. */
    ghost predicate Shape() reads this {
      && masterSecret.Length == SECRET_SIZE && masterSalt.Length == SALT_SIZE
      && senderId.Length == ID_SIZE && recipientId.Length == ID_SIZE
      && masterSecret != masterSalt && masterSecret != senderId && masterSecret != recipientId
      && masterSalt != senderId && masterSalt != recipientId && senderId != recipientId
      && oscoreCtx.senderRef == senderId
    }

    ghost function BuffersValue(): Buffers
      requires Shape()
      reads this, masterSecret, masterSalt, senderId, recipientId
    {
      KeyBuffers(masterSecret[..], masterSalt[..], senderId[..], recipientId[..])
    }

    ghost function SessionValue(): Session<C>
      requires Shape()
      reads this, masterSecret, masterSalt, senderId, recipientId
    {
      Session(edhocCtxActive, oscoreReady, edhocCtx, BuffersValue(),
              OscoreContext(oscoreCtx.key, oscoreCtx.senderLen, oscoreCtx.seen, oscoreCtx.ssn))
    }

    ghost function Value(): Device<C>
      requires Shape()
      reads this, masterSecret, masterSalt, senderId, recipientId, server
    {
      Device(SessionValue(), server.ledState)
    }

    /** What holds whenever no handler is running. */
    ghost predicate Valid()
      reads this, masterSecret, masterSalt, senderId, recipientId
    {
      Shape() && EdhocSession.Inv(SessionValue())
    }

    /** Static memory at power-on. */
    constructor (ctx: C)
      ensures Valid() && Boot(Value()) && log == []
      ensures fresh(masterSecret) && fresh(masterSalt) && fresh(senderId) && fresh(recipientId) && fresh(server)
    {
      edhocCtx := ctx;
      edhocCtxActive := false;
      oscoreReady := false;
      masterSecret := new byte[SECRET_SIZE];
      masterSalt := new byte[SALT_SIZE];
      var sid := new byte[ID_SIZE];
      senderId := sid;
      recipientId := new byte[ID_SIZE];
      oscoreCtx := OscoreHandle(OscoreParams([], [], [], []), sid, 0, {}, 0);
      server := new Server();
      log := [];
    }

    /** `edhoc_export_oscore_session` fills the four buffers. */
    method FillBuffers(b: Buffers)
      requires Shape()
      modifies masterSecret, masterSalt, senderId, recipientId
      ensures BuffersValue() == b
    {
      forall i | 0 <= i < SECRET_SIZE { masterSecret[i] := b.secret[i]; }
      forall i | 0 <= i < SALT_SIZE { masterSalt[i] := b.salt[i]; }
      forall i | 0 <= i < ID_SIZE { senderId[i] := b.sender[i]; }
      forall i | 0 <= i < ID_SIZE { recipientId[i] := b.recipient[i]; }
    }

    /** `derive_and_init_oscore`; `oscore_ready` goes up while the handshake still counts as active. */
    method DeriveAndInitOscore(lib: EdhocLib<C, bytes>) returns (ok: bool)
      requires Shape()
      modifies this`oscoreReady, this`oscoreCtx, this`log, masterSecret, masterSalt, senderId, recipientId
      ensures Shape()
      ensures var x := lib.exportKeys(edhocCtx);
              && ok == (x.ok && lib.initOk(x.Params()))
              && BuffersValue() == x.bufs
              && oscoreReady == (old(oscoreReady) || ok)
              && (if ok then oscoreCtx == OscoreHandle(x.Params(), senderId, x.senderLen, {}, 0)
                  else if x.ok then oscoreCtx.senderRef == senderId && SessionValue().osc == lib.brokenOsc
                  else oscoreCtx == old(oscoreCtx))
              && log == old(log) + if x.ok then [Export(true, x.Params()), Init(ok, x.Params())]
                                   else [Export(false, x.Params())]
    {
      var x := lib.exportKeys(edhocCtx);
      FillBuffers(x.bufs);
      log := log + [Export(x.ok, x.Params())];
      if !x.ok {
        return false;
      }
      var params := OscoreParams(masterSecret[..], masterSalt[..],
                                 senderId[..x.senderLen], recipientId[..x.recipientLen]);
      log := log + [Init(lib.initOk(params), params)];
      if !lib.initOk(params) {
        var broken := lib.brokenOsc;
        oscoreCtx := OscoreHandle(broken.key, senderId, broken.senderLen, broken.seen, broken.ssn);
        return false;
      }
      oscoreCtx := OscoreHandle(params, senderId, x.senderLen, {}, 0);
      oscoreReady := true;
      return true;
    }

    /** Lines 442-445 and 458-461: tear down the EDHOC context if there is one. */
    method Discard(lib: EdhocLib<C, bytes>)
      modifies this`edhocCtx, this`edhocCtxActive, this`log
      ensures !edhocCtxActive
      ensures edhocCtx == if old(edhocCtxActive) then lib.deinit(old(edhocCtx)) else old(edhocCtx)
      ensures log == old(log) + if old(edhocCtxActive) then [Deinit] else []
    {
      if edhocCtxActive {
        edhocCtx := lib.deinit(edhocCtx);
        edhocCtxActive := false;
        log := log + [Deinit];
      }
    }

    /** Lines 441-462. */
    method HandleMessage1(msg: bytes, lib: EdhocLib<C, bytes>) returns (rc: bool, outBuf: Option<bytes>)
      requires Valid()
      modifies this`edhocCtx, this`edhocCtxActive, this`oscoreReady, this`log
      ensures Valid()
      ensures var o := OnMessage1(old(SessionValue()), msg, lib);
              && SessionValue() == o.next && log == old(log) + o.calls
              && (if rc then outBuf == o.reply && outBuf.Some? else o.reply.None?)
    {
      outBuf := None;
      Discard(lib);
      oscoreReady := false;

      rc := lib.setupOk;
      edhocCtx := lib.setupCtx;
      log := log + [Setup(rc)];
      if rc {
        edhocCtxActive := true;
        var (ok, c) := lib.process1(edhocCtx, msg);
        rc, edhocCtx := ok, c;
      }
      if rc {
        var (ok, c, m2) := lib.compose2(edhocCtx);
        rc, edhocCtx, outBuf := ok, c, Some(m2);
      }
      if !rc {
        Discard(lib);
      }
    }

    /** Lines 463-491. */
    method HandleMessage3(msg: bytes, lib: EdhocLib<C, bytes>) returns (rc: bool, outBuf: Option<bytes>)
      requires Valid()
      modifies this`edhocCtx, this`edhocCtxActive, this`oscoreReady, this`oscoreCtx, this`log
      modifies masterSecret, masterSalt, senderId, recipientId
      ensures Valid()
      ensures var o := OnMessage3(old(SessionValue()), msg, lib);
              && SessionValue() == o.next && log == old(log) + o.calls
              && (if rc then outBuf == o.reply && outBuf.Some? else o.reply.None?)
    {
      outBuf := None;
      ghost var s := SessionValue();
      if !edhocCtxActive {
        return false, None;
      }
      var (ok3, c3) := lib.process3(edhocCtx, msg);
      rc, edhocCtx := ok3, c3;
      if rc {
        var (ok4, c4, m4) := lib.compose4(edhocCtx);
        rc, edhocCtx, outBuf := ok4, c4, Some(m4);
      }
      if rc {
        rc := DeriveAndInitOscore(lib);
      }
      edhocCtx := lib.deinit(edhocCtx);
      edhocCtxActive := false;
      log := log + [Deinit];
      FrameKeepsInv(s, Message3(msg), lib);
    }

    /** Lines 507-527: a fresh buffer of EDHOC_MSG_MAX bytes for the reply. */
    method BuildReply(request: Message, out: bytes) returns (r: Return)
      requires WellFormed(request)
      ensures r == EdhocReply(request, Some(out))
    {
      OptionFree(Message(ACK, CHANGED, request.id, request.token, [], out));
      var data := new byte[EDHOC_MSG_MAX];
      var response := new Packet();
      var ok := response.Init(data, ACK, request.token, CHANGED, request.id);
      if ok && out != [] {
        ok := response.AppendPayload(out);
      }
      r := if ok then Answer(response.Contents()) else NoRoom;
    }

    /** `edhoc_post`. */
    method EdhocPost(request: Message, lib: EdhocLib<C, bytes>) returns (r: Return)
      requires Valid() && WellFormed(request)
      modifies this`edhocCtx, this`edhocCtxActive, this`oscoreReady, this`oscoreCtx, this`log
      modifies masterSecret, masterSalt, senderId, recipientId
      ensures Valid()
      ensures var o := OnEdhoc(old(Value()), request, lib);
              Value() == o.next && r == o.result && log == old(log) + o.calls
    {
      var payload := request.payload;
      if payload == [] {
        return Invalid;
      }
      var isMsg1 := payload[0] == CBOR_TRUE;
      var msg;
      if isMsg1 {
        msg := payload[1..];
      } else {
        var skip := Cbor.CborItemLen(payload);
        if skip == 0 || skip >= |payload| {
          return Invalid;
        }
        msg := payload[skip..];
      }

      var rc, outBuf;
      if isMsg1 {
        rc, outBuf := HandleMessage1(msg, lib);
      } else {
        rc, outBuf := HandleMessage3(msg, lib);
      }
      if !rc {
        return BadMessage;
      }
      r := BuildReply(request, outBuf.value);
    }

    /** `oscore2coap`. */
    method Open(packet: bytes, u: OscoreLib) returns (answer: OpenAnswer)
      requires Valid()
      modifies this`oscoreCtx, this`log
      ensures Valid()
      ensures var s := old(SessionValue());
              && answer == OpenOnce(s, packet, u)
              && SessionValue() == (if answer.Opened? then Accept(s, answer.piv) else s)
              && log == old(log) + if answer.Opened? then [Unprotect(answer.piv)] else []
    {
      answer := u.open(OscoreContext(oscoreCtx.key, oscoreCtx.senderLen, oscoreCtx.seen, oscoreCtx.ssn), packet);
      if answer.Opened? {
        if answer.piv in oscoreCtx.seen {
          answer := Refused;
        } else {
          oscoreCtx := oscoreCtx.(seen := oscoreCtx.seen + {answer.piv});
          log := log + [Unprotect(answer.piv)];
        }
      }
    }

    /** The call of `coap_server_dispatch_inner`, on a scratch buffer that always suffices. */
    method Dispatch(q: Request) returns (out: bytes)
      requires WellFormed(q.msg)
      modifies this`log, server
      ensures var rsp := Respond(old(server.ledState), q); WellFormed(rsp) && out == Serialize(rsp)
      ensures server.ledState == NextLed(old(server.ledState), q)
      ensures log == old(log) + LedCalls(old(server.ledState), q)
    {
      ResponseFits(server.ledState, q);
      log := log + LedCalls(server.ledState, q);
      var rspBuf := new byte[EDHOC_MSG_MAX];
      var rsp := new Packet();
      var ok := server.DispatchInner(q, rspBuf, rsp);
      out := rsp.Contents();
    }

    /** `oscore_post`. */
    method OscorePost(packet: bytes, u: OscoreLib) returns (r: Return)
      requires Valid()
      modifies this`oscoreCtx, this`log, server
      ensures Valid()
      ensures var o := OnOscore(old(Value()), packet, u);
              Value() == o.next && r == o.result && log == old(log) + o.calls
    {
      if !oscoreReady {
        return NotConnected;
      }
      var answer := Open(packet, u);
      if answer.NotOscore? {
        return NotFound;
      }
      if answer.Refused? {
        return BadMessage;
      }
      r := HandlePlaintext(answer.piv, answer.plain, u);
    }

    /** Lines 567-593. */
    method HandlePlaintext(piv: nat, plain: bytes, u: OscoreLib) returns (r: Return)
      requires Valid()
      modifies this`oscoreCtx, this`log, server
      ensures Valid()
      ensures var o := OnPlaintext(old(Value()), piv, plain, u);
              Value() == o.next && r == o.result && log == old(log) + o.calls
    {
      var parsed := Parse(plain);
      if parsed.Err? {
        return ParseError;
      }
      SerializeParse(plain);
      r := Handle(piv, Request(parsed.value, u.readable), u);
    }

    /** Lines 573-593. */
    method Handle(piv: nat, q: Request, u: OscoreLib) returns (r: Return)
      requires Valid() && WellFormed(q.msg)
      modifies this`oscoreCtx, this`log, server
      ensures Valid()
      ensures var o := OnInner(old(Value()), piv, q, u);
              Value() == o.next && r == o.result && log == old(log) + o.calls
    {
      var out := Dispatch(q);
      r := Seal(piv, out, u);
    }

    /** `coap2oscore` on the built response, under a nonce that takes the Sender ID through the context's pointer. */
    method Seal(piv: nat, out: bytes, u: OscoreLib) returns (r: Return)
      requires Valid()
      modifies this`oscoreCtx, this`log
      ensures Valid()
      ensures var (s, result, protect) := OnResponse(old(SessionValue()), piv, out, u);
              SessionValue() == s && r == result && log == old(log) + [protect]
    {
      var nonce := if u.ownPiv then Nonce(oscoreCtx.senderRef[..oscoreCtx.senderLen], oscoreCtx.ssn)
                   else Nonce(oscoreCtx.key.recipientId, piv);
      log := log + [Protect(oscoreCtx.key, nonce)];
      if u.ownPiv {
        oscoreCtx := oscoreCtx.(ssn := oscoreCtx.ssn + 1);
      }
      r := if u.sealOk then Answer(u.seal(oscoreCtx.key, nonce, out)) else BadMessage;
    }
  }
}
