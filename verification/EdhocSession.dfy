/**
 * The critical section of `edhoc_post` (src/edhoc_oscore.c) as one atomic step
 * on the file-scope session state.
 *
 * libedhoc and uoscore are foreign code.  A call into them is a member of
 * `EdhocLib`, a record of arbitrary functions that each POST brings along: the
 * record may differ from POST to POST, so every theorem about this module holds
 * for every behaviour of the libraries, every random choice and every failure.
 * `C` is the type of the library's opaque `struct edhoc_context`, `M` that of a
 * raw EDHOC message.
 */
module EdhocSession {
  import opened Bytes

  const SECRET_SIZE := 16
  const SALT_SIZE := 8
  const ID_SIZE := 8

  /** The four file-scope key buffers. */
  datatype KeyBuffers = KeyBuffers(secret: bytes, salt: bytes, sender: bytes, recipient: bytes) {
    predicate WellSized() {
      && |secret| == SECRET_SIZE && |salt| == SALT_SIZE
      && |sender| == ID_SIZE && |recipient| == ID_SIZE
    }
  }

  /** The library writes inside the buffers it is handed, whose sizes never change. */
  type Buffers = b: KeyBuffers | b.WellSized()
    witness KeyBuffers(seq(16, _ => 0), seq(8, _ => 0), seq(8, _ => 0), seq(8, _ => 0))

  type IdLen = n: nat | n <= ID_SIZE

  /** The values an OSCORE context is initialised with. */
  datatype OscoreParams = OscoreParams(secret: bytes, salt: bytes, senderId: bytes, recipientId: bytes)

  /**
   * `struct context`: the keys derived at initialisation, the length of the
   * Sender ID (whose bytes stay in the file-scope buffer: the context only
   * points at them), the Partial IVs accepted so far and the next Sender
   * Sequence Number.
   */
  datatype OscoreContext = OscoreContext(key: OscoreParams, senderLen: IdLen, seen: set<nat>, ssn: nat)

  datatype Session<C> = Session(active: bool, ready: bool, ctx: C, bufs: Buffers, osc: OscoreContext) {

    /** The Sender ID the OSCORE context sees now, through its pointer. */
    function SenderId(): bytes {
      bufs.sender[..osc.senderLen]
    }
  }

  /** `edhoc_export_oscore_session`: on failure too, the buffers may have been written. */
  datatype ExportAnswer = ExportAnswer(ok: bool, bufs: Buffers, senderLen: IdLen, recipientLen: IdLen) {
    function Params(): OscoreParams {
      OscoreParams(bufs.secret, bufs.salt, bufs.sender[..senderLen], bufs.recipient[..recipientLen])
    }
  }

  /** `setupCtx` is what `edhoc_setup` leaves behind, also when it fails part-way. */
  datatype EdhocLib<!C, !M> = EdhocLib(
    setupOk: bool,
    setupCtx: C,
    process1: (C, M) -> (bool, C),
    compose2: C -> (bool, C, M),
    process3: (C, M) -> (bool, C),
    compose4: C -> (bool, C, M),
    exportKeys: C -> ExportAnswer,
    initOk: OscoreParams -> bool,
    brokenOsc: OscoreContext,
    deinit: C -> C)

  /** An EDHOC message whose transport prefix has been stripped. */
  datatype Frame<M> = Message1(msg: M) | Message3(msg: M)

  /** What a handler asks of its surroundings, in order. */
  datatype Call =
    | Setup(ok: bool)
    | Deinit
    | Export(ok: bool, params: OscoreParams)
    | Init(ok: bool, params: OscoreParams)
    | Unprotect(piv: nat)
    | SetLed(on: bool)
    | Protect(key: OscoreParams, nonce: Nonce)

  /** The two variable parts of an OSCORE nonce (section 5.2 of RFC 8613). */
  datatype Nonce = Nonce(id: bytes, piv: nat)

  /** `reply` is the message to send when the handler reports success. */
  datatype Outcome<C, M> = Outcome(next: Session<C>, reply: Option<M>, calls: seq<Call>)

  /** Setup, message_1 and message_2 all succeed; depends on the POST alone. */
  predicate Opens<C, M>(m: M, lib: EdhocLib<C, M>) {
    lib.setupOk && var (ok1, c1) := lib.process1(lib.setupCtx, m); ok1 && lib.compose2(c1).0
  }

  /** The EDHOC context a successful message_1 leaves pending. */
  function Pending<C, M>(m: M, lib: EdhocLib<C, M>): C {
    lib.compose2(lib.process1(lib.setupCtx, m).1).1
  }

  /** message_3 verifies, message_4 is composed, and the OSCORE context comes up. */
  predicate Completes<C, M>(pending: C, m: M, lib: EdhocLib<C, M>) {
    var (ok3, c3) := lib.process3(pending, m);
    ok3 &&
    var (ok4, c4, _) := lib.compose4(c3);
    ok4 && var x := lib.exportKeys(c4); x.ok && lib.initOk(x.Params())
  }

  /** What the completed handshake exports. */
  function Exported<C, M>(pending: C, m: M, lib: EdhocLib<C, M>): ExportAnswer {
    lib.exportKeys(lib.compose4(lib.process3(pending, m).1).1)
  }

  /** Lines 441-462: a fresh message_1 drops whatever was there. */
  function OnMessage1<C, M>(s: Session<C>, m: M, lib: EdhocLib<C, M>): Outcome<C, M> {
    var dropped := if s.active then [Deinit] else [];
    var down := s.(active := false, ready := false);
    if !lib.setupOk then
      Outcome(down.(ctx := lib.setupCtx), None, dropped + [Setup(false)])
    else
      var (ok1, c1) := lib.process1(lib.setupCtx, m);
      if !ok1 then
        Outcome(down.(ctx := lib.deinit(c1)), None, dropped + [Setup(true), Deinit])
      else
        var (ok2, c2, m2) := lib.compose2(c1);
        if !ok2 then
          Outcome(down.(ctx := lib.deinit(c2)), None, dropped + [Setup(true), Deinit])
        else
          Outcome(down.(active := true, ctx := c2), Some(m2), dropped + [Setup(true)])
  }

  /** Lines 463-491 with `derive_and_init_oscore` (304-345). */
  function OnMessage3<C, M>(s: Session<C>, m: M, lib: EdhocLib<C, M>): Outcome<C, M> {
    if !s.active then Outcome(s, None, [])
    else
      var (ok3, c3) := lib.process3(s.ctx, m);
      if !ok3 then Outcome(s.(active := false, ctx := lib.deinit(c3)), None, [Deinit])
      else
        var (ok4, c4, m4) := lib.compose4(c3);
        if !ok4 then Outcome(s.(active := false, ctx := lib.deinit(c4)), None, [Deinit])
        else
          var x := lib.exportKeys(c4);
          var closed := s.(active := false, ctx := lib.deinit(c4), bufs := x.bufs);
          if !x.ok then Outcome(closed, None, [Export(false, x.Params()), Deinit])
          else if !lib.initOk(x.Params()) then
            Outcome(closed.(osc := lib.brokenOsc), None,
                    [Export(true, x.Params()), Init(false, x.Params()), Deinit])
          else
            Outcome(closed.(ready := true, osc := OscoreContext(x.Params(), x.senderLen, {}, 0)), Some(m4),
                    [Export(true, x.Params()), Init(true, x.Params()), Deinit])
  }

  function OnFrame<C, M>(s: Session<C>, f: Frame<M>, lib: EdhocLib<C, M>): Outcome<C, M> {
    match f
    case Message1(m) => OnMessage1(s, m, lib)
    case Message3(m) => OnMessage3(s, m, lib)
  }

  /**
   * Between handler calls a live OSCORE context excludes a pending handshake,
   * and the buffers, in particular the Sender ID the context points at, still
   * hold what the context was initialised with.
   */
  ghost predicate Inv<C>(s: Session<C>) {
    s.ready ==>
      && !s.active
      && s.osc.key.secret == s.bufs.secret
      && s.osc.key.salt == s.bufs.salt
      && s.osc.key.senderId == s.SenderId()
      && s.osc.key.recipientId <= s.bufs.recipient
  }

  /** The invariant is kept by every frame, whatever the libraries answer. */
  lemma FrameKeepsInv<C, M>(s: Session<C>, f: Frame<M>, lib: EdhocLib<C, M>)
    requires Inv(s)
    ensures Inv(OnFrame(s, f, lib).next)
  {
    if f.Message3? && s.active && Completes(s.ctx, f.msg, lib) {
      var x := Exported(s.ctx, f.msg, lib);
      assert x.bufs.recipient[..x.recipientLen] <= x.bufs.recipient;
    }
  }

  /**
   * Only a message_3 that completes the pending handshake makes a session ready,
   * and the context it starts has exactly the exported keys, an empty replay
   * window and Sender Sequence Number 0, whatever context there was before.
   */
  lemma FreshContext<C, M>(s: Session<C>, f: Frame<M>, lib: EdhocLib<C, M>)
    requires Inv(s) && s.active && OnFrame(s, f, lib).next.ready
    ensures f.Message3? && Completes(s.ctx, f.msg, lib)
    ensures var x, s' := Exported(s.ctx, f.msg, lib), OnFrame(s, f, lib).next;
            && s'.bufs == x.bufs
            && s'.osc.key.secret == x.bufs.secret && s'.osc.key.salt == x.bufs.salt
            && s'.osc.key.senderId == x.bufs.sender[..x.senderLen] == s'.SenderId()
            && s'.osc.key.recipientId == x.bufs.recipient[..x.recipientLen]
            && s'.osc.seen == {} && s'.osc.ssn == 0
  {
  }

  /** Some library call that the frame needs fails whatever it is given. */
  ghost predicate SomeCallFails<C(!new), M(!new)>(f: Frame<M>, lib: EdhocLib<C, M>) {
    match f
    case Message1(_) =>
      !lib.setupOk || (forall c, m :: !lib.process1(c, m).0) || (forall c :: !lib.compose2(c).0)
    case Message3(_) =>
      || (forall c, m :: !lib.process3(c, m).0) || (forall c :: !lib.compose4(c).0)
      || (forall c :: !lib.exportKeys(c).ok) || (forall p :: !lib.initOk(p))
  }

  /** All of them succeed whatever they are given. */
  ghost predicate AllCallsSucceed<C(!new), M(!new)>(f: Frame<M>, lib: EdhocLib<C, M>) {
    match f
    case Message1(_) =>
      lib.setupOk && (forall c, m :: lib.process1(c, m).0) && (forall c :: lib.compose2(c).0)
    case Message3(_) =>
      && (forall c, m :: lib.process3(c, m).0) && (forall c :: lib.compose4(c).0)
      && (forall c :: lib.exportKeys(c).ok) && (forall p :: lib.initOk(p))
  }

  /**
   * Every library call counts: the failure of any single one, whichever it is,
   * leaves no handshake pending, no context behind it and no reply; without a
   * failure the frame is answered.
   */
  lemma AnyFailureIsFatal<C(!new), M(!new)>(s: Session<C>, f: Frame<M>, lib: EdhocLib<C, M>)
    requires Inv(s) && (f.Message3? ==> s.active)
    ensures var o := OnFrame(s, f, lib);
            && (SomeCallFails(f, lib) ==> o.reply.None? && !o.next.active && !o.next.ready)
            && (AllCallsSucceed(f, lib) ==>
                  o.reply.Some? && if f.Message1? then o.next.active else o.next.ready && !o.next.active)
  {
  }

  /** The four ways a frame can leave the session, by what the POST itself brought. */
  lemma FrameEffect<C, M>(s: Session<C>, f: Frame<M>, lib: EdhocLib<C, M>)
    ensures var o := OnFrame(s, f, lib);
            match f
            case Message1(m) =>
              && o.next.active == Opens(m, lib) == o.reply.Some?
              && !o.next.ready
              && (Opens(m, lib) ==> o.next.ctx == Pending(m, lib))
            case Message3(m) =>
              if !s.active then o == Outcome(s, None, [])
              else
                && !o.next.active
                && o.reply.Some? == Completes(s.ctx, m, lib)
                && o.next.ready == (s.ready || Completes(s.ctx, m, lib))
  {
  }
}
