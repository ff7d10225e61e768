/**
 * The handshake over a network that carries bytes: the payloads the client
 * frames and posts, and the bodies the device answers with.
 *
 * The device strips whatever arrives and libedhoc decodes whatever is left.  The
 * reachable states are shown to be exactly those of `Handshake`, so the results
 * about terms are results about bytes.
 */
module WireHandshake {
  import opened Bytes
  import opened EdhocSession
  import opened Framing
  import opened Handshake
  import opened Identifiers

  /** A POST to the device, or the body of its answer. */
  datatype Datagram = Request(payload: bytes) | Response(body: bytes)

  datatype Wire = Wire(
    device: Session<Ctx>,
    nextGy: nat,
    clients: seq<Initiator>,
    net: set<Datagram>,
    installs: seq<Install>)

  datatype WireAction =
    | Start(cI: Cid)
    | Post(payload: bytes, luck: Luck)
    | Answer(run: nat, body: bytes, luck: Luck)

  /** The EDHOC message in a datagram; a payload the device refuses carries none. */
  function Carried(d: Datagram, codec: Codec<Term>): Option<Term> {
    match d
    case Request(p) => if Strip(p).Some? then Some(codec.dec(Strip(p).value.msg)) else None
    case Response(b) => Some(codec.dec(b))
  }

  /**
   * Any bytes may be delivered, under any frame, unless they read as a message
   * of a client's exchange that no datagram sent so far carries.
   */
  ghost predicate Readable(w: Wire, m: Term, codec: Codec<Term>) {
    Forgeable(m) || exists d :: d in w.net && Carried(d, codec) == Some(m)
  }

  ghost predicate WireEnabled(w: Wire, a: WireAction, codec: Codec<Term>) {
    match a
    case Start(_) => true
    case Post(p, _) => Strip(p).Some? ==> Readable(w, codec.dec(Strip(p).value.msg), codec)
    case Answer(i, b, _) => i < |w.clients| && Readable(w, codec.dec(b), codec)
  }

  /** `edhoc_post` on a payload: refused before the lock, or framing, session step and reply. */
  function DevicePost(g: Setting, w: Wire, p: bytes, l: Luck, codec: Codec<Term>): Wire {
    match Strip(p)
    case None => w
    case Some(f) =>
      var o := OnFrame(w.device, f, OnBytes(Library(g, w.nextGy, l), codec));
      w.(device := o.next,
         nextGy := w.nextGy + 1,
         net := if o.reply.Some? && l.sent then w.net + {Response(o.reply.value)} else w.net,
         installs := AddInstall(w.installs, w.device.ctx, o.calls))
  }

  /** The payload the client posts for a message it composed. */
  function Posted(g: Setting, f: Frame<Term>, codec: Codec<Term>): Datagram {
    Request(Framed(EncodeFrame(f, codec), g.cR))
  }

  function ClientAnswer(g: Setting, w: Wire, i: nat, b: bytes, l: Luck, codec: Codec<Term>): Wire
    requires i < |w.clients|
  {
    var (c, out) := ClientMove(g, w.clients[i], i, codec.dec(b), l);
    w.(clients := w.clients[i := c],
       net := if out.Some? then w.net + {Posted(g, Message3(out.value), codec)} else w.net)
  }

  function WireNext(g: Setting, w: Wire, a: WireAction, codec: Codec<Term>): Wire
    requires a.Answer? ==> a.run < |w.clients|
  {
    match a
    case Start(cI) =>
      w.(clients := w.clients + [WaitMessage2(cI)],
         net := w.net + {Posted(g, Message1(M1(Client(|w.clients|), cI)), codec)})
    case Post(p, l) => DevicePost(g, w, p, l, codec)
    case Answer(i, b, l) => ClientAnswer(g, w, i, b, l, codec)
  }

  ghost predicate WireReaches(g: Setting, codec: Codec<Term>, w: Wire, run: seq<WireAction>, w': Wire)
    decreases |run|
  {
    if run == [] then w' == w
    else WireEnabled(w, run[0], codec) && WireReaches(g, codec, WireNext(g, w, run[0], codec), run[1..], w')
  }

  ghost predicate WireBoot(w: Wire) {
    !w.device.active && !w.device.ready && w.clients == [] && w.net == {} && w.installs == []
  }

  // ---- bytes and terms ----

  /** The terms on the network. */
  ghost function Terms(net: set<Datagram>, codec: Codec<Term>): set<Term> {
    set d | d in net && Carried(d, codec).Some? :: Carried(d, codec).value
  }

  /** What the bytes mean. */
  ghost function Meaning(w: Wire, codec: Codec<Term>): World {
    World(w.device, w.nextGy, w.clients, Terms(w.net, codec), w.installs)
  }

  lemma TermsAdd(net: set<Datagram>, d: Datagram, codec: Codec<Term>, m: Term)
    requires Carried(d, codec) == Some(m)
    ensures Terms(net + {d}, codec) == Terms(net, codec) + {m}
  {
    assert forall x :: x in Terms(net, codec) ==> x in Terms(net + {d}, codec);
    assert d in net + {d};
  }

  /** What a client posts carries the message it composed; the device answers with the one libedhoc composed. */
  lemma SentCarries(g: Setting, f: Frame<Term>, m: Term, codec: Codec<Term>)
    requires Faithful(codec)
    ensures Carried(Posted(g, f, codec), codec) == Some(f.msg)
    ensures Carried(Response(codec.enc(m)), codec) == Some(m)
    ensures Strip(Posted(g, f, codec).payload) == Some(EncodeFrame(f, codec))
  {
    FramingRoundTrip(EncodeFrame(f, codec), g.cR);
    assert codec.dec(codec.enc(f.msg)) == f.msg;
  }

  lemma ReadableIsDeliverable(w: Wire, m: Term, codec: Codec<Term>)
    ensures Readable(w, m, codec) <==> Deliverable(Meaning(w, codec), m)
  {
  }

  /** A payload that the device accepts is one delivery of the message it carries. */
  lemma PostIsDelivery(g: Setting, w: Wire, p: bytes, l: Luck, codec: Codec<Term>)
    requires Faithful(codec) && Strip(p).Some?
    ensures Meaning(DevicePost(g, w, p, l, codec), codec)
            == Device(g, Meaning(w, codec), DecodeFrame(Strip(p).value, codec), l)
  {
    var f, lib := Strip(p).value, Library(g, w.nextGy, l);
    FrameOfBytes(w.device, f, lib, codec);
    var o := OnFrame(w.device, DecodeFrame(f, codec), lib);
    if o.reply.Some? {
      SentCarries(g, DecodeFrame(f, codec), o.reply.value, codec);
      TermsAdd(w.net, Response(codec.enc(o.reply.value)), codec, o.reply.value);
    }
  }

  lemma AnswerIsDelivery(g: Setting, w: Wire, i: nat, b: bytes, l: Luck, codec: Codec<Term>)
    requires Faithful(codec) && i < |w.clients|
    ensures Meaning(ClientAnswer(g, w, i, b, l, codec), codec) == ClientStep(g, Meaning(w, codec), i, codec.dec(b), l)
  {
    var out := ClientMove(g, w.clients[i], i, codec.dec(b), l).1;
    if out.Some? {
      SentCarries(g, Message3(out.value), out.value, codec);
      TermsAdd(w.net, Posted(g, Message3(out.value), codec), codec, out.value);
    }
  }

  lemma StartIsStart(g: Setting, w: Wire, cI: Cid, codec: Codec<Term>)
    requires Faithful(codec)
    ensures Meaning(WireNext(g, w, Start(cI), codec), codec) == Next(g, Meaning(w, codec), StartClient(cI))
  {
    var m := M1(Client(|w.clients|), cI);
    SentCarries(g, Message1(m), m, codec);
    TermsAdd(w.net, Posted(g, Message1(m), codec), codec, m);
  }

  /** The step on terms that a step on bytes is; a refused payload is none. */
  function TermAction(a: WireAction, codec: Codec<Term>): Option<Action> {
    match a
    case Start(cI) => Some(StartClient(cI))
    case Post(p, l) => if Strip(p).Some? then Some(ToDevice(DecodeFrame(Strip(p).value, codec), l)) else None
    case Answer(i, b, l) => Some(ToClient(i, codec.dec(b), l))
  }

  lemma WireStep(g: Setting, w: Wire, a: WireAction, codec: Codec<Term>)
    requires Faithful(codec) && WireEnabled(w, a, codec)
    ensures var v, v' := Meaning(w, codec), Meaning(WireNext(g, w, a, codec), codec);
            match TermAction(a, codec)
            case None => v' == v
            case Some(b) => Enabled(v, b) && v' == Next(g, v, b)
  {
    match a
    case Start(cI) => StartIsStart(g, w, cI, codec);
    case Post(p, l) =>
      if Strip(p).Some? {
        ReadableIsDeliverable(w, codec.dec(Strip(p).value.msg), codec);
        PostIsDelivery(g, w, p, l, codec);
      }
    case Answer(i, b, l) =>
      ReadableIsDeliverable(w, codec.dec(b), codec);
      AnswerIsDelivery(g, w, i, b, l, codec);
  }

  /** The bytes by which a step on terms can be brought about. */
  function ByteAction(g: Setting, a: Action, codec: Codec<Term>): WireAction {
    match a
    case StartClient(cI) => Start(cI)
    case ToDevice(f, l) => Post(Posted(g, f, codec).payload, l)
    case ToClient(i, m, l) => Answer(i, codec.enc(m), l)
  }

  lemma TermStep(g: Setting, w: Wire, a: Action, codec: Codec<Term>)
    requires Faithful(codec) && Enabled(Meaning(w, codec), a)
    ensures var b := ByteAction(g, a, codec);
            && WireEnabled(w, b, codec)
            && Meaning(WireNext(g, w, b, codec), codec) == Next(g, Meaning(w, codec), a)
  {
    var b := ByteAction(g, a, codec);
    if a.ToDevice? {
      SentCarries(g, a.frame, a.frame.msg, codec);
      DecodeEncode(a.frame, codec);
      ReadableIsDeliverable(w, a.frame.msg, codec);
    }
    if a.ToClient? {
      assert codec.dec(codec.enc(a.msg)) == a.msg;
      ReadableIsDeliverable(w, a.msg, codec);
    }
    assert TermAction(b, codec) == Some(a);
    WireStep(g, w, b, codec);
  }

  // ---- whole runs ----

  /** Every run on bytes is a run on terms, refused payloads left out. */
  lemma {:induction false} WireRunIsRun(g: Setting, codec: Codec<Term>, w: Wire, run: seq<WireAction>, w': Wire)
    returns (terms: seq<Action>)
    requires Faithful(codec) && WireReaches(g, codec, w, run, w')
    ensures Reaches(g, Meaning(w, codec), terms, Meaning(w', codec))
    decreases |run|
  {
    if run == [] {
      terms := [];
    } else {
      WireStep(g, w, run[0], codec);
      terms := WireRunIsRun(g, codec, WireNext(g, w, run[0], codec), run[1..], w');
      var a := TermAction(run[0], codec);
      if a.Some? {
        ReachesCons(g, Meaning(w, codec), a.value, terms, Meaning(w', codec));
        terms := [a.value] + terms;
      }
    }
  }

  lemma WireReachesCons(g: Setting, codec: Codec<Term>, w: Wire, a: WireAction, run: seq<WireAction>, w': Wire)
    requires WireEnabled(w, a, codec) && WireReaches(g, codec, WireNext(g, w, a, codec), run, w')
    ensures WireReaches(g, codec, w, [a] + run, w')
  {
    assert ([a] + run)[1..] == run;
  }

  /** And every run on terms can be brought about by bytes. */
  lemma {:induction false} RunIsWireRun(g: Setting, codec: Codec<Term>, w: Wire, terms: seq<Action>, v: World)
    returns (run: seq<WireAction>, w': Wire)
    requires Faithful(codec) && Reaches(g, Meaning(w, codec), terms, v)
    ensures WireReaches(g, codec, w, run, w') && Meaning(w', codec) == v
    decreases |terms|
  {
    if terms == [] {
      run, w' := [], w;
    } else {
      var b := ByteAction(g, terms[0], codec);
      TermStep(g, w, terms[0], codec);
      run, w' := RunIsWireRun(g, codec, WireNext(g, w, b, codec), terms[1..], v);
      WireReachesCons(g, codec, w, b, run, w');
      run := [b] + run;
    }
  }

  ghost predicate Reachable(g: Setting, w: World, v: World) {
    exists terms :: Reaches(g, w, terms, v)
  }

  ghost predicate WireReachable(g: Setting, codec: Codec<Term>, w: Wire, w': Wire) {
    exists run :: WireReaches(g, codec, w, run, w')
  }

  /** A world is reachable over terms if and only if it is what some world reachable over bytes means. */
  lemma SameReachableWorlds(g: Setting, codec: Codec<Term>, boot: Wire, v: World)
    requires Faithful(codec)
    ensures Reachable(g, Meaning(boot, codec), v)
            <==> exists w :: WireReachable(g, codec, boot, w) && Meaning(w, codec) == v
  {
    if Reachable(g, Meaning(boot, codec), v) {
      var w := Realised(g, codec, boot, v);
    }
    forall w | WireReachable(g, codec, boot, w) ensures Reachable(g, Meaning(boot, codec), Meaning(w, codec)) {
      Abstracted(g, codec, boot, w);
    }
  }

  lemma Realised(g: Setting, codec: Codec<Term>, boot: Wire, v: World) returns (w: Wire)
    requires Faithful(codec) && Reachable(g, Meaning(boot, codec), v)
    ensures WireReachable(g, codec, boot, w) && Meaning(w, codec) == v
  {
    var terms :| Reaches(g, Meaning(boot, codec), terms, v);
    var run;
    run, w := RunIsWireRun(g, codec, boot, terms, v);
  }

  lemma Abstracted(g: Setting, codec: Codec<Term>, boot: Wire, w: Wire)
    requires Faithful(codec) && WireReachable(g, codec, boot, w)
    ensures Reachable(g, Meaning(boot, codec), Meaning(w, codec))
  {
    var run :| WireReaches(g, codec, boot, run, w);
    var terms := WireRunIsRun(g, codec, boot, run, w);
  }

  /** In particular some exchange of bytes completes on both ends. */
  lemma WireHandshakeCompletes(g: Setting, codec: Codec<Term>, boot: Wire, cI: Cid)
    requires Faithful(codec) && WireBoot(boot)
    ensures exists w :: WireReachable(g, codec, boot, w) && |w.clients| == 1 && w.clients[0].Complete? && w.device.ready
  {
    var v0 := Meaning(boot, codec);
    HandshakeCompletes(g, v0, cI);
    var terms, v :| HonestReaches(g, v0, terms, v) && |v.clients| == 1 && v.clients[0].Complete? && v.device.ready;
    HonestIsRun(g, v0, terms, v);
    var w := Realised(g, codec, boot, v);
    assert w.clients == v.clients && w.device == v.device;
  }

  /**
   * Agreement over bytes.  Whatever payloads and bodies are delivered: a client
   * run that completed has exactly one mirrored context initialisation on the
   * device, and a context initialised for a client run is for the one transcript
   * that run committed to.
   */
  lemma WireAgreement(g: Setting, codec: Codec<Term>, boot: Wire, run: seq<WireAction>, w: Wire)
    requires Faithful(codec) && WireBoot(boot) && WireReaches(g, codec, boot, run, w)
    ensures forall i :: 0 <= i < |w.clients| && w.clients[i].Complete? ==> HasCounterpart(w, w.clients[i])
    ensures forall k :: 0 <= k < |w.installs| && w.installs[k].t.gx.Client? ==> CommittedOnce(w, k)
    ensures w.device.ready ==>
              w.installs != [] && w.device.osc.key == ResponderParams(g, w.installs[|w.installs| - 1].t)
  {
    var v0, v := Meaning(boot, codec), Meaning(w, codec);
    var terms := WireRunIsRun(g, codec, boot, run, w);
    forall i | 0 <= i < |w.clients| && w.clients[i].Complete? ensures HasCounterpart(w, w.clients[i]) {
      InitiatorAgreement(g, v0, terms, v, i);
      CounterpartOnWire(v, w, w.clients[i]);
    }
    forall k | 0 <= k < |w.installs| && w.installs[k].t.gx.Client? ensures CommittedOnce(w, k) {
      ResponderAgreement(g, v0, terms, v, k);
    }
    if w.device.ready { LiveContextIsLatest(g, v0, terms, v); }
  }

  /**
   * Over bytes, too, any payload that the device takes for a message_1 puts an
   * end to every transcript opened and not installed.
   */
  lemma WireRetransmissionDerails(g: Setting, codec: Codec<Term>, boot: Wire, before: seq<WireAction>, w: Wire,
                                  p: bytes, l: Luck, after: seq<WireAction>, w': Wire, t: Transcript)
    requires Faithful(codec) && WireBoot(boot) && WireReaches(g, codec, boot, before, w)
    requires t.gy < w.nextGy && forall k :: 0 <= k < |w.installs| ==> w.installs[k].t != t
    requires Strip(p).Some? && Strip(p).value.Message1? && WireEnabled(w, Post(p, l), codec)
    requires WireReaches(g, codec, DevicePost(g, w, p, l, codec), after, w')
    ensures forall i :: 0 <= i < |w'.clients| && w'.clients[i].Complete? ==> w'.clients[i].t != t
  {
    var v0, v, v' := Meaning(boot, codec), Meaning(w, codec), Meaning(w', codec);
    var m := codec.dec(Strip(p).value.msg);
    var terms := WireRunIsRun(g, codec, boot, before, w);
    var more := WireRunIsRun(g, codec, DevicePost(g, w, p, l, codec), after, w');
    PostIsDelivery(g, w, p, l, codec);
    ReadableIsDeliverable(w, m, codec);
    RetransmissionDerails(g, v0, terms, v, m, l, more, v', t);
    assert v'.clients == w'.clients;
  }

  ghost predicate HasCounterpart(w: Wire, c: Initiator)
    requires c.Complete?
  {
    exists k :: 0 <= k < |w.installs| && w.installs[k].t == c.t && Mirrored(c.osc, w.installs[k].params)
                && forall j :: 0 <= j < |w.installs| && w.installs[j].t == c.t ==> j == k
  }

  ghost predicate CommittedOnce(w: Wire, k: nat)
    requires k < |w.installs| && w.installs[k].t.gx.Client?
  {
    var i := w.installs[k].t.gx.run;
    && i < |w.clients|
    && Committed(w.clients[i]) == Some(w.installs[k].t)
    && forall j :: 0 <= j < |w.installs| && w.installs[j].t.gx == Client(i) ==> j == k
  }

  lemma CounterpartOnWire(v: World, w: Wire, c: Initiator)
    requires v.installs == w.installs && c.Complete?
    requires exists k :: 0 <= k < |v.installs| && v.installs[k].t == c.t && Mirrored(c.osc, v.installs[k].params)
                         && InstallsOf(v, c.t) == {k}
    ensures HasCounterpart(w, c)
  {
    var k :| 0 <= k < |v.installs| && v.installs[k].t == c.t && Mirrored(c.osc, v.installs[k].params)
             && InstallsOf(v, c.t) == {k};
    forall j | 0 <= j < |w.installs| && w.installs[j].t == c.t ensures j == k {
      assert j in InstallsOf(v, c.t);
    }
  }
}
