/**
 * The whole handshake: any number of runs of the host client
 * (host_client/src/client.cpp, `main`) against the device, over a network that
 * loses, duplicates and reorders, with foreign traffic mixed in.
 *
 * The device is the session machine of `EdhocSession`, run on symbolic EDHOC
 * terms.  The contract of libedhoc used here is that of EDHOC itself: a message
 * is bound to a transcript and is accepted only by a context that is at exactly
 * that transcript.  Nothing else is assumed: every library call may also fail
 * for no reason.
 */
module Handshake {
  import opened Bytes
  import opened EdhocSession
  import opened Identifiers

  /** An initiator ephemeral: that of a client run, or of somebody else. */
  datatype Ephemeral = Client(run: nat) | Foreign(tag: int)

  /** G_X with C_I from message_1, G_Y from message_2; C_R is the device's own. */
  datatype Transcript = Transcript(gx: Ephemeral, cI: Cid, gy: nat)

  datatype Term =
    | M1(gx: Ephemeral, cI: Cid)
    | M2(t: Transcript)
    | M3(t: Transcript)
    | M4(t: Transcript)
    | Noise(tag: int)

  /** Libedhoc's responder context. */
  datatype Ctx =
    | Unset
    | Fresh(gy: nat)
    | Received1(t: Transcript)
    | Sent2(t: Transcript)
    | Verified3(t: Transcript)
    | Persisted(t: Transcript)

  type Secret = s: bytes | |s| == SECRET_SIZE witness seq(SECRET_SIZE, _ => 0)
  type Salt = s: bytes | |s| == SALT_SIZE witness seq(SALT_SIZE, _ => 0)

  /** The EDHOC exporter is some function of the transcript, the same on both sides. */
  datatype Exporter = Exporter(secret: Transcript -> Secret, salt: Transcript -> Salt)

  /** Which of the library calls made by one delivery go through. */
  datatype Luck = Luck(a: bool, b: bool, c: bool, d: bool, sent: bool)

  /** The constants both ends are built with. */
  datatype Setting = Setting(exporter: Exporter, cR: Cid)

  function Pad(id: bytes): bytes
    requires |id| <= ID_SIZE
  {
    id + seq(ID_SIZE - |id|, _ => 0)
  }

  /** Responder orientation: Sender ID = C_I, Recipient ID = C_R (320-325). */
  function ResponderExport(g: Setting, t: Transcript, ok: bool): ExportAnswer {
    var bufs := KeyBuffers(g.exporter.secret(t), g.exporter.salt(t), Pad([CidToCbor(t.cI)]), Pad([CidToCbor(g.cR)]));
    ExportAnswer(ok, bufs, 1, 1)
  }

  function ResponderParams(g: Setting, t: Transcript): OscoreParams {
    OscoreParams(g.exporter.secret(t), g.exporter.salt(t), [CidToCbor(t.cI)], [CidToCbor(g.cR)])
  }

  /** Initiator orientation: Sender ID = C_R, Recipient ID = C_I (client.cpp 418-430). */
  function InitiatorParams(g: Setting, t: Transcript): OscoreParams {
    OscoreParams(g.exporter.secret(t), g.exporter.salt(t), [CidToCbor(g.cR)], [CidToCbor(t.cI)])
  }

  /** Libedhoc in the responder role; `gy` is the ephemeral a new context draws. */
  function Library(g: Setting, gy: nat, l: Luck): EdhocLib<Ctx, Term> {
    EdhocLib(
      l.a,
      Fresh(gy),
      (c: Ctx, m: Term) =>
        if l.b && c.Fresh? && m.M1? then (true, Received1(Transcript(m.gx, m.cI, c.gy))) else (false, c),
      (c: Ctx) =>
        if l.c && c.Received1? then (true, Sent2(c.t), M2(c.t)) else (false, c, Noise(0)),
      (c: Ctx, m: Term) =>
        if l.a && c.Sent2? && m == M3(c.t) then (true, Verified3(c.t)) else (false, c),
      (c: Ctx) =>
        if l.b && c.Verified3? then (true, Persisted(c.t), M4(c.t)) else (false, c, Noise(0)),
      (c: Ctx) =>
        if c.Persisted? then ResponderExport(g, c.t, l.c)
        else ResponderExport(g, Transcript(Foreign(0), 0, 0), false),
      (p: OscoreParams) => l.d,
      OscoreContext(OscoreParams([], [], [], []), 0, {}, 0),
      (c: Ctx) => Unset)
  }

  /** One run of the client's `main`, by the message it is waiting for. */
  datatype Initiator =
    | WaitMessage2(cI: Cid)
    | WaitMessage4(t: Transcript)
    | Complete(t: Transcript, osc: OscoreParams)
    | Failed(committed: Option<Transcript>)

  /** The transcript for which the run composed a message_3, if it did. */
  function Committed(i: Initiator): Option<Transcript> {
    match i
    case WaitMessage2(_) => None
    case WaitMessage4(t) => Some(t)
    case Complete(t, _) => Some(t)
    case Failed(c) => c
  }

  datatype Install = Install(t: Transcript, params: OscoreParams)

  /**
   * `net` holds every term ever sent and is never emptied: loss, duplication
   * and reordering are all choices of what to deliver.  `installs` lists the
   * successful OSCORE context initialisations of the device, in order.
   */
  datatype World = World(
    device: Session<Ctx>,
    nextGy: nat,
    clients: seq<Initiator>,
    net: set<Term>,
    installs: seq<Install>)

  datatype Action =
    | StartClient(cI: Cid)
    | ToDevice(frame: Frame<Term>, luck: Luck)
    | ToClient(run: nat, msg: Term, luck: Luck)

  /** Terms others can make up: any message_1 and noise, and messages of exchanges no client run is part of. */
  predicate Forgeable(m: Term) {
    match m
    case M1(_, _) => true
    case Noise(_) => true
    case M2(t) => t.gx.Foreign?
    case M3(t) => t.gx.Foreign?
    case M4(t) => t.gx.Foreign?
  }

  predicate Deliverable(w: World, m: Term) {
    m in w.net || Forgeable(m)
  }

  predicate Enabled(w: World, a: Action) {
    match a
    case StartClient(_) => true
    case ToDevice(f, _) => Deliverable(w, f.msg)
    case ToClient(i, m, _) => i < |w.clients| && Deliverable(w, m)
  }

  /** The successful initialisation among a handler's calls, if there is one. */
  function Installed(calls: seq<Call>): Option<OscoreParams> {
    if |calls| == 3 && calls[1].Init? && calls[1].ok then Some(calls[1].params) else None
  }

  /** The initialisations after a handler's `calls` on a device whose context was `ctx`. */
  function AddInstall(installs: seq<Install>, ctx: Ctx, calls: seq<Call>): seq<Install> {
    if Installed(calls).Some? && ctx.Sent2? then installs + [Install(ctx.t, Installed(calls).value)] else installs
  }

  function Device(g: Setting, w: World, f: Frame<Term>, l: Luck): World {
    var o := OnFrame(w.device, f, Library(g, w.nextGy, l));
    w.(device := o.next,
       nextGy := w.nextGy + 1,
       net := if o.reply.Some? && l.sent then w.net + {o.reply.value} else w.net,
       installs := AddInstall(w.installs, w.device.ctx, o.calls))
  }

  /** client.cpp 382-434: how run `i` goes on with message `m`, and what it sends; any failure makes it exit. */
  function ClientMove(g: Setting, c: Initiator, i: nat, m: Term, l: Luck): (Initiator, Option<Term>) {
    match c
    case WaitMessage2(cI) =>
      if l.a && m.M2? && m.t.gx == Client(i) && m.t.cI == cI && l.b then (WaitMessage4(m.t), Some(M3(m.t)))
      else (Failed(None), None)
    case WaitMessage4(t) =>
      if l.a && m == M4(t) && l.b && l.c then (Complete(t, InitiatorParams(g, t)), None)
      else (Failed(Some(t)), None)
    case _ => (c, None)
  }

  function ClientStep(g: Setting, w: World, i: nat, m: Term, l: Luck): World
    requires i < |w.clients|
  {
    var (c, out) := ClientMove(g, w.clients[i], i, m, l);
    w.(clients := w.clients[i := c], net := if out.Some? then w.net + {out.value} else w.net)
  }

  function Next(g: Setting, w: World, a: Action): World
    requires Enabled(w, a)
  {
    match a
    case StartClient(cI) =>
      w.(clients := w.clients + [WaitMessage2(cI)], net := w.net + {M1(Client(|w.clients|), cI)})
    case ToDevice(f, l) => Device(g, w, f, l)
    case ToClient(i, m, l) => ClientStep(g, w, i, m, l)
  }

  /** `w` steps to `w'` along the actions `run`. */
  ghost predicate Reaches(g: Setting, w: World, run: seq<Action>, w': World)
    decreases |run|
  {
    if run == [] then w' == w
    else Enabled(w, run[0]) && Reaches(g, Next(g, w, run[0]), run[1..], w')
  }

  /** Power-on: nothing sent, no handshake, no context. */
  ghost predicate Boot(w: World) {
    !w.device.active && !w.device.ready && w.clients == [] && w.net == {} && w.installs == []
  }

  // ---- what every step keeps ----

  /** Indices of the initialisations for transcript `t`. */
  ghost function InstallsOf(w: World, t: Transcript): set<nat> {
    set k | 0 <= k < |w.installs| && w.installs[k].t == t
  }

  ghost predicate HasInstall(w: World, t: Transcript) {
    exists k :: 0 <= k < |w.installs| && w.installs[k].t == t
  }

  /** The device side: ephemerals are used in order, and for one installation at most. */
  ghost predicate DeviceInv(g: Setting, w: World) {
    && EdhocSession.Inv(w.device)
    && (w.device.active ==> w.device.ctx.Sent2? && w.device.ctx.t.gy < w.nextGy && !HasInstall(w, w.device.ctx.t))
    && (forall k :: 0 <= k < |w.installs| ==>
          w.installs[k].t.gy < w.nextGy && w.installs[k].params == ResponderParams(g, w.installs[k].t))
    && (forall j, k :: 0 <= j < k < |w.installs| ==> w.installs[j].t.gy != w.installs[k].t.gy)
    && (w.device.active ==> forall k :: 0 <= k < |w.installs| ==> w.installs[k].t.gy != w.device.ctx.t.gy)
    && (w.device.ready ==> w.installs != [] && w.device.osc.key == w.installs[|w.installs| - 1].params)
  }

  /** The network side: what an authenticated term in flight says about the ends. */
  ghost predicate NetInv(g: Setting, w: World) {
    && (forall t :: M2(t) in w.net ==> t.gy < w.nextGy)
    && (forall t :: M4(t) in w.net ==> HasInstall(w, t))
    && (forall t :: M3(t) in w.net ==>
          t.gx.Client? && t.gx.run < |w.clients| && Committed(w.clients[t.gx.run]) == Some(t))
    && (forall k :: 0 <= k < |w.installs| && w.installs[k].t.gx.Client? ==> M3(w.installs[k].t) in w.net)
    && (forall i :: 0 <= i < |w.clients| && w.clients[i].Complete? ==>
          && w.clients[i].t.gx == Client(i)
          && HasInstall(w, w.clients[i].t)
          && w.clients[i].osc == InitiatorParams(g, w.clients[i].t))
    && (forall i :: 0 <= i < |w.clients| && w.clients[i].WaitMessage4? ==> w.clients[i].t.gx == Client(i))
    && (forall i :: 0 <= i < |w.clients| && Committed(w.clients[i]).Some? ==>
          Committed(w.clients[i]).value.gy < w.nextGy)
  }

  ghost predicate Inv(g: Setting, w: World) {
    DeviceInv(g, w) && NetInv(g, w)
  }

  /** What one frame can do to the world: keep the contexts, or install one for the pending transcript. */
  ghost predicate DeviceMoves(g: Setting, w: World, w': World) {
    && w'.clients == w.clients && w'.nextGy == w.nextGy + 1
    && EdhocSession.Inv(w'.device)
    && (w'.device.active ==> w'.device.ctx.Sent2? && w'.device.ctx.t.gy == w.nextGy)
    && (if w'.installs == w.installs then
          && (w'.device.ready ==> w.device.ready && w'.device.osc == w.device.osc)
          && (w'.net == w.net || exists t: Transcript :: t.gy == w.nextGy && w'.net == w.net + {M2(t)})
        else
          && w.device.active && w.device.ctx.Sent2?
          && var t := w.device.ctx.t;
             && Deliverable(w, M3(t))
             && w'.installs == w.installs + [Install(t, ResponderParams(g, t))]
             && !w'.device.active
             && w'.device.osc.key == ResponderParams(g, t)
             && (w'.net == w.net || w'.net == w.net + {M4(t)}))
  }

  lemma Message1Moves(g: Setting, w: World, m: Term, l: Luck)
    ensures DeviceMoves(g, w, Device(g, w, Message1(m), l))
    ensures Device(g, w, Message1(m), l).installs == w.installs
  {
    var lib := Library(g, w.nextGy, l);
    var o := OnFrame(w.device, Message1(m), lib);
    if Opens(m, lib) {
      var t := Transcript(m.gx, m.cI, w.nextGy);
      assert o.next.ctx == Sent2(t) && o.reply == Some(M2(t));
    }
    assert Installed(o.calls).None?;
  }

  lemma Message3Moves(g: Setting, w: World, m: Term, l: Luck)
    requires DeviceInv(g, w) && Deliverable(w, m)
    ensures DeviceMoves(g, w, Device(g, w, Message3(m), l))
  {
    var lib := Library(g, w.nextGy, l);
    FrameKeepsInv(w.device, Message3(m), lib);
    var o := OnFrame(w.device, Message3(m), lib);
    if w.device.active {
      var t := w.device.ctx.t;
      assert ResponderExport(g, t, l.c).Params() == ResponderParams(g, t);
      if Completes(w.device.ctx, m, lib) {
        assert m == M3(t) && o.reply == Some(M4(t));
        assert Installed(o.calls) == Some(ResponderParams(g, t));
      } else {
        assert Installed(o.calls).None? && o.reply.None?;
      }
    }
  }

  lemma FrameMoves(g: Setting, w: World, f: Frame<Term>, l: Luck)
    requires DeviceInv(g, w) && Deliverable(w, f.msg)
    ensures DeviceMoves(g, w, Device(g, w, f, l))
  {
    match f
    case Message1(m) => Message1Moves(g, w, m, l);
    case Message3(m) => Message3Moves(g, w, m, l);
  }

  lemma MovesKeepDeviceInv(g: Setting, w: World, w': World)
    requires DeviceInv(g, w) && DeviceMoves(g, w, w')
    ensures DeviceInv(g, w')
  {
  }

  lemma MovesKeepNetInv(g: Setting, w: World, w': World)
    requires NetInv(g, w) && DeviceMoves(g, w, w')
    ensures NetInv(g, w')
  {
    InstallsGrow(w, w');
    assert forall t :: M3(t) in w'.net <==> M3(t) in w.net;
    if w'.installs != w.installs {
      assert HasInstall(w', w.device.ctx.t) by { assert w'.installs[|w.installs|].t == w.device.ctx.t; }
    }
  }

  lemma InstallsGrow(w: World, w': World)
    requires w.installs <= w'.installs
    ensures forall t :: HasInstall(w, t) ==> HasInstall(w', t)
  {
    forall t | HasInstall(w, t) ensures HasInstall(w', t) {
      var k :| 0 <= k < |w.installs| && w.installs[k].t == t;
      assert w'.installs[k].t == t;
    }
  }

  lemma DeviceKeepsInv(g: Setting, w: World, f: Frame<Term>, l: Luck)
    requires Inv(g, w) && Deliverable(w, f.msg)
    ensures Inv(g, Device(g, w, f, l)) && DeviceMoves(g, w, Device(g, w, f, l))
  {
    var w' := Device(g, w, f, l);
    FrameMoves(g, w, f, l);
    MovesKeepDeviceInv(g, w, w');
    MovesKeepNetInv(g, w, w');
  }

  /** A client moves only its own state, and adds at most its message_3 to the network. */
  lemma ClientKeepsInv(g: Setting, w: World, a: Action)
    requires Inv(g, w) && Enabled(w, a) && !a.ToDevice?
    ensures Inv(g, Next(g, w, a))
  {
    SameDevice(g, w, Next(g, w, a));
    if a.StartClient? { StartKeepsNetInv(g, w, a); }
    if a.ToClient? && w.clients[a.run].WaitMessage2? { Message2KeepsNetInv(g, w, a); }
    if a.ToClient? && w.clients[a.run].WaitMessage4? { Message4KeepsNetInv(g, w, a); }
  }

  lemma StartKeepsNetInv(g: Setting, w: World, a: Action)
    requires NetInv(g, w) && a.StartClient?
    ensures NetInv(g, Next(g, w, a))
  {
    var w' := Next(g, w, a);
    SameInstalls(w, w');
    assert forall t :: (M2(t) in w'.net <==> M2(t) in w.net) && (M3(t) in w'.net <==> M3(t) in w.net)
                       && (M4(t) in w'.net <==> M4(t) in w.net);
  }

  lemma SameDevice(g: Setting, w: World, w': World)
    requires DeviceInv(g, w) && w'.device == w.device && w'.installs == w.installs && w'.nextGy == w.nextGy
    ensures DeviceInv(g, w')
  {
    SameInstalls(w, w');
  }

  lemma SameInstalls(w: World, w': World)
    requires w.installs == w'.installs
    ensures forall t :: HasInstall(w, t) <==> HasInstall(w', t)
  {
  }

  lemma Message2KeepsNetInv(g: Setting, w: World, a: Action)
    requires NetInv(g, w) && Enabled(w, a) && a.ToClient? && w.clients[a.run].WaitMessage2?
    ensures NetInv(g, Next(g, w, a))
  {
    var w' := Next(g, w, a);
    SameInstalls(w, w');
    forall t | M3(t) in w'.net
      ensures t.gx.Client? && t.gx.run < |w'.clients| && Committed(w'.clients[t.gx.run]) == Some(t)
    {
      if M3(t) in w.net { assert t.gx.run != a.run; }
    }
  }

  lemma Message4KeepsNetInv(g: Setting, w: World, a: Action)
    requires NetInv(g, w) && Enabled(w, a) && a.ToClient? && w.clients[a.run].WaitMessage4?
    ensures NetInv(g, Next(g, w, a))
  {
    var w' := Next(g, w, a);
    SameInstalls(w, w');
    assert w'.net == w.net;
    var i := a.run;
    if w'.clients[i].Complete? {
      assert M4(w.clients[i].t) in w.net;
      assert HasInstall(w, w.clients[i].t);
    }
    forall j | 0 <= j < |w.clients| ensures Committed(w'.clients[j]) == Committed(w.clients[j]) {
    }
  }

  lemma {:induction false} RunKeepsInv(g: Setting, w: World, run: seq<Action>, w': World)
    requires Inv(g, w) && Reaches(g, w, run, w')
    ensures Inv(g, w')
    decreases |run|
  {
    if run != [] {
      if run[0].ToDevice? { DeviceKeepsInv(g, w, run[0].frame, run[0].luck); } else { ClientKeepsInv(g, w, run[0]); }
      RunKeepsInv(g, Next(g, w, run[0]), run[1..], w');
    }
  }

  // ---- agreement ----

  lemma ReachesCons(g: Setting, w: World, a: Action, run: seq<Action>, w': World)
    requires Enabled(w, a) && Reaches(g, Next(g, w, a), run, w')
    ensures Reaches(g, w, [a] + run, w')
  {
    assert ([a] + run)[1..] == run;
  }

  const LUCKY := Luck(true, true, true, true, true)

  lemma LuckyMessage1(g: Setting, w: World, cI: Cid)
    requires w.clients == [WaitMessage2(cI)]
    ensures var t := Transcript(Client(0), cI, w.nextGy);
            var w' := Device(g, w, Message1(M1(Client(0), cI)), LUCKY);
            w'.device.active && w'.device.ctx == Sent2(t) && M2(t) in w'.net && w'.clients == w.clients
  {
  }

  lemma LuckyMessage3(g: Setting, w: World, t: Transcript)
    requires w.device.active && w.device.ctx == Sent2(t)
    ensures var w' := Device(g, w, Message3(M3(t)), LUCKY);
            w'.device.ready && M4(t) in w'.net && w'.clients == w.clients
  {
  }

  /** The action delivers only what one of the two ends has sent. */
  predicate Honest(w: World, a: Action) {
    match a
    case StartClient(_) => true
    case ToDevice(f, _) => f.msg in w.net
    case ToClient(i, m, _) => i < |w.clients| && m in w.net
  }

  /** `Reaches` with the two ends alone. */
  ghost predicate HonestReaches(g: Setting, w: World, run: seq<Action>, w': World)
    decreases |run|
  {
    if run == [] then w' == w
    else Honest(w, run[0]) && HonestReaches(g, Next(g, w, run[0]), run[1..], w')
  }

  lemma HonestCons(g: Setting, w: World, a: Action, run: seq<Action>, w': World)
    requires Honest(w, a) && HonestReaches(g, Next(g, w, a), run, w')
    ensures HonestReaches(g, w, [a] + run, w')
  {
    assert ([a] + run)[1..] == run;
  }

  lemma {:induction false} HonestIsRun(g: Setting, w: World, run: seq<Action>, w': World)
    requires HonestReaches(g, w, run, w')
    ensures Reaches(g, w, run, w')
    decreases |run|
  {
    if run != [] { HonestIsRun(g, Next(g, w, run[0]), run[1..], w'); }
  }

  /**
   * The agreement results are not vacuous: for every C_I, C_R and exporter the
   * run in which every message arrives goes through, on the messages of the two
   * ends alone.
   */
  lemma HandshakeCompletes(g: Setting, boot: World, cI: Cid)
    requires Boot(boot)
    ensures exists run, w :: HonestReaches(g, boot, run, w)
                             && |w.clients| == 1 && w.clients[0].Complete? && w.device.ready
  {
    var t := Transcript(Client(0), cI, boot.nextGy);
    var a1, a2, a3, a4, a5 := StartClient(cI), ToDevice(Message1(M1(Client(0), cI)), LUCKY), ToClient(0, M2(t), LUCKY),
                              ToDevice(Message3(M3(t)), LUCKY), ToClient(0, M4(t), LUCKY);
    var w1 := Next(g, boot, a1);
    LuckyMessage1(g, w1, cI);
    var w2 := Device(g, w1, a2.frame, LUCKY);
    var w3 := ClientStep(g, w2, 0, M2(t), LUCKY);
    LuckyMessage3(g, w3, t);
    var w4 := Device(g, w3, a4.frame, LUCKY);
    var w5 := ClientStep(g, w4, 0, M4(t), LUCKY);
    HonestCons(g, w4, a5, [], w5);
    HonestCons(g, w3, a4, [a5], w5);
    HonestCons(g, w2, a3, [a4] + [a5], w5);
    HonestCons(g, w1, a2, [a3] + ([a4] + [a5]), w5);
    HonestCons(g, boot, a1, [a2] + ([a3] + ([a4] + [a5])), w5);
  }

  /** How many answers a client run has had. */
  function Stage(c: Initiator): nat {
    match c case WaitMessage2(_) => 0 case WaitMessage4(_) => 1 case _ => 2
  }

  function Deliveries(run: seq<Action>, i: nat): nat {
    if run == [] then 0
    else (if run[0].ToClient? && run[0].run == i then 1 else 0) + Deliveries(run[1..], i)
  }

  /**
   * A client run never waits for a second answer to the same message: over any
   * run of the world, two deliveries decide it, one way or the other, and once
   * decided it stays as it is.
   */
  lemma {:induction false} ClientDecides(g: Setting, w: World, run: seq<Action>, w': World, i: nat)
    requires Reaches(g, w, run, w') && i < |w.clients|
    ensures i < |w'.clients|
    ensures Stage(w.clients[i]) + Deliveries(run, i) >= 2 ==> w'.clients[i].Complete? || w'.clients[i].Failed?
    ensures w.clients[i].Complete? || w.clients[i].Failed? ==> w'.clients[i] == w.clients[i]
    ensures Deliveries(run, i) == 0 ==> w'.clients[i] == w.clients[i]
    decreases |run|
  {
    if run != [] {
      var v := Next(g, w, run[0]);
      ClientMoves(g, w, run[0], i);
      ClientDecides(g, v, run[1..], w', i);
    }
  }

  lemma ClientMoves(g: Setting, w: World, a: Action, i: nat)
    requires Enabled(w, a) && i < |w.clients|
    ensures var v := Next(g, w, a);
            && i < |v.clients|
            && (if a.ToClient? && a.run == i && Stage(w.clients[i]) < 2
                then Stage(v.clients[i]) >= Stage(w.clients[i]) + 1
                else v.clients[i] == w.clients[i])
  {
  }

  /** Two OSCORE contexts that understand each other (Appendix A.1 of RFC 9528). */
  predicate Mirrored(a: OscoreParams, b: OscoreParams) {
    a.secret == b.secret && a.salt == b.salt && a.senderId == b.recipientId && a.recipientId == b.senderId
  }

  /**
   * Agreement for the initiator.  In every reachable world, a client run that
   * completed message_4 has exactly one counterpart: the device initialised an
   * OSCORE context for that very transcript once, with the mirrored parameters.
   */
  lemma InitiatorAgreement(g: Setting, boot: World, run: seq<Action>, w: World, i: nat)
    requires Boot(boot) && Reaches(g, boot, run, w)
    requires i < |w.clients| && w.clients[i].Complete?
    ensures exists k :: 0 <= k < |w.installs|
              && w.installs[k].t == w.clients[i].t
              && Mirrored(w.clients[i].osc, w.installs[k].params)
              && w.clients[i].osc.senderId == [CidToCbor(g.cR)]
              && InstallsOf(w, w.clients[i].t) == {k}
  {
    RunKeepsInv(g, boot, run, w);
    var k := Counterpart(g, w, i);
    OnlyInstall(g, w, k);
  }

  lemma Counterpart(g: Setting, w: World, i: nat) returns (k: nat)
    requires NetInv(g, w) && i < |w.clients| && w.clients[i].Complete?
    ensures k < |w.installs| && w.installs[k].t == w.clients[i].t
    ensures w.clients[i].osc == InitiatorParams(g, w.clients[i].t)
  {
    assert HasInstall(w, w.clients[i].t);
    k :| 0 <= k < |w.installs| && w.installs[k].t == w.clients[i].t;
  }

  lemma OnlyInstall(g: Setting, w: World, k: nat)
    requires DeviceInv(g, w) && k < |w.installs|
    ensures w.installs[k].params == ResponderParams(g, w.installs[k].t)
    ensures InstallsOf(w, w.installs[k].t) == {k}
  {
  }

  /**
   * Agreement for the responder.  Every context the device initialised for a
   * client run belongs to the one transcript that run committed to, and no
   * other context was ever initialised for that run.
   */
  lemma ResponderAgreement(g: Setting, boot: World, run: seq<Action>, w: World, k: nat)
    requires Boot(boot) && Reaches(g, boot, run, w)
    requires k < |w.installs| && w.installs[k].t.gx.Client?
    ensures var i := w.installs[k].t.gx.run;
            && i < |w.clients|
            && Committed(w.clients[i]) == Some(w.installs[k].t)
            && forall j :: 0 <= j < |w.installs| && w.installs[j].t.gx == Client(i) ==> j == k
  {
    RunKeepsInv(g, boot, run, w);
    var i := w.installs[k].t.gx.run;
    forall j | 0 <= j < |w.installs| && w.installs[j].t.gx == Client(i) ensures j == k {
      assert M3(w.installs[j].t) in w.net && M3(w.installs[k].t) in w.net;
    }
  }

  /** When the device accepts OSCORE traffic, it does so with its latest context. */
  lemma LiveContextIsLatest(g: Setting, boot: World, run: seq<Action>, w: World)
    requires Boot(boot) && Reaches(g, boot, run, w)
    requires w.device.ready
    ensures w.installs != []
    ensures w.device.osc.key == ResponderParams(g, w.installs[|w.installs| - 1].t)
    ensures w.device.SenderId() == [CidToCbor(w.installs[|w.installs| - 1].t.cI)]
  {
    RunKeepsInv(g, boot, run, w);
  }

  /**
   * A handshake the device has moved past is dead.  Once the device is no
   * longer waiting at transcript `t` (a retransmitted message_1 is enough, since
   * each one draws a new G_Y), no continuation, however long and whatever is
   * delivered, initialises a context for `t` or completes it twice.
   */
  lemma {:induction false} SupersededNeverInstalls(g: Setting, w: World, run: seq<Action>, w': World, t: Transcript)
    requires Inv(g, w) && Reaches(g, w, run, w')
    requires t.gy < w.nextGy && !(w.device.active && w.device.ctx == Sent2(t))
    ensures InstallsOf(w', t) == InstallsOf(w, t)
    decreases |run|
  {
    if run != [] {
      var v := Next(g, w, run[0]);
      if run[0].ToDevice? {
        DeviceKeepsInv(g, w, run[0].frame, run[0].luck);
        SupersededStays(g, w, v, t);
      } else {
        ClientKeepsInv(g, w, run[0]);
        assert InstallsOf(v, t) == InstallsOf(w, t);
      }
      SupersededNeverInstalls(g, v, run[1..], w', t);
    }
  }

  lemma SupersededStays(g: Setting, w: World, v: World, t: Transcript)
    requires DeviceMoves(g, w, v)
    requires t.gy < w.nextGy && !(w.device.active && w.device.ctx == Sent2(t))
    ensures InstallsOf(v, t) == InstallsOf(w, t)
    ensures t.gy < v.nextGy && !(v.device.active && v.device.ctx == Sent2(t))
  {
    if v.installs != w.installs {
      assert v.installs[|w.installs|].t != t;
    }
  }

  /**
   * The run the documentation warns about, for every transcript: `t` has been
   * opened (its message_2 may still be under way) but not installed, and the
   * device handles any message_1, such as a retransmission.  From then on nobody
   * completes with `t`, whether a client has committed to it already or does so
   * later.
   */
  lemma RetransmissionDerails(g: Setting, boot: World, before: seq<Action>, w: World, m: Term, l: Luck,
                              after: seq<Action>, w': World, t: Transcript)
    requires Boot(boot) && Reaches(g, boot, before, w)
    requires t.gy < w.nextGy && !HasInstall(w, t)
    requires Deliverable(w, m) && Reaches(g, Device(g, w, Message1(m), l), after, w')
    ensures !HasInstall(w', t)
    ensures forall i :: 0 <= i < |w'.clients| && w'.clients[i].Complete? ==> w'.clients[i].t != t
  {
    RunKeepsInv(g, boot, before, w);
    var v := Device(g, w, Message1(m), l);
    MovesOn(g, w, m, l, t);
    SupersededNeverInstalls(g, v, after, w', t);
    RunKeepsInv(g, v, after, w');
    assert InstallsOf(w, t) == {};
    NoInstalls(w', t);
  }

  lemma NoInstalls(w: World, t: Transcript)
    requires InstallsOf(w, t) == {}
    ensures !HasInstall(w, t)
  {
    forall k | 0 <= k < |w.installs| ensures w.installs[k].t != t {
      assert k !in InstallsOf(w, t);
    }
  }

  /** In particular a client that has already sent its message_3 is stuck for good. */
  lemma CommittedClientDerails(g: Setting, boot: World, before: seq<Action>, w: World, m: Term, l: Luck,
                               after: seq<Action>, w': World, i: nat)
    requires Boot(boot) && Reaches(g, boot, before, w)
    requires i < |w.clients| && w.clients[i].WaitMessage4? && !HasInstall(w, w.clients[i].t)
    requires Deliverable(w, m) && Reaches(g, Device(g, w, Message1(m), l), after, w')
    ensures i < |w'.clients| && !w'.clients[i].Complete?
  {
    RunKeepsInv(g, boot, before, w);
    var t := w.clients[i].t;
    assert Committed(w.clients[i]) == Some(t);
    RetransmissionDerails(g, boot, before, w, m, l, after, w', t);
    MovesOn(g, w, m, l, t);
    CommitmentStays(g, Device(g, w, Message1(m), l), after, w', i);
  }

  /** Handling a message_1 abandons every transcript seen so far. */
  lemma MovesOn(g: Setting, w: World, m: Term, l: Luck, t: Transcript)
    requires Inv(g, w) && Deliverable(w, m) && t.gy < w.nextGy
    ensures var v := Device(g, w, Message1(m), l);
            && Inv(g, v) && v.clients == w.clients && InstallsOf(v, t) == InstallsOf(w, t)
            && t.gy < v.nextGy && !(v.device.active && v.device.ctx == Sent2(t))
  {
    DeviceKeepsInv(g, w, Message1(m), l);
    Message1Moves(g, w, m, l);
  }

  /** A committed transcript never changes. */
  lemma {:induction false} CommitmentStays(g: Setting, w: World, run: seq<Action>, w': World, i: nat)
    requires Reaches(g, w, run, w') && i < |w.clients| && Committed(w.clients[i]).Some?
    ensures i < |w'.clients| && Committed(w'.clients[i]) == Committed(w.clients[i])
    decreases |run|
  {
    if run != [] {
      CommitmentStays(g, Next(g, w, run[0]), run[1..], w', i);
    }
  }
}
