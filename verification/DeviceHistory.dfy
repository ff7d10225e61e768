/**
 * What every run of the device satisfies, stated on the events handled and on
 * the calls made, for arbitrary libraries.
 */
module DeviceHistory {
  import opened Bytes
  import opened CoapMessage
  import opened CoapServer
  import opened Handlers
  import opened EdhocSession
  import opened Framing

  // ---- events by what they bring ----

  predicate IsFrame<C>(e: Event<C>) {
    e.Edhoc? && Strip(e.request.payload).Some?
  }

  predicate IsMessage1<C>(e: Event<C>) {
    IsFrame(e) && Strip(e.request.payload).value.Message1?
  }

  /** A message_1 whose processing succeeds; leaves `PendingOf(e)` behind. */
  predicate Opening<C>(e: Event<C>) {
    IsMessage1(e) && Opens(Strip(e.request.payload).value.msg, e.lib)
  }

  function PendingOf<C>(e: Event<C>): C
    requires Opening(e)
  {
    Pending(Strip(e.request.payload).value.msg, e.lib)
  }

  /** A message_3 that completes the handshake pending in `c`. */
  predicate Completing<C>(c: C, e: Event<C>) {
    IsFrame(e) && !IsMessage1(e) && Completes(c, Strip(e.request.payload).value.msg, e.lib)
  }

  /** Since event `i` a handshake is pending. */
  ghost predicate PendingSince<C>(es: seq<Event<C>>, i: int) {
    0 <= i < |es| && Opening(es[i]) && forall k :: i < k < |es| ==> !IsFrame(es[k])
  }

  /** Event `j` completes the handshake that event `i` opened. */
  ghost predicate InstalledBy<C>(es: seq<Event<C>>, i: int, j: int) {
    && 0 <= i < j < |es| && Opening(es[i]) && Completing(PendingOf(es[i]), es[j])
    && forall k :: i < k < j ==> !IsFrame(es[k])
  }

  /** ... and no message_1 has been handled since. */
  ghost predicate LiveSince<C>(es: seq<Event<C>>, i: int, j: int) {
    InstalledBy(es, i, j) && forall k :: j < k < |es| ==> !IsMessage1(es[k])
  }

  // ---- exact history of the two flags ----

  /** The flags after one more event, in terms of the state before it. */
  lemma FlagsAfter<C>(d: Device<C>, e: Event<C>)
    requires ValidEvent(e)
    ensures var s, s' := d.session, Step(d, e).next.session;
            if IsMessage1(e) then
              s'.active == Opening(e) && !s'.ready && (Opening(e) ==> s'.ctx == PendingOf(e))
            else if IsFrame(e) && s.active then
              !s'.active && s'.ready == (s.ready || Completing(s.ctx, e))
            else s'.active == s.active && s'.ready == s.ready && s'.ctx == s.ctx
  {
    if IsFrame(e) { FrameEffect(d.session, Strip(e.request.payload).value, e.lib); }
  }

  ghost predicate SomePending<C>(es: seq<Event<C>>) {
    exists i :: PendingSince(es, i)
  }

  ghost predicate SomeLive<C>(es: seq<Event<C>>) {
    exists i, j :: LiveSince(es, i, j)
  }

  /** How a pending handshake moves by one event. */
  lemma PendingExtends<C>(es: seq<Event<C>>)
    requires es != []
    ensures var n := |es| - 1;
            forall i :: PendingSince(es, i) <==>
              (i == n && Opening(es[n])) || (PendingSince(es[..n], i) && !IsFrame(es[n]))
    ensures SomePending(es) <==>
              Opening(es[|es| - 1]) || (SomePending(es[..|es| - 1]) && !IsFrame(es[|es| - 1]))
  {
    var n := |es| - 1;
    var before := es[..n];
    forall i
      ensures PendingSince(es, i) <==> (i == n && Opening(es[n])) || (PendingSince(before, i) && !IsFrame(es[n]))
    {
      if PendingSince(before, i) && !IsFrame(es[n]) {
        forall k | i < k < |es| ensures !IsFrame(es[k]) { assert k < n ==> before[k] == es[k]; }
      }
      if PendingSince(es, i) && i < n {
        assert before[i] == es[i];
        forall k | i < k < n ensures !IsFrame(before[k]) { assert before[k] == es[k]; }
      }
    }
    if Opening(es[n]) { assert PendingSince(es, n); }
    if SomePending(before) && !IsFrame(es[n]) {
      var i :| PendingSince(before, i);
      assert PendingSince(es, i);
    }
    if i :| PendingSince(es, i) {
      assert i == n || PendingSince(before, i);
    }
  }

  /** How a live context moves by one event. */
  lemma LiveExtends<C>(es: seq<Event<C>>)
    requires es != []
    ensures var n := |es| - 1;
            forall i, j :: LiveSince(es, i, j) <==>
              (j == n && PendingSince(es[..n], i) && Completing(PendingOf(es[..n][i]), es[n]))
              || (LiveSince(es[..n], i, j) && !IsMessage1(es[n]))
  {
    var n := |es| - 1;
    var before := es[..n];
    forall i, j
      ensures LiveSince(es, i, j) <==>
              (j == n && PendingSince(before, i) && Completing(PendingOf(before[i]), es[n]))
              || (LiveSince(before, i, j) && !IsMessage1(es[n]))
    {
      assert forall k :: 0 <= k < n ==> before[k] == es[k];
    }
  }

  /** The same for existence; all pending handshakes leave one and the same context `c`. */
  lemma SomeLiveExtends<C>(es: seq<Event<C>>, before: seq<Event<C>>, c: C)
    requires es != [] && before == es[..|es| - 1]
    requires forall i :: PendingSince(before, i) ==> PendingOf(before[i]) == c
    ensures var e := es[|es| - 1];
            SomeLive(es) <==> (SomePending(before) && Completing(c, e)) || (SomeLive(before) && !IsMessage1(e))
  {
    LiveExtends(es);
    var n := |es| - 1;
    if SomePending(before) && Completing(c, es[n]) {
      var i :| PendingSince(before, i);
      assert LiveSince(es, i, n);
    }
    if SomeLive(before) && !IsMessage1(es[n]) {
      var i, j :| LiveSince(before, i, j);
      assert LiveSince(es, i, j);
    }
  }

  /**
   * `edhoc_ctx_active` means that the last EDHOC frame was a successful
   * message_1; `oscore_ready` means that some message_3 completed the handshake
   * then pending and no message_1 came after.  Empty POSTs, bad prefixes,
   * OSCORE and plain requests, and message_3 without a handshake do not matter.
   */
  lemma {:induction false} FlagsAreHistory<C>(d: Device<C>, es: seq<Event<C>>)
    requires Boot(d) && Valid(es)
    ensures var s := Run(d, es).session;
            && (s.active <==> SomePending(es))
            && (forall i :: PendingSince(es, i) ==> s.ctx == PendingOf(es[i]))
            && (s.ready <==> SomeLive(es))
    decreases |es|
  {
    if es != [] {
      var n := |es| - 1;
      var before := es[..n];
      FlagsAreHistory(d, before);
      FlagsAfter(Run(d, before), es[n]);
      PendingExtends(es);
      SomeLiveExtends(es, before, Run(d, before).session.ctx);
    }
  }

  // ---- one OSCORE context per message_1 ----

  ghost predicate BringsUpContext(calls: seq<Call>) {
    exists c :: c in calls && c.Init? && c.ok
  }

  /**
   * A handler call initialises an OSCORE context exactly when it is the
   * message_3 of a handshake, and message_1 and message_3 of the contexts
   * correspond one to one: a duplicated or late message_3 never brings up a
   * second context for the same handshake.
   */
  lemma ContextsMatchHandshakes<C>(d: Device<C>, es: seq<Event<C>>, j: nat)
    requires Boot(d) && Valid(es) && j < |es|
    ensures BringsUpContext(Step(Run(d, es[..j]), es[j]).calls) <==> exists i :: InstalledBy(es, i, j)
    ensures forall i, i', j' :: InstalledBy(es, i, j) && InstalledBy(es, i', j') ==> (i == i' <==> j == j')
  {
    var before := es[..j];
    assert forall k :: 0 <= k < j ==> before[k] == es[k];
    FlagsAreHistory(d, before);
    var s := Run(d, before).session;
    var e := es[j];
    CallsBringUp(Run(d, before), e);
    forall i ensures InstalledBy(es, i, j) <==> PendingSince(before, i) && Completing(PendingOf(before[i]), e) {
    }
  }

  lemma CallsBringUp<C>(d: Device<C>, e: Event<C>)
    requires ValidEvent(e)
    ensures BringsUpContext(Step(d, e).calls) <==> d.session.active && Completing(d.session.ctx, e)
  {
    if IsFrame(e) {
      FrameBringsUp(d.session, Strip(e.request.payload).value, e.lib);
    } else {
      QuietCalls(d, e);
    }
  }

  lemma FrameBringsUp<C>(s: Session<C>, f: Frame<bytes>, lib: EdhocLib<C, bytes>)
    ensures BringsUpContext(OnFrame(s, f, lib).calls) <==> s.active && f.Message3? && Completes(s.ctx, f.msg, lib)
  {
    var calls := OnFrame(s, f, lib).calls;
    if s.active && f.Message3? && Completes(s.ctx, f.msg, lib) {
      assert calls[1].Init? && calls[1].ok && calls[1] in calls;
    }
  }

  /** Whatever is not an EDHOC frame leaves contexts, keys and buffers alone. */
  lemma QuietCalls<C>(d: Device<C>, e: Event<C>)
    requires ValidEvent(e) && !IsFrame(e)
    ensures var o := Step(d, e);
            && (forall c | c in o.calls :: !TouchesKeys(c) && !c.Setup? && !c.Deinit?)
            && o.next.session.(osc := d.session.osc) == d.session && o.next.session.osc.key == d.session.osc.key
  {
  }

  /** Without a message_1, nothing disturbs a live context: same keys, same buffers, and no Partial IV forgotten. */
  lemma {:induction false} LiveContextUndisturbed<C>(d: Device<C>, es: seq<Event<C>>)
    requires Valid(es) && EdhocSession.Inv(d.session) && d.session.ready
    requires forall k :: 0 <= k < |es| ==> !IsMessage1(es[k])
    ensures var s, s' := d.session, Run(d, es).session;
            && s'.ready && !s'.active && s'.bufs == s.bufs
            && s'.osc.key == s.osc.key && s'.SenderId() == s.SenderId()
            && s.osc.seen <= s'.osc.seen && s.osc.ssn <= s'.osc.ssn
    decreases |es|
  {
    if es != [] {
      var before := es[..|es| - 1];
      LiveContextUndisturbed(d, before);
      FlagsAfter(Run(d, before), es[|es| - 1]);
    }
  }

  // ---- aliasing over whole runs ----

  predicate TouchesKeys(c: Call) {
    c.Export? || c.Init?
  }

  /** The latest call that touched keys or buffers was a successful initialisation with `p`. */
  ghost predicate LastInit(calls: seq<Call>, p: OscoreParams) {
    exists k :: 0 <= k < |calls| && calls[k] == Init(true, p) && forall j :: k < j < |calls| ==> !TouchesKeys(calls[j])
  }

  lemma LastInitStays(calls: seq<Call>, more: seq<Call>, p: OscoreParams)
    requires LastInit(calls, p) && forall c | c in more :: !TouchesKeys(c)
    ensures LastInit(calls + more, p)
  {
    var k :| 0 <= k < |calls| && calls[k] == Init(true, p) && forall j :: k < j < |calls| ==> !TouchesKeys(calls[j]);
    var all := calls + more;
    assert all[k] == Init(true, p);
    forall j | k < j < |all| ensures !TouchesKeys(all[j]) {
      if j >= |calls| { assert all[j] == more[j - |calls|]; }
    }
  }

  lemma LastInitNew(calls: seq<Call>, p: OscoreParams)
    ensures LastInit(calls + [Export(true, p), Init(true, p), Deinit], p)
  {
    var all := calls + [Export(true, p), Init(true, p), Deinit];
    assert all[|calls| + 1] == Init(true, p) && all[|calls| + 2] == Deinit;
  }

  /** A step that leaves the device ready either brought the context up or left keys and buffers alone. */
  lemma ReadyStep<C>(d: Device<C>, e: Event<C>)
    requires ValidEvent(e) && EdhocSession.Inv(d.session) && Step(d, e).next.session.ready
    ensures var s, o := d.session, Step(d, e);
            var key := o.next.session.osc.key;
            if s.active then o.calls == [Export(true, key), Init(true, key), Deinit]
            else s.ready && key == s.osc.key && forall c | c in o.calls :: !TouchesKeys(c)
  {
    if !IsFrame(e) { QuietCalls(d, e); }
  }

  /**
   * While the device answers OSCORE, the last thing that happened to the key
   * buffers is the initialisation of its context, and the bytes the context
   * points at are still the ones it was given then.  Exports that fail half-way
   * may scribble over the buffers, but never under a live context.
   */
  lemma {:induction false} AliasingSafety<C>(d: Device<C>, es: seq<Event<C>>)
    requires Boot(d) && Valid(es) && Run(d, es).session.ready
    ensures var s := Run(d, es).session;
            && LastInit(Trace(d, es), s.osc.key)
            && s.SenderId() == s.osc.key.senderId && s.bufs.secret == s.osc.key.secret
            && s.bufs.salt == s.osc.key.salt && s.osc.key.recipientId <= s.bufs.recipient
    decreases |es|
  {
    RunKeepsInv(d, es);
    var before, e := es[..|es| - 1], es[|es| - 1];
    var d1 := Run(d, before);
    RunKeepsInv(d, before);
    ReadyStep(d1, e);
    if d1.session.active {
      LastInitNew(Trace(d, before), Run(d, es).session.osc.key);
    } else {
      AliasingSafety(d, before);
      LastInitStays(Trace(d, before), Step(d1, e).calls, d1.session.osc.key);
    }
  }

  // ---- the context ledger ----

  function Balance(calls: seq<Call>): int
    decreases |calls|
  {
    if calls == [] then 0
    else
      var c := calls[|calls| - 1];
      Balance(calls[..|calls| - 1]) + if c == Setup(true) then 1 else if c == Deinit then -1 else 0
  }

  /** At every point of a trace at most one EDHOC context is set up, and only such a one is torn down. */
  ghost predicate LedgerOk(calls: seq<Call>) {
    forall k :: 0 <= k < |calls| ==>
      0 <= Balance(calls[..k]) <= 1 && (calls[k] == Deinit ==> Balance(calls[..k]) == 1)
  }

  lemma BalanceSnoc(calls: seq<Call>, c: Call)
    ensures Balance(calls + [c]) == Balance(calls) + if c == Setup(true) then 1 else if c == Deinit then -1 else 0
  {
    assert (calls + [c])[..|calls|] == calls;
  }

  lemma LedgerSnoc(calls: seq<Call>, c: Call)
    requires LedgerOk(calls) && 0 <= Balance(calls) <= 1 && (c == Deinit ==> Balance(calls) == 1)
    ensures LedgerOk(calls + [c])
  {
    var more := calls + [c];
    forall k | 0 <= k < |more|
      ensures 0 <= Balance(more[..k]) <= 1 && (more[k] == Deinit ==> Balance(more[..k]) == 1)
    {
      if k < |calls| { assert more[..k] == calls[..k]; } else { assert more[..k] == calls; }
    }
  }

  /** Walking through the calls of one handler from a balance of `start`; -1 marks a violation. */
  function Walk(start: int, calls: seq<Call>): int
    decreases |calls|
  {
    if calls == [] then start
    else if calls[0] == Deinit then (if start == 1 then Walk(0, calls[1..]) else -1)
    else if calls[0] == Setup(true) then (if start == 0 then Walk(1, calls[1..]) else -1)
    else Walk(start, calls[1..])
  }

  lemma {:induction false} WalkExtends(calls: seq<Call>, more: seq<Call>)
    requires LedgerOk(calls) && 0 <= Balance(calls) <= 1 && Walk(Balance(calls), more) >= 0
    ensures LedgerOk(calls + more) && Balance(calls + more) == Walk(Balance(calls), more)
    decreases |more|
  {
    if more == [] {
      assert calls + more == calls;
    } else {
      BalanceSnoc(calls, more[0]);
      LedgerSnoc(calls, more[0]);
      assert (calls + [more[0]]) + more[1..] == calls + more;
      WalkExtends(calls + [more[0]], more[1..]);
    }
  }

  function Level<C>(s: Session<C>): nat {
    if s.active then 1 else 0
  }

  lemma StepWalks<C>(d: Device<C>, e: Event<C>)
    requires ValidEvent(e)
    ensures Walk(Level(d.session), Step(d, e).calls) == Level(Step(d, e).next.session)
  {
    if IsFrame(e) {
      match Strip(e.request.payload).value
      case Message1(m) => Message1Walks(d.session, m, e.lib);
      case Message3(m) => WalkOutcome(Step(d, e).calls);
    } else {
      QuietCalls(d, e);
      WalkQuiet(Level(d.session), Step(d, e).calls);
    }
  }

  lemma {:induction false} WalkQuiet(start: nat, calls: seq<Call>)
    requires forall c | c in calls :: !c.Setup? && !c.Deinit?
    ensures Walk(start, calls) == start
    decreases |calls|
  {
    if calls != [] { WalkQuiet(start, calls[1..]); }
  }

  lemma Message1Walks<C>(s: Session<C>, m: bytes, lib: EdhocLib<C, bytes>)
    ensures Walk(Level(s), OnMessage1(s, m, lib).calls) == if Opens(m, lib) then 1 else 0
  {
    var calls := OnMessage1(s, m, lib).calls;
    var dropped := if s.active then [Deinit] else [];
    var tail := if !lib.setupOk then [Setup(false)] else if Opens(m, lib) then [Setup(true)] else [Setup(true), Deinit];
    assert calls == dropped + tail;
    assert ([Deinit] + tail)[1..] == tail && [] + tail == tail;
    assert Walk(Level(s), calls) == Walk(0, tail);
    WalkOutcome(tail);
  }

  /** The call sequences a frame can end in. */
  lemma WalkOutcome(calls: seq<Call>)
    ensures calls == [Setup(true)] ==> Walk(0, calls) == 1
    ensures calls == [Setup(true), Deinit] || calls == [Setup(false)] ==> Walk(0, calls) == 0
    ensures calls == [Deinit] ==> Walk(1, calls) == 0
    ensures |calls| == 2 && calls[0].Export? && calls[1].Deinit? ==> Walk(1, calls) == 0
    ensures |calls| == 3 && calls[0].Export? && calls[1].Init? && calls[2].Deinit? ==> Walk(1, calls) == 0
  {
    if |calls| >= 1 && calls[0] == Setup(true) { assert Walk(0, calls) == Walk(1, calls[1..]); }
    if |calls| >= 2 && calls[0].Export? { assert Walk(1, calls) == Walk(1, calls[1..]); }
    if |calls| == 3 && calls[0].Export? && calls[1].Init? { assert Walk(1, calls[1..]) == Walk(1, calls[1..][1..]); }
  }

  /**
   * Successful setups minus deinits is 0 or 1 after every single call of every
   * run, so a context is never torn down twice, nor one whose setup failed.
   * Between handlers the balance is 1 exactly while `edhoc_ctx_active`; inside
   * one the flag lags behind (lines 448-450).
   */
  lemma {:induction false} ContextLedger<C>(d: Device<C>, es: seq<Event<C>>)
    requires Boot(d) && Valid(es)
    ensures LedgerOk(Trace(d, es))
    ensures Balance(Trace(d, es)) == Level(Run(d, es).session)
    decreases |es|
  {
    if es != [] {
      var before := es[..|es| - 1];
      ContextLedger(d, before);
      StepWalks(Run(d, before), es[|es| - 1]);
      WalkExtends(Trace(d, before), Step(Run(d, before), es[|es| - 1]).calls);
    }
  }

  // ---- the LED under OSCORE ----

  /** The request that handler call `e` dispatches in state `d`, if any. */
  function Dispatched<C>(d: Device<C>, e: Event<C>): Option<Request> {
    match e
    case Edhoc(_, _) => None
    case Plain(r) => Some(r)
    case Oscore(packet, u) =>
      if !d.session.ready then None
      else
        match u.open(d.session.osc, packet)
        case Opened(piv, plain) =>
          if piv !in d.session.osc.seen && Parse(plain).Ok? then Some(Request(Parse(plain).value, u.readable)) else None
        case _ => None
  }

  function Inputs<C>(d: Device<C>, es: seq<Event<C>>): seq<Request>
    requires Valid(es)
    decreases |es|
  {
    if es == [] then []
    else
      var before := es[..|es| - 1];
      var r := Dispatched(Run(d, before), es[|es| - 1]);
      Inputs(d, before) + if r.Some? then [r.value] else []
  }

  /** Plain and decrypted requests drive one and the same register; nothing else does. */
  lemma LedFollowsRequests<C>(d: Device<C>, es: seq<Event<C>>)
    requires Boot(d) && Valid(es)
    ensures LatestPut(false, Inputs(d, es), Run(d, es).led)
  {
    LedRuns(d, es);
    LedIsRegister(false, Inputs(d, es), Run(d, es).led);
  }

  lemma LedStep<C>(d: Device<C>, e: Event<C>)
    requires ValidEvent(e)
    ensures Step(d, e).next.led
            == if Dispatched(d, e).Some? then NextLed(d.led, Dispatched(d, e).value) else d.led
  {
  }

  lemma {:induction false} LedRuns<C>(d: Device<C>, es: seq<Event<C>>)
    requires Valid(es)
    ensures Run(d, es).led == RunLed(d.led, Inputs(d, es))
    decreases |es|
  {
    if es != [] {
      var before := es[..|es| - 1];
      LedRuns(d, before);
      LedStep(Run(d, before), es[|es| - 1]);
      var r := Dispatched(Run(d, before), es[|es| - 1]);
      if r.Some? {
        assert Inputs(d, es)[..|Inputs(d, before)|] == Inputs(d, before);
      } else {
        assert Inputs(d, es) == Inputs(d, before);
      }
    }
  }

  /**
   * A protected packet that changes the LED is one that the live OSCORE context
   * opened with a fresh Partial IV, and that context comes from a completed
   * handshake after which no message_1 was handled.
   */
  lemma ProtectedLedChange<C>(d: Device<C>, es: seq<Event<C>>, k: nat)
    requires Boot(d) && Valid(es) && k < |es| && es[k].Oscore?
    requires Step(Run(d, es[..k]), es[k]).next.led != Run(d, es[..k]).led
    ensures SomeLive(es[..k])
    ensures var osc := Run(d, es[..k]).session.osc;
            var answer := es[k].uoscore.open(osc, es[k].packet);
            && answer.Opened? && answer.piv !in osc.seen
            && Parse(answer.plain).Ok? && Sets(Request(Parse(answer.plain).value, es[k].uoscore.readable))
            && answer.piv in Step(Run(d, es[..k]), es[k]).next.session.osc.seen
  {
    FlagsAreHistory(d, es[..k]);
  }
}
