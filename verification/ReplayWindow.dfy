/**
 * Replay protection over whole runs: the replay window and the Sender Sequence
 * Number of the live context are functions of what happened since it came up,
 * and of nothing before.
 */
module ReplayWindow {
  import opened Bytes
  import opened CoapMessage
  import opened CoapServer
  import opened DeviceHistory
  import opened EdhocSession
  import opened Framing
  import opened HandlerResults
  import opened Handlers

  /** After call `k` no OSCORE context was brought up. */
  ghost predicate NoInitAfter(calls: seq<Call>, k: nat) {
    forall j :: k < j < |calls| ==> !(calls[j].Init? && calls[j].ok)
  }

  /** The Partial IVs of the requests opened since the latest context was brought up. */
  ghost function Accepted(calls: seq<Call>): set<nat> {
    set k | 0 <= k < |calls| && calls[k].Unprotect? && NoInitAfter(calls, k) :: calls[k].piv
  }

  ghost function Opened(calls: seq<Call>): set<nat> {
    set c | c in calls && c.Unprotect? :: c.piv
  }

  lemma AcceptedGrows(calls: seq<Call>, more: seq<Call>)
    requires forall c | c in more :: !c.Init?
    ensures Accepted(calls + more) == Accepted(calls) + Opened(more)
  {
    var all := calls + more;
    forall j | |calls| <= j < |all| ensures all[j] in more {
      assert all[j] == more[j - |calls|];
    }
    forall k | 0 <= k < |calls| ensures NoInitAfter(all, k) <==> NoInitAfter(calls, k) {
      if NoInitAfter(all, k) {
        forall j | k < j < |calls| ensures !(calls[j].Init? && calls[j].ok) { assert all[j] == calls[j]; }
      }
    }
    forall piv | piv in Accepted(calls) + Opened(more) ensures piv in Accepted(all) {
      if piv in Accepted(calls) {
        var k :| 0 <= k < |calls| && calls[k].Unprotect? && NoInitAfter(calls, k) && calls[k].piv == piv;
        assert all[k] == calls[k] && NoInitAfter(all, k);
      } else {
        var c :| c in more && c.Unprotect? && c.piv == piv;
        var k :| 0 <= k < |more| && more[k] == c;
        assert all[|calls| + k] == c && NoInitAfter(all, |calls| + k);
      }
    }
    forall piv | piv in Accepted(all) ensures piv in Accepted(calls) + Opened(more) {
      var k :| 0 <= k < |all| && all[k].Unprotect? && NoInitAfter(all, k) && all[k].piv == piv;
      if k < |calls| { assert all[k] == calls[k]; } else { assert all[k] in more; }
    }
  }

  lemma AcceptedReset(calls: seq<Call>, p: OscoreParams)
    ensures Accepted(calls + [Export(true, p), Init(true, p), Deinit]) == {}
  {
    var all := calls + [Export(true, p), Init(true, p), Deinit];
    assert all[|calls| + 1] == Init(true, p);
    assert !all[|calls|].Unprotect? && !all[|calls| + 2].Unprotect?;
  }

  /** The event is answered under a nonce of the device's own. */
  ghost predicate OwnAnswer<C>(d: Device<C>, e: Event<C>)
    requires ValidEvent(e)
  {
    e.Oscore? && e.uoscore.ownPiv && exists c :: c in Step(d, e).calls && c.Protect?
  }

  /** How many such answers there were since the latest context was brought up. */
  ghost function OwnAnswers<C>(d: Device<C>, es: seq<Event<C>>): nat
    requires Valid(es)
    decreases |es|
  {
    if es == [] then 0
    else
      var before, e := es[..|es| - 1], es[|es| - 1];
      var d1 := Run(d, before);
      if BringsUpContext(Step(d1, e).calls) then 0
      else OwnAnswers(d, before) + if OwnAnswer(d1, e) then 1 else 0
  }

  /** One event that is not an EDHOC frame. */
  lemma QuietWindow<C>(d: Device<C>, e: Event<C>)
    requires ValidEvent(e) && !IsFrame(e) && EdhocSession.Inv(d.session)
    ensures var o := Step(d, e);
            && (forall c | c in o.calls :: !c.Init?)
            && o.next.session.osc.seen == d.session.osc.seen + Opened(o.calls)
            && o.next.session.osc.ssn == d.session.osc.ssn + if OwnAnswer(d, e) then 1 else 0
  {
    QuietCalls(d, e);
    if e.Oscore? { OscoreWindow(d, e); }
  }

  lemma OscoreWindow<C>(d: Device<C>, e: Event<C>)
    requires ValidEvent(e) && e.Oscore? && EdhocSession.Inv(d.session)
    ensures var o := Step(d, e);
            && o.next.session.osc.seen == d.session.osc.seen + Opened(o.calls)
            && o.next.session.osc.ssn == d.session.osc.ssn + if OwnAnswer(d, e) then 1 else 0
  {
    if OpensFresh(d, e) {
      var answer := e.uoscore.open(d.session.osc, e.packet);
      if Parse(answer.plain).Ok? {
        AnsweredWindow(d, e);
      } else {
        OscoreUnparseable(d, e);
      }
    } else {
      OscoreRejected(d, e);
    }
  }

  lemma AnsweredWindow<C>(d: Device<C>, e: Event<C>)
    requires ValidEvent(e) && e.Oscore? && EdhocSession.Inv(d.session) && OpensFresh(d, e)
    requires Parse(e.uoscore.open(d.session.osc, e.packet).plain).Ok?
    ensures var osc, o := d.session.osc, Step(d, e);
            && Opened(o.calls) == {e.uoscore.open(osc, e.packet).piv}
            && (exists c :: c in o.calls && c.Protect?)
            && o.next.session.osc.seen == osc.seen + Opened(o.calls)
            && o.next.session.osc.ssn == osc.ssn + if e.uoscore.ownPiv then 1 else 0
  {
    OscoreAnswered(d, e);
    var calls := Step(d, e).calls;
    AnsweredCalls(calls, e.uoscore.open(d.session.osc, e.packet).piv, calls[1..|calls| - 1], calls[|calls| - 1]);
  }

  lemma AnsweredCalls(calls: seq<Call>, piv: nat, led: seq<Call>, p: Call)
    requires calls == [Unprotect(piv)] + led + [p] && p.Protect? && forall c | c in led :: c.SetLed?
    ensures Opened(calls) == {piv} && exists c :: c in calls && c.Protect?
  {
    assert p in calls && calls[0] == Unprotect(piv);
  }

  /**
   * Over every run, while the device answers OSCORE: its replay window is the set
   * of Partial IVs opened since the live context came up, and its Sender Sequence
   * Number the number of answers given under own nonces since then.  A new
   * handshake starts both from nothing.
   */
  lemma {:induction false} WindowIsHistory<C>(d: Device<C>, es: seq<Event<C>>)
    requires Boot(d) && Valid(es) && Run(d, es).session.ready
    ensures Run(d, es).session.osc.seen == Accepted(Trace(d, es))
    ensures Run(d, es).session.osc.ssn == OwnAnswers(d, es)
    decreases |es|
  {
    var before, e := es[..|es| - 1], es[|es| - 1];
    var d1 := Run(d, before);
    RunKeepsInv(d, before);
    ReadyStep(d1, e);
    CallsBringUp(d1, e);
    if d1.session.active {
      AcceptedReset(Trace(d, before), Run(d, es).session.osc.key);
      ContextIsFresh(d1, e);
    } else {
      WindowIsHistory(d, before);
      AcceptedGrows(Trace(d, before), Step(d1, e).calls);
      StepWindow(d1, e);
    }
  }

  lemma ContextIsFresh<C>(d: Device<C>, e: Event<C>)
    requires ValidEvent(e) && EdhocSession.Inv(d.session) && d.session.active && Step(d, e).next.session.ready
    ensures Step(d, e).next.session.osc.seen == {} && Step(d, e).next.session.osc.ssn == 0
    ensures BringsUpContext(Step(d, e).calls)
  {
    if IsFrame(e) {
      FreshContext(d.session, Strip(e.request.payload).value, e.lib);
      CallsBringUp(d, e);
    } else {
      FlagsAfter(d, e);
    }
  }

  lemma StepWindow<C>(d: Device<C>, e: Event<C>)
    requires ValidEvent(e) && EdhocSession.Inv(d.session) && !d.session.active && Step(d, e).next.session.ready
    ensures var o := Step(d, e);
            && o.next.session.osc.seen == d.session.osc.seen + Opened(o.calls)
            && o.next.session.osc.ssn == d.session.osc.ssn + if OwnAnswer(d, e) then 1 else 0
  {
    if IsFrame(e) {
      FrameEffect(d.session, Strip(e.request.payload).value, e.lib);
    } else {
      QuietWindow(d, e);
    }
  }

  /**
   * Replay protection, exactly: over every run, a packet that the library opens
   * is passed on if and only if its Partial IV was not among those opened since
   * the live context came up.
   */
  lemma ReplayExact<C>(d: Device<C>, es: seq<Event<C>>, e: Event<C>)
    requires Boot(d) && Valid(es) && Run(d, es).session.ready && ValidEvent(e) && e.Oscore?
    requires e.uoscore.open(Run(d, es).session.osc, e.packet).Opened?
    ensures var d1 := Run(d, es);
            var piv := e.uoscore.open(d1.session.osc, e.packet).piv;
            && (Unprotect(piv) in Step(d1, e).calls <==> piv !in Accepted(Trace(d, es)))
            && (piv in Accepted(Trace(d, es)) ==> Step(d1, e) == Effect(d1, BadMessage, []))
  {
    var d1 := Run(d, es);
    WindowIsHistory(d, es);
    OscoreRejected(d1, e);
    PassedOn(d1, e);
  }

  lemma PassedOn<C>(d: Device<C>, e: Event<C>)
    requires ValidEvent(e) && e.Oscore? && d.session.ready && e.uoscore.open(d.session.osc, e.packet).Opened?
    ensures var piv := e.uoscore.open(d.session.osc, e.packet).piv;
            piv !in d.session.osc.seen ==> Unprotect(piv) in Step(d, e).calls
  {
    var o := Step(d, e);
    var piv := e.uoscore.open(d.session.osc, e.packet).piv;
    assert piv !in d.session.osc.seen ==> o.calls[0] == Unprotect(piv);
  }

  /**
   * A second client is as good as the first: whatever state the device is in, a
   * message_1 and a message_3 that succeed are followed by an answer to any
   * request that the new context opens, under any Partial IV, 0 included.
   */
  lemma ReconnectAnswers<C>(d: Device<C>, e1: Event<C>, e3: Event<C>, e: Event<C>)
    requires EdhocSession.Inv(d.session) && ValidEvent(e1) && ValidEvent(e3) && ValidEvent(e)
    requires Opening(e1) && Completing(PendingOf(e1), e3) && e.Oscore?
    ensures var d2 := Step(Step(d, e1).next, e3).next;
            var osc := d2.session.osc;
            var answer := e.uoscore.open(osc, e.packet);
            && d2.session.ready && osc.seen == {} && osc.ssn == 0
            && (answer.Opened? && Parse(answer.plain).Ok? && e.uoscore.sealOk ==> Step(d2, e).result.Answer?)
  {
    var d1 := Step(d, e1).next;
    FlagsAfter(d, e1);
    StepKeepsInv(d, e1);
    FlagsAfter(d1, e3);
    StepKeepsInv(d1, e3);
    ContextIsFresh(d1, e3);
    var d2 := Step(d1, e3).next;
    Reconnected(d2, e);
  }

  lemma Reconnected<C>(d: Device<C>, e: Event<C>)
    requires EdhocSession.Inv(d.session) && d.session.ready && d.session.osc.seen == {} && ValidEvent(e) && e.Oscore?
    ensures var answer := e.uoscore.open(d.session.osc, e.packet);
            answer.Opened? && Parse(answer.plain).Ok? && e.uoscore.sealOk ==> Step(d, e).result.Answer?
  {
    var answer := e.uoscore.open(d.session.osc, e.packet);
    if answer.Opened? && Parse(answer.plain).Ok? { OscoreAnswered(d, e); }
  }
}
