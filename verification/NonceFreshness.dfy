/**
 * The device never protects two responses under the same key and nonce.
 *
 * The argument needs the whole handler protocol: a secret reaches one context
 * only, a context dies with the next message_1, and each request is answered
 * under its own nonce at most once.
 */
module NonceFreshness {
  import opened Bytes
  import CoapMessage
  import opened CoapServer
  import opened Handlers
  import opened DeviceHistory
  import opened EdhocSession
  import Framing

  /** What the exporter owes: every successful export yields a secret never exported before. */
  ghost predicate FreshSecrets(calls: seq<Call>) {
    forall a, b :: 0 <= a < b < |calls| && IsExport(calls[a]) && IsExport(calls[b]) ==>
      calls[a].params.secret != calls[b].params.secret
  }

  /** C_I and C_R differ, as section 3.3.3 of RFC 9528 requires when they become OSCORE IDs. */
  ghost predicate DistinctIds(calls: seq<Call>) {
    forall c | c in calls :: IsExport(c) ==> c.params.senderId != c.params.recipientId
  }

  predicate IsExport(c: Call) {
    c.Export? && c.ok
  }

  /** No two protections in the trace share key and nonce. */
  ghost predicate NoReuse(calls: seq<Call>) {
    forall a, b :: 0 <= a < b < |calls| && calls[a].Protect? && calls[b].Protect? ==>
      !(calls[a].key.secret == calls[b].key.secret && calls[a].nonce == calls[b].nonce)
  }

  /** Every key in use was exported. */
  ghost predicate ExportedKeys(calls: seq<Call>) {
    forall c | c in calls && c.Protect? :: SecretExported(calls, c.key.secret)
  }

  ghost predicate SecretExported(calls: seq<Call>, secret: bytes) {
    exists x :: x in calls && IsExport(x) && x.params.secret == secret
  }

  ghost predicate KeyExported(calls: seq<Call>, key: OscoreParams) {
    Export(true, key) in calls
  }

  /** Every response reuses its request's nonce. */
  ghost predicate RequestNoncesOnly<C>(es: seq<Event<C>>) {
    forall k :: 0 <= k < |es| && es[k].Oscore? ==> !es[k].uoscore.ownPiv
  }

  /**
   * The live context remembers every nonce used under its secret; `own` says
   * whether some come from its own counter.
   */
  ghost predicate Remembers<C>(s: Session<C>, calls: seq<Call>, own: bool) {
    s.ready ==>
      && KeyExported(calls, s.osc.key)
      && forall c | c in calls && c.Protect? && c.key.secret == s.osc.key.secret ::
           (c.nonce.id == s.osc.key.recipientId && c.nonce.piv in s.osc.seen)
           || (own && c.nonce.id == s.osc.key.senderId && c.nonce.piv < s.osc.ssn)
  }

  /** The two sources of nonces cannot meet. */
  ghost predicate SourcesApart<C>(s: Session<C>, own: bool) {
    s.ready && own ==> s.osc.key.senderId != s.osc.key.recipientId
  }

  lemma SecretStays(calls: seq<Call>, more: seq<Call>)
    ensures forall secret :: SecretExported(calls, secret) ==> SecretExported(calls + more, secret)
  {
    forall secret | SecretExported(calls, secret) ensures SecretExported(calls + more, secret) {
      var x :| x in calls && IsExport(x) && x.params.secret == secret;
      assert x in calls + more;
    }
  }

  lemma PrefixIsFresh(calls: seq<Call>, more: seq<Call>)
    requires FreshSecrets(calls + more)
    ensures FreshSecrets(calls) && (DistinctIds(calls + more) ==> DistinctIds(calls))
  {
    forall a, b | 0 <= a < b < |calls| && IsExport(calls[a]) && IsExport(calls[b])
      ensures calls[a].params.secret != calls[b].params.secret
    {
      assert (calls + more)[a] == calls[a] && (calls + more)[b] == calls[b];
    }
  }

  /** What is exported now was not exported before. */
  lemma NewSecret(calls: seq<Call>, more: seq<Call>, x: Call)
    requires FreshSecrets(calls + more) && x in more && IsExport(x)
    ensures !SecretExported(calls, x.params.secret)
  {
    var b :| 0 <= b < |more| && more[b] == x;
    forall y | y in calls && IsExport(y) ensures y.params.secret != x.params.secret {
      var a :| 0 <= a < |calls| && calls[a] == y;
      assert (calls + more)[a] == y && (calls + more)[|calls| + b] == x;
    }
  }

  /** An EDHOC frame protects nothing; it may only replace the context by one with a new secret. */
  lemma FrameStep<C>(s: Session<C>, f: Frame<bytes>, lib: EdhocLib<C, bytes>, calls: seq<Call>, own: bool)
    requires EdhocSession.Inv(s) && Remembers(s, calls, own) && ExportedKeys(calls)
    requires FreshSecrets(calls + OnFrame(s, f, lib).calls)
    ensures Remembers(OnFrame(s, f, lib).next, calls + OnFrame(s, f, lib).calls, own)
    ensures forall c | c in OnFrame(s, f, lib).calls :: !c.Protect?
  {
    var o := OnFrame(s, f, lib);
    SecretStays(calls, o.calls);
    if f.Message3? && s.active && Completes(s.ctx, f.msg, lib) {
      var x := o.calls[0];
      assert IsExport(x) && x in o.calls && x in calls + o.calls;
      NewSecret(calls, o.calls, x);
      assert o.next.osc.key == x.params;
      forall c | c in calls + o.calls && c.Protect? ensures c.key.secret != x.params.secret {
        assert c in calls;
      }
    }
  }

  /** Protecting once more under a nonce the context has not used. */
  lemma ProtectStep(calls: seq<Call>, more: seq<Call>, p: Call)
    requires NoReuse(calls) && p.Protect?
    requires forall c | c in more :: !c.Protect?
    requires forall c | c in calls && c.Protect? && c.key.secret == p.key.secret :: c.nonce != p.nonce
    ensures NoReuse(calls + (more + [p]))
  {
    var all := calls + (more + [p]);
    forall a, b | 0 <= a < b < |all| && all[a].Protect? && all[b].Protect?
      ensures !(all[a].key.secret == all[b].key.secret && all[a].nonce == all[b].nonce)
    {
      assert all[a] in calls;
      if b < |calls| { assert calls[a].Protect? && calls[b].Protect?; }
    }
  }

  lemma QuietNoReuse(calls: seq<Call>, more: seq<Call>)
    requires NoReuse(calls) && forall c | c in more :: !c.Protect?
    ensures NoReuse(calls + more)
  {
    var all := calls + more;
    forall k | |calls| <= k < |all| ensures !all[k].Protect? {
      assert all[k] == more[k - |calls|];
    }
    forall a, b | 0 <= a < b < |all| && all[a].Protect? && all[b].Protect?
      ensures !(all[a].key.secret == all[b].key.secret && all[a].nonce == all[b].nonce)
    {
      assert calls[a].Protect? && calls[b].Protect?;
    }
  }

  lemma QuietKeys(calls: seq<Call>, more: seq<Call>)
    requires ExportedKeys(calls) && forall c | c in more :: !c.Protect?
    ensures ExportedKeys(calls + more)
  {
    SecretStays(calls, more);
    forall c | c in calls + more && c.Protect? ensures SecretExported(calls + more, c.key.secret) {
      assert c in calls;
    }
  }

  /** At most one protection, last, under a nonce that `s` has not used and `s'` knows. */
  ghost predicate ProtectsLast<C>(s: Session<C>, s': Session<C>, own: bool, calls: seq<Call>) {
    && s'.ready == s.ready && s'.osc.key == s.osc.key && s.osc.seen <= s'.osc.seen && s.osc.ssn <= s'.osc.ssn
    && (forall c | c in calls :: !c.Export?)
    && (forall k :: 0 <= k < |calls| - 1 ==> !calls[k].Protect?)
    && (calls != [] && calls[|calls| - 1].Protect? ==>
          var p := calls[|calls| - 1];
          && s.ready && p.key == s.osc.key
          && ((p.nonce.id == s.osc.key.recipientId && p.nonce.piv !in s.osc.seen && p.nonce.piv in s'.osc.seen)
              || (own && p.nonce.id == s.osc.key.senderId && p.nonce.piv == s.osc.ssn && s'.osc.ssn == s.osc.ssn + 1)))
  }

  lemma InnerProtects<C>(s: Session<C>, d: Device<C>, piv: nat, q: Request, u: OscoreLib)
    requires EdhocSession.Inv(s) && s.ready && piv !in s.osc.seen && d.session == Accept(s, piv)
    requires CoapMessage.WellFormed(q.msg)
    ensures ProtectsLast(s, OnInner(d, piv, q, u).next.session, u.ownPiv, OnInner(d, piv, q, u).calls)
  {
    var calls := OnInner(d, piv, q, u).calls;
    var p := OnResponse(d.session, piv, CoapMessage.Serialize(Respond(d.led, q)), u).2;
    assert calls == LedCalls(d.led, q) + [p];
  }

  lemma OscoreCalls<C>(d: Device<C>, packet: bytes, u: OscoreLib)
    requires EdhocSession.Inv(d.session)
    ensures ProtectsLast(d.session, OnOscore(d, packet, u).next.session, u.ownPiv, OnOscore(d, packet, u).calls)
  {
    var answer := OpenOnce(d.session, packet, u);
    if d.session.ready && answer.Opened? {
      var d' := d.(session := Accept(d.session, answer.piv));
      var o := OnPlaintext(d', answer.piv, answer.plain, u);
      if CoapMessage.Parse(answer.plain).Ok? {
        CoapMessage.SerializeParse(answer.plain);
        InnerProtects(d.session, d', answer.piv, Request(CoapMessage.Parse(answer.plain).value, u.readable), u);
      }
      OneMore(d.session, o.next.session, u.ownPiv, answer.piv, o.calls);
    }
  }

  lemma OneMore<C>(s: Session<C>, s': Session<C>, own: bool, piv: nat, calls: seq<Call>)
    requires ProtectsLast(s, s', own, calls)
    ensures ProtectsLast(s, s', own, [Unprotect(piv)] + calls)
  {
    var more := [Unprotect(piv)] + calls;
    forall k | 0 <= k < |more| - 1 ensures !more[k].Protect? {
      if k > 0 { assert more[k] == calls[k - 1]; }
    }
  }

  /** The memory is complete after every packet, whatever the identifiers. */
  lemma OscoreStep<C>(d: Device<C>, packet: bytes, u: OscoreLib, calls: seq<Call>, own: bool)
    requires EdhocSession.Inv(d.session) && (u.ownPiv ==> own)
    requires Remembers(d.session, calls, own) && ExportedKeys(calls)
    ensures var o := OnOscore(d, packet, u);
            Remembers(o.next.session, calls + o.calls, own) && ExportedKeys(calls + o.calls)
  {
    var o := OnOscore(d, packet, u);
    OscoreCalls(d, packet, u);
    SecretStays(calls, o.calls);
    forall c | c in o.calls && c.Protect?
      ensures c == o.calls[|o.calls| - 1] && SecretExported(calls + o.calls, c.key.secret)
    {
      assert Export(true, d.session.osc.key) in calls;
    }
  }

  /** And then a nonce is new, if the two sources cannot meet. */
  lemma OscoreNoReuse<C>(d: Device<C>, packet: bytes, u: OscoreLib, calls: seq<Call>, own: bool)
    requires EdhocSession.Inv(d.session) && (u.ownPiv ==> own)
    requires Remembers(d.session, calls, own) && SourcesApart(d.session, own) && NoReuse(calls)
    ensures NoReuse(calls + OnOscore(d, packet, u).calls)
  {
    var o := OnOscore(d, packet, u);
    OscoreCalls(d, packet, u);
    if o.calls != [] && o.calls[|o.calls| - 1].Protect? {
      var more, p := o.calls[..|o.calls| - 1], o.calls[|o.calls| - 1];
      assert o.calls == more + [p];
      ProtectStep(calls, more, p);
    } else {
      QuietNoReuse(calls, o.calls);
    }
  }

  /** Over every run with fresh exported secrets, used keys are exported keys and the live context remembers. */
  lemma {:induction false} RunRemembers<C>(d: Device<C>, es: seq<Event<C>>, own: bool)
    requires Boot(d) && Valid(es) && FreshSecrets(Trace(d, es)) && (own || RequestNoncesOnly(es))
    ensures ExportedKeys(Trace(d, es)) && Remembers(Run(d, es).session, Trace(d, es), own)
    decreases |es|
  {
    if es != [] {
      var before, e := es[..|es| - 1], es[|es| - 1];
      var t, d1 := Trace(d, before), Run(d, before);
      PrefixIsFresh(t, Step(d1, e).calls);
      RunRemembers(d, before, own);
      RunKeepsInv(d, before);
      match e
      case Oscore(packet, u) => OscoreStep(d1, packet, u, t, own);
      case Plain(_) => QuietKeys(t, Step(d1, e).calls);
      case Edhoc(request, lib) =>
        if IsFrame(e) { FrameStep(d1.session, Framing.Strip(request.payload).value, lib, t, own); }
        QuietKeys(t, Step(d1, e).calls);
    }
  }

  /**
   * Over every run: given fresh exported secrets, no (key, nonce) pair is used
   * twice, neither inside one OSCORE context nor across re-keying.  If responses
   * reuse their requests' nonces that is all it takes; if the library may also
   * count its own Partial IVs, the two identifiers have to differ.
   */
  lemma {:induction false} NoNonceReuse<C>(d: Device<C>, es: seq<Event<C>>)
    requires Boot(d) && Valid(es)
    requires FreshSecrets(Trace(d, es))
    requires RequestNoncesOnly(es) || DistinctIds(Trace(d, es))
    ensures NoReuse(Trace(d, es))
    decreases |es|
  {
    if es != [] {
      var before, e := es[..|es| - 1], es[|es| - 1];
      var own := !RequestNoncesOnly(es);
      var t, d1 := Trace(d, before), Run(d, before);
      PrefixIsFresh(t, Step(d1, e).calls);
      NoNonceReuse(d, before);
      RunRemembers(d, before, own);
      RunKeepsInv(d, before);
      match e
      case Oscore(packet, u) => OscoreNoReuse(d1, packet, u, t, own);
      case _ =>
        NothingProtected(d1, e);
        QuietNoReuse(t, Step(d1, e).calls);
    }
  }

  lemma NothingProtected<C>(d: Device<C>, e: Event<C>)
    requires ValidEvent(e) && !e.Oscore?
    ensures forall c | c in Step(d, e).calls :: !c.Protect?
  {
  }

  // ---- the condition is exact ----

  /** `all` is `es` followed by OSCORE traffic. */
  ghost predicate Continues<C>(es: seq<Event<C>>, all: seq<Event<C>>) {
    es <= all && forall k :: |es| <= k < |all| ==> all[k].Oscore?
  }

  /** Different identifiers keep every OSCORE continuation free of reuse. */
  lemma {:induction false} DistinctKeepsFresh<C>(d: Device<C>, es: seq<Event<C>>, all: seq<Event<C>>)
    requires Boot(d) && Valid(es) && FreshSecrets(Trace(d, es)) && NoReuse(Trace(d, es))
    requires SourcesApart(Run(d, es).session, true) && Continues(es, all)
    ensures Valid(all) && SourcesApart(Run(d, all).session, true)
    ensures Remembers(Run(d, all).session, Trace(d, all), true)
    ensures ExportedKeys(Trace(d, all)) && NoReuse(Trace(d, all))
    decreases |all|
  {
    if all == es {
      RunRemembers(d, es, true);
    } else {
      var before, e := all[..|all| - 1], all[|all| - 1];
      DistinctKeepsFresh(d, es, before);
      RunKeepsInv(d, before);
      var d1, t := Run(d, before), Trace(d, before);
      OscoreStep(d1, e.packet, e.uoscore, t, true);
      OscoreNoReuse(d1, e.packet, e.uoscore, t, true);
      OscoreCalls(d1, e.packet, e.uoscore);
    }
  }

  /** An inner request that every server understands. */
  const PROBE := CoapMessage.Message(0, GET, 0, [], [], [])

  /** A packet with Partial IV `piv`, answered under the request's nonce or under the device's own. */
  function Packet<C>(piv: nat, own: bool): Event<C> {
    Oscore([], OscoreLib((_, _) => Opened(piv, CoapMessage.Serialize(PROBE)), true, own, true, (_, _, out) => out))
  }

  /** The context after such a packet, and the nonce of its answer. */
  function Used(osc: OscoreContext, piv: nat, own: bool): OscoreContext {
    osc.(seen := osc.seen + {piv}, ssn := osc.ssn + if own then 1 else 0)
  }

  function NonceOf(osc: OscoreContext, piv: nat, own: bool): Nonce {
    if own then Nonce(osc.key.senderId, osc.ssn) else Nonce(osc.key.recipientId, piv)
  }

  /** What such a packet does to a ready device that has not seen its Partial IV. */
  lemma PacketAnswered<C>(d: Device<C>, piv: nat, own: bool)
    requires EdhocSession.Inv(d.session) && d.session.ready && piv !in d.session.osc.seen
    ensures var o := Step(d, Packet(piv, own));
            && o.next.session == d.session.(osc := Used(d.session.osc, piv, own))
            && o.calls == [Unprotect(piv), Protect(d.session.osc.key, NonceOf(d.session.osc, piv, own))]
  {
    CoapMessage.ParseSerialize(PROBE);
  }

  /** One more such packet at the end of a run. */
  lemma OneMorePacket<C>(d: Device<C>, es: seq<Event<C>>, piv: nat, own: bool) returns (all: seq<Event<C>>)
    requires Valid(es)
    requires var s := Run(d, es).session; EdhocSession.Inv(s) && s.ready && piv !in s.osc.seen
    ensures Continues(es, all) && Valid(all)
    ensures var s := Run(d, es).session;
            && Run(d, all).session == s.(osc := Used(s.osc, piv, own))
            && Trace(d, all) == Trace(d, es) + [Unprotect(piv), Protect(s.osc.key, NonceOf(s.osc, piv, own))]
  {
    all := es + [Packet(piv, own)];
    PacketAnswered(Run(d, es), piv, own);
    assert all[..|es|] == es;
  }

  /** Answers under the device's own counter move it on by any distance. */
  lemma {:induction false} CountOn<C>(d: Device<C>, es: seq<Event<C>>, base: nat, n: nat) returns (all: seq<Event<C>>)
    requires Valid(es)
    requires var s := Run(d, es).session; EdhocSession.Inv(s) && s.ready && forall p | p in s.osc.seen :: p < base
    ensures Continues(es, all) && Valid(all) && Trace(d, es) <= Trace(d, all)
    ensures var s, s' := Run(d, es).session, Run(d, all).session;
            && EdhocSession.Inv(s') && s'.ready && s'.osc.key == s.osc.key
            && s'.osc.ssn == s.osc.ssn + n && forall p | p in s'.osc.seen :: p < base + n
    decreases n
  {
    all := es;
    if n > 0 {
      var before := CountOn(d, es, base, n - 1);
      all := OneMorePacket(d, before, base + n - 1, true);
    }
  }

  lemma {:induction false} UpperBound(s: set<nat>) returns (b: nat)
    ensures forall p | p in s :: p < b
    decreases s
  {
    if s == {} {
      b := 0;
    } else {
      var x :| x in s;
      var c := UpperBound(s - {x});
      b := if x < c then c else x + 1;
      forall p | p in s ensures p < b { assert p == x || p in s - {x}; }
    }
  }

  /**
   * Equal identifiers: some continuation protects two responses under one
   * nonce.  A request's nonce is used for a Partial IV ahead of the device's own
   * counter, and the counter catches up with it.
   */
  lemma EqualIdsMeet<C>(d: Device<C>, es: seq<Event<C>>) returns (all: seq<Event<C>>)
    requires Valid(es)
    requires var s := Run(d, es).session;
             EdhocSession.Inv(s) && s.ready && s.osc.key.senderId == s.osc.key.recipientId
    ensures Continues(es, all) && Valid(all) && !NoReuse(Trace(d, all))
  {
    var osc := Run(d, es).session.osc;
    var bound := UpperBound(osc.seen);
    var base := if bound < osc.ssn then osc.ssn else bound;
    var first := OneMorePacket(d, es, base, false);
    var later := CountOn(d, first, base + 1, base - osc.ssn);
    all := OneMorePacket(d, later, 2 * base + 1 - osc.ssn, true);
    UsedTwice(Trace(d, all), |Trace(d, first)| - 1, |Trace(d, all)| - 1);
  }

  lemma UsedTwice(calls: seq<Call>, a: nat, b: nat)
    requires a < b < |calls| && calls[a].Protect? && calls[a] == calls[b]
    ensures !NoReuse(calls)
  {
  }

  /**
   * Exactness.  Take any reachable state in which the device answers OSCORE and
   * no pair has been used twice yet.  All OSCORE traffic to come, under any
   * choice of nonces by the library, keeps it so if and only if the Sender ID
   * and the Recipient ID of the live context differ.
   */
  lemma DistinctIdsExact<C>(d: Device<C>, es: seq<Event<C>>)
    requires Boot(d) && Valid(es) && FreshSecrets(Trace(d, es)) && NoReuse(Trace(d, es))
    requires Run(d, es).session.ready
    ensures var s := Run(d, es).session;
            (forall all: seq<Event<C>> :: Continues(es, all) ==> Valid(all) && NoReuse(Trace(d, all)))
            <==> s.osc.key.senderId != s.osc.key.recipientId
  {
    var key := Run(d, es).session.osc.key;
    if key.senderId != key.recipientId {
      forall all: seq<Event<C>> | Continues(es, all) ensures Valid(all) && NoReuse(Trace(d, all)) {
        DistinctKeepsFresh(d, es, all);
      }
    } else {
      RunKeepsInv(d, es);
      var all := EqualIdsMeet(d, es);
    }
  }
}
