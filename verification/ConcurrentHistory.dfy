/**
 * The whole-run results for concurrent callers: whatever the interleaving, the
 * state the mutex protects and the answers given are those of a sequential run
 * of the device, so everything proved of runs holds of it.
 */
module ConcurrentHistory {
  import opened Bytes
  import opened CoapMessage
  import opened DeviceHistory
  import opened EdhocSession
  import opened Framing
  import opened Handlers
  import opened Interleaving

  /** `edhoc_post` called with the request of `e`. */
  function PostOf<C>(e: Event<C>): Post<C, bytes>
    requires e.Edhoc? && ValidEvent(e)
  {
    Post(Strip(e.request.payload), e.lib, (out: Option<bytes>) => Reply(e.request, out))
  }

  /** `EdhocReply`, made total. */
  function Reply(request: Message, out: Option<bytes>): Return {
    if WellFormed(request) then EdhocReply(request, out) else BadMessage
  }

  ghost predicate Calls<C>(es: seq<Event<C>>) {
    forall k :: 0 <= k < |es| ==> es[k].Edhoc? && ValidEvent(es[k])
  }

  function Posts<C>(es: seq<Event<C>>): seq<Post<C, bytes>>
    requires Calls(es)
  {
    seq(|es|, i requires 0 <= i < |es| => PostOf(es[i]))
  }

  ghost predicate Indices(order: seq<nat>, n: nat) {
    forall k :: 0 <= k < |order| ==> order[k] < n
  }

  /** The calls in the order in which they took the mutex. */
  function InOrder<C>(es: seq<Event<C>>, order: seq<nat>): seq<Event<C>>
    requires Indices(order, |es|)
  {
    seq(|order|, k requires 0 <= k < |order| => es[order[k]])
  }

  lemma {:induction false} SerialIsRun<C>(d: Device<C>, es: seq<Event<C>>, order: seq<nat>)
    requires Calls(es) && Indices(order, |es|) && Runnable(Posts(es), order)
    ensures Valid(InOrder(es, order))
    ensures Run(d, InOrder(es, order)).session == SerialState(Posts(es), d.session, order)
    decreases |order|
  {
    if order != [] {
      var n := |order| - 1;
      SerialIsRun(d, es, order[..n]);
      assert InOrder(es, order)[..n] == InOrder(es, order[..n]);
    }
  }

  lemma SerialResultIsStep<C>(d: Device<C>, es: seq<Event<C>>, order: seq<nat>, k: nat)
    requires Calls(es) && Indices(order, |es|) && Runnable(Posts(es), order) && k < |order|
    ensures var run := InOrder(es, order);
            Valid(run) && SerialResult(Posts(es), d.session, order, k) == Step(Run(d, run[..k]), run[k]).result
  {
    SerialIsRun(d, es, order);
    SerialIsRun(d, es, order[..k]);
    assert InOrder(es, order)[..k] == InOrder(es, order[..k]);
    PostIsStep(Run(d, InOrder(es, order[..k])), es[order[k]]);
  }

  lemma PostIsStep<C>(d: Device<C>, e: Event<C>)
    requires e.Edhoc? && ValidEvent(e)
    ensures var p := PostOf(e);
            if p.frame.None? then Step(d, e) == Effect(d, Invalid, [])
            else Step(d, e).result == p.reply(OnFrame(d.session, p.frame.value, p.lib).reply)
  {
  }

  /**
   * After any schedule of any number of concurrent POSTs to a device in state
   * `d`: whenever the mutex is free the session is that of the sequential run of
   * the calls in lock-acquisition order, and every call that has returned got
   * the very packet or error code it gets in that run, reply building included.
   */
  lemma ConcurrentIsSequential<C>(d: Device<C>, es: seq<Event<C>>, schedule: seq<nat>)
    requires Calls(es)
    ensures var y := Execute(Posts(es), Start(Posts(es), d.session), schedule);
            && Indices(y.order, |es|) && Distinct(y.order)
            && var run := InOrder(es, y.order);
               && Valid(run)
               && (y.holder.None? ==> y.s == Run(d, run).session)
               && (forall k :: 0 <= k < |run| && y.pcs[y.order[k]].Returned? ==>
                     y.pcs[y.order[k]].result == Step(Run(d, run[..k]), run[k]).result)
               && (forall t :: 0 <= t < |es| && y.pcs[t].Returned? && t !in y.order ==>
                     y.pcs[t].result == Step(d, es[t]).result == Invalid)
  {
    var posts := Posts(es);
    Serialisable(posts, d.session, schedule);
    var y := Execute(posts, Start(posts, d.session), schedule);
    assert Indices(y.order, |es|) by {
      forall k | 0 <= k < |y.order| ensures y.order[k] < |es| { assert y.order[k] < |posts|; }
    }
    SerialIsRun(d, es, y.order);
    forall k | 0 <= k < |y.order| { SerialResultIsStep(d, es, y.order, k); }
    forall t | 0 <= t < |es| { PostIsStep(d, es[t]); }
  }

  /**
   * So in every lock-free state of every interleaving the flags are the history
   * of the calls in lock-acquisition order, the buffers under a live context
   * are those it was initialised with, and the context ledger balances.
   */
  lemma ConcurrentHistoryHolds<C>(d: Device<C>, es: seq<Event<C>>, schedule: seq<nat>)
    requires Boot(d) && Calls(es)
    ensures var y := Execute(Posts(es), Start(Posts(es), d.session), schedule);
            Indices(y.order, |es|) &&
            var run := InOrder(es, y.order);
            y.holder.None? ==>
              && (y.s.active <==> SomePending(run))
              && (y.s.ready <==> SomeLive(run))
              && EdhocSession.Inv(y.s)
              && Valid(run) && LedgerOk(Trace(d, run)) && Balance(Trace(d, run)) == Level(y.s)
              && (y.s.ready ==> LastInit(Trace(d, run), y.s.osc.key))
  {
    ConcurrentIsSequential(d, es, schedule);
    var y := Execute(Posts(es), Start(Posts(es), d.session), schedule);
    if y.holder.None? {
      var run := InOrder(es, y.order);
      FlagsAreHistory(d, run);
      RunKeepsInv(d, run);
      ContextLedger(d, run);
      if y.s.ready { AliasingSafety(d, run); }
    }
  }
}
