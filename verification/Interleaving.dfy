/**
 * Concurrent `edhoc_post` calls, one C statement or library call at a time.
 *
 * Any number of threads run the handler; `edhoc_mtx` is the only thing that
 * orders them.  The theorem is that every schedule is equivalent to running the
 * calls one after the other in the order in which they took the mutex.
 */
module Interleaving {
  import opened Bytes
  import opened EdhocSession
  import opened Handlers

  /**
   * One POST: a `frame` of `None` is a payload that is refused before the mutex
   * (406-428); `reply` is what the handler makes of the message in `out_buf`,
   * or of its absence, once the mutex is released (496-527).
   */
  datatype Post<!C, !M> = Post(frame: Option<Frame<M>>, lib: EdhocLib<C, M>, reply: Option<M> -> Return)

  /**
   * Where a thread stands.  `rc` is the C local `rc == EDHOC_SUCCESS`, `out`
   * the contents of `out_buf`, `x` the locals of `derive_and_init_oscore`.
   */
  datatype Pc<M> =
    | Called
    | Reset                                     // 442-445, lock held from here
    | ClearReady                                // 446
    | SetUp                                     // 448-450
    | Process1                                  // 451
    | Compose2                                  // 454
    | CleanUp(rc: bool, out: Option<M>)         // 456-462
    | CheckActive                               // 464
    | Process3                                  // 468
    | Compose4                                  // 480
    | ExportKeys(out: Option<M>)                // 310
    | InitOscore(x: ExportAnswer, out: Option<M>)   // 337
    | RaiseReady(out: Option<M>)                // 342
    | Finish(rc: bool, out: Option<M>)          // 489
    | ClearActive(rc: bool, out: Option<M>)     // 490
    | Unlock(rc: bool, out: Option<M>)          // 494
    | Unlocked(rc: bool, out: Option<M>)        // 496-527
    | Returned(result: Return)

  predicate InCritical<M>(pc: Pc<M>) {
    !pc.Called? && !pc.Unlocked? && !pc.Returned?
  }

  /** One step inside the critical section, by the thread that holds the mutex. */
  function Advance<C, M>(p: Post<C, M>, pc: Pc<M>, s: Session<C>): (Pc<M>, Session<C>)
    requires p.frame.Some? && InCritical(pc) && !pc.Unlock?
  {
    var m := p.frame.value.msg;
    var lib := p.lib;
    match pc
    case Reset =>
      (ClearReady, if s.active then s.(active := false, ctx := lib.deinit(s.ctx)) else s)
    case ClearReady => (SetUp, s.(ready := false))
    case SetUp =>
      if lib.setupOk then (Process1, s.(active := true, ctx := lib.setupCtx))
      else (CleanUp(false, None), s.(ctx := lib.setupCtx))
    case Process1 =>
      var (ok, c) := lib.process1(s.ctx, m);
      (if ok then Compose2 else CleanUp(false, None), s.(ctx := c))
    case Compose2 =>
      var (ok, c, m2) := lib.compose2(s.ctx);
      (CleanUp(ok, Some(m2)), s.(ctx := c))
    case CleanUp(rc, out) =>
      (Unlock(rc, out), if !rc && s.active then s.(active := false, ctx := lib.deinit(s.ctx)) else s)
    case CheckActive =>
      (if s.active then Process3 else Unlock(false, None), s)
    case Process3 =>
      var (ok, c) := lib.process3(s.ctx, m);
      (if ok then Compose4 else Finish(false, None), s.(ctx := c))
    case Compose4 =>
      var (ok, c, m4) := lib.compose4(s.ctx);
      (if ok then ExportKeys(Some(m4)) else Finish(false, None), s.(ctx := c))
    case ExportKeys(out) =>
      var x := lib.exportKeys(s.ctx);
      (if x.ok then InitOscore(x, out) else Finish(false, out), s.(bufs := x.bufs))
    case InitOscore(x, out) =>
      if lib.initOk(x.Params()) then
        (RaiseReady(out), s.(osc := OscoreContext(x.Params(), x.senderLen, {}, 0)))
      else (Finish(false, out), s.(osc := lib.brokenOsc))
    case RaiseReady(out) => (Finish(true, out), s.(ready := true))
    case Finish(rc, out) => (ClearActive(rc, out), s.(ctx := lib.deinit(s.ctx)))
    case ClearActive(rc, out) => (Unlock(rc, out), s.(active := false))
  }

  /** Steps still to go before the unlock. */
  function Distance<M>(pc: Pc<M>): nat {
    match pc
    case Reset => 7 case ClearReady => 6 case SetUp => 5 case Process1 => 4 case Compose2 => 3 case CleanUp(_, _) => 2
    case CheckActive => 9 case Process3 => 8 case Compose4 => 7 case ExportKeys(_) => 6 case InitOscore(_, _) => 5
    case RaiseReady(_) => 4 case Finish(_, _) => 3 case ClearActive(_, _) => 2
    case _ => 1
  }

  /** Running on alone from `pc` to the unlock: the return code, `out_buf` and the session. */
  function RunOn<C, M>(p: Post<C, M>, pc: Pc<M>, s: Session<C>): (bool, Option<M>, Session<C>)
    requires p.frame.Some? && InCritical(pc)
    decreases Distance(pc)
  {
    if pc.Unlock? then (pc.rc, pc.out, s)
    else var (pc', s') := Advance(p, pc, s); RunOn(p, pc', s')
  }

  function Entry<M>(f: Frame<M>): Pc<M> {
    if f.Message1? then Reset else CheckActive
  }

  /** The return value of the call, from its locals after the unlock. */
  function ResultOf<C, M>(p: Post<C, M>, rc: bool, out: Option<M>): Return {
    p.reply(if rc then out else None)
  }

  // ---- the interleaved system ----

  /** `order` lists the threads in the order in which they took the mutex. */
  datatype System<C, M> = System(s: Session<C>, holder: Option<nat>, pcs: seq<Pc<M>>, order: seq<nat>)

  function Start<C, M>(posts: seq<Post<C, M>>, s0: Session<C>): System<C, M> {
    System(s0, None, seq(|posts|, _ => Called), [])
  }

  /** Thread `t` is scheduled; a thread waiting for the mutex or finished stays put. */
  function Schedule<C, M>(posts: seq<Post<C, M>>, y: System<C, M>, t: nat): System<C, M>
    requires |y.pcs| == |posts|
  {
    if t >= |posts| then y
    else
      var p := posts[t];
      match y.pcs[t]
      case Returned(_) => y
      case Unlocked(rc, out) => y.(pcs := y.pcs[t := Returned(ResultOf(p, rc, out))])
      case Called =>
        if p.frame.None? then y.(pcs := y.pcs[t := Returned(Invalid)])
        else if y.holder.Some? then y
        else y.(holder := Some(t), pcs := y.pcs[t := Entry(p.frame.value)], order := y.order + [t])
      case Unlock(rc, out) => y.(holder := None, pcs := y.pcs[t := Unlocked(rc, out)])
      case pc =>
        if p.frame.None? then y
        else var (pc', s') := Advance(p, pc, y.s); y.(s := s', pcs := y.pcs[t := pc'])
  }

  function Execute<C, M>(posts: seq<Post<C, M>>, y: System<C, M>, schedule: seq<nat>): (y': System<C, M>)
    requires |y.pcs| == |posts|
    ensures |y'.pcs| == |posts|
    decreases |schedule|
  {
    if schedule == [] then y
    else Schedule(posts, Execute(posts, y, schedule[..|schedule| - 1]), schedule[|schedule| - 1])
  }

  // ---- the serial reference ----

  ghost predicate Runnable<C, M>(posts: seq<Post<C, M>>, order: seq<nat>) {
    forall k :: 0 <= k < |order| ==> order[k] < |posts| && posts[order[k]].frame.Some?
  }

  /** The session after handling the posts in `order` one at a time. */
  ghost function SerialState<C, M>(posts: seq<Post<C, M>>, s0: Session<C>, order: seq<nat>): Session<C>
    requires Runnable(posts, order)
    decreases |order|
  {
    if order == [] then s0
    else
      var p := posts[order[|order| - 1]];
      OnFrame(SerialState(posts, s0, order[..|order| - 1]), p.frame.value, p.lib).next
  }

  /** What the `k`-th of them is answered. */
  ghost function SerialResult<C, M>(posts: seq<Post<C, M>>, s0: Session<C>, order: seq<nat>, k: nat): Return
    requires Runnable(posts, order) && k < |order|
  {
    var p := posts[order[k]];
    p.reply(OnFrame(SerialState(posts, s0, order[..k]), p.frame.value, p.lib).reply)
  }

  // ---- the critical section computes the atomic step ----

  lemma RunOnMessage1<C, M>(p: Post<C, M>, s: Session<C>)
    requires p.frame.Some? && p.frame.value.Message1?
    ensures var o := OnFrame(s, p.frame.value, p.lib);
            var (rc, out, s') := RunOn(p, Reset, s);
            s' == o.next && rc == o.reply.Some? && (rc ==> out == o.reply)
  {
  }

  lemma RunOnMessage3<C, M>(p: Post<C, M>, s: Session<C>)
    requires p.frame.Some? && p.frame.value.Message3?
    ensures var o := OnFrame(s, p.frame.value, p.lib);
            var (rc, out, s') := RunOn(p, CheckActive, s);
            s' == o.next && rc == o.reply.Some? && (rc ==> out == o.reply)
  {
    if s.active {
      var (a, s1) := Advance(p, Process3, s);
      assert RunOn(p, CheckActive, s) == RunOn(p, a, s1);
      if a.Compose4? {
        var (b, s2) := Advance(p, a, s1);
        assert RunOn(p, a, s1) == RunOn(p, b, s2);
        if b.ExportKeys? {
          var (c, s3) := Advance(p, b, s2);
          assert RunOn(p, b, s2) == RunOn(p, c, s3);
          if c.InitOscore? {
            var (d, s4) := Advance(p, c, s3);
            assert RunOn(p, c, s3) == RunOn(p, d, s4);
            if d.RaiseReady? {
              var (e, s5) := Advance(p, d, s4);
              assert RunOn(p, d, s4) == RunOn(p, e, s5);
              RunOnFinish(p, e, s5);
            } else { RunOnFinish(p, d, s4); }
          } else { RunOnFinish(p, c, s3); }
        } else { RunOnFinish(p, b, s2); }
      } else { RunOnFinish(p, a, s1); }
    }
  }

  lemma RunOnFinish<C, M>(p: Post<C, M>, pc: Pc<M>, s: Session<C>)
    requires p.frame.Some? && pc.Finish?
    ensures RunOn(p, pc, s) == (pc.rc, pc.out, s.(ctx := p.lib.deinit(s.ctx), active := false))
  {
    var (a, s1) := Advance(p, pc, s);
    assert RunOn(p, pc, s) == RunOn(p, a, s1);
  }

  // ---- the invariant of every interleaving ----

  /** What thread `t`, the `k`-th to take the mutex, has left or will leave behind. */
  ghost predicate Consistent<C, M>(posts: seq<Post<C, M>>, s0: Session<C>, y: System<C, M>, k: nat)
    requires |y.pcs| == |posts| && Runnable(posts, y.order) && k < |y.order|
  {
    var t := y.order[k];
    match y.pcs[t]
    case Called => false
    case Returned(r) => r == SerialResult(posts, s0, y.order, k)
    case Unlocked(rc, out) => ResultOf(posts[t], rc, out) == SerialResult(posts, s0, y.order, k)
    case pc =>
      && y.holder == Some(t)
      && k == |y.order| - 1
      && var (rc, out, s') := RunOn(posts[t], pc, y.s);
         && s' == SerialState(posts, s0, y.order)
         && ResultOf(posts[t], rc, out) == SerialResult(posts, s0, y.order, k)
  }

  ghost predicate Distinct(order: seq<nat>) {
    forall i, j :: 0 <= i < j < |order| ==> order[i] != order[j]
  }

  ghost predicate Inv<C, M>(posts: seq<Post<C, M>>, s0: Session<C>, y: System<C, M>) {
    && |y.pcs| == |posts|
    && Runnable(posts, y.order)
    && Distinct(y.order)
    && (forall k :: 0 <= k < |y.order| ==> Consistent(posts, s0, y, k))
    && (forall t :: 0 <= t < |posts| && t !in y.order ==>
          y.pcs[t] == Called || (posts[t].frame.None? && y.pcs[t] == Returned(Invalid)))
    && match y.holder
       case None => y.s == SerialState(posts, s0, y.order) && forall t :: 0 <= t < |posts| ==> !InCritical(y.pcs[t])
       case Some(h) => y.order != [] && h == y.order[|y.order| - 1] && InCritical(y.pcs[h])
  }

  lemma SerialPrefix<C, M>(posts: seq<Post<C, M>>, s0: Session<C>, order: seq<nat>, t: nat, k: nat)
    requires Runnable(posts, order + [t]) && k < |order|
    ensures Runnable(posts, order)
    ensures SerialResult(posts, s0, order + [t], k) == SerialResult(posts, s0, order, k)
  {
    forall i | 0 <= i < |order| ensures order[i] < |posts| && posts[order[i]].frame.Some? {
      assert (order + [t])[i] == order[i];
    }
    assert (order + [t])[..k] == order[..k];
  }

  function Acquired<C, M>(y: System<C, M>, t: nat, f: Frame<M>): System<C, M>
    requires t < |y.pcs|
  {
    y.(holder := Some(t), pcs := y.pcs[t := Entry(f)], order := y.order + [t])
  }

  /** Taking the mutex starts the atomic step on the state the mutex protects. */
  lemma AcquireKeepsInv<C, M>(posts: seq<Post<C, M>>, s0: Session<C>, y: System<C, M>, t: nat)
    requires Inv(posts, s0, y) && t < |posts|
    requires y.pcs[t].Called? && posts[t].frame.Some? && y.holder.None?
    ensures Inv(posts, s0, Acquired(y, t, posts[t].frame.value))
  {
    var y' := Acquired(y, t, posts[t].frame.value);
    forall k | 0 <= k < |y.order| ensures y.order[k] != t {
      assert Consistent(posts, s0, y, k);
    }
    forall k | 0 <= k < |y'.order| ensures Consistent(posts, s0, y', k) {
      if k < |y.order| {
        SerialPrefix(posts, s0, y.order, t, k);
        assert Consistent(posts, s0, y, k);
      } else {
        AcquirePromises(posts, s0, y, t);
      }
    }
  }

  /** The new holder promises the next serial step. */
  lemma AcquirePromises<C, M>(posts: seq<Post<C, M>>, s0: Session<C>, y: System<C, M>, t: nat)
    requires |y.pcs| == |posts| && t < |posts| && posts[t].frame.Some?
    requires Runnable(posts, y.order) && y.s == SerialState(posts, s0, y.order)
    ensures var y' := Acquired(y, t, posts[t].frame.value);
            Runnable(posts, y'.order) && Consistent(posts, s0, y', |y.order|)
  {
    RunOnFrame(posts[t], y.s);
    var (rc, out, s') := RunOn(posts[t], Entry(posts[t].frame.value), y.s);
    SerialStep(posts, s0, y.order, t, rc, out, s');
  }

  lemma RunOnFrame<C, M>(p: Post<C, M>, s: Session<C>)
    requires p.frame.Some?
    ensures var o := OnFrame(s, p.frame.value, p.lib);
            var (rc, out, s') := RunOn(p, Entry(p.frame.value), s);
            s' == o.next && rc == o.reply.Some? && (rc ==> out == o.reply)
  {
    if p.frame.value.Message1? { RunOnMessage1(p, s); } else { RunOnMessage3(p, s); }
  }

  /** One more call at the end of the serial run. */
  lemma SerialStep<C, M>(posts: seq<Post<C, M>>, s0: Session<C>, order: seq<nat>, t: nat,
                         rc: bool, out: Option<M>, s': Session<C>)
    requires Runnable(posts, order) && t < |posts| && posts[t].frame.Some?
    requires var o := OnFrame(SerialState(posts, s0, order), posts[t].frame.value, posts[t].lib);
             s' == o.next && rc == o.reply.Some? && (rc ==> out == o.reply)
    ensures Runnable(posts, order + [t]) && s' == SerialState(posts, s0, order + [t])
    ensures ResultOf(posts[t], rc, out) == SerialResult(posts, s0, order + [t], |order|)
  {
    assert (order + [t])[..|order|] == order;
  }

  /** Inside the critical section the promised outcome does not move. */
  lemma InsideKeepsInv<C, M>(posts: seq<Post<C, M>>, s0: Session<C>, y: System<C, M>, t: nat, pc: Pc<M>, s: Session<C>)
    requires Inv(posts, s0, y) && t < |posts| && InCritical(y.pcs[t]) && InCritical(pc)
    requires posts[t].frame.Some? && RunOn(posts[t], pc, s) == RunOn(posts[t], y.pcs[t], y.s)
    ensures Inv(posts, s0, y.(s := s, pcs := y.pcs[t := pc]))
  {
    var y' := y.(s := s, pcs := y.pcs[t := pc]);
    var k := Turn(posts, s0, y, t);
    forall j | 0 <= j < |y'.order| ensures Consistent(posts, s0, y', j) {
      assert Consistent(posts, s0, y, j);
    }
  }

  /** The thread inside the critical section holds the mutex and took it last. */
  lemma Turn<C, M>(posts: seq<Post<C, M>>, s0: Session<C>, y: System<C, M>, t: nat) returns (k: nat)
    requires Inv(posts, s0, y) && t < |posts| && InCritical(y.pcs[t])
    ensures k == |y.order| - 1 && y.order[k] == t && y.holder == Some(t) && posts[t].frame.Some?
    ensures Consistent(posts, s0, y, k)
  {
    assert t in y.order;
    k :| 0 <= k < |y.order| && y.order[k] == t;
    assert Consistent(posts, s0, y, k);
  }

  /** Releasing the mutex publishes exactly the atomic step's state. */
  lemma UnlockKeepsInv<C, M>(posts: seq<Post<C, M>>, s0: Session<C>, y: System<C, M>, t: nat)
    requires Inv(posts, s0, y) && t < |posts| && y.pcs[t].Unlock?
    ensures Inv(posts, s0, Schedule(posts, y, t))
  {
    var y' := Schedule(posts, y, t);
    var k := Turn(posts, s0, y, t);
    forall j | 0 <= j < |y'.order| ensures Consistent(posts, s0, y', j) {
      assert Consistent(posts, s0, y, j);
    }
    forall u | 0 <= u < |posts| ensures !InCritical(y'.pcs[u]) {
      if InCritical(y.pcs[u]) {
        var j := Turn(posts, s0, y, u);
      }
    }
  }

  lemma AdvanceKeepsInv<C, M>(posts: seq<Post<C, M>>, s0: Session<C>, y: System<C, M>, t: nat)
    requires Inv(posts, s0, y) && t < |posts| && InCritical(y.pcs[t]) && !y.pcs[t].Unlock?
    ensures Inv(posts, s0, Schedule(posts, y, t))
  {
    var k := Turn(posts, s0, y, t);
    var (pc, s) := Advance(posts[t], y.pcs[t], y.s);
    InsideKeepsInv(posts, s0, y, t, pc, s);
  }

  lemma ScheduleKeepsInv<C, M>(posts: seq<Post<C, M>>, s0: Session<C>, y: System<C, M>, t: nat)
    requires Inv(posts, s0, y)
    ensures Inv(posts, s0, Schedule(posts, y, t))
  {
    if t < |posts| {
      if y.pcs[t].Unlock? {
        UnlockKeepsInv(posts, s0, y, t);
      } else if InCritical(y.pcs[t]) {
        AdvanceKeepsInv(posts, s0, y, t);
      } else if y.pcs[t].Called? && posts[t].frame.Some? && y.holder.None? {
        AcquireKeepsInv(posts, s0, y, t);
      } else if y.pcs[t].Unlocked? {
        OutsideKeepsInv(posts, s0, y, t, ResultOf(posts[t], y.pcs[t].rc, y.pcs[t].out));
      } else if y.pcs[t].Called? && posts[t].frame.None? {
        OutsideKeepsInv(posts, s0, y, t, Invalid);
      }
    }
  }

  /** Returning, or being refused, touches nothing that is shared. */
  lemma OutsideKeepsInv<C, M>(posts: seq<Post<C, M>>, s0: Session<C>, y: System<C, M>, t: nat, r: Return)
    requires Inv(posts, s0, y) && t < |posts|
    requires (y.pcs[t].Called? && posts[t].frame.None? && r == Invalid)
             || (y.pcs[t].Unlocked? && r == ResultOf(posts[t], y.pcs[t].rc, y.pcs[t].out))
    ensures Inv(posts, s0, y.(pcs := y.pcs[t := Returned(r)]))
  {
    var y' := y.(pcs := y.pcs[t := Returned(r)]);
    forall j | 0 <= j < |y'.order| ensures Consistent(posts, s0, y', j) {
      assert Consistent(posts, s0, y, j);
    }
  }

  lemma {:induction false} ExecuteKeepsInv<C, M>(posts: seq<Post<C, M>>, s0: Session<C>, schedule: seq<nat>)
    ensures Inv(posts, s0, Execute(posts, Start(posts, s0), schedule))
    decreases |schedule|
  {
    if schedule != [] {
      var before := schedule[..|schedule| - 1];
      ExecuteKeepsInv(posts, s0, before);
      ScheduleKeepsInv(posts, s0, Execute(posts, Start(posts, s0), before), schedule[|schedule| - 1]);
    }
  }

  /**
   * Serialisability.  After any schedule, finished or not: every call that has
   * returned was answered as in the serial run over the lock-acquisition order
   * (or was refused without touching anything), no call appears twice in that
   * order, and whenever the mutex is free the session is the serial one.
   */
  lemma Serialisable<C, M>(posts: seq<Post<C, M>>, s0: Session<C>, schedule: seq<nat>)
    ensures var y := Execute(posts, Start(posts, s0), schedule);
            && Runnable(posts, y.order) && Distinct(y.order)
            && (y.holder.None? ==> y.s == SerialState(posts, s0, y.order))
            && (forall k :: 0 <= k < |y.order| && y.pcs[y.order[k]].Returned? ==>
                  y.pcs[y.order[k]].result == SerialResult(posts, s0, y.order, k))
            && (forall t :: 0 <= t < |posts| && y.pcs[t].Returned? ==>
                  (t in y.order <==> posts[t].frame.Some?) && (posts[t].frame.None? ==> y.pcs[t].result == Invalid))
  {
    ExecuteKeepsInv(posts, s0, schedule);
    var y := Execute(posts, Start(posts, s0), schedule);
    forall k | 0 <= k < |y.order| && y.pcs[y.order[k]].Returned?
      ensures y.pcs[y.order[k]].result == SerialResult(posts, s0, y.order, k)
    {
      assert Consistent(posts, s0, y, k);
    }
    forall t | 0 <= t < |posts| && y.pcs[t].Returned?
      ensures (t in y.order <==> posts[t].frame.Some?) && (posts[t].frame.None? ==> y.pcs[t].result == Invalid)
    {
      if t in y.order {
        var k :| 0 <= k < |y.order| && y.order[k] == t;
        assert Consistent(posts, s0, y, k);
      }
    }
  }

  // ---- the flags at every point, not only when the mutex is free ----

  /** What the two flags can be while the holder stands at `pc`. */
  predicate FlagsAt<C, M>(pc: Pc<M>, s: Session<C>) {
    match pc
    case Reset => s.ready ==> !s.active
    case ClearReady => !s.active
    case SetUp => !s.active && !s.ready
    case Process1 => s.active && !s.ready
    case Compose2 => s.active && !s.ready
    case CleanUp(_, _) => !s.ready
    case CheckActive => s.ready ==> !s.active
    case Finish(rc, _) => s.active && s.ready == rc
    case ClearActive(rc, _) => s.active && s.ready == rc
    case Unlock(_, _) => s.ready ==> !s.active
    case _ => s.active && !s.ready
  }

  lemma AdvanceKeepsFlags<C, M>(p: Post<C, M>, pc: Pc<M>, s: Session<C>)
    requires p.frame.Some? && InCritical(pc) && !pc.Unlock? && FlagsAt(pc, s)
    ensures var (pc', s') := Advance(p, pc, s); FlagsAt(pc', s')
  {
  }

  ghost predicate FlagsInv<C, M>(y: System<C, M>) {
    match y.holder
    case None => y.s.ready ==> !y.s.active
    case Some(h) => h < |y.pcs| && FlagsAt(y.pcs[h], y.s)
  }

  lemma ScheduleKeepsFlags<C, M>(posts: seq<Post<C, M>>, s0: Session<C>, y: System<C, M>, t: nat)
    requires Inv(posts, s0, y) && FlagsInv(y)
    ensures FlagsInv(Schedule(posts, y, t))
  {
    if t < |posts| && InCritical(y.pcs[t]) {
      var k := Turn(posts, s0, y, t);
      if !y.pcs[t].Unlock? { AdvanceKeepsFlags(posts[t], y.pcs[t], y.s); }
    }
  }

  lemma {:induction false} ExecuteKeepsFlags<C, M>(posts: seq<Post<C, M>>, s0: Session<C>, schedule: seq<nat>)
    requires s0.ready ==> !s0.active
    ensures FlagsInv(Execute(posts, Start(posts, s0), schedule))
    decreases |schedule|
  {
    if schedule != [] {
      var before := schedule[..|schedule| - 1];
      ExecuteKeepsFlags(posts, s0, before);
      ExecuteKeepsInv(posts, s0, before);
      ScheduleKeepsFlags(posts, s0, Execute(posts, Start(posts, s0), before), schedule[|schedule| - 1]);
    }
  }

  /** The holder has raised `oscore_ready` and not yet cleared `edhoc_ctx_active` (342-490). */
  predicate InWindow<C, M>(y: System<C, M>) {
    y.holder.Some? && y.holder.value < |y.pcs|
    && var pc := y.pcs[y.holder.value]; (pc.Finish? || pc.ClearActive?) && pc.rc
  }

  /** Both flags are up in that window of a successful message_3, and at no other point of any schedule. */
  lemma BothFlagsUp<C, M>(posts: seq<Post<C, M>>, s0: Session<C>, schedule: seq<nat>)
    requires s0.ready ==> !s0.active
    ensures var y := Execute(posts, Start(posts, s0), schedule);
            y.s.ready && y.s.active <==> InWindow(y)
  {
    ExecuteKeepsFlags(posts, s0, schedule);
    ExecuteKeepsInv(posts, s0, schedule);
  }

  /**
   * Mutual exclusion, and what it buys: when all calls have returned the mutex
   * is free and every accepted POST occurs in the serial order exactly once.
   */
  lemma QuiescentSerialisable<C, M>(posts: seq<Post<C, M>>, s0: Session<C>, schedule: seq<nat>)
    requires forall t :: 0 <= t < |posts| ==> Execute(posts, Start(posts, s0), schedule).pcs[t].Returned?
    ensures var y := Execute(posts, Start(posts, s0), schedule);
            && Runnable(posts, y.order) && Distinct(y.order)
            && y.s == SerialState(posts, s0, y.order)
            && (forall t :: 0 <= t < |posts| ==> (t in y.order <==> posts[t].frame.Some?))
            && (forall k :: 0 <= k < |y.order| ==>
                  y.pcs[y.order[k]] == Returned(SerialResult(posts, s0, y.order, k)))
  {
    Serialisable(posts, s0, schedule);
    ExecuteKeepsInv(posts, s0, schedule);
  }

  /** Steps a thread still has to take. */
  function Remaining<M>(pc: Pc<M>): nat {
    if pc.Called? then 11 else if InCritical(pc) then Distance(pc) + 1 else if pc.Unlocked? then 1 else 0
  }

  lemma AdvanceCloser<C, M>(p: Post<C, M>, pc: Pc<M>, s: Session<C>)
    requires p.frame.Some? && InCritical(pc) && !pc.Unlock?
    ensures var pc' := Advance(p, pc, s).0; InCritical(pc') && Distance(pc') < Distance(pc)
  {
  }

  lemma HolderProgress<C, M>(posts: seq<Post<C, M>>, s0: Session<C>, y: System<C, M>)
    requires Inv(posts, s0, y) && y.holder.Some?
    ensures var u := y.holder.value;
            u < |posts| && Remaining(Schedule(posts, y, u).pcs[u]) < Remaining(y.pcs[u])
  {
    var u := y.holder.value;
    var k := Turn(posts, s0, y, u);
    if !y.pcs[u].Unlock? { AdvanceCloser(posts[u], y.pcs[u], y.s); }
  }

  lemma FreeProgress<C, M>(posts: seq<Post<C, M>>, s0: Session<C>, y: System<C, M>, t: nat)
    requires Inv(posts, s0, y) && y.holder.None? && t < |posts| && !y.pcs[t].Returned?
    ensures Remaining(Schedule(posts, y, t).pcs[t]) < Remaining(y.pcs[t])
  {
    assert !InCritical(y.pcs[t]);
  }

  lemma MovesOne<C, M>(posts: seq<Post<C, M>>, y: System<C, M>, u: nat)
    requires |y.pcs| == |posts| && u < |posts|
    ensures Schedule(posts, y, u).pcs == y.pcs[u := Schedule(posts, y, u).pcs[u]]
  {
  }

  /**
   * No deadlock: after any schedule that leaves a call unfinished, some thread
   * can take a step, which brings it closer to its return and moves no other.
   */
  lemma Progress<C, M>(posts: seq<Post<C, M>>, s0: Session<C>, schedule: seq<nat>, t: nat)
    requires t < |posts| && !Execute(posts, Start(posts, s0), schedule).pcs[t].Returned?
    ensures var y := Execute(posts, Start(posts, s0), schedule);
            exists u :: 0 <= u < |posts|
              && Remaining(Schedule(posts, y, u).pcs[u]) < Remaining(y.pcs[u])
              && Schedule(posts, y, u).pcs == y.pcs[u := Schedule(posts, y, u).pcs[u]]
  {
    ExecuteKeepsInv(posts, s0, schedule);
    var y := Execute(posts, Start(posts, s0), schedule);
    var u := if y.holder.Some? then y.holder.value else t;
    assert u < |posts| && Remaining(Schedule(posts, y, u).pcs[u]) < Remaining(y.pcs[u]) by {
      if y.holder.Some? { HolderProgress(posts, s0, y); } else { FreeProgress(posts, s0, y, t); }
    }
    MovesOne(posts, y, u);
  }
}
