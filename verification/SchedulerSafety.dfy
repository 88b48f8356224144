/** What every run of the scheduler keeps, when one suspension hands out at most one wake-up:
    a fiber is with at most one worker, and is resumed only after the worker that ran it before
    is done with it.

    Where a contract says `P(..) == true` it means `P(..)`; the longer form keeps the verifier from
    proving the parts of P one by one. */
module SchedulerSafety {
  import opened Common
  import opened Scheduler

  /** Steps that are not a worker's own: a schedule call, a new fiber, the request to stop. */
  predicate Outside(a: Action) {
    a.NewFiber? || a.Wake? || a.ScheduleCallback? || a.ScheduleFiber? || a.Stop?
  }

  /** Steps between the swap-in of a fiber and the decrement of the active count. */
  predicate SwapStep(a: Action) {
    a.SwapIn? || a.Arm? || a.YieldToHold? || a.YieldToReady? || a.Finish? || a.AfterSwap?
  }

  /** Steps that decide about the fiber and end the loop body. */
  predicate EndStep(a: Action) {
    a.Judge? || a.Requeue? || a.Park? || a.Recycle? || a.DropStale?
  }

  ghost predicate OnlyTaker(s: State, t: State, a: Action) {
    if Outside(a) then t.workers == s.workers
    else
      && a.w < |s.workers| == |t.workers|
      && (forall v :: 0 <= v < |s.workers| && v != a.w ==> t.workers[v] == s.workers[v])
  }

  lemma OutsideShape(cfg: Config, s: State, a: Action)
    requires Enabled(cfg, s, a) && Outside(a)
    ensures OnlyTaker(s, Next(cfg, s, a), a) == true
  {
  }

  lemma SwapShape(cfg: Config, s: State, a: Action)
    requires Enabled(cfg, s, a) && SwapStep(a)
    ensures OnlyTaker(s, Next(cfg, s, a), a) == true
  {
  }

  lemma JudgeShape(cfg: Config, s: State, w: nat)
    requires Enabled(cfg, s, Judge(w))
    ensures OnlyTaker(s, Next(cfg, s, Judge(w)), Judge(w)) == true
  {
  }

  lemma EndShape(cfg: Config, s: State, a: Action)
    requires Enabled(cfg, s, a) && EndStep(a) && !a.Judge?
    ensures OnlyTaker(s, Next(cfg, s, a), a) == true
  {
  }

  lemma LoopShape(cfg: Config, s: State, a: Action)
    requires Enabled(cfg, s, a) && !Outside(a) && !SwapStep(a) && !EndStep(a)
    ensures OnlyTaker(s, Next(cfg, s, a), a) == true
  {
  }

  /** A step changes the record of at most the worker that takes it. */
  lemma StepShape(cfg: Config, s: State, a: Action)
    requires Enabled(cfg, s, a)
    ensures OnlyTaker(s, Next(cfg, s, a), a) == true
  {
    if Outside(a) {
      OutsideShape(cfg, s, a);
    } else if SwapStep(a) {
      SwapShape(cfg, s, a);
    } else if a.Judge? {
      JudgeShape(cfg, s, a.w);
    } else if EndStep(a) {
      EndShape(cfg, s, a);
    } else {
      LoopShape(cfg, s, a);
    }
  }

  // ---------------------------------------------------------------- the invariant

  /** No wake-up of `f` is outstanding, neither handed out nor queued. */
  ghost predicate NoCopy(s: State, f: nat)
    requires f < |s.fibers|
  {
    s.fibers[f].wakes == 0 && !InQueue(s.queue, f)
  }

  ghost predicate PhaseOk(s: State, f: nat, cb: bool, p: Phase)
    requires f < |s.fibers|
  {
    var st := s.fibers[f].status;
    match p
    case Resuming => NoCopy(s, f) && st != Exec && !Ended(st)
    case Running => st == Exec && s.fibers[f].armed <= 1 && (s.fibers[f].armed == 0 ==> NoCopy(s, f))
    case Back => st == Exec || (NoCopy(s, f) && (st == Ready || Ended(st)))
    case Judging => st == Exec || (NoCopy(s, f) && (st == Ready || Ended(st)))
    case Requeueing => st == Ready && NoCopy(s, f)
    case Parking => st == Exec
    case Recycling => cb && Ended(st) && NoCopy(s, f)
  }

  ghost predicate WorkerOk(s: State, w: nat)
    requires w < |s.workers|
  {
    var me := s.workers[w];
    && (me.cbFiber.Some? ==>
          && me.cbFiber.value < |s.fibers|
          && (!(me.pc.Busy? && me.pc.cb) ==>
                NoCopy(s, me.cbFiber.value) && Resettable(s.fibers[me.cbFiber.value].status)))
    && match me.pc
       case Taken(e) =>
         e.item.FiberItem? ==>
           && e.item.f < |s.fibers| && me.cbFiber != Some(e.item.f)
           && NoCopy(s, e.item.f) && s.fibers[e.item.f].status != Exec
       case Stale(e) =>
         e.item.FiberItem? && e.item.f < |s.fibers| && me.cbFiber != Some(e.item.f)
         && NoCopy(s, e.item.f) && Ended(s.fibers[e.item.f].status)
       case Busy(e, f, cb, p) =>
         && f < |s.fibers|
         && (cb <==> me.cbFiber == Some(f))
         && e.item == (if cb then CallbackItem else FiberItem(f))
         && PhaseOk(s, f, cb, p)
       case _ => true
  }

  ghost predicate Exclusive(s: State) {
    forall v, w, f :: 0 <= v < w < |s.workers| && Owns(s.workers[v], f) ==> !Owns(s.workers[w], f)
  }

  ghost predicate QueueOk(s: State) {
    && (forall i :: 0 <= i < |s.queue| && s.queue[i].item.FiberItem? ==>
          s.queue[i].item.f < |s.fibers| && s.fibers[s.queue[i].item.f].wakes == 0)
    && (forall i, j :: 0 <= i < j < |s.queue| && s.queue[i].item.FiberItem? ==> s.queue[i].item != s.queue[j].item)
    && (forall f :: 0 <= f < |s.fibers| ==> s.fibers[f].wakes <= 1)
  }

  ghost predicate InScan(pc: Pc) {
    pc.Scan? || pc.Chosen?
  }

  ghost predicate LockOk(s: State) {
    && (s.lock.Some? ==> s.lock.value < |s.workers|)
    && forall w :: 0 <= w < |s.workers| ==>
         && (InScan(s.workers[w].pc) <==> s.lock == Some(w))
         && (s.workers[w].pc.Scan? ==> s.workers[w].pc.i <= |s.queue|)
         && (s.workers[w].pc.Chosen? ==> s.workers[w].pc.i < |s.queue| && Runnable(s, w, s.queue[s.workers[w].pc.i]))
  }

  ghost predicate Safe(s: State) {
    && LockOk(s)
    && QueueOk(s)
    && Exclusive(s)
    && forall w :: 0 <= w < |s.workers| ==> WorkerOk(s, w)
  }

  lemma SafeInit(cfg: Config, s: State)
    requires Initial(cfg, s)
    ensures Safe(s)
  {
  }

  /** Fiber `f` looks no worse in `t` to a worker that owns it: same status, no new wake-up. */
  ghost predicate SameView(s: State, t: State, f: nat)
    requires f < |s.fibers| <= |t.fibers|
  {
    && t.fibers[f].status == s.fibers[f].status
    && t.fibers[f].armed == s.fibers[f].armed
    && (NoCopy(s, f) ==> NoCopy(t, f))
  }

  lemma BystanderOk(s: State, t: State, v: nat)
    requires v < |s.workers| == |t.workers| && t.workers[v] == s.workers[v]
    requires |s.fibers| <= |t.fibers| && WorkerOk(s, v)
    requires forall f: nat :: f < |s.fibers| && Owns(s.workers[v], f) ==> SameView(s, t, f)
    ensures WorkerOk(t, v)
  {
    var me := s.workers[v];
    if me.cbFiber.Some? {
      assert Owns(me, me.cbFiber.value);
    }
    match me.pc
    case Taken(e) => if e.item.FiberItem? { assert Owns(me, e.item.f); }
    case Stale(e) => if e.item.FiberItem? { assert Owns(me, e.item.f); }
    case Busy(e, f, cb, p) => assert Owns(me, f);
    case _ =>
  }

  ghost predicate OnlyOwner(s: State, w: nat, f: nat) {
    forall v :: 0 <= v < |s.workers| && v != w ==> !Owns(s.workers[v], f)
  }

  lemma OwnerIsOnly(s: State, w: nat, f: nat)
    requires w < |s.workers| && Exclusive(s) && Owns(s.workers[w], f)
    ensures OnlyOwner(s, w, f)
  {
  }

  /** The step of worker `w` concerns only fibers that no other worker owns. */
  ghost predicate StepOf(s: State, t: State, w: nat) {
    && w < |s.workers| == |t.workers|
    && |s.fibers| <= |t.fibers|
    && (forall v :: 0 <= v < |s.workers| && v != w ==> t.workers[v] == s.workers[v])
    && (forall f: nat :: f < |s.fibers| ==> SameView(s, t, f) || OnlyOwner(s, w, f))
    && (forall f: nat :: Owns(t.workers[w], f) ==> Owns(s.workers[w], f) || OnlyOwner(s, w, f))
  }

  lemma StepOfKeeps(s: State, t: State, w: nat)
    requires Safe(s) && StepOf(s, t, w) && WorkerOk(t, w)
    ensures Exclusive(t)
    ensures forall v :: 0 <= v < |t.workers| ==> WorkerOk(t, v)
  {
    forall v | 0 <= v < |t.workers| && v != w
      ensures WorkerOk(t, v)
    {
      BystanderOk(s, t, v);
    }
    forall u, v, f | 0 <= u < v < |t.workers| && Owns(t.workers[u], f)
      ensures !Owns(t.workers[v], f)
    {
      if v == w && Owns(t.workers[v], f) {
        OwnerCase(s, t, w, u, f);
      } else if u == w {
        OwnerCase(s, t, w, v, f);
      }
    }
  }

  lemma OwnerCase(s: State, t: State, w: nat, v: nat, f: nat)
    requires Exclusive(s) && StepOf(s, t, w) && v < |s.workers| && v != w
    requires Owns(t.workers[w], f)
    ensures !Owns(t.workers[v], f)
  {
    if Owns(s.workers[w], f) {
      OwnerIsOnly(s, w, f);
    }
  }

  /** An entry for a fiber is put at the back of the queue. */
  lemma PushView(s: State, t: State, f: nat, e: Entry)
    requires f < |s.fibers| == |t.fibers| && t.queue == s.queue + [e] && e.item == FiberItem(f)
    requires forall g :: 0 <= g < |s.fibers| && g != f ==> t.fibers[g] == s.fibers[g]
    ensures forall g: nat :: g < |s.fibers| && g != f ==> SameView(s, t, g)
  {
    forall g: nat | g < |s.fibers| && g != f && NoCopy(s, g)
      ensures NoCopy(t, g)
    {
      forall i | 0 <= i < |t.queue|
        ensures t.queue[i].item != FiberItem(g)
      {
      }
    }
  }

  /** A step of one worker that leaves the queue and every fiber alone. */
  lemma SafeLocal(s: State, t: State, w: nat)
    requires Safe(s) && w < |s.workers| == |t.workers| && t.queue == s.queue && t.fibers == s.fibers
    requires forall v :: 0 <= v < |s.workers| && v != w ==> t.workers[v] == s.workers[v]
    requires LockOk(t) && WorkerOk(t, w)
    requires forall f: nat :: Owns(t.workers[w], f) ==> Owns(s.workers[w], f)
    ensures Safe(t)
  {
    StepOfKeeps(s, t, w);
  }

  /** The same, away from the lock. */
  lemma SafeUnlocked(s: State, t: State, w: nat)
    requires Safe(s) && w < |s.workers| == |t.workers| && t.queue == s.queue && t.fibers == s.fibers && t.lock == s.lock
    requires t.workers == s.workers[w := t.workers[w]]
    requires !InScan(s.workers[w].pc) && !InScan(t.workers[w].pc)
    requires WorkerOk(t, w)
    requires forall f: nat :: Owns(t.workers[w], f) ==> Owns(s.workers[w], f)
    ensures Safe(t)
  {
    forall v | 0 <= v < |s.workers| && v != w
      ensures t.workers[v] == s.workers[v]
    {
    }
    SafeLocal(s, t, w);
  }

  lemma SafeScanStep(cfg: Config, s: State, a: Action)
    requires Safe(s) && Enabled(cfg, s, a) && (a.Acquire? || a.ScanNext? || a.ScanEnd?)
    ensures Safe(Next(cfg, s, a))
  {
    assert WorkerOk(s, a.w);
    SafeLocal(s, Next(cfg, s, a), a.w);
  }

  lemma SafeIdleStep(cfg: Config, s: State, a: Action)
    requires Safe(s) && Enabled(cfg, s, a) && (a.Idle? || a.CheckStopping? || a.LeaveIdle?)
    ensures Safe(Next(cfg, s, a))
  {
    assert WorkerOk(s, a.w);
    SafeUnlocked(s, Next(cfg, s, a), a.w);
  }

  lemma SafeReturnStep(cfg: Config, s: State, a: Action)
    requires Safe(s) && Enabled(cfg, s, a) && (a.YieldToHold? || a.AfterSwap? || a.DropStale?)
    ensures Safe(Next(cfg, s, a))
  {
    assert WorkerOk(s, a.w);
    SafeUnlocked(s, Next(cfg, s, a), a.w);
  }

  lemma SafeJudge(cfg: Config, s: State, w: nat)
    requires Safe(s) && Enabled(cfg, s, Judge(w))
    ensures Safe(Next(cfg, s, Judge(w)))
  {
    assert WorkerOk(s, w);
    SafeUnlocked(s, Next(cfg, s, Judge(w)), w);
  }

  /** Taking an entry: whoever owned the fiber before is done with it, since its status is not Exec. */
  lemma SafeTake(cfg: Config, s: State, w: nat)
    requires Safe(s) && Enabled(cfg, s, Take(w))
    ensures Safe(Next(cfg, s, Take(w)))
  {
    var i, t := s.workers[w].pc.i, Next(cfg, s, Take(w));
    TakeQueue(cfg, s, w);
    assert WorkerOk(s, w);
    if s.queue[i].item.FiberItem? {
      QueuedIsFree(s, i);
    }
    StepOfKeeps(s, t, w);
  }

  lemma TakeQueue(cfg: Config, s: State, w: nat)
    requires Safe(s) && Enabled(cfg, s, Take(w))
    ensures var t := Next(cfg, s, Take(w));
      && QueueOk(t) && LockOk(t)
      && (forall f: nat :: f < |s.fibers| ==> SameView(s, t, f))
      && (s.queue[s.workers[w].pc.i].item.FiberItem? ==> NoCopy(t, s.queue[s.workers[w].pc.i].item.f))
  {
    WithoutOk(s, s.workers[w].pc.i, Next(cfg, s, Take(w)));
  }

  /** One entry less in a queue that is in order. */
  lemma WithoutOk(s: State, i: nat, t: State)
    requires QueueOk(s) && i < |s.queue| && t.queue == Without(s.queue, i) && t.fibers == s.fibers
    ensures QueueOk(t) && (forall f: nat :: f < |s.fibers| ==> SameView(s, t, f))
    ensures s.queue[i].item.FiberItem? ==> NoCopy(t, s.queue[i].item.f)
  {
    assert forall j :: 0 <= j < |t.queue| ==> t.queue[j] == if j < i then s.queue[j] else s.queue[j + 1];
    forall f: nat | f < |s.fibers|
      ensures SameView(s, t, f)
    {
    }
  }

  /** A queued fiber that is not Exec is with no worker. */
  lemma QueuedIsFree(s: State, i: nat)
    requires Safe(s) && i < |s.queue| && s.queue[i].item.FiberItem?
    requires s.fibers[s.queue[i].item.f].status != Exec
    ensures forall v :: 0 <= v < |s.workers| ==> !Owns(s.workers[v], s.queue[i].item.f)
  {
    var f := s.queue[i].item.f;
    assert InQueue(s.queue, f);
    forall v | 0 <= v < |s.workers|
      ensures !Owns(s.workers[v], f)
    {
      assert WorkerOk(s, v);
    }
  }

  lemma UnknownFiberIsFree(s: State, f: nat)
    requires Safe(s) && f >= |s.fibers|
    ensures forall v :: 0 <= v < |s.workers| ==> !Owns(s.workers[v], f)
  {
    forall v | 0 <= v < |s.workers|
      ensures !Owns(s.workers[v], f)
    {
      assert WorkerOk(s, v);
    }
  }

  lemma SafeDispatch(cfg: Config, s: State, w: nat)
    requires Safe(s) && Enabled(cfg, s, Dispatch(w))
    ensures Safe(DispatchStep(s, w))
  {
    var me, t := s.workers[w], DispatchStep(s, w);
    assert WorkerOk(s, w);
    if me.pc.e.item.FiberItem? {
      SafeUnlocked(s, t, w);
    } else if me.cbFiber.Some? {
      SafeFiberWrite(s, t, w, me.cbFiber.value);
    } else {
      SafeNewCallbackFiber(s, w);
    }
  }

  lemma SafeNewCallbackFiber(s: State, w: nat)
    requires Safe(s) && w < |s.workers| && s.workers[w].pc.Taken? && s.workers[w].pc.e.item == CallbackItem
    requires s.workers[w].cbFiber == None
    ensures Safe(DispatchStep(s, w))
  {
    var t := DispatchStep(s, w);
    UnknownFiberIsFree(s, |s.fibers|);
    forall f: nat | f < |s.fibers|
      ensures SameView(s, t, f)
    {
      assert t.queue == s.queue;
    }
    assert !InQueue(t.queue, |s.fibers|);
    assert LockOk(t) && QueueOk(t);
    StepOfKeeps(s, t, w);
  }

  /** Worker `w` writes the one fiber `f` it owns. */
  lemma SafeFiberWrite(s: State, t: State, w: nat, f: nat)
    requires Safe(s) && w < |s.workers| == |t.workers| && f < |s.fibers| == |t.fibers| && t.queue == s.queue
    requires forall v :: 0 <= v < |s.workers| && v != w ==> t.workers[v] == s.workers[v]
    requires forall g :: 0 <= g < |s.fibers| && g != f ==> t.fibers[g] == s.fibers[g]
    requires Owns(s.workers[w], f)
    requires forall g: nat :: Owns(t.workers[w], g) ==> Owns(s.workers[w], g)
    requires t.fibers[f].wakes == s.fibers[f].wakes || (t.fibers[f].wakes == 1 && !InQueue(s.queue, f))
    requires t.fibers[f].status == Exec ==> s.fibers[f].status == Exec || !InQueue(s.queue, f)
    requires t.lock == s.lock && !InScan(s.workers[w].pc) && !InScan(t.workers[w].pc)
    requires WorkerOk(t, w)
    ensures Safe(t)
  {
    OwnerIsOnly(s, w, f);
    forall g: nat | g < |s.fibers| && g != f
      ensures SameView(s, t, g)
    {
    }
    assert QueueOk(t) by {
      if !InQueue(s.queue, f) {
        assert forall i :: 0 <= i < |s.queue| ==> s.queue[i].item != FiberItem(f);
      }
    }
    assert LockOk(t) by {
      if !InQueue(s.queue, f) {
        assert forall i :: 0 <= i < |s.queue| ==> s.queue[i].item != FiberItem(f);
      }
    }
    StepOfKeeps(s, t, w);
  }

  /** Swap-in, and the hand-out of a wake-up. */
  lemma SafeExec(cfg: Config, s: State, a: Action)
    requires cfg.wakeLimit <= 1 && Safe(s) && Enabled(cfg, s, a) && (a.SwapIn? || a.Arm?)
    ensures Safe(Next(cfg, s, a))
  {
    assert WorkerOk(s, a.w);
    SafeFiberWrite(s, Next(cfg, s, a), a.w, s.workers[a.w].pc.f);
  }

  /** The fiber decides how it leaves. */
  lemma SafeLeave(cfg: Config, s: State, a: Action)
    requires Safe(s) && Enabled(cfg, s, a) && (a.YieldToReady? || a.Finish?)
    ensures Safe(Next(cfg, s, a))
  {
    assert WorkerOk(s, a.w);
    SafeFiberWrite(s, Next(cfg, s, a), a.w, s.workers[a.w].pc.f);
  }

  /** The worker writes the final status. */
  lemma SafeEndBody(cfg: Config, s: State, a: Action)
    requires Safe(s) && Enabled(cfg, s, a) && (a.Park? || a.Recycle?)
    ensures Safe(Next(cfg, s, a))
  {
    assert WorkerOk(s, a.w);
    SafeFiberWrite(s, Next(cfg, s, a), a.w, s.workers[a.w].pc.f);
  }

  lemma SafeRequeue(cfg: Config, s: State, w: nat)
    requires Safe(s) && Enabled(cfg, s, Requeue(w))
    ensures Safe(Next(cfg, s, Requeue(w)))
  {
    var f, t := s.workers[w].pc.f, Next(cfg, s, Requeue(w));
    assert WorkerOk(s, w) && NoCopy(s, f) && Owns(s.workers[w], f);
    OwnerIsOnly(s, w, f);
    PushView(s, t, f, Entry(s.nextId, FiberItem(f), ANY_THREAD));
    assert QueueOk(t) by {
      assert forall i :: 0 <= i < |s.queue| ==> s.queue[i].item != FiberItem(f);
    }
    assert LockOk(t);
    assert WorkerOk(t, w);
    StepOfKeeps(s, t, w);
  }

  /** schedule called for a fiber: its one wake-up moves into the queue, or it is fresh. */
  lemma SafeScheduleFiber(cfg: Config, s: State, a: Action)
    requires Safe(s) && Enabled(cfg, s, a) && (a.Wake? || a.ScheduleFiber?)
    ensures Safe(Next(cfg, s, a))
  {
    var f, t := a.f, Next(cfg, s, a);
    assert !InQueue(s.queue, f);
    PushView(s, t, f, t.queue[|s.queue|]);
    assert QueueOk(t) by {
      assert forall i :: 0 <= i < |s.queue| ==> s.queue[i].item != FiberItem(f);
    }
    assert LockOk(t);
    forall v | 0 <= v < |t.workers|
      ensures WorkerOk(t, v)
    {
      BystanderOk(s, t, v);
    }
    assert Exclusive(t);
  }

  lemma SafeScheduleOther(cfg: Config, s: State, a: Action)
    requires Safe(s) && Enabled(cfg, s, a) && (a.ScheduleCallback? || a.NewFiber? || a.Stop?)
    ensures Safe(Next(cfg, s, a))
  {
    var t := Next(cfg, s, a);
    forall f: nat | f < |s.fibers|
      ensures SameView(s, t, f)
    {
    }
    forall v | 0 <= v < |t.workers|
      ensures WorkerOk(t, v)
    {
      BystanderOk(s, t, v);
    }
    assert QueueOk(t) && LockOk(t);
    assert Exclusive(t);
  }

  lemma SafeStep(cfg: Config, s: State, a: Action)
    requires cfg.wakeLimit <= 1 && Safe(s) && Enabled(cfg, s, a)
    ensures Safe(Next(cfg, s, a))
  {
    if a.Take? {
      SafeTake(cfg, s, a.w);
    } else if a.Dispatch? {
      SafeDispatch(cfg, s, a.w);
    } else if a.Requeue? {
      SafeRequeue(cfg, s, a.w);
    } else if a.Wake? || a.ScheduleFiber? {
      SafeScheduleFiber(cfg, s, a);
    } else if a.ScheduleCallback? || a.NewFiber? || a.Stop? {
      SafeScheduleOther(cfg, s, a);
    } else if a.SwapIn? || a.Arm? {
      SafeExec(cfg, s, a);
    } else if a.YieldToReady? || a.Finish? {
      SafeLeave(cfg, s, a);
    } else if a.Park? || a.Recycle? {
      SafeEndBody(cfg, s, a);
    } else if a.Judge? {
      SafeJudge(cfg, s, a.w);
    } else if a.YieldToHold? || a.AfterSwap? || a.DropStale? {
      SafeReturnStep(cfg, s, a);
    } else if a.Idle? || a.CheckStopping? || a.LeaveIdle? {
      SafeIdleStep(cfg, s, a);
    } else {
      SafeScanStep(cfg, s, a);
    }
  }
}
