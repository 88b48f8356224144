/** When shutdown leaves nothing behind: exactly when nothing is pinned and no thread outside the
    scheduler schedules. */
module SchedulerExit {
  import opened Common
  import opened Scheduler
  import opened SchedulerRuns
  import opened SchedulerConservation
  import opened SchedulerShutdown

  /** Once every worker has left the loop, nothing is left in the queue. */
  ghost predicate LeavesNothing(s: State) {
    |s.workers| > 0 && (forall w :: 0 <= w < |s.workers| ==> s.workers[w].pc == Left) ==> s.queue == []
  }

  lemma ClosedLeavesNothing(cfg: Config, s: State)
    requires cfg.wakeLimit <= 1 && !cfg.open && !cfg.pins && Reachable(cfg, s)
    ensures LeavesNothing(s)
  {
    var tr, acts :| Run(cfg, tr, acts) && tr[|acts|] == s;
    if |s.workers| > 0 && forall w :: 0 <= w < |s.workers| ==> s.workers[w].pc == Left {
      SameWorkers(cfg, tr, acts, |acts|);
      ShutdownIsComplete(cfg, tr, acts, |acts|);
    }
  }

  lemma {:induction false} SameWorkers(cfg: Config, tr: seq<State>, acts: seq<Action>, n: nat)
    requires Run(cfg, tr, acts) && n < |tr|
    ensures |tr[n].workers| == |tr[0].workers|
  {
    if n > 0 {
      SameWorkers(cfg, tr, acts, n - 1);
      assert Enabled(cfg, tr[n - 1], acts[n - 1]) && tr[n] == Next(cfg, tr[n - 1], acts[n - 1]);
    }
  }

  // ---------------------------------------------------------------- parts of runs

  predicate AtTop(s: State, w: nat) {
    w < |s.workers| && s.workers[w].pc == Top && s.lock == None
  }

  /** The scheduler has been stopped and seems to have nothing to do. */
  predicate Quiet(s: State) {
    s.autoStop && s.stopping && s.queue == [] && s.active == 0
  }

  /** Worker `w` back at the top of its loop, with its idle fiber terminated. */
  function Termed(s: State, w: nat): State
    requires w < |s.workers|
  {
    s.(workers := s.workers[w := s.workers[w].(idleTerm := true)])
  }

  /** A worker that finds nothing goes through its idle fiber, which terminates. */
  lemma CanTerm(cfg: Config, s: State, w: nat)
    requires Reachable(cfg, s) && AtTop(s, w) && Quiet(s) && !s.workers[w].idleTerm
    ensures Reachable(cfg, Termed(s, w))
  {
    CanEmpty(cfg, s, w);
    var s1 := SetPc(s, w, Empty);
    ReachableStep(cfg, s1, Idle(w));
    var s2 := SetPc(s, w, IdleCheck).(idle := s.idle + 1);
    ReachableStep(cfg, s2, CheckStopping(w));
    TermSteps(cfg, s, w);
    var s3 := Termed(SetPc(s, w, IdleLeave), w).(idle := s.idle + 1);
    ReachableStep(cfg, s3, LeaveIdle(w));
  }

  lemma TermSteps(cfg: Config, s: State, w: nat)
    requires AtTop(s, w) && Quiet(s)
    ensures var s2 := SetPc(s, w, IdleCheck).(idle := s.idle + 1);
      var s3 := Termed(SetPc(s, w, IdleLeave), w).(idle := s.idle + 1);
      && Enabled(cfg, s2, CheckStopping(w)) && Next(cfg, s2, CheckStopping(w)) == s3
      && Enabled(cfg, s3, LeaveIdle(w)) && Next(cfg, s3, LeaveIdle(w)) == Termed(s, w)
  {
    assert Next(cfg, Termed(SetPc(s, w, IdleLeave), w).(idle := s.idle + 1), LeaveIdle(w)).workers == Termed(s, w).workers;
  }

  lemma CanEmpty(cfg: Config, s: State, w: nat)
    requires Reachable(cfg, s) && AtTop(s, w) && s.queue == []
    ensures Reachable(cfg, SetPc(s, w, Empty))
  {
    ReachableStep(cfg, s, Acquire(w));
    var s1 := SetPc(s, w, Scan(0)).(lock := Some(w));
    ReachableStep(cfg, s1, ScanEnd(w));
    assert Next(cfg, s1, ScanEnd(w)) == SetPc(s, w, Empty);
  }

  /** A worker whose idle fiber has terminated leaves when it finds nothing. */
  lemma CanLeave(cfg: Config, s: State, w: nat)
    requires Reachable(cfg, s) && AtTop(s, w) && s.queue == [] && s.workers[w].idleTerm
    ensures Reachable(cfg, SetPc(s, w, Left))
  {
    CanEmpty(cfg, s, w);
    var s1 := SetPc(s, w, Empty);
    ReachableStep(cfg, s1, Idle(w));
    assert Next(cfg, s1, Idle(w)) == SetPc(s, w, Left);
  }

  /** And when all it finds is pinned to another thread. */
  lemma CanLeavePinned(cfg: Config, s: State, w: nat)
    requires Reachable(cfg, s) && AtTop(s, w) && |s.queue| == 1 && !Runnable(s, w, s.queue[0]) && s.workers[w].idleTerm
    ensures Reachable(cfg, SetPc(s, w, Left))
  {
    PinnedScan(cfg, s, w);
    ReachableStep(cfg, s, Acquire(w));
    ReachableStep(cfg, SetPc(s, w, Scan(0)).(lock := Some(w)), ScanNext(w));
    ReachableStep(cfg, SetPc(s, w, Scan(1)).(lock := Some(w)), ScanEnd(w));
    ReachableStep(cfg, SetPc(s, w, Empty), Idle(w));
  }

  lemma PinnedScan(cfg: Config, s: State, w: nat)
    requires AtTop(s, w) && |s.queue| == 1 && !Runnable(s, w, s.queue[0]) && s.workers[w].idleTerm
    ensures var s1 := SetPc(s, w, Scan(0)).(lock := Some(w));
      var s2 := SetPc(s, w, Scan(1)).(lock := Some(w));
      var s3 := SetPc(s, w, Empty);
      && Enabled(cfg, s, Acquire(w)) && Next(cfg, s, Acquire(w)) == s1
      && Enabled(cfg, s1, ScanNext(w)) && Next(cfg, s1, ScanNext(w)) == s2
      && Enabled(cfg, s2, ScanEnd(w)) && Next(cfg, s2, ScanEnd(w)) == s3
      && Enabled(cfg, s3, Idle(w)) && Next(cfg, s3, Idle(w)) == SetPc(s, w, Left)
  {
  }

  /** Worker `w` between the decrement of the active count and the re-queue of fiber `f`. */
  function Window(s: State, w: nat, f: nat): State
    requires w < |s.workers| && s.workers[w].pc.Busy? && f < |s.fibers|
  {
    SetPhase(SetStatus(s, f, Status.Ready), w, Judging).(active := s.active - 1)
  }

  lemma CanWindow(cfg: Config, s: State, w: nat, f: nat)
    requires Reachable(cfg, s) && AtPhase(s, w, Running) && s.workers[w].pc.f == f && s.fibers[f].armed == 0
    ensures Reachable(cfg, Window(s, w, f))
  {
    WindowSteps(cfg, s, w, f);
    ReachableStep(cfg, s, YieldToReady(w));
    ReachableStep(cfg, SetPhase(SetStatus(s, f, Status.Ready), w, Back), AfterSwap(w));
  }

  lemma WindowSteps(cfg: Config, s: State, w: nat, f: nat)
    requires AtPhase(s, w, Running) && s.workers[w].pc.f == f && s.fibers[f].armed == 0
    ensures var s1 := SetPhase(SetStatus(s, f, Status.Ready), w, Back);
      && Enabled(cfg, s, YieldToReady(w)) && Next(cfg, s, YieldToReady(w)) == s1
      && Enabled(cfg, s1, AfterSwap(w)) && Next(cfg, s1, AfterSwap(w)) == Window(s, w, f)
  {
    var s1 := SetPhase(SetStatus(s, f, Status.Ready), w, Back);
    assert Next(cfg, s1, AfterSwap(w)).workers == Window(s, w, f).workers;
  }

  function Requeued(s: State, w: nat, f: nat): State
    requires w < |s.workers| && s.workers[w].pc.Busy?
  {
    EndBody(Push(s, FiberItem(f), ANY_THREAD), w, true)
  }

  lemma CanRequeue(cfg: Config, s: State, w: nat, f: nat)
    requires Reachable(cfg, s) && AtPhase(s, w, Judging) && s.workers[w].pc.f == f && !s.workers[w].pc.cb
    requires s.fibers[f].status == Status.Ready && s.lock == None
    ensures Reachable(cfg, Requeued(s, w, f))
  {
    RequeueSteps(cfg, s, w, f);
    ReachableStep(cfg, s, Judge(w));
    ReachableStep(cfg, SetPhase(s, w, Requeueing), Requeue(w));
  }

  lemma RequeueSteps(cfg: Config, s: State, w: nat, f: nat)
    requires AtPhase(s, w, Judging) && s.workers[w].pc.f == f && !s.workers[w].pc.cb
    requires s.fibers[f].status == Status.Ready && s.lock == None
    ensures var s1 := SetPhase(s, w, Requeueing);
      && Enabled(cfg, s, Judge(w)) && Next(cfg, s, Judge(w)) == s1
      && Enabled(cfg, s1, Requeue(w)) && Next(cfg, s1, Requeue(w)) == Requeued(s, w, f)
  {
    var s1 := SetPhase(s, w, Requeueing);
    assert Next(cfg, s1, Requeue(w)).workers == Requeued(s, w, f).workers;
  }

  /** A fiber that schedules a callback for thread 0 and ends. */
  function Pinned(s: State, w: nat, f: nat): State
    requires w < |s.workers| && s.workers[w].pc.Busy? && f < |s.fibers|
  {
    EndBody(SetStatus(Push(s, CallbackItem, 0), f, Term), w, true).(active := s.active - 1)
  }

  lemma CanPin(cfg: Config, s: State, w: nat, f: nat)
    requires cfg.pins && Reachable(cfg, s) && AtPhase(s, w, Running) && s.workers[w].pc.f == f && !s.workers[w].pc.cb
    requires s.fibers[f].armed == 0 && s.lock == None
    ensures Reachable(cfg, Pinned(s, w, f))
  {
    ReachableStep(cfg, s, ScheduleCallback(0, Some(w)));
    var s1 := Push(s, CallbackItem, 0);
    ReachableStep(cfg, s1, Finish(w, true));
    var s2 := SetPhase(SetStatus(s1, f, Term), w, Back);
    PinSteps(cfg, s, w, f);
    ReachableStep(cfg, s2, AfterSwap(w));
    ReachableStep(cfg, SetPhase(s2, w, Judging).(active := s.active - 1), Judge(w));
  }

  lemma PinSteps(cfg: Config, s: State, w: nat, f: nat)
    requires AtPhase(s, w, Running) && s.workers[w].pc.f == f && !s.workers[w].pc.cb
    ensures var s2 := SetPhase(SetStatus(Push(s, CallbackItem, 0), f, Term), w, Back);
      var s3 := SetPhase(s2, w, Judging).(active := s.active - 1);
      && Enabled(cfg, s2, AfterSwap(w)) && Next(cfg, s2, AfterSwap(w)) == s3
      && Enabled(cfg, s3, Judge(w)) && Next(cfg, s3, Judge(w)) == Pinned(s, w, f)
  {
    var s3 := SetPhase(SetPhase(SetStatus(Push(s, CallbackItem, 0), f, Term), w, Back), w, Judging).(active := s.active - 1);
    assert Next(cfg, s3, Judge(w)).workers == Pinned(s, w, f).workers;
  }

  // ---------------------------------------------------------------- an outside thread

  /** One worker, stopped with nothing to do. */
  const ALONE := State([], [], [Worker(Top, None, false)], None, 0, 0, true, true, 0, multiset{}, [])

  /** A thread outside schedules after the worker has left. */
  lemma OutsideLeft(cfg: Config) returns (s: State)
    requires cfg.open
    ensures Reachable(cfg, s) && !LeavesNothing(s)
  {
    ReachableInit(cfg, ALONE);
    CanTerm(cfg, ALONE, 0);
    s := Termed(ALONE, 0);
    CanLeave(cfg, s, 0);
    s := SetPc(s, 0, Left);
    ReachableStep(cfg, s, ScheduleCallback(ANY_THREAD, None));
    s := Push(s, CallbackItem, ANY_THREAD);
  }

  // ---------------------------------------------------------------- a pinned entry

  /** Two workers and fiber 0, in a scheduler that has been stopped. */
  predicate Two(s: State, v: Worker, w: Worker, f: Fiber, active: int) {
    && s.workers == [v, w] && s.fibers == [f] && s.active == active
    && s.lock == None && s.autoStop && s.stopping
  }

  /** Only fiber 0 is in the queue, for any thread. */
  predicate OnlyFiber(q: seq<Entry>) {
    |q| == 1 && q[0].item == FiberItem(0) && q[0].thread == ANY_THREAD
  }

  predicate InBody(w: Worker, p: Phase, term: bool) {
    w.pc.Busy? && w.pc.f == 0 && !w.pc.cb && w.pc.phase == p && w.cbFiber == None && w.idleTerm == term
  }

  const YIELDED := Fiber(Status.Ready, 0, 0)
  const EXECUTING := Fiber(Exec, 0, 0)

  /** Worker `w` takes fiber 0 out of the queue and runs it. */
  lemma Runs(cfg: Config, s: State, w: nat) returns (t: State)
    requires Reachable(cfg, s) && |s.workers| == 2 && AtTop(s, w) && s.fibers == [YIELDED] && OnlyFiber(s.queue) && s.active == 0
    requires s.autoStop && s.stopping && s.workers[w].cbFiber == None
    ensures Reachable(cfg, t) && t.queue == [] && t.fibers == [EXECUTING] && t.lock == None && t.active == 1
    ensures t.autoStop && t.stopping && |t.workers| == 2 && t.workers[1 - w] == s.workers[1 - w]
    ensures InBody(t.workers[w], Running, s.workers[w].idleTerm)
  {
    CanTake(cfg, s, w);
    t := TookFirst(s, w);
    CanResume(cfg, t, w, 0);
    t := SetPc(t, w, Busy(t.workers[w].pc.e, 0, false, Running)).(
      fibers := t.fibers[0 := Fiber(Exec, 0, t.fibers[0].wakes)], log := t.log + [In(w, 0)]);
  }

  /** Worker 0 runs fiber 0, and the scheduler is stopped. */
  lemma RunsStopped(cfg: Config) returns (s: State)
    ensures Reachable(cfg, s) && s.queue == [] && |s.workers| == 2 && InBody(s.workers[0], Running, false)
    ensures Two(s, s.workers[0], Worker(Top, None, false), EXECUTING, 1)
  {
    s := FirstRuns(cfg);
    ReachableStep(cfg, s, Stop);
    s := s.(autoStop := true, stopping := true);
  }

  /** Worker 0 runs fiber 0 and is in the window; worker 1 meanwhile finds nothing to do. */
  lemma FirstWindow(cfg: Config) returns (s: State)
    ensures Reachable(cfg, s) && s.queue == [] && |s.workers| == 2 && InBody(s.workers[0], Judging, false)
    ensures Two(s, s.workers[0], Worker(Top, None, true), YIELDED, 0)
  {
    s := RunsStopped(cfg);
    CanWindow(cfg, s, 0, 0);
    s := Window(s, 0, 0);
    CanTerm(cfg, s, 1);
    s := Termed(s, 1);
  }

  lemma PutsBack(cfg: Config) returns (s: State)
    ensures Reachable(cfg, s) && OnlyFiber(s.queue)
    ensures Two(s, Worker(Top, None, false), Worker(Top, None, true), YIELDED, 0)
  {
    s := FirstWindow(cfg);
    CanRequeue(cfg, s, 0, 0);
    s := Requeued(s, 0, 0);
  }

  /** Worker 0 puts the fiber back, and worker 1 takes it. */
  lemma ChangesHands(cfg: Config) returns (s: State)
    ensures Reachable(cfg, s) && s.queue == [] && |s.workers| == 2 && InBody(s.workers[1], Running, true)
    ensures Two(s, Worker(Top, None, false), s.workers[1], EXECUTING, 1)
  {
    s := PutsBack(cfg);
    s := Runs(cfg, s, 1);
  }

  /** Worker 1 is in the window; worker 0 meanwhile finds nothing to do and leaves. */
  lemma SecondWindow(cfg: Config) returns (s: State)
    ensures Reachable(cfg, s) && s.queue == [] && |s.workers| == 2 && InBody(s.workers[1], Judging, true)
    ensures Two(s, Worker(Left, None, true), s.workers[1], YIELDED, 0)
  {
    s := ChangesHands(cfg);
    CanWindow(cfg, s, 1, 0);
    s := Window(s, 1, 0);
    CanTerm(cfg, s, 0);
    s := Termed(s, 0);
    CanLeave(cfg, s, 0);
    s := SetPc(s, 0, Left);
  }

  /** Worker 1 runs the fiber once more. */
  lemma RunsLast(cfg: Config) returns (s: State)
    ensures Reachable(cfg, s) && s.queue == [] && |s.workers| == 2 && InBody(s.workers[1], Running, true)
    ensures Two(s, Worker(Left, None, true), s.workers[1], EXECUTING, 1)
  {
    s := SecondWindow(cfg);
    CanRequeue(cfg, s, 1, 0);
    s := Requeued(s, 1, 0);
    s := Runs(cfg, s, 1);
  }

  /** The fiber schedules a callback for thread 0 and ends, and worker 1 leaves. */
  lemma PinnedLeft(cfg: Config) returns (s: State)
    requires cfg.pins
    ensures Reachable(cfg, s) && !LeavesNothing(s)
  {
    s := RunsLast(cfg);
    CanPin(cfg, s, 1, 0);
    s := Pinned(s, 1, 0);
    CanLeavePinned(cfg, s, 1);
    s := SetPc(s, 1, Left);
    assert s.queue[0].item == CallbackItem;
  }

  /** Nothing is left behind in any reachable state if and only if nobody outside schedules and nothing
      is pinned. */
  lemma ShutdownIff(cfg: Config)
    requires cfg.wakeLimit <= 1
    ensures (forall s :: Reachable(cfg, s) ==> LeavesNothing(s)) <==> !cfg.open && !cfg.pins
  {
    if cfg.open {
      var s := OutsideLeft(cfg);
    } else if cfg.pins {
      var s := PinnedLeft(cfg);
    } else {
      forall s | Reachable(cfg, s) ensures LeavesNothing(s) {
        ClosedLeavesNothing(cfg, s);
      }
    }
  }
}
