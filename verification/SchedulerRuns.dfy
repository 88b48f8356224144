/** The scheduler over whole runs: exclusion, the asserts of the fiber class, and the exact
    number of wake-ups per suspension for which exclusion holds. */
module SchedulerRuns {
  import opened Common
  import opened Scheduler
  import opened SchedulerSafety

  lemma {:induction false} RunIsSafe(cfg: Config, tr: seq<State>, acts: seq<Action>, n: nat)
    requires cfg.wakeLimit <= 1 && Run(cfg, tr, acts) && n < |tr|
    ensures Safe(tr[n])
  {
    if n == 0 {
      SafeInit(cfg, tr[0]);
    } else {
      RunIsSafe(cfg, tr, acts, n - 1);
      SafeStep(cfg, tr[n - 1], acts[n - 1]);
    }
  }

  // ---------------------------------------------------------------- asserts in the code

  /** The assertion the code makes when it takes step `a`: swapIn wants a fiber that is not
      Exec, reset one that is Init, Term or Except, the yields one that is Exec. */
  ghost predicate CodeAssert(cfg: Config, s: State, a: Action)
    requires Enabled(cfg, s, a)
  {
    match a
    case SwapIn(w) => s.fibers[s.workers[w].pc.f].status != Exec
    case YieldToHold(w) => s.fibers[s.workers[w].pc.f].status == Exec
    case YieldToReady(w) => s.fibers[s.workers[w].pc.f].status == Exec
    case Recycle(w) => Resettable(s.fibers[s.workers[w].pc.f].status)
    case Dispatch(w) => (
      var me := s.workers[w];
      me.pc.e.item == CallbackItem && me.cbFiber.Some? ==> Resettable(s.fibers[me.cbFiber.value].status))
    case _ => true
  }

  lemma AssertsHold(cfg: Config, tr: seq<State>, acts: seq<Action>, n: nat)
    requires cfg.wakeLimit <= 1 && Run(cfg, tr, acts) && n < |acts|
    ensures CodeAssert(cfg, tr[n], acts[n])
  {
    RunIsSafe(cfg, tr, acts, n);
    var s, a := tr[n], acts[n];
    if a.SwapIn? || a.YieldToHold? || a.YieldToReady? || a.Recycle? || a.Dispatch? {
      assert WorkerOk(s, a.w);
    }
  }

  /** A fiber that is swapped in is with this worker alone, and the status left by its last
      run has been written: it is not Exec. */
  lemma ResumeIsExclusive(cfg: Config, tr: seq<State>, acts: seq<Action>, n: nat)
    requires cfg.wakeLimit <= 1 && Run(cfg, tr, acts) && n < |acts| && acts[n].SwapIn?
    ensures var s, w := tr[n], acts[n].w;
      var f := s.workers[w].pc.f;
      && s.fibers[f].status in {Init, Hold, Ready}
      && forall v :: 0 <= v < |s.workers| && v != w ==> !Owns(s.workers[v], f)
  {
    RunIsSafe(cfg, tr, acts, n);
    var s, w := tr[n], acts[n].w;
    assert WorkerOk(s, w);
    OwnerIsOnly(s, w, s.workers[w].pc.f);
  }

  // ---------------------------------------------------------------- the history

  /** Who runs fiber `f` after the history `log`, by the last event about `f`. */
  function Runner(log: seq<Event>, f: nat): Option<nat> {
    if log == [] then None
    else
      var last := log[|log| - 1];
      if last.f == f then (if last.In? then Some(last.w) else None) else Runner(log[..|log| - 1], f)
  }

  /** A history in which every swap-in of a fiber meets a fiber nobody runs, and every final
      status is written by the worker that swapped the fiber in. */
  predicate Alternates(log: seq<Event>) {
    log == [] ||
    (var past, last := log[..|log| - 1], log[|log| - 1];
     && Alternates(past)
     && Runner(past, last.f) == if last.In? then None else Some(last.w))
  }

  predicate Executing(w: Worker, f: nat) {
    w.pc.Busy? && w.pc.f == f && w.pc.phase != Resuming
  }

  ghost predicate LogOk(s: State) {
    && Alternates(s.log)
    && forall f: nat, w: nat :: Runner(s.log, f) == Some(w) <==> w < |s.workers| && Executing(s.workers[w], f)
  }

  lemma RunnerExtends(log: seq<Event>, e: Event)
    ensures forall f :: Runner(log + [e], f) == if e.f == f then (if e.In? then Some(e.w) else None) else Runner(log, f)
    ensures Alternates(log + [e]) <==> Alternates(log) && Runner(log, e.f) == if e.In? then None else Some(e.w)
  {
    assert (log + [e])[..|log|] == log;
  }

  lemma LogStep(cfg: Config, s: State, a: Action)
    requires cfg.wakeLimit <= 1 && Safe(s) && LogOk(s) && Enabled(cfg, s, a)
    ensures LogOk(Next(cfg, s, a))
  {
    var t := Next(cfg, s, a);
    if t.log == s.log {
      LogUnchanged(cfg, s, a);
    } else {
      var e := LogEntry(cfg, s, a);
      OwnerIsOnly(s, e.w, e.f);
      LogExtends(s, t, e.w, e);
    }
  }

  /** A step adds at most one event, about the fiber of the worker that takes it. */
  lemma LogEntry(cfg: Config, s: State, a: Action) returns (e: Event)
    requires Enabled(cfg, s, a) && Next(cfg, s, a).log != s.log
    ensures var t := Next(cfg, s, a);
      && e.w < |s.workers| == |t.workers| && t.log == s.log + [e]
      && (forall v :: 0 <= v < |s.workers| && v != e.w ==> t.workers[v] == s.workers[v])
      && s.workers[e.w].pc.Busy? && s.workers[e.w].pc.f == e.f
      && (e.In? <==> s.workers[e.w].pc.phase == Resuming)
      && if e.In? then t.workers[e.w].pc == s.workers[e.w].pc.(phase := Running) else t.workers[e.w].pc == Top
  {
    e := Next(cfg, s, a).log[|s.log|];
  }

  lemma LogExtends(s: State, t: State, w: nat, e: Event)
    requires LogOk(s) && w < |s.workers| == |t.workers| && t.log == s.log + [e] && e.w == w
    requires forall v :: 0 <= v < |s.workers| && v != w ==> t.workers[v] == s.workers[v]
    requires OnlyOwner(s, w, e.f) && s.workers[w].pc.Busy? && s.workers[w].pc.f == e.f
    requires e.In? <==> s.workers[w].pc.phase == Resuming
    requires if e.In? then t.workers[w].pc == s.workers[w].pc.(phase := Running) else t.workers[w].pc == Top
    ensures LogOk(t)
  {
    var f := e.f;
    RunnerExtends(s.log, e);
    if e.In? {
      forall v | 0 <= v < |s.workers|
        ensures !Executing(s.workers[v], f)
      {
        assert v == w || !Owns(s.workers[v], f);
      }
    } else {
      assert Executing(s.workers[w], f);
    }
    forall g: nat, v: nat
      ensures Runner(t.log, g) == Some(v) <==> v < |t.workers| && Executing(t.workers[v], g)
    {
      if v < |s.workers| && Executing(s.workers[v], g) {
        assert Owns(s.workers[v], g);
      }
    }
  }

  lemma LogFrame(s: State, t: State, w: nat)
    requires LogOk(s) && w < |s.workers| == |t.workers| && t.log == s.log
    requires forall v :: 0 <= v < |s.workers| && v != w ==> t.workers[v] == s.workers[v]
    requires forall f: nat :: Executing(t.workers[w], f) <==> Executing(s.workers[w], f)
    ensures LogOk(t)
  {
  }

  lemma LogUnchanged(cfg: Config, s: State, a: Action)
    requires LogOk(s) && Enabled(cfg, s, a) && Next(cfg, s, a).log == s.log
    ensures LogOk(Next(cfg, s, a))
  {
    StepShape(cfg, s, a);
    if !Outside(a) {
      SamePhase(cfg, s, a);
      LogFrame(s, Next(cfg, s, a), a.w);
    }
  }

  lemma SamePhase(cfg: Config, s: State, a: Action)
    requires Enabled(cfg, s, a) && Next(cfg, s, a).log == s.log && !Outside(a)
    ensures forall f: nat :: Executing(Next(cfg, s, a).workers[a.w], f) <==> Executing(s.workers[a.w], f)
  {
    if SwapStep(a) {
      SamePhaseSwap(cfg, s, a);
    } else if EndStep(a) {
      SamePhaseEnd(cfg, s, a);
    } else {
      SamePhaseLoop(cfg, s, a);
    }
  }

  lemma SamePhaseSwap(cfg: Config, s: State, a: Action)
    requires Enabled(cfg, s, a) && Next(cfg, s, a).log == s.log && SwapStep(a)
    ensures forall f: nat :: Executing(Next(cfg, s, a).workers[a.w], f) <==> Executing(s.workers[a.w], f)
  {
  }

  lemma SamePhaseEnd(cfg: Config, s: State, a: Action)
    requires Enabled(cfg, s, a) && Next(cfg, s, a).log == s.log && EndStep(a)
    ensures forall f: nat :: Executing(Next(cfg, s, a).workers[a.w], f) <==> Executing(s.workers[a.w], f)
  {
  }

  lemma SamePhaseLoop(cfg: Config, s: State, a: Action)
    requires Enabled(cfg, s, a) && Next(cfg, s, a).log == s.log && !Outside(a) && !SwapStep(a) && !EndStep(a)
    ensures forall f: nat :: Executing(Next(cfg, s, a).workers[a.w], f) <==> Executing(s.workers[a.w], f)
  {
  }

  lemma {:induction false} RunLogOk(cfg: Config, tr: seq<State>, acts: seq<Action>, n: nat)
    requires cfg.wakeLimit <= 1 && Run(cfg, tr, acts) && n < |tr|
    ensures LogOk(tr[n])
  {
    if n == 0 {
      assert tr[0].log == [];
    } else {
      RunLogOk(cfg, tr, acts, n - 1);
      RunIsSafe(cfg, tr, acts, n - 1);
      LogStep(cfg, tr[n - 1], acts[n - 1]);
    }
  }

  /** In the history of every run, each fiber is swapped in and given its final status in strict
      alternation, both times by the same worker. */
  lemma HistoryAlternates(cfg: Config, tr: seq<State>, acts: seq<Action>, n: nat)
    requires cfg.wakeLimit <= 1 && Run(cfg, tr, acts) && n < |tr|
    ensures Alternates(tr[n].log)
  {
    RunLogOk(cfg, tr, acts, n);
  }

  // ---------------------------------------------------------------- the exact limit

  ghost predicate HeldOnce(s: State) {
    forall v, w, f :: 0 <= v < w < |s.workers| && Holds(s.workers[v], f) ==> !Holds(s.workers[w], f)
  }

  lemma ReachableHeldOnce(cfg: Config, s: State)
    requires cfg.wakeLimit <= 1 && Reachable(cfg, s)
    ensures HeldOnce(s)
  {
    var tr, acts :| Run(cfg, tr, acts) && tr[|acts|] == s;
    RunIsSafe(cfg, tr, acts, |acts|);
    SafeHeldOnce(s);
  }

  lemma SafeHeldOnce(s: State)
    requires Safe(s)
    ensures HeldOnce(s)
  {
    forall v, w, f | 0 <= v < w < |s.workers| && Holds(s.workers[v], f)
      ensures !Holds(s.workers[w], f)
    {
      assert Owns(s.workers[v], f);
    }
  }

  lemma RunExtends(cfg: Config, tr: seq<State>, acts: seq<Action>, a: Action)
    requires Run(cfg, tr, acts) && Enabled(cfg, tr[|acts|], a)
    ensures Run(cfg, tr + [Next(cfg, tr[|acts|], a)], acts + [a])
  {
    var tr', acts' := tr + [Next(cfg, tr[|acts|], a)], acts + [a];
    forall i | 0 <= i < |acts'|
      ensures Enabled(cfg, tr'[i], acts'[i]) && tr'[i + 1] == Next(cfg, tr'[i], acts'[i])
    {
      if i < |acts| {
        assert acts'[i] == acts[i] && tr'[i] == tr[i] && tr'[i + 1] == tr[i + 1];
      }
    }
  }

  lemma ReachableInit(cfg: Config, s: State)
    requires Initial(cfg, s)
    ensures Reachable(cfg, s)
  {
    assert Run(cfg, [s], []);
  }

  lemma ReachableStep(cfg: Config, s: State, a: Action)
    requires Reachable(cfg, s) && Enabled(cfg, s, a)
    ensures Reachable(cfg, Next(cfg, s, a))
  {
    var tr, acts :| Run(cfg, tr, acts) && tr[|acts|] == s;
    RunExtends(cfg, tr, acts, a);
    var tr', acts' := tr + [Next(cfg, s, a)], acts + [a];
    assert tr'[|acts'|] == Next(cfg, s, a);
  }

  /** The state after worker `w` has taken the first entry of the queue. */
  function TookFirst(s: State, w: nat): State
    requires w < |s.workers| && s.queue != []
  {
    SetPc(s, w, Taken(s.queue[0])).(queue := s.queue[1..], active := s.active + 1)
  }

  /** Worker `w` at the top of its loop can take the first entry, if it may run it. */
  lemma CanTake(cfg: Config, s: State, w: nat)
    requires Reachable(cfg, s) && w < |s.workers| && s.workers[w].pc == Top && s.lock == None
    requires s.queue != [] && Runnable(s, w, s.queue[0])
    ensures Reachable(cfg, TookFirst(s, w))
  {
    ReachableStep(cfg, s, Acquire(w));
    var s1 := SetPc(s, w, Scan(0)).(lock := Some(w));
    ReachableStep(cfg, s1, ScanNext(w));
    var s2 := SetPc(s, w, Chosen(0)).(lock := Some(w));
    TakeFirst(cfg, s, w);
    ReachableStep(cfg, s2, Take(w));
  }

  lemma TakeFirst(cfg: Config, s: State, w: nat)
    requires w < |s.workers| && s.lock == None && s.queue != [] && Runnable(s, w, s.queue[0])
    ensures var s1 := SetPc(s, w, Scan(0)).(lock := Some(w));
      var s2 := SetPc(s, w, Chosen(0)).(lock := Some(w));
      && Enabled(cfg, s1, ScanNext(w)) && Next(cfg, s1, ScanNext(w)) == s2
      && Enabled(cfg, s2, Take(w)) && Next(cfg, s2, Take(w)) == TookFirst(s, w)
  {
    assert s.queue[..0] + s.queue[1..] == s.queue[1..];
  }

  /** A worker that has taken a fiber can swap it in. */
  lemma CanResume(cfg: Config, s: State, w: nat, f: nat)
    requires Reachable(cfg, s) && w < |s.workers| && s.workers[w].pc.Taken?
    requires s.workers[w].pc.e.item == FiberItem(f) && f < |s.fibers| && !Ended(s.fibers[f].status)
    ensures Reachable(cfg, SetPc(s, w, Busy(s.workers[w].pc.e, f, false, Running)).(
                             fibers := s.fibers[f := Fiber(Exec, 0, s.fibers[f].wakes)], log := s.log + [In(w, f)]))
  {
    var e := s.workers[w].pc.e;
    ReachableStep(cfg, s, Dispatch(w));
    var s1 := Next(cfg, s, Dispatch(w));
    assert s1 == SetPc(s, w, Busy(e, f, false, Resuming));
    ReachableStep(cfg, s1, SwapIn(w));
  }

  /** A running fiber can hand out a wake-up that is queued at once, while it is still Exec. */
  lemma CanWake(cfg: Config, s: State, w: nat, f: nat)
    requires Reachable(cfg, s) && AtPhase(s, w, Running) && s.workers[w].pc.f == f && s.lock == None
    requires s.fibers[f].armed < cfg.wakeLimit && s.fibers[f].wakes == 0
    ensures Reachable(cfg, WithWake(s, f))
  {
    ArmThenWake(cfg, s, w, f);
    ReachableStep(cfg, s, Arm(w));
    ReachableStep(cfg, Next(cfg, s, Arm(w)), Wake(f, Some(w)));
  }

  /** Fiber `f` has handed out one more wake-up, and it is in the queue. */
  function WithWake(s: State, f: nat): State
    requires f < |s.fibers|
  {
    Push(s.(fibers := s.fibers[f := s.fibers[f].(armed := s.fibers[f].armed + 1)]), FiberItem(f), ANY_THREAD)
  }

  lemma ArmThenWake(cfg: Config, s: State, w: nat, f: nat)
    requires AtPhase(s, w, Running) && s.workers[w].pc.f == f && s.lock == None
    requires s.fibers[f].armed < cfg.wakeLimit && s.fibers[f].wakes == 0
    ensures Enabled(cfg, s, Arm(w)) && Enabled(cfg, Next(cfg, s, Arm(w)), Wake(f, Some(w)))
    ensures Next(cfg, Next(cfg, s, Arm(w)), Wake(f, Some(w))) == WithWake(s, f)
  {
    var s1 := Next(cfg, s, Arm(w));
    assert s1.fibers[f := s1.fibers[f].(wakes := 0)] == s.fibers[f := s.fibers[f].(armed := s.fibers[f].armed + 1)];
  }

  /** The state after fiber `f` of worker `w` has suspended and Hold is written. */
  function Suspended(s: State, w: nat, f: nat): State
    requires w < |s.workers| && s.workers[w].pc.Busy? && f < |s.fibers|
  {
    EndBody(SetStatus(s, f, Hold), w, true).(active := s.active - 1)
  }

  lemma CanSuspend(cfg: Config, s: State, w: nat, f: nat)
    requires Reachable(cfg, s) && AtPhase(s, w, Running) && s.workers[w].pc.f == f && !s.workers[w].pc.cb
    requires s.fibers[f].status == Exec
    ensures Reachable(cfg, Suspended(s, w, f))
  {
    CanReturn(cfg, s, w, f);
    CanPark(cfg, SetPhase(s, w, Judging).(active := s.active - 1), w, f);
  }

  lemma CanReturn(cfg: Config, s: State, w: nat, f: nat)
    requires Reachable(cfg, s) && AtPhase(s, w, Running) && s.workers[w].pc.f == f
    ensures Reachable(cfg, SetPhase(s, w, Judging).(active := s.active - 1))
  {
    ReachableStep(cfg, s, YieldToHold(w));
    var s1 := SetPhase(s, w, Back);
    ReachableStep(cfg, s1, AfterSwap(w));
    assert Next(cfg, s1, AfterSwap(w)) == SetPhase(s, w, Judging).(active := s.active - 1);
  }

  lemma CanPark(cfg: Config, s: State, w: nat, f: nat)
    requires Reachable(cfg, s) && AtPhase(s, w, Judging) && s.workers[w].pc.f == f && !s.workers[w].pc.cb
    requires s.fibers[f].status == Exec
    ensures Reachable(cfg, EndBody(SetStatus(s, f, Hold), w, true))
  {
    ReachableStep(cfg, s, Judge(w));
    var s1 := SetPhase(s, w, Parking);
    ReachableStep(cfg, s1, Park(w));
  }

  /** Two workers, and fiber 0 in the queue. */
  const START := State(
    [Entry(0, FiberItem(0), ANY_THREAD)], [Fiber(Init, 0, 0)],
    [Worker(Top, None, false), Worker(Top, None, false)], None, 0, 0, false, false, 1, multiset{}, [])

  /** The first worker runs fiber 0. */
  lemma FirstRuns(cfg: Config) returns (s: State)
    ensures Reachable(cfg, s) && |s.workers| == 2 && s.workers[1] == START.workers[1] && s.lock == None
    ensures s.workers[0] == Worker(Busy(START.queue[0], 0, false, Running), None, false)
    ensures s.fibers == [Fiber(Exec, 0, 0)] && s.queue == [] && s.active == 1
  {
    s := START;
    ReachableInit(cfg, s);
    CanTake(cfg, s, 0);
    s := TookFirst(s, 0);
    CanResume(cfg, s, 0, 0);
    s := SetPc(s, 0, Busy(s.workers[0].pc.e, 0, false, Running)).(
      fibers := s.fibers[0 := Fiber(Exec, 0, s.fibers[0].wakes)], log := s.log + [In(0, 0)]);
  }

  /** It is woken twice while it runs and then suspends. */
  lemma WokenTwice(cfg: Config) returns (s: State)
    requires cfg.wakeLimit >= 2
    ensures Reachable(cfg, s)
    ensures s.workers == START.workers && s.lock == None && |s.fibers| == 1 && s.fibers[0].status == Hold
    ensures |s.queue| == 2
    ensures forall i :: 0 <= i < 2 ==> s.queue[i].item == FiberItem(0) && s.queue[i].thread == ANY_THREAD
  {
    s := FirstRuns(cfg);
    s := WakeTwice(cfg, s);
    CanSuspend(cfg, s, 0, 0);
    s := Suspended(s, 0, 0);
  }

  lemma WakeTwice(cfg: Config, s: State) returns (t: State)
    requires cfg.wakeLimit >= 2 && Reachable(cfg, s) && AtPhase(s, 0, Running) && s.workers[0].pc.f == 0
    requires s.lock == None && s.queue == [] && s.fibers[0] == Fiber(Exec, 0, 0)
    ensures Reachable(cfg, t) && t.workers == s.workers && t.lock == None && |t.fibers| == |s.fibers|
    ensures t.fibers[0] == Fiber(Exec, 2, 0) && |t.queue| == 2
    ensures forall i :: 0 <= i < 2 ==> t.queue[i].item == FiberItem(0) && t.queue[i].thread == ANY_THREAD
  {
    CanWake(cfg, s, 0, 0);
    CanWake(cfg, WithWake(s, 0), 0, 0);
    t := WithWake(WithWake(s, 0), 0);
  }

  /** Both workers take fiber 0 before either has swapped it in. */
  lemma TakenTwice(cfg: Config) returns (s: State)
    requires cfg.wakeLimit >= 2
    ensures Reachable(cfg, s) && !HeldOnce(s)
  {
    s := WokenTwice(cfg);
    CanTake(cfg, s, 0);
    s := TookFirst(s, 0);
    CanTake(cfg, s, 1);
    s := TookFirst(s, 1);
    assert Holds(s.workers[0], 0) && Holds(s.workers[1], 0);
  }

  /** Exclusion holds in every reachable state exactly when one suspension may hand out at
      most one wake-up. */
  lemma ExclusionIff(cfg: Config)
    ensures (forall s :: Reachable(cfg, s) ==> HeldOnce(s)) <==> cfg.wakeLimit <= 1
  {
    if cfg.wakeLimit <= 1 {
      forall s | Reachable(cfg, s)
        ensures HeldOnce(s)
      {
        ReachableHeldOnce(cfg, s);
      }
    } else {
      var s := TakenTwice(cfg);
    }
  }
}
