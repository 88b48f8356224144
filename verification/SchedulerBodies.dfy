/** What becomes of a fiber when its body gives control back: its own last step decides.

    Where a contract says `P(..) == true` it means `P(..)`; the longer form keeps the verifier from
    proving the parts of P one by one. */
module SchedulerBodies {
  import opened Common
  import opened Scheduler
  import opened SchedulerSafety
  import opened SchedulerRuns
  import opened SchedulerConservation
  import opened SchedulerScan
  import opened SchedulerHistory

  /** The worker has control again and is not done with its fiber. */
  predicate Closing(pc: Pc) {
    pc.Busy? && pc.phase != Resuming && pc.phase != Running
  }

  predicate Leaves(a: Action) {
    a.YieldToHold? || a.YieldToReady? || a.Finish?
  }

  /** The status a fiber has left behind when its worker has control again. */
  function LeftAs(a: Action): Status
    requires Leaves(a)
  {
    match a
    case YieldToHold(_) => Exec
    case YieldToReady(_) => Ready
    case Finish(_, ok) => if ok then Term else Except
  }

  /** Its status when the worker is done with it: a fiber kept for callbacks is reset. */
  function SettledAs(a: Action, cb: bool): Status
    requires Leaves(a)
  {
    match a
    case YieldToHold(_) => Hold
    case YieldToReady(_) => Ready
    case Finish(_, ok) => if cb then Init else if ok then Term else Except
  }

  /** A step changes the status of no fiber but those its worker owns. */
  ghost predicate OthersStill(s: State, t: State, a: Action) {
    && |s.fibers| <= |t.fibers|
    && forall g :: 0 <= g < |s.fibers| && (!Outside(a) && a.w < |s.workers| ==> !Owns(s.workers[a.w], g)) ==>
         t.fibers[g].status == s.fibers[g].status
  }

  lemma SwapStill(cfg: Config, s: State, a: Action)
    requires Enabled(cfg, s, a) && SwapStep(a)
    ensures OthersStill(s, Next(cfg, s, a), a) == true
  {
  }

  lemma JudgeStill(cfg: Config, s: State, a: Action)
    requires Enabled(cfg, s, a) && a.Judge?
    ensures OthersStill(s, Next(cfg, s, a), a) == true
  {
  }

  lemma EndStill(cfg: Config, s: State, a: Action)
    requires Enabled(cfg, s, a) && EndStep(a) && !a.Judge?
    ensures OthersStill(s, Next(cfg, s, a), a) == true
  {
  }

  lemma LoopStill(cfg: Config, s: State, a: Action)
    requires Enabled(cfg, s, a) && !BodyStep(a)
    ensures OthersStill(s, Next(cfg, s, a), a) == true
  {
  }

  lemma StepStill(cfg: Config, s: State, a: Action)
    requires Enabled(cfg, s, a)
    ensures OthersStill(s, Next(cfg, s, a), a) == true
  {
    if SwapStep(a) {
      SwapStill(cfg, s, a);
    } else if a.Judge? {
      JudgeStill(cfg, s, a);
    } else if EndStep(a) {
      EndStill(cfg, s, a);
    } else {
      LoopStill(cfg, s, a);
    }
  }

  /** The status of a fiber that worker `w` owns is left alone by everybody else. */
  lemma OwnStill(cfg: Config, s: State, a: Action, w: nat, f: nat)
    requires Enabled(cfg, s, a) && Exclusive(s) && NotBy(a, w)
    requires w < |s.workers| && Owns(s.workers[w], f) && f < |s.fibers|
    ensures f < |Next(cfg, s, a).fibers| && Next(cfg, s, a).fibers[f].status == s.fibers[f].status
  {
    StepStill(cfg, s, a);
    OwnerIsOnly(s, w, f);
  }

  /** After step `m` the body of the fiber `w` was running is over, and its worker is dealing with it. */
  ghost predicate LeftSince(tr: seq<State>, acts: seq<Action>, m: nat, n: nat, w: nat) {
    && m < n < |tr| == |acts| + 1
    && w < |tr[m].workers| && w < |tr[n].workers| && tr[m].workers[w].pc.Busy? && Closing(tr[n].workers[w].pc)
    && var pc := tr[n].workers[w].pc;
       && Leaves(acts[m]) && acts[m].w == w
       && (forall k :: m < k < n ==> NotBy(acts[k], w) || acts[k] == AfterSwap(w) || acts[k] == Judge(w))
       && tr[m].workers[w].pc.f == pc.f < |tr[n].fibers| && tr[n].fibers[pc.f].status == LeftAs(acts[m])
  }

  /** The steps by which a worker comes to be, or stays, in that position. */
  ghost predicate ClosingStep(s: State, t: State, a: Action, w: nat) {
    && w < |s.workers| && w < |t.workers| && s.workers[w].pc.Busy? && t.workers[w].pc.Busy?
    && var f := s.workers[w].pc.f;
       && t.workers[w].pc.f == f < |s.fibers| == |t.fibers|
       && if Leaves(a) then t.fibers[f].status == (if a.YieldToHold? then s.fibers[f].status else LeftAs(a))
          else (a.AfterSwap? || a.Judge?) && Closing(s.workers[w].pc) && t.fibers == s.fibers
  }

  lemma SwapCloses(cfg: Config, s: State, a: Action)
    requires Enabled(cfg, s, a) && SwapStep(a) && Closing(Next(cfg, s, a).workers[a.w].pc)
    ensures ClosingStep(s, Next(cfg, s, a), a, a.w) == true
  {
  }

  lemma JudgeCloses(cfg: Config, s: State, a: Action)
    requires Enabled(cfg, s, a) && a.Judge? && Closing(Next(cfg, s, a).workers[a.w].pc)
    ensures ClosingStep(s, Next(cfg, s, a), a, a.w) == true
  {
  }

  lemma EndNotCloses(cfg: Config, s: State, a: Action)
    requires Enabled(cfg, s, a) && EndStep(a) && !a.Judge?
    ensures !Closing(Next(cfg, s, a).workers[a.w].pc)
  {
  }

  lemma LoopNotCloses(cfg: Config, s: State, a: Action)
    requires Enabled(cfg, s, a) && !BodyStep(a) && !Outside(a)
    ensures a.w < |Next(cfg, s, a).workers| && !Closing(Next(cfg, s, a).workers[a.w].pc)
  {
  }

  lemma StepCloses(cfg: Config, s: State, a: Action)
    requires Enabled(cfg, s, a) && !Outside(a) && a.w < |Next(cfg, s, a).workers| && Closing(Next(cfg, s, a).workers[a.w].pc)
    ensures ClosingStep(s, Next(cfg, s, a), a, a.w) == true
  {
    if SwapStep(a) {
      SwapCloses(cfg, s, a);
    } else if a.Judge? {
      JudgeCloses(cfg, s, a);
    } else if EndStep(a) {
      EndNotCloses(cfg, s, a);
    } else {
      LoopNotCloses(cfg, s, a);
    }
  }

  /** A step that leaves worker `w` there, with the same fiber and the same status. */
  ghost predicate StaysClosing(s: State, t: State, a: Action, w: nat) {
    && w < |s.workers| && w < |t.workers| && Closing(s.workers[w].pc) && Closing(t.workers[w].pc)
    && (NotBy(a, w) || a == AfterSwap(w) || a == Judge(w))
    && var f := s.workers[w].pc.f;
       t.workers[w].pc.f == f && f < |s.fibers| && f < |t.fibers| && t.fibers[f].status == s.fibers[f].status
  }

  lemma StaysByOther(cfg: Config, s: State, a: Action, w: nat)
    requires Enabled(cfg, s, a) && Exclusive(s) && NotBy(a, w) && w < |s.workers| && WorkerOk(s, w)
    requires w < |Next(cfg, s, a).workers| && Closing(Next(cfg, s, a).workers[w].pc)
    ensures StaysClosing(s, Next(cfg, s, a), a, w) == true
  {
    StepShape(cfg, s, a);
    OwnStill(cfg, s, a, w, s.workers[w].pc.f);
  }

  lemma StaysBySelf(s: State, t: State, a: Action)
    requires !Outside(a) && ClosingStep(s, t, a, a.w) && !Leaves(a) && Closing(t.workers[a.w].pc)
    ensures StaysClosing(s, t, a, a.w) == true
  {
  }

  lemma LeftExtends(tr: seq<State>, acts: seq<Action>, m: nat, n: nat, w: nat)
    requires n < |acts| && LeftSince(tr, acts, m, n, w) && StaysClosing(tr[n], tr[n + 1], acts[n], w)
    ensures LeftSince(tr, acts, m, n + 1, w) == true
  {
  }

  lemma LeftStarts(tr: seq<State>, acts: seq<Action>, n: nat)
    requires n < |acts| == |tr| - 1 && Leaves(acts[n]) && WorkerRuns(tr[n], acts[n].w)
    requires ClosingStep(tr[n], tr[n + 1], acts[n], acts[n].w) && Closing(tr[n + 1].workers[acts[n].w].pc)
    ensures LeftSince(tr, acts, n, n + 1, acts[n].w) == true
  {
  }

  predicate WorkerRuns(s: State, w: nat) {
    AtPhase(s, w, Running) && s.fibers[s.workers[w].pc.f].status == Exec
  }

  lemma LeavesRunning(cfg: Config, s: State, a: Action)
    requires Enabled(cfg, s, a) && Leaves(a) && WorkerOk(s, a.w)
    ensures WorkerRuns(s, a.w)
  {
  }

  /** The step before: the one the worker's fiber left with, or one that leaves the fiber alone. */
  lemma StepBefore(cfg: Config, tr: seq<State>, acts: seq<Action>, n: nat, w: nat)
    requires Run(cfg, tr, acts) && n < |acts| && Safe(tr[n])
    requires w < |tr[n + 1].workers| && Closing(tr[n + 1].workers[w].pc)
    ensures w < |tr[n].workers|
    ensures if !NotBy(acts[n], w) && Leaves(acts[n]) then LeftSince(tr, acts, n, n + 1, w) == true
            else StaysClosing(tr[n], tr[n + 1], acts[n], w) == true
  {
    var s, a := tr[n], acts[n];
    StepShape(cfg, s, a);
    assert WorkerOk(s, w);
    if NotBy(a, w) {
      StaysByOther(cfg, s, a, w);
    } else {
      StepCloses(cfg, s, a);
      if Leaves(a) {
        LeavesRunning(cfg, s, a);
        LeftStarts(tr, acts, n);
      } else {
        StaysBySelf(s, tr[n + 1], a);
      }
    }
  }

  ghost predicate BeforeIs(tr: seq<State>, acts: seq<Action>, n: nat, w: nat)
    requires n < |acts| < |tr|
  {
    w < |tr[n + 1].workers| && Closing(tr[n + 1].workers[w].pc) ==>
      if !NotBy(acts[n], w) && Leaves(acts[n]) then LeftSince(tr, acts, n, n + 1, w)
      else StaysClosing(tr[n], tr[n + 1], acts[n], w)
  }

  ghost predicate AlwaysBefore(tr: seq<State>, acts: seq<Action>, w: nat) {
    && |tr| == |acts| + 1 && (w < |tr[0].workers| ==> tr[0].workers[w].pc.Top?)
    && forall k :: 0 <= k < |acts| ==> BeforeIs(tr, acts, k, w)
  }

  lemma RunBefore(cfg: Config, tr: seq<State>, acts: seq<Action>, w: nat)
    requires cfg.wakeLimit <= 1 && Run(cfg, tr, acts)
    ensures AlwaysBefore(tr, acts, w) == true
  {
    forall k | 0 <= k < |acts| ensures BeforeIs(tr, acts, k, w) == true {
      if w < |tr[k + 1].workers| && Closing(tr[k + 1].workers[w].pc) {
        RunIsSafe(cfg, tr, acts, k);
        StepBefore(cfg, tr, acts, k, w);
      }
    }
  }

  /** A worker that has control again: its fiber has left behind what its last step says. */
  lemma {:induction false} LeftHolds(tr: seq<State>, acts: seq<Action>, n: nat, w: nat) returns (m: nat)
    requires AlwaysBefore(tr, acts, w) && n < |tr| && w < |tr[n].workers| && Closing(tr[n].workers[w].pc)
    ensures LeftSince(tr, acts, m, n, w) == true
    decreases n
  {
    assert n > 0;
    assert BeforeIs(tr, acts, n - 1, w) && tr[n - 1 + 1] == tr[n];
    if !NotBy(acts[n - 1], w) && Leaves(acts[n - 1]) {
      m := n - 1;
    } else {
      m := LeftHolds(tr, acts, n - 1, w);
      LeftExtends(tr, acts, m, n - 1, w);
    }
  }

  /** What becomes of a fiber that left status `st` behind, and of the queue. */
  ghost predicate Settles(s: State, t: State, w: nat) {
    && w < |s.workers| && Closing(s.workers[w].pc)
    && var pc := s.workers[w].pc;
       && pc.f < |s.fibers| == |t.fibers|
       && var st := s.fibers[pc.f].status;
          && t.fibers[pc.f].status == (if st == Exec then Hold else if Ended(st) && pc.cb then Init else st)
          && t.queue == s.queue + if st == Ready then [Entry(s.nextId, FiberItem(pc.f), -1)] else []
  }

  lemma JudgeSettles(cfg: Config, s: State, w: nat)
    requires Enabled(cfg, s, Judge(w)) && WorkerOk(s, w) && Next(cfg, s, Judge(w)).workers[w].pc.Top?
    ensures Settles(s, Next(cfg, s, Judge(w)), w) == true
  {
  }

  lemma EndSettles(cfg: Config, s: State, a: Action)
    requires Enabled(cfg, s, a) && EndStep(a) && !a.Judge? && WorkerOk(s, a.w) && Closing(s.workers[a.w].pc)
    ensures Settles(s, Next(cfg, s, a), a.w) == true
  {
  }

  lemma BodyGoesOn(cfg: Config, s: State, a: Action)
    requires Enabled(cfg, s, a) && !Outside(a) && !EndStep(a) && Closing(s.workers[a.w].pc)
    ensures !Next(cfg, s, a).workers[a.w].pc.Top?
  {
  }

  lemma StepSettles(cfg: Config, s: State, a: Action, w: nat)
    requires Enabled(cfg, s, a) && w < |s.workers| && WorkerOk(s, w) && Closing(s.workers[w].pc)
    requires w < |Next(cfg, s, a).workers| && Next(cfg, s, a).workers[w].pc.Top?
    ensures Settles(s, Next(cfg, s, a), w) == true
  {
    StepShape(cfg, s, a);
    if a.Judge? {
      JudgeSettles(cfg, s, w);
    } else if EndStep(a) {
      EndSettles(cfg, s, a);
    } else {
      BodyGoesOn(cfg, s, a);
    }
  }

  lemma RunSettles(cfg: Config, tr: seq<State>, acts: seq<Action>, n: nat, w: nat)
    requires cfg.wakeLimit <= 1 && Run(cfg, tr, acts) && n < |acts|
    requires w < |tr[n].workers| && Closing(tr[n].workers[w].pc)
    requires w < |tr[n + 1].workers| && tr[n + 1].workers[w].pc.Top?
    ensures Settles(tr[n], tr[n + 1], w) == true
  {
    RunIsSafe(cfg, tr, acts, n);
    StepSettles(cfg, tr[n], acts[n], w);
  }

  /** In every run with at most one wake-up per suspension: when a worker is done with a fiber, the fiber's
      status, and whether it is queued again, are what the fiber's own last step asked for.  It has yielded
      to wait and is Hold, or yielded to go on and is Ready and last in the queue, for any thread, or ended
      and is Term or Except; a fiber kept for callbacks is Init again. */
  lemma SettlesAsLeft(cfg: Config, tr: seq<State>, acts: seq<Action>, n: nat, w: nat) returns (m: nat)
    requires cfg.wakeLimit <= 1 && Run(cfg, tr, acts) && n < |acts|
    requires w < |tr[n].workers| && Closing(tr[n].workers[w].pc)
    requires w < |tr[n + 1].workers| && tr[n + 1].workers[w].pc.Top?
    ensures LeftSince(tr, acts, m, n, w)
    ensures var pc := tr[n].workers[w].pc;
      && pc.f < |tr[n + 1].fibers| && tr[n + 1].fibers[pc.f].status == SettledAs(acts[m], pc.cb)
      && tr[n + 1].queue
         == tr[n].queue + if acts[m].YieldToReady? then [Entry(tr[n].nextId, FiberItem(pc.f), -1)] else []
  {
    RunBefore(cfg, tr, acts, w);
    m := LeftHolds(tr, acts, n, w);
    RunSettles(cfg, tr, acts, n, w);
  }

  // ---------------------------------------------------------------- fibers that have not run

  ghost predicate Started(log: seq<Event>, f: nat) {
    exists i :: 0 <= i < |log| && log[i].In? && log[i].f == f
  }

  /** Only a fiber that was swapped in has another status than Init, and a worker in the body of a fiber, or
      past it, has swapped it in. */
  ghost predicate InitUntilRun(s: State) {
    && (forall f :: 0 <= f < |s.fibers| && s.fibers[f].status != Init ==> Started(s.log, f))
    && (forall w :: 0 <= w < |s.workers| && s.workers[w].pc.Busy? && s.workers[w].pc.phase != Resuming ==>
          Started(s.log, s.workers[w].pc.f))
  }

  lemma StartedGrows(log: seq<Event>, e: Event, f: nat)
    requires Started(log, f) || (e.In? && e.f == f)
    ensures Started(log + [e], f)
  {
    if e.In? && e.f == f {
      assert (log + [e])[|log|] == e;
    } else {
      var i :| 0 <= i < |log| && log[i].In? && log[i].f == f;
      assert (log + [e])[i] == log[i];
    }
  }

  /** How a step by worker `w` on fiber `f` changes the log and the statuses. */
  lemma InitKept(s: State, t: State, w: nat, f: nat)
    requires InitUntilRun(s) && w < |s.workers| == |t.workers| && |s.fibers| <= |t.fibers|
    requires forall v :: 0 <= v < |s.workers| && v != w ==> t.workers[v] == s.workers[v]
    requires t.log == s.log || (|t.log| == |s.log| + 1 && t.log[..|s.log|] == s.log)
    requires Started(t.log, f) || f >= |t.fibers| || t.fibers[f].status == Init
    requires forall g :: 0 <= g < |t.fibers| && g != f ==> t.fibers[g].status == if g < |s.fibers| then s.fibers[g].status else Init
    requires t.workers[w].pc.Busy? && t.workers[w].pc.phase != Resuming ==> Started(t.log, t.workers[w].pc.f)
    ensures InitUntilRun(t) == true
  {
    forall g | Started(s.log, g) ensures Started(t.log, g) {
      if t.log != s.log {
        assert t.log == s.log + [t.log[|s.log|]];
        StartedGrows(s.log, t.log[|s.log|], g);
      }
    }
  }

  lemma InitSwap(cfg: Config, s: State, a: Action)
    requires Enabled(cfg, s, a) && InitUntilRun(s) && SwapStep(a)
    ensures InitUntilRun(Next(cfg, s, a)) == true
  {
    var f := s.workers[a.w].pc.f;
    if a.SwapIn? {
      StartedGrows(s.log, In(a.w, f), f);
    }
    InitKept(s, Next(cfg, s, a), a.w, f);
  }

  lemma InitJudge(cfg: Config, s: State, a: Action)
    requires Enabled(cfg, s, a) && InitUntilRun(s) && a.Judge?
    ensures InitUntilRun(Next(cfg, s, a)) == true
  {
    InitKept(s, Next(cfg, s, a), a.w, |s.fibers|);
  }

  lemma InitEnd(cfg: Config, s: State, a: Action)
    requires Enabled(cfg, s, a) && InitUntilRun(s) && EndStep(a) && !a.Judge?
    ensures InitUntilRun(Next(cfg, s, a)) == true
  {
    var f := if s.workers[a.w].pc.Busy? then s.workers[a.w].pc.f else |s.fibers|;
    if Next(cfg, s, a).log != s.log && f < |s.fibers| {
      StartedGrows(s.log, Out(a.w, f), f);
    }
    InitKept(s, Next(cfg, s, a), a.w, f);
  }

  lemma InitDispatch(cfg: Config, s: State, a: Action)
    requires Enabled(cfg, s, a) && InitUntilRun(s) && a.Dispatch?
    ensures InitUntilRun(Next(cfg, s, a)) == true
  {
    var me := s.workers[a.w];
    InitKept(s, Next(cfg, s, a), a.w, if StartsCallback(s, a, a.w) && me.cbFiber.Some? then me.cbFiber.value else |s.fibers|);
  }

  lemma InitLoop(cfg: Config, s: State, a: Action)
    requires Enabled(cfg, s, a) && InitUntilRun(s) && !BodyStep(a) && !Outside(a) && !a.Dispatch?
    ensures InitUntilRun(Next(cfg, s, a)) == true
  {
    InitKept(s, Next(cfg, s, a), a.w, |s.fibers|);
  }

  lemma InitOutside(cfg: Config, s: State, a: Action)
    requires Enabled(cfg, s, a) && InitUntilRun(s) && Outside(a)
    ensures InitUntilRun(Next(cfg, s, a)) == true
  {
  }

  /** In every run, a fiber that no worker has swapped in is Init. */
  lemma {:induction false} FreshIsInit(cfg: Config, tr: seq<State>, acts: seq<Action>, n: nat)
    requires Run(cfg, tr, acts) && n < |tr|
    ensures InitUntilRun(tr[n])
  {
    if n > 0 {
      FreshIsInit(cfg, tr, acts, n - 1);
      var s, a := tr[n - 1], acts[n - 1];
      if SwapStep(a) {
        InitSwap(cfg, s, a);
      } else if a.Judge? {
        InitJudge(cfg, s, a);
      } else if a.Dispatch? {
        InitDispatch(cfg, s, a);
      } else if EndStep(a) {
        InitEnd(cfg, s, a);
      } else if Outside(a) {
        InitOutside(cfg, s, a);
      } else {
        InitLoop(cfg, s, a);
      }
    }
  }
}
