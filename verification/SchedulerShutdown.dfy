/** Shutdown of a closed scheduler: only its own fibers schedule, and nothing is pinned.  When
    the last worker has left the loop, nothing is left in the queue, although the active count
    drops before a fiber that yielded to Ready is queued again.

    Where a contract says `P(..) == true` it means `P(..)`; the longer form keeps the verifier from
    proving the parts of P one by one. */
module SchedulerShutdown {
  import opened Scheduler
  import opened SchedulerSafety
  import opened SchedulerRuns
  import opened SchedulerConservation

  /** A worker that will look at the queue again, or has not yet looked at all of it. */
  predicate Minds(w: Worker, n: nat) {
    !(w.pc == Left || (w.idleTerm && (w.pc == Empty || w.pc == Scan(n))))
  }

  ghost predicate Minded(s: State) {
    s.queue != [] ==> exists w :: 0 <= w < |s.workers| && Minds(s.workers[w], |s.queue|)
  }

  ghost predicate ExecHeld(s: State) {
    forall f :: 0 <= f < |s.fibers| && s.fibers[f].status == Exec ==>
      exists w :: 0 <= w < |s.workers| && Executing(s.workers[w], f)
  }

  ghost predicate Unpinned(s: State) {
    forall i :: 0 <= i < |s.queue| ==> s.queue[i].thread == ANY_THREAD
  }

  ghost predicate Closing(s: State) {
    ExecHeld(s) && Unpinned(s) && Minded(s)
  }

  // ---------------------------------------------------------------- Exec fibers have a worker

  /** The only fiber a step can make Exec is the one it swaps in, and a worker that is done
      with a fiber leaves it with another status. */
  lemma StatusStep(cfg: Config, s: State, a: Action, f: nat)
    requires cfg.wakeLimit <= 1 && Safe(s) && Enabled(cfg, s, a)
    requires f < |Next(cfg, s, a).fibers| && Next(cfg, s, a).fibers[f].status == Exec
    ensures f < |s.fibers|
    ensures (a.SwapIn? && s.workers[a.w].pc.f == f) || s.fibers[f].status == Exec
    ensures BodyStep(a) && !a.DropStale? && !a.SwapIn? && s.workers[a.w].pc.f == f ==>
              Next(cfg, s, a).log == s.log
  {
    if SwapStep(a) {
      StatusSwap(cfg, s, a, f);
    } else if EndStep(a) {
      StatusEnd(cfg, s, a, f);
    }
  }

  lemma StatusSwap(cfg: Config, s: State, a: Action, f: nat)
    requires cfg.wakeLimit <= 1 && Safe(s) && Enabled(cfg, s, a) && SwapStep(a)
    requires f < |Next(cfg, s, a).fibers| && Next(cfg, s, a).fibers[f].status == Exec
    ensures f < |s.fibers|
    ensures (a.SwapIn? && s.workers[a.w].pc.f == f) || s.fibers[f].status == Exec
    ensures !a.SwapIn? && s.workers[a.w].pc.f == f ==> Next(cfg, s, a).log == s.log
  {
    assert WorkerOk(s, a.w);
  }

  lemma StatusEnd(cfg: Config, s: State, a: Action, f: nat)
    requires cfg.wakeLimit <= 1 && Safe(s) && Enabled(cfg, s, a) && EndStep(a)
    requires f < |Next(cfg, s, a).fibers| && Next(cfg, s, a).fibers[f].status == Exec
    ensures f < |s.fibers| && s.fibers[f].status == Exec
    ensures !a.DropStale? && s.workers[a.w].pc.f == f ==> Next(cfg, s, a).log == s.log
  {
    assert WorkerOk(s, a.w);
  }

  lemma ExecHeldStep(cfg: Config, s: State, a: Action)
    requires cfg.wakeLimit <= 1 && Safe(s) && Enabled(cfg, s, a) && ExecHeld(s)
    ensures ExecHeld(Next(cfg, s, a))
  {
    var t := Next(cfg, s, a);
    StepShape(cfg, s, a);
    forall f | 0 <= f < |t.fibers| && t.fibers[f].status == Exec
      ensures exists w :: 0 <= w < |t.workers| && Executing(t.workers[w], f)
    {
      StatusStep(cfg, s, a, f);
      if a.SwapIn? && s.workers[a.w].pc.f == f {
        assert Executing(t.workers[a.w], f);
      } else {
        var v :| 0 <= v < |s.workers| && Executing(s.workers[v], f);
        if !Outside(a) && v == a.w {
          StillExecuting(cfg, s, a, f);
        }
        assert Executing(t.workers[v], f);
      }
    }
  }

  lemma StillExecuting(cfg: Config, s: State, a: Action, f: nat)
    requires cfg.wakeLimit <= 1 && Safe(s) && Enabled(cfg, s, a) && !Outside(a)
    requires a.w < |s.workers| && Executing(s.workers[a.w], f)
    requires f < |Next(cfg, s, a).fibers| && Next(cfg, s, a).fibers[f].status == Exec
    ensures a.w < |Next(cfg, s, a).workers| && Executing(Next(cfg, s, a).workers[a.w], f)
  {
    StepShape(cfg, s, a);
    StatusStep(cfg, s, a, f);
    SamePhase(cfg, s, a);
  }

  // ---------------------------------------------------------------- someone minds the queue

  /** A step of a worker that leaves it minding the queue. */
  lemma MindedBy(t: State, w: nat)
    requires w < |t.workers| && Minds(t.workers[w], |t.queue|)
    ensures Minded(t)
  {
  }

  /** If a step takes a worker out of the minders, it was at the end of its scan, and the
      entry it skipped last belongs to a fiber that another worker runs. */
  lemma MindedScan(cfg: Config, s: State, w: nat)
    requires Closing(s) && Safe(s) && Enabled(cfg, s, ScanNext(w))
    ensures Minded(Next(cfg, s, ScanNext(w)))
  {
    var t, i := Next(cfg, s, ScanNext(w)), s.workers[w].pc.i;
    if Runnable(s, w, s.queue[i]) {
      MindedBy(t, w);
    } else {
      var f := s.queue[i].item.f;
      var v :| 0 <= v < |s.workers| && Executing(s.workers[v], f);
      assert v != w && t.workers[v] == s.workers[v];
      MindedBy(t, v);
    }
  }

  /** A worker busy with an entry minds the queue, and so does one at the top of the loop. */
  lemma MindedBody(cfg: Config, s: State, a: Action)
    requires Enabled(cfg, s, a) && BodyStep(a)
    ensures Minded(Next(cfg, s, a))
  {
    if SwapStep(a) {
      MindsAfterSwap(cfg, s, a);
    } else if a.Judge? {
      MindsAfterJudge(cfg, s, a.w);
    } else {
      MindsAtEnd(cfg, s, a);
    }
    MindedBy(Next(cfg, s, a), a.w);
  }

  ghost predicate InLoop(t: State, w: nat) {
    w < |t.workers| && (t.workers[w].pc.Busy? || t.workers[w].pc == Top)
  }

  lemma MindsAfterSwap(cfg: Config, s: State, a: Action)
    requires Enabled(cfg, s, a) && SwapStep(a)
    ensures InLoop(Next(cfg, s, a), a.w) == true
  {
  }

  lemma MindsAfterJudge(cfg: Config, s: State, w: nat)
    requires Enabled(cfg, s, Judge(w))
    ensures InLoop(Next(cfg, s, Judge(w)), w) == true
  {
  }

  lemma MindsAtEnd(cfg: Config, s: State, a: Action)
    requires Enabled(cfg, s, a) && EndStep(a) && !a.Judge?
    ensures InLoop(Next(cfg, s, a), a.w) == true
  {
  }

  lemma MindedOutside(cfg: Config, s: State, a: Action)
    requires !cfg.open && Closing(s) && Enabled(cfg, s, a) && Outside(a)
    ensures Minded(Next(cfg, s, a))
  {
    var t := Next(cfg, s, a);
    assert t.workers == s.workers;
    if a.NewFiber? || a.Stop? {
      assert t.queue == s.queue;
    } else {
      MindedBy(t, a.caller.value);
    }
  }

  lemma MindedLoop(cfg: Config, s: State, a: Action)
    requires Closing(s) && Safe(s) && Enabled(cfg, s, a) && !Outside(a) && !BodyStep(a) && !a.ScanNext?
    ensures Minded(Next(cfg, s, a))
  {
    var t := Next(cfg, s, a);
    StepShape(cfg, s, a);
    if a.Take? || a.Dispatch? || a.LeaveIdle? || a.CheckStopping? || (a.Acquire? && s.queue != []) {
      MindedBy(t, a.w);
    } else if s.queue != [] {
      assert t.queue == s.queue;
      var v :| 0 <= v < |s.workers| && Minds(s.workers[v], |s.queue|);
      assert Minds(t.workers[v], |t.queue|);
    }
  }

  lemma UnpinnedStep(cfg: Config, s: State, a: Action)
    requires !cfg.pins && Unpinned(s) && Enabled(cfg, s, a)
    ensures Unpinned(Next(cfg, s, a))
  {
    StepMoves(cfg, s, a);
  }

  lemma ClosingStep(cfg: Config, s: State, a: Action)
    requires cfg.wakeLimit <= 1 && !cfg.open && !cfg.pins && Safe(s) && Closing(s) && Enabled(cfg, s, a)
    ensures Closing(Next(cfg, s, a))
  {
    ExecHeldStep(cfg, s, a);
    UnpinnedStep(cfg, s, a);
    if a.ScanNext? {
      MindedScan(cfg, s, a.w);
    } else if BodyStep(a) {
      MindedBody(cfg, s, a);
    } else if Outside(a) {
      MindedOutside(cfg, s, a);
    } else {
      MindedLoop(cfg, s, a);
    }
  }

  lemma {:induction false} RunCloses(cfg: Config, tr: seq<State>, acts: seq<Action>, n: nat)
    requires cfg.wakeLimit <= 1 && !cfg.open && !cfg.pins
    requires Run(cfg, tr, acts) && n < |tr| && |tr[0].workers| > 0
    ensures Closing(tr[n])
  {
    if n == 0 {
      assert Minds(tr[0].workers[0], |tr[0].queue|);
    } else {
      RunCloses(cfg, tr, acts, n - 1);
      RunIsSafe(cfg, tr, acts, n - 1);
      ClosingStep(cfg, tr[n - 1], acts[n - 1]);
    }
  }

  /** Once every worker has left the loop, the queue is empty and every entry that was ever
      scheduled is finished. */
  lemma ShutdownIsComplete(cfg: Config, tr: seq<State>, acts: seq<Action>, n: nat)
    requires cfg.wakeLimit <= 1 && !cfg.open && !cfg.pins
    requires Run(cfg, tr, acts) && n < |tr| && |tr[0].workers| > 0
    requires forall w :: 0 <= w < |tr[n].workers| ==> tr[n].workers[w].pc == Left
    ensures tr[n].queue == []
    ensures tr[n].finished == Upto(tr[n].nextId)
    ensures tr[n].active == 0
  {
    RunCloses(cfg, tr, acts, n);
    TasksConserved(cfg, tr, acts, n);
    NoneHeld(tr[n].workers);
    CountersExact(cfg, tr, acts, n);
    CountNone(Active, tr[n].workers);
  }

  lemma {:induction false} NoneHeld(ws: seq<Worker>)
    requires forall w :: 0 <= w < |ws| ==> ws[w].pc == Left
    ensures HeldIds(ws) == multiset{}
  {
    if ws != [] {
      NoneHeld(ws[..|ws| - 1]);
    }
  }
}
