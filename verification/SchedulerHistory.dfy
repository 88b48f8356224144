/** What the steps of a run say about its state: which request each entry came from, when a worker may
    leave, and which fiber it keeps for callbacks.

    Where a contract says `P(..) == true` it means `P(..)`; the longer form keeps the verifier from
    proving the parts of P one by one. */
module SchedulerHistory {
  import opened Common
  import opened Scheduler
  import opened SchedulerSafety
  import opened SchedulerRuns
  import opened SchedulerConservation
  import opened SchedulerScan

  // ---------------------------------------------------------------- entries and requests

  /** A call of schedule: what for, and the thread asked for. */
  datatype Request = Request(item: Item, thread: int)

  /** The request that step `a` makes, if any.  A woken or a requeued fiber is for any thread. */
  function RequestOf(s: State, a: Action): seq<Request> {
    match a
    case Wake(f, _) => [Request(FiberItem(f), -1)]
    case ScheduleCallback(thread, _) => [Request(CallbackItem, thread)]
    case ScheduleFiber(f, thread, _) => [Request(FiberItem(f), thread)]
    case Requeue(w) => if w < |s.workers| && s.workers[w].pc.Busy? then [Request(FiberItem(s.workers[w].pc.f), -1)] else []
    case _ => []
  }

  function Requested(q: seq<Entry>): (r: seq<Request>)
    ensures |r| == |q| && forall i :: 0 <= i < |q| ==> r[i] == Request(q[i].item, q[i].thread)
  {
    if q == [] then [] else Requested(q[..|q| - 1]) + [Request(q[|q| - 1].item, q[|q| - 1].thread)]
  }

  /** All requests of the first `n` steps, in order. */
  ghost function Requests(tr: seq<State>, acts: seq<Action>, n: nat): seq<Request>
    requires n < |tr| == |acts| + 1
  {
    if n == 0 then Requested(tr[0].queue) else Requests(tr, acts, n - 1) + RequestOf(tr[n - 1], acts[n - 1])
  }

  predicate Answers(rs: seq<Request>, e: Entry) {
    e.id < |rs| && rs[e.id] == Request(e.item, e.thread)
  }

  /** The queue is in the order of the requests, and it and the workers hold what was asked for. */
  ghost predicate AsRequested(s: State, rs: seq<Request>) {
    && |rs| == s.nextId
    && (forall i :: 0 <= i < |s.queue| ==> Answers(rs, s.queue[i]))
    && (forall i, j :: 0 <= i < j < |s.queue| ==> s.queue[i].id < s.queue[j].id)
    && (forall w :: 0 <= w < |s.workers| && HeldEntry(s.workers[w]).Some? ==> Answers(rs, HeldEntry(s.workers[w]).value))
  }

  /** What a step puts on the queue is what it asks for. */
  lemma QueuesRequest(cfg: Config, s: State, a: Action)
    requires Enabled(cfg, s, a)
    ensures var t, rs := Next(cfg, s, a), RequestOf(s, a);
      && (QueueGrew(s, t) ==> |rs| == 1 && Request(t.queue[|s.queue|].item, t.queue[|s.queue|].thread) == rs[0])
      && (MoveOf(cfg, s, a).Added? || MoveOf(cfg, s, a) == Done(true) <==> rs != [])
  {
    StepMoves(cfg, s, a);
  }

  lemma RequestStep(cfg: Config, s: State, a: Action, rs: seq<Request>)
    requires Enabled(cfg, s, a) && AsRequested(s, rs)
    ensures AsRequested(Next(cfg, s, a), rs + RequestOf(s, a)) == true
  {
    StepMoves(cfg, s, a);
    StepShape(cfg, s, a);
    QueuesRequest(cfg, s, a);
    StepAnswers(s, Next(cfg, s, a), if Outside(a) then |s.workers| else a.w, MoveOf(cfg, s, a), rs, RequestOf(s, a));
  }

  lemma QueueAnswers(s: State, t: State, w: nat, m: Move, rs: seq<Request>, more: seq<Request>)
    requires AsRequested(s, rs) && Moved(s, t, w, m)
    requires if m.Added? || m == Done(true) then |more| == 1 && Request(t.queue[|s.queue|].item, t.queue[|s.queue|].thread) == more[0]
             else more == []
    ensures forall i :: 0 <= i < |t.queue| ==> Answers(rs + more, t.queue[i])
    ensures forall i, j :: 0 <= i < j < |t.queue| ==> t.queue[i].id < t.queue[j].id
  {
    if QueueGrew(s, t) {
      assert t.queue == s.queue + [t.queue[|s.queue|]];
    } else if m.Took? {
      assert t.queue == s.queue[..m.i] + s.queue[m.i + 1..];
    }
  }

  lemma StepAnswers(s: State, t: State, w: nat, m: Move, rs: seq<Request>, more: seq<Request>)
    requires AsRequested(s, rs) && Moved(s, t, w, m) && |t.workers| == |s.workers|
    requires forall v :: 0 <= v < |s.workers| && v != w ==> t.workers[v] == s.workers[v]
    requires m.Added? ==> w == |s.workers|
    requires if m.Added? || m == Done(true) then |more| == 1 && Request(t.queue[|s.queue|].item, t.queue[|s.queue|].thread) == more[0]
             else more == []
    ensures AsRequested(t, rs + more) == true
  {
    QueueAnswers(s, t, w, m, rs, more);
    forall v | 0 <= v < |t.workers| && HeldEntry(t.workers[v]).Some?
      ensures Answers(rs + more, HeldEntry(t.workers[v]).value)
    {
      assert v != w ==> HeldEntry(t.workers[v]) == HeldEntry(s.workers[v]);
    }
  }

  /** In every run, the entry with number k, wherever it is, is the k-th request: same fiber or callback,
      same thread; and the queue is in the order in which its entries were asked for. */
  lemma {:induction false} EntriesAsRequested(cfg: Config, tr: seq<State>, acts: seq<Action>, n: nat)
    requires Run(cfg, tr, acts) && n < |tr|
    ensures AsRequested(tr[n], Requests(tr, acts, n)) == true
  {
    if n > 0 {
      EntriesAsRequested(cfg, tr, acts, n - 1);
      RequestStep(cfg, tr[n - 1], acts[n - 1], Requests(tr, acts, n - 1));
    }
  }

  // ---------------------------------------------------------------- leaving the loop

  /** What the idle fiber asks before it ends: stop was called, the queue is empty and nobody is active. */
  predicate Stopped(s: State) {
    s.autoStop && s.stopping && s.queue == [] && s.active == 0
  }

  predicate LastCheck(acts: seq<Action>, m: nat, n: nat, w: nat) {
    m < n <= |acts| && acts[m] == CheckStopping(w) && forall k :: m < k < n ==> acts[k] != CheckStopping(w)
  }

  /** The last time worker `w` looked, before step `n`, everything had stopped. */
  ghost predicate SawStop(tr: seq<State>, acts: seq<Action>, n: nat, w: nat) {
    exists m: nat :: LastCheck(acts, m, n, w) && m < |tr| && Stopped(tr[m])
  }

  /** Worker `w` is in the body of a callback and gives up the fiber it runs it on. */
  predicate GivesUp(s: State, a: Action, w: nat) {
    (a == Park(w) || a == Requeue(w)) && w < |s.workers| && s.workers[w].pc.Busy? && s.workers[w].pc.cb
  }

  predicate StartsCallback(s: State, a: Action, w: nat) {
    a == Dispatch(w) && w < |s.workers| && s.workers[w].pc.Taken? && s.workers[w].pc.e.item == CallbackItem
  }

  /** How step `a` changes what worker `w` keeps from one round to the next. */
  ghost predicate Keeps(s: State, t: State, a: Action, w: nat) {
    && w < |s.workers| == |t.workers|
    && var me, you := s.workers[w], t.workers[w];
       && you.idleTerm == (if a == CheckStopping(w) then Stopped(s) else me.idleTerm)
       && you.cbFiber == (if GivesUp(s, a, w) then None
                          else if StartsCallback(s, a, w) && me.cbFiber.None? then Some(|s.fibers|)
                          else me.cbFiber)
       && (you.pc.Left? <==> me.pc.Left? || (a == Idle(w) && me.idleTerm))
  }

  lemma SwapKeeps(cfg: Config, s: State, a: Action)
    requires Enabled(cfg, s, a) && SwapStep(a)
    ensures Keeps(s, Next(cfg, s, a), a, a.w) == true
  {
  }

  lemma JudgeKeeps(cfg: Config, s: State, a: Action)
    requires Enabled(cfg, s, a) && a.Judge?
    ensures Keeps(s, Next(cfg, s, a), a, a.w) == true
  {
  }

  lemma EndKeeps(cfg: Config, s: State, a: Action)
    requires Enabled(cfg, s, a) && EndStep(a) && !a.Judge?
    ensures Keeps(s, Next(cfg, s, a), a, a.w) == true
  {
  }

  lemma LoopKeeps(cfg: Config, s: State, a: Action)
    requires Enabled(cfg, s, a) && !BodyStep(a) && !Outside(a)
    ensures Keeps(s, Next(cfg, s, a), a, a.w) == true
  {
  }

  lemma OwnKeeps(cfg: Config, s: State, a: Action)
    requires Enabled(cfg, s, a) && !Outside(a)
    ensures Keeps(s, Next(cfg, s, a), a, a.w) == true
  {
    if SwapStep(a) {
      SwapKeeps(cfg, s, a);
    } else if a.Judge? {
      JudgeKeeps(cfg, s, a);
    } else if EndStep(a) {
      EndKeeps(cfg, s, a);
    } else {
      LoopKeeps(cfg, s, a);
    }
  }

  lemma OtherKeeps(s: State, t: State, a: Action, w: nat)
    requires OnlyTaker(s, t, a) && NotBy(a, w) && w < |s.workers|
    ensures Keeps(s, t, a, w) == true
  {
  }

  lemma StepKeeps(cfg: Config, s: State, a: Action, w: nat)
    requires Enabled(cfg, s, a) && w < |s.workers|
    ensures Keeps(s, Next(cfg, s, a), a, w) == true
  {
    if NotBy(a, w) {
      StepShape(cfg, s, a);
      OtherKeeps(s, Next(cfg, s, a), a, w);
    } else {
      OwnKeeps(cfg, s, a);
    }
  }

  /** Worker `w` keeps its things throughout. */
  ghost predicate AlwaysKeeps(tr: seq<State>, acts: seq<Action>, w: nat) {
    && |tr| == |acts| + 1 && w < |tr[0].workers|
    && tr[0].workers[w] == Worker(Top, None, false)
    && forall k :: 0 <= k < |acts| ==> Keeps(tr[k], tr[k + 1], acts[k], w)
  }

  lemma {:induction false} WorkersStay(cfg: Config, tr: seq<State>, acts: seq<Action>, n: nat)
    requires Run(cfg, tr, acts) && n < |tr|
    ensures |tr[n].workers| == |tr[0].workers|
  {
    if n > 0 {
      WorkersStay(cfg, tr, acts, n - 1);
      StepShape(cfg, tr[n - 1], acts[n - 1]);
    }
  }

  lemma RunKeeps(cfg: Config, tr: seq<State>, acts: seq<Action>, w: nat)
    requires Run(cfg, tr, acts) && w < |tr[0].workers|
    ensures AlwaysKeeps(tr, acts, w) == true
  {
    forall k | 0 <= k < |acts| ensures Keeps(tr[k], tr[k + 1], acts[k], w) == true {
      WorkersStay(cfg, tr, acts, k);
      StepKeeps(cfg, tr[k], acts[k], w);
    }
  }

  lemma SawStopNext(tr: seq<State>, acts: seq<Action>, n: nat, w: nat)
    requires n < |acts| < |tr|
    ensures SawStop(tr, acts, n + 1, w) <==> if acts[n] == CheckStopping(w) then Stopped(tr[n]) else SawStop(tr, acts, n, w)
  {
    if acts[n] == CheckStopping(w) {
      assert LastCheck(acts, n, n + 1, w);
    } else if SawStop(tr, acts, n, w) {
      var m: nat :| LastCheck(acts, m, n, w) && Stopped(tr[m]);
      assert LastCheck(acts, m, n + 1, w);
    } else if SawStop(tr, acts, n + 1, w) {
      var m: nat :| LastCheck(acts, m, n + 1, w) && Stopped(tr[m]);
      assert LastCheck(acts, m, n, w);
    }
  }

  lemma {:induction false} IdleEnds(tr: seq<State>, acts: seq<Action>, n: nat, w: nat)
    requires AlwaysKeeps(tr, acts, w) && n < |tr|
    ensures w < |tr[n].workers| && (tr[n].workers[w].idleTerm <==> SawStop(tr, acts, n, w))
  {
    if n > 0 {
      assert Keeps(tr[n - 1], tr[n - 1 + 1], acts[n - 1], w);
      SawStopNext(tr, acts, n - 1, w);
      IdleEnds(tr, acts, n - 1, w);
    }
  }

  /** In every run, a worker's idle fiber has ended exactly when everything had stopped the last time it
      looked; it leaves its loop in no other way than on finding its idle fiber ended, and then it does. */
  lemma LeavesIff(cfg: Config, tr: seq<State>, acts: seq<Action>, n: nat, w: nat)
    requires Run(cfg, tr, acts) && n < |acts| && w < |tr[n].workers|
    ensures tr[n].workers[w].idleTerm <==> SawStop(tr, acts, n, w)
    ensures w < |tr[n + 1].workers|
    ensures tr[n + 1].workers[w].pc.Left? <==> tr[n].workers[w].pc.Left? || (acts[n] == Idle(w) && SawStop(tr, acts, n, w))
  {
    WorkersStay(cfg, tr, acts, n);
    RunKeeps(cfg, tr, acts, w);
    IdleEnds(tr, acts, n, w);
    assert Keeps(tr[n], tr[n + 1], acts[n], w);
  }

  // ---------------------------------------------------------------- the fiber for callbacks

  /** Worker `w` began a callback with step `k` and has not given up its fiber since. */
  ghost predicate KeptSince(tr: seq<State>, acts: seq<Action>, k: nat, n: nat, w: nat) {
    && k < n < |tr| == |acts| + 1
    && StartsCallback(tr[k], acts[k], w)
    && forall j :: k < j < n ==> !GivesUp(tr[j], acts[j], w)
  }

  ghost predicate Kept(tr: seq<State>, acts: seq<Action>, n: nat, w: nat) {
    exists k: nat :: KeptSince(tr, acts, k, n, w)
  }

  lemma KeptNext(tr: seq<State>, acts: seq<Action>, n: nat, w: nat)
    requires n < |acts| == |tr| - 1
    ensures Kept(tr, acts, n + 1, w) <==>
            StartsCallback(tr[n], acts[n], w) || (Kept(tr, acts, n, w) && !GivesUp(tr[n], acts[n], w))
  {
    if StartsCallback(tr[n], acts[n], w) {
      assert KeptSince(tr, acts, n, n + 1, w);
    }
    if Kept(tr, acts, n, w) && !GivesUp(tr[n], acts[n], w) {
      var k: nat :| KeptSince(tr, acts, k, n, w);
      assert KeptSince(tr, acts, k, n + 1, w);
    }
    if Kept(tr, acts, n + 1, w) {
      var k: nat :| KeptSince(tr, acts, k, n + 1, w);
      if k < n {
        assert KeptSince(tr, acts, k, n, w);
      }
    }
  }

  lemma {:induction false} HasFiberIff(tr: seq<State>, acts: seq<Action>, n: nat, w: nat)
    requires AlwaysKeeps(tr, acts, w) && n < |tr|
    ensures w < |tr[n].workers| && (tr[n].workers[w].cbFiber.Some? <==> Kept(tr, acts, n, w))
  {
    if n > 0 {
      assert Keeps(tr[n - 1], tr[n - 1 + 1], acts[n - 1], w);
      KeptNext(tr, acts, n - 1, w);
      HasFiberIff(tr, acts, n - 1, w);
    }
  }

  lemma {:induction false} FiberStays(tr: seq<State>, acts: seq<Action>, k: nat, n: nat, w: nat)
    requires AlwaysKeeps(tr, acts, w) && KeptSince(tr, acts, k, n, w)
    ensures w < |tr[n].workers| && w < |tr[k + 1].workers|
    ensures tr[n].workers[w].cbFiber == tr[k + 1].workers[w].cbFiber
    decreases n
  {
    assert Keeps(tr[n - 1], tr[n - 1 + 1], acts[n - 1], w);
    if n > k + 1 {
      assert KeptSince(tr, acts, k, n - 1, w);
      HasFiberIff(tr, acts, n - 1, w);
      FiberStays(tr, acts, k, n - 1, w);
    }
  }

  /** In every run, a worker has a fiber for callbacks exactly when it has begun a callback and no callback
      since has yielded, and it is the same fiber all that time: a callback that runs to its end leaves its
      fiber to the next. */
  lemma CallbackFiberIff(cfg: Config, tr: seq<State>, acts: seq<Action>, n: nat, w: nat)
    requires Run(cfg, tr, acts) && n < |tr| && w < |tr[0].workers|
    ensures |tr[n].workers| == |tr[0].workers|
    ensures tr[n].workers[w].cbFiber.Some? <==> Kept(tr, acts, n, w)
    ensures forall k: nat :: KeptSince(tr, acts, k, n, w) ==>
              w < |tr[k + 1].workers| && tr[n].workers[w].cbFiber == tr[k + 1].workers[w].cbFiber
  {
    WorkersStay(cfg, tr, acts, n);
    RunKeeps(cfg, tr, acts, w);
    HasFiberIff(tr, acts, n, w);
    forall k: nat | KeptSince(tr, acts, k, n, w)
      ensures w < |tr[k + 1].workers| && tr[n].workers[w].cbFiber == tr[k + 1].workers[w].cbFiber
    {
      FiberStays(tr, acts, k, n, w);
    }
  }
}
