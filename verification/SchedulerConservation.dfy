/** What the scheduler does with the entries it is given: none is lost or taken twice, a pinned one is
    held by its thread alone, and the worker counters are exact.

    Where a contract says `P(..) == true` it means `P(..)`; the longer form keeps the verifier from
    proving the parts of P one by one. */
module SchedulerConservation {
  import opened Common
  import opened Scheduler
  import opened SchedulerSafety
  import opened SchedulerRuns

  // ---------------------------------------------------------------- counters

  /** Between taking an entry and the decrement of m_activeThreadCount. */
  predicate Active(w: Worker) {
    w.pc.Taken? || w.pc.Stale? || (w.pc.Busy? && (w.pc.phase == Resuming || w.pc.phase == Running || w.pc.phase == Back))
  }

  predicate Idling(w: Worker) {
    w.pc == IdleCheck || w.pc == IdleLeave
  }

  /** How many workers `p` holds for. */
  function Count(p: Worker -> bool, ws: seq<Worker>): nat {
    if ws == [] then 0
    else Count(p, ws[..|ws| - 1]) + if p(ws[|ws| - 1]) then 1 else 0
  }

  predicate CountersOk(s: State) {
    s.active == Count(Active, s.workers) && s.idle == Count(Idling, s.workers)
  }

  function Delta(before: bool, after: bool): int {
    (if after then 1 else 0) - (if before then 1 else 0)
  }

  lemma {:induction false} CountUpdate(p: Worker -> bool, ws: seq<Worker>, ws': seq<Worker>, w: nat)
    requires w < |ws| == |ws'|
    requires forall v :: 0 <= v < |ws| && v != w ==> ws'[v] == ws[v]
    ensures Count(p, ws') == Count(p, ws) + Delta(p(ws[w]), p(ws'[w]))
  {
    var n := |ws| - 1;
    if w == n {
      assert ws[..n] == ws'[..n];
    } else {
      CountUpdate(p, ws[..n], ws'[..n], w);
    }
  }

  lemma {:induction false} CountNone(p: Worker -> bool, ws: seq<Worker>)
    requires forall v :: 0 <= v < |ws| ==> !p(ws[v])
    ensures Count(p, ws) == 0
  {
    if ws != [] {
      CountNone(p, ws[..|ws| - 1]);
    }
  }

  ghost predicate CountsDelta(s: State, t: State, w: nat) {
    && w < |s.workers| == |t.workers|
    && t.active == s.active + Delta(Active(s.workers[w]), Active(t.workers[w]))
    && t.idle == s.idle + Delta(Idling(s.workers[w]), Idling(t.workers[w]))
  }

  /** The worker's own steps between two looks at the queue. */
  predicate BodyStep(a: Action) {
    SwapStep(a) || EndStep(a)
  }

  lemma SwapDelta(cfg: Config, s: State, a: Action)
    requires Enabled(cfg, s, a) && (a.SwapIn? || a.Arm? || a.YieldToHold? || a.YieldToReady? || a.Finish? || a.AfterSwap?)
    ensures CountsDelta(s, Next(cfg, s, a), a.w)
  {
  }

  lemma EndDelta(cfg: Config, s: State, a: Action)
    requires Enabled(cfg, s, a) && (a.Requeue? || a.Park? || a.Recycle? || a.DropStale?)
    ensures CountsDelta(s, Next(cfg, s, a), a.w)
  {
  }

  lemma BranchDelta(cfg: Config, s: State, a: Action)
    requires Enabled(cfg, s, a) && (a.Judge? || a.Dispatch?)
    ensures CountsDelta(s, Next(cfg, s, a), a.w)
  {
  }

  /** Each step changes the counters exactly as it moves its worker in or out of the counted part. */
  lemma CounterDelta(cfg: Config, s: State, a: Action)
    requires Enabled(cfg, s, a)
    ensures var t := Next(cfg, s, a);
      if Outside(a) then t.active == s.active && t.idle == s.idle else CountsDelta(s, t, a.w)
  {
    if a.Judge? || a.Dispatch? {
      BranchDelta(cfg, s, a);
    } else if a.Requeue? || a.Park? || a.Recycle? || a.DropStale? {
      EndDelta(cfg, s, a);
    } else if BodyStep(a) {
      SwapDelta(cfg, s, a);
    } else if !Outside(a) {
      LoopDelta(cfg, s, a);
    }
  }

  lemma LoopDelta(cfg: Config, s: State, a: Action)
    requires Enabled(cfg, s, a) && !BodyStep(a) && !Outside(a) && !a.Dispatch?
    ensures CountsDelta(s, Next(cfg, s, a), a.w)
  {
  }

  lemma CounterStep(cfg: Config, s: State, a: Action)
    requires CountersOk(s) && Enabled(cfg, s, a)
    ensures CountersOk(Next(cfg, s, a))
  {
    StepShape(cfg, s, a);
    CounterDelta(cfg, s, a);
    if !Outside(a) {
      CountUpdate(Active, s.workers, Next(cfg, s, a).workers, a.w);
      CountUpdate(Idling, s.workers, Next(cfg, s, a).workers, a.w);
    }
  }

  /** In every run, whatever the wake-ups: m_activeThreadCount is the number of workers between
      taking an entry and the decrement, m_idleThreadCount the number inside the idle fiber. */
  lemma {:induction false} CountersExact(cfg: Config, tr: seq<State>, acts: seq<Action>, n: nat)
    requires Run(cfg, tr, acts) && n < |tr|
    ensures CountersOk(tr[n])
  {
    if n == 0 {
      CountNone(Active, tr[0].workers);
      CountNone(Idling, tr[0].workers);
    } else {
      CountersExact(cfg, tr, acts, n - 1);
      CounterStep(cfg, tr[n - 1], acts[n - 1]);
    }
  }

  // ---------------------------------------------------------------- entries

  /** The entry a worker is busy with. */
  function HeldEntry(w: Worker): Option<Entry> {
    if w.pc.Taken? || w.pc.Stale? || w.pc.Busy? then Some(w.pc.e) else None
  }

  function HeldId(w: Worker): multiset<nat> {
    if HeldEntry(w).Some? then multiset{HeldEntry(w).value.id} else multiset{}
  }

  function QueuedIds(q: seq<Entry>): multiset<nat> {
    if q == [] then multiset{} else QueuedIds(q[..|q| - 1]) + multiset{q[|q| - 1].id}
  }

  function HeldIds(ws: seq<Worker>): multiset<nat> {
    if ws == [] then multiset{} else HeldIds(ws[..|ws| - 1]) + HeldId(ws[|ws| - 1])
  }

  /** The ids 0, 1, .. n - 1, each once. */
  function Upto(n: nat): multiset<nat> {
    if n == 0 then multiset{} else Upto(n - 1) + multiset{n - 1}
  }

  /** Every entry ever scheduled is queued, held by one worker or finished, exactly once. */
  predicate Conserved(s: State) {
    QueuedIds(s.queue) + HeldIds(s.workers) + s.finished == Upto(s.nextId)
  }

  lemma {:induction false} UptoOnce(n: nat, id: nat)
    ensures Upto(n)[id] == if id < n then 1 else 0
  {
    if n > 0 {
      UptoOnce(n - 1, id);
    }
  }

  lemma {:induction false} QueuedWithout(q: seq<Entry>, i: nat)
    requires i < |q|
    ensures QueuedIds(q) == QueuedIds(Without(q, i)) + multiset{q[i].id}
  {
    var n := |q| - 1;
    var u := q[..n];
    assert q == u + [q[n]];
    QueuedSnoc(u, q[n]);
    if i == n {
      assert Without(q, i) == u;
    } else {
      QueuedWithout(u, i);
      assert Without(q, i) == Without(u, i) + [q[n]] && u[i] == q[i];
      QueuedSnoc(Without(u, i), q[n]);
      Exchange(QueuedIds(Without(u, i)), multiset{q[i].id}, multiset{q[n].id});
    }
  }

  lemma QueuedSnoc(q: seq<Entry>, e: Entry)
    ensures QueuedIds(q + [e]) == QueuedIds(q) + multiset{e.id}
  {
    assert (q + [e])[..|q|] == q;
  }

  lemma Exchange(A: multiset<nat>, B: multiset<nat>, C: multiset<nat>)
    ensures A + B + C == A + C + B
  {
  }

  lemma AddBoth(A: multiset<nat>, B: multiset<nat>, C: multiset<nat>, D: multiset<nat>, E: multiset<nat>)
    requires A + C == B + D
    ensures A + E + C == B + E + D
  {
    assert A + E + C == A + C + E;
  }

  lemma HeldLast(ws: seq<Worker>)
    requires ws != []
    ensures HeldIds(ws) == HeldIds(ws[..|ws| - 1]) + HeldId(ws[|ws| - 1])
  {
  }

  lemma {:induction false} HeldUpdate(ws: seq<Worker>, ws': seq<Worker>, w: nat)
    requires w < |ws| == |ws'|
    requires forall v :: 0 <= v < |ws| && v != w ==> ws'[v] == ws[v]
    ensures HeldIds(ws') + HeldId(ws[w]) == HeldIds(ws) + HeldId(ws'[w])
  {
    var n := |ws| - 1;
    if w == n {
      assert ws[..n] == ws'[..n];
      Exchange(HeldIds(ws[..n]), HeldId(ws'[n]), HeldId(ws[n]));
    } else {
      var u, u' := ws[..n], ws'[..n];
      HeldUpdate(u, u', w);
      HeldLast(ws);
      HeldLast(ws');
      AddBoth(HeldIds(u'), HeldIds(u), HeldId(u[w]), HeldId(u'[w]), HeldId(ws[n]));
    }
  }

  /** How one step moves entries: nothing, one new entry at the back, one taken from the queue,
      one finished (perhaps with a new entry at the back). */
  datatype Move = Still | Added | Took(i: nat) | Done(added: bool)

  function MoveOf(cfg: Config, s: State, a: Action): Move
    requires Enabled(cfg, s, a)
  {
    match a
    case Take(w) => Took(s.workers[w].pc.i)
    case Requeue(_) => Done(true)
    case Park(_) => Done(false)
    case Recycle(_) => Done(false)
    case DropStale(_) => Done(false)
    case Judge(w) => if Next(cfg, s, a).workers[w].pc == Top then Done(false) else Still
    case Wake(_, _) => Added
    case ScheduleCallback(_, _) => Added
    case ScheduleFiber(_, _, _) => Added
    case _ => Still
  }

  ghost predicate QueueGrew(s: State, t: State) {
    |t.queue| == |s.queue| + 1 && t.queue[..|s.queue|] == s.queue && t.queue[|s.queue|].id == s.nextId && t.nextId == s.nextId + 1
  }

  ghost predicate Moved(s: State, t: State, w: nat, m: Move) {
    match m
    case Still =>
      t.queue == s.queue && t.nextId == s.nextId && t.finished == s.finished
      && (w < |s.workers| == |t.workers| ==> HeldEntry(t.workers[w]) == HeldEntry(s.workers[w]))
    case Added =>
      QueueGrew(s, t) && t.finished == s.finished
    case Took(i) =>
      && w < |s.workers| == |t.workers| && i < |s.queue| && t.queue == Without(s.queue, i)
      && t.nextId == s.nextId && t.finished == s.finished
      && HeldEntry(s.workers[w]) == None && HeldEntry(t.workers[w]) == Some(s.queue[i])
    case Done(added) =>
      && w < |s.workers| == |t.workers| && HeldEntry(s.workers[w]).Some? && HeldEntry(t.workers[w]) == None
      && t.finished == s.finished + HeldId(s.workers[w])
      && (if added then QueueGrew(s, t) else t.queue == s.queue && t.nextId == s.nextId)
  }

  lemma SwapMoves(cfg: Config, s: State, a: Action)
    requires Enabled(cfg, s, a) && (a.SwapIn? || a.Arm? || a.YieldToHold? || a.YieldToReady? || a.Finish? || a.AfterSwap?)
    ensures Moved(s, Next(cfg, s, a), a.w, MoveOf(cfg, s, a))
  {
  }

  lemma JudgeMoves(cfg: Config, s: State, w: nat)
    requires Enabled(cfg, s, Judge(w))
    ensures Moved(s, Next(cfg, s, Judge(w)), w, MoveOf(cfg, s, Judge(w)))
  {
  }

  lemma EndMoves(cfg: Config, s: State, a: Action)
    requires Enabled(cfg, s, a) && EndStep(a) && !a.Judge?
    ensures Moved(s, Next(cfg, s, a), a.w, MoveOf(cfg, s, a))
  {
  }

  lemma LoopMoves(cfg: Config, s: State, a: Action)
    requires Enabled(cfg, s, a) && !BodyStep(a) && !Outside(a)
    ensures Moved(s, Next(cfg, s, a), a.w, MoveOf(cfg, s, a))
  {
  }

  lemma StepMoves(cfg: Config, s: State, a: Action)
    requires Enabled(cfg, s, a)
    ensures Moved(s, Next(cfg, s, a), if Outside(a) then |s.workers| else a.w, MoveOf(cfg, s, a))
  {
    if a.Judge? {
      JudgeMoves(cfg, s, a.w);
    } else if EndStep(a) {
      EndMoves(cfg, s, a);
    } else if SwapStep(a) {
      SwapMoves(cfg, s, a);
    } else if !Outside(a) {
      LoopMoves(cfg, s, a);
    }
  }

  lemma QueueGrewIds(s: State, t: State)
    requires QueueGrew(s, t)
    ensures QueuedIds(t.queue) == QueuedIds(s.queue) + multiset{s.nextId}
    ensures Upto(t.nextId) == Upto(s.nextId) + multiset{s.nextId}
  {
    assert t.queue[..|t.queue| - 1] == s.queue;
  }

  /** One id moves from one place to another; the total gains `n`. */
  lemma MoveSum(Q: multiset<nat>, Q': multiset<nat>, H: multiset<nat>, H': multiset<nat>,
                F: multiset<nat>, F': multiset<nat>, x: multiset<nat>, n: multiset<nat>)
    requires (Q == Q' + x && H' == H + x && F' == F && n == multiset{}) || (Q' == Q + n && H == H' + x && F' == F + x)
    ensures Q' + H' + F' == Q + H + F + n
  {
  }

  lemma ConservedMove(s: State, t: State, w: nat, m: Move)
    requires Conserved(s) && Moved(s, t, w, m) && w < |s.workers| == |t.workers| && !m.Added?
    requires HeldIds(t.workers) + HeldId(s.workers[w]) == HeldIds(s.workers) + HeldId(t.workers[w])
    ensures Conserved(t)
  {
    var H, H', was, now := HeldIds(s.workers), HeldIds(t.workers), HeldId(s.workers[w]), HeldId(t.workers[w]);
    match m
    case Still =>
      Cancel(H', H, was);
    case Took(i) =>
      QueuedWithout(s.queue, i);
      assert H' + was == H';
      MoveSum(QueuedIds(s.queue), QueuedIds(t.queue), H, H', s.finished, t.finished, now, multiset{});
    case Done(added) =>
      assert H + now == H;
      if added {
        QueueGrewIds(s, t);
      }
      var n := if added then multiset{s.nextId} else multiset{};
      MoveSum(QueuedIds(s.queue), QueuedIds(t.queue), H, H', s.finished, t.finished, was, n);
  }

  lemma Cancel(A: multiset<nat>, B: multiset<nat>, C: multiset<nat>)
    requires A + C == B + C
    ensures A == B
  {
    assert A == A + C - C;
    assert B == B + C - C;
  }

  lemma ConservedStep(cfg: Config, s: State, a: Action)
    requires Conserved(s) && Enabled(cfg, s, a)
    ensures Conserved(Next(cfg, s, a))
  {
    var t, m := Next(cfg, s, a), MoveOf(cfg, s, a);
    StepShape(cfg, s, a);
    StepMoves(cfg, s, a);
    if Outside(a) {
      if m.Added? {
        QueueGrewIds(s, t);
      }
    } else {
      HeldUpdate(s.workers, t.workers, a.w);
      ConservedMove(s, t, a.w, m);
    }
  }

  /** Task conservation, in every run and whatever the wake-ups. */
  lemma {:induction false} TasksConserved(cfg: Config, tr: seq<State>, acts: seq<Action>, n: nat)
    requires Run(cfg, tr, acts) && n < |tr|
    ensures Conserved(tr[n])
  {
    if n == 0 {
      InitialIds(tr[0].queue);
      InitialHeld(tr[0].workers);
    } else {
      TasksConserved(cfg, tr, acts, n - 1);
      ConservedStep(cfg, tr[n - 1], acts[n - 1]);
    }
  }

  lemma {:induction false} InitialIds(q: seq<Entry>)
    requires forall i :: 0 <= i < |q| ==> q[i].id == i
    ensures QueuedIds(q) == Upto(|q|)
  {
    if q != [] {
      InitialIds(q[..|q| - 1]);
    }
  }

  lemma {:induction false} InitialHeld(ws: seq<Worker>)
    requires forall w :: 0 <= w < |ws| ==> ws[w].pc == Top
    ensures HeldIds(ws) == multiset{}
  {
    if ws != [] {
      InitialHeld(ws[..|ws| - 1]);
    }
  }

  lemma ExactlyOnePlace(cfg: Config, tr: seq<State>, acts: seq<Action>, n: nat, id: nat)
    requires Run(cfg, tr, acts) && n < |tr|
    ensures var s := tr[n];
      QueuedIds(s.queue)[id] + HeldIds(s.workers)[id] + s.finished[id] == if id < s.nextId then 1 else 0
  {
    TasksConserved(cfg, tr, acts, n);
    UptoOnce(tr[n].nextId, id);
  }

  // ---------------------------------------------------------------- pinned entries

  predicate MayHold(w: int, e: Entry) {
    e.thread == ANY_THREAD || e.thread == w
  }

  /** An entry pinned to a thread is only ever chosen or held by that thread. */
  ghost predicate PinsKept(s: State) {
    forall w :: 0 <= w < |s.workers| ==>
      && (InScan(s.workers[w].pc) ==> s.lock == Some(w))
      && (s.workers[w].pc.Chosen? ==> s.workers[w].pc.i < |s.queue| && MayHold(w, s.queue[s.workers[w].pc.i]))
      && (HeldEntry(s.workers[w]).Some? ==> MayHold(w, HeldEntry(s.workers[w]).value))
  }

  ghost predicate OutOfScan(s: State, t: State, w: nat) {
    t.lock == s.lock && w < |t.workers| && !InScan(t.workers[w].pc)
  }

  lemma SwapLeavesScan(cfg: Config, s: State, a: Action)
    requires Enabled(cfg, s, a) && SwapStep(a)
    ensures OutOfScan(s, Next(cfg, s, a), a.w) == true
  {
  }

  lemma JudgeLeavesScan(cfg: Config, s: State, w: nat)
    requires Enabled(cfg, s, Judge(w))
    ensures OutOfScan(s, Next(cfg, s, Judge(w)), w) == true
  {
  }

  lemma EndLeavesScan(cfg: Config, s: State, a: Action)
    requires Enabled(cfg, s, a) && EndStep(a) && !a.Judge?
    ensures OutOfScan(s, Next(cfg, s, a), a.w) == true
  {
  }

  /** A step by worker `w` that is not about the queue. */
  lemma PinsStay(s: State, t: State, w: nat)
    requires PinsKept(s) && w < |s.workers| == |t.workers|
    requires forall v :: 0 <= v < |s.workers| && v != w ==> t.workers[v] == s.workers[v]
    requires t.queue == s.queue || QueueGrew(s, t)
    requires OutOfScan(s, t, w) && HeldEntry(t.workers[w]) in {None, HeldEntry(s.workers[w])}
    ensures PinsKept(t)
  {
  }

  lemma PinsBody(cfg: Config, s: State, a: Action)
    requires PinsKept(s) && Enabled(cfg, s, a) && BodyStep(a)
    ensures PinsKept(Next(cfg, s, a))
  {
    var t := Next(cfg, s, a);
    StepShape(cfg, s, a);
    StepMoves(cfg, s, a);
    if SwapStep(a) {
      SwapLeavesScan(cfg, s, a);
    } else if a.Judge? {
      JudgeLeavesScan(cfg, s, a.w);
    } else {
      EndLeavesScan(cfg, s, a);
    }
    PinsStay(s, t, a.w);
  }

  lemma PinsLoop(cfg: Config, s: State, a: Action)
    requires PinsKept(s) && Enabled(cfg, s, a) && !BodyStep(a) && !Outside(a)
    ensures PinsKept(Next(cfg, s, a))
  {
    StepShape(cfg, s, a);
    StepMoves(cfg, s, a);
  }

  lemma {:induction false} PinsHold(cfg: Config, tr: seq<State>, acts: seq<Action>, n: nat)
    requires Run(cfg, tr, acts) && n < |tr|
    ensures PinsKept(tr[n])
  {
    if n > 0 {
      PinsHold(cfg, tr, acts, n - 1);
      var s, a := tr[n - 1], acts[n - 1];
      if BodyStep(a) {
        PinsBody(cfg, s, a);
      } else if Outside(a) {
        StepShape(cfg, s, a);
        StepMoves(cfg, s, a);
      } else {
        PinsLoop(cfg, s, a);
      }
    }
  }
}
