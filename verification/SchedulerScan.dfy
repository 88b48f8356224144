/** Which entry a worker picks: the first one in the queue that it may run, and it goes idle only when it
    has refused every entry.

    Where a contract says `P(..) == true` it means `P(..)`; the longer form keeps the verifier from
    proving the parts of P one by one. */
module SchedulerScan {
  import opened Common
  import opened Scheduler
  import opened SchedulerSafety
  import opened SchedulerRuns
  import opened SchedulerConservation
  import opened SchedulerShutdown

  /** Worker `w` must leave entry `e` alone: it is pinned to another thread, or its fiber is executing. */
  predicate Refused(s: State, w: nat, e: Entry) {
    || (e.thread != -1 && e.thread != w)
    || (e.item.FiberItem? && e.item.f < |s.fibers| && s.fibers[e.item.f].status == Exec)
  }

  /** State `n` is in a scan that worker `w` began with step `m`: the queue has not changed since. */
  ghost predicate ScanSince(tr: seq<State>, acts: seq<Action>, m: nat, n: nat, w: nat) {
    && m < n < |tr| == |acts| + 1
    && acts[m] == Acquire(w)
    && (forall k :: m < k < n ==> acts[k] != Acquire(w))
    && (forall k :: m < k <= n ==> tr[k].queue == tr[n].queue)
  }

  /** During that scan there was a state in which the worker had to leave `e` alone. */
  ghost predicate WasRefused(tr: seq<State>, m: nat, n: nat, w: nat, e: Entry) {
    exists k :: m < k <= n && k < |tr| && Refused(tr[k], w, e)
  }

  /** And one in which it might take it. */
  ghost predicate WasFree(tr: seq<State>, m: nat, n: nat, w: nat, e: Entry) {
    exists k :: m < k <= n && k < |tr| && !Refused(tr[k], w, e)
  }

  ghost predicate RefusedUpTo(tr: seq<State>, m: nat, n: nat, w: nat, i: nat)
    requires n < |tr|
  {
    i <= |tr[n].queue| && forall j :: 0 <= j < i ==> WasRefused(tr, m, n, w, tr[n].queue[j])
  }

  predicate NotBy(a: Action, w: nat) {
    Outside(a) || a.w != w
  }

  // ---------------------------------------------------------------- single steps

  /** Steps of a worker that leave it in its scan. */
  lemma ScanStep(cfg: Config, s: State, a: Action)
    requires Enabled(cfg, s, a) && !Outside(a) && a.w < |Next(cfg, s, a).workers| && InScan(Next(cfg, s, a).workers[a.w].pc)
    ensures a.Acquire? || a.ScanNext?
  {
    if SwapStep(a) {
      SwapLeavesScan(cfg, s, a);
    } else if a.Judge? {
      JudgeLeavesScan(cfg, s, a.w);
    } else if EndStep(a) {
      EndLeavesScan(cfg, s, a);
    }
  }

  lemma LookAt(cfg: Config, s: State, w: nat)
    requires Enabled(cfg, s, ScanNext(w))
    ensures var i, t := s.workers[w].pc.i, Next(cfg, s, ScanNext(w));
      && t.queue == s.queue && i < |s.queue| && w < |t.workers|
      && t.workers[w].pc == if Refused(s, w, s.queue[i]) then Scan(i + 1) else Chosen(i)
  {
  }

  /** While a worker is in its scan nobody else touches the queue. */
  lemma QueueStill(cfg: Config, s: State, a: Action, w: nat)
    requires Enabled(cfg, s, a) && PinsKept(s) && w < |s.workers| && InScan(s.workers[w].pc)
    requires NotBy(a, w)
    ensures Next(cfg, s, a).queue == s.queue
  {
    StepMoves(cfg, s, a);
    if !Outside(a) {
      assert a.w < |s.workers|;
      StepShape(cfg, s, a);
    }
  }

  lemma SinceExtends(tr: seq<State>, acts: seq<Action>, m: nat, n: nat, w: nat, i: nat)
    requires ScanSince(tr, acts, m, n, w) && n + 1 < |tr| && acts[n] != Acquire(w) && tr[n + 1].queue == tr[n].queue
    requires RefusedUpTo(tr, m, n, w, i)
    ensures ScanSince(tr, acts, m, n + 1, w) && RefusedUpTo(tr, m, n + 1, w, i)
  {
    var q := tr[n].queue;
    forall j | 0 <= j < i ensures WasRefused(tr, m, n + 1, w, q[j]) {
      assert WasRefused(tr, m, n, w, q[j]);
    }
  }

  // ---------------------------------------------------------------- runs

  /** A worker in its scan at entry `i` has had to leave all entries before it alone, and has chosen one
      that it might take. */
  ghost predicate ScanIs(tr: seq<State>, acts: seq<Action>, m: nat, n: nat, w: nat) {
    && ScanSince(tr, acts, m, n, w) && w < |tr[n].workers| && InScan(tr[n].workers[w].pc)
    && var pc := tr[n].workers[w].pc;
       && RefusedUpTo(tr, m, n, w, pc.i)
       && (pc.Chosen? ==> pc.i < |tr[n].queue| && WasFree(tr, m, n, w, tr[n].queue[pc.i]))
  }

  lemma {:induction false} ScanHolds(cfg: Config, tr: seq<State>, acts: seq<Action>, n: nat, w: nat) returns (m: nat)
    requires Run(cfg, tr, acts) && n < |tr| && w < |tr[n].workers| && InScan(tr[n].workers[w].pc)
    ensures ScanIs(tr, acts, m, n, w) == true
    decreases n
  {
    ScanBack(cfg, tr, acts, n, w);
    if acts[n - 1] == Acquire(w) {
      m := n - 1;
      ScanStarts(cfg, tr, acts, m, w);
    } else {
      m := ScanHolds(cfg, tr, acts, n - 1, w);
      if acts[n - 1] == ScanNext(w) {
        ScanLook(cfg, tr, acts, m, n - 1, w);
      } else {
        ScanElse(cfg, tr, acts, m, n - 1, w);
      }
    }
  }

  lemma ScanBack(cfg: Config, tr: seq<State>, acts: seq<Action>, n: nat, w: nat)
    requires Run(cfg, tr, acts) && n < |tr| && w < |tr[n].workers| && InScan(tr[n].workers[w].pc)
    ensures n > 0
    ensures acts[n - 1] == Acquire(w)
            || ((acts[n - 1] == ScanNext(w) || NotBy(acts[n - 1], w))
                && w < |tr[n - 1].workers| && InScan(tr[n - 1].workers[w].pc))
  {
    var s, a := tr[n - 1], acts[n - 1];
    if NotBy(a, w) {
      StepShape(cfg, s, a);
    } else {
      ScanStep(cfg, s, a);
    }
  }

  lemma ScanStarts(cfg: Config, tr: seq<State>, acts: seq<Action>, n: nat, w: nat)
    requires Run(cfg, tr, acts) && n < |acts| && acts[n] == Acquire(w)
    ensures ScanIs(tr, acts, n, n + 1, w) == true
  {
    Locks(cfg, tr[n], w);
  }

  lemma ScanElse(cfg: Config, tr: seq<State>, acts: seq<Action>, m: nat, n: nat, w: nat)
    requires Run(cfg, tr, acts) && n < |acts| && ScanIs(tr, acts, m, n, w) && NotBy(acts[n], w)
    ensures ScanIs(tr, acts, m, n + 1, w) == true
  {
    PinsHold(cfg, tr, acts, n);
    StepShape(cfg, tr[n], acts[n]);
    QueueStill(cfg, tr[n], acts[n], w);
    SinceExtends(tr, acts, m, n, w, tr[n].workers[w].pc.i);
    assert tr[n + 1].workers[w] == tr[n].workers[w];
    if tr[n].workers[w].pc.Chosen? {
      assert WasFree(tr, m, n + 1, w, tr[n + 1].queue[tr[n].workers[w].pc.i]);
    }
  }

  lemma ScanLook(cfg: Config, tr: seq<State>, acts: seq<Action>, m: nat, n: nat, w: nat)
    requires Run(cfg, tr, acts) && n < |acts| && ScanIs(tr, acts, m, n, w) && acts[n] == ScanNext(w)
    ensures ScanIs(tr, acts, m, n + 1, w) == true
  {
    LookAt(cfg, tr[n], w);
    var i := tr[n].workers[w].pc.i;
    SinceExtends(tr, acts, m, n, w, i);
    var e := tr[n].queue[i];
    if Refused(tr[n], w, e) {
      assert WasRefused(tr, m, n + 1, w, e);
    } else {
      assert WasFree(tr, m, n + 1, w, e);
    }
  }

  /** Worker `w` takes entry `i` out of the queue. */
  ghost predicate TakesOut(s: State, t: State, w: nat, i: nat) {
    && i < |s.queue| && t.queue == s.queue[..i] + s.queue[i + 1..]
    && w < |t.workers| && HeldEntry(t.workers[w]) == Some(s.queue[i])
  }

  /** In every run, the entry that a worker takes is one that it might run when it looked, and every entry
      in front of it was pinned elsewhere or executing at some time since the worker took the lock, with
      the queue unchanged in between. */
  lemma TakesFirst(cfg: Config, tr: seq<State>, acts: seq<Action>, n: nat, w: nat) returns (m: nat, i: nat)
    requires Run(cfg, tr, acts) && n < |acts| && acts[n] == Take(w)
    ensures ScanSince(tr, acts, m, n, w) && TakesOut(tr[n], tr[n + 1], w, i)
    ensures WasFree(tr, m, n, w, tr[n].queue[i])
    ensures forall j :: 0 <= j < i ==> WasRefused(tr, m, n, w, tr[n].queue[j])
  {
    m := ScanHolds(cfg, tr, acts, n, w);
    i := tr[n].workers[w].pc.i;
  }

  /** In every run, a worker finds nothing to do only when every entry of the queue was pinned elsewhere or
      executing at some time since it took the lock. */
  lemma IdleOnlyWhenRefused(cfg: Config, tr: seq<State>, acts: seq<Action>, n: nat, w: nat) returns (m: nat)
    requires Run(cfg, tr, acts) && n < |acts| && acts[n] == ScanEnd(w)
    ensures ScanSince(tr, acts, m, n, w)
    ensures forall j :: 0 <= j < |tr[n].queue| ==> WasRefused(tr, m, n, w, tr[n].queue[j])
  {
    m := ScanHolds(cfg, tr, acts, n, w);
  }

  /** A worker enters its idle fiber, or leaves the loop, only after it has found nothing to do, and has
      done nothing since. */
  lemma EmptyAfterScan(cfg: Config, tr: seq<State>, acts: seq<Action>, n: nat, w: nat) returns (m: nat)
    requires Run(cfg, tr, acts) && n < |acts| && acts[n] == Idle(w)
    ensures EmptyFrom(acts, m, n, w) == true
  {
    m := EmptySince(cfg, tr, acts, n, w);
  }

  /** Step `m` ended a scan of worker `w`, which has taken no step from there up to `n`. */
  ghost predicate EmptyFrom(acts: seq<Action>, m: nat, n: nat, w: nat) {
    m < n <= |acts| && acts[m] == ScanEnd(w) && forall k :: m < k < n ==> NotBy(acts[k], w)
  }

  lemma EmptyExtends(acts: seq<Action>, m: nat, n: nat, w: nat)
    requires EmptyFrom(acts, m, n, w) && n < |acts| && NotBy(acts[n], w)
    ensures EmptyFrom(acts, m, n + 1, w) == true
  {
  }

  lemma EmptyBack(cfg: Config, tr: seq<State>, acts: seq<Action>, n: nat, w: nat)
    requires Run(cfg, tr, acts) && n < |tr| && w < |tr[n].workers| && tr[n].workers[w].pc == Empty
    ensures n > 0
    ensures acts[n - 1] == ScanEnd(w) || (NotBy(acts[n - 1], w) && w < |tr[n - 1].workers| && tr[n - 1].workers[w].pc == Empty)
  {
    if acts[n - 1] != ScanEnd(w) {
      EmptyStep(cfg, tr[n - 1], acts[n - 1], w);
    }
  }

  lemma {:induction false} EmptySince(cfg: Config, tr: seq<State>, acts: seq<Action>, n: nat, w: nat) returns (m: nat)
    requires Run(cfg, tr, acts) && n < |tr| && w < |tr[n].workers| && tr[n].workers[w].pc == Empty
    ensures EmptyFrom(acts, m, n, w) == true
    decreases n
  {
    EmptyBack(cfg, tr, acts, n, w);
    if acts[n - 1] == ScanEnd(w) {
      m := n - 1;
    } else {
      m := EmptySince(cfg, tr, acts, n - 1, w);
      EmptyExtends(acts, m, n - 1, w);
    }
  }

  lemma EmptyStep(cfg: Config, s: State, a: Action, w: nat)
    requires Enabled(cfg, s, a) && w < |Next(cfg, s, a).workers| && Next(cfg, s, a).workers[w].pc == Empty && a != ScanEnd(w)
    ensures NotBy(a, w) && w < |s.workers| && s.workers[w].pc == Empty
  {
    if NotBy(a, w) {
      StepShape(cfg, s, a);
    } else if SwapStep(a) {
      MindsAfterSwap(cfg, s, a);
    } else if a.Judge? {
      MindsAfterJudge(cfg, s, a.w);
    } else if EndStep(a) {
      MindsAtEnd(cfg, s, a);
    }
  }

  // ---------------------------------------------------------------- and it can

  /** The state after worker `w` has taken entry `i`. */
  function Took(s: State, w: nat, i: nat): State
    requires w < |s.workers| && i < |s.queue|
  {
    SetPc(s, w, Taken(s.queue[i])).(queue := s.queue[..i] + s.queue[i + 1..], active := s.active + 1)
  }

  lemma {:induction false} CanScan(cfg: Config, s: State, w: nat, i: nat)
    requires Reachable(cfg, s) && w < |s.workers| && s.workers[w].pc == Top && s.lock == None
    requires i <= |s.queue| && forall j :: 0 <= j < i ==> Refused(s, w, s.queue[j])
    ensures Reachable(cfg, Scanning(s, w, Scan(i))) == true
    decreases i
  {
    if i == 0 {
      CanLock(cfg, s, w);
    } else {
      CanScan(cfg, s, w, i - 1);
      CanLook(cfg, s, w, i - 1);
    }
  }

  lemma CanLock(cfg: Config, s: State, w: nat)
    requires Reachable(cfg, s) && w < |s.workers| && s.workers[w].pc == Top && s.lock == None
    ensures Reachable(cfg, Scanning(s, w, Scan(0))) == true
  {
    Locks(cfg, s, w);
    ReachableStep(cfg, s, Acquire(w));
  }

  lemma CanLook(cfg: Config, s: State, w: nat, i: nat)
    requires w < |s.workers| && i < |s.queue| && Reachable(cfg, Scanning(s, w, Scan(i)))
    ensures Reachable(cfg, Scanning(s, w, if Refused(s, w, s.queue[i]) then Scan(i + 1) else Chosen(i))) == true
  {
    Looks(cfg, s, w, i);
    ReachableStep(cfg, Scanning(s, w, Scan(i)), ScanNext(w));
  }

  function Scanning(s: State, w: nat, pc: Pc): State
    requires w < |s.workers|
  {
    SetPc(s, w, pc).(lock := Some(w))
  }

  lemma Locks(cfg: Config, s: State, w: nat)
    requires w < |s.workers| && s.workers[w].pc == Top && s.lock == None
    ensures Enabled(cfg, s, Acquire(w)) && Next(cfg, s, Acquire(w)) == Scanning(s, w, Scan(0))
  {
  }

  lemma Looks(cfg: Config, s: State, w: nat, i: nat)
    requires w < |s.workers| && i < |s.queue|
    ensures var t := Scanning(s, w, Scan(i));
      && Enabled(cfg, t, ScanNext(w))
      && Next(cfg, t, ScanNext(w)) == Scanning(s, w, if Refused(s, w, s.queue[i]) then Scan(i + 1) else Chosen(i))
  {
    LookAt(cfg, Scanning(s, w, Scan(i)), w);
  }

  lemma Picks(cfg: Config, s: State, w: nat, i: nat)
    requires w < |s.workers| && i < |s.queue| && s.lock == None
    ensures var t := Scanning(s, w, Chosen(i)); Enabled(cfg, t, Take(w)) && Next(cfg, t, Take(w)) == Took(s, w, i)
  {
  }

  /** A worker at the top of its loop can take the first entry that it may run, wherever it is. */
  lemma CanTakeFirst(cfg: Config, s: State, w: nat, i: nat)
    requires Reachable(cfg, s) && w < |s.workers| && s.workers[w].pc == Top && s.lock == None
    requires i < |s.queue| && !Refused(s, w, s.queue[i]) && forall j :: 0 <= j < i ==> Refused(s, w, s.queue[j])
    ensures Reachable(cfg, Took(s, w, i))
  {
    CanScan(cfg, s, w, i);
    CanLook(cfg, s, w, i);
    Picks(cfg, s, w, i);
    ReachableStep(cfg, Scanning(s, w, Chosen(i)), Take(w));
  }
}
