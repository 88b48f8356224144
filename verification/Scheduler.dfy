/** The worker loop of the fiber scheduler, as a state machine over its atomic steps.

    Every worker thread runs the same loop: it scans the shared queue under a lock, takes one
    entry, swaps the fiber in, and decides what to do when the swap comes back.  A fiber that
    suspends keeps the status Exec; only the worker that ran it writes Hold, after it has control
    again.  In between, the wake-up the fiber handed out may already be in the queue. */
module Scheduler {
  import opened Common

  datatype Status = Init | Hold | Exec | Term | Ready | Except

  /** `armed` counts the wake-ups handed out since the last swap-in, `wakes` those that are
      handed out (to an event slot, a timer, another fiber) and not yet queued. */
  datatype Fiber = Fiber(status: Status, armed: nat, wakes: nat)

  datatype Item = FiberItem(f: nat) | CallbackItem

  /** A queue entry; `thread` is -1 when any worker may take it. */
  datatype Entry = Entry(id: nat, item: Item, thread: int)

  const ANY_THREAD := -1

  /** Where a worker is between the swap-in of a fiber and the end of its loop body. */
  datatype Phase = Resuming | Running | Back | Judging | Requeueing | Parking | Recycling

  datatype Pc =
    | Top
    | Scan(i: nat)
    | Chosen(i: nat)
    | Empty
    | Taken(e: Entry)
    | Stale(e: Entry)
    | Busy(e: Entry, f: nat, cb: bool, phase: Phase)
    | IdleCheck
    | IdleLeave
    | Left

  /** `cbFiber` is the fiber the worker keeps for running callbacks, `idleTerm` tells that its
      idle fiber has terminated. */
  datatype Worker = Worker(pc: Pc, cbFiber: Option<nat>, idleTerm: bool)

  /** The observable history: worker `w` swapped fiber `f` in, or has written its final status. */
  datatype Event = In(w: nat, f: nat) | Out(w: nat, f: nat)

  datatype State = State(
    queue: seq<Entry>,
    fibers: seq<Fiber>,
    workers: seq<Worker>,
    lock: Option<nat>,
    active: int,
    idle: int,
    autoStop: bool,
    stopping: bool,
    nextId: nat,
    finished: multiset<nat>,
    log: seq<Event>)

  /** `wakeLimit`: how many wake-ups one suspension may hand out.  `open`: threads outside the
      scheduler may schedule.  `pins`: entries may be pinned to a thread. */
  datatype Config = Config(wakeLimit: nat, open: bool, pins: bool)

  datatype Action =
    | Acquire(w: nat)
    | ScanNext(w: nat)
    | ScanEnd(w: nat)
    | Take(w: nat)
    | Dispatch(w: nat)
    | SwapIn(w: nat)
    | Arm(w: nat)
    | YieldToHold(w: nat)
    | YieldToReady(w: nat)
    | Finish(w: nat, ok: bool)
    | AfterSwap(w: nat)
    | Judge(w: nat)
    | Requeue(w: nat)
    | Park(w: nat)
    | Recycle(w: nat)
    | DropStale(w: nat)
    | Idle(w: nat)
    | CheckStopping(w: nat)
    | LeaveIdle(w: nat)
    | NewFiber
    | Wake(f: nat, caller: Option<nat>)
    | ScheduleCallback(thread: int, caller: Option<nat>)
    | ScheduleFiber(f: nat, thread: int, caller: Option<nat>)
    | Stop

  // ---------------------------------------------------------------- the steps

  predicate Ended(s: Status) {
    s == Term || s == Except
  }

  /** What Fiber::reset asserts of the fiber it is called on. */
  predicate Resettable(s: Status) {
    Ended(s) || s == Init
  }

  predicate InQueue(q: seq<Entry>, f: nat) {
    exists i :: 0 <= i < |q| && q[i].item == FiberItem(f)
  }

  /** Worker `w` holds fiber `f`: from taking its entry until the loop body is done with it. */
  predicate Holds(w: Worker, f: nat) {
    match w.pc
    case Taken(e) => e.item == FiberItem(f)
    case Stale(e) => e.item == FiberItem(f)
    case Busy(_, g, _, _) => g == f
    case _ => false
  }

  predicate Owns(w: Worker, f: nat) {
    Holds(w, f) || w.cbFiber == Some(f)
  }

  predicate InPhase(w: Worker, p: Phase) {
    w.pc.Busy? && w.pc.phase == p
  }

  /** Who may call schedule: a fiber that some worker is running, or an outside thread. */
  predicate MaySchedule(cfg: Config, s: State, caller: Option<nat>) {
    && s.lock == None
    && match caller
       case None => cfg.open
       case Some(w) => w < |s.workers| && InPhase(s.workers[w], Running)
  }

  predicate PinAllowed(cfg: Config, thread: int) {
    thread == ANY_THREAD || cfg.pins
  }

  predicate Runnable(s: State, w: nat, e: Entry) {
    && (e.thread == ANY_THREAD || e.thread == w)
    && (e.item.FiberItem? && e.item.f < |s.fibers| ==> s.fibers[e.item.f].status != Exec)
  }

  predicate AtPhase(s: State, w: nat, p: Phase) {
    w < |s.workers| && InPhase(s.workers[w], p) && s.workers[w].pc.f < |s.fibers|
  }

  predicate Enabled(cfg: Config, s: State, a: Action) {
    match a
    case Acquire(w) => w < |s.workers| && s.workers[w].pc == Top && s.lock == None
    case ScanNext(w) => w < |s.workers| && s.workers[w].pc.Scan? && s.workers[w].pc.i < |s.queue|
    case ScanEnd(w) => w < |s.workers| && s.workers[w].pc == Scan(|s.queue|)
    case Take(w) => w < |s.workers| && s.workers[w].pc.Chosen? && s.workers[w].pc.i < |s.queue|
    case Dispatch(w) => (
      && w < |s.workers| && s.workers[w].pc.Taken?
      && match s.workers[w].pc.e.item
         case FiberItem(f) => f < |s.fibers|
         case CallbackItem => s.workers[w].cbFiber.Some? ==> s.workers[w].cbFiber.value < |s.fibers|)
    case SwapIn(w) => AtPhase(s, w, Resuming)
    case Arm(w) => AtPhase(s, w, Running) && s.fibers[s.workers[w].pc.f].armed < cfg.wakeLimit
    case YieldToHold(w) => AtPhase(s, w, Running)
    case YieldToReady(w) => AtPhase(s, w, Running) && s.fibers[s.workers[w].pc.f].armed == 0
    case Finish(w, ok) => AtPhase(s, w, Running) && s.fibers[s.workers[w].pc.f].armed == 0
    case AfterSwap(w) => AtPhase(s, w, Back)
    case Judge(w) => AtPhase(s, w, Judging)
    case Requeue(w) => AtPhase(s, w, Requeueing) && s.lock == None
    case Park(w) => AtPhase(s, w, Parking)
    case Recycle(w) => AtPhase(s, w, Recycling)
    case DropStale(w) => w < |s.workers| && s.workers[w].pc.Stale?
    case Idle(w) => w < |s.workers| && s.workers[w].pc == Empty
    case CheckStopping(w) => w < |s.workers| && s.workers[w].pc == IdleCheck && s.lock == None
    case LeaveIdle(w) => w < |s.workers| && s.workers[w].pc == IdleLeave
    case NewFiber => true
    case Wake(f, caller) => f < |s.fibers| && s.fibers[f].wakes > 0 && MaySchedule(cfg, s, caller)
    case ScheduleCallback(thread, caller) => MaySchedule(cfg, s, caller) && PinAllowed(cfg, thread)
    case ScheduleFiber(f, thread, caller) => (
      && MaySchedule(cfg, s, caller) && PinAllowed(cfg, thread)
      && f < |s.fibers| && Resettable(s.fibers[f].status) && s.fibers[f].wakes == 0
      && !InQueue(s.queue, f)
      && forall w :: 0 <= w < |s.workers| ==> !Owns(s.workers[w], f))
    case Stop => true
  }

  function SetPc(s: State, w: nat, pc: Pc): State
    requires w < |s.workers|
  {
    s.(workers := s.workers[w := s.workers[w].(pc := pc)])
  }

  function SetPhase(s: State, w: nat, p: Phase): State
    requires w < |s.workers| && s.workers[w].pc.Busy?
  {
    SetPc(s, w, s.workers[w].pc.(phase := p))
  }

  function SetStatus(s: State, f: nat, st: Status): State
    requires f < |s.fibers|
  {
    s.(fibers := s.fibers[f := s.fibers[f].(status := st)])
  }

  /** Scheduler::scheduleNoLock: the entry goes to the back of the queue. */
  function Push(s: State, item: Item, thread: int): State {
    s.(queue := s.queue + [Entry(s.nextId, item, thread)], nextId := s.nextId + 1)
  }

  /** The end of a loop body: the held entry is finished, a callback fiber may be dropped. */
  function EndBody(s: State, w: nat, keepCb: bool): State
    requires w < |s.workers| && (s.workers[w].pc.Busy? || s.workers[w].pc.Stale?)
  {
    var me := s.workers[w];
    s.(workers := s.workers[w := Worker(Top, if keepCb then me.cbFiber else None, me.idleTerm)],
       finished := s.finished + multiset{me.pc.e.id},
       log := if me.pc.Busy? then s.log + [Out(w, me.pc.f)] else s.log)
  }

  function Without<T>(q: seq<T>, i: nat): seq<T>
    requires i < |q|
  {
    q[..i] + q[i + 1..]
  }

  function Next(cfg: Config, s: State, a: Action): State
    requires Enabled(cfg, s, a)
  {
    match a
    case Acquire(w) => SetPc(s, w, Scan(0)).(lock := Some(w))
    case ScanNext(w) => (
      var i := s.workers[w].pc.i;
      SetPc(s, w, if Runnable(s, w, s.queue[i]) then Chosen(i) else Scan(i + 1)))
    case ScanEnd(w) => SetPc(s, w, Empty).(lock := None)
    case Take(w) => (
      var i := s.workers[w].pc.i;
      SetPc(s, w, Taken(s.queue[i])).(queue := Without(s.queue, i), active := s.active + 1, lock := None))
    case Dispatch(w) => DispatchStep(s, w)
    case SwapIn(w) => (
      var f := s.workers[w].pc.f;
      SetPhase(s, w, Running).(
        fibers := s.fibers[f := Fiber(Exec, 0, s.fibers[f].wakes)],
        log := s.log + [In(w, f)]))
    case Arm(w) => (
      var f := s.workers[w].pc.f;
      s.(fibers := s.fibers[f := Fiber(s.fibers[f].status, s.fibers[f].armed + 1, s.fibers[f].wakes + 1)]))
    case YieldToHold(w) => SetPhase(s, w, Back)
    case YieldToReady(w) => SetPhase(SetStatus(s, s.workers[w].pc.f, Ready), w, Back)
    case Finish(w, ok) => SetPhase(SetStatus(s, s.workers[w].pc.f, if ok then Term else Except), w, Back)
    case AfterSwap(w) => SetPhase(s, w, Judging).(active := s.active - 1)
    case Judge(w) => JudgeStep(s, w)
    case Requeue(w) => EndBody(Push(s, FiberItem(s.workers[w].pc.f), ANY_THREAD), w, !s.workers[w].pc.cb)
    case Park(w) => EndBody(SetStatus(s, s.workers[w].pc.f, Hold), w, !s.workers[w].pc.cb)
    case Recycle(w) => EndBody(SetStatus(s, s.workers[w].pc.f, Init), w, true)
    case DropStale(w) => EndBody(s, w, true).(active := s.active - 1)
    case Idle(w) =>
      if s.workers[w].idleTerm then SetPc(s, w, Left) else SetPc(s, w, IdleCheck).(idle := s.idle + 1)
    case CheckStopping(w) => (
      var stop := s.autoStop && s.stopping && s.queue == [] && s.active == 0;
      s.(workers := s.workers[w := s.workers[w].(pc := IdleLeave, idleTerm := stop)]))
    case LeaveIdle(w) => SetPc(s, w, Top).(idle := s.idle - 1)
    case NewFiber => s.(fibers := s.fibers + [Fiber(Init, 0, 0)])
    case Wake(f, caller) =>
      Push(s.(fibers := s.fibers[f := s.fibers[f].(wakes := s.fibers[f].wakes - 1)]), FiberItem(f), ANY_THREAD)
    case ScheduleCallback(thread, caller) => Push(s, CallbackItem, thread)
    case ScheduleFiber(f, thread, caller) => Push(s, FiberItem(f), thread)
    case Stop => s.(autoStop := true, stopping := true)
  }

  /** Lines 162-180 of run: a fiber entry is resumed unless it has ended, a callback gets the
      worker's callback fiber, reset if there is one and new otherwise. */
  function DispatchStep(s: State, w: nat): State
    requires Enabled(Config(0, false, false), s, Dispatch(w))
  {
    var me := s.workers[w];
    var e := me.pc.e;
    match e.item
    case FiberItem(f) =>
      if Ended(s.fibers[f].status) then SetPc(s, w, Stale(e)) else SetPc(s, w, Busy(e, f, false, Resuming))
    case CallbackItem =>
      if me.cbFiber.Some? then
        SetPc(SetStatus(s, me.cbFiber.value, Init), w, Busy(e, me.cbFiber.value, true, Resuming))
      else
        var c := |s.fibers|;
        s.(fibers := s.fibers + [Fiber(Init, 0, 0)],
           workers := s.workers[w := me.(pc := Busy(e, c, true, Resuming), cbFiber := Some(c))])
  }

  /** Lines 167-173 and 183-192 of run: the status left behind by the fiber decides. */
  function JudgeStep(s: State, w: nat): State
    requires AtPhase(s, w, Judging)
  {
    var me := s.workers[w];
    var st := s.fibers[me.pc.f].status;
    if st == Ready then SetPhase(s, w, Requeueing)
    else if !Ended(st) then SetPhase(s, w, Parking)
    else if me.pc.cb then SetPhase(s, w, Recycling)
    else EndBody(s, w, true)
  }

  predicate Initial(cfg: Config, s: State) {
    && (forall f :: 0 <= f < |s.fibers| ==> s.fibers[f] == Fiber(Init, 0, 0))
    && (forall w :: 0 <= w < |s.workers| ==> s.workers[w] == Worker(Top, None, false))
    && s.lock == None && s.active == 0 && s.idle == 0 && s.finished == multiset{} && s.log == []
    && s.nextId == |s.queue|
    && (forall i :: 0 <= i < |s.queue| ==>
          && s.queue[i].id == i
          && PinAllowed(cfg, s.queue[i].thread)
          && (s.queue[i].item.FiberItem? ==> s.queue[i].item.f < |s.fibers|))
    && (forall i, j :: 0 <= i < j < |s.queue| && s.queue[i].item.FiberItem? ==> s.queue[i].item != s.queue[j].item)
  }

  /** A run: states `tr` linked by the actions `acts`, from an initial state. */
  predicate Run(cfg: Config, tr: seq<State>, acts: seq<Action>) {
    && |tr| == |acts| + 1
    && Initial(cfg, tr[0])
    && forall i :: 0 <= i < |acts| ==> Enabled(cfg, tr[i], acts[i]) && tr[i + 1] == Next(cfg, tr[i], acts[i])
  }

  ghost predicate Reachable(cfg: Config, s: State) {
    exists tr, acts :: Run(cfg, tr, acts) && tr[|acts|] == s
  }
}
