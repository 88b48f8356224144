/** The wait of a hooked socket call: the call arms a timer, registers its fiber for one event of the
    descriptor and yields; readiness, the timer's callback and outside cancellation race to wake it.

    Where a contract says `P(..) == true` it means `P(..)`; the longer form keeps the verifier from
    proving the parts of P one by one. */
module HookedWait {
  import opened Common

  /** How a call has ended: with the result of the system call, with ETIMEDOUT, or because addEvent
      failed. */
  datatype Ending = Returned | TimedOut | NotAdded

  /** Where a call is.
      Trying: about to call the system call; Again: it said EAGAIN; Armed: its timer, if it has a
      timeout, is in the set; Waiting: registered and yielded; Resumed: back from the yield; Unarmed:
      its timer has been cancelled. */
  datatype Place =
    | Trying
    | Again
    | Armed(timer: Option<nat>)
    | Waiting(reg: nat, timer: Option<nat>)
    | Resumed(timer: Option<nat>)
    | Unarmed
    | Ended(ending: Ending)

  /** One call of do_io, on a fiber, with or without a timeout.  `cancelled` is the field of its
      timer_info, with the timer whose callback set it; `last` is the last timer it armed; `resumes`
      counts how often its fiber came back from the yield. */
  datatype Call = Call(fiber: nat, timeout: bool, place: Place, cancelled: Option<nat>, last: Option<nat>, resumes: nat)

  /** Where a timer is.
      Pending: in the ordered set; Due: listExpiredCb has taken its callback; Passed: the callback has
      found the call alive and not cancelled; Marked: it has set the field and is about to cancel the
      event; Over. */
  datatype Stage = Pending | Due | Passed | Marked | Over

  datatype Timer = Timer(call: nat, stage: Stage, fired: bool)

  /** A registration, and the position in the queue where its fiber was put. */
  datatype Reg = Reg(call: nat, woken: Option<nat>)

  /** A place of the run queue: the fiber of `call` was put there by registration `reg`, and a worker has
      taken it out again or not. */
  datatype Entry = Entry(call: nat, reg: nat, taken: bool)

  /** `slot` is the event context of the descriptor; `queue` is everything ever put on the run queue. */
  datatype State = State(calls: seq<Call>, timers: seq<Timer>, regs: seq<Reg>, slot: Option<nat>, queue: seq<Entry>)

  const INIT := State([], [], [], None, [])

  /** When a call may arm a timer.
      Anytime: as the code does; AfterOver: only when no callback of an earlier timer of the call is
      still to come or to finish; AfterSettled: and none has cancelled the call. */
  datatype Arming = Anytime | AfterOver | AfterSettled

  /** `early`: a callback may cancel the event while its call is not registered, as in the code. */
  datatype Config = Config(arming: Arming, early: bool)

  datatype Step =
    | Begin(fiber: nat, timeout: bool)
    | TryIo(call: nat, again: bool)
    | Arm(call: nat)
    | AddEvent(call: nat)
    | AddEventFails(call: nat)
    | Ready
    | OutsideCancel
    | Expire(timer: nat)
    | Check(timer: nat)
    | Mark(timer: nat)
    | CancelEvent(timer: nat)
    | Resume(call: nat, entry: nat)
    | CancelTimer(call: nat)
    | Decide(call: nat)

  predicate At(s: State, c: nat) {
    c < |s.calls|
  }

  /** All timers of call `c` are over. */
  predicate AllOver(s: State, c: nat) {
    forall t :: 0 <= t < |s.timers| && s.timers[t].call == c ==> s.timers[t].stage == Over
  }

  predicate MayArm(cfg: Config, s: State, c: nat)
    requires At(s, c)
  {
    match cfg.arming
    case Anytime => true
    case AfterOver => AllOver(s, c)
    case AfterSettled => AllOver(s, c) && s.calls[c].cancelled.None?
  }

  /** The call is between two waits. */
  predicate Unregistered(p: Place) {
    p.Trying? || p.Again? || p.Armed?
  }

  predicate Enabled(cfg: Config, s: State, a: Step) {
    match a
    case Begin(f, _) => forall c :: 0 <= c < |s.calls| && s.calls[c].fiber == f ==> s.calls[c].place.Ended?
    case TryIo(c, _) => At(s, c) && s.calls[c].place.Trying?
    case Arm(c) => At(s, c) && s.calls[c].place.Again? && MayArm(cfg, s, c)
    case AddEvent(c) => At(s, c) && s.calls[c].place.Armed? && s.slot.None?
    case AddEventFails(c) => At(s, c) && s.calls[c].place.Armed?
    case Ready => s.slot.Some?
    case OutsideCancel => s.slot.Some?
    case Expire(t) => t < |s.timers| && s.timers[t].stage.Pending?
    case Check(t) => t < |s.timers| && s.timers[t].stage.Due? && At(s, s.timers[t].call)
    case Mark(t) => t < |s.timers| && s.timers[t].stage.Passed? && At(s, s.timers[t].call)
    case CancelEvent(t) =>
      && t < |s.timers| && s.timers[t].stage.Marked? && At(s, s.timers[t].call)
      && (cfg.early || !Unregistered(s.calls[s.timers[t].call].place))
    case Resume(c, i) =>
      && At(s, c) && s.calls[c].place.Waiting?
      && i < |s.queue| && !s.queue[i].taken && At(s, s.queue[i].call)
      && s.calls[s.queue[i].call].fiber == s.calls[c].fiber
    case CancelTimer(c) => At(s, c) && s.calls[c].place.Resumed?
    case Decide(c) => At(s, c) && s.calls[c].place.Unarmed?
  }

  function SetCall(s: State, c: nat, call: Call): State
    requires At(s, c)
  {
    s.(calls := s.calls[c := call])
  }

  function Move(s: State, c: nat, p: Place): State
    requires At(s, c)
  {
    SetCall(s, c, s.calls[c].(place := p))
  }

  function Stages(s: State, t: nat, g: Stage): State
    requires t < |s.timers|
  {
    s.(timers := s.timers[t := s.timers[t].(stage := g)])
  }

  /** Timer::cancel: a timer whose callback was already taken is left alone. */
  function Disarm(s: State, t: Option<nat>): State {
    if t.Some? && t.value < |s.timers| && s.timers[t.value].stage.Pending? then Stages(s, t.value, Over) else s
  }

  /** triggerEvent: the waiter is swapped out of the slot and put on the queue. */
  function Trigger(s: State): State {
    if s.slot.Some? && s.slot.value < |s.regs| then
      var r := s.slot.value;
      s.(slot := None,
      regs := s.regs[r := s.regs[r].(woken := Some(|s.queue|))],
      queue := s.queue + [Entry(s.regs[r].call, r, false)])
    else s
  }

  function Next(cfg: Config, s: State, a: Step): State
    requires Enabled(cfg, s, a)
  {
    match a
    case Begin(f, timeout) => s.(calls := s.calls + [Call(f, timeout, Trying, None, None, 0)])
    case TryIo(c, again) => Move(s, c, if again then Again else Ended(Returned))
    case Arm(c) =>
      if s.calls[c].timeout then
        SetCall(s, c, s.calls[c].(place := Armed(Some(|s.timers|)), last := Some(|s.timers|)))
        .(timers := s.timers + [Timer(c, Pending, false)])
      else Move(s, c, Armed(None))
    case AddEvent(c) =>
      Move(s, c, Waiting(|s.regs|, s.calls[c].place.timer))
      .(regs := s.regs + [Reg(c, None)], slot := Some(|s.regs|))
    case AddEventFails(c) => Disarm(Move(s, c, Ended(NotAdded)), s.calls[c].place.timer)
    case Ready => Trigger(s)
    case OutsideCancel => Trigger(s)
    case Expire(t) => s.(timers := s.timers[t := s.timers[t].(stage := Due, fired := true)])
    case Check(t) =>
      var call := s.calls[s.timers[t].call];
      Stages(s, t, if call.place.Ended? || call.cancelled.Some? then Over else Passed)
    case Mark(t) =>
      var c := s.timers[t].call;
      SetCall(Stages(s, t, Marked), c, s.calls[c].(cancelled := Some(t)))
    case CancelEvent(t) => Trigger(Stages(s, t, Over))
    case Resume(c, i) =>
      SetCall(s, c, s.calls[c].(place := Resumed(s.calls[c].place.timer), resumes := s.calls[c].resumes + 1))
      .(queue := s.queue[i := s.queue[i].(taken := true)])
    case CancelTimer(c) => Disarm(Move(s, c, Unarmed), s.calls[c].place.timer)
    case Decide(c) => Move(s, c, if s.calls[c].cancelled.Some? then Ended(TimedOut) else Trying)
  }

  ghost predicate Legal(cfg: Config, run: seq<Step>)
    decreases |run|, 0
  {
    run == [] || (Legal(cfg, run[..|run| - 1]) && Enabled(cfg, After(cfg, run[..|run| - 1]), run[|run| - 1]))
  }

  ghost function After(cfg: Config, run: seq<Step>): State
    requires Legal(cfg, run)
    decreases |run|, 1
  {
    if run == [] then INIT else Next(cfg, After(cfg, run[..|run| - 1]), run[|run| - 1])
  }

  ghost predicate Reachable(cfg: Config, s: State) {
    exists run :: Legal(cfg, run) && After(cfg, run) == s
  }

  // ---------------------------------------------------------------------------------------------
  // What holds in every reachable state

  /** The slot holds exactly the registration that has not been woken; every other one stands in the
      queue at exactly one position, for its own call. */
  ghost predicate WokenOnce(s: State) {
    && (forall i :: 0 <= i < |s.queue| ==>
          && s.queue[i].reg < |s.regs| && s.regs[s.queue[i].reg].woken == Some(i)
          && s.regs[s.queue[i].reg].call == s.queue[i].call)
    && (forall r :: 0 <= r < |s.regs| && s.regs[r].woken.Some? ==>
          s.regs[r].woken.value < |s.queue| && s.queue[s.regs[r].woken.value].reg == r)
    && (forall r :: 0 <= r < |s.regs| && s.regs[r].woken.None? ==> s.slot == Some(r))
    && (s.slot.Some? ==> s.slot.value < |s.regs| && s.regs[s.slot.value].woken.None?)
  }

  /** A registration whose fiber is in the slot, or on the queue and not taken, is the one its call
      waits on. */
  ghost predicate Awaited(s: State, r: nat)
    requires r < |s.regs|
  {
    s.regs[r].call < |s.calls| && s.calls[s.regs[r].call].place.Waiting? && s.calls[s.regs[r].call].place.reg == r
  }

  ghost predicate Outstanding(s: State) {
    && (s.slot.Some? ==> s.slot.value < |s.regs| && Awaited(s, s.slot.value))
    && (forall i :: 0 <= i < |s.queue| && !s.queue[i].taken ==> s.queue[i].reg < |s.regs| && Awaited(s, s.queue[i].reg))
  }

  /** A cancelled call was cancelled by a timer of its own that has fired. */
  ghost predicate OwnTimer(s: State, c: nat)
    requires At(s, c)
  {
    var setter := s.calls[c].cancelled;
    setter.Some? ==> setter.value < |s.timers| && s.timers[setter.value].call == c && s.timers[setter.value].fired
  }

  /** The timer a call holds is its own. */
  ghost predicate HoldsOwn(s: State, c: nat, t: Option<nat>) {
    t.Some? ==> t.value < |s.timers| && s.timers[t.value].call == c
  }

  ghost predicate CallOk(s: State, c: nat)
    requires At(s, c)
  {
    var p := s.calls[c].place;
    && OwnTimer(s, c)
    && (p == Ended(TimedOut) ==> s.calls[c].cancelled.Some?)
    && (p.Armed? || p.Waiting? || p.Resumed? ==> HoldsOwn(s, c, p.timer))
    && (p.Waiting? ==> p.reg < |s.regs| && s.regs[p.reg].call == c)
  }

  ghost predicate CallsOk(s: State) {
    && (forall c :: 0 <= c < |s.calls| ==> CallOk(s, c))
    && (forall r :: 0 <= r < |s.regs| ==> s.regs[r].call < |s.calls|)
  }

  ghost predicate TimersOk(s: State) {
    forall t :: 0 <= t < |s.timers| ==>
      && s.timers[t].call < |s.calls|
      && (s.timers[t].stage.Due? || s.timers[t].stage.Passed? || s.timers[t].stage.Marked? ==> s.timers[t].fired)
  }

  /** A fiber is in one call at a time. */
  ghost predicate OneCall(s: State) {
    forall b, c :: 0 <= b < c < |s.calls| && s.calls[b].fiber == s.calls[c].fiber ==> s.calls[b].place.Ended?
  }

  ghost predicate Inv(s: State) {
    WokenOnce(s) && Outstanding(s) && CallsOk(s) && TimersOk(s) && OneCall(s)
  }

  /** A change of a call that neither begins nor ends a wait. */
  lemma SetCallKeeps(s: State, c: nat, call: Call)
    requires Inv(s) && At(s, c) && call.fiber == s.calls[c].fiber && CallOk(SetCall(s, c, call), c)
    requires call.place == s.calls[c].place
             || (!call.place.Waiting? && !s.calls[c].place.Waiting? && !s.calls[c].place.Ended?)
    ensures Inv(SetCall(s, c, call)) == true
  {
    var t := SetCall(s, c, call);
    forall b | 0 <= b < |t.calls| ensures CallOk(t, b) {
      assert b != c ==> CallOk(s, b);
    }
    forall r | 0 <= r < |s.regs| && Awaited(s, r) ensures Awaited(t, r) {
    }
  }

  lemma StagesKeeps(s: State, t: nat, g: Stage)
    requires Inv(s) && t < |s.timers|
    requires g.Over? || s.timers[t].fired
    ensures Inv(Stages(s, t, g)) == true
  {
    var u := Stages(s, t, g);
    forall c | 0 <= c < |u.calls| ensures CallOk(u, c) {
      assert CallOk(s, c);
    }
  }

  lemma TriggerWakes(s: State)
    requires WokenOnce(s)
    ensures WokenOnce(Trigger(s)) == true
  {
  }

  lemma TriggerKeeps(s: State)
    requires Inv(s)
    ensures Inv(Trigger(s)) == true
  {
    var t := Trigger(s);
    TriggerWakes(s);
    forall c | 0 <= c < |t.calls| ensures CallOk(t, c) {
      assert CallOk(s, c);
    }
    forall r | 0 <= r < |s.regs| && Awaited(s, r) ensures Awaited(t, r) {
    }
  }

  lemma DisarmKeeps(s: State, t: Option<nat>)
    requires Inv(s)
    ensures Inv(Disarm(s, t)) == true
  {
    if t.Some? && t.value < |s.timers| && s.timers[t.value].stage.Pending? {
      StagesKeeps(s, t.value, Over);
    }
  }

  lemma BeginKeeps(cfg: Config, s: State, f: nat, timeout: bool)
    requires Inv(s) && Enabled(cfg, s, Begin(f, timeout))
    ensures Inv(Next(cfg, s, Begin(f, timeout))) == true
  {
    var t := Next(cfg, s, Begin(f, timeout));
    forall c | 0 <= c < |t.calls| ensures CallOk(t, c) {
      assert c < |s.calls| ==> CallOk(s, c);
    }
    forall r | 0 <= r < |s.regs| && Awaited(s, r) ensures Awaited(t, r) {
    }
  }

  lemma ArmKeeps(cfg: Config, s: State, c: nat)
    requires Inv(s) && Enabled(cfg, s, Arm(c))
    ensures Inv(Next(cfg, s, Arm(c))) == true
  {
    assert CallOk(s, c);
    if s.calls[c].timeout {
      var u := s.(timers := s.timers + [Timer(c, Pending, false)]);
      forall b | 0 <= b < |u.calls| ensures CallOk(u, b) {
        assert CallOk(s, b);
      }
      assert forall r :: 0 <= r < |s.regs| && Awaited(s, r) ==> Awaited(u, r);
      assert Inv(u);
      SetCallKeeps(u, c, s.calls[c].(place := Armed(Some(|s.timers|)), last := Some(|s.timers|)));
    } else {
      SetCallKeeps(s, c, s.calls[c].(place := Armed(None)));
    }
  }

  lemma AddEventKeeps(cfg: Config, s: State, c: nat)
    requires Inv(s) && Enabled(cfg, s, AddEvent(c))
    ensures Inv(Next(cfg, s, AddEvent(c))) == true
  {
    var t := Next(cfg, s, AddEvent(c));
    forall b | 0 <= b < |t.calls| ensures CallOk(t, b) {
      assert CallOk(s, b);
    }
    forall r | 0 <= r < |s.regs| && Awaited(s, r) ensures Awaited(t, r) {
    }
    assert Awaited(t, |s.regs|);
  }

  lemma ExpireKeeps(cfg: Config, s: State, t: nat)
    requires Inv(s) && Enabled(cfg, s, Expire(t))
    ensures Inv(Next(cfg, s, Expire(t))) == true
  {
    var u := Next(cfg, s, Expire(t));
    forall c | 0 <= c < |u.calls| ensures CallOk(u, c) {
      assert CallOk(s, c);
    }
    assert forall r :: 0 <= r < |s.regs| && Awaited(s, r) ==> Awaited(u, r);
  }

  lemma MarkKeeps(cfg: Config, s: State, t: nat)
    requires Inv(s) && Enabled(cfg, s, Mark(t))
    ensures Inv(Next(cfg, s, Mark(t))) == true
  {
    var c, u := s.timers[t].call, Stages(s, t, Marked);
    StagesKeeps(s, t, Marked);
    assert CallOk(u, c);
    SetCallKeeps(u, c, s.calls[c].(cancelled := Some(t)));
  }

  /** The entry that brings a call back is that of the registration it waits on. */
  lemma EntryIsOwn(cfg: Config, s: State, c: nat, i: nat)
    requires Inv(s) && Enabled(cfg, s, Resume(c, i))
    ensures s.queue[i].call == c && s.queue[i].reg == s.calls[c].place.reg
  {
    var b := s.queue[i].call;
    assert Awaited(s, s.queue[i].reg);
    assert b == c;
  }

  lemma ResumeKeeps(cfg: Config, s: State, c: nat, i: nat)
    requires Inv(s) && Enabled(cfg, s, Resume(c, i))
    ensures Inv(Next(cfg, s, Resume(c, i))) == true
  {
    var t := Next(cfg, s, Resume(c, i));
    EntryIsOwn(cfg, s, c, i);
    forall b | 0 <= b < |t.calls| ensures CallOk(t, b) {
      assert CallOk(s, b);
    }
    forall r | 0 <= r < |s.regs| && Awaited(s, r) && r != s.queue[i].reg ensures Awaited(t, r) {
    }
    assert t.slot != Some(s.queue[i].reg);
    forall j | 0 <= j < |t.queue| && !t.queue[j].taken ensures Awaited(t, t.queue[j].reg) {
      assert Awaited(s, s.queue[j].reg);
    }
  }

  predicate OfTimer(a: Step) {
    a.Expire? || a.Check? || a.Mark? || a.CancelEvent?
  }

  lemma TimerStepKeeps(cfg: Config, s: State, a: Step)
    requires Inv(s) && Enabled(cfg, s, a) && OfTimer(a)
    ensures Inv(Next(cfg, s, a)) == true
  {
    match a
    case Expire(t) => ExpireKeeps(cfg, s, t);
    case Mark(t) => MarkKeeps(cfg, s, t);
    case Check(t) =>
      var call := s.calls[s.timers[t].call];
      StagesKeeps(s, t, if call.place.Ended? || call.cancelled.Some? then Over else Passed);
    case CancelEvent(t) =>
      StagesKeeps(s, t, Over);
      TriggerKeeps(Stages(s, t, Over));
  }

  /** A call moves on between two waits. */
  lemma MoveKeeps(s: State, c: nat, p: Place)
    requires Inv(s) && At(s, c) && !s.calls[c].place.Waiting? && !s.calls[c].place.Ended?
    requires p.Again? || p.Trying? || p.Unarmed? || p.Ended?
    requires p == Ended(TimedOut) ==> s.calls[c].cancelled.Some?
    ensures Inv(Move(s, c, p)) == true
  {
    assert CallOk(s, c);
    SetCallKeeps(s, c, s.calls[c].(place := p));
  }

  lemma CallStepKeeps(cfg: Config, s: State, a: Step)
    requires Inv(s) && Enabled(cfg, s, a) && !OfTimer(a)
    ensures Inv(Next(cfg, s, a)) == true
  {
    match a
    case Begin(f, timeout) => BeginKeeps(cfg, s, f, timeout);
    case TryIo(c, again) => MoveKeeps(s, c, if again then Again else Ended(Returned));
    case Arm(c) => ArmKeeps(cfg, s, c);
    case AddEvent(c) => AddEventKeeps(cfg, s, c);
    case AddEventFails(c) =>
      MoveKeeps(s, c, Ended(NotAdded));
      DisarmKeeps(Move(s, c, Ended(NotAdded)), s.calls[c].place.timer);
    case Ready => TriggerKeeps(s);
    case OutsideCancel => TriggerKeeps(s);
    case Resume(c, i) => ResumeKeeps(cfg, s, c, i);
    case CancelTimer(c) =>
      MoveKeeps(s, c, Unarmed);
      DisarmKeeps(Move(s, c, Unarmed), s.calls[c].place.timer);
    case Decide(c) => MoveKeeps(s, c, if s.calls[c].cancelled.Some? then Ended(TimedOut) else Trying);
  }

  lemma StepKeeps(cfg: Config, s: State, a: Step)
    requires Inv(s) && Enabled(cfg, s, a)
    ensures Inv(Next(cfg, s, a)) == true
  {
    if OfTimer(a) {
      TimerStepKeeps(cfg, s, a);
    } else {
      CallStepKeeps(cfg, s, a);
    }
  }

  lemma {:induction false} RunKeeps(cfg: Config, run: seq<Step>)
    requires Legal(cfg, run)
    ensures Inv(After(cfg, run)) == true
  {
    if run != [] {
      RunKeeps(cfg, run[..|run| - 1]);
      StepKeeps(cfg, After(cfg, run[..|run| - 1]), run[|run| - 1]);
    }
  }

  // ---------------------------------------------------------------------------------------------
  // One wake-up for each suspension

  /** The registrations that call `c` has made. */
  function RegsOf(regs: seq<Reg>, c: nat): nat {
    if regs == [] then 0
    else RegsOf(regs[..|regs| - 1], c) + if regs[|regs| - 1].call == c then 1 else 0
  }

  /** How often the fiber of call `c` was put on the queue. */
  function EntriesOf(queue: seq<Entry>, c: nat): nat {
    if queue == [] then 0
    else EntriesOf(queue[..|queue| - 1], c) + if queue[|queue| - 1].call == c then 1 else 0
  }

  lemma {:induction false} RegsSame(regs: seq<Reg>, r: nat, x: Reg, c: nat)
    requires r < |regs| && x.call == regs[r].call
    ensures RegsOf(regs[r := x], c) == RegsOf(regs, c)
    decreases |regs|
  {
    var n := |regs| - 1;
    if r == n {
      assert regs[r := x][..n] == regs[..n];
    } else {
      assert regs[r := x][..n] == regs[..n][r := x];
      RegsSame(regs[..n], r, x, c);
    }
  }

  lemma RegsAdd(regs: seq<Reg>, x: Reg, c: nat)
    ensures RegsOf(regs + [x], c) == RegsOf(regs, c) + if x.call == c then 1 else 0
  {
    assert (regs + [x])[..|regs|] == regs;
  }

  lemma {:induction false} EntriesSame(queue: seq<Entry>, i: nat, x: Entry, c: nat)
    requires i < |queue| && x.call == queue[i].call
    ensures EntriesOf(queue[i := x], c) == EntriesOf(queue, c)
    decreases |queue|
  {
    var n := |queue| - 1;
    if i == n {
      assert queue[i := x][..n] == queue[..n];
    } else {
      assert queue[i := x][..n] == queue[..n][i := x];
      EntriesSame(queue[..n], i, x, c);
    }
  }

  lemma EntriesAdd(queue: seq<Entry>, x: Entry, c: nat)
    ensures EntriesOf(queue + [x], c) == EntriesOf(queue, c) + if x.call == c then 1 else 0
  {
    assert (queue + [x])[..|queue|] == queue;
  }

  lemma {:induction false} NoneYet(regs: seq<Reg>, queue: seq<Entry>, c: nat)
    requires forall r :: 0 <= r < |regs| ==> regs[r].call < c
    requires forall i :: 0 <= i < |queue| ==> queue[i].call < c
    ensures RegsOf(regs, c) == 0 && EntriesOf(queue, c) == 0
    decreases |regs| + |queue|
  {
    if regs != [] {
      NoneYet(regs[..|regs| - 1], queue, c);
    } else if queue != [] {
      NoneYet(regs, queue[..|queue| - 1], c);
    }
  }

  predicate Woken(s: State, c: nat)
    requires At(s, c)
  {
    var p := s.calls[c].place;
    p.Waiting? && p.reg < |s.regs| && s.regs[p.reg].woken.Some?
  }

  /** A call has registered once for each time it came back, and once more while it waits; its fiber was
      put on the queue once for each time it came back, and once more while it waits and is woken. */
  ghost predicate Paid(s: State, c: nat)
    requires At(s, c)
  {
    && RegsOf(s.regs, c) == s.calls[c].resumes + (if s.calls[c].place.Waiting? then 1 else 0)
    && EntriesOf(s.queue, c) == s.calls[c].resumes + (if Woken(s, c) then 1 else 0)
  }

  ghost predicate AllPaid(s: State) {
    forall c :: 0 <= c < |s.calls| ==> Paid(s, c)
  }

  /** Steps that touch neither registrations nor queue, and begin or end no wait. */
  lemma PaidSame(s: State, t: State)
    requires AllPaid(s) && t.regs == s.regs && t.queue == s.queue && |t.calls| == |s.calls|
    requires forall c :: 0 <= c < |s.calls| ==>
      && t.calls[c].resumes == s.calls[c].resumes
      && (t.calls[c].place == s.calls[c].place || (!t.calls[c].place.Waiting? && !s.calls[c].place.Waiting?))
    ensures AllPaid(t) == true
  {
    forall c | 0 <= c < |t.calls| ensures Paid(t, c) {
      assert Paid(s, c);
    }
  }

  lemma TriggerPays(s: State)
    requires Inv(s) && AllPaid(s)
    ensures AllPaid(Trigger(s)) == true
  {
    var t := Trigger(s);
    if s.slot.Some? {
      var r := s.slot.value;
      forall c | 0 <= c < |t.calls| ensures Paid(t, c) {
        assert Paid(s, c) && CallOk(s, c);
        RegsSame(s.regs, r, t.regs[r], c);
        EntriesAdd(s.queue, Entry(s.regs[r].call, r, false), c);
      }
    }
  }

  lemma AddEventPays(cfg: Config, s: State, c: nat)
    requires Inv(s) && AllPaid(s) && Enabled(cfg, s, AddEvent(c))
    ensures AllPaid(Next(cfg, s, AddEvent(c))) == true
  {
    var t := Next(cfg, s, AddEvent(c));
    forall b | 0 <= b < |t.calls| ensures Paid(t, b) {
      assert Paid(s, b) && CallOk(s, b);
      RegsAdd(s.regs, Reg(c, None), b);
    }
  }

  lemma ResumePays(cfg: Config, s: State, c: nat, i: nat)
    requires Inv(s) && AllPaid(s) && Enabled(cfg, s, Resume(c, i))
    ensures AllPaid(Next(cfg, s, Resume(c, i))) == true
  {
    var t := Next(cfg, s, Resume(c, i));
    EntryIsOwn(cfg, s, c, i);
    forall b | 0 <= b < |t.calls| ensures Paid(t, b) {
      assert Paid(s, b);
      EntriesSame(s.queue, i, t.queue[i], b);
    }
  }

  lemma BeginPays(cfg: Config, s: State, f: nat, timeout: bool)
    requires Inv(s) && AllPaid(s) && Enabled(cfg, s, Begin(f, timeout))
    ensures AllPaid(Next(cfg, s, Begin(f, timeout))) == true
  {
    var t := Next(cfg, s, Begin(f, timeout));
    NoneYet(s.regs, s.queue, |s.calls|);
    forall c | 0 <= c < |t.calls| ensures Paid(t, c) {
      assert c < |s.calls| ==> Paid(s, c);
    }
  }

  lemma StepPays(cfg: Config, s: State, a: Step)
    requires Inv(s) && AllPaid(s) && Enabled(cfg, s, a)
    ensures AllPaid(Next(cfg, s, a)) == true
  {
    match a
    case Begin(f, timeout) => BeginPays(cfg, s, f, timeout);
    case AddEvent(c) => AddEventPays(cfg, s, c);
    case Ready => TriggerPays(s);
    case OutsideCancel => TriggerPays(s);
    case CancelEvent(t) =>
      StagesKeeps(s, t, Over);
      PaidSame(s, Stages(s, t, Over));
      TriggerPays(Stages(s, t, Over));
    case Resume(c, i) => ResumePays(cfg, s, c, i);
    case _ => PaidSame(s, Next(cfg, s, a));
  }

  lemma {:induction false} RunPays(cfg: Config, run: seq<Step>)
    requires Legal(cfg, run)
    ensures AllPaid(After(cfg, run)) == true
  {
    if run != [] {
      var past := run[..|run| - 1];
      RunPays(cfg, past);
      RunKeeps(cfg, past);
      StepPays(cfg, After(cfg, past), run[|run| - 1]);
    }
  }

  // ---------------------------------------------------------------------------------------------
  // The results

  /** In every run each registration puts its fiber on the queue at most once, and exactly once when
      it is no longer in the slot, whoever got there first. */
  lemma EveryRegistrationOnce(cfg: Config, run: seq<Step>, r: nat)
    requires Legal(cfg, run) && r < |After(cfg, run).regs|
    ensures var s := After(cfg, run);
            && (forall i, j :: 0 <= i < j < |s.queue| && s.queue[i].reg == r ==> s.queue[j].reg != r)
            && ((exists i :: 0 <= i < |s.queue| && s.queue[i].reg == r) <==> s.slot != Some(r))
  {
    RunKeeps(cfg, run);
    OncePlaced(After(cfg, run), r);
  }

  lemma OncePlaced(s: State, r: nat)
    requires WokenOnce(s) && r < |s.regs|
    ensures forall i, j :: 0 <= i < j < |s.queue| && s.queue[i].reg == r ==> s.queue[j].reg != r
    ensures (exists i :: 0 <= i < |s.queue| && s.queue[i].reg == r) <==> s.slot != Some(r)
  {
    if s.regs[r].woken.Some? {
      assert s.queue[s.regs[r].woken.value].reg == r;
    }
  }

  /** ETIMEDOUT is returned only if a timer armed by that same call has fired. */
  lemma TimedOutByOwnTimer(cfg: Config, run: seq<Step>, c: nat)
    requires Legal(cfg, run) && c < |After(cfg, run).calls| && After(cfg, run).calls[c].place == Ended(TimedOut)
    ensures var ts := After(cfg, run).timers; exists t :: 0 <= t < |ts| && ts[t].call == c && ts[t].fired
  {
    RunKeeps(cfg, run);
    assert CallOk(After(cfg, run), c);
  }

  /** Whatever entry of its fiber a worker takes, the call that comes back is the one the entry was made
      for, and through the registration it waits on; there is no second entry of that fiber left. */
  lemma ResumedByOwnRegistration(cfg: Config, run: seq<Step>, c: nat, i: nat)
    requires Legal(cfg, run) && Enabled(cfg, After(cfg, run), Resume(c, i))
    ensures var s := After(cfg, run);
            && s.queue[i].call == c && s.queue[i].reg == s.calls[c].place.reg && s.slot != Some(s.queue[i].reg)
            && forall j :: 0 <= j < |s.queue| && Enabled(cfg, s, Resume(c, j)) ==> j == i
  {
    RunKeeps(cfg, run);
    var s := After(cfg, run);
    EntryIsOwn(cfg, s, c, i);
    forall j | 0 <= j < |s.queue| && Enabled(cfg, s, Resume(c, j)) ensures j == i {
      EntryIsOwn(cfg, s, c, j);
    }
  }

  /** In every run, a call has handed out one wake-up for each time it came back and one more while it
      waits, and when it registers none is outstanding: a suspension in do_io hands out at most one. */
  lemma OneWakePerSuspension(cfg: Config, run: seq<Step>, c: nat)
    requires Legal(cfg, run) && c < |After(cfg, run).calls|
    ensures var s := After(cfg, run);
            && RegsOf(s.regs, c) == s.calls[c].resumes + (if s.calls[c].place.Waiting? then 1 else 0)
            && EntriesOf(s.queue, c) == s.calls[c].resumes + (if Woken(s, c) then 1 else 0)
            && (Enabled(cfg, s, AddEvent(c)) ==> RegsOf(s.regs, c) == s.calls[c].resumes == EntriesOf(s.queue, c))
  {
    RunPays(cfg, run);
    assert Paid(After(cfg, run), c);
  }

  // ---------------------------------------------------------------------------------------------
  // A pending timer belongs to a wait

  /** The timer of the wait that a call is in, or about to enter or to leave. */
  function TimerOf(p: Place): Option<nat> {
    match p
    case Armed(t) => t
    case Waiting(_, t) => t
    case Resumed(t) => t
    case _ => None
  }

  ghost predicate PendingOwned(s: State) {
    forall t :: 0 <= t < |s.timers| && s.timers[t].stage.Pending? ==>
      s.timers[t].call < |s.calls| && TimerOf(s.calls[s.timers[t].call].place) == Some(t)
  }

  lemma PendingStep(cfg: Config, s: State, a: Step)
    requires PendingOwned(s) && Enabled(cfg, s, a)
    ensures PendingOwned(Next(cfg, s, a)) == true
  {
    if OfTimer(a) || a.Ready? || a.OutsideCancel? {
      PendingOther(cfg, s, a);
    } else if a.AddEventFails? || a.CancelTimer? {
      PendingDisarm(cfg, s, a);
    } else if a.Begin? || a.TryIo? || a.Decide? {
      PendingOutside(cfg, s, a);
    } else {
      PendingWait(cfg, s, a);
    }
  }

  lemma PendingOther(cfg: Config, s: State, a: Step)
    requires PendingOwned(s) && Enabled(cfg, s, a) && (OfTimer(a) || a.Ready? || a.OutsideCancel?)
    ensures PendingOwned(Next(cfg, s, a)) == true
  {
  }

  lemma PendingDisarm(cfg: Config, s: State, a: Step)
    requires PendingOwned(s) && Enabled(cfg, s, a) && (a.AddEventFails? || a.CancelTimer?)
    ensures PendingOwned(Next(cfg, s, a)) == true
  {
  }

  lemma PendingOutside(cfg: Config, s: State, a: Step)
    requires PendingOwned(s) && Enabled(cfg, s, a) && (a.Begin? || a.TryIo? || a.Decide?)
    ensures PendingOwned(Next(cfg, s, a)) == true
  {
  }

  lemma PendingWait(cfg: Config, s: State, a: Step)
    requires PendingOwned(s) && Enabled(cfg, s, a) && (a.Arm? || a.AddEvent? || a.Resume?)
    ensures PendingOwned(Next(cfg, s, a)) == true
  {
  }

  /** In every run, a timer is pending only while its call is in the wait it was armed for: when the call
      tries again, or has ended in any way, its timers have fired or are cancelled. */
  lemma {:induction false} PendingIsAwaited(cfg: Config, run: seq<Step>)
    requires Legal(cfg, run)
    ensures PendingOwned(After(cfg, run)) == true
  {
    if run != [] {
      var past := run[..|run| - 1];
      PendingIsAwaited(cfg, past);
      PendingStep(cfg, After(cfg, past), run[|run| - 1]);
    }
  }

  // ---------------------------------------------------------------------------------------------
  // When a timeout is not lost

  /** A call that waits with its registration in the slot and has armed a timer for the wait has a timer
      of its own whose callback is still to come or to finish. */
  ghost predicate TimeoutPends(s: State) {
    forall c :: 0 <= c < |s.calls| && s.calls[c].place.Waiting? && s.calls[c].place.timer.Some?
                && s.slot == Some(s.calls[c].place.reg) ==>
      exists t :: 0 <= t < |s.timers| && s.timers[t].call == c && s.timers[t].stage != Over
  }

  /** The call is not registered, or still in the slot. */
  predicate Unwoken(s: State, p: Place) {
    Unregistered(p) || (p.Waiting? && s.slot == Some(p.reg))
  }

  ghost predicate CallKept(s: State, c: nat)
    requires At(s, c)
  {
    var call := s.calls[c];
    Unwoken(s, call.place) ==>
      if call.cancelled.Some? then
        call.cancelled.value < |s.timers| && s.timers[call.cancelled.value].stage == Marked
      else
        (call.place.Armed? || call.place.Waiting?) && call.place.timer.Some? ==>
          call.place.timer.value < |s.timers| && s.timers[call.place.timer.value].stage != Over
  }

  ghost predicate AllKept(s: State) {
    && (forall c :: 0 <= c < |s.calls| ==> CallKept(s, c))
    && (forall t :: 0 <= t < |s.timers| && s.timers[t].stage == Marked ==>
          s.timers[t].call < |s.calls| && s.calls[s.timers[t].call].cancelled.Some?)
  }

  lemma CancelEventLeaves(cfg: Config, s: State, t: nat)
    requires Inv(s) && AllKept(s) && !cfg.early && Enabled(cfg, s, CancelEvent(t))
    ensures AllKept(Next(cfg, s, CancelEvent(t))) == true
  {
    var u := Next(cfg, s, CancelEvent(t));
    forall c | 0 <= c < |u.calls| ensures CallKept(u, c) {
      assert CallKept(s, c) && CallOk(s, c);
      assert CallOk(s, s.timers[t].call);
    }
  }

  lemma DisarmLeaves(s: State, c: nat, p: Place, t: Option<nat>)
    requires Inv(s) && AllKept(s) && At(s, c) && HoldsOwn(s, c, t) && (p.Unarmed? || p.Ended?)
    ensures AllKept(Disarm(Move(s, c, p), t)) == true
  {
    var u := Disarm(Move(s, c, p), t);
    forall b | 0 <= b < |u.calls| ensures CallKept(u, b) {
      assert CallKept(s, b) && CallOk(s, b);
    }
  }

  lemma TimerStepLeaves(cfg: Config, s: State, a: Step)
    requires Inv(s) && AllKept(s) && Enabled(cfg, s, a) && (a.Expire? || a.Check? || a.Mark?)
    ensures AllKept(Next(cfg, s, a)) == true
  {
    var u := Next(cfg, s, a);
    forall c | 0 <= c < |u.calls| ensures CallKept(u, c) {
      assert CallKept(s, c) && CallOk(s, c);
    }
  }

  lemma CallStepLeaves(cfg: Config, s: State, a: Step)
    requires Inv(s) && AllKept(s) && Enabled(cfg, s, a) && (a.Begin? || a.TryIo? || a.Arm?)
    ensures AllKept(Next(cfg, s, a)) == true
  {
    var u := Next(cfg, s, a);
    forall c | 0 <= c < |u.calls| ensures CallKept(u, c) {
      assert c < |s.calls| ==> CallKept(s, c) && CallOk(s, c);
    }
  }

  lemma WaitStepLeaves(cfg: Config, s: State, a: Step)
    requires Inv(s) && AllKept(s) && Enabled(cfg, s, a) && (a.AddEvent? || a.Decide?)
    ensures AllKept(Next(cfg, s, a)) == true
  {
    var u := Next(cfg, s, a);
    forall c | 0 <= c < |u.calls| ensures CallKept(u, c) {
      assert CallKept(s, c) && CallOk(s, c);
    }
  }

  lemma WakeStepLeaves(cfg: Config, s: State, a: Step)
    requires Inv(s) && AllKept(s) && Enabled(cfg, s, a) && (a.Ready? || a.OutsideCancel? || a.Resume?)
    ensures AllKept(Next(cfg, s, a)) == true
  {
    var u := Next(cfg, s, a);
    forall c | 0 <= c < |u.calls| ensures CallKept(u, c) {
      assert CallKept(s, c);
    }
  }

  lemma StepLeaves(cfg: Config, s: State, a: Step)
    requires Inv(s) && AllKept(s) && !cfg.early && Enabled(cfg, s, a)
    ensures AllKept(Next(cfg, s, a)) == true
  {
    match a
    case CancelEvent(t) => CancelEventLeaves(cfg, s, t);
    case AddEventFails(c) =>
      assert CallOk(s, c);
      DisarmLeaves(s, c, Ended(NotAdded), s.calls[c].place.timer);
    case CancelTimer(c) =>
      assert CallOk(s, c);
      DisarmLeaves(s, c, Unarmed, s.calls[c].place.timer);
    case Expire(_) => TimerStepLeaves(cfg, s, a);
    case Check(_) => TimerStepLeaves(cfg, s, a);
    case Mark(_) => TimerStepLeaves(cfg, s, a);
    case Ready => WakeStepLeaves(cfg, s, a);
    case OutsideCancel => WakeStepLeaves(cfg, s, a);
    case Resume(_, _) => WakeStepLeaves(cfg, s, a);
    case AddEvent(_) => WaitStepLeaves(cfg, s, a);
    case Decide(_) => WaitStepLeaves(cfg, s, a);
    case _ => CallStepLeaves(cfg, s, a);
  }

  lemma {:induction false} RunLeaves(cfg: Config, run: seq<Step>)
    requires !cfg.early && Legal(cfg, run)
    ensures AllKept(After(cfg, run)) == true
  {
    if run != [] {
      var past := run[..|run| - 1];
      RunLeaves(cfg, past);
      RunKeeps(cfg, past);
      StepLeaves(cfg, After(cfg, past), run[|run| - 1]);
    }
  }

  lemma NeverLost(cfg: Config, s: State)
    requires !cfg.early && Reachable(cfg, s)
    ensures TimeoutPends(s)
  {
    var run :| Legal(cfg, run) && After(cfg, run) == s;
    RunLeaves(cfg, run);
    RunKeeps(cfg, run);
    forall c | 0 <= c < |s.calls| && s.calls[c].place.Waiting? && s.calls[c].place.timer.Some?
               && s.slot == Some(s.calls[c].place.reg)
      ensures exists t :: 0 <= t < |s.timers| && s.timers[t].call == c && s.timers[t].stage != Over
    {
      assert CallKept(s, c) && CallOk(s, c);
      var t := if s.calls[c].cancelled.Some? then s.calls[c].cancelled.value else s.calls[c].place.timer.value;
      assert s.timers[t].call == c && s.timers[t].stage != Over;
    }
  }

  lemma Extend(cfg: Config, run: seq<Step>, a: Step)
    requires Legal(cfg, run) && Enabled(cfg, After(cfg, run), a)
    ensures Legal(cfg, run + [a]) && After(cfg, run + [a]) == Next(cfg, After(cfg, run), a)
  {
    assert (run + [a])[..|run|] == run;
  }

  /** One more step of a run, to the state `t`. */
  lemma Reach(cfg: Config, s: State, a: Step, t: State)
    requires Reachable(cfg, s) && Enabled(cfg, s, a) && Next(cfg, s, a) == t
    ensures Reachable(cfg, t)
  {
    var run :| Legal(cfg, run) && After(cfg, run) == s;
    Extend(cfg, run, a);
  }

  /** A single call, by the call 0 of fiber 0. */
  function Alone(p: Place, cancelled: Option<nat>, last: nat, resumes: nat): seq<Call> {
    [Call(0, true, p, cancelled, Some(last), resumes)]
  }

  /** A first call, with its timer armed. */
  lemma FirstArmed(cfg: Config)
    ensures Reachable(cfg, State(Alone(Armed(Some(0)), None, 0, 0), [Timer(0, Pending, false)], [], None, []))
  {
    assert Legal(cfg, []) && After(cfg, []) == INIT;
    var s1 := State([Call(0, true, Trying, None, None, 0)], [], [], None, []);
    Reach(cfg, INIT, Begin(0, true), s1);
    var s2 := State([Call(0, true, Again, None, None, 0)], [], [], None, []);
    Reach(cfg, s1, TryIo(0, true), s2);
    Reach(cfg, s2, Arm(0), State(Alone(Armed(Some(0)), None, 0, 0), [Timer(0, Pending, false)], [], None, []));
  }

  /** The callback of a first timer runs before its call is registered. */
  lemma MarkedFirst(cfg: Config)
    ensures Reachable(cfg, State(Alone(Armed(Some(0)), Some(0), 0, 0), [Timer(0, Marked, true)], [], None, []))
  {
    FirstArmed(cfg);
    var s1 := State(Alone(Armed(Some(0)), None, 0, 0), [Timer(0, Pending, false)], [], None, []);
    var s2 := State(Alone(Armed(Some(0)), None, 0, 0), [Timer(0, Due, true)], [], None, []);
    Reach(cfg, s1, Expire(0), s2);
    var s3 := State(Alone(Armed(Some(0)), None, 0, 0), [Timer(0, Passed, true)], [], None, []);
    Reach(cfg, s2, Check(0), s3);
    Reach(cfg, s3, Mark(0), State(Alone(Armed(Some(0)), Some(0), 0, 0), [Timer(0, Marked, true)], [], None, []));
  }

  /** It finds nothing to cancel: the call then waits with its timeout spent and no timer left. */
  lemma LostTimeout(cfg: Config) returns (s: State)
    requires cfg.early
    ensures Reachable(cfg, s) && !TimeoutPends(s)
  {
    MarkedFirst(cfg);
    var s1 := State(Alone(Armed(Some(0)), Some(0), 0, 0), [Timer(0, Marked, true)], [], None, []);
    var s2 := State(Alone(Armed(Some(0)), Some(0), 0, 0), [Timer(0, Over, true)], [], None, []);
    Reach(cfg, s1, CancelEvent(0), s2);
    s := State(Alone(Waiting(0, Some(0)), Some(0), 0, 0), [Timer(0, Over, true)], [Reg(0, None)], Some(0), []);
    Reach(cfg, s2, AddEvent(0), s);
    assert s.calls[0].place.Waiting?;
  }

  /** No timeout is lost in any reachable state if and only if no callback cancels the event while its
      call is not registered. */
  lemma TimeoutPendsIff(cfg: Config)
    ensures (forall s :: Reachable(cfg, s) ==> TimeoutPends(s)) <==> !cfg.early
  {
    if cfg.early {
      var s := LostTimeout(cfg);
    } else {
      forall s | Reachable(cfg, s) ensures TimeoutPends(s) {
        NeverLost(cfg, s);
      }
    }
  }

  // ---------------------------------------------------------------------------------------------
  // When a call times out through the timer of the wait it is in

  /** Every call that has ended with ETIMEDOUT was cancelled by the last timer it armed. */
  ghost predicate EndedByLast(s: State) {
    forall c :: 0 <= c < |s.calls| && s.calls[c].place == Ended(TimedOut) ==>
      s.calls[c].cancelled.Some? && s.calls[c].cancelled == s.calls[c].last
  }

  /** Only the last timer of a call has a callback to come, and only it has cancelled the call. */
  ghost predicate OnlyLast(s: State) {
    && (forall t :: 0 <= t < |s.timers| && s.timers[t].stage != Over ==>
          s.timers[t].call < |s.calls| && s.calls[s.timers[t].call].last == Some(t))
    && (forall c :: 0 <= c < |s.calls| && s.calls[c].cancelled.Some? ==> s.calls[c].cancelled == s.calls[c].last)
  }

  /** The condition: a call arms a timer only when the earlier ones are over and have not cancelled it,
      which is so when they are over and no callback cancels early. */
  predicate Settles(cfg: Config) {
    cfg.arming == AfterSettled || (cfg.arming == AfterOver && !cfg.early)
  }

  lemma NotYetCancelled(cfg: Config, s: State, c: nat)
    requires Settles(cfg) && Inv(s) && Enabled(cfg, s, Arm(c)) && (!cfg.early ==> AllKept(s))
    ensures s.calls[c].cancelled.None? && AllOver(s, c)
  {
    assert CallOk(s, c);
    if cfg.arming == AfterOver {
      assert CallKept(s, c);
    }
  }

  lemma ArmOnlyLast(cfg: Config, s: State, c: nat)
    requires Settles(cfg) && Inv(s) && OnlyLast(s) && Enabled(cfg, s, Arm(c)) && (!cfg.early ==> AllKept(s))
    ensures OnlyLast(Next(cfg, s, Arm(c))) == true
  {
    NotYetCancelled(cfg, s, c);
  }

  lemma TimerOnlyLast(cfg: Config, s: State, a: Step)
    requires OnlyLast(s) && Enabled(cfg, s, a) && OfTimer(a)
    ensures OnlyLast(Next(cfg, s, a)) == true
  {
  }

  lemma CallOnlyLast(cfg: Config, s: State, a: Step)
    requires OnlyLast(s) && Enabled(cfg, s, a) && !OfTimer(a) && !a.Arm?
    ensures OnlyLast(Next(cfg, s, a)) == true
  {
  }

  lemma StepOnlyLast(cfg: Config, s: State, a: Step)
    requires Settles(cfg) && Inv(s) && OnlyLast(s) && Enabled(cfg, s, a) && (!cfg.early ==> AllKept(s))
    ensures OnlyLast(Next(cfg, s, a)) == true
  {
    if a.Arm? {
      ArmOnlyLast(cfg, s, a.call);
    } else if OfTimer(a) {
      TimerOnlyLast(cfg, s, a);
    } else {
      CallOnlyLast(cfg, s, a);
    }
  }

  lemma {:induction false} RunOnlyLast(cfg: Config, run: seq<Step>)
    requires Settles(cfg) && Legal(cfg, run)
    ensures OnlyLast(After(cfg, run)) == true
  {
    if run != [] {
      var past := run[..|run| - 1];
      RunOnlyLast(cfg, past);
      RunKeeps(cfg, past);
      if !cfg.early {
        RunLeaves(cfg, past);
      }
      StepOnlyLast(cfg, After(cfg, past), run[|run| - 1]);
    }
  }

  lemma NeverEarly(cfg: Config, s: State)
    requires Settles(cfg) && Reachable(cfg, s)
    ensures EndedByLast(s)
  {
    var run :| Legal(cfg, run) && After(cfg, run) == s;
    RunOnlyLast(cfg, run);
    RunKeeps(cfg, run);
    forall c | 0 <= c < |s.calls| && s.calls[c].place == Ended(TimedOut)
      ensures s.calls[c].cancelled.Some? && s.calls[c].cancelled == s.calls[c].last
    {
      assert CallOk(s, c);
    }
  }

  /** A first wait whose timer fires when readiness is about to wake it. */
  lemma WokenWhileDue(cfg: Config)
    ensures Reachable(cfg, State(Alone(Waiting(0, Some(0)), None, 0, 0), [Timer(0, Due, true)],
                                 [Reg(0, Some(0))], None, [Entry(0, 0, false)]))
  {
    FirstArmed(cfg);
    var s1 := State(Alone(Armed(Some(0)), None, 0, 0), [Timer(0, Pending, false)], [], None, []);
    var s2 := State(Alone(Waiting(0, Some(0)), None, 0, 0), [Timer(0, Pending, false)], [Reg(0, None)], Some(0), []);
    Reach(cfg, s1, AddEvent(0), s2);
    var s3 := State(Alone(Waiting(0, Some(0)), None, 0, 0), [Timer(0, Due, true)], [Reg(0, None)], Some(0), []);
    Reach(cfg, s2, Expire(0), s3);
    Reach(cfg, s3, Ready, State(Alone(Waiting(0, Some(0)), None, 0, 0), [Timer(0, Due, true)],
                                [Reg(0, Some(0))], None, [Entry(0, 0, false)]));
  }

  /** The call goes round. */
  lemma TriesAgain(cfg: Config, q: seq<Entry>)
    requires q == [Entry(0, 0, true)]
    ensures Reachable(cfg, State(Alone(Trying, None, 0, 1), [Timer(0, Due, true)], [Reg(0, Some(0))], None, q))
  {
    WokenWhileDue(cfg);
    var s1 := State(Alone(Waiting(0, Some(0)), None, 0, 0), [Timer(0, Due, true)],
                    [Reg(0, Some(0))], None, [Entry(0, 0, false)]);
    var s2 := State(Alone(Resumed(Some(0)), None, 0, 1), [Timer(0, Due, true)], [Reg(0, Some(0))], None, q);
    Reach(cfg, s1, Resume(0, 0), s2);
    var s3 := State(Alone(Unarmed, None, 0, 1), [Timer(0, Due, true)], [Reg(0, Some(0))], None, q);
    Reach(cfg, s2, CancelTimer(0), s3);
    Reach(cfg, s3, Decide(0), State(Alone(Trying, None, 0, 1), [Timer(0, Due, true)], [Reg(0, Some(0))], None, q));
  }

  /** Registrations and queue of a call in its second wait. */
  const TWICE := [Reg(0, Some(0)), Reg(0, Some(1))]

  /** The second wait of the call has been woken, and the first timer has cancelled the call. */
  ghost predicate SecondWoken(cfg: Config) {
    Reachable(cfg, State(Alone(Waiting(1, Some(1)), Some(0), 1, 1), [Timer(0, Over, true), Timer(0, Pending, false)],
                         TWICE, None, [Entry(0, 0, true), Entry(0, 1, false)]))
  }

  /** The call ends with ETIMEDOUT, although the timer of the wait it was in has not fired. */
  lemma EndsEarly(cfg: Config) returns (s: State)
    requires SecondWoken(cfg)
    ensures Reachable(cfg, s) && !EndedByLast(s)
  {
    var q, over := [Entry(0, 0, true), Entry(0, 1, true)], Timer(0, Over, true);
    var s1 := State(Alone(Waiting(1, Some(1)), Some(0), 1, 1), [over, Timer(0, Pending, false)],
                    TWICE, None, [Entry(0, 0, true), Entry(0, 1, false)]);
    var s2 := State(Alone(Resumed(Some(1)), Some(0), 1, 2), [over, Timer(0, Pending, false)], TWICE, None, q);
    Reach(cfg, s1, Resume(0, 1), s2);
    var s3 := State(Alone(Unarmed, Some(0), 1, 2), [over, Timer(0, Over, false)], TWICE, None, q);
    Reach(cfg, s2, CancelTimer(0), s3);
    s := State(Alone(Ended(TimedOut), Some(0), 1, 2), [over, Timer(0, Over, false)], TWICE, None, q);
    Reach(cfg, s3, Decide(0), s);
    assert s.calls[0].place == Ended(TimedOut);
  }

  /** As the code arms its timers: the callback of the first wait has not run when the second begins. */
  lemma SecondWait(cfg: Config, q: seq<Entry>)
    requires cfg.arming == Anytime && q == [Entry(0, 0, true)]
    ensures Reachable(cfg, State(Alone(Waiting(1, Some(1)), None, 1, 1), [Timer(0, Due, true), Timer(0, Pending, false)],
                                 [Reg(0, Some(0)), Reg(0, None)], Some(1), q))
  {
    TriesAgain(cfg, q);
    var due, regs := Timer(0, Due, true), [Reg(0, Some(0))];
    var s1 := State(Alone(Trying, None, 0, 1), [due], regs, None, q);
    var s2 := State(Alone(Again, None, 0, 1), [due], regs, None, q);
    Reach(cfg, s1, TryIo(0, true), s2);
    var s3 := State(Alone(Armed(Some(1)), None, 1, 1), [due, Timer(0, Pending, false)], regs, None, q);
    Reach(cfg, s2, Arm(0), s3);
    Reach(cfg, s3, AddEvent(0), State(Alone(Waiting(1, Some(1)), None, 1, 1), [due, Timer(0, Pending, false)],
                                      [Reg(0, Some(0)), Reg(0, None)], Some(1), q));
  }

  /** That callback then cancels the event of the second wait. */
  lemma StaleCallback(cfg: Config)
    requires cfg.arming == Anytime
    ensures SecondWoken(cfg)
  {
    var q, regs, next := [Entry(0, 0, true)], [Reg(0, Some(0)), Reg(0, None)], Timer(0, Pending, false);
    SecondWait(cfg, q);
    var s1 := State(Alone(Waiting(1, Some(1)), None, 1, 1), [Timer(0, Due, true), next], regs, Some(1), q);
    var s2 := State(Alone(Waiting(1, Some(1)), None, 1, 1), [Timer(0, Passed, true), next], regs, Some(1), q);
    Reach(cfg, s1, Check(0), s2);
    var s3 := State(Alone(Waiting(1, Some(1)), Some(0), 1, 1), [Timer(0, Marked, true), next], regs, Some(1), q);
    Reach(cfg, s2, Mark(0), s3);
    Reach(cfg, s3, CancelEvent(0),
          State(Alone(Waiting(1, Some(1)), Some(0), 1, 1), [Timer(0, Over, true), next], TWICE, None, q + [Entry(0, 1, false)]));
  }

  /** Waiting for the earlier callbacks to be over is not enough: one that ran between the two waits has
      cancelled the call. */
  lemma MarkedBetween(cfg: Config, q: seq<Entry>)
    requires cfg.early && q == [Entry(0, 0, true)]
    ensures Reachable(cfg, State(Alone(Trying, Some(0), 0, 1), [Timer(0, Over, true)], [Reg(0, Some(0))], None, q))
  {
    TriesAgain(cfg, q);
    var regs := [Reg(0, Some(0))];
    var s1 := State(Alone(Trying, None, 0, 1), [Timer(0, Due, true)], regs, None, q);
    var s2 := State(Alone(Trying, None, 0, 1), [Timer(0, Passed, true)], regs, None, q);
    Reach(cfg, s1, Check(0), s2);
    var s3 := State(Alone(Trying, Some(0), 0, 1), [Timer(0, Marked, true)], regs, None, q);
    Reach(cfg, s2, Mark(0), s3);
    Reach(cfg, s3, CancelEvent(0), State(Alone(Trying, Some(0), 0, 1), [Timer(0, Over, true)], regs, None, q));
  }

  lemma WaitsCancelled(cfg: Config)
    requires cfg.early && cfg.arming == AfterOver
    ensures SecondWoken(cfg)
  {
    var q, regs, over := [Entry(0, 0, true)], [Reg(0, Some(0))], Timer(0, Over, true);
    MarkedBetween(cfg, q);
    var s1 := State(Alone(Trying, Some(0), 0, 1), [over], regs, None, q);
    var s2 := State(Alone(Again, Some(0), 0, 1), [over], regs, None, q);
    Reach(cfg, s1, TryIo(0, true), s2);
    var s3 := State(Alone(Armed(Some(1)), Some(0), 1, 1), [over, Timer(0, Pending, false)], regs, None, q);
    Reach(cfg, s2, Arm(0), s3);
    WokenCancelled(cfg, s3);
  }

  lemma WokenCancelled(cfg: Config, s: State)
    requires Reachable(cfg, s)
    requires s == State(Alone(Armed(Some(1)), Some(0), 1, 1), [Timer(0, Over, true), Timer(0, Pending, false)],
                        [Reg(0, Some(0))], None, [Entry(0, 0, true)])
    ensures SecondWoken(cfg)
  {
    var t := State(Alone(Waiting(1, Some(1)), Some(0), 1, 1), s.timers, [Reg(0, Some(0)), Reg(0, None)], Some(1), s.queue);
    Reach(cfg, s, AddEvent(0), t);
    Reach(cfg, t, Ready, State(Alone(Waiting(1, Some(1)), Some(0), 1, 1), s.timers, TWICE, None, s.queue + [Entry(0, 1, false)]));
  }

  /** A call can time out although the timer of the wait it was in has not fired, unless timers settle. */
  lemma EarlyTimeout(cfg: Config) returns (s: State)
    requires !Settles(cfg)
    ensures Reachable(cfg, s) && !EndedByLast(s)
  {
    if cfg.arming == Anytime {
      StaleCallback(cfg);
    } else {
      WaitsCancelled(cfg);
    }
    s := EndsEarly(cfg);
  }

  /** In every reachable state each call that timed out was cancelled by the last timer it armed, if and
      only if timers settle before the next is armed. */
  lemma EndedByLastIff(cfg: Config)
    ensures (forall s :: Reachable(cfg, s) ==> EndedByLast(s)) <==> Settles(cfg)
  {
    if Settles(cfg) {
      forall s | Reachable(cfg, s) ensures EndedByLast(s) {
        NeverEarly(cfg, s);
      }
    } else {
      var s := EarlyTimeout(cfg);
    }
  }
}
