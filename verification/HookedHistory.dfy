/** What the steps of a run say about its hooked calls: which timers a call has armed, whether it was
    cancelled, where it is and how it has ended.

    Where a contract says `P(..) == true` it means `P(..)`; the longer form keeps the verifier from
    proving the parts of P one by one. */
module HookedHistory {
  import opened Common
  import opened HookedWait

  // ---------------------------------------------------------------------------------------------
  // The history of a call

  /** For each call, in the order they began, whether it has a timeout. */
  function Timeouts(run: seq<Step>): seq<bool> {
    if run == [] then []
    else Timeouts(run[..|run| - 1]) + if run[|run| - 1].Begin? then [run[|run| - 1].timeout] else []
  }

  /** For each timer, in the order they were armed, the call it is for: only calls with a timeout arm one. */
  function Owners(run: seq<Step>): seq<nat> {
    if run == [] then []
    else
      var past, a := run[..|run| - 1], run[|run| - 1];
      Owners(past) + if a.Arm? && a.call < |Timeouts(past)| && Timeouts(past)[a.call] then [a.call] else []
  }

  function LastOf(owners: seq<nat>, c: nat): Option<nat> {
    if owners == [] then None
    else if owners[|owners| - 1] == c then Some(|owners| - 1)
    else LastOf(owners[..|owners| - 1], c)
  }

  /** Step `a` sets the cancelled field of call `c`. */
  predicate Cancels(owners: seq<nat>, a: Step, c: nat) {
    a.Mark? && a.timer < |owners| && owners[a.timer] == c
  }

  predicate Cancelled(run: seq<Step>, c: nat) {
    run != [] && (Cancelled(run[..|run| - 1], c) || Cancels(Owners(run[..|run| - 1]), run[|run| - 1], c))
  }

  predicate OwnStep(a: Step, c: nat) {
    (a.TryIo? || a.Arm? || a.AddEvent? || a.AddEventFails? || a.Resume? || a.CancelTimer? || a.Decide?) && a.call == c
  }

  /** The last step call `c` has taken, and whether it was cancelled by then. */
  function LastOwn(run: seq<Step>, c: nat): Option<(Step, bool)> {
    if run == [] then None
    else if OwnStep(run[|run| - 1], c) then Some((run[|run| - 1], Cancelled(run[..|run| - 1], c)))
    else LastOwn(run[..|run| - 1], c)
  }

  /** Where a call is after its last step; `timer` is the last one it has armed. */
  predicate Follows(last: Option<(Step, bool)>, timer: Option<nat>, p: Place) {
    match last
    case None => p == Trying
    case Some((a, cancelled)) =>
      match a
      case TryIo(_, again) => p == if again then Again else Ended(Returned)
      case Arm(_) => p == Armed(timer)
      case AddEvent(_) => p.Waiting? && p.timer == timer
      case AddEventFails(_) => p == Ended(NotAdded)
      case Resume(_, _) => p == Resumed(timer)
      case CancelTimer(_) => p == Unarmed
      case Decide(_) => p == if cancelled then Ended(TimedOut) else Trying
      case _ => false
  }

  ghost predicate CallIs(run: seq<Step>, c: nat, call: Call) {
    && c < |Timeouts(run)| && call.timeout == Timeouts(run)[c]
    && (call.cancelled.Some? <==> Cancelled(run, c))
    && call.last == LastOf(Owners(run), c) && (!call.timeout ==> call.last.None?)
    && Follows(LastOwn(run, c), LastOf(Owners(run), c), call.place)
  }

  /** Nothing has been done for call `c`. */
  predicate NotYet(run: seq<Step>, c: nat) {
    LastOwn(run, c).None? && LastOf(Owners(run), c).None? && !Cancelled(run, c)
  }

  ghost predicate StateIs(run: seq<Step>, s: State) {
    && |s.timers| == |Owners(run)| && (forall t :: 0 <= t < |s.timers| ==> s.timers[t].call == Owners(run)[t])
    && |s.calls| == |Timeouts(run)| && (forall c :: 0 <= c < |s.calls| ==> CallIs(run, c, s.calls[c]))
    && (forall c: nat :: |s.calls| <= c ==> NotYet(run, c))
  }

  // ---------------------------------------------------------------------------------------------
  // Single steps

  predicate Arms(s: State, a: Step, c: nat) {
    a == Arm(c) && c < |s.calls| && s.calls[c].timeout
  }

  predicate Marks(s: State, a: Step, c: nat) {
    a.Mark? && a.timer < |s.timers| && s.timers[a.timer].call == c
  }

  /** What a step does to a call that is there before it, named by what the call and the timers are. */
  ghost predicate Changes(s: State, t: State, a: Step, c: nat)
    requires c < |s.calls|
  {
    && c < |t.calls| && t.calls[c].timeout == s.calls[c].timeout
    && var was, now := s.calls[c], t.calls[c];
       && now.cancelled.Some? == (was.cancelled.Some? || Marks(s, a, c))
       && now.last == (if Arms(s, a, c) then Some(|s.timers|) else was.last)
       && now.place == (if OwnStep(a, c) then Moved(was, a, |s.timers|, |s.regs|) else was.place)
  }

  /** The place a call moves to; `timer` is the one it arms if it has a timeout. */
  function Moved(was: Call, a: Step, timer: nat, reg: nat): Place {
    match a
    case TryIo(_, again) => if again then Again else Ended(Returned)
    case Arm(_) => Armed(if was.timeout then Some(timer) else None)
    case AddEvent(_) => Waiting(reg, TimerOf(was.place))
    case AddEventFails(_) => Ended(NotAdded)
    case Resume(_, _) => Resumed(TimerOf(was.place))
    case CancelTimer(_) => Unarmed
    case _ => if was.cancelled.Some? then Ended(TimedOut) else Trying
  }

  lemma TimerChanges(cfg: Config, s: State, a: Step, c: nat)
    requires Enabled(cfg, s, a) && OfTimer(a) && c < |s.calls|
    ensures Changes(s, Next(cfg, s, a), a, c) == true
  {
  }

  lemma CallChanges(cfg: Config, s: State, a: Step, c: nat)
    requires Enabled(cfg, s, a) && !OfTimer(a) && c < |s.calls|
    ensures Changes(s, Next(cfg, s, a), a, c) == true
  {
  }

  /** The calls and timers a step adds. */
  lemma Adds(cfg: Config, s: State, a: Step)
    requires Enabled(cfg, s, a)
    ensures var t := Next(cfg, s, a);
      && |t.timers| == |s.timers| + (if a.Arm? && Arms(s, a, a.call) then 1 else 0)
      && (forall k :: 0 <= k < |s.timers| ==> t.timers[k].call == s.timers[k].call)
      && (a.Arm? && Arms(s, a, a.call) ==> t.timers[|s.timers|].call == a.call)
      && |t.calls| == |s.calls| + (if a.Begin? then 1 else 0)
      && (a.Begin? ==> t.calls[|s.calls|] == Call(a.fiber, a.timeout, Trying, None, None, 0))
  {
  }

  // ---------------------------------------------------------------------------------------------
  // Runs

  /** A call registers when it is armed, and comes back when it waits. */
  predicate InOrder(p: Place, a: Step, c: nat) {
    && (a == AddEvent(c) ==> p.Armed?)
    && (a.Resume? && a.call == c ==> p.Waiting?)
  }

  lemma LastSnoc(owners: seq<nat>, o: nat, c: nat)
    ensures LastOf(owners + [o], c) == if o == c then Some(|owners|) else LastOf(owners, c)
  {
    assert (owners + [o])[..|owners|] == owners;
  }

  lemma ArmsIff(past: seq<Step>, s: State, a: Step)
    requires StateIs(past, s) && a.Arm?
    ensures Arms(s, a, a.call) <==> a.call < |Timeouts(past)| && Timeouts(past)[a.call]
  {
    assert a.call < |s.calls| ==> CallIs(past, a.call, s.calls[a.call]);
  }

  lemma OwnersGrow(run: seq<Step>, s: State, c: nat)
    requires run != [] && StateIs(run[..|run| - 1], s)
    ensures var past, a := run[..|run| - 1], run[|run| - 1];
      && Owners(run) == Owners(past) + (if a.Arm? && Arms(s, a, a.call) then [a.call] else [])
      && LastOf(Owners(run), c) == (if Arms(s, a, c) then Some(|s.timers|) else LastOf(Owners(past), c))
      && Cancelled(run, c) == (Cancelled(past, c) || Marks(s, a, c))
  {
    var past, a := run[..|run| - 1], run[|run| - 1];
    if a.Arm? {
      ArmsIff(past, s, a);
      LastSnoc(Owners(past), a.call, c);
    }
    assert Owners(past) + [] == Owners(past);
  }

  lemma PlaceFollows(run: seq<Step>, was: Call, c: nat, timer: nat, reg: nat)
    requires run != [] && CallIs(run[..|run| - 1], c, was) && OwnStep(run[|run| - 1], c)
    requires InOrder(was.place, run[|run| - 1], c)
    ensures var a := run[|run| - 1];
      Follows(LastOwn(run, c), if a.Arm? && was.timeout then Some(timer) else was.last, Moved(was, a, timer, reg))
  {
  }

  lemma CallGoesOn(run: seq<Step>, s: State, t: State, c: nat)
    requires run != [] && c < |s.calls| && StateIs(run[..|run| - 1], s) && Changes(s, t, run[|run| - 1], c)
    requires InOrder(s.calls[c].place, run[|run| - 1], c)
    ensures CallIs(run, c, t.calls[c]) == true
  {
    assert CallIs(run[..|run| - 1], c, s.calls[c]);
    OwnersGrow(run, s, c);
    if OwnStep(run[|run| - 1], c) {
      PlaceFollows(run, s.calls[c], c, |s.timers|, |s.regs|);
    }
  }

  lemma StillNot(cfg: Config, run: seq<Step>, s: State, c: nat)
    requires run != [] && StateIs(run[..|run| - 1], s) && Enabled(cfg, s, run[|run| - 1]) && |s.calls| <= c
    ensures NotYet(run, c)
  {
    assert NotYet(run[..|run| - 1], c);
    OwnersGrow(run, s, c);
  }

  lemma KeepsOrder(cfg: Config, s: State, a: Step, c: nat)
    requires Enabled(cfg, s, a) && c < |s.calls|
    ensures InOrder(s.calls[c].place, a, c) && Changes(s, Next(cfg, s, a), a, c)
  {
    if OfTimer(a) {
      TimerChanges(cfg, s, a, c);
    } else {
      CallChanges(cfg, s, a, c);
    }
  }

  lemma CallFollows(cfg: Config, run: seq<Step>, s: State, c: nat)
    requires run != [] && StateIs(run[..|run| - 1], s) && Enabled(cfg, s, run[|run| - 1])
    requires c < |Next(cfg, s, run[|run| - 1]).calls|
    ensures CallIs(run, c, Next(cfg, s, run[|run| - 1]).calls[c]) == true
  {
    var a := run[|run| - 1];
    if c < |s.calls| {
      KeepsOrder(cfg, s, a, c);
      CallGoesOn(run, s, Next(cfg, s, a), c);
    } else {
      Adds(cfg, s, a);
      StillNot(cfg, run, s, c);
    }
  }

  lemma StateFollows(cfg: Config, run: seq<Step>, s: State)
    requires run != [] && StateIs(run[..|run| - 1], s) && Enabled(cfg, s, run[|run| - 1])
    ensures StateIs(run, Next(cfg, s, run[|run| - 1])) == true
  {
    var t := Next(cfg, s, run[|run| - 1]);
    Adds(cfg, s, run[|run| - 1]);
    OwnersGrow(run, s, 0);
    forall c | 0 <= c < |t.calls| ensures CallIs(run, c, t.calls[c]) == true {
      CallFollows(cfg, run, s, c);
    }
    forall c: nat | |t.calls| <= c ensures NotYet(run, c) {
      StillNot(cfg, run, s, c);
    }
  }

  /** In every run, the calls and the timers are what the steps say: a call with a timeout arms one timer
      each time it arms, and holds the last; it is cancelled exactly when the callback of a timer of its own
      has set the field; and it is where its own last step has put it. */
  lemma {:induction false} CallsByHistory(cfg: Config, run: seq<Step>)
    requires Legal(cfg, run)
    ensures StateIs(run, After(cfg, run)) == true
  {
    if run != [] {
      CallsByHistory(cfg, run[..|run| - 1]);
      StateFollows(cfg, run, After(cfg, run[..|run| - 1]));
    }
  }

  /** In every run, how a call ends is decided by its own last step: with the result of the system call
      exactly when that did not say EAGAIN, without it exactly when addEvent failed, and with ETIMEDOUT
      exactly when it came back and a callback of its own timers had cancelled it by then. */
  lemma EndsIff(cfg: Config, run: seq<Step>, c: nat)
    requires Legal(cfg, run) && c < |After(cfg, run).calls|
    ensures var p := After(cfg, run).calls[c].place;
      && (p == Ended(Returned) <==> LastOwn(run, c).Some? && LastOwn(run, c).value.0 == TryIo(c, false))
      && (p == Ended(NotAdded) <==> LastOwn(run, c).Some? && LastOwn(run, c).value.0 == AddEventFails(c))
      && (p == Ended(TimedOut) <==> LastOwn(run, c) == Some((Decide(c), true)))
  {
    CallsByHistory(cfg, run);
    assert CallIs(run, c, After(cfg, run).calls[c]);
    LastIsOwn(run, c);
  }

  lemma {:induction false} LastIsOwn(run: seq<Step>, c: nat)
    ensures LastOwn(run, c).Some? ==> OwnStep(LastOwn(run, c).value.0, c)
  {
    if run != [] {
      LastIsOwn(run[..|run| - 1], c);
    }
  }

  /** In every run, the callback of an expired timer goes on to cancel exactly when its call has not ended
      and no callback has cancelled it. */
  lemma CheckedIff(cfg: Config, run: seq<Step>, t: nat)
    requires Legal(cfg, run) && Enabled(cfg, After(cfg, run), Check(t))
    ensures Legal(cfg, run + [Check(t)]) && t < |Owners(run)| && Owners(run)[t] < |After(cfg, run).calls|
    ensures t < |After(cfg, run + [Check(t)]).timers|
    ensures var c, stage := Owners(run)[t], After(cfg, run + [Check(t)]).timers[t].stage;
      stage == if !After(cfg, run).calls[c].place.Ended? && !Cancelled(run, c) then Passed else Over
  {
    Extend(cfg, run, Check(t));
    CallsByHistory(cfg, run);
    var c := Owners(run)[t];
    assert CallIs(run, c, After(cfg, run).calls[c]);
  }
}
