/** What the steps of a run say about the timers and the sleeper: every timer follows from its own steps and
    the clock, a timer is announced exactly when it comes to the front, and a sleep counts from its last start.

    Where a contract says `P(..) == true` it means `P(..)`; the longer form keeps the verifier from
    proving the parts of P one by one. */
module SleepHistory {
  import opened Common
  import opened SleepProtocol

  /** The time after a run. */
  function Clock(run: seq<Step>): nat {
    if run == [] then 0 else Clock(run[..|run| - 1]) + if run[|run| - 1].Tick? then run[|run| - 1].passed else 0
  }

  // ---------------------------------------------------------------------------------------------
  // One timer by itself

  /** What step `a`, taken at time `clock`, makes of the timer numbered `id`: all that matters is the timer
      itself.  A timer that is due when the expired ones are listed goes, or starts again if it recurs. */
  function Follows(t: Option<Timer>, a: Step, clock: nat, id: nat): Option<Timer> {
    match a
    case AddTimer(i, ms, recurring, start) => if i == id then Some(Timer(start + ms, ms, recurring)) else t
    case Cancel(i) => if i == id then None else t
    case Refresh(i) => if i == id && t.Some? then Some(t.value.(next := clock + t.value.ms)) else t
    case Reset(i, ms, fromNow) => if i == id && t.Some? then Some(Restarted(t.value, ms, fromNow, clock)) else t
    case ListExpired(now) =>
      if t.None? || now < t.value.next then t
      else if t.value.recurring then Some(t.value.(next := now + t.value.ms))
      else None
    case _ => t
  }

  /** A new period, counted from now or from the start of the old one. */
  function Restarted(t: Timer, ms: uint64, fromNow: bool, clock: nat): Timer {
    var start := if fromNow then clock else t.next - t.ms;
    Timer(if start < 0 then 0 else start + ms, ms, t.recurring)
  }

  /** The timer numbered `id` after a run, from its own steps, the listings and the clock alone. */
  function TimerAfter(run: seq<Step>, id: nat): Option<Timer> {
    if run == [] then None
    else Follows(TimerAfter(run[..|run| - 1], id), run[|run| - 1], Clock(run[..|run| - 1]), id)
  }

  function Lookup(timers: map<nat, Timer>, id: nat): Option<Timer> {
    if id in timers then Some(timers[id]) else None
  }

  lemma FollowsStep(cfg: Config, s: State, a: Step, id: nat)
    requires Enabled(cfg, s, a)
    ensures Lookup(Next(cfg, s, a).timers, id) == Follows(Lookup(s.timers, id), a, s.clock, id)
    ensures Next(cfg, s, a).clock == s.clock + if a.Tick? then a.passed else 0
  {
  }

  /** In every run, each timer is in the set, with the deadline and the period it has, as its own history
      says: no other timer, and nothing the worker does but listing the expired ones, has a part in it. */
  lemma {:induction false} TimersByThemselves(cfg: Config, run: seq<Step>, id: nat)
    requires Legal(cfg, run)
    ensures Lookup(After(cfg, run).timers, id) == TimerAfter(run, id) && After(cfg, run).clock == Clock(run)
  {
    if run != [] {
      var past := run[..|run| - 1];
      TimersByThemselves(cfg, past, id);
      FollowsStep(cfg, After(cfg, past), run[|run| - 1], id);
    }
  }

  // ---------------------------------------------------------------------------------------------
  // Announcements

  /** Step `a` puts a timer in the set. */
  predicate Inserts(a: Step) {
    a.AddTimer? || a.Reset?
  }

  /** Some other timer stands before the one numbered `id`: it is due earlier, or at the same time and
      stands at a lower address. */
  ghost predicate Behind(timers: map<nat, Timer>, id: nat) {
    id in timers &&
    exists j :: j in timers && j != id
                && (timers[j].next < timers[id].next || (timers[j].next == timers[id].next && j < id))
  }

  /** The step at `k` announces a timer. */
  ghost predicate AnnouncesAt(cfg: Config, run: seq<Step>, k: nat)
    requires Legal(cfg, run) && k < |run|
  {
    PrefixLegal(cfg, run, k);
    PrefixLegal(cfg, run, k + 1);
    Inserts(run[k]) && After(cfg, run[..k + 1]).asked > After(cfg, run[..k]).asked
  }

  lemma {:induction false} PrefixLegal(cfg: Config, run: seq<Step>, k: nat)
    requires Legal(cfg, run) && k <= |run|
    ensures Legal(cfg, run[..k])
    decreases |run|
  {
    if k == |run| {
      assert run[..k] == run;
    } else {
      PrefixLegal(cfg, run[..|run| - 1], k);
      assert run[..|run| - 1][..k] == run[..k];
    }
  }

  /** A timer has been announced since the deadline was last read. */
  ghost predicate AnnouncedSince(cfg: Config, run: seq<Step>)
    requires Legal(cfg, run)
  {
    exists k: nat :: LastAnnounced(cfg, run, k)
  }

  lemma FrontIff(timers: map<nat, Timer>, id: nat, t: Timer)
    ensures IsFront(timers, id, t.next) <==> !Behind(timers[id := t], id)
  {
    var all := timers[id := t];
    if !IsFront(timers, id, t.next) {
      var j :| j in timers && j != id && !(t.next < timers[j].next || (t.next == timers[j].next && id < j));
      assert j in all && all[j] == timers[j];
    }
  }

  lemma InsertAnnounces(s: State, id: nat, t: Timer)
    ensures var u := Insert(s, id, t);
      && u.asked == (if !s.trickled && !Behind(u.timers, id) then s.asked + 1 else s.asked)
      && u.trickled == (s.trickled || u.asked > s.asked)
  {
    FrontIff(s.timers, id, t);
  }

  lemma AnnounceStep(cfg: Config, s: State, a: Step)
    requires Enabled(cfg, s, a)
    ensures var t := Next(cfg, s, a);
      && (Inserts(a) ==> t.asked == if !s.trickled && !Behind(t.timers, a.id) then s.asked + 1 else s.asked)
      && t.trickled == (!a.GetNextTimer? && (s.trickled || (Inserts(a) && t.asked > s.asked)))
  {
    match a
    case AddTimer(id, ms, recurring, start) =>
      InsertAnnounces(s, id, Timer(start + ms, ms, recurring));
    case Reset(id, ms, fromNow) =>
      var start := if fromNow then s.clock else s.timers[id].next - s.timers[id].ms;
      InsertAnnounces(s, id, s.timers[id].(next := start + ms, ms := ms));
    case _ =>
  }

  lemma AnnouncesPast(cfg: Config, run: seq<Step>, n: nat, k: nat)
    requires Legal(cfg, run) && k < n <= |run|
    ensures Legal(cfg, run[..n]) && AnnouncesAt(cfg, run[..n], k) == AnnouncesAt(cfg, run, k)
  {
    PrefixLegal(cfg, run, n);
    assert run[..n][..k] == run[..k] && run[..n][..k + 1] == run[..k + 1];
  }

  ghost predicate LastAnnounced(cfg: Config, run: seq<Step>, k: nat)
    requires Legal(cfg, run)
  {
    k < |run| && AnnouncesAt(cfg, run, k) && forall j :: k < j < |run| ==> !run[j].GetNextTimer?
  }

  lemma AnnouncedStays(cfg: Config, run: seq<Step>, n: nat, k: nat)
    requires Legal(cfg, run) && k < n == |run| - 1
    ensures Legal(cfg, run[..n])
    ensures LastAnnounced(cfg, run, k) <==> LastAnnounced(cfg, run[..n], k) && !run[n].GetNextTimer?
  {
    AnnouncesPast(cfg, run, n, k);
  }

  lemma SinceStep(cfg: Config, run: seq<Step>)
    requires Legal(cfg, run) && run != []
    ensures var n := |run| - 1;
      AnnouncedSince(cfg, run) <==> LastAnnounced(cfg, run, n) || (AnnouncedSince(cfg, run[..n]) && !run[n].GetNextTimer?)
  {
    var n := |run| - 1;
    if AnnouncedSince(cfg, run[..n]) && !run[n].GetNextTimer? {
      var k: nat :| LastAnnounced(cfg, run[..n], k);
      AnnouncedStays(cfg, run, n, k);
    }
    if AnnouncedSince(cfg, run) {
      var k: nat :| LastAnnounced(cfg, run, k);
      if k < n {
        AnnouncedStays(cfg, run, n, k);
      }
    }
  }

  lemma {:induction false} FlagIs(cfg: Config, run: seq<Step>)
    requires Legal(cfg, run)
    ensures After(cfg, run).trickled <==> AnnouncedSince(cfg, run)
  {
    if run != [] {
      var n := |run| - 1;
      FlagIs(cfg, run[..n]);
      SinceStep(cfg, run);
      AnnounceStep(cfg, After(cfg, run[..n]), run[n]);
      assert run[..n + 1] == run;
    }
  }

  /** In every run, a step announces a timer exactly when it puts it before all others and none has been
      announced since the deadline was last read. */
  lemma AnnouncedIff(cfg: Config, run: seq<Step>, a: Step)
    requires Legal(cfg, run) && Enabled(cfg, After(cfg, run), a) && Inserts(a)
    ensures Legal(cfg, run + [a])
    ensures var s, t := After(cfg, run), After(cfg, run + [a]);
      t.asked == s.asked + if !AnnouncedSince(cfg, run) && !Behind(t.timers, a.id) then 1 else 0
  {
    Extend(cfg, run, a);
    FlagIs(cfg, run);
    AnnounceStep(cfg, After(cfg, run), a);
  }

  // ---------------------------------------------------------------------------------------------
  // The sleep

  predicate Starts(a: Step) {
    a.Block? || a.Interrupt?
  }

  /** The worker read the deadline with step `g`, and the wait it is in began, or began again after a signal,
      with step `m`. */
  ghost predicate SleepsSince(run: seq<Step>, w: Worker, g: nat, m: nat)
    requires w.Asleep?
  {
    && g < m < |run|
    && run[g] == GetNextTimer(w.timeout) && w.readAt == Clock(run[..g])
    && Starts(run[m]) && w.since == Clock(run[..m])
    && (forall k :: g < k < |run| ==> !run[k].GetNextTimer?)
    && (forall k :: m < k < |run| ==> !Starts(run[k]))
  }

  ghost predicate ReadySince(run: seq<Step>, w: Worker, g: nat)
    requires w.Ready?
  {
    && g < |run|
    && run[g] == GetNextTimer(w.timeout) && w.readAt == Clock(run[..g])
    && (forall k :: g < k < |run| ==> !run[k].GetNextTimer?)
  }

  lemma ReadyStep(cfg: Config, s: State, a: Step)
    requires Enabled(cfg, s, a) && Next(cfg, s, a).worker.Ready?
    ensures if a.GetNextTimer? then Next(cfg, s, a).worker == Ready(s.clock, a.timeout)
            else s.worker == Next(cfg, s, a).worker
  {
  }

  lemma {:induction false} ReadyIs(cfg: Config, run: seq<Step>) returns (g: nat)
    requires Legal(cfg, run) && After(cfg, run).worker.Ready?
    ensures ReadySince(run, After(cfg, run).worker, g) == true
  {
    var n := |run| - 1;
    ReadyStep(cfg, After(cfg, run[..n]), run[n]);
    if run[n].GetNextTimer? {
      g := n;
      TimersByThemselves(cfg, run[..n], 0);
    } else {
      g := ReadyIs(cfg, run[..n]);
      assert run[..n][..g] == run[..g];
    }
  }

  lemma AsleepStep(cfg: Config, s: State, a: Step)
    requires Enabled(cfg, s, a) && Next(cfg, s, a).worker.Asleep?
    ensures var w := Next(cfg, s, a).worker;
      if a.Block? then s.worker == Ready(w.readAt, w.timeout) && w.since == s.clock
      else if a.Interrupt? then s.worker.Asleep? && w == Asleep(s.worker.readAt, s.worker.timeout, s.clock)
      else w == s.worker && !a.GetNextTimer?
  {
  }

  /** In every run, a sleeping worker holds the timeout it last read, and sleeps since its epoll_wait last
      began: one that a signal ends begins anew with the whole timeout. */
  lemma {:induction false} AsleepIs(cfg: Config, run: seq<Step>) returns (g: nat, m: nat)
    requires Legal(cfg, run) && After(cfg, run).worker.Asleep?
    ensures SleepsSince(run, After(cfg, run).worker, g, m) == true
  {
    var n := |run| - 1;
    var w, v := After(cfg, run).worker, After(cfg, run[..n]).worker;
    AsleepStep(cfg, After(cfg, run[..n]), run[n]);
    TimersByThemselves(cfg, run[..n], 0);
    if run[n].Block? {
      g := ReadyIs(cfg, run[..n]);
      m := n;
      SleepStarts(run, v, w, g);
    } else {
      g, m := AsleepIs(cfg, run[..n]);
      SleepGoesOn(run, v, w, g, m);
      m := if run[n].Interrupt? then n else m;
    }
  }

  lemma SleepStarts(run: seq<Step>, v: Worker, w: Worker, g: nat)
    requires run != [] && run[|run| - 1].Block? && v.Ready? && ReadySince(run[..|run| - 1], v, g)
    requires w == Asleep(v.readAt, v.timeout, Clock(run[..|run| - 1]))
    ensures SleepsSince(run, w, g, |run| - 1) == true
  {
    assert run[..|run| - 1][..g] == run[..g];
  }

  lemma SleepGoesOn(run: seq<Step>, v: Worker, w: Worker, g: nat, m: nat)
    requires run != [] && v.Asleep? && SleepsSince(run[..|run| - 1], v, g, m)
    requires var a := run[|run| - 1]; !a.Block? && !a.GetNextTimer?
    requires w == if run[|run| - 1].Interrupt? then v.(since := Clock(run[..|run| - 1])) else v
    ensures SleepsSince(run, w, g, if run[|run| - 1].Interrupt? then |run| - 1 else m) == true
  {
    assert run[..|run| - 1][..g] == run[..g] && run[..|run| - 1][..m] == run[..m];
  }
}
