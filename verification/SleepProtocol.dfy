/** How an idle worker and the threads that change timers agree on when the worker must wake up:
    the earliest deadline is read under the lock, a timer inserted in front of it announces itself
    through a pipe, and a flag keeps the announcements from repeating.

    Where a contract says `P(..) == true` it means `P(..)`; the longer form keeps the verifier from
    proving the parts of P one by one. */
module SleepProtocol {
  import opened Common

  // ---------------------------------------------------------------------------------------------
  // The timeout handed to epoll_wait

  const TWO_31 := 0x8000_0000
  const TWO_32 := 0x1_0000_0000
  const TWO_64 := 0x1_0000_0000_0000_0000
  const MAX_TIMEOUT := 3000

  type uint64 = x: int | 0 <= x < TWO_64

  /** No timer at all. */
  const NO_TIMER: uint64 := 0xFFFF_FFFF_FFFF_FFFF

  function Clamp(t: uint64): uint64 {
    if t != NO_TIMER then (if ToInt32(t) > MAX_TIMEOUT then MAX_TIMEOUT else t) else MAX_TIMEOUT
  }

  /** What epoll_wait is called with; a negative number blocks for ever. */
  function EpollTimeout(t: uint64): int {
    ToInt32(Clamp(t))
  }

  /** epoll_wait is given a deadline, and no later one than asked for, exactly when bit 31 of the
      timeout is clear; the value for no timer at all is safe. */
  lemma EpollTimeoutIff(t: uint64)
    ensures 0 <= EpollTimeout(t) <= t <==> t == NO_TIMER || t % TWO_32 < TWO_31
    ensures t < TWO_31 ==> EpollTimeout(t) == if t < MAX_TIMEOUT then t else MAX_TIMEOUT
    ensures EpollTimeout(Clamp(t)) == EpollTimeout(t)
  {
  }

  // ---------------------------------------------------------------------------------------------
  // The protocol

  datatype Timer = Timer(next: nat, ms: uint64, recurring: bool)

  /** Where the one worker is.
      Busy: outside its idle fiber; Idle: inside, before getNextTimer; Ready: it holds a timeout read
      at `readAt`; Asleep: in epoll_wait since `since`; Awake: epoll_wait has returned, with the pipe
      in its list or not; Handled: the expired timers have been taken. */
  datatype Worker =
    | Busy
    | Idle
    | Ready(readAt: nat, timeout: uint64)
    | Asleep(readAt: nat, timeout: uint64, since: nat)
    | Awake(seen: bool)
    | Handled(seen: bool)

  /** `asked` counts announcements between the lock and the test for idle workers, `writing` those
      between that test and the write; `pipe` says that an unread byte is in the pipe. */
  datatype State = State(
    clock: nat, timers: map<nat, Timer>, trickled: bool,
    asked: nat, writing: nat, pipe: bool, worker: Worker)

  /** The longest period of a timer, and whether the worker is never delayed between reading the clock
      and blocking, nor interrupted while it blocks. */
  datatype Config = Config(limit: nat, punctual: bool)

  datatype Step =
    | Tick(passed: nat)
    | AddTimer(id: nat, ms: uint64, recurring: bool, start: nat)
    | Refresh(id: nat)
    | Reset(id: nat, ms: uint64, fromNow: bool)
    | Cancel(id: nat)
    | TestIdle
    | WritePipe
    | OtherWrite
    | EnterIdle
    | GetNextTimer(timeout: uint64)
    | Block
    | Interrupt
    | Wake
    | ListExpired(now: nat)
    | Drain

  const INIT := State(0, map[], false, 0, 0, false, Busy)

  /** The place of a timer in the ordered set: before every other one, by deadline and then by
      address. */
  predicate IsFront(timers: map<nat, Timer>, id: nat, next: nat) {
    forall j :: j in timers && j != id ==> next < timers[j].next || (next == timers[j].next && id < j)
  }

  /** TimerManager::addTimer under the lock: insert, and announce a new front timer unless one has
      been announced since the last getNextTimer. */
  ghost function Insert(s: State, id: nat, t: Timer): State {
    var announce := IsFront(s.timers, id, t.next) && !s.trickled;
    s.(timers := s.timers[id := t],
    trickled := s.trickled || announce,
    asked := s.asked + if announce then 1 else 0)
  }

  /** No timer is due before `next`. */
  predicate NoneBefore(timers: map<nat, Timer>, next: nat) {
    forall j :: j in timers ==> next <= timers[j].next
  }

  /** `t` is a result of getNextTimer at time `now`. */
  predicate IsNextTimer(timers: map<nat, Timer>, now: nat, t: uint64) {
    if timers == map[] then t == NO_TIMER else
    && (exists j :: j in timers && NoneBefore(timers, timers[j].next)
                    && t == if now >= timers[j].next then 0 else timers[j].next - now)
  }

  /** A timer is stamped before the lock is taken, so its start may lie in the past. */
  predicate Enabled(cfg: Config, s: State, a: Step) {
    match a
    case Tick(_) => true
    case AddTimer(id, ms, _, start) => id !in s.timers && ms <= cfg.limit && start <= s.clock
    case Refresh(id) => id in s.timers
    case Reset(id, ms, fromNow) =>
      && id in s.timers && ms <= cfg.limit
      && (fromNow || (ms != s.timers[id].ms && s.timers[id].ms <= s.timers[id].next))
    case Cancel(id) => id in s.timers
    case TestIdle => s.asked > 0
    case WritePipe => s.writing > 0
    case OtherWrite => true
    case EnterIdle => s.worker.Busy?
    case GetNextTimer(t) => s.worker.Idle? && IsNextTimer(s.timers, s.clock, t)
    case Block => s.worker.Ready? && (cfg.punctual ==> s.clock == s.worker.readAt)
    case Interrupt => s.worker.Asleep? && (cfg.punctual ==> s.clock == s.worker.readAt)
    case Wake => s.worker.Asleep?
    case ListExpired(now) => s.worker.Awake? && now <= s.clock
    case Drain => s.worker.Handled?
  }

  /** listExpiredCb for a clock that does not run backwards. */
  function Remaining(timers: map<nat, Timer>, now: nat): map<nat, Timer> {
    map id | id in timers && (timers[id].next > now || timers[id].recurring) ::
      if timers[id].next > now then timers[id] else timers[id].(next := now + timers[id].ms)
  }

  ghost function Next(cfg: Config, s: State, a: Step): State
    requires Enabled(cfg, s, a)
  {
    match a
    case Tick(passed) => s.(clock := s.clock + passed)
    case AddTimer(id, ms, recurring, start) => Insert(s, id, Timer(start + ms, ms, recurring))
    case Refresh(id) => s.(timers := s.timers[id := s.timers[id].(next := s.clock + s.timers[id].ms)])
    case Reset(id, ms, fromNow) =>
      var start := if fromNow then s.clock else s.timers[id].next - s.timers[id].ms;
      Insert(s, id, s.timers[id].(next := start + ms, ms := ms))
    case Cancel(id) => s.(timers := s.timers - {id})
    case TestIdle => s.(asked := s.asked - 1, writing := s.writing + if s.worker.Busy? then 0 else 1)
    case WritePipe => s.(writing := s.writing - 1, pipe := true)
    case OtherWrite => s.(pipe := true)
    case EnterIdle => s.(worker := Idle)
    case GetNextTimer(t) => s.(trickled := false, worker := Ready(s.clock, t))
    case Block => s.(worker := Asleep(s.worker.readAt, s.worker.timeout, s.clock))
    case Interrupt => s.(worker := s.worker.(since := s.clock))
    case Wake => s.(worker := Awake(s.pipe))
    case ListExpired(now) => s.(timers := Remaining(s.timers, now), worker := Handled(s.worker.seen))
    case Drain => s.(pipe := s.pipe && !s.worker.seen, worker := Busy)
  }

  /** The steps of a run, each enabled where it is taken. */
  ghost predicate Legal(cfg: Config, run: seq<Step>)
    decreases |run|, 0
  {
    run == [] || (Legal(cfg, run[..|run| - 1]) && Enabled(cfg, After(cfg, run[..|run| - 1]), run[|run| - 1]))
  }

  ghost function After(cfg: Config, run: seq<Step>): State
    requires Legal(cfg, run)
    decreases |run|, 1
  {
    if run == [] then INIT else Next(cfg, After(cfg, run[..|run| - 1]), run[|run| - 1])
  }

  ghost predicate Reachable(cfg: Config, s: State) {
    exists run :: Legal(cfg, run) && After(cfg, run) == s
  }

  // ---------------------------------------------------------------------------------------------
  // The pipe

  /** Step `m` was the last return from epoll_wait. */
  ghost predicate LastWake(run: seq<Step>, m: nat) {
    m < |run| && run[m].Wake? && forall k :: m < k < |run| ==> !run[k].Wake?
  }

  predicate Sees(w: Worker) {
    w.Awake? || w.Handled?
  }

  /** After epoll_wait the worker knows whether the pipe was readable when it returned. */
  lemma {:induction false} SeenIs(cfg: Config, run: seq<Step>) returns (m: nat)
    requires Legal(cfg, run) && Sees(After(cfg, run).worker)
    ensures LastWake(run, m) == true && Legal(cfg, run[..m]) && After(cfg, run).worker.seen == After(cfg, run[..m]).pipe
  {
    var past, a := run[..|run| - 1], run[|run| - 1];
    SeenStep(cfg, After(cfg, past), a);
    if a.Wake? {
      m := |run| - 1;
    } else {
      m := SeenIs(cfg, past);
      WakeStays(run, m);
    }
  }

  lemma SeenStep(cfg: Config, s: State, a: Step)
    requires Enabled(cfg, s, a) && Sees(Next(cfg, s, a).worker)
    ensures if a.Wake? then Next(cfg, s, a).worker.seen == s.pipe
            else Sees(s.worker) && Next(cfg, s, a).worker.seen == s.worker.seen
  {
  }

  lemma WakeStays(run: seq<Step>, m: nat)
    requires run != [] && LastWake(run[..|run| - 1], m) && !run[|run| - 1].Wake?
    ensures LastWake(run, m) == true && run[..|run| - 1][..m] == run[..m]
  {
  }

  /** In every run, the worker empties the pipe when it was readable as epoll_wait returned, bytes written
      since included, and otherwise leaves it as it is. */
  lemma DrainsWhatItSaw(cfg: Config, run: seq<Step>) returns (m: nat)
    requires Legal(cfg, run) && Enabled(cfg, After(cfg, run), Drain)
    ensures LastWake(run, m) && Legal(cfg, run[..m]) && Legal(cfg, run + [Drain])
    ensures After(cfg, run + [Drain]).pipe == (After(cfg, run).pipe && !After(cfg, run[..m]).pipe)
  {
    m := SeenIs(cfg, run);
    assert (run + [Drain])[..|run|] == run;
  }

  // ---------------------------------------------------------------------------------------------
  // The announcements

  /** How many announcements have got past the lock and the test, and how often the deadline was read. */
  function Tests(run: seq<Step>): nat {
    if run == [] then 0 else Tests(run[..|run| - 1]) + if run[|run| - 1].TestIdle? then 1 else 0
  }

  function Lookups(run: seq<Step>): nat {
    if run == [] then 0 else Lookups(run[..|run| - 1]) + if run[|run| - 1].GetNextTimer? then 1 else 0
  }

  /** In every run, at most one timer is announced for each time the deadline is read, and one before. */
  lemma {:induction false} AnnouncedOnce(cfg: Config, run: seq<Step>)
    requires Legal(cfg, run)
    ensures var s := After(cfg, run); s.asked + Tests(run) + (if s.trickled then 0 else 1) <= Lookups(run) + 1
  {
    if run != [] {
      AnnouncedOnce(cfg, run[..|run| - 1]);
    }
  }

  // ---------------------------------------------------------------------------------------------
  // The deadline

  /** An announcement is under way or its byte waits in the pipe. */
  predicate Announced(s: State) {
    s.asked > 0 || s.writing > 0 || s.pipe
  }

  /** The worker sleeps, and nothing is on its way to wake it. */
  predicate Undisturbed(s: State) {
    s.worker.Asleep? && !Announced(s)
  }

  /** The worker's epoll_wait ends by itself at `t`. */
  predicate WakesAt(s: State, t: int)
    requires s.worker.Asleep?
  {
    0 <= EpollTimeout(s.worker.timeout) && t == s.worker.since + EpollTimeout(s.worker.timeout)
  }

  /** The time that passed between reading the clock and blocking. */
  function Lag(s: State): int
    requires s.worker.Asleep?
  {
    s.worker.since - s.worker.readAt
  }

  /** A sleeper that nothing is on its way to wake wakes before any timer is due, or at once. */
  ghost predicate OnTime(s: State) {
    Undisturbed(s) && s.timers != map[] ==>
      exists t :: WakesAt(s, t) && (t == s.worker.since || NoneBefore(s.timers, t))
  }

  /** The timers are stamped in the past and no longer than the limit. */
  ghost predicate TimersOk(cfg: Config, s: State) {
    forall j :: j in s.timers ==>
      s.timers[j].ms <= cfg.limit && s.timers[j].ms <= s.timers[j].next <= s.clock + s.timers[j].ms
  }

  predicate Holds(w: Worker) {
    w.Ready? || w.Asleep?
  }

  predicate Bounded(timers: map<nat, Timer>, readAt: nat, timeout: int) {
    timeout == 0 || (timeout > 0 && NoneBefore(timers, readAt + timeout))
  }

  /** While the worker holds a timeout, either an announcement is on its way, or the flag is down, and
      the timeout is zero or no timer is due before the time it stands for. */
  ghost predicate Covered(s: State) {
    Holds(s.worker) && !Announced(s) ==>
      && !s.trickled
      && (s.timers != map[] ==> Bounded(s.timers, s.worker.readAt, EpollTimeout(s.worker.timeout)))
  }

  ghost predicate Inv(cfg: Config, s: State) {
    && TimersOk(cfg, s)
    && Covered(s)
    && (cfg.limit == 0 && Holds(s.worker) && !Announced(s) && s.timers != map[] ==> EpollTimeout(s.worker.timeout) == 0)
    && (Holds(s.worker) ==> s.worker.readAt <= s.clock)
    && (s.worker.Asleep? ==> s.worker.readAt <= s.worker.since && (cfg.punctual ==> s.worker.since == s.worker.readAt))
  }

  lemma InsertKeeps(cfg: Config, s: State, id: nat, t: Timer)
    requires Inv(cfg, s) && t.ms <= cfg.limit && t.ms <= t.next <= s.clock + t.ms
    ensures Inv(cfg, Insert(s, id, t)) == true
  {
    var n := Insert(s, id, t);
    if Holds(s.worker) && !Announced(n) {
      var bound := s.worker.readAt + EpollTimeout(s.worker.timeout);
      assert !IsFront(s.timers, id, t.next);
      var j :| j in s.timers && j != id && s.timers[j].next <= t.next;
      assert bound == s.worker.readAt || NoneBefore(s.timers, bound);
    }
  }

  lemma AddKeeps(cfg: Config, s: State, id: nat, ms: uint64, recurring: bool, start: nat)
    requires Inv(cfg, s) && Enabled(cfg, s, AddTimer(id, ms, recurring, start))
    ensures Inv(cfg, Next(cfg, s, AddTimer(id, ms, recurring, start))) == true
  {
    InsertKeeps(cfg, s, id, Timer(start + ms, ms, recurring));
  }

  lemma ResetKeeps(cfg: Config, s: State, id: nat, ms: uint64, fromNow: bool)
    requires Inv(cfg, s) && Enabled(cfg, s, Reset(id, ms, fromNow))
    ensures Inv(cfg, Next(cfg, s, Reset(id, ms, fromNow))) == true
  {
    var start := if fromNow then s.clock else s.timers[id].next - s.timers[id].ms;
    InsertKeeps(cfg, s, id, s.timers[id].(next := start + ms, ms := ms));
  }

  lemma RefreshKeeps(cfg: Config, s: State, id: nat)
    requires Inv(cfg, s) && id in s.timers
    ensures Inv(cfg, Next(cfg, s, Refresh(id))) == true
  {
  }

  lemma GetNextKeeps(cfg: Config, s: State, t: uint64)
    requires Inv(cfg, s) && Enabled(cfg, s, GetNextTimer(t)) && cfg.limit < TWO_31
    ensures Inv(cfg, Next(cfg, s, GetNextTimer(t))) == true
  {
    EpollTimeoutIff(t);
    if s.timers != map[] {
      var j :| j in s.timers && NoneBefore(s.timers, s.timers[j].next)
               && t == if s.clock >= s.timers[j].next then 0 else s.timers[j].next - s.clock;
      assert t < TWO_31;
      assert Bounded(s.timers, s.clock, EpollTimeout(t));
    }
  }

  /** Steps that touch neither the timers nor the flag. */
  lemma PipeKeeps(cfg: Config, s: State, a: Step)
    requires Inv(cfg, s) && Enabled(cfg, s, a) && (a.TestIdle? || a.WritePipe? || a.OtherWrite? || a.Tick?)
    ensures Inv(cfg, Next(cfg, s, a)) == true
  {
  }

  lemma WorkerKeeps(cfg: Config, s: State, a: Step)
    requires Inv(cfg, s) && Enabled(cfg, s, a)
    requires a.EnterIdle? || a.Block? || a.Interrupt? || a.Wake? || a.Drain?
    ensures Inv(cfg, Next(cfg, s, a)) == true
  {
  }

  lemma CancelKeeps(cfg: Config, s: State, id: nat)
    requires Inv(cfg, s) && id in s.timers
    ensures Inv(cfg, Next(cfg, s, Cancel(id))) == true
  {
  }

  lemma ExpireKeeps(cfg: Config, s: State, now: nat)
    requires Inv(cfg, s) && Enabled(cfg, s, ListExpired(now))
    ensures Inv(cfg, Next(cfg, s, ListExpired(now))) == true
  {
  }

  lemma StepKeeps(cfg: Config, s: State, a: Step)
    requires cfg.limit < TWO_31 && Inv(cfg, s) && Enabled(cfg, s, a)
    ensures Inv(cfg, Next(cfg, s, a)) == true
  {
    match a
    case AddTimer(id, ms, recurring, start) => AddKeeps(cfg, s, id, ms, recurring, start);
    case Reset(id, ms, fromNow) => ResetKeeps(cfg, s, id, ms, fromNow);
    case Refresh(id) => RefreshKeeps(cfg, s, id);
    case GetNextTimer(t) => GetNextKeeps(cfg, s, t);
    case ListExpired(now) => ExpireKeeps(cfg, s, now);
    case Cancel(id) => CancelKeeps(cfg, s, id);
    case EnterIdle => WorkerKeeps(cfg, s, a);
    case Block => WorkerKeeps(cfg, s, a);
    case Interrupt => WorkerKeeps(cfg, s, a);
    case Wake => WorkerKeeps(cfg, s, a);
    case Drain => WorkerKeeps(cfg, s, a);
    case _ => PipeKeeps(cfg, s, a);
  }

  lemma {:induction false} RunKeeps(cfg: Config, run: seq<Step>)
    requires cfg.limit < TWO_31 && Legal(cfg, run)
    ensures Inv(cfg, After(cfg, run)) == true
  {
    if run != [] {
      RunKeeps(cfg, run[..|run| - 1]);
      StepKeeps(cfg, After(cfg, run[..|run| - 1]), run[|run| - 1]);
    }
  }

  /** In every reachable state, with timeouts below 2^31, a worker that sleeps undisturbed wakes no
      later than any timer is due, but for the time it lost before it blocked. */
  lemma DeadlineWithLag(cfg: Config, s: State, j: nat)
    requires cfg.limit < TWO_31 && Reachable(cfg, s) && Undisturbed(s) && j in s.timers
    ensures exists t :: WakesAt(s, t) && (t == s.worker.since || t <= s.timers[j].next + Lag(s))
  {
    var run :| Legal(cfg, run) && After(cfg, run) == s;
    RunKeeps(cfg, run);
    assert WakesAt(s, s.worker.since + EpollTimeout(s.worker.timeout));
  }

  lemma AlwaysOnTime(cfg: Config, s: State)
    requires cfg.limit < TWO_31 && (cfg.punctual || cfg.limit == 0) && Reachable(cfg, s)
    ensures OnTime(s)
  {
    if Undisturbed(s) && s.timers != map[] {
      var run :| Legal(cfg, run) && After(cfg, run) == s;
      RunKeeps(cfg, run);
      assert WakesAt(s, s.worker.since + EpollTimeout(s.worker.timeout));
    }
  }

  lemma Extend(cfg: Config, run: seq<Step>, a: Step)
    requires Legal(cfg, run) && Enabled(cfg, After(cfg, run), a)
    ensures Legal(cfg, run + [a]) && After(cfg, run + [a]) == Next(cfg, After(cfg, run), a)
  {
    assert (run + [a])[..|run|] == run;
  }

  /** One timer of `ms`, announced while the worker is busy. */
  lemma OneTimer(cfg: Config, ms: uint64) returns (run: seq<Step>)
    requires ms <= cfg.limit
    ensures Legal(cfg, run)
    ensures After(cfg, run) == State(0, map[0 := Timer(ms, ms, false)], true, 0, 0, false, Idle)
  {
    run := [];
    Extend(cfg, run, AddTimer(0, ms, false, 0));
    run := run + [AddTimer(0, ms, false, 0)];
    assert After(cfg, run) == State(0, map[0 := Timer(ms, ms, false)], true, 1, 0, false, Busy);
    Extend(cfg, run, TestIdle);
    run := run + [TestIdle];
    Extend(cfg, run, EnterIdle);
    run := run + [EnterIdle];
  }

  /** The worker then blocks, `late` milliseconds after reading the clock. */
  lemma OneSleep(cfg: Config, ms: uint64, late: nat) returns (run: seq<Step>)
    requires 0 < ms <= cfg.limit && (cfg.punctual ==> late == 0)
    ensures Legal(cfg, run)
    ensures After(cfg, run) ==
            State(late, map[0 := Timer(ms, ms, false)], false, 0, 0, false, Asleep(0, ms, late))
  {
    run := OneTimer(cfg, ms);
    assert NoneBefore(map[0 := Timer(ms, ms, false)], map[0 := Timer(ms, ms, false)][0].next);
    Extend(cfg, run, GetNextTimer(ms));
    run := run + [GetNextTimer(ms)];
    Extend(cfg, run, Tick(late));
    run := run + [Tick(late)];
    Extend(cfg, run, Block);
    run := run + [Block];
  }

  /** A timer 2^31 milliseconds ahead: epoll_wait is called with a negative timeout. */
  lemma SleepsForEver(cfg: Config) returns (s: State)
    requires TWO_31 <= cfg.limit
    ensures Reachable(cfg, s) && !OnTime(s)
  {
    var run := OneSleep(cfg, TWO_31, 0);
    s := State(0, map[0 := Timer(TWO_31, TWO_31, false)], false, 0, 0, false, Asleep(0, TWO_31, 0));
    NoWakeTime();
  }

  lemma NoWakeTime()
    ensures OnTime(State(0, map[0 := Timer(TWO_31, TWO_31, false)], false, 0, 0, false, Asleep(0, TWO_31, 0))) == false
  {
    var s := State(0, map[0 := Timer(TWO_31, TWO_31, false)], false, 0, 0, false, Asleep(0, TWO_31, 0));
    assert 0 in s.timers && EpollTimeout(TWO_31) < 0;
  }

  /** A millisecond lost between reading the clock and blocking is a millisecond overslept. */
  lemma Oversleeps(cfg: Config) returns (s: State)
    requires !cfg.punctual && 0 < cfg.limit
    ensures Reachable(cfg, s) && !OnTime(s)
  {
    var run := OneSleep(cfg, 1, 1);
    s := State(1, map[0 := Timer(1, 1, false)], false, 0, 0, false, Asleep(0, 1, 1));
    WakesLate();
  }

  lemma WakesLate()
    ensures OnTime(State(1, map[0 := Timer(1, 1, false)], false, 0, 0, false, Asleep(0, 1, 1))) == false
  {
    var s := State(1, map[0 := Timer(1, 1, false)], false, 0, 0, false, Asleep(0, 1, 1));
    assert s.timers[0].next == 1;
    forall t | WakesAt(s, t) ensures t != s.worker.since && !NoneBefore(s.timers, t) {
      assert t == 2;
    }
  }

  /** The worker is on time in every reachable state exactly when periods stay below 2^31 and no time
      is lost before blocking (or every period is zero, when it never blocks on a timer at all). */
  lemma DeadlineIff(cfg: Config)
    ensures (forall s :: Reachable(cfg, s) ==> OnTime(s)) <==>
            cfg.limit < TWO_31 && (cfg.punctual || cfg.limit == 0)
  {
    if cfg.limit < TWO_31 && (cfg.punctual || cfg.limit == 0) {
      forall s | Reachable(cfg, s) ensures OnTime(s) {
        AlwaysOnTime(cfg, s);
      }
    } else if TWO_31 <= cfg.limit {
      var s := SleepsForEver(cfg);
    } else {
      var s := Oversleeps(cfg);
    }
  }
}
