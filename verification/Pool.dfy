/** The client's connection pool: getConnection and ReleasePtr, run by any number of threads, step by
    step.  The verdicts on a connection (still connected, of the right age) are arbitrary.

    Where a contract says `P(..) == true` it means `P(..)`; the longer form keeps the verifier from
    proving the parts of P one by one. */
module Pool {
  import opened Common

  /** Where a connection is.
      Idle: in the list; Discarded: popped as unusable by a call, which will delete it; Chosen: popped or
      made by a call, which will hand it out; Out: handed out; Returning: released, about to be put back;
      Dropped: deleted on release, about to be subtracted; Dead. */
  datatype Place = Idle | Discarded(call: nat) | Chosen(call: nat) | Out | Returning | Dropped | Dead

  datatype Conn = Conn(place: Place, requests: nat, deletions: nat)

  /** Where a call of getConnection is.
      Popping: in the loop, with the lock; Deleting: deleting what it popped as unusable; Subtracted: the
      count has been corrected; Made: it has made a connection that is not yet counted; Over. */
  datatype Stage = Popping | Deleting | Subtracted | Made | Over

  /** `invalid` and `ptr` are the locals of the call; `gone` of the invalid ones have been deleted. */
  datatype Call = Call(stage: Stage, invalid: seq<nat>, gone: nat, ptr: Option<nat>)

  datatype State = State(conns: seq<Conn>, idle: seq<nat>, total: int, lock: Option<nat>, calls: seq<Call>)

  const INIT := State([], [], 0, None, [])

  datatype Step =
    | Lock
    | PopInvalid(call: nat)
    | PopValid(call: nat)
    | PopNone(call: nat)
    | DeleteNext(call: nat)
    | Subtract(call: nat)
    | Fail(call: nat)
    | Make(call: nat)
    | CountMade(call: nat)
    | HandOut(call: nat)
    | Release(conn: nat, unusable: bool)
    | SubtractDropped(conn: nat)
    | PutBack(conn: nat)

  predicate In(s: State, g: nat, stage: Stage) {
    g < |s.calls| && s.calls[g].stage == stage
  }

  predicate Is(s: State, c: nat, place: Place) {
    c < |s.conns| && s.conns[c].place == place
  }

  predicate Enabled(s: State, a: Step) {
    match a
    case Lock => s.lock.None?
    case PopInvalid(g) => In(s, g, Popping) && s.idle != [] && s.idle[0] < |s.conns|
    case PopValid(g) => In(s, g, Popping) && s.idle != [] && s.idle[0] < |s.conns|
    case PopNone(g) => In(s, g, Popping) && s.idle == []
    case DeleteNext(g) =>
      && In(s, g, Deleting) && s.calls[g].gone < |s.calls[g].invalid|
      && s.calls[g].invalid[s.calls[g].gone] < |s.conns|
    case Subtract(g) => In(s, g, Deleting) && s.calls[g].gone == |s.calls[g].invalid|
    case Fail(g) => In(s, g, Subtracted) && s.calls[g].ptr.None?
    case Make(g) => In(s, g, Subtracted) && s.calls[g].ptr.None?
    case CountMade(g) => In(s, g, Made)
    case HandOut(g) => In(s, g, Subtracted) && s.calls[g].ptr.Some? && s.calls[g].ptr.value < |s.conns|
    case Release(c, _) => Is(s, c, Out)
    case SubtractDropped(c) => Is(s, c, Dropped)
    case PutBack(c) => Is(s, c, Returning) && s.lock.None?
  }

  function Put(s: State, c: nat, place: Place): State
    requires c < |s.conns|
  {
    s.(conns := s.conns[c := s.conns[c].(place := place)])
  }

  function Delete(s: State, c: nat, place: Place): State
    requires c < |s.conns|
  {
    s.(conns := s.conns[c := s.conns[c].(place := place, deletions := s.conns[c].deletions + 1)])
  }

  function SetCall(s: State, g: nat, call: Call): State
    requires g < |s.calls|
  {
    s.(calls := s.calls[g := call])
  }

  function Next(s: State, a: Step, maxRequest: nat): State
    requires Enabled(s, a)
  {
    match a
    case Lock => s.(lock := Some(|s.calls|), calls := s.calls + [Call(Popping, [], 0, None)])
    case PopInvalid(g) =>
      SetCall(Put(s, s.idle[0], Discarded(g)), g, s.calls[g].(invalid := s.calls[g].invalid + [s.idle[0]]))
      .(idle := s.idle[1..])
    case PopValid(g) =>
      SetCall(Put(s, s.idle[0], Chosen(g)), g, s.calls[g].(stage := Deleting, ptr := Some(s.idle[0])))
      .(idle := s.idle[1..], lock := None)
    case PopNone(g) => SetCall(s, g, s.calls[g].(stage := Deleting)).(lock := None)
    case DeleteNext(g) =>
      SetCall(Delete(s, s.calls[g].invalid[s.calls[g].gone], Dead), g, s.calls[g].(gone := s.calls[g].gone + 1))
    case Subtract(g) => SetCall(s, g, s.calls[g].(stage := Subtracted)).(total := s.total - |s.calls[g].invalid|)
    case Fail(g) => SetCall(s, g, s.calls[g].(stage := Over))
    case Make(g) =>
      SetCall(s, g, s.calls[g].(stage := Made, ptr := Some(|s.conns|))).(conns := s.conns + [Conn(Chosen(g), 0, 0)])
    case CountMade(g) => SetCall(s, g, s.calls[g].(stage := Subtracted)).(total := s.total + 1)
    case HandOut(g) => SetCall(Put(s, s.calls[g].ptr.value, Out), g, s.calls[g].(stage := Over))
    case Release(c, unusable) =>
      var n := s.conns[c].requests + 1;
      var t := s.(conns := s.conns[c := s.conns[c].(requests := n)]);
      if unusable || n >= maxRequest then Delete(t, c, Dropped) else Put(t, c, Returning)
    case SubtractDropped(c) => Put(s, c, Dead).(total := s.total - 1)
    case PutBack(c) => Put(s, c, Idle).(idle := s.idle + [c])
  }

  ghost predicate Legal(run: seq<Step>, maxRequest: nat)
    decreases |run|, 0
  {
    run == [] || (Legal(run[..|run| - 1], maxRequest) && Enabled(After(run[..|run| - 1], maxRequest), run[|run| - 1]))
  }

  ghost function After(run: seq<Step>, maxRequest: nat): State
    requires Legal(run, maxRequest)
    decreases |run|, 1
  {
    if run == [] then INIT else Next(After(run[..|run| - 1], maxRequest), run[|run| - 1], maxRequest)
  }

  // ---------------------------------------------------------------------------------------------
  // Counting

  /** Listed: idle in the pool; Held: with a user or a call, or on its way back; Unwanted: popped as
      unusable, or deleted on release, and still counted; Buried: deleted. */
  datatype Kind = Listed | Held | Unwanted | Buried

  function KindOf(p: Place): Kind {
    match p
    case Idle => Listed
    case Chosen(_) => Held
    case Out => Held
    case Returning => Held
    case Discarded(_) => Unwanted
    case Dropped => Unwanted
    case Dead => Buried
  }

  function One(c: Conn, k: Kind): nat {
    if KindOf(c.place) == k then 1 else 0
  }

  function Count(conns: seq<Conn>, k: Kind): nat {
    if conns == [] then 0 else Count(conns[..|conns| - 1], k) + One(conns[|conns| - 1], k)
  }

  lemma {:induction false} CountSet(conns: seq<Conn>, i: nat, c: Conn, k: Kind)
    requires i < |conns|
    ensures Count(conns[i := c], k) == Count(conns, k) - One(conns[i], k) + One(c, k)
    decreases |conns|
  {
    var n := |conns| - 1;
    if i == n {
      assert conns[i := c][..n] == conns[..n];
    } else {
      assert conns[i := c][..n] == conns[..n][i := c];
      CountSet(conns[..n], i, c, k);
    }
  }

  /** What a call owes to the total: connections it has deleted and not yet subtracted, less one it has
      made and not yet counted. */
  function Owes(call: Call): int {
    match call.stage
    case Deleting => call.gone
    case Made => -1
    case _ => 0
  }

  function Owed(calls: seq<Call>): int {
    if calls == [] then 0 else Owed(calls[..|calls| - 1]) + Owes(calls[|calls| - 1])
  }

  lemma {:induction false} OwedSet(calls: seq<Call>, g: nat, call: Call)
    requires g < |calls|
    ensures Owed(calls[g := call]) == Owed(calls) - Owes(calls[g]) + Owes(call)
    decreases |calls|
  {
    var n := |calls| - 1;
    if g == n {
      assert calls[g := call][..n] == calls[..n];
    } else {
      assert calls[g := call][..n] == calls[..n][g := call];
      OwedSet(calls[..n], g, call);
    }
  }

  /** The count of the pool: idle connections, held ones, unwanted ones, and what the calls owe. */
  ghost predicate Balanced(s: State) {
    && Count(s.conns, Listed) == |s.idle|
    && s.total == Count(s.conns, Listed) + Count(s.conns, Held) + Count(s.conns, Unwanted) + Owed(s.calls)
  }

  lemma BalanceKept(s: State, c: nat, conn: Conn, g: nat, call: Call, t: State)
    requires Balanced(s) && c < |s.conns| && g < |s.calls|
    requires t.conns == s.conns[c := conn] && t.calls == s.calls[g := call]
    requires |t.idle| == |s.idle| - One(s.conns[c], Listed) + One(conn, Listed)
    requires t.total == s.total + One(s.conns[c], Buried) - One(conn, Buried) - Owes(s.calls[g]) + Owes(call)
    ensures Balanced(t)
  {
    CountSet(s.conns, c, conn, Listed);
    CountSet(s.conns, c, conn, Held);
    CountSet(s.conns, c, conn, Unwanted);
    OwedSet(s.calls, g, call);
  }

  // ---------------------------------------------------------------------------------------------
  // What every step keeps

  /** A connection is deleted once, and before that not at all; one that is or will be idle has served
      fewer requests than the limit. */
  predicate ConnOk(c: Conn, maxRequest: nat) {
    && c.deletions == (if c.place.Dropped? || c.place.Dead? then 1 else 0)
    && (c.place.Idle? || c.place.Returning? ==> c.requests < maxRequest)
  }

  ghost predicate ConnsOk(s: State, maxRequest: nat) {
    forall c :: 0 <= c < |s.conns| ==> ConnOk(s.conns[c], maxRequest)
  }

  /** The list holds idle connections only, and each once. */
  ghost predicate IdleOk(s: State) {
    && (forall i :: 0 <= i < |s.idle| ==> Is(s, s.idle[i], Idle))
    && (forall i, j :: 0 <= i < j < |s.idle| ==> s.idle[i] != s.idle[j])
  }

  /** What a call has popped is its own until it is deleted or handed out. */
  ghost predicate CallOk(conns: seq<Conn>, g: nat, call: Call) {
    && call.gone <= |call.invalid|
    && (forall i :: 0 <= i < |call.invalid| ==> call.invalid[i] < |conns|)
    && (forall i :: 0 <= i < call.gone ==> conns[call.invalid[i]].place == Dead)
    && (forall i :: call.gone <= i < |call.invalid| ==> conns[call.invalid[i]].place == Discarded(g))
    && (forall i, j :: 0 <= i < j < |call.invalid| ==> call.invalid[i] != call.invalid[j])
    && (!call.stage.Over? && call.ptr.Some? ==> call.ptr.value < |conns| && conns[call.ptr.value].place == Chosen(g))
    && (call.stage.Popping? ==> call.gone == 0 && call.ptr.None?)
    && (call.stage.Made? ==> call.ptr.Some?)
  }

  ghost predicate CallsOk(s: State) {
    forall g :: 0 <= g < |s.calls| ==> CallOk(s.conns, g, s.calls[g])
  }

  ghost predicate LockOk(s: State) {
    forall g :: 0 <= g < |s.calls| && s.calls[g].stage.Popping? ==> s.lock == Some(g)
  }

  ghost predicate Inv(s: State, maxRequest: nat) {
    Balanced(s) && ConnsOk(s, maxRequest) && IdleOk(s) && CallsOk(s) && LockOk(s)
  }

  /** A change of a connection that belongs to no call, or to call `g`, does not concern the others. */
  lemma OthersOk(conns: seq<Conn>, c: nat, conn: Conn, g: nat, h: nat, call: Call)
    requires CallOk(conns, h, call) && c < |conns| && h != g
    requires conns[c].place in {Idle, Chosen(g), Discarded(g)}
    ensures CallOk(conns[c := conn], h, call) == true
  {
  }

  lemma FreeOk(conns: seq<Conn>, c: nat, conn: Conn, h: nat, call: Call)
    requires CallOk(conns, h, call) && c < |conns|
    requires conns[c].place in {Idle, Out, Returning, Dropped}
    ensures CallOk(conns[c := conn], h, call) == true
  {
  }

  lemma CallKeepsOthers(s: State, t: State, c: nat, conn: Conn, g: nat, call: Call)
    requires CallsOk(s) && c < |s.conns| && g < |s.calls|
    requires s.conns[c].place in {Idle, Chosen(g), Discarded(g)}
    requires t.conns == s.conns[c := conn] && t.calls == s.calls[g := call] && CallOk(t.conns, g, call)
    ensures CallsOk(t) == true
  {
    forall h | 0 <= h < |t.calls| ensures CallOk(t.conns, h, t.calls[h]) {
      if h != g {
        OthersOk(s.conns, c, conn, g, h, s.calls[h]);
      }
    }
  }

  lemma FreeKeepsCalls(s: State, t: State, c: nat, conn: Conn)
    requires CallsOk(s) && c < |s.conns| && s.conns[c].place in {Out, Returning, Dropped}
    requires t.conns == s.conns[c := conn] && t.calls == s.calls
    ensures CallsOk(t) == true
  {
    forall h | 0 <= h < |t.calls| ensures CallOk(t.conns, h, t.calls[h]) {
      FreeOk(s.conns, c, conn, h, s.calls[h]);
    }
  }

  lemma PopInvalidKeeps(s: State, g: nat, maxRequest: nat)
    requires Inv(s, maxRequest) && Enabled(s, PopInvalid(g))
    ensures Inv(Next(s, PopInvalid(g), maxRequest), maxRequest) == true
  {
    var c, t := s.idle[0], Next(s, PopInvalid(g), maxRequest);
    var conn := s.conns[c].(place := Discarded(g));
    var call := s.calls[g].(invalid := s.calls[g].invalid + [c]);
    assert Is(s, c, Idle);
    BalanceKept(s, c, conn, g, call, t);
    assert CallOk(s.conns, g, s.calls[g]);
    CallKeepsOthers(s, t, c, conn, g, call);
  }

  lemma PopValidKeeps(s: State, g: nat, maxRequest: nat)
    requires Inv(s, maxRequest) && Enabled(s, PopValid(g))
    ensures Inv(Next(s, PopValid(g), maxRequest), maxRequest) == true
  {
    var c := s.idle[0];
    PoppedKeeps(s, Next(s, PopValid(g), maxRequest), c, s.conns[c].(place := Chosen(g)), g,
                s.calls[g].(stage := Deleting, ptr := Some(c)), maxRequest);
  }

  lemma PoppedKeeps(s: State, t: State, c: nat, conn: Conn, g: nat, call: Call, maxRequest: nat)
    requires Inv(s, maxRequest) && Enabled(s, PopValid(g)) && c == s.idle[0]
    requires conn == s.conns[c].(place := Chosen(g)) && call == s.calls[g].(stage := Deleting, ptr := Some(c))
    requires t == Next(s, PopValid(g), maxRequest)
    ensures Inv(t, maxRequest) == true
  {
    assert Is(s, c, Idle);
    BalanceKept(s, c, conn, g, call, t);
    assert CallOk(s.conns, g, s.calls[g]);
    CallKeepsOthers(s, t, c, conn, g, call);
  }

  /** Steps of a call on a connection that is its own. */
  lemma OwnStepKeeps(s: State, t: State, c: nat, conn: Conn, g: nat, call: Call, maxRequest: nat)
    requires Inv(s, maxRequest) && c < |s.conns| && g < |s.calls|
    requires s.conns[c].place in {Chosen(g), Discarded(g)} && !conn.place.Idle? && ConnOk(conn, maxRequest)
    requires t.conns == s.conns[c := conn] && t.calls == s.calls[g := call]
    requires t.idle == s.idle && t.lock == s.lock && !call.stage.Popping? && CallOk(t.conns, g, call)
    requires t.total == s.total - One(conn, Buried) - Owes(s.calls[g]) + Owes(call)
    ensures Inv(t, maxRequest) == true
  {
    BalanceKept(s, c, conn, g, call, t);
    CallKeepsOthers(s, t, c, conn, g, call);
  }

  lemma DeleteNextKeeps(s: State, g: nat, maxRequest: nat)
    requires Inv(s, maxRequest) && Enabled(s, DeleteNext(g))
    ensures Inv(Next(s, DeleteNext(g), maxRequest), maxRequest) == true
  {
    var c, t := s.calls[g].invalid[s.calls[g].gone], Next(s, DeleteNext(g), maxRequest);
    assert CallOk(s.conns, g, s.calls[g]);
    assert ConnOk(s.conns[c], maxRequest);
    OwnStepKeeps(s, t, c, t.conns[c], g, t.calls[g], maxRequest);
  }

  lemma HandOutKeeps(s: State, g: nat, maxRequest: nat)
    requires Inv(s, maxRequest) && Enabled(s, HandOut(g))
    ensures Inv(Next(s, HandOut(g), maxRequest), maxRequest) == true
  {
    var c, t := s.calls[g].ptr.value, Next(s, HandOut(g), maxRequest);
    assert CallOk(s.conns, g, s.calls[g]);
    assert ConnOk(s.conns[c], maxRequest);
    OwnStepKeeps(s, t, c, t.conns[c], g, t.calls[g], maxRequest);
  }

  /** Steps that change one call and the total only. */
  lemma CallStepKeeps(s: State, t: State, g: nat, call: Call, maxRequest: nat)
    requires Inv(s, maxRequest) && g < |s.calls| && CallOk(s.conns, g, call) && LockOk(t)
    requires t.conns == s.conns && t.idle == s.idle && t.calls == s.calls[g := call]
    requires t.total == s.total - Owes(s.calls[g]) + Owes(call)
    ensures Inv(t, maxRequest) == true
  {
    OwedSet(s.calls, g, call);
  }

  lemma SimpleStepKeeps(s: State, a: Step, maxRequest: nat)
    requires Inv(s, maxRequest) && Enabled(s, a)
    requires a.PopNone? || a.Subtract? || a.Fail? || a.CountMade?
    ensures Inv(Next(s, a, maxRequest), maxRequest) == true
  {
    var g, t := a.call, Next(s, a, maxRequest);
    assert CallOk(s.conns, g, s.calls[g]);
    CallStepKeeps(s, t, g, t.calls[g], maxRequest);
  }

  lemma LockKeeps(s: State, maxRequest: nat)
    requires Inv(s, maxRequest) && Enabled(s, Lock)
    ensures Inv(Next(s, Lock, maxRequest), maxRequest) == true
  {
    var t := Next(s, Lock, maxRequest);
    assert t.calls[..|s.calls|] == s.calls;
  }

  lemma {:induction false} CountAdd(conns: seq<Conn>, c: Conn, k: Kind)
    ensures Count(conns + [c], k) == Count(conns, k) + One(c, k)
  {
    assert (conns + [c])[..|conns|] == conns;
  }

  lemma MakeBalanced(s: State, g: nat, call: Call, conn: Conn, t: State)
    requires Balanced(s) && g < |s.calls| && KindOf(conn.place) == Held && Owes(call) == Owes(s.calls[g]) - 1
    requires t.conns == s.conns + [conn] && t.calls == s.calls[g := call] && t.idle == s.idle && t.total == s.total
    ensures Balanced(t)
  {
    OwedSet(s.calls, g, call);
    CountAdd(s.conns, conn, Listed);
    CountAdd(s.conns, conn, Held);
    CountAdd(s.conns, conn, Unwanted);
  }

  lemma GrownOk(conns: seq<Conn>, conn: Conn, h: nat, call: Call)
    requires CallOk(conns, h, call)
    ensures CallOk(conns + [conn], h, call) == true
  {
  }

  lemma MakeCalls(s: State, g: nat, t: State, maxRequest: nat)
    requires CallsOk(s) && Enabled(s, Make(g)) && t == Next(s, Make(g), maxRequest)
    ensures CallsOk(t) == true
  {
    forall h | 0 <= h < |t.calls| ensures CallOk(t.conns, h, t.calls[h]) {
      GrownOk(s.conns, Conn(Chosen(g), 0, 0), h, s.calls[h]);
    }
  }

  lemma MakeKeeps(s: State, g: nat, maxRequest: nat)
    requires Inv(s, maxRequest) && Enabled(s, Make(g))
    ensures Inv(Next(s, Make(g), maxRequest), maxRequest) == true
  {
    var t := Next(s, Make(g), maxRequest);
    MakeBalanced(s, g, t.calls[g], Conn(Chosen(g), 0, 0), t);
    MakeCalls(s, g, t, maxRequest);
  }

  /** Steps that change one connection outside the calls. */
  lemma ConnStepKeeps(s: State, t: State, c: nat, conn: Conn, maxRequest: nat)
    requires Inv(s, maxRequest) && c < |s.conns| && s.conns[c].place in {Out, Returning, Dropped}
    requires ConnOk(conn, maxRequest)
    requires t.conns == s.conns[c := conn] && t.calls == s.calls && t.lock == s.lock
    requires if conn.place.Idle? then t.idle == s.idle + [c] else t.idle == s.idle
    requires t.total == s.total - One(conn, Buried)
    ensures Inv(t, maxRequest) == true
  {
    CountSet(s.conns, c, conn, Listed);
    CountSet(s.conns, c, conn, Held);
    CountSet(s.conns, c, conn, Unwanted);
    FreeKeepsCalls(s, t, c, conn);
  }

  lemma ReleaseKeeps(s: State, a: Step, maxRequest: nat)
    requires Inv(s, maxRequest) && Enabled(s, a) && (a.Release? || a.SubtractDropped? || a.PutBack?)
    ensures Inv(Next(s, a, maxRequest), maxRequest) == true
  {
    var t := Next(s, a, maxRequest);
    assert ConnOk(s.conns[a.conn], maxRequest);
    ConnStepKeeps(s, t, a.conn, t.conns[a.conn], maxRequest);
  }

  lemma {:induction false} RunKeeps(run: seq<Step>, maxRequest: nat)
    requires Legal(run, maxRequest)
    ensures Inv(After(run, maxRequest), maxRequest) == true
  {
    if run != [] {
      RunKeeps(run[..|run| - 1], maxRequest);
      StepKeeps(After(run[..|run| - 1], maxRequest), run[|run| - 1], maxRequest);
    }
  }

  lemma StepKeeps(s: State, a: Step, maxRequest: nat)
    requires Inv(s, maxRequest) && Enabled(s, a)
    ensures Inv(Next(s, a, maxRequest), maxRequest) == true
  {
    match a
    case Lock => LockKeeps(s, maxRequest);
    case PopInvalid(g) => PopInvalidKeeps(s, g, maxRequest);
    case PopValid(g) => PopValidKeeps(s, g, maxRequest);
    case DeleteNext(g) => DeleteNextKeeps(s, g, maxRequest);
    case Make(g) => MakeKeeps(s, g, maxRequest);
    case HandOut(g) => HandOutKeeps(s, g, maxRequest);
    case Release(_, _) => ReleaseKeeps(s, a, maxRequest);
    case SubtractDropped(_) => ReleaseKeeps(s, a, maxRequest);
    case PutBack(_) => ReleaseKeeps(s, a, maxRequest);
    case _ => SimpleStepKeeps(s, a, maxRequest);
  }

  // ---------------------------------------------------------------------------------------------
  // The results

  /** After any interleaving, m_total counts the idle connections, those in use, and those that were
      taken out and not yet subtracted, less those made and not yet counted. */
  lemma TotalIsExact(run: seq<Step>, maxRequest: nat)
    requires Legal(run, maxRequest)
    ensures var s := After(run, maxRequest);
            s.total == |s.idle| + Count(s.conns, Held) + Count(s.conns, Unwanted) + Owed(s.calls)
  {
    RunKeeps(run, maxRequest);
  }

  /** An idle connection is listed once, is not handed out, has not been deleted and has served fewer
      requests than the limit. */
  lemma IdleIsFree(run: seq<Step>, maxRequest: nat, i: nat)
    requires Legal(run, maxRequest) && i < |After(run, maxRequest).idle|
    ensures var s := After(run, maxRequest);
            && s.idle[i] < |s.conns|
            && s.conns[s.idle[i]].place == Idle && s.conns[s.idle[i]].deletions == 0
            && s.conns[s.idle[i]].requests < maxRequest
            && forall j :: 0 <= j < |s.idle| && s.idle[j] == s.idle[i] ==> j == i
  {
    RunKeeps(run, maxRequest);
    var s := After(run, maxRequest);
    assert Is(s, s.idle[i], Idle);
    assert ConnOk(s.conns[s.idle[i]], maxRequest);
  }

  /** No connection is deleted twice, and none that is still in use or listed has been deleted. */
  lemma DeletedOnce(run: seq<Step>, maxRequest: nat, c: nat)
    requires Legal(run, maxRequest) && c < |After(run, maxRequest).conns|
    ensures var conn := After(run, maxRequest).conns[c];
            conn.deletions <= 1 && (conn.deletions == 1 <==> conn.place in {Dropped, Dead})
  {
    RunKeeps(run, maxRequest);
    assert ConnOk(After(run, maxRequest).conns[c], maxRequest);
  }

  lemma {:induction false} NothingOwed(calls: seq<Call>)
    requires forall g :: 0 <= g < |calls| ==> calls[g].stage.Over?
    ensures Owed(calls) == 0
  {
    if calls != [] {
      NothingOwed(calls[..|calls| - 1]);
    }
  }

  lemma {:induction false} NoneOf(conns: seq<Conn>, k: Kind)
    requires forall c :: 0 <= c < |conns| ==> KindOf(conns[c].place) != k
    ensures Count(conns, k) == 0
  {
    if conns != [] {
      NoneOf(conns[..|conns| - 1], k);
    }
  }

  /** Between calls, with nothing left to throw away, m_total is the number of idle connections and of
      those in use. */
  lemma QuietTotal(run: seq<Step>, maxRequest: nat)
    requires Legal(run, maxRequest)
    requires forall g :: 0 <= g < |After(run, maxRequest).calls| ==> After(run, maxRequest).calls[g].stage.Over?
    requires forall c :: 0 <= c < |After(run, maxRequest).conns| ==> KindOf(After(run, maxRequest).conns[c].place) != Unwanted
    ensures var s := After(run, maxRequest); s.total == |s.idle| + Count(s.conns, Held)
  {
    TotalIsExact(run, maxRequest);
    NothingOwed(After(run, maxRequest).calls);
    NoneOf(After(run, maxRequest).conns, Unwanted);
  }
}
