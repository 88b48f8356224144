/** The connection pool over whole runs: the list is first in, first out, and a connection goes back to it
    exactly when it is usable and has served fewer requests than the limit.

    Where a contract says `P(..) == true` it means `P(..)`; the longer form keeps the verifier from
    proving the parts of P one by one. */
module PoolRuns {
  import opened Common
  import opened Pool

  /** How often connection `c` was released. */
  function Releases(run: seq<Step>, c: nat): nat {
    if run == [] then 0
    else Releases(run[..|run| - 1], c) + if run[|run| - 1].Release? && run[|run| - 1].conn == c then 1 else 0
  }

  /** The connections that were put back, in order. */
  function PutBacks(run: seq<Step>): seq<nat> {
    if run == [] then []
    else PutBacks(run[..|run| - 1]) + if run[|run| - 1].PutBack? then [run[|run| - 1].conn] else []
  }

  /** How many were popped, as usable or not. */
  function Pops(run: seq<Step>): nat {
    if run == [] then 0
    else Pops(run[..|run| - 1]) + if run[|run| - 1].PopInvalid? || run[|run| - 1].PopValid? then 1 else 0
  }

  lemma RunSnoc(run: seq<Step>, a: Step, maxRequest: nat)
    requires Legal(run, maxRequest) && Enabled(After(run, maxRequest), a)
    ensures Legal(run + [a], maxRequest) && After(run + [a], maxRequest) == Next(After(run, maxRequest), a, maxRequest)
  {
    assert (run + [a])[..|run|] == run;
  }

  /** The lock is held exactly by the call that is in its loop. */
  ghost predicate LockIsLoop(s: State) {
    && (forall g :: 0 <= g < |s.calls| ==> (s.calls[g].stage == Popping <==> s.lock == Some(g)))
    && (s.lock.Some? ==> s.lock.value < |s.calls|)
  }

  lemma LockStep(s: State, a: Step, maxRequest: nat)
    requires Enabled(s, a) && LockIsLoop(s)
    ensures LockIsLoop(Next(s, a, maxRequest)) == true
  {
  }

  /** In every run, one call at a time is in its loop, and nobody else holds the lock. */
  lemma {:induction false} LockedByLoop(run: seq<Step>, maxRequest: nat)
    requires Legal(run, maxRequest)
    ensures LockIsLoop(After(run, maxRequest)) == true
  {
    if run != [] {
      LockedByLoop(run[..|run| - 1], maxRequest);
      LockStep(After(run[..|run| - 1], maxRequest), run[|run| - 1], maxRequest);
    }
  }

  // ---------------------------------------------------------------------------------------------
  // Requests

  /** No step but a release changes the number of requests of a connection, and a new one has none. */
  lemma RequestsStep(s: State, a: Step, maxRequest: nat, c: nat)
    requires Enabled(s, a) && c < |Next(s, a, maxRequest).conns|
    ensures var n := if c < |s.conns| then s.conns[c].requests else 0;
            Next(s, a, maxRequest).conns[c].requests == n + if a.Release? && a.conn == c then 1 else 0
    ensures c >= |s.conns| ==> a.Make?
  {
  }

  lemma {:induction false} RequestsAre(run: seq<Step>, maxRequest: nat, c: nat)
    requires Legal(run, maxRequest)
    ensures Releases(run, c) == if c < |After(run, maxRequest).conns| then After(run, maxRequest).conns[c].requests else 0
  {
    if run != [] {
      var past, a := run[..|run| - 1], run[|run| - 1];
      RequestsAre(past, maxRequest, c);
      var s := After(past, maxRequest);
      ConnsStay(s, a, maxRequest);
      if c < |Next(s, a, maxRequest).conns| {
        RequestsStep(s, a, maxRequest, c);
      }
    }
  }

  lemma ConnsStay(s: State, a: Step, maxRequest: nat)
    requires Enabled(s, a)
    ensures |Next(s, a, maxRequest).conns| == |s.conns| + if a.Make? then 1 else 0
    ensures a.Release? ==> a.conn < |s.conns|
  {
  }

  /** In every run, a released connection is deleted exactly when it is unusable or this was its last
      allowed request, and is otherwise on its way back to the list. */
  lemma ReleasedIff(run: seq<Step>, maxRequest: nat, c: nat, unusable: bool)
    requires Legal(run, maxRequest) && Enabled(After(run, maxRequest), Release(c, unusable))
    ensures Legal(run + [Release(c, unusable)], maxRequest)
    ensures var conn := After(run + [Release(c, unusable)], maxRequest).conns[c];
            var last := unusable || Releases(run, c) + 1 >= maxRequest;
            && (conn.deletions == 1 <==> last) && (conn.place == Dropped <==> last) && (conn.place == Returning <==> !last)
  {
    RunSnoc(run, Release(c, unusable), maxRequest);
    RequestsAre(run, maxRequest, c);
    DeletedOnce(run, maxRequest, c);
    DeletedOnce(run + [Release(c, unusable)], maxRequest, c);
  }

  // ---------------------------------------------------------------------------------------------
  // The list

  lemma ListStep(s: State, a: Step, maxRequest: nat)
    requires Enabled(s, a)
    ensures var t := Next(s, a, maxRequest);
            if a.PopInvalid? || a.PopValid? then s.idle != [] && t.idle == s.idle[1..]
            else t.idle == s.idle + if a.PutBack? then [a.conn] else []
  {
  }

  /** In every run, the list holds the connections that were put back and not popped since, the oldest first. */
  lemma {:induction false} ListIsQueue(run: seq<Step>, maxRequest: nat)
    requires Legal(run, maxRequest)
    ensures Pops(run) <= |PutBacks(run)| && After(run, maxRequest).idle == PutBacks(run)[Pops(run)..]
  {
    if run != [] {
      var past, a := run[..|run| - 1], run[|run| - 1];
      ListIsQueue(past, maxRequest);
      ListStep(After(past, maxRequest), a, maxRequest);
    }
  }

  /** A call takes the oldest connection of the list, and keeps it for its caller or for deletion. */
  lemma PopsOldest(run: seq<Step>, maxRequest: nat, g: nat, valid: bool)
    requires Legal(run, maxRequest) && Enabled(After(run, maxRequest), if valid then PopValid(g) else PopInvalid(g))
    ensures var a := if valid then PopValid(g) else PopInvalid(g);
            && Legal(run + [a], maxRequest) && Pops(run) < |PutBacks(run)|
            && var c, t := PutBacks(run)[Pops(run)], After(run + [a], maxRequest);
               && c < |t.conns| && t.conns[c].place == (if valid then Chosen(g) else Discarded(g))
               && if valid then t.calls[g].ptr == Some(c) else t.calls[g].invalid == After(run, maxRequest).calls[g].invalid + [c]
  {
    RunSnoc(run, if valid then PopValid(g) else PopInvalid(g), maxRequest);
    ListIsQueue(run, maxRequest);
  }

  /** What a call hands out is what it popped as usable, or has made. */
  lemma HandsOutOwn(run: seq<Step>, maxRequest: nat, g: nat)
    requires Legal(run, maxRequest) && Enabled(After(run, maxRequest), HandOut(g))
    ensures var s := After(run, maxRequest);
            && Legal(run + [HandOut(g)], maxRequest) && s.calls[g].ptr.Some? && s.calls[g].ptr.value < |s.conns|
            && s.conns[s.calls[g].ptr.value].place == Chosen(g)
            && After(run + [HandOut(g)], maxRequest).conns[s.calls[g].ptr.value].place == Out
  {
    RunSnoc(run, HandOut(g), maxRequest);
    RunKeeps(run, maxRequest);
    assert CallOk(After(run, maxRequest).conns, g, After(run, maxRequest).calls[g]);
  }
}
