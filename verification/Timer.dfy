/** Timers, kept by their manager in a set ordered by fields that change.

    Where a contract says `P(..) == true` it means `P(..)`; the longer form keeps the verifier from
    proving the parts of P one by one. */
module Timers {
  import opened Common

  /** Times are unsigned 64-bit numbers of milliseconds. */
  const TIME := 0x1_0000_0000_0000_0000

  const NEVER := TIME - 1

  const HOUR := 60 * 60 * 1000

  function Plus(x: nat, y: nat): nat {
    (x + y) % TIME
  }

  function Minus(x: nat, y: nat): nat {
    (x - y) % TIME
  }

  class Timer {
    const addr: nat             // where the object lives; the second part of its key
    const recurring: bool
    var ms: nat
    var next: nat
    var cb: Option<nat>
    ghost const callable: bool  // handed out with a non-empty callback
    ghost var delivered: nat    // how often its callback was delivered
    ghost var cancelled: Option<nat>   // how often it had been when cancel returned true

    constructor (addr: nat, ms: nat, cb: Option<nat>, recurring: bool, now: nat)
      ensures this.addr == addr && this.ms == ms && this.cb == cb && this.recurring == recurring
      ensures next == Plus(now, ms) && callable == cb.Some? && delivered == 0 && cancelled == None
    {
      this.addr, this.ms, this.cb, this.recurring := addr, ms, cb, recurring;
      next := Plus(now, ms);
      callable := cb.Some?;
      delivered, cancelled := 0, None;
    }
  }

  /** Timer::Comparator on keys: by deadline, then by address. */
  predicate KeyLess(next: nat, addr: nat, next': nat, addr': nat) {
    next < next' || (next == next' && addr < addr')
  }

  predicate Less(s: Timer, t: Timer)
    reads s, t
  {
    KeyLess(s.next, s.addr, t.next, t.addr)
  }

  /** detectClockRollover: the clock went back by more than an hour.  The subtraction is
      unsigned: within the first hour of the epoch any step back counts. */
  predicate Rollover(previous: nat, now: nat) {
    now < previous && now < Minus(previous, HOUR)
  }

  /** For 64-bit times: the clock went back by more than an hour, or at all within the first hour. */
  lemma RolloverIff(previous: nat, now: nat)
    requires previous < 0x1_0000_0000_0000_0000
    ensures Rollover(previous, now) <==> now < previous && (previous < 3_600_000 || now < previous - 3_600_000)
  {
  }

  class TimerManager {
    var timers: seq<Timer>      // m_timers, in order
    var trickled: bool
    var previousTime: nat
    ghost var all: set<Timer>   // every timer ever handed out
    ghost var live: set<Timer>  // those that still exist: in the set, or someone holds a pointer

    ghost predicate Sorted()
      reads this, timers
    {
      forall i, j :: 0 <= i < j < |timers| ==> Less(timers[i], timers[j])
    }

    /** What is known of one timer, at any time: it is in the set exactly while its callback is
        there; a one-shot timer in the set has not been delivered; a cancelled one has not been
        delivered since. */
    ghost predicate TimerOk(t: Timer)
      reads this, t
    {
      && (t.callable ==> (t in timers <==> t.cb.Some?))
      && (!t.callable ==> t.cb == None)
      && (!t.recurring ==> t.delivered <= if t in timers then 0 else 1)
      && (t.cancelled.Some? ==> t !in timers && t.callable && t.delivered == t.cancelled.value)
    }

    ghost predicate Valid()
      reads this, all, timers
    {
      && Sorted()
      && (forall t :: t in timers ==> t in live)
      && live <= all
      && (forall s, t :: s in live && t in live && s.addr == t.addr ==> s == t)
      && (forall t :: t in all ==> TimerOk(t))
    }

    constructor (now: nat)
      ensures Valid() && timers == [] && all == live == {} && previousTime == now && !trickled
    {
      timers, all, live := [], {}, {};
      trickled := false;
      previousTime := now;
    }

    // -------------------------------------------------------------- the ordered set

    /** What the order is: by deadline, and by address among equal deadlines. */
    lemma SetOrder(i: nat, j: nat)
      requires Sorted() && i < |timers| && j < |timers| && timers[i] != timers[j]
      ensures i < j <==> timers[i].next < timers[j].next
                         || (timers[i].next == timers[j].next && timers[i].addr < timers[j].addr)
    {
      if i < j {
        assert Less(timers[i], timers[j]);
      } else {
        assert Less(timers[j], timers[i]);
      }
    }

    /** lower_bound: the first element that is not below the key. */
    method LowerBound(next: nat, addr: nat) returns (i: nat)
      requires Sorted()
      ensures i <= |timers|
      ensures forall j :: 0 <= j < i ==> KeyLess(timers[j].next, timers[j].addr, next, addr)
      ensures forall j :: i <= j < |timers| ==> !KeyLess(timers[j].next, timers[j].addr, next, addr)
    {
      i := 0;
      while i < |timers| && KeyLess(timers[i].next, timers[i].addr, next, addr)
        invariant i <= |timers|
        invariant forall j :: 0 <= j < i ==> KeyLess(timers[j].next, timers[j].addr, next, addr)
      {
        i := i + 1;
      }
      forall j | i <= j < |timers|
        ensures !KeyLess(timers[j].next, timers[j].addr, next, addr)
      {
        assert i == j || Less(timers[i], timers[j]);
      }
    }

    /** find: the element whose key is equivalent, or the end. */
    method Find(t: Timer) returns (i: nat)
      requires Sorted() && t in live && (forall u :: u in timers ==> u in live)
      requires forall s, u :: s in live && u in live && s.addr == u.addr ==> s == u
      ensures i <= |timers|
      ensures if t in timers then i < |timers| && timers[i] == t else i == |timers|
    {
      i := LowerBound(t.next, t.addr);
      if i < |timers| && KeyLess(t.next, t.addr, timers[i].next, timers[i].addr) {
        forall j | 0 <= j < |timers|
          ensures timers[j] != t
        {
          assert j <= i || Less(timers[i], timers[j]);
        }
        i := |timers|;
      }
    }

    method Erase(i: nat)
      requires Sorted() && i < |timers|
      modifies `timers
      ensures Sorted() && timers == old(timers)[..i] + old(timers)[i + 1..]
      ensures forall u :: u in timers <==> u in old(timers) && u != old(timers)[i]
    {
      ghost var was := timers;
      timers := timers[..i] + timers[i + 1..];
      assert forall j :: 0 <= j < |timers| ==> timers[j] == if j < i then was[j] else was[j + 1];
      forall u
        ensures u in timers <==> u in was && u != was[i]
      {
        if u in was && u != was[i] {
          var j :| 0 <= j < |was| && was[j] == u;
          assert timers[if j < i then j else j - 1] == u;
        }
      }
    }

    lemma Between(was: seq<Timer>, i: nat, t: Timer)
      requires i <= |was| && timers == was[..i] + [t] + was[i..]
      requires forall j, k :: 0 <= j < k < |was| ==> Less(was[j], was[k])
      requires forall j :: 0 <= j < |was| ==> if j < i then Less(was[j], t) else Less(t, was[j])
      ensures Sorted()
    {
      forall j, k | 0 <= j < k < |timers|
        ensures Less(timers[j], timers[k])
      {
        if j == i {
          assert timers[j] == t && timers[k] == was[k - 1];
        } else if k == i {
          assert timers[k] == t && timers[j] == was[j];
        } else {
          var j', k' := if j < i then j else j - 1, if k < i then k else k - 1;
          assert timers[j] == was[j'] && timers[k] == was[k'];
          assert Less(was[j'], was[k']);
        }
      }
    }

    /** insert, for a timer that is not in the set: `i` is where it goes. */
    method Insert(t: Timer) returns (i: nat)
      requires Sorted() && (forall j :: 0 <= j < |timers| ==> timers[j].addr != t.addr)
      modifies `timers
      ensures Sorted() == true
      ensures i <= |old(timers)| && timers == old(timers)[..i] + [t] + old(timers)[i..]
      ensures forall u :: u in timers <==> u in old(timers) || u == t
      ensures i == 0 <==> forall u :: u in timers && u != t ==> Less(t, u)
    {
      i := LowerBound(t.next, t.addr);
      ghost var was := timers;
      timers := timers[..i] + [t] + timers[i..];
      assert forall j :: 0 <= j < |timers| ==> timers[j] == if j < i then was[j] else if j == i then t else was[j - 1];
      assert forall j :: 0 <= j < |was| ==> if j < i then Less(was[j], t) else Less(t, was[j]);
      Between(was, i, t);
      forall u
        ensures u in timers <==> u in was || u == t
      {
        if u in was {
          var j :| 0 <= j < |was| && was[j] == u;
          assert timers[if j < i then j else j + 1] == u;
        }
        if u == t {
          assert timers[i] == t;
        }
      }
      if i > 0 {
        assert timers[0] in timers && timers[0] != t;
      }
    }

    // -------------------------------------------------------------- the operations

    /** Timer::cancel.  The find always succeeds, so that erase gets an element. */
    method Cancel(t: Timer) returns (ok: bool)
      requires Valid() && t in live
      modifies `timers, t`cb, t`cancelled
      ensures Valid() == true
      ensures ok == old(t.cb.Some?)
      ensures ok ==> t.cb == None && t.cancelled == Some(t.delivered) && old(t.cancelled) == None && old(t in timers)
      ensures forall u :: u in timers <==> u in old(timers) && !(ok && u == t)
      ensures !ok ==> t.cb == old(t.cb) && t.cancelled == old(t.cancelled)
    {
      if t.cb.None? {
        return false;
      }
      assert TimerOk(t);
      t.cb := None;
      var i := Find(t);
      Erase(i);
      t.cancelled := Some(t.delivered);
      ok := true;
    }

    /** addTimer under the lock: insert, and tell whether to notify the idle worker. */
    method Add(t: Timer) returns (notify: bool)
      requires Sorted() && (forall j :: 0 <= j < |timers| ==> timers[j].addr != t.addr)
      modifies `timers, `trickled
      ensures Sorted()
      ensures forall u :: u in timers <==> u in old(timers) || u == t
      ensures notify <==> !old(trickled) && forall u :: u in timers && u != t ==> Less(t, u)
      ensures trickled == (old(trickled) || notify)
    {
      var i := Insert(t);
      notify := i == 0 && !trickled;
      if notify {
        trickled := true;
      }
    }

    /** TimerManager::addTimer: a new object, at an address no timer that still exists has. */
    method AddTimer(addr: nat, ms: nat, cb: Option<nat>, recurring: bool, now: nat) returns (t: Timer, notify: bool)
      requires Valid() && forall u :: u in live ==> u.addr != addr
      modifies this
      ensures Valid() && fresh(t) && all == old(all) + {t} && live == old(live) + {t}
      ensures t.next == Plus(now, ms) && t.ms == ms && t.cb == cb && t.recurring == recurring && t.cancelled == None
      ensures forall u :: u in timers <==> u in old(timers) || u == t
      ensures notify <==> !old(trickled) && forall u :: u in timers && u != t ==> Less(t, u)
      ensures trickled == (old(trickled) || notify) && previousTime == old(previousTime)
    {
      t := new Timer(addr, ms, cb, recurring, now);
      notify := Add(t);
      all, live := all + {t}, live + {t};
    }

    /** The last pointer to a timer that is not in the set goes away, and its address is free again. */
    ghost method Release(t: Timer)
      requires Valid() && t in live && t !in timers
      modifies `live
      ensures Valid() && live == old(live) - {t}
    {
      live := live - {t};
    }

    /** Timer::refresh: the deadline moves to now + ms.  Nobody is notified. */
    method Refresh(t: Timer, now: nat) returns (ok: bool)
      requires Valid() && t in live
      modifies `timers, t`next
      ensures Valid() == true
      ensures ok == old(t.cb.Some?)
      ensures t.next == if ok then Plus(now, t.ms) else old(t.next)
      ensures forall u :: u in timers <==> u in old(timers)
    {
      if t.cb.None? {
        return false;
      }
      assert TimerOk(t);
      var i := Find(t);
      if i == |timers| {
        return false;
      }
      Erase(i);
      t.next := Plus(now, t.ms);
      var j := Insert(t);
      forall u | u in all
        ensures TimerOk(u)
      {
        assert old(TimerOk(u));
      }
      ok := true;
    }

    /** Timer::reset: a new period, counted from now or from the start of the old one. */
    method Reset(t: Timer, ms: nat, fromNow: bool, now: nat) returns (ok: bool, notify: bool)
      requires Valid() && t in live
      modifies `timers, `trickled, t`next, t`ms
      ensures Valid() == true
      ensures ok == (old(t.cb.Some?) || (ms == old(t.ms) && !fromNow))
      ensures if ok && !(ms == old(t.ms) && !fromNow)
        then t.ms == ms && t.next == Plus(if fromNow then now else Minus(old(t.next), old(t.ms)), ms)
        else t.ms == old(t.ms) && t.next == old(t.next) && !notify
      ensures ok && !(ms == old(t.ms) && !fromNow) ==>
        (notify <==> !old(trickled) && forall u :: u in timers && u != t ==> Less(t, u))
      ensures forall u :: u in timers <==> u in old(timers)
      ensures trickled == (old(trickled) || notify)
    {
      if ms == t.ms && !fromNow {
        return true, false;
      }
      if t.cb.None? {
        return false, false;
      }
      assert TimerOk(t);
      var i := Find(t);
      if i == |timers| {
        return false, false;
      }
      Erase(i);
      var start := if fromNow then now else Minus(t.next, t.ms);
      t.ms := ms;
      t.next := Plus(start, ms);
      notify := Add(t);
      ok := true;
    }

    /** getNextTimer: how long until the earliest deadline. */
    method GetNextTimer(now: nat) returns (wait: nat)
      requires Valid()
      modifies `trickled
      ensures !trickled
      ensures timers == [] ==> wait == 0xFFFF_FFFF_FFFF_FFFF
      ensures timers != [] ==> wait == if now >= timers[0].next then 0 else timers[0].next - now
      ensures forall u :: u in timers ==> timers[0].next <= u.next
    {
      trickled := false;
      if timers == [] {
        return NEVER;
      }
      var first := timers[0];
      forall u | u in timers
        ensures first.next <= u.next
      {
        var j :| 0 <= j < |timers| && timers[j] == u;
        assert j == 0 || Less(timers[0], timers[j]);
      }
      wait := if now >= first.next then 0 else first.next - now;
    }

    // -------------------------------------------------------------- expiry

    /** How many timers expire at `now`: all of them on a rollover, else those due by then. */
    ghost predicate Due(k: nat, now: nat)
      reads this, timers
    {
      && k <= |timers|
      && (forall j :: 0 <= j < k ==> Rollover(previousTime, now) || timers[j].next <= now)
      && (forall j :: k <= j < |timers| ==> !Rollover(previousTime, now) && timers[j].next > now)
    }

    /** The same by the clock: all of them when it went back by more than an hour, or at all within the
        first hour, and otherwise exactly those whose deadline is not after now. */
    ghost predicate DueByClock(k: nat, now: nat)
      reads this, timers
    {
      if now < previousTime && (previousTime < 3_600_000 || now < previousTime - 3_600_000) then k == |timers|
      else k <= |timers| && forall j :: 0 <= j < |timers| ==> (j < k <==> timers[j].next <= now)
    }

    lemma DueIs(k: nat, now: nat)
      requires Due(k, now)
      ensures previousTime < 0x1_0000_0000_0000_0000 ==> DueByClock(k, now) == true
    {
      if previousTime < 0x1_0000_0000_0000_0000 {
        RolloverIff(previousTime, now);
        assert k < |timers| ==> timers[k].next > now;
      }
    }

    /** Where the expired part ends.  The address of the probe does not matter: the loop walks
        over whatever part of the timers with this very deadline lies behind it. */
    method ExpiredEnd(now: nat, probe: nat) returns (k: nat)
      requires Sorted()
      ensures k <= |timers|
      ensures forall j :: 0 <= j < k ==> timers[j].next <= now
      ensures forall j :: k <= j < |timers| ==> timers[j].next > now
    {
      k := LowerBound(now, probe);
      while k < |timers| && timers[k].next == now
        invariant k <= |timers|
        invariant forall j :: 0 <= j < k ==> timers[j].next <= now
        invariant forall j :: k <= j < |timers| ==> timers[j].next >= now
      {
        k := k + 1;
      }
      forall j | k <= j < |timers|
        ensures timers[j].next > now
      {
        assert j == k || Less(timers[k], timers[j]);
      }
    }

    /** listExpiredCb: the callbacks of exactly the timers due, in the order of their deadlines.
        A recurring timer is armed again at now + period, a one-shot timer is used up. */
    method ListExpired(now: nat, probe: nat) returns (cbs: seq<Option<nat>>, ghost k: nat)
      requires Valid()
      modifies `timers, `previousTime, timers
      ensures Valid()
      ensures old(Due(k, now)) && |cbs| == k && forall j :: 0 <= j < k ==> cbs[j] == old(timers[j].cb)
      ensures old(previousTime) < 0x1_0000_0000_0000_0000 ==> old(DueByClock(k, now)) == true
      ensures previousTime == if old(timers) == [] then old(previousTime) else now
      ensures forall u :: u in timers <==> u in old(timers) && (u in old(timers)[..k] ==> u.recurring)
      ensures forall u :: u in old(timers)[..k] ==> Delivered(u, now, old(u.next), old(u.cb), old(u.delivered))
      ensures forall u :: u in old(timers)[k..] ==> u.delivered == old(u.delivered) && u.next == old(u.next) && u.cb == old(u.cb)
      ensures forall u :: u in old(timers) ==> u.ms == old(u.ms) && u.cancelled == old(u.cancelled)
      // without a rollover, what is left is due after now exactly when each period armed again ends after now
      ensures !old(Rollover(previousTime, now)) ==>
        ((forall u :: u in timers ==> u.next > now) <==> (forall u :: u in old(timers)[..k] && u.recurring ==> Plus(now, u.ms) > now))
    {
      if timers == [] {
        DueIs(0, now);
        return [], 0;
      }
      var end := DueEnd(now, probe);
      k := end;
      DueIs(k, now);
      previousTime := now;
      cbs := TakeOut(end, now);
    }

    /** The rollover test, the early return and the search. */
    method DueEnd(now: nat, probe: nat) returns (end: nat)
      requires Sorted() && timers != []
      ensures Due(end, now)
    {
      var rollover := Rollover(previousTime, now);
      if !rollover && timers[0].next > now {
        FirstIsLeast();
        return 0;
      }
      end := |timers|;
      if !rollover {
        end := ExpiredEnd(now, probe);
      }
    }

    /** The first `k` timers leave the set, and the recurring ones come back. */
    method TakeOut(k: nat, now: nat) returns (cbs: seq<Option<nat>>)
      requires Valid() && k <= |timers|
      modifies `timers, timers
      ensures Valid() == true
      ensures |cbs| == k && forall j :: 0 <= j < k ==> cbs[j] == old(timers[j].cb)
      ensures forall u :: u in timers <==> u in old(timers) && (u in old(timers)[..k] ==> u.recurring)
      ensures forall u :: u in old(timers)[..k] ==> Delivered(u, now, old(u.next), old(u.cb), old(u.delivered))
      ensures forall u :: u in old(timers)[k..] ==> u.delivered == old(u.delivered) && u.next == old(u.next) && u.cb == old(u.cb)
      ensures forall u :: u in old(timers) ==> u.ms == old(u.ms) && u.cancelled == old(u.cancelled)
    {
      Distinct();
      var expired := timers[..k];
      timers := timers[k..];
      ghost var rest := timers;
      assert forall u :: u in old(timers) <==> u in expired || u in rest by {
        assert old(timers) == expired + rest;
      }
      cbs := Deliver(expired, now);
      forall t | t in all
        ensures TimerOk(t)
      {
        assert old(TimerOk(t));
      }
    }

    lemma Distinct()
      requires Sorted()
      ensures forall i, j :: 0 <= i < j < |timers| ==> timers[i] != timers[j]
    {
      forall i, j | 0 <= i < j < |timers|
        ensures timers[i] != timers[j]
      {
        assert Less(timers[i], timers[j]);
      }
    }

    lemma FirstIsLeast()
      requires Sorted() && timers != []
      ensures forall j :: 0 <= j < |timers| ==> timers[0].next <= timers[j].next
    {
      forall j | 0 <= j < |timers|
        ensures timers[0].next <= timers[j].next
      {
        assert j == 0 || Less(timers[0], timers[j]);
      }
    }

    /** One round of the loop over the timers taken out of the set. */
    method DeliverOne(t: Timer, now: nat) returns (cb: Option<nat>)
      requires Sorted() && forall j :: 0 <= j < |timers| ==> timers[j].addr != t.addr
      modifies `timers, t`next, t`cb, t`delivered
      ensures Sorted() && cb == old(t.cb) && Delivered(t, now, old(t.next), old(t.cb), old(t.delivered))
      ensures forall u :: u in timers <==> u in old(timers) || (u == t && t.recurring)
    {
      cb := t.cb;
      t.delivered := t.delivered + 1;
      if t.recurring {
        t.next := Plus(now, t.ms);
        var i := Insert(t);
      } else {
        t.cb := None;
      }
    }

    ghost predicate Delivered(t: Timer, now: nat, next: nat, cb: Option<nat>, delivered: nat)
      reads t
    {
      && t.delivered == delivered + 1
      && t.next == (if t.recurring then Plus(now, t.ms) else next)
      && t.cb == (if t.recurring then cb else None)
    }

    method Deliver(expired: seq<Timer>, now: nat) returns (cbs: seq<Option<nat>>)
      requires Sorted() && (forall u :: u in timers || u in expired ==> u in live)
      requires forall s, t :: s in live && t in live && s.addr == t.addr ==> s == t
      requires forall i, j :: 0 <= i < j < |expired| ==> expired[i] != expired[j]
      requires forall u :: u in expired ==> u !in timers
      modifies `timers, expired
      ensures Sorted() && |cbs| == |expired|
      ensures forall j :: 0 <= j < |expired| ==> cbs[j] == old(expired[j].cb)
      ensures forall u :: u in expired ==> Delivered(u, now, old(u.next), old(u.cb), old(u.delivered))
      ensures forall u :: u in expired ==> u.ms == old(u.ms) && u.cancelled == old(u.cancelled)
      ensures forall u :: u in timers <==> u in old(timers) || (u in expired && u.recurring)
    {
      cbs := [];
      var m := 0;
      while m < |expired|
        invariant 0 <= m <= |expired| && |cbs| == m && Sorted()
        invariant forall j :: 0 <= j < m ==> cbs[j] == old(expired[j].cb)
        invariant forall j :: 0 <= j < m ==> Delivered(expired[j], now, old(expired[j].next), old(expired[j].cb), old(expired[j].delivered))
        invariant forall j :: m <= j < |expired| ==>
          expired[j].next == old(expired[j].next) && expired[j].cb == old(expired[j].cb) && expired[j].delivered == old(expired[j].delivered)
        invariant forall j :: 0 <= j < |expired| ==> expired[j].ms == old(expired[j].ms) && expired[j].cancelled == old(expired[j].cancelled)
        invariant forall u :: u in timers <==> u in old(timers) || (u in expired[..m] && u.recurring)
      {
        var t := expired[m];
        forall j | 0 <= j < |timers|
          ensures timers[j].addr != t.addr
        {
          assert timers[j] in timers && t !in expired[..m] && t in expired;
        }
        var cb := DeliverOne(t, now);
        cbs := cbs + [cb];
        assert expired[..m + 1] == expired[..m] + [t];
        m := m + 1;
      }
      assert expired[..m] == expired;
    }
  }

  /** A period ends after now exactly when it is positive and the sum does not wrap around. */
  lemma PlusIsLater(now: nat, ms: nat)
    requires now < TIME && ms < TIME
    ensures Plus(now, ms) > now <==> ms > 0 && now + ms < TIME
  {
    if now + ms >= TIME {
      assert Plus(now, ms) == now + ms - TIME;
    }
  }

  // ---------------------------------------------------------------- histories

  /** One call on the manager.  Timers are named by their place among those that still exist. */
  datatype Call =
    | CallAdd(addr: nat, ms: nat, cb: Option<nat>, recurring: bool, now: nat)
    | CallCancel(i: nat)
    | CallRefresh(i: nat, now: nat)
    | CallReset(i: nat, ms: nat, fromNow: bool, now: nat)
    | CallNext(now: nat)
    | CallExpired(now: nat, probe: nat)
    | DropLast(i: nat)

  function Others(handles: seq<Timer>, t: Timer): (r: seq<Timer>)
    ensures forall u :: u in r ==> u in handles && u != t
    ensures forall u :: u in handles && u != t ==> u in r
  {
    if handles == [] then [] else Others(handles[..|handles| - 1], t) + if handles[|handles| - 1] == t then [] else [handles[|handles| - 1]]
  }

  /** A call whose timer does not exist, or that would allocate at an address in use, does nothing. */
  method Perform(m: TimerManager, handles: seq<Timer>, c: Call) returns (handles': seq<Timer>)
    requires m.Valid() && forall t :: t in handles <==> t in m.live
    modifies m, m.all
    ensures m.Valid() && (forall t :: t in handles' <==> t in m.live)
    ensures old(m.all) <= m.all && fresh(m.all - old(m.all))
    ensures forall t :: t in old(m.all) && old(t.cancelled).Some? ==> t.cancelled == old(t.cancelled)
  {
    handles' := handles;
    match c {
      case CallAdd(addr, ms, cb, recurring, now) =>
        if forall t :: t in handles ==> t.addr != addr {
          var t, _ := m.AddTimer(addr, ms, cb, recurring, now);
          handles' := handles + [t];
        }
      case CallCancel(i) =>
        if i < |handles| {
          var _ := m.Cancel(handles[i]);
        }
      case CallRefresh(i, now) =>
        if i < |handles| {
          var _ := m.Refresh(handles[i], now);
        }
      case CallReset(i, ms, fromNow, now) =>
        if i < |handles| {
          var _, _ := m.Reset(handles[i], ms, fromNow, now);
        }
      case CallNext(now) =>
        var _ := m.GetNextTimer(now);
      case CallExpired(now, probe) =>
        var _, _ := m.ListExpired(now, probe);
      case DropLast(i) =>
        if i < |handles| && handles[i] !in m.timers {
          m.Release(handles[i]);
          handles' := Others(handles, handles[i]);
        }
    }
  }

  /** Any history of calls: a timer that was cancelled before it is not delivered in it, and a
      one-shot timer is delivered at most once over its whole life. */
  method History(m: TimerManager, start: seq<Timer>, calls: seq<Call>)
    requires m.Valid() && forall t :: t in start <==> t in m.live
    modifies m, m.all
    ensures m.Valid()
    ensures forall t :: t in old(m.all) && old(t.cancelled).Some? ==> t.delivered == old(t.delivered)
    ensures forall t :: t in m.all && !t.recurring ==> t.delivered <= 1
    ensures forall t :: t in m.all && t.callable ==> (t in m.timers <==> t.cb.Some?)
  {
    var handles, i := start, 0;
    while i < |calls|
      invariant 0 <= i <= |calls|
      invariant m.Valid() && (forall t :: t in handles <==> t in m.live)
      invariant old(m.all) <= m.all && fresh(m.all - old(m.all))
      invariant forall t :: t in old(m.all) && old(t.cancelled).Some? ==> t.cancelled == old(t.cancelled)
    {
      handles := Perform(m, handles, calls[i]);
      i := i + 1;
    }
    forall t | t in old(m.all) && old(t.cancelled).Some?
      ensures t.delivered == old(t.delivered)
    {
      assert m.TimerOk(t) && old(m.TimerOk(t));
    }
    forall t | t in m.all
      ensures m.TimerOk(t)
    {
    }
  }
}
