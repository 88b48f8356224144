/** The event table of the I/O manager: which fiber or callback waits for which file descriptor,
    and what the kernel has been asked to watch.

    Where a contract says `P(..) == true` it means `P(..)`; the longer form keeps the verifier from
    proving the parts of P one by one. */
module EventTable {
  import opened Common

  datatype Event = Read | Write

  /** A mask of events: READ is bit 0 and WRITE is bit 2. */
  datatype Bits = Bits(read: bool, write: bool) {
    predicate Has(e: Event) {
      if e == Read then read else write
    }

    function With(e: Event): Bits {
      if e == Read then Bits(true, write) else Bits(read, true)
    }

    function Without(e: Event): Bits {
      if e == Read then Bits(false, write) else Bits(read, false)
    }
  }

  const NONE := Bits(false, false)

  function And(a: Bits, b: Bits): Bits {
    Bits(a.read && b.read, a.write && b.write)
  }

  function Minus(a: Bits, b: Bits): Bits {
    Bits(a.read && !b.read, a.write && !b.write)
  }

  /** What a registration waits to hand to a scheduler: a callback, or else a fiber. */
  datatype Work = Work(scheduler: nat, fiber: Option<nat>, cb: Option<nat>) {
    predicate Single() {
      fiber.Some? <==> cb.None?
    }
  }

  /** IOManager::FdContext::EventContext. */
  datatype Slot = Slot(scheduler: Option<nat>, fiber: Option<nat>, cb: Option<nat>)

  const NO_SLOT := Slot(None, None, None)

  function SlotOf(w: Work): Slot {
    Slot(Some(w.scheduler), w.fiber, w.cb)
  }

  datatype Key = Key(fd: nat, event: Event)

  // ---------------------------------------------------------------------------------------------
  // The books: registrations are numbered in the order they were made

  /** A registration waits, or its waiter went to the queue at position `at`, or it was deleted. */
  datatype Fate = Live(key: Key) | Woken(at: nat) | Deleted

  datatype Step = Add(key: Key, work: Work) | Wake(key: Key) | Delete(key: Key)

  /** `table` holds the number of each live registration; `works` and `fates` are indexed by number;
      `queue` is what was handed to schedulers and `woken` the registrations it came from. */
  datatype Books = Books(table: map<Key, nat>, works: seq<Work>, fates: seq<Fate>, woken: seq<nat>, queue: seq<Work>) {

    function Apply(s: Step): Books {
      match s
      case Add(k, w) => Books(table[k := |works|], works + [w], fates + [Live(k)], woken, queue)
      case Wake(k) =>
        if k in table && table[k] < |fates| == |works| then
          Books(table - {k}, works, fates[table[k] := Woken(|queue|)], woken + [table[k]], queue + [works[table[k]]])
        else this
      case Delete(k) =>
        if k in table && table[k] < |fates| then
          Books(table - {k}, works, fates[table[k] := Deleted], woken, queue)
        else this
    }

    /** A step the code takes: a registration is added where there is none, and woken or deleted
        where there is one. */
    predicate Allows(s: Step) {
      s.Add? <==> s.key !in table
    }

    /** The table lists exactly the live registrations, and the queue positions match exactly the
        woken ones: no waiter is queued twice, none is queued while still registered, and none that
        was deleted is queued. */
    ghost predicate Exact() {
      && |fates| == |works| && |queue| == |woken|
      && (forall k :: k in table ==> table[k] < |fates| && fates[table[k]] == Live(k))
      && (forall id :: 0 <= id < |fates| && fates[id].Live? ==> fates[id].key in table && table[fates[id].key] == id)
      && (forall i :: 0 <= i < |woken| ==> woken[i] < |fates| && fates[woken[i]] == Woken(i))
      && (forall id :: 0 <= id < |fates| && fates[id].Woken? ==> fates[id].at < |woken| && woken[fates[id].at] == id)
      && (forall i :: 0 <= i < |queue| ==> queue[i] == works[woken[i]])
    }
  }

  const NO_BOOKS := Books(map[], [], [], [], [])

  ghost function Replay(h: seq<Step>): Books {
    if h == [] then NO_BOOKS else Replay(h[..|h| - 1]).Apply(h[|h| - 1])
  }

  ghost predicate Lawful(h: seq<Step>) {
    h == [] || (Lawful(h[..|h| - 1]) && Replay(h[..|h| - 1]).Allows(h[|h| - 1]))
  }

  lemma ReplaySnoc(h: seq<Step>, s: Step)
    ensures Replay(h + [s]) == Replay(h).Apply(s)
    ensures Lawful(h + [s]) == (Lawful(h) && Replay(h).Allows(s))
  {
    assert (h + [s])[..|h|] == h;
  }

  lemma AddExact(b: Books, k: Key, w: Work)
    requires b.Exact() && k !in b.table
    ensures b.Apply(Add(k, w)).Exact() == true
  {
  }

  lemma LeaveExact(b: Books, s: Step)
    requires b.Exact() && !s.Add? && s.key in b.table
    ensures b.Apply(s).Exact() == true
  {
  }

  /** After any run of steps the books are exact. */
  lemma {:induction false} EveryWakeOnce(h: seq<Step>)
    requires Lawful(h)
    ensures Replay(h).Exact() == true
  {
    if h != [] {
      var t, s := h[..|h| - 1], h[|h| - 1];
      EveryWakeOnce(t);
      if s.Add? {
        AddExact(Replay(t), s.key, s.work);
      } else {
        LeaveExact(Replay(t), s);
      }
    }
  }

  /** What a step does to the table, the list of waiters, the queue and the number of registrations. */
  ghost predicate Changes(b: Books, s: Step, c: Books) {
    match s
    case Add(k, w) =>
      && c.table == b.table[k := |b.works|] && c.works == b.works + [w] && c.queue == b.queue
      && |c.table| == |b.table| + 1
    case Wake(k) =>
      && k in b.table && b.table[k] < |b.works|
      && c.table == b.table - {k} && c.works == b.works && c.queue == b.queue + [b.works[b.table[k]]]
      && |c.table| == |b.table| - 1
    case Delete(k) =>
      && k in b.table
      && c.table == b.table - {k} && c.works == b.works && c.queue == b.queue
      && |c.table| == |b.table| - 1
  }

  /** A step taken by the code, whose books are exact. */
  lemma Takes(b: Books, s: Step)
    requires b.Allows(s)
    requires !s.Add? ==> b.table[s.key] < |b.fates| == |b.works|
    ensures Changes(b, s, b.Apply(s))
  {
    if s.Add? {
      assert b.Apply(s).table.Keys == b.table.Keys + {s.key};
    } else {
      assert b.Apply(s).table.Keys == b.table.Keys - {s.key};
    }
  }

  lemma InRange(h: seq<Step>, k: Key)
    requires Lawful(h) && k in Replay(h).table
    ensures Replay(h).table[k] < |Replay(h).fates| == |Replay(h).works|
  {
    EveryWakeOnce(h);
  }

  lemma StepIs(h: seq<Step>, s: Step)
    requires Lawful(h) && Replay(h).Allows(s)
    ensures Lawful(h + [s]) && Changes(Replay(h), s, Replay(h + [s])) == true
  {
    ReplaySnoc(h, s);
    if !s.Add? {
      InRange(h, s.key);
    }
    Takes(Replay(h), s);
  }

  /** A step leaves the registrations of all other descriptors alone. */
  ghost predicate Elsewhere(b: Books, c: Books, fd: nat) {
    && (forall k: Key :: k.fd != fd ==> (k in c.table <==> k in b.table))
    && (forall k: Key :: k.fd != fd && k in c.table ==> c.table[k] == b.table[k])
    && b.works <= c.works
  }

  lemma ChangesElsewhere(b: Books, s: Step, c: Books)
    requires Changes(b, s, c) == true
    ensures Elsewhere(b, c, s.key.fd) == true
  {
  }

  /** The events registered on `fd`. */
  ghost function Mask(b: Books, fd: nat): Bits {
    Bits(Key(fd, Read) in b.table, Key(fd, Write) in b.table)
  }

  /** The kernel watches exactly what is registered. */
  ghost predicate Watched(kernel: map<nat, Bits>, b: Books) {
    && (forall fd :: fd in kernel <==> Mask(b, fd) != NONE)
    && (forall fd :: fd in kernel ==> kernel[fd] == Mask(b, fd))
  }

  ghost function Watching(kernel: map<nat, Bits>, fd: nat, mask: Bits): map<nat, Bits> {
    if mask == NONE then kernel - {fd} else kernel[fd := mask]
  }

  lemma StillWatched(kernel: map<nat, Bits>, b: Books, s: Step, c: Books)
    requires Watched(kernel, b) && Changes(b, s, c)
    ensures Mask(c, s.key.fd) == Stepped(Mask(b, s.key.fd), s)
    ensures Watched(Watching(kernel, s.key.fd, Mask(c, s.key.fd)), c) == true
  {
    ChangesElsewhere(b, s, c);
    WatchedElsewhere(kernel, b, c, s.key.fd);
  }

  lemma WatchedElsewhere(kernel: map<nat, Bits>, b: Books, c: Books, fd: nat)
    requires Watched(kernel, b) && Elsewhere(b, c, fd)
    ensures Watched(Watching(kernel, fd, Mask(c, fd)), c) == true
  {
    forall x: nat | x != fd ensures Mask(c, x) == Mask(b, x) {
    }
  }

  /** The bits after a step on them. */
  function Stepped(m: Bits, s: Step): Bits {
    if s.Add? then m.With(s.key.event) else m.Without(s.key.event)
  }

  /** A step followed by the matching epoll_ctl keeps the kernel in agreement. */
  lemma StepWatched(kernel: map<nat, Bits>, h: seq<Step>, s: Step)
    requires Lawful(h) && Replay(h).Allows(s) && Watched(kernel, Replay(h))
    ensures Watched(Watching(kernel, s.key.fd, Stepped(Mask(Replay(h), s.key.fd), s)), Replay(h + [s])) == true
  {
    StepIs(h, s);
    StillWatched(kernel, Replay(h), s, Replay(h + [s]));
  }

  /** The wake-ups of one report, in the order the idle loop makes them. */
  function Wakes(fd: nat, m: Bits): seq<Step> {
    (if m.read then [Wake(Key(fd, Read))] else []) + (if m.write then [Wake(Key(fd, Write))] else [])
  }

  lemma WatchingTwice(kernel: map<nat, Bits>, fd: nat, m: Bits, n: Bits)
    ensures Watching(Watching(kernel, fd, m), fd, n) == Watching(kernel, fd, n)
  {
  }

  lemma BothWatched(kernel: map<nat, Bits>, h: seq<Step>, fd: nat)
    requires Lawful(h) && Watched(kernel, Replay(h)) && Mask(Replay(h), fd) == Bits(true, true)
    ensures Watched(Watching(kernel, fd, NONE), Replay(h + [Wake(Key(fd, Read))] + [Wake(Key(fd, Write))])) == true
  {
    var r, w := Wake(Key(fd, Read)), Wake(Key(fd, Write));
    StepWatched(kernel, h, r);
    MaskOf(h, r);
    StepWatched(Watching(kernel, fd, Bits(false, true)), h + [r], w);
    WatchingTwice(kernel, fd, Bits(false, true), NONE);
  }

  lemma MaskOf(h: seq<Step>, s: Step)
    requires Lawful(h) && Replay(h).Allows(s)
    ensures Lawful(h + [s]) && Mask(Replay(h + [s]), s.key.fd) == Stepped(Mask(Replay(h), s.key.fd), s)
  {
    StepIs(h, s);
  }

  lemma ForgottenIff(kernel: map<nat, Bits>, b: Books, fd: nat)
    requires Watched(kernel, b)
    ensures Watched(kernel - {fd}, b) == (Mask(b, fd) == NONE)
  {
  }

  lemma WakesWatched(kernel: map<nat, Bits>, h: seq<Step>, fd: nat, m: Bits)
    requires Lawful(h) && Watched(kernel, Replay(h)) && And(m, Mask(Replay(h), fd)) == m != NONE
    ensures Watched(Watching(kernel, fd, Minus(Mask(Replay(h), fd), m)), Replay(h + Wakes(fd, m))) == true
  {
    if m.read && m.write {
      BothWatched(kernel, h, fd);
      assert h + [Wake(Key(fd, Read))] + [Wake(Key(fd, Write))] == h + Wakes(fd, m);
    } else {
      StepWatched(kernel, h, Wake(Key(fd, if m.read then Read else Write)));
    }
  }

  /** The waiter registered under `k`, if there is one. */
  ghost function WaiterOf(b: Books, k: Key): seq<Work> {
    if k in b.table && b.table[k] < |b.works| then [b.works[b.table[k]]] else []
  }

  /** From `b` to `c` the waiters of `fd` for READ, if `read`, and for WRITE, if `write`, went from the table to
      the queue, in this order, and nothing else changed. */
  ghost predicate Woke(b: Books, c: Books, fd: nat, read: bool, write: bool) {
    && (Key(fd, Read) in c.table <==> Key(fd, Read) in b.table && !read)
    && (Key(fd, Write) in c.table <==> Key(fd, Write) in b.table && !write)
    && (forall k :: k in c.table ==> k in b.table && c.table[k] == b.table[k])
    && (forall k :: k in b.table && k.fd != fd ==> k in c.table)
    && c.works == b.works
    && c.queue == b.queue + (if read then WaiterOf(b, Key(fd, Read)) else []) + (if write then WaiterOf(b, Key(fd, Write)) else [])
  }

  lemma WokeOne(h: seq<Step>, fd: nat, e: Event)
    requires Lawful(h) && Key(fd, e) in Replay(h).table
    ensures Woke(Replay(h), Replay(h + [Wake(Key(fd, e))]), fd, e == Read, e == Write) == true
  {
    StepIs(h, Wake(Key(fd, e)));
    ChangesWoke(Replay(h), Replay(h + [Wake(Key(fd, e))]), fd, e);
  }

  lemma ChangesWoke(b: Books, c: Books, fd: nat, e: Event)
    requires Changes(b, Wake(Key(fd, e)), c)
    ensures Woke(b, c, fd, e == Read, e == Write) == true
  {
  }

  lemma WokeTwo(b: Books, c: Books, d: Books, fd: nat)
    requires Woke(b, c, fd, true, false) && Woke(c, d, fd, false, true)
    ensures Woke(b, d, fd, true, true) == true
  {
    assert WaiterOf(c, Key(fd, Write)) == WaiterOf(b, Key(fd, Write));
  }

  /** The wake-ups for a mask of registered events. */
  lemma WakesWoke(h: seq<Step>, fd: nat, m: Bits)
    requires Lawful(h) && And(m, Mask(Replay(h), fd)) == m
    ensures Woke(Replay(h), Replay(h + Wakes(fd, m)), fd, m.read, m.write) == true
  {
    if m.read && m.write {
      var r, w := Wake(Key(fd, Read)), Wake(Key(fd, Write));
      WokeOne(h, fd, Read);
      MaskOf(h, r);
      WokeOne(h + [r], fd, Write);
      WokeTwo(Replay(h), Replay(h + [r]), Replay(h + [r] + [w]), fd);
      assert h + [r] + [w] == h + Wakes(fd, m);
    } else if m.read || m.write {
      WokeOne(h, fd, if m.read then Read else Write);
    } else {
      assert h + Wakes(fd, m) == h;
    }
  }

  // ---------------------------------------------------------------------------------------------

  class FdContext {
    const fd: nat
    var events: Bits
    var read: Slot
    var write: Slot

    constructor (fd: nat)
      ensures this.fd == fd && events == NONE && read == NO_SLOT && write == NO_SLOT
    {
      this.fd := fd;
      events, read, write := NONE, NO_SLOT, NO_SLOT;
    }

    function GetContext(e: Event): Slot
      reads this
    {
      if e == Read then read else write
    }

    method SetContext(e: Event, s: Slot)
      modifies `read, `write
      ensures GetContext(e) == s && forall o :: o != e ==> GetContext(o) == old(GetContext(o))
    {
      if e == Read {
        read := s;
      } else {
        write := s;
      }
    }

    /** Bit and slot of `e` say what the table says. */
    ghost predicate Shows(e: Event, b: Books)
      reads this
    {
      if Key(fd, e) in b.table then
        var id := b.table[Key(fd, e)];
        events.Has(e) && id < |b.works| && b.works[id].Single() && GetContext(e) == SlotOf(b.works[id])
      else
        !events.Has(e) && GetContext(e) == NO_SLOT
    }

    ghost predicate Agrees(b: Books)
      reads this
    {
      Shows(Read, b) && Shows(Write, b)
    }

    /** triggerEvent: None when its assertion fails.  The waiter is swapped out of the slot. */
    method TriggerEvent(e: Event) returns (r: Option<Work>)
      requires events.Has(e) ==> GetContext(e).scheduler.Some?
      modifies this
      ensures r.None? <==> !old(events).Has(e)
      ensures r.None? ==> events == old(events) && read == old(read) && write == old(write)
      ensures r.Some? ==> events == old(events).Without(e)
      ensures r.Some? ==> forall o :: o != e ==> GetContext(o) == old(GetContext(o))
      ensures r.Some? ==> SlotOf(r.value) == (if old(GetContext(e)).cb.Some?
                                              then old(GetContext(e)).(fiber := None)
                                              else old(GetContext(e)))
      ensures r.Some? ==> GetContext(e) == if old(GetContext(e)).cb.Some?
                                           then NO_SLOT.(fiber := old(GetContext(e)).fiber)
                                           else NO_SLOT
    {
      if !events.Has(e) {
        return None;
      }
      events := events.Without(e);
      var ctx := GetContext(e);
      if ctx.cb.Some? {
        r := Some(Work(ctx.scheduler.value, None, ctx.cb));
        ctx := ctx.(cb := None);
      } else {
        r := Some(Work(ctx.scheduler.value, ctx.fiber, None));
        ctx := ctx.(fiber := None);
      }
      SetContext(e, ctx.(scheduler := None));
    }
  }

  datatype Op = AddOp | ModOp | DelOp

  /** The flags of one entry of epoll_wait. */
  datatype Report = Report(input: bool, output: bool, errorOrHangup: bool)

  /** The bits the idle loop acts on: what was reported, and on error or hang-up all that is
      registered. */
  function RealEvents(events: Bits, p: Report): Bits {
    Bits(p.input || (p.errorOrHangup && events.read), p.output || (p.errorOrHangup && events.write))
  }

  /** Of an error or a hang-up only what is registered counts. */
  lemma WokeReported(b: Books, c: Books, fd: nat, events: Bits, p: Report)
    requires events == Mask(b, fd) && Woke(b, c, fd, RealEvents(events, p).read, RealEvents(events, p).write)
    requires And(events, RealEvents(events, p)) == RealEvents(events, p)
    ensures Woke(b, c, fd, p.input || p.errorOrHangup, p.output || p.errorOrHangup) == true
  {
  }

  /** A call ends with a result, or one of the code's assertions stops the process. */
  datatype Outcome = Ended(ok: bool) | Asserted

  class IOManager {
    var fdContexts: seq<FdContext>
    var pending: int                       // m_pendingEventCount
    var kernel: map<nat, Bits>       // the interest list of the epoll instance
    var queue: seq<Work>                   // what was handed to schedulers, in order
    ghost var illegal: nat                 // epoll_ctl calls that did not fit the interest list
    ghost var history: seq<Step>           // every registration, wake-up and deletion so far
    ghost var books: Books

    /** The books follow the history, the queue holds what they say and the pending count is the
        number of live registrations. */
    ghost predicate Balanced()
      reads `history, `books, `queue, `pending
    {
      && Lawful(history) && books == Replay(history)
      && queue == books.queue && pending == |books.table|
    }

    /** Bits and slots say what the books say. */
    ghost predicate Contexts()
      reads `fdContexts, `books, fdContexts
    {
      && |fdContexts| >= 32
      && (forall i :: 0 <= i < |fdContexts| ==> fdContexts[i].fd == i && fdContexts[i].Agrees(books))
      && (forall k :: k in books.table ==> k.fd < |fdContexts|)
    }

    ghost predicate Valid()
      reads this, fdContexts
    {
      Contexts() && Balanced() && Watched(kernel, books)
    }

    constructor ()
      ensures Valid() && fresh(fdContexts) && history == [] && illegal == 0
    {
      fdContexts, pending, kernel, queue := [], 0, map[], [];
      illegal, history, books := 0, [], NO_BOOKS;
      new;
      ContextResize(32);
    }

    /** contextResize: the table is cut off at a smaller size and filled up with new contexts to a larger one. */
    method ContextResize(size: nat)
      modifies `fdContexts
      ensures |fdContexts| == size && (fdContexts <= old(fdContexts) || old(fdContexts) <= fdContexts)
      ensures forall i :: |old(fdContexts)| <= i < size ==> fresh(fdContexts[i])
      ensures forall i :: |old(fdContexts)| <= i < size ==>
                fdContexts[i].fd == i && fdContexts[i].events == NONE
                && fdContexts[i].read == NO_SLOT && fdContexts[i].write == NO_SLOT
    {
      if size < |fdContexts| {
        fdContexts := fdContexts[..size];
        return;
      }
      var i := |fdContexts|;
      while i < size
        invariant |old(fdContexts)| <= i <= size
        invariant |fdContexts| == i && old(fdContexts) <= fdContexts
        invariant forall j :: |old(fdContexts)| <= j < i ==> fresh(fdContexts[j])
        invariant forall j :: |old(fdContexts)| <= j < i ==>
                    fdContexts[j].fd == j && fdContexts[j].events == NONE
                    && fdContexts[j].read == NO_SLOT && fdContexts[j].write == NO_SLOT
      {
        var c := new FdContext(i);
        fdContexts := fdContexts + [c];
        i := i + 1;
      }
    }

    /** epoll_ctl: ADD wants a descriptor that is not watched, MOD and DEL one that is.  The kernel
        may also refuse a fitting call. */
    method EpollCtl(op: Op, fd: nat, mask: Bits, refuse: bool) returns (ok: bool)
      modifies `kernel, `illegal
      ensures illegal == old(illegal) + if (op == AddOp) == (fd in old(kernel)) then 1 else 0
      ensures ok <==> !refuse && ((op == AddOp) != (fd in old(kernel)))
      ensures kernel == if !ok then old(kernel) else if op == DelOp then old(kernel) - {fd} else old(kernel)[fd := mask]
    {
      var fits := (op == AddOp) != (fd in kernel);
      if !fits {
        illegal := illegal + 1;
      }
      ok := fits && !refuse;
      if ok {
        kernel := if op == DelOp then kernel - {fd} else kernel[fd := mask];
      }
    }

    /** Contexts that agree with the books still do when only `fd` has changed and agrees again. */
    twostate lemma ContextsKept(fd: nat)
      requires old(Contexts()) && fd < |fdContexts| && fdContexts == old(fdContexts)
      requires fdContexts[fd].Agrees(books) == true
      requires forall i :: 0 <= i < |fdContexts| && i != fd ==> unchanged(fdContexts[i])
      requires Elsewhere(old(books), books, fd) == true
      ensures Contexts() == true
    {
      forall i | 0 <= i < |fdContexts| ensures fdContexts[i].fd == i && fdContexts[i].Agrees(books) {
        assert old(fdContexts[i].Agrees(books));
      }
    }

    /** triggerEvent for a registered event, when the books move on to `next`. */
    method Detach(fd: nat, e: Event, ghost next: Books) returns (w: Work)
      requires Contexts() && fd < |fdContexts| && Changes(books, Wake(Key(fd, e)), next) == true
      modifies `books, fdContexts[fd]
      ensures Contexts() == true
      ensures books == next && fdContexts[fd].events == old(fdContexts[fd].events).Without(e)
      ensures next.queue == old(books).queue + [w]
    {
      var ctx := fdContexts[fd];
      assert ctx.Agrees(books);
      var r := ctx.TriggerEvent(e);
      w := r.value;
      ChangesElsewhere(books, Wake(Key(fd, e)), next);
      books := next;
      ContextsKept(fd);
    }

    /** triggerEvent, with the decrement of the pending count that goes with it; false when its
        assertion fails. */
    method Fire(fd: nat, e: Event) returns (ok: bool)
      requires Contexts() && Balanced() && fd < |fdContexts|
      modifies `pending, `queue, `books, `history, fdContexts[fd]
      ensures Contexts() == true
      ensures Balanced() == true
      ensures fdContexts[fd].events == old(fdContexts[fd].events).Without(e)
      ensures ok <==> Key(fd, e) in old(books).table
      ensures history == if ok then old(history) + [Wake(Key(fd, e))] else old(history)
    {
      assert fdContexts[fd].Agrees(books);
      ok := fdContexts[fd].events.Has(e);
      if ok {
        StepIs(history, Wake(Key(fd, e)));
        history := history + [Wake(Key(fd, e))];
        pending := pending - 1;
        var w := Detach(fd, e, Replay(history));
        queue := queue + [w];
      }
    }

    /** The two lines of addEvent that set a bit and fill its slot; false when the assertion that
        the slot is empty fails. */
    method Fill(fd: nat, e: Event, w: Work) returns (ok: bool)
      requires Contexts() && Balanced() && fd < |fdContexts| && Key(fd, e) !in books.table && w.Single()
      modifies `pending, `books, `history, fdContexts[fd]
      ensures ok && Contexts() == true
      ensures Balanced() == true
      ensures fdContexts[fd].events == old(fdContexts[fd].events).With(e)
      ensures history == old(history) + [Add(Key(fd, e), w)]
    {
      StepIs(history, Add(Key(fd, e), w));
      history := history + [Add(Key(fd, e), w)];
      pending := pending + 1;
      ok := FillSlot(fd, e, w, Replay(history));
    }

    method FillSlot(fd: nat, e: Event, w: Work, ghost next: Books) returns (ok: bool)
      requires Contexts() && fd < |fdContexts| && Key(fd, e) !in books.table && w.Single()
      requires Changes(books, Add(Key(fd, e), w), next) == true
      modifies `books, fdContexts[fd]
      ensures ok && Contexts() == true
      ensures books == next && fdContexts[fd].events == old(fdContexts[fd].events).With(e)
    {
      var ctx := fdContexts[fd];
      assert ctx.Agrees(books);
      ctx.events := ctx.events.With(e);
      ok := ctx.GetContext(e) == NO_SLOT;
      ctx.SetContext(e, SlotOf(w));
      ChangesElsewhere(books, Add(Key(fd, e), w), next);
      books := next;
      ContextsKept(fd);
    }

    /** The two lines of delEvent that clear a bit and reset its slot. */
    method Clear(fd: nat, e: Event)
      requires Contexts() && Balanced() && fd < |fdContexts| && Key(fd, e) in books.table
      modifies `pending, `books, `history, fdContexts[fd]
      ensures Contexts() == true
      ensures Balanced() == true
      ensures fdContexts[fd].events == old(fdContexts[fd].events).Without(e)
      ensures history == old(history) + [Delete(Key(fd, e))]
    {
      StepIs(history, Delete(Key(fd, e)));
      history := history + [Delete(Key(fd, e))];
      pending := pending - 1;
      ClearSlot(fd, e, Replay(history));
    }

    method ClearSlot(fd: nat, e: Event, ghost next: Books)
      requires Contexts() && fd < |fdContexts| && Changes(books, Delete(Key(fd, e)), next) == true
      modifies `books, fdContexts[fd]
      ensures Contexts() == true
      ensures books == next && fdContexts[fd].events == old(fdContexts[fd].events).Without(e)
    {
      var ctx := fdContexts[fd];
      assert ctx.Agrees(books);
      ctx.events := ctx.events.Without(e);
      ctx.SetContext(e, NO_SLOT);
      ChangesElsewhere(books, Delete(Key(fd, e)), next);
      books := next;
      ContextsKept(fd);
    }

    /** The bits of `fd`. */
    method EventsOf(fd: nat) returns (events: Bits)
      requires Contexts()
      ensures events == Mask(books, fd)
    {
      events := NONE;
      if fd < |fdContexts| {
        assert fdContexts[fd].Agrees(books);
        events := fdContexts[fd].events;
      }
    }

    /** The epoll_ctl call of addEvent, delEvent, cancelEvent and idle: `fd`, with the bits `events`,
        is to be watched for `mask` from now on.  The call always fits the kernel's list. */
    method Watch(fd: nat, events: Bits, mask: Bits, refuse: bool) returns (ok: bool)
      requires Watched(kernel, books) && events == Mask(books, fd) && (events != NONE || mask != NONE)
      modifies `kernel, `illegal
      ensures illegal == old(illegal)
      ensures ok <==> !refuse
      ensures kernel == if ok then Watching(old(kernel), fd, mask) else old(kernel)
    {
      var op := if events == NONE then AddOp else if mask == NONE then DelOp else ModOp;
      ok := EpollCtl(op, fd, mask, refuse);
    }

    /** cancelEvent: the waiter of `e` on `fd` is queued, when there is one and the kernel agrees. */
    method CancelEvent(fd: nat, e: Event, refuse: bool) returns (r: Outcome)
      requires Valid()
      modifies this, fdContexts
      ensures r.Ended? && Valid() == true
      ensures fdContexts == old(fdContexts) && illegal == old(illegal)
      ensures r.ok <==> Key(fd, e) in old(books).table && !refuse
      ensures history == if r.ok then old(history) + [Wake(Key(fd, e))] else old(history)
    {
      var events := EventsOf(fd);
      if !events.Has(e) {
        return Ended(false);
      }
      var ok := Watch(fd, events, events.Without(e), refuse);
      if !ok {
        return Ended(false);
      }
      StepWatched(old(kernel), history, Wake(Key(fd, e)));
      ok := Fire(fd, e);
      r := if ok then Ended(true) else Asserted;
    }

    /** delEvent: the registration of `e` on `fd` goes, and nobody is woken. */
    method DelEvent(fd: nat, e: Event, refuse: bool) returns (ok: bool)
      requires Valid()
      modifies this, fdContexts
      ensures Valid() == true
      ensures fdContexts == old(fdContexts) && illegal == old(illegal) && queue == old(queue)
      ensures ok <==> Key(fd, e) in old(books).table && !refuse
      ensures history == if ok then old(history) + [Delete(Key(fd, e))] else old(history)
    {
      var events := EventsOf(fd);
      if !events.Has(e) {
        return false;
      }
      ok := Watch(fd, events, events.Without(e), refuse);
      if ok {
        StepWatched(old(kernel), history, Delete(Key(fd, e)));
        Clear(fd, e);
      }
    }

    /** The beginning of addEvent: the table grows to half as many contexts again as `fd` counts. */
    method ContextOf(fd: nat)
      requires Valid()
      modifies `fdContexts
      ensures Valid() == true
      ensures fd < |fdContexts| && old(fdContexts) <= fdContexts
      ensures forall i :: |old(fdContexts)| <= i < |fdContexts| ==> fresh(fdContexts[i])
    {
      if |fdContexts| <= fd {
        ContextResize(fd * 3 / 2);
        forall i | 0 <= i < |fdContexts| ensures fdContexts[i].fd == i && fdContexts[i].Agrees(books) {
          assert i < |old(fdContexts)| ==> old(fdContexts[i].Agrees(books));
        }
      }
    }

    /** The end of addEvent. */
    method AddTo(fd: nat, e: Event, w: Work, refuse: bool) returns (r: Outcome)
      requires Valid() && fd < |fdContexts| && w.Single()
      modifies `pending, `books, `history, `kernel, `illegal, fdContexts[fd]
      ensures Valid() == true
      ensures r.Asserted? <==> Key(fd, e) in old(books).table
      ensures r.Ended? ==> r.ok == !refuse
      ensures illegal == old(illegal)
      ensures history == if r == Ended(true) then old(history) + [Add(Key(fd, e), w)] else old(history)
    {
      var events := EventsOf(fd);
      if events.Has(e) {
        return Asserted;
      }
      var ok := Watch(fd, events, events.With(e), refuse);
      if !ok {
        return Ended(false);
      }
      StepWatched(old(kernel), history, Add(Key(fd, e), w));
      ok := Fill(fd, e, w);
      r := if ok then Ended(true) else Asserted;
    }

    /** addEvent: a new registration, unless the kernel refuses it.  The process stops exactly when
        `e` is already registered on `fd`. */
    method AddEvent(fd: nat, e: Event, w: Work, refuse: bool) returns (r: Outcome)
      requires Valid() && w.Single()
      modifies this, fdContexts
      ensures Valid() == true
      ensures fresh(set c | c in fdContexts && c !in old(fdContexts))
      ensures r.Asserted? <==> Key(fd, e) in old(books).table
      ensures r.Ended? ==> r.ok == !refuse
      ensures illegal == old(illegal) && queue == old(queue)
      ensures history == if r == Ended(true) then old(history) + [Add(Key(fd, e), w)] else old(history)
    {
      ContextOf(fd);
      r := AddTo(fd, e, w, refuse);
    }

    /** The two triggers at the end of the idle loop; false when an assertion stops the process. */
    method FireAll(fd: nat, m: Bits) returns (ok: bool)
      requires Contexts() && Balanced() && fd < |fdContexts|
      modifies `pending, `queue, `books, `history, fdContexts[fd]
      ensures ok <==> And(m, Mask(old(books), fd)) == m
      ensures ok ==> Contexts() == true
      ensures ok ==> Balanced() == true
      ensures ok ==> history == old(history) + Wakes(fd, m)
    {
      ok := true;
      if m.read {
        if Key(fd, Read) in books.table {
          StepIs(history, Wake(Key(fd, Read)));
        }
        ok := Fire(fd, Read);
      }
      if ok && m.write {
        ok := Fire(fd, Write);
      }
    }

    /** The idle loop on one report for `fd`.  When nothing reported is registered, or the kernel
        refuses, nothing happens.  Otherwise the process stops exactly when something that is not
        registered was reported too; if not, every reported waiter is queued. */
    method Dispatch(fd: nat, p: Report, refuse: bool) returns (r: Outcome)
      requires Valid() && fd < |fdContexts|
      modifies `pending, `queue, `books, `history, `kernel, `illegal, fdContexts[fd]
      ensures r.Ended? ==> Valid() == true
      ensures illegal == old(illegal)
      ensures var events := Mask(old(books), fd); var m := RealEvents(events, p);
              && (r == Ended(true) <==> m != NONE && And(events, m) == m && !refuse)
              && (r.Asserted? <==> And(events, m) != NONE && And(events, m) != m && !refuse)
              && (r == Ended(true) ==> history == old(history) + Wakes(fd, m))
              && (r == Ended(false) ==> history == old(history))
      // the same in the flags of the report: EPOLLIN is for the reader, EPOLLOUT for the writer, an error or
      // a hang-up for both
      ensures r == Ended(true) ==> Woke(old(books), books, fd, p.input || p.errorOrHangup, p.output || p.errorOrHangup) == true
      ensures var reader, writer := Key(fd, Read) in old(books).table, Key(fd, Write) in old(books).table;
              var hit := (reader && (p.input || p.errorOrHangup)) || (writer && (p.output || p.errorOrHangup));
              var missed := (!reader && p.input) || (!writer && p.output);
              r == if refuse || !hit then Ended(false) else if missed then Asserted else Ended(true)
      ensures r.Ended? ==> queue == books.queue
    {
      var events := EventsOf(fd);
      var m := RealEvents(events, p);
      if And(events, m) == NONE {
        return Ended(false);
      }
      if And(events, m) == m {
        WakesWoke(history, fd, m);
        WokeReported(books, Replay(history + Wakes(fd, m)), fd, events, p);
      }
      r := TakeOut(fd, events, m, refuse);
    }

    /** The registered bits of a report: no longer watched, and triggered. */
    method TakeOut(fd: nat, events: Bits, m: Bits, refuse: bool) returns (r: Outcome)
      requires Valid() && fd < |fdContexts| && events == Mask(books, fd) && And(events, m) != NONE
      modifies `pending, `queue, `books, `history, `kernel, `illegal, fdContexts[fd]
      ensures r.Ended? ==> Valid() == true
      ensures illegal == old(illegal)
      ensures r == if refuse then Ended(false) else if And(events, m) == m then Ended(true) else Asserted
      ensures r.Ended? ==> history == if r.ok then old(history) + Wakes(fd, m) else old(history)
    {
      var ok := Watch(fd, events, Minus(events, m), refuse);
      if !ok {
        return Ended(false);
      }
      if And(events, m) == m {
        WakesWatched(old(kernel), history, fd, m);
      }
      ok := FireAll(fd, m);
      r := if ok then Ended(true) else Asserted;
    }

    /** cancelAll as written: it gives up when there is something to cancel, and otherwise asks the
        kernel to forget a descriptor it does not watch.  It never succeeds and never wakes anyone. */
    method CancelAll(fd: nat, refuse: bool) returns (r: Outcome)
      requires Valid()
      modifies `kernel, `illegal
      ensures Valid() == true
      ensures r == Ended(false) && kernel == old(kernel)
    {
      if |fdContexts| <= fd {
        return Ended(false);
      }
      var events := EventsOf(fd);
      if events != NONE {
        return Ended(false);
      }
      var ok := EpollCtl(DelOp, fd, NONE, refuse);
      r := Ended(ok);
    }

    /** The hooked close: cancelAll, and then the descriptor is closed and the kernel forgets it.  The
        kernel still agrees with the table exactly when nothing was registered on the descriptor. */
    method CloseFd(fd: nat, refuse: bool)
      requires Valid()
      modifies `kernel, `illegal
      ensures kernel == old(kernel) - {fd}
      ensures Valid() <==> Mask(books, fd) == NONE
    {
      var r := CancelAll(fd, refuse);
      ForgottenIff(kernel, books, fd);
      kernel := kernel - {fd};
    }
  }

  /** A report made while both events of a descriptor were registered, and handled after one of them
      was cancelled, stops the process. */
  method StaleReport(m: IOManager, fd: nat) returns (r: Outcome)
    requires m.Valid() && fd < |m.fdContexts| && Mask(m.books, fd) == Bits(true, true)
    modifies m, m.fdContexts
    ensures r.Asserted?
  {
    var report := Report(true, true, false);
    MaskOf(m.history, Wake(Key(fd, Write)));
    var c := m.CancelEvent(fd, Write, false);
    r := m.Dispatch(fd, report, false);
  }
}
