/** All clients of one ticker queue and one deep-sleep lock, over whole runs. */
module PowerSystem {
  import opened EventQueue
  import opened TickerQueue
  import opened DeepSleep
  import opened PeriodicTicker
  import opened SleepClients

  /** One operation by one client, or one step of the interrupt: entering it, a pass
      of its loop, with what the callback does to its own ticker first, and the
      callback computing. The operations between two passes are what the callback
      just called does to any client. Lock objects come and go and are called by
      name. */
  datatype Step =
    | TickerAttach(ticker: Ticker, delay: nat)
    | TickerDetach(ticker: Ticker)
    | TimerStart(timer: Timer)
    | TimerStop(timer: Timer)
    | TimerReset(timer: Timer)
    | TimerDestroy(timer: Timer)
    | SerialAttach(serial: SerialBase, callback: bool, slot: nat)
    | SerialDestroy(serial: SerialBase)
    | LockCreate(name: nat)
    | LockLock(name: nat)
    | LockUnlock(name: nat)
    | LockDestroy(name: nat)
    | TimePasses
    | InterruptEnter
    | InterruptPass(user: UserAction)
    | CallbackComputes
  {
    predicate OnTicker() { TickerAttach? || TickerDetach? }
    predicate OnTimer() { TimerStart? || TimerStop? || TimerReset? || TimerDestroy? }
    predicate OnSerial() { SerialAttach? || SerialDestroy? }
    predicate OnLock() { LockCreate? || LockLock? || LockUnlock? || LockDestroy? }
  }

  lemma {:induction false} HoldsCounted(owners: set<object>)
    ensures |set o | o in owners :: Hold(o, 0)| == |owners|
  {
    var holds := set o | o in owners :: Hold(o, 0);
    if owners != {} {
      var o :| o in owners;
      var rest := set p | p in owners - {o} :: Hold(p, 0);
      assert holds == rest + {Hold(o, 0)};
      HoldsCounted(owners - {o});
    }
  }

  /** Four kinds of reasons, told apart by their owners. */
  lemma CountedApart(holders: set<Hold>, a: set<object>, b: set<object>, c: set<object>, slots: set<Hold>)
    requires a !! b && (a + b) !! c
    requires forall h | h in slots :: h.owner !in a && h.owner !in b && h.owner !in c
    requires forall h ::
               h in holders <==> h in slots || (h.slot == 0 && (h.owner in a || h.owner in b || h.owner in c))
    ensures |holders| == |a| + |b| + |slots| + |c|
  {
    assert |a + b + c| == |a| + |b| + |c|;
    CountedWithSlots(holders, a + b + c, slots);
  }

  lemma CountedWithSlots(holders: set<Hold>, owners: set<object>, slots: set<Hold>)
    requires forall h | h in slots :: h.owner !in owners
    requires forall h :: h in holders <==> h in slots || (h.slot == 0 && h.owner in owners)
    ensures |holders| == |owners| + |slots|
  {
    var zero := set o | o in owners :: Hold(o, 0);
    HoldsCounted(owners);
    assert holders == zero + slots;
    assert zero !! slots;
  }

  /** The objects that exist, with all the state in the objects themselves but for
      whether the ticker's interrupt handler is running and until when the callback
      it called last may compute. */
  datatype System = System(
    queue: Queue,
    sleep: SleepManager,
    tickers: set<Ticker>,
    timers: set<Timer>,
    serials: set<SerialBase>,
    locks: map<nat, DeepSleepLock>,
    inInterrupt: bool,
    callbackEnds: nat
  ) {
    ghost function Events(): set<TickerEvent> {
      set t | t in tickers :: t.event
    }

    ghost function Slots(): set<array<bool>> {
      set s | s in serials :: s.irq
    }

    /** Who needs the clocks, by kind of client. */
    ghost function LockingTickers(): set<object>
      reads tickers
    {
      set t: Ticker | t in tickers && t.attached && t.lockDeepSleep :: t as object
    }

    ghost function LockingTimers(): set<object>
      reads timers
    {
      set t: Timer | t in timers && t.running && t.lockDeepSleep :: t as object
    }

    ghost function UsedSlots(): set<Hold>
      reads Slots()
      requires forall s | s in serials :: s.irq.Length == IRQ_COUNT
    {
      set s: SerialBase, i: nat | s in serials && i < IRQ_COUNT && s.irq[i] :: Hold(s, i)
    }

    ghost function HeldLocks(): set<object>
      reads locks.Values
    {
      set l: DeepSleepLock | l in locks.Values && l.lockCount > 0 :: l as object
    }

    ghost predicate TickersValid()
      reads queue, tickers, Events(), sleep
    {
      && (forall t | t in tickers :: t.queue == queue && t.sleep == sleep && t.Valid())
      && (forall t, u | t in tickers && u in tickers && t != u :: t.event != u.event && t.id != u.id)
    }

    ghost predicate TimersValid()
      reads queue, timers, sleep
    {
      forall t | t in timers :: t.queue == queue && t.sleep == sleep && t.Valid()
    }

    ghost predicate SerialsValid()
      reads serials, Slots(), sleep
    {
      && (forall s | s in serials :: s.sleep == sleep && s.Valid() && s.SlotsOnly())
      && (forall s, r | s in serials && r in serials && s != r :: s.irq != r.irq)
    }

    ghost predicate LocksValid()
      reads locks.Values, sleep
    {
      && (forall n | n in locks :: locks[n].sleep == sleep && locks[n].Valid())
      && (forall m, n | m in locks && n in locks && m != n :: locks[m] != locks[n])
    }

    /** The reason is a client's. */
    ghost predicate Accounts(h: Hold) {
      || (exists t | t in tickers :: h == Hold(t, 0))
      || (exists t | t in timers :: h == Hold(t, 0))
      || (exists s | s in serials :: h.owner == s)
      || (exists n | n in locks :: h == Hold(locks[n], 0))
    }

    /** Every reason to hold the lock belongs to a client of the system. */
    ghost predicate Accounted()
      reads sleep
    {
      forall h | h in sleep.holders :: Accounts(h)
    }

    /** Every client is in order, the account is complete, and the next interrupt is
        under way unless its handler is running. */
    ghost predicate Valid()
      reads queue, queue.hal, queue.nodes, sleep, tickers, Events(), timers, serials, Slots(), locks.Values
    {
      && queue.Valid() && queue.handlerSet && sleep.Valid()
      && (inInterrupt || queue.Scheduled())
      && callbackEnds <= queue.updateTicks + queue.hal.workTicks
      && queue.Members() <= Events()
      && TickersValid() && TimersValid() && SerialsValid() && LocksValid()
      && Accounted()
    }

    /** Conservation: the counter equals attached locking tickers, running locking
        timers, installed serial callbacks and held lock objects, one for each; deep
        sleep is allowed exactly when there is none. */
    lemma Conservation()
      requires Valid()
      ensures sleep.deepSleepLock == |LockingTickers()| + |LockingTimers()| + |UsedSlots()| + |HeldLocks()|
      ensures sleep.deepSleepLock == 0 <==>
                && (forall t | t in tickers :: !(t.attached && t.lockDeepSleep))
                && (forall t | t in timers :: !(t.running && t.lockDeepSleep))
                && (forall s, i: nat | s in serials && i < IRQ_COUNT :: !s.irq[i])
                && (forall n | n in locks :: locks[n].lockCount == 0)
    {
      hide LockingTickers, LockingTimers, UsedSlots, HeldLocks;
      hide TickersValid, TimersValid, LocksValid, Accounted, Queue.Valid, Queue.Scheduled;
      EmptyWhenNobodyHolds();
      Distinguished();
      forall h ensures h in sleep.holders <==> Reason(h) {
        HeldIff(h);
      }
      CountedApart(sleep.holders, LockingTickers(), LockingTimers(), HeldLocks(), UsedSlots());
    }

    /** A hold and the client it belongs to. */
    ghost predicate Reason(h: Hold)
      reads tickers, timers, serials, Slots(), locks.Values
      requires forall s | s in serials :: s.irq.Length == IRQ_COUNT
    {
      || h in UsedSlots()
      || (h.slot == 0 && (h.owner in LockingTickers() || h.owner in LockingTimers() || h.owner in HeldLocks()))
    }

    lemma HeldIff(h: Hold)
      requires Valid()
      ensures h in sleep.holders <==> Reason(h)
    {
      hide Queue.Valid, Queue.Scheduled, SleepManager.Valid, Ticker.Exact, Ticker.NeverEarly;
    }

    /** No object is a client in two ways. */
    lemma Distinguished()
      requires forall s | s in serials :: s.irq.Length == IRQ_COUNT
      ensures LockingTickers() !! LockingTimers() && (LockingTickers() + LockingTimers()) !! HeldLocks()
      ensures forall h | h in UsedSlots() ::
                h.owner !in LockingTickers() && h.owner !in LockingTimers() && h.owner !in HeldLocks()
    {
    }

    lemma EmptyWhenNobodyHolds()
      requires Valid()
      ensures sleep.holders == {} <==>
                && (forall t | t in tickers :: !(t.attached && t.lockDeepSleep))
                && (forall t | t in timers :: !(t.running && t.lockDeepSleep))
                && (forall s, i: nat | s in serials && i < IRQ_COUNT :: !s.irq[i])
                && (forall n | n in locks :: locks[n].lockCount == 0)
    {
      hide Queue.Valid, Queue.Scheduled, SleepManager.Valid, Ticker.Exact, Ticker.NeverEarly;
      if sleep.holders != {} {
        var h :| h in sleep.holders;
        HeldIff(h);
      }
    }

    // -------------------------------------------------------------------
    // No expiry is lost
    // -------------------------------------------------------------------

    /** Every attached ticker has its next expiry coming: an interrupt is pending and
        will be served in time, or the compare register matches ahead of the counter
        and not after the clock has passed the expiry. */
    lemma ExpiryUnderWay(t: Ticker)
      requires Valid() && !inInterrupt && t in tickers && t.attached
      ensures if queue.hal.pending then queue.hal.serveBy <= queue.updateTicks + queue.maxDelta + queue.hal.latency
              else queue.MatchAhead() && queue.ClockAt(queue.hal.matchAt) <= t.event.timestamp
    {
      hide Queue.TimeValid, Queue.MatchAhead, Ticker.Exact, Ticker.NeverEarly;
      var i :| 0 <= i < |queue.nodes| && queue.nodes[i] == t.event;
      assert queue.contents[0].timestamp <= queue.contents[i].timestamp == t.event.timestamp;
    }

    /** Nobody waits unnoticed: when the clock is past an expiry, an interrupt is
        pending. */
    lemma OverdueIsPending(t: Ticker)
      requires Valid() && !inInterrupt && t in tickers && t.attached
      requires queue.ClockAt(queue.hal.ticks) > t.event.timestamp
      ensures queue.hal.pending
    {
      ExpiryUnderWay(t);
      if !queue.hal.pending {
        queue.ClockMonotonic(queue.hal.ticks, queue.hal.matchAt);
      }
    }

    // -------------------------------------------------------------------
    // Steps
    // -------------------------------------------------------------------

    /** What may happen: any operation by any client at any time, as long as lock
        objects stay within their 16-bit count; passes and callbacks while the
        interrupt handler runs, and free time only while it does not. */
    predicate Enabled(step: Step)
      reads queue.hal, locks.Values
    {
      match step
      case TickerAttach(t, _) => t in tickers
      case TickerDetach(t) => t in tickers
      case TimerStart(t) => t in timers
      case TimerStop(t) => t in timers
      case TimerReset(t) => t in timers
      case TimerDestroy(t) => t in timers
      case SerialAttach(s, _, slot) => s in serials && slot < IRQ_COUNT
      case SerialDestroy(s) => s in serials
      case LockCreate(n) => n !in locks
      case LockLock(n) => n in locks && locks[n].lockCount < USHRT_MAX
      case LockUnlock(n) => n in locks && locks[n].lockCount > 0
      case LockDestroy(n) => n in locks
      case TimePasses => !inInterrupt
      case InterruptEnter => !inInterrupt && queue.hal.pending
      case InterruptPass(_) => inInterrupt
      case CallbackComputes => inInterrupt
    }

    /** An operation on one ticker leaves all other clients in order. */
    twostate lemma OthersStay(t: Ticker)
      requires old(Valid()) && t in tickers && t.OthersUndisturbed() && t.Valid()
      requires t.sleep == sleep && t.queue == queue
      requires unchanged(timers) && unchanged(serials) && unchanged(Slots()) && unchanged(locks.Values)
      requires forall u | u in tickers && u != t :: unchanged(u)
      ensures TimersValid() && SerialsValid() && LocksValid() && Accounted()
      ensures forall u | u in tickers && u != t :: u.HoldsSleep() == old(u.HoldsSleep())
    {
      hide Queue.Valid, Queue.Scheduled, SleepManager.Valid, Ticker.Exact, Ticker.NeverEarly, Ticker.Valid;
    }

    /** The tickers, when one of them did something. */
    twostate lemma TickersStay(t: Ticker)
      requires old(TickersValid()) && t in tickers && t.Valid() && t.OthersUndisturbed()
      requires forall u | u in tickers && u != t :: unchanged(u) && u.HoldsSleep() == old(u.HoldsSleep())
      ensures TickersValid()
      ensures old(queue.Members() <= Events()) ==> queue.Members() <= Events()
    {
      hide Ticker.Exact, Ticker.NeverEarly;
      forall u | u in tickers && u != t ensures u.Valid() {
        assert old(u.Valid()) && u.event != t.event;
        assert u.event in queue.nodes <==> u.event in queue.Members();
        assert old(u.event in queue.nodes) <==> old(u.event in queue.Members());
      }
    }

    method DoTicker(step: Step, t: Ticker)
      requires Valid() && Enabled(step) && sleep.deepSleepLock < USHRT_MAX
      requires step.OnTicker() && step.ticker == t
      modifies t, queue, queue.hal, Events(), sleep
      ensures Valid()
      ensures queue.hal.ticks >= old(queue.hal.ticks) && unchanged(queue`calls)
      ensures step.TickerAttach? ==> t.attached && t.delay == step.delay && t.calls == [] && t.FirstFromNow()
      ensures step.TickerDetach? ==> !t.attached
    {
      hide Queue.Valid, Queue.Scheduled, SleepManager.Valid, Ticker.Exact, Ticker.NeverEarly, TimersValid, SerialsValid, LocksValid, Accounted;
      if step.TickerAttach? {
        t.AttachUs(step.delay);
      } else {
        t.DetachTicker();
      }
      OthersStay(t);
      TickersStay(t);
    }

    /** Only the clock has moved on. */
    twostate lemma TimersLater()
      requires old(TimersValid()) && unchanged(timers) && unchanged(sleep)
      requires queue.presentTime >= old(queue.presentTime)
      ensures TimersValid()
    {
    }

    method ReadClock()
      requires Valid()
      modifies queue`tickLastRead, queue`tickRemainder, queue`presentTime, queue`updateTicks
      modifies queue.hal`ticks, queue.hal`pending, queue.hal`serveBy
      ensures Valid() && queue.hal.ticks == queue.updateTicks >= old(queue.hal.ticks)
      ensures queue.presentTime == queue.ClockAt(queue.hal.ticks)
    {
      hide Queue.TimeValid, Queue.ListValid, Queue.ContentsValid, Queue.Scheduled, Queue.ClockAt, SleepManager.Valid;
      hide Ticker.Exact, Ticker.NeverEarly, TimersValid, LocksValid, Accounted;
      queue.UpdatePresentTime();
      TimersLater();
    }

    /** The end of the interrupt handler. */
    method Leave() returns (next: System)
      requires Valid() && inInterrupt
      modifies queue`tickLastRead, queue`tickRemainder, queue`presentTime, queue`updateTicks, queue.hal
      ensures next == this.(inInterrupt := false) && next.Valid()
      ensures queue.hal.ticks >= old(queue.hal.ticks)
    {
      hide Queue.TimeValid, Queue.ListValid, Queue.ContentsValid, Queue.Scheduled, Queue.ClockAt, SleepManager.Valid;
      hide Ticker.Exact, Ticker.NeverEarly, TimersValid, LocksValid, Accounted;
      queue.ScheduleInterrupt();
      TimersLater();
      next := this.(inInterrupt := false);
      SameClients(next);
    }

    /** What does not depend on the changed component. */
    lemma SameClients(next: System)
      requires next == this.(locks := next.locks, inInterrupt := next.inInterrupt, callbackEnds := next.callbackEnds)
      ensures next.TickersValid() == TickersValid() && next.TimersValid() == TimersValid()
      ensures next.SerialsValid() == SerialsValid() && next.Events() == Events()
      ensures next.locks == locks ==> next.LocksValid() == LocksValid() && next.Accounted() == Accounted()
    {
    }

    /** The ids of queued events name the tickers they belong to. */
    lemma HeadBelongs()
      requires Valid() && queue.head != null
      ensures exists t :: t in tickers && t.id == queue.head.id
      ensures forall t | t in tickers && t.id == queue.head.id :: t.event == queue.head
    {
      hide Ticker.Exact, Ticker.NeverEarly, TimersValid, SerialsValid, LocksValid, Accounted;
      assert queue.head in queue.Members();
      var t :| t in tickers && t.event == queue.head;
    }

    /** The first event, due by the clock just read, goes to the ticker that its id
        names, which is the one that inserted it. */
    method Dispatch(user: UserAction) returns (t: Ticker, ends: nat)
      requires Valid() && inInterrupt && sleep.deepSleepLock < USHRT_MAX
      requires queue.head != null && queue.head.timestamp <= queue.presentTime && queue.hal.ticks == queue.updateTicks
      modifies queue, queue.hal, Events(), sleep, tickers
      ensures Valid() && t in tickers && t.event == old(queue.head)
      ensures ends <= queue.updateTicks + queue.hal.workTicks
      ensures forall u | u in tickers && u != t :: unchanged(u)
      ensures t.Called(user, old(queue.presentTime))
      ensures queue.calls == old(queue.calls) + [HandlerCall(t.id, old(queue.presentTime))]
      ensures queue.hal.ticks >= old(queue.hal.ticks)
    {
      hide Queue.TimeValid, Queue.ContentsValid, Queue.Scheduled, SleepManager.Valid;
      hide Ticker.Exact, Ticker.NeverEarly, TimersValid, SerialsValid, LocksValid, Accounted;
      HeadBelongs();
      hide Queue.ListValid;
      t :| t in tickers && t.id == queue.head.id;
      ends := t.Expire(user);
      OthersStay(t);
      TickersStay(t);
    }

    /** A pass of the interrupt's loop: the first event is dispatched if it is due by
        a new reading of the clock; otherwise the next interrupt is scheduled. */
    method Pass(user: UserAction) returns (next: System, ghost now: nat)
      requires Valid() && inInterrupt && sleep.deepSleepLock < USHRT_MAX
      modifies queue, queue.hal, Events(), sleep, tickers
      ensures next == this.(inInterrupt := next.inInterrupt, callbackEnds := next.callbackEnds) && next.Valid()
      ensures queue.hal.ticks >= now >= old(queue.hal.ticks) >= queue.startTicks
      ensures forall t | t in tickers && t.event != old(queue.head) :: unchanged(t)
      // Staying, the first event was due and its ticker has had its callback; leaving,
      // nothing was due when the clock was read.
      ensures next.inInterrupt ==> exists t | t in tickers && t.event == old(queue.head) ::
                && t.Called(user, queue.ClockAt(now))
                && queue.calls == old(queue.calls) + [HandlerCall(t.id, queue.ClockAt(now))]
      ensures !next.inInterrupt ==>
                unchanged(tickers) && queue.contents == old(queue.contents) && unchanged(queue`calls)
      ensures !next.inInterrupt ==> NoneBefore(queue.contents, queue.ClockAt(now) + 1)
    {
      hide Queue.TimeValid, Queue.ListValid, Queue.ContentsValid, Queue.Scheduled, Queue.ClockAt, NoneBefore;
      hide TickersValid, TimersValid, SerialsValid, LocksValid, Accounted;
      now := queue.hal.ticks;
      if queue.head != null {
        ReadClock();
        now := queue.hal.ticks;
        if queue.head.timestamp <= queue.presentTime {
          var t, ends := Dispatch(user);
          next := this.(callbackEnds := ends);
          SameClients(next);
          return;
        }
      }
      queue.NoneDue(now);
      next := Leave();
    }

    /** An operation on one timer, port or lock object leaves all other clients in
        order. */
    twostate lemma ClientsStay(new me: object)
      requires old(Valid()) && me !in tickers
      requires forall h: Hold | h.owner != me :: h in sleep.holders <==> h in old(sleep.holders)
      requires unchanged(tickers) && unchanged(Events())
      requires queue.nodes == old(queue.nodes) && queue.presentTime >= old(queue.presentTime)
      requires forall t: Timer | t in timers && t != me :: unchanged(t)
      requires forall s: SerialBase | s in serials && s != me :: unchanged(s.irq)
      requires forall n | n in locks && locks[n] != me :: unchanged(locks[n])
      ensures TickersValid()
      ensures forall t: Timer | t in timers && t != me :: t.queue == queue && t.sleep == sleep && t.Valid()
      ensures forall s: SerialBase | s in serials && s != me :: s.sleep == sleep && s.Valid() && s.SlotsOnly()
      ensures forall n | n in locks && locks[n] != me :: locks[n].sleep == sleep && locks[n].Valid()
      ensures forall h | h in sleep.holders && h.owner != me :: Accounts(h)
    {
      hide Queue.Valid, Queue.Scheduled, SleepManager.Valid, Ticker.Exact, Ticker.NeverEarly;
    }

    method DoTimer(step: Step, t: Timer) returns (ghost now: nat)
      requires Valid() && Enabled(step) && sleep.deepSleepLock < USHRT_MAX
      requires step.OnTimer() && step.timer == t
      modifies t, sleep
      modifies queue`tickLastRead, queue`tickRemainder, queue`presentTime, queue`updateTicks
      modifies queue.hal`ticks, queue.hal`pending, queue.hal`serveBy
      ensures Valid() && queue.hal.ticks >= now >= old(queue.hal.ticks) >= queue.startTicks
      ensures t.running == (step.TimerStart? || (step.TimerReset? && old(t.running)))
      ensures step.TimerStart? ==>
                t.time == old(t.time) && t.startTime == if old(t.running) then old(t.startTime) else queue.ClockAt(now)
      ensures step.TimerStop? ==>
                t.time == old(t.time) + if old(t.running) then queue.ClockAt(now) - old(t.startTime) else 0
      ensures step.TimerReset? ==> t.time == 0 && t.startTime == queue.ClockAt(now)
    {
      hide Queue.ListValid, Queue.ContentsValid, Queue.TimeValid, Queue.Scheduled, Queue.ClockAt, SleepManager.Valid;
      hide TickersValid;
      now := queue.hal.ticks;
      ghost var timed := step.TimerReset? || (step.TimerStart? && !t.running) || (step.TimerStop? && t.running);
      if step.TimerStart? {
        t.Start();
      } else if step.TimerStop? {
        t.Stop();
      } else if step.TimerReset? {
        t.Reset();
      } else {
        t.Destroy();
      }
      if timed {
        now := queue.updateTicks;
      }
      ClientsStay(t);
    }

    method DoSerial(step: Step, s: SerialBase)
      requires Valid() && Enabled(step) && sleep.deepSleepLock < USHRT_MAX
      requires step.OnSerial() && step.serial == s
      modifies s.irq, sleep
      ensures Valid()
      ensures forall i | 0 <= i < IRQ_COUNT ::
                s.irq[i] == (step.SerialAttach? && if i == step.slot then step.callback else old(s.irq[i]))
      ensures forall r | r in serials && r != s :: r.irq[..] == old(r.irq[..])
    {
      hide Queue.Valid, Queue.Scheduled, SleepManager.Valid, TickersValid;
      if step.SerialAttach? {
        s.Attach(step.callback, step.slot);
      } else {
        s.Destroy();
      }
      ClientsStay(s);
    }

    /** A lock object starts out locked. */
    method CreateLock(name: nat) returns (next: System)
      requires Valid() && name !in locks && sleep.deepSleepLock < USHRT_MAX
      modifies sleep
      ensures name in next.locks && fresh(next.locks[name]) && next.locks[name].lockCount == 1
      ensures next == this.(locks := locks[name := next.locks[name]]) && next.Valid()
    {
      hide Queue.Valid, Queue.Scheduled, SleepManager.Valid, TickersValid, Accounts;
      AllAllocated();
      var l := new DeepSleepLock(sleep);
      ClientsStay(l);
      next := this.(locks := locks[name := l]);
      assert next.locks[name] == l;
      SameClients(next);
      forall h | h in sleep.holders ensures next.Accounts(h) {
        StillAccounts(next, h, l);
      }
    }

    lemma AllAllocated()
      requires Valid()
      ensures forall h | h in sleep.holders :: allocated(h.owner)
    {
    }

    lemma StillAccounts(next: System, h: Hold, l: DeepSleepLock)
      requires next == this.(locks := next.locks)
      requires forall n | n in locks && locks[n] != l :: n in next.locks && next.locks[n] == locks[n]
      requires if h.owner == l then h.slot == 0 && l in next.locks.Values else Accounts(h)
      ensures next.Accounts(h)
    {
    }

    lemma HoldsOnce(l: DeepSleepLock)
      requires Valid() && l in locks.Values
      ensures forall h | h in sleep.holders && h.owner == l :: h == Hold(l, 0)
    {
    }

    /** A lock object may be destroyed locked. */
    method DestroyLock(name: nat) returns (next: System)
      requires Valid() && name in locks
      modifies sleep
      ensures next == this.(locks := locks - {name}) && next.Valid()
    {
      hide Queue.Valid, Queue.Scheduled, SleepManager.Valid, TickersValid, Accounts;
      var l := locks[name];
      HoldsOnce(l);
      l.Destroy();
      ClientsStay(l);
      next := this.(locks := locks - {name});
      SameClients(next);
      forall h | h in sleep.holders ensures next.Accounts(h) {
        StillAccounts(next, h, l);
      }
    }

    method CallLock(name: nat, lock: bool)
      requires Valid() && name in locks && sleep.deepSleepLock < USHRT_MAX
      requires if lock then locks[name].lockCount < USHRT_MAX else locks[name].lockCount > 0
      modifies locks[name], sleep
      ensures Valid() && locks[name].lockCount == old(locks[name].lockCount) + if lock then 1 else -1
      ensures forall n | n in locks && n != name :: unchanged(locks[n])
    {
      hide Queue.Valid, Queue.Scheduled, SleepManager.Valid, TickersValid;
      var l := locks[name];
      if lock {
        l.Lock();
      } else {
        l.Unlock();
      }
      ClientsStay(l);
    }

    method PassTime()
      requires Valid() && !inInterrupt
      modifies queue.hal`ticks, queue.hal`pending, queue.hal`serveBy
      ensures Valid() && queue.hal.ticks >= old(queue.hal.ticks)
    {
      hide Queue.TimeValid, Queue.ListValid, Queue.ContentsValid, Queue.Scheduled, SleepManager.Valid;
      hide TimersValid, LocksValid, Accounted;
      queue.TimePasses();
    }

    /** The start of the interrupt handler. */
    method Enter() returns (next: System)
      requires Valid() && !inInterrupt && queue.hal.pending
      modifies queue.hal`pending, queue.hal`acknowledged
      ensures next == this.(inInterrupt := true) && next.Valid() && !queue.hal.pending
    {
      hide Queue.TimeValid, Queue.ListValid, Queue.ContentsValid, Queue.Scheduled, SleepManager.Valid;
      hide TimersValid, LocksValid, Accounted;
      queue.Acknowledge();
      next := this.(inInterrupt := true);
      SameClients(next);
    }

    /** The callback called last goes on computing. */
    method Compute()
      requires Valid() && inInterrupt
      modifies queue.hal`ticks, queue.hal`pending, queue.hal`serveBy
      ensures Valid() && queue.hal.ticks >= old(queue.hal.ticks)
    {
      hide Queue.TimeValid, Queue.ListValid, Queue.ContentsValid, SleepManager.Valid;
      hide TimersValid, LocksValid, Accounted;
      queue.Compute(callbackEnds);
    }

    lemma ClockStarted()
      requires Valid()
      ensures queue.hal.ticks >= queue.startTicks
    {
    }

    /** One step: its effect on the client it names, none on any other. The clock, when
        a step reads it, is read during the step. */
    method Do(step: Step) returns (next: System, ghost now: nat)
      requires Valid() && Enabled(step) && sleep.deepSleepLock < USHRT_MAX
      modifies queue, queue.hal, Events(), sleep, tickers, timers, Slots(), locks.Values
      ensures next == this.(locks := next.locks, inInterrupt := next.inInterrupt, callbackEnds := next.callbackEnds)
      ensures next.Valid() && queue.hal.ticks >= now >= old(queue.hal.ticks) >= queue.startTicks
      ensures forall l | l in next.locks.Values && l !in locks.Values :: fresh(l)
      // Tickers and the interrupt.
      ensures step.OnTicker() || step.InterruptPass? || unchanged(tickers)
      ensures step.OnTicker() ==> forall t | t in tickers && t != step.ticker :: unchanged(t)
      ensures step.TickerAttach? ==>
                step.ticker.attached && step.ticker.delay == step.delay && step.ticker.FirstFromNow()
      ensures step.TickerDetach? ==> !step.ticker.attached
      ensures step.InterruptEnter? ==> next.inInterrupt
      ensures !step.InterruptEnter? && !step.InterruptPass? ==> next.inInterrupt == inInterrupt
      ensures step.InterruptPass? ==> forall t | t in tickers && t.event != old(queue.head) :: unchanged(t)
      ensures step.InterruptPass? && next.inInterrupt ==> exists t | t in tickers && t.event == old(queue.head) ::
                && t.Called(step.user, queue.ClockAt(now))
                && queue.calls == old(queue.calls) + [HandlerCall(t.id, queue.ClockAt(now))]
      ensures step.InterruptPass? && !next.inInterrupt ==>
                unchanged(tickers) && NoneBefore(queue.contents, queue.ClockAt(now) + 1)
      ensures (step.InterruptPass? && next.inInterrupt) || unchanged(queue`calls)
      // Timers.
      ensures step.OnTimer() || unchanged(timers)
      ensures step.OnTimer() ==> forall t | t in timers && t != step.timer :: unchanged(t)
      ensures step.TimerStart? ==> step.timer.running && step.timer.time == old(step.timer.time)
      ensures step.TimerStart? ==>
                step.timer.startTime == if old(step.timer.running) then old(step.timer.startTime) else queue.ClockAt(now)
      ensures step.TimerStop? ==> !step.timer.running
      ensures step.TimerStop? ==>
                step.timer.time ==
                  old(step.timer.time)
                  + if old(step.timer.running) then queue.ClockAt(now) - old(step.timer.startTime) else 0
      ensures step.TimerReset? ==> step.timer.running == old(step.timer.running)
      ensures step.TimerReset? ==> step.timer.time == 0 && step.timer.startTime == queue.ClockAt(now)
      ensures step.TimerDestroy? ==> !step.timer.running
      // Serial ports.
      ensures forall s | s in serials && (step.OnSerial() ==> s != step.serial) :: s.irq[..] == old(s.irq[..])
      ensures step.SerialAttach? ==> step.serial.irq[step.slot] == step.callback
      ensures step.SerialAttach? ==>
                forall i | 0 <= i < IRQ_COUNT && i != step.slot :: step.serial.irq[i] == old(step.serial.irq[i])
      ensures step.SerialDestroy? ==> forall i | 0 <= i < IRQ_COUNT :: !step.serial.irq[i]
      // Lock objects.
      ensures forall n | n in locks && (step.OnLock() ==> n != step.name) ::
                n in next.locks && next.locks[n] == locks[n] && unchanged(locks[n])
      ensures next.locks.Keys == if step.LockCreate? then locks.Keys + {step.name}
                                 else if step.LockDestroy? then locks.Keys - {step.name} else locks.Keys
      ensures step.LockCreate? ==> next.locks[step.name].lockCount == 1
      ensures step.LockLock? || step.LockUnlock? ==> next.locks[step.name] == locks[step.name]
      ensures step.LockLock? ==> locks[step.name].lockCount == old(locks[step.name].lockCount) + 1
      ensures step.LockUnlock? ==> locks[step.name].lockCount == old(locks[step.name].lockCount) - 1
    {
      hide Valid, Queue.TimeValid;
      next, now := this, queue.hal.ticks;
      ClockStarted();
      if step.OnTicker() {
        DoTicker(step, step.ticker);
      } else if step.OnTimer() {
        now := DoTimer(step, step.timer);
      } else if step.OnSerial() {
        DoSerial(step, step.serial);
      } else if step.LockCreate? {
        next := CreateLock(step.name);
      } else if step.LockDestroy? {
        next := DestroyLock(step.name);
      } else if step.LockLock? || step.LockUnlock? {
        CallLock(step.name, step.LockLock?);
      } else if step.TimePasses? {
        PassTime();
      } else if step.CallbackComputes? {
        Compute();
      } else if step.InterruptEnter? {
        next := Enter();
      } else {
        next, now := Pass(step.user);
      }
    }

    /** Every run of enabled steps keeps every client in order, with all its expiries
        exact and the next one coming, and every reason to stay awake accounted for. */
    method Run(schedule: seq<Step>) returns (last: System)
      requires Valid()
      modifies queue, queue.hal, Events(), sleep, tickers, timers, Slots(), locks.Values
      ensures last == this.(locks := last.locks, inInterrupt := last.inInterrupt, callbackEnds := last.callbackEnds)
      ensures last.Valid()
    {
      hide Valid;
      last := this;
      for i := 0 to |schedule|
        invariant last == this.(locks := last.locks, inInterrupt := last.inInterrupt, callbackEnds := last.callbackEnds)
        invariant last.Valid()
        invariant forall l | l in last.locks.Values && l !in locks.Values :: fresh(l)
      {
        if last.Enabled(schedule[i]) && sleep.deepSleepLock < USHRT_MAX {
          ghost var now;
          last, now := last.Do(schedule[i]);
        }
      }
    }
  }
}
