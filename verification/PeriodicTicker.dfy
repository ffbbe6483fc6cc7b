/** Ticker and Timeout: callbacks repeated or run once from the ticker's queue. */
module PeriodicTicker {
  import opened EventQueue
  import opened TickerQueue
  import opened DeepSleep

  /** What a user callback does to the object that called it. */
  datatype UserAction = Nothing | Detach | Attach(delay: nat)

  /** A Ticker, or with oneShot a Timeout. */
  class Ticker {
    const queue: Queue
    const event: TickerEvent
    const sleep: SleepManager
    const id: nat
    const oneShot: bool
    const lockDeepSleep: bool
    var delay: nat
    var attached: bool              // the callback is not null
    // Since the last attachment: the first expiry, every expiry put in the
    // queue, and the clock at each call of the callback.
    ghost var first: nat
    ghost var expiries: seq<nat>
    ghost var calls: seq<nat>

    /** The k-th expiry is exactly k delays after the first. */
    ghost predicate Exact()
      reads this`first, this`expiries, this`delay
    {
      forall k | 0 <= k < |expiries| :: expiries[k] == first + k * delay
    }

    /** No call comes before its expiry. */
    ghost predicate NeverEarly(calls: seq<nat>)
      reads this`expiries
    {
      |calls| <= |expiries| && forall k | 0 <= k < |calls| :: calls[k] >= expiries[k]
    }

    ghost predicate HoldsSleep()
      reads sleep
    {
      Hold(this, 0) in sleep.holders
    }

    /** The state between the calls of the object's methods. */
    ghost predicate Valid()
      reads this, event, queue`nodes, sleep
    {
      ValidAfter(calls)
    }

    /** The state that is in order once these are the calls made. */
    ghost predicate ValidAfter(calls: seq<nat>)
      reads this, event, queue`nodes, sleep
    {
      && Exact() && NeverEarly(calls)
      && (oneShot ==> |expiries| <= 1)
      && (HoldsSleep() <==> attached && lockDeepSleep)
      && (attached <==> event in queue.nodes)
      && (attached ==> event.id == id && |expiries| == |calls| + 1 && event.timestamp == expiries[|calls|])
    }

    /** The state in which the queue calls the handler: its event has just been
        taken out of the queue, not before its time. */
    ghost predicate Expired()
      reads this, event, queue`nodes, queue`presentTime, sleep
    {
      && Exact() && NeverEarly(calls)
      && (oneShot ==> |expiries| <= 1)
      && (HoldsSleep() <==> lockDeepSleep)
      && attached && event !in queue.nodes
      && |expiries| == |calls| + 1 && event.timestamp == expiries[|calls|] <= queue.presentTime
    }

    /** The objects shared with other clients are in order. */
    ghost predicate Surroundings()
      reads queue, queue.hal, queue.nodes, sleep
    {
      queue.Valid() && sleep.Valid()
    }

    /** An operation on this object leaves alone what belongs to others: their
        reasons for holding the sleep lock and their queued events. */
    twostate predicate OthersUndisturbed()
      reads this, event, queue, queue.hal, queue.Members(), sleep
    {
      && (forall h | h in sleep.holders && h != Hold(this, 0) :: h in old(sleep.holders))
      && (forall h | h in old(sleep.holders) && h != Hold(this, 0) :: h in sleep.holders)
      && (forall n | n in queue.Members() && n != event ::
            n in old(queue.Members()) && n.timestamp == old(n.timestamp) && n.id == old(n.id))
      && (forall n | n in old(queue.Members()) && n != event :: n in queue.Members())
      && queue.presentTime >= old(queue.presentTime) && queue.updateTicks >= old(queue.updateTicks)
      && queue.hal.ticks >= old(queue.hal.ticks)
      && queue.handlerSet == old(queue.handlerSet)
    }

    /** An interrupt that was under way still is, for whatever event is first now. */
    twostate predicate StillScheduled()
      requires old(queue.TimeValid()) && queue.TimeValid()
      reads queue, queue.hal
    {
      old(queue.Scheduled()) ==> queue.Scheduled()
    }

    constructor (queue: Queue, event: TickerEvent, sleep: SleepManager, id: nat, oneShot: bool, lockDeepSleep: bool)
      requires event !in queue.nodes
      requires sleep.Valid() && forall h | h in sleep.holders :: allocated(h.owner)
      ensures this.queue == queue && this.event == event && this.sleep == sleep
      ensures this.id == id && this.oneShot == oneShot && this.lockDeepSleep == lockDeepSleep
      ensures Valid() && !attached
    {
      this.queue, this.event, this.sleep, this.id := queue, event, sleep, id;
      this.oneShot, this.lockDeepSleep := oneShot, lockDeepSleep;
      delay, attached := 0, false;
      first, expiries, calls := 0, [], [];
    }

    /** Removes the event, if queued, and inserts it one delay from now. */
    method Setup(t: nat)
      requires queue.Valid()
      modifies this`delay, this`first, this`expiries, this`calls
      modifies queue`tickLastRead, queue`tickRemainder, queue`presentTime, queue`updateTicks, queue.hal
      modifies queue`head, queue`nodes, queue`contents, queue`ledger, queue.Members(), event
      ensures queue.Valid() && delay == t && StillScheduled()
      ensures queue.updateTicks >= old(queue.updateTicks) && queue.hal.ticks >= old(queue.hal.ticks)
      ensures queue.presentTime >= old(queue.presentTime)
      ensures event in queue.nodes && forall n :: n in queue.nodes <==> n == event || n in old(queue.nodes)
      ensures forall n | n in old(queue.nodes) && n != event :: n.timestamp == old(n.timestamp) && n.id == old(n.id)
      ensures exists now | old(queue.hal.ticks) <= now <= queue.hal.ticks && now >= queue.startTicks ::
                first == queue.ClockAt(now) + t
      ensures expiries == [first] && calls == [] && event.timestamp == first && event.id == id
    {
      hide Queue.TimeValid, Queue.ListValid, Queue.ContentsValid, Queue.Scheduled, Queue.Renewed, Insert, RemoveAt, CutAt;
      queue.RemoveEvent(event);
      delay := t;
      queue.UpdatePresentTime();
      ghost var now := queue.hal.ticks;
      queue.InsertEventUs(event, delay + queue.presentTime, id);
      first, expiries, calls := event.timestamp, [event.timestamp], [];
      assert first == queue.ClockAt(now) + t;
    }

    method AttachUs(t: nat)
      requires Surroundings() && Valid() && sleep.deepSleepLock < USHRT_MAX
      modifies this, queue, queue.hal, queue.Members(), event, sleep
      ensures Surroundings() && Valid() && attached && delay == t && calls == []
      ensures OthersUndisturbed() && StillScheduled() && unchanged(queue`calls)
      ensures exists now | old(queue.hal.ticks) <= now <= queue.hal.ticks && now >= queue.startTicks ::
                first == queue.ClockAt(now) + t
    {
      hide Queue.Valid, Queue.ClockAt;
      if !attached && lockDeepSleep {
        sleep.LockDeepSleep(Hold(this, 0));
      }
      attached := true;
      Setup(t);
    }

    method DetachTicker()
      requires Surroundings() && (Valid() || Expired())
      modifies this`attached, queue, queue.hal, queue.Members(), sleep
      ensures Surroundings() && Valid() && !attached && unchanged(queue`calls)
      ensures OthersUndisturbed() && StillScheduled() && sleep.deepSleepLock <= old(sleep.deepSleepLock)
    {
      hide Queue.Valid;
      queue.RemoveEvent(event);
      if attached && lockDeepSleep {
        sleep.UnlockDeepSleep(Hold(this, 0));
      }
      attached := false;
    }

    /** The callback proper: it may detach the object or attach it anew. */
    method Call(user: UserAction, ghost clock: nat)
      requires Surroundings() && ValidAfter(calls + [clock]) && sleep.deepSleepLock < USHRT_MAX
      modifies this, queue, queue.hal, queue.Members(), event, sleep
      ensures Surroundings() && Valid() && OthersUndisturbed() && StillScheduled() && unchanged(queue`calls)
      ensures !user.Attach? ==>
                calls == old(calls) + [clock] && delay == old(delay) && first == old(first) && expiries == old(expiries)
      ensures attached == (user.Attach? || (user.Nothing? && old(attached)))
      ensures user.Attach? ==> calls == [] && delay == user.delay
      ensures user.Attach? ==>
                exists now | old(queue.hal.ticks) <= now <= queue.hal.ticks && now >= queue.startTicks ::
                  first == queue.ClockAt(now) + user.delay
    {
      hide Queue.Valid, Exact, NeverEarly;
      calls := calls + [clock];
      match user {
        case Nothing =>
        case Detach => DetachTicker();
        case Attach(t) => AttachUs(t);
      }
    }

    /** The handler up to the callback. A Ticker queues its next expiry counted from
        the expiry itself, not from the late present; a Timeout detaches. */
    method Rearm()
      requires Surroundings() && Expired()
      modifies this`attached, this`expiries, queue, queue.hal, queue.Members(), event, sleep
      ensures Surroundings() && ValidAfter(calls + [old(queue.presentTime)])
      ensures OthersUndisturbed() && StillScheduled() && unchanged(queue`calls)
      ensures sleep.deepSleepLock <= old(sleep.deepSleepLock)
      ensures !oneShot ==> attached && expiries == old(expiries) + [first + |old(expiries)| * delay]
      ensures oneShot ==> !attached && expiries == old(expiries) && |calls| == 0
    {
      hide Queue.TimeValid, Queue.ListValid, Queue.ContentsValid, Queue.Scheduled, Queue.Renewed, Insert;
      if oneShot {
        DetachTicker();
      } else {
        NextExpiry();
        queue.InsertEventUs(event, event.timestamp + delay, id);
        expiries := expiries + [event.timestamp];
      }
    }

    /** What the queue calls when the event expires. A Ticker's next expiry is queued
        and a Timeout is detached before the callback is made, so that what the
        callback does to the object stands. */
    method Handler(user: UserAction)
      requires Surroundings() && Expired() && sleep.deepSleepLock < USHRT_MAX
      modifies this, queue, queue.hal, queue.Members(), event, sleep
      ensures Surroundings() && Valid() && OthersUndisturbed() && StillScheduled() && unchanged(queue`calls)
      ensures !user.Attach? ==>
                calls == old(calls) + [old(queue.presentTime)] && delay == old(delay) && first == old(first)
      ensures !user.Attach? ==>
                expiries == old(expiries) + if oneShot then [] else [first + |old(expiries)| * delay]
      ensures attached == (user.Attach? || (user.Nothing? && !oneShot))
      ensures user.Attach? ==> calls == [] && delay == user.delay
      ensures user.Attach? ==>
                exists now | old(queue.hal.ticks) <= now <= queue.hal.ticks && now >= queue.startTicks ::
                  first == queue.ClockAt(now) + user.delay
    {
      hide Queue.Valid, Queue.ClockAt, Exact, NeverEarly;
      ghost var clock := queue.presentTime;
      Rearm();
      Call(user, clock);
    }

    /** What a callback made when the clock showed a given time leaves behind. */
    twostate predicate Called(user: UserAction, clock: nat)
      requires queue.hal.frequency > 0
      reads this, queue.hal
    {
      && attached == (user.Attach? || (user.Nothing? && !oneShot))
      && (if user.Attach? then
            calls == [] && delay == user.delay && FirstFromNow()
          else
            calls == old(calls) + [clock] && delay == old(delay) && first == old(first) &&
            expiries == old(expiries) + if oneShot then [] else [first + |old(expiries)| * delay])
    }

    /** The first expiry is one delay after a reading of the clock made since. */
    twostate predicate FirstFromNow()
      requires queue.hal.frequency > 0
      reads this, queue.hal
    {
      exists now | old(queue.hal.ticks) <= now <= queue.hal.ticks && now >= queue.startTicks ::
        first == queue.ClockAt(now) + delay
    }

    lemma NextExpiry()
      requires Exact() && expiries != []
      ensures expiries[|expiries| - 1] + delay == first + |expiries| * delay
    {
    }

    /** The queue's dispatch of this object's event, right after reading the clock;
        the callback computes before and after what it does to the object. */
    method Expire(user: UserAction) returns (limit: nat)
      requires Surroundings() && Valid() && sleep.deepSleepLock < USHRT_MAX
      requires queue.head == event && queue.handlerSet && event.timestamp <= queue.presentTime
      requires queue.hal.ticks == queue.updateTicks
      modifies this, queue, queue.hal, queue.Members(), event, sleep
      ensures Surroundings() && Valid() && OthersUndisturbed()
      ensures Called(user, old(queue.presentTime))
      ensures queue.calls == old(queue.calls) + [HandlerCall(id, old(queue.presentTime))]
      ensures limit == old(queue.updateTicks) + queue.hal.workTicks
    {
      hide Queue.TimeValid, Queue.ListValid, Queue.ContentsValid, Queue.Scheduled, Exact, NeverEarly, RemoveAt;
      limit := Take();
      Handler(user);
      queue.Compute(limit);
    }

    /** The dispatch up to the handler's first operation. */
    method Take() returns (limit: nat)
      requires Surroundings() && Valid()
      requires queue.head == event && queue.handlerSet && event.timestamp <= queue.presentTime
      requires queue.hal.ticks == queue.updateTicks
      modifies queue`head, queue`nodes, queue`contents, queue`ledger, queue`calls
      modifies queue.hal`ticks, queue.hal`pending, queue.hal`serveBy
      ensures Surroundings() && Expired() && OthersUndisturbed()
      ensures queue.calls == old(queue.calls) + [HandlerCall(id, queue.presentTime)]
      ensures limit == queue.updateTicks + queue.hal.workTicks && queue.updateTicks == old(queue.updateTicks)
    {
      hide Queue.TimeValid, Queue.ListValid, Queue.ContentsValid, Exact, NeverEarly, RemoveAt;
      var p, f := queue.PopHead();
      queue.CallHandler(p.id);
      limit := queue.hal.ticks + queue.hal.workTicks;
      queue.Compute(limit);
    }
  }
}
