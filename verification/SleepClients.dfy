/** The other clients of the deep-sleep lock: stopwatches, serial ports and
    explicit lock objects. */
module SleepClients {
  import opened TickerQueue
  import opened DeepSleep

  /** A stopwatch on the ticker's clock. */
  class Timer {
    const queue: Queue
    const sleep: SleepManager
    const lockDeepSleep: bool
    var running: bool
    var startTime: nat
    var time: nat

    ghost predicate HoldsSleep()
      reads this, sleep
    {
      Hold(this, 0) in sleep.holders
    }

    ghost predicate Valid()
      reads this, queue`presentTime, sleep
    {
      && (HoldsSleep() <==> running && lockDeepSleep)
      && (running ==> startTime <= queue.presentTime)
    }

    twostate predicate OthersUndisturbed()
      reads sleep
    {
      && (forall h | h in sleep.holders && h != Hold(this, 0) :: h in old(sleep.holders))
      && (forall h | h in old(sleep.holders) && h != Hold(this, 0) :: h in sleep.holders)
    }

    constructor (queue: Queue, sleep: SleepManager, lockDeepSleep: bool)
      requires queue.Valid() && sleep.Valid() && forall h | h in sleep.holders :: allocated(h.owner)
      modifies queue`tickLastRead, queue`tickRemainder, queue`presentTime, queue`updateTicks
      modifies queue.hal`ticks, queue.hal`pending, queue.hal`serveBy
      ensures this.queue == queue && this.sleep == sleep && this.lockDeepSleep == lockDeepSleep
      ensures queue.Valid() && queue.presentTime >= old(queue.presentTime)
      ensures Valid() && !running && time == 0
      ensures old(queue.hal.ticks) <= queue.updateTicks <= queue.hal.ticks
      ensures startTime == queue.ClockAt(queue.updateTicks)
    {
      this.queue, this.sleep, this.lockDeepSleep := queue, sleep, lockDeepSleep;
      running, startTime, time := false, 0, 0;
      new;
      Reset();
    }

    /** Time measured up to an instant: the finished slices and the running one. */
    ghost function Measured(now: nat): int
      reads this
    {
      time + if running then now - startTime else 0
    }

    method Start()
      requires queue.Valid() && sleep.Valid() && Valid() && sleep.deepSleepLock < USHRT_MAX
      modifies this, sleep
      modifies queue`tickLastRead, queue`tickRemainder, queue`presentTime, queue`updateTicks
      modifies queue.hal`ticks, queue.hal`pending, queue.hal`serveBy
      ensures queue.Valid() && sleep.Valid() && Valid() && OthersUndisturbed() && running
      ensures queue.presentTime >= old(queue.presentTime)
      ensures old(queue.Scheduled()) ==> queue.Scheduled()
      ensures queue.updateTicks >= old(queue.updateTicks) && queue.hal.ticks >= old(queue.hal.ticks)
      ensures time == old(time)
      ensures if old(running) then startTime == old(startTime)
              else old(queue.hal.ticks) <= queue.updateTicks <= queue.hal.ticks &&
                   startTime == queue.ClockAt(queue.updateTicks)
      // Starting costs no time: what was measured stays measured.
      ensures Measured(if old(running) then old(queue.presentTime) else queue.presentTime)
           == old(Measured(queue.presentTime))
    {
      hide Queue.TimeValid, Queue.ListValid, Queue.ContentsValid, Queue.Scheduled;
      if !running {
        if lockDeepSleep {
          sleep.LockDeepSleep(Hold(this, 0));
        }
        queue.UpdatePresentTime();
        startTime := queue.presentTime;
        running := true;
      }
    }

    /** What has been measured so far, up to a reading of the clock made now. */
    method ReadHighResolutionUs() returns (total: nat)
      requires queue.Valid() && Valid()
      modifies queue`tickLastRead, queue`tickRemainder, queue`presentTime, queue`updateTicks
      modifies queue.hal`ticks, queue.hal`pending, queue.hal`serveBy
      ensures queue.Valid() && Valid() && queue.presentTime >= old(queue.presentTime)
      ensures old(queue.Scheduled()) ==> queue.Scheduled()
      ensures queue.updateTicks >= old(queue.updateTicks) && queue.hal.ticks >= old(queue.hal.ticks)
      ensures if !running then total == time
              else old(queue.hal.ticks) <= queue.updateTicks <= queue.hal.ticks &&
                   total == time + queue.ClockAt(queue.updateTicks) - startTime
    {
      hide Queue.TimeValid, Queue.ListValid, Queue.ContentsValid, Queue.Scheduled;
      var slice := SliceTime();
      total := time + slice;
    }

    method SliceTime() returns (slice: nat)
      requires queue.Valid() && Valid()
      modifies queue`tickLastRead, queue`tickRemainder, queue`presentTime, queue`updateTicks
      modifies queue.hal`ticks, queue.hal`pending, queue.hal`serveBy
      ensures queue.Valid() && Valid() && queue.presentTime >= old(queue.presentTime)
      ensures old(queue.Scheduled()) ==> queue.Scheduled()
      ensures queue.updateTicks >= old(queue.updateTicks) && queue.hal.ticks >= old(queue.hal.ticks)
      ensures if !running then slice == 0
              else old(queue.hal.ticks) <= queue.updateTicks <= queue.hal.ticks &&
                   slice == queue.ClockAt(queue.updateTicks) - startTime
      ensures time + slice == Measured(queue.presentTime)
    {
      hide Queue.TimeValid, Queue.ListValid, Queue.ContentsValid, Queue.Scheduled;
      slice := 0;
      if running {
        queue.UpdatePresentTime();
        slice := queue.presentTime - startTime;
      }
    }

    method Stop()
      requires queue.Valid() && sleep.Valid() && Valid()
      modifies this, sleep
      modifies queue`tickLastRead, queue`tickRemainder, queue`presentTime, queue`updateTicks
      modifies queue.hal`ticks, queue.hal`pending, queue.hal`serveBy
      ensures queue.Valid() && sleep.Valid() && Valid() && OthersUndisturbed() && !running
      ensures queue.presentTime >= old(queue.presentTime)
      ensures old(queue.Scheduled()) ==> queue.Scheduled()
      ensures queue.updateTicks >= old(queue.updateTicks) && queue.hal.ticks >= old(queue.hal.ticks)
      ensures if !old(running) then time == old(time)
              else old(queue.hal.ticks) <= queue.updateTicks <= queue.hal.ticks &&
                   time == old(time) + queue.ClockAt(queue.updateTicks) - old(startTime)
    {
      hide Queue.TimeValid, Queue.ListValid, Queue.ContentsValid, Queue.Scheduled;
      var slice := SliceTime();
      time := time + slice;
      if running {
        if lockDeepSleep {
          sleep.UnlockDeepSleep(Hold(this, 0));
        }
      }
      running := false;
    }

    /** Restarts the measurement without starting or stopping. */
    method Reset()
      requires queue.Valid() && Valid()
      modifies this`startTime, this`time
      modifies queue`tickLastRead, queue`tickRemainder, queue`presentTime, queue`updateTicks
      modifies queue.hal`ticks, queue.hal`pending, queue.hal`serveBy
      ensures queue.Valid() && Valid() && queue.presentTime >= old(queue.presentTime)
      ensures old(queue.Scheduled()) ==> queue.Scheduled()
      ensures queue.updateTicks >= old(queue.updateTicks) && queue.hal.ticks >= old(queue.hal.ticks)
      ensures old(queue.hal.ticks) <= queue.updateTicks <= queue.hal.ticks
      ensures startTime == queue.ClockAt(queue.updateTicks) && time == 0
      ensures Measured(queue.presentTime) == 0
    {
      hide Queue.TimeValid, Queue.ListValid, Queue.ContentsValid, Queue.Scheduled;
      queue.UpdatePresentTime();
      startTime := queue.presentTime;
      time := 0;
    }

    /** The destructor. */
    method Destroy()
      requires sleep.Valid() && Valid()
      modifies this`running, sleep
      ensures sleep.Valid() && Valid() && OthersUndisturbed() && !running
    {
      if running {
        if lockDeepSleep {
          sleep.UnlockDeepSleep(Hold(this, 0));
        }
      }
      running := false;
    }
  }

  const IRQ_COUNT: nat := 2

  /** The interrupt callbacks of a serial port, one slot for each direction. */
  class SerialBase {
    const sleep: SleepManager
    const irq: array<bool>      // the slot's callback is not null

    ghost predicate Valid()
      reads this, irq, sleep
    {
      && irq.Length == IRQ_COUNT
      && forall i: nat | i < IRQ_COUNT :: Hold(this, i) in sleep.holders <==> irq[i]
    }

    twostate predicate OthersUndisturbed()
      reads sleep
    {
      && (forall h | h in sleep.holders && h.owner != this :: h in old(sleep.holders))
      && (forall h | h in old(sleep.holders) && h.owner != this :: h in sleep.holders)
    }

    ghost predicate SlotsOnly()
      reads sleep
    {
      forall h | h in sleep.holders && h.owner == this :: h.slot < IRQ_COUNT
    }

    constructor (sleep: SleepManager)
      requires sleep.Valid() && forall h | h in sleep.holders :: allocated(h.owner)
      ensures this.sleep == sleep && fresh(irq) && Valid() && SlotsOnly()
      ensures forall i | 0 <= i < IRQ_COUNT :: !irq[i]
    {
      this.sleep := sleep;
      irq := new bool[IRQ_COUNT](_ => false);
    }

    /** Installs a callback in a slot, or with callback false removes it. */
    method Attach(callback: bool, slot: nat)
      requires sleep.Valid() && Valid() && SlotsOnly() && slot < IRQ_COUNT
      requires callback ==> sleep.deepSleepLock < USHRT_MAX
      modifies irq, sleep
      ensures sleep.Valid() && Valid() && SlotsOnly() && OthersUndisturbed()
      ensures irq[slot] == callback && forall i | 0 <= i < IRQ_COUNT && i != slot :: irq[i] == old(irq[i])
      ensures !callback ==> sleep.deepSleepLock <= old(sleep.deepSleepLock)
    {
      if callback {
        if !irq[slot] {
          sleep.LockDeepSleep(Hold(this, slot));
        }
        irq[slot] := true;
      } else {
        if irq[slot] {
          sleep.UnlockDeepSleep(Hold(this, slot));
        }
        irq[slot] := false;
      }
    }

    /** The destructor releases every slot. */
    method Destroy()
      requires sleep.Valid() && Valid() && SlotsOnly()
      modifies irq, sleep
      ensures sleep.Valid() && Valid() && SlotsOnly() && OthersUndisturbed()
      ensures forall h | h in sleep.holders :: h.owner != this
    {
      var i := 0;
      while i < IRQ_COUNT
        invariant 0 <= i <= IRQ_COUNT
        invariant sleep.Valid() && Valid() && SlotsOnly() && OthersUndisturbed()
        invariant forall j | 0 <= j < i :: !irq[j]
      {
        Attach(false, i);
        i := i + 1;
      }
      assert forall h | h in sleep.holders :: h.owner == this ==> h == Hold(this, h.slot);
    }
  }

  /** A counting lock object. */
  class DeepSleepLock {
    const sleep: SleepManager
    var lockCount: nat
    var fault: bool

    ghost predicate Valid()
      reads this, sleep
    {
      && lockCount <= USHRT_MAX && !fault
      && (Hold(this, 0) in sleep.holders <==> lockCount > 0)
    }

    twostate predicate OthersUndisturbed()
      reads sleep
    {
      && (forall h | h in sleep.holders && h != Hold(this, 0) :: h in old(sleep.holders))
      && (forall h | h in old(sleep.holders) && h != Hold(this, 0) :: h in sleep.holders)
    }

    constructor (sleep: SleepManager)
      requires sleep.Valid() && forall h | h in sleep.holders :: allocated(h.owner)
      requires sleep.deepSleepLock < USHRT_MAX
      modifies sleep
      ensures this.sleep == sleep && sleep.Valid() && Valid() && lockCount == 1
      ensures sleep.holders == old(sleep.holders) + {Hold(this, 0)}
    {
      this.sleep, lockCount, fault := sleep, 1, false;
      new;
      sleep.LockDeepSleep(Hold(this, 0));
    }

    method Lock()
      requires sleep.Valid() && Valid() && sleep.deepSleepLock < USHRT_MAX
      modifies this, sleep
      ensures sleep.Valid() && OthersUndisturbed()
      ensures old(lockCount) < USHRT_MAX ==> Valid() && lockCount == old(lockCount) + 1
      ensures old(lockCount) == USHRT_MAX ==> fault && lockCount == 0 && unchanged(sleep)
    {
      lockCount := (lockCount + 1) % 0x1_0000;
      if lockCount == 1 {
        sleep.LockDeepSleep(Hold(this, 0));
      }
      if lockCount == 0 {
        fault := true;
      }
    }

    method Unlock()
      requires sleep.Valid() && Valid()
      modifies this, sleep
      ensures sleep.Valid() && OthersUndisturbed()
      ensures old(lockCount) > 0 ==> Valid() && lockCount == old(lockCount) - 1
      ensures old(lockCount) == 0 ==> fault && lockCount == USHRT_MAX && unchanged(sleep)
    {
      lockCount := (lockCount - 1) % 0x1_0000;
      if lockCount == 0 {
        sleep.UnlockDeepSleep(Hold(this, 0));
      }
      if lockCount == USHRT_MAX {
        fault := true;
      }
    }

    /** The destructor. */
    method Destroy()
      requires sleep.Valid() && Valid()
      modifies sleep
      ensures sleep.Valid() && OthersUndisturbed() && Hold(this, 0) !in sleep.holders
    {
      if lockCount != 0 {
        sleep.UnlockDeepSleep(Hold(this, 0));
      }
    }
  }
}
