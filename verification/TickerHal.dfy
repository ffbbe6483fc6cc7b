/** The hardware a ticker drives: a free-running counter of a few bits with one
    compare register and an interrupt that can also be raised by software. */
module TickerHal {
  import opened Words
  import opened TickerTime

  /** A tick source. `ticks` counts without bound; software sees it modulo 2^bits.
      What the environment is trusted with is how fast it is: how long a register
      operation takes, how long a request may wait for its interrupt, and how long
      the callbacks of one event may compute. */
  class Counter {
    const bits: nat
    const frequency: nat
    const opTicks: nat      // longest time one register operation takes
    const latency: nat      // longest time a request waits for its interrupt
    const workTicks: nat    // longest time one callback computes
    var ticks: nat
    var pending: bool       // interrupt requested and not yet acknowledged
    var armed: bool
    var matchAt: nat        // tick at which the compare register next matches
    var serveBy: nat        // when a pending request is served at the latest
    ghost var acknowledged: nat     // how often software cleared the interrupt

    constructor (bits: nat, frequency: nat, opTicks: nat, latency: nat, workTicks: nat, ticks: nat)
      requires 4 <= bits <= 32 && 0 < frequency < U32_RANGE
      ensures Valid() && !pending && !armed
      ensures this.bits == bits && this.frequency == frequency && this.ticks == ticks
      ensures this.opTicks == opTicks && this.latency == latency && this.workTicks == workTicks
    {
      this.bits, this.frequency, this.ticks := bits, frequency, ticks;
      this.opTicks, this.latency, this.workTicks := opTicks, latency, workTicks;
      pending, armed, matchAt := false, false, 0;
      serveBy, acknowledged := 0, 0;
    }

    ghost predicate Valid()
      reads this`ticks, this`pending, this`serveBy
    {
      4 <= bits <= 32 && 0 < frequency < U32_RANGE && (pending ==> serveBy <= ticks + latency)
    }

    /** Fast enough: an interrupt requested at the farthest compare value, 7/16 of
        a period away, is still served before the counter comes round. */
    ghost predicate Prompt()
      requires bits >= 4
    {
      && 2 * opTicks <= MaxDelta(bits)
      && workTicks <= MaxDelta(bits) + latency
      && 16 * (latency + opTicks) < 9 * Pow2(bits)
    }

    /** Will the compare register raise the interrupt in between? */
    predicate Matches(from: nat, to: nat)
      reads this
    {
      armed && from < matchAt <= to
    }

    /** Time passes up to a given tick. */
    method Advance(now: nat)
      requires Valid() && ticks <= now
      modifies this`ticks, this`pending, this`serveBy
      ensures Valid() && ticks == now
      ensures pending == (old(pending) || Matches(old(ticks), ticks))
      ensures pending ==> serveBy == if old(pending) then old(serveBy) else matchAt + latency
    {
      if !pending && Matches(ticks, now) {
        pending, serveBy := true, matchAt + latency;
      }
      ticks := now;
    }

    /** A request that is pending, or comes until then, is not yet overdue. */
    predicate InTime(now: nat)
      reads this
    {
      if pending then now <= serveBy else Matches(ticks, now) ==> now <= matchAt + latency
    }

    /** Time passes outside the ticker's code, as much as it likes but for a request,
        old or new, which is served in time. */
    method Elapse()
      requires Valid()
      modifies this`ticks, this`pending, this`serveBy
      ensures Valid() && old(ticks) <= ticks
      ensures pending == (old(pending) || Matches(old(ticks), ticks))
      ensures pending ==> serveBy == if old(pending) then old(serveBy) else matchAt + latency
      ensures pending && ticks > old(ticks) ==> ticks <= serveBy
    {
      var now: nat :| ticks <= now && (now > ticks ==> InTime(now));
      assert now > ticks ==> InTime(now);
      Advance(now);
    }

    /** A callback computes, until a given tick at the latest. */
    method Work(limit: nat)
      requires Valid()
      modifies this`ticks, this`pending, this`serveBy
      ensures Valid() && old(ticks) <= ticks && (ticks > old(ticks) ==> ticks <= limit)
      ensures pending == (old(pending) || Matches(old(ticks), ticks))
      ensures pending ==> serveBy == if old(pending) then old(serveBy) else matchAt + latency
    {
      var now: nat :| ticks <= now && (now > ticks ==> now <= limit);
      Advance(now);
    }

    method Read() returns (count: nat)
      requires Valid()
      modifies this`ticks, this`pending, this`serveBy
      ensures Valid() && old(ticks) <= ticks <= old(ticks) + opTicks
      ensures pending == (old(pending) || Matches(old(ticks), ticks))
      ensures pending ==> serveBy == if old(pending) then old(serveBy) else matchAt + latency
      ensures count == ticks % Pow2(bits)
    {
      var now: nat :| ticks <= now <= ticks + opTicks;
      Advance(now);
      count := ticks % Pow2(bits);
    }

    /** Takes effect after at most opTicks; the compare register then matches the
        first time the counter increments to the given value. */
    method SetInterrupt(count: nat)
      requires Valid() && count < Pow2(bits)
      modifies this`ticks, this`pending, this`armed, this`matchAt, this`serveBy
      ensures Valid() && old(ticks) <= ticks <= old(ticks) + opTicks
      ensures pending == (old(pending) || (old(armed) && old(ticks) < old(matchAt) <= ticks))
      ensures armed && matchAt == NextMatch(ticks, count, Pow2(bits))
    {
      var now: nat :| ticks <= now <= ticks + opTicks;
      Advance(now);
      armed, matchAt := true, NextMatch(now, count, Pow2(bits));
    }

    method FireInterrupt()
      requires Valid()
      modifies this`pending, this`serveBy
      ensures Valid() && pending
    {
      if !pending {
        pending, serveBy := true, ticks + latency;
      }
    }

    method ClearInterrupt()
      requires Valid()
      modifies this`pending, this`acknowledged
      ensures Valid() && !pending && acknowledged == old(acknowledged) + 1
    {
      pending, acknowledged := false, acknowledged + 1;
    }
  }
}
