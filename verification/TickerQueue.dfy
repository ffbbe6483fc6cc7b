/** The ticker: a microsecond clock over a wrapping counter and an
    interrupt-driven queue of events in a linked list. */
module TickerQueue {
  import opened Words
  import opened TickerTime
  import opened EventQueue
  import opened TickerHal

  /** An event structure owned by client code and linked into a queue. */
  class TickerEvent {
    var timestamp: nat
    var id: nat
    var next: TickerEvent?

    constructor ()
      ensures next == null
    {
      timestamp, id, next := 0, 0, null;
    }
  }

  ghost predicate Distinct(nodes: seq<TickerEvent>) {
    forall i, j | 0 <= i < j < |nodes| :: nodes[i] != nodes[j]
  }

  lemma SpliceKeepsDistinct(nodes: seq<TickerEvent>, k: nat, n: TickerEvent)
    requires Distinct(nodes) && k <= |nodes| && n !in nodes
    ensures Distinct(nodes[..k] + [n] + nodes[k..])
    ensures forall o :: o in nodes[..k] + [n] + nodes[k..] <==> o in nodes || o == n
  {
    assert nodes == nodes[..k] + nodes[k..];
  }

  lemma CutKeepsDistinct(nodes: seq<TickerEvent>, k: nat)
    requires Distinct(nodes) && k < |nodes|
    ensures Distinct(nodes[..k] + nodes[k + 1..])
    ensures forall n :: n in nodes[..k] + nodes[k + 1..] <==> n in nodes && n != nodes[k]
  {
    assert nodes == nodes[..k] + [nodes[k]] + nodes[k + 1..];
  }

  class Queue {
    const hal: Counter
    // Fields of the source's queue structure; those fixed by the initialisation are constants.
    var handlerSet: bool
    var head: TickerEvent?
    const frequency: nat
    const bitmask: nat
    const maxDelta: nat
    const maxDeltaUs: nat
    var tickLastRead: nat
    var tickRemainder: nat
    var presentTime: nat
    const frequencyShifts: nat
    // Specification state: counter ticks at initialisation and at the last
    // update, the list's nodes and their abstract value, the ledger, and the calls
    // of the event handler.
    ghost const startTicks: nat
    ghost var updateTicks: nat
    ghost var nodes: seq<TickerEvent>
    ghost var contents: seq<Entry>
    ghost var ledger: seq<Fate>
    ghost var calls: seq<HandlerCall>

    // -------------------------------------------------------------------
    // Invariants
    // -------------------------------------------------------------------

    /** The clock at an arbitrary tick. */
    ghost function ClockAt(tick: nat): nat
      requires tick >= startTicks && hal.frequency > 0
    {
      Micros(tick - startTicks, hal.frequency)
    }

    /** What the initialisation fixes. */
    ghost predicate Configured() {
      && ValidRate(hal.bits, hal.frequency, frequencyShifts)
      && frequency == hal.frequency
      && bitmask == Pow2(hal.bits) - 1
      && maxDelta == MaxDelta(hal.bits)
      && maxDeltaUs == MaxDeltaUs(hal.bits, hal.frequency)
    }

    /** Time is exact as of the last update, and that was not so long ago that the
        next one could come too late. */
    ghost predicate TimeValid()
      reads this`tickLastRead, this`tickRemainder, this`presentTime, this`updateTicks
      reads hal`ticks, hal`pending, hal`serveBy
      ensures TimeValid() ==> hal.frequency > 0 && startTicks <= updateTicks <= hal.ticks
    {
      && hal.Valid()
      && Configured()
      && Exact(Clock(tickLastRead, tickRemainder, presentTime), startTicks, updateTicks, hal.bits, hal.frequency)
      && tickLastRead == updateTicks % Pow2(hal.bits)
      && presentTime == ClockAt(updateTicks)
      && startTicks <= updateTicks <= hal.ticks
      && hal.Prompt() && hal.ticks <= updateTicks + maxDelta + hal.latency
    }

    ghost function NodeAt(i: nat): TickerEvent?
      reads this`nodes
    {
      if i < |nodes| then nodes[i] else null
    }

    ghost function Members(): set<TickerEvent>
      reads this`nodes
    {
      set n | n in nodes
    }

    /** The linked list is acyclic and represents the contents. */
    ghost predicate ListValid()
      reads this`head, this`nodes, this`contents, nodes
      ensures ListValid() ==> |nodes| == |contents|
      ensures ListValid() ==> if head == null then contents == [] else contents != [] && head.timestamp == contents[0].timestamp
    {
      && |nodes| == |contents|
      && head == NodeAt(0)
      && (forall i {:trigger nodes[i].next} | 0 <= i < |nodes| :: nodes[i].next == NodeAt(i + 1))
      && (forall i {:trigger nodes[i].timestamp} {:trigger contents[i]} | 0 <= i < |nodes| ::
            nodes[i].timestamp == contents[i].timestamp && nodes[i].id == contents[i].id)
      && Distinct(nodes)
    }

    /** The contents are sorted and agree with the ledger. */
    ghost predicate ContentsValid()
      reads this`contents, this`ledger
    {
      Sorted(contents) && Balanced(contents, ledger)
    }

    ghost predicate Valid()
      reads this, hal, nodes
    {
      TimeValid() && ListValid() && ContentsValid()
    }

    /** No lost event: an interrupt is pending and will be served in time, or the
        compare register matches ahead of the counter, within maxDelta of the last
        update and not after the clock has passed the first event. */
    ghost predicate Scheduled()
      reads this`tickLastRead, this`tickRemainder, this`presentTime, this`updateTicks, hal
      reads this`contents
      requires TimeValid()
    {
      if hal.pending then hal.serveBy <= updateTicks + maxDelta + hal.latency
      else MatchAhead() && (contents != [] ==> ClockAt(hal.matchAt) <= contents[0].timestamp)
    }

    ghost predicate MatchAhead()
      reads this`updateTicks, hal
    {
      hal.armed && startTicks <= hal.ticks < hal.matchAt <= updateTicks + maxDelta
    }

    /** What scheduling leaves behind: either an interrupt is requested at a tick
        worth waking for, or the compare register, whether or not an older request is
        still pending, is programmed for one that is ahead and not too late. */
    ghost predicate Renewed()
      reads this`tickLastRead, this`tickRemainder, this`presentTime, this`updateTicks, hal
      reads this`contents
      requires TimeValid()
    {
      || (hal.pending && WorthWaking(hal.ticks))
      || (&& MatchAhead() && WorthWaking(hal.matchAt)
          && (contents != [] ==> ClockAt(hal.matchAt) <= contents[0].timestamp))
    }

    /** Nobody is woken needlessly: one tick later the first event is reached, or
        the tick is the farthest allowed. */
    ghost predicate WorthWaking(tick: nat)
      reads this`updateTicks, this`contents
      requires startTicks <= tick && hal.frequency > 0
    {
      tick >= updateTicks + maxDelta || (contents != [] && ClockAt(tick + 1) >= contents[0].timestamp)
    }

    // -------------------------------------------------------------------
    // Initialisation
    // -------------------------------------------------------------------

    constructor (hal: Counter)
      requires hal.Valid() && hal.Prompt()
      modifies hal
      ensures this.hal == hal && Valid() && Scheduled()
      ensures contents == [] && ledger == [] && calls == [] && !handlerSet && Renewed()
      ensures old(hal.ticks) <= startTicks
    {
      hide IsShift, Pow2, MaxDelta, MaxDeltaUs, Micros, Exact, ListValid, ContentsValid, Scheduled, Renewed;
      var shifts := FrequencyShifts(hal.frequency);
      var count := hal.Read();
      this.hal := hal;
      handlerSet, head := false, null;
      tickLastRead, tickRemainder, presentTime := count, 0, 0;
      frequency, frequencyShifts := hal.frequency, shifts;
      bitmask, maxDelta := Pow2(hal.bits) - 1, MaxDelta(hal.bits);
      maxDeltaUs := MaxDeltaUs(hal.bits, hal.frequency);
      startTicks, updateTicks := hal.ticks, hal.ticks;
      nodes, contents, ledger, calls := [], [], [], [];
      new;
      ExactAtStart(startTicks, hal.bits, frequency);
      NothingQueued();
      assert TimeValid();
      hide TimeValid;
      UpdatePresentTime();
      ScheduleInterrupt();
    }

    lemma NothingQueued()
      requires head == null && nodes == [] && contents == [] && ledger == []
      ensures ListValid() && ContentsValid()
    {
    }

    method SetHandler()
      modifies this`handlerSet
      ensures handlerSet
    {
      handlerSet := true;
    }

    // -------------------------------------------------------------------
    // Time
    // -------------------------------------------------------------------

    /** The next reading still comes within a period of the last update. */
    lemma ReadsBeforeWrap()
      requires TimeValid()
      ensures hal.ticks + hal.opTicks < updateTicks + Pow2(hal.bits)
    {
      WakeupLeavesNineSixteenths(updateTicks, updateTicks + maxDelta, hal.latency + hal.opTicks, hal.bits);
    }

    /** Reads the counter and advances the clock: afterwards the clock is exact
        at the tick just read, and scheduling is undisturbed. */
    method UpdatePresentTime()
      requires TimeValid()
      modifies this`tickLastRead, this`tickRemainder, this`presentTime, this`updateTicks
      modifies hal`ticks, hal`pending, hal`serveBy
      ensures TimeValid() && updateTicks == hal.ticks >= old(hal.ticks)
      ensures presentTime == ClockAt(hal.ticks) >= old(presentTime)
      ensures hal.pending == (old(hal.pending) || (hal.armed && old(hal.ticks) < hal.matchAt <= hal.ticks))
      ensures old(Scheduled()) ==> Scheduled()
    {
      hide Exact, Micros, Convert, ElapsedTicks, Elapsed, Pow2, MaxDelta, MaxDeltaUs, IsShift, ListValid, ContentsValid;
      ghost var before := Clock(tickLastRead, tickRemainder, presentTime);
      ReadsBeforeWrap();
      var tickerTime := hal.Read();
      UpdateKeepsExact(before, startTicks, updateTicks, hal.ticks, hal.bits, hal.frequency, frequencyShifts);
      ghost var after := Update(before, tickerTime, hal.bits, hal.frequency, frequencyShifts);
      ClockIsFloor(after.present, after.remainder, hal.ticks - startTicks, hal.frequency);
      MicrosMonotonic(updateTicks - startTicks, hal.ticks - startTicks, hal.frequency);
      updateTicks := hal.ticks;
      if tickerTime != tickLastRead {
        var elapsedTicks := Elapsed(tickerTime);
        tickLastRead := tickerTime;
        var elapsedUs := ConvertElapsed(elapsedTicks);
        presentTime := presentTime + elapsedUs;
      }
    }

    /** The masked difference of two readings. */
    function Elapsed(tickerTime: nat): (r: nat)
      requires bitmask == Pow2(hal.bits) - 1
      reads this`tickLastRead
      ensures r == ElapsedTicks(tickerTime, tickLastRead, hal.bits)
    {
      U32(tickerTime - tickLastRead) % (bitmask + 1)
    }

    /** The conversion of elapsed ticks, carrying the remainder. */
    method ConvertElapsed(elapsedTicks: nat) returns (elapsedUs: nat)
      requires frequency > 0
      modifies this`tickRemainder
      ensures (elapsedUs, tickRemainder) == Convert(elapsedTicks, old(tickRemainder), frequency, frequencyShifts)
    {
      hide U64, Pow2;
      if frequency == US_PER_SECOND {
        elapsedUs := elapsedTicks;
      } else if frequencyShifts != 0 {
        var usTicks := U64(elapsedTicks * US_PER_SECOND);
        elapsedUs := CarryRemainder(usTicks, Pow2(frequencyShifts));
      } else {
        var usTicks := U64(elapsedTicks * US_PER_SECOND);
        elapsedUs := CarryRemainder(usTicks, frequency);
      }
    }

    /** The part common to the last two branches. */
    method CarryRemainder(usTicks: nat, divisor: nat) returns (elapsedUs: nat)
      requires divisor > 0
      modifies this`tickRemainder
      ensures (elapsedUs, tickRemainder) == Carry(usTicks, divisor, old(tickRemainder), frequency)
    {
      elapsedUs := usTicks / divisor;
      var product := elapsedUs * divisor;
      QuotientTimesDivisor(usTicks, divisor);
      tickRemainder := tickRemainder + (usTicks - product);
      if tickRemainder >= frequency {
        elapsedUs := elapsedUs + 1;
        tickRemainder := tickRemainder - frequency;
      }
    }

    // -------------------------------------------------------------------
    // Scheduling
    // -------------------------------------------------------------------

    method ScheduleInterrupt()
      requires TimeValid() && ListValid()
      modifies this`tickLastRead, this`tickRemainder, this`presentTime, this`updateTicks, hal
      ensures TimeValid() && ListValid() && Scheduled() && Renewed()
      ensures hal.ticks >= updateTicks >= old(hal.ticks) && presentTime >= old(presentTime)
      // The interrupt is requested only for a reason.
      ensures hal.pending ==> old(hal.pending) || MatchedSince() || WorthWaking(hal.ticks)
      ensures hal.acknowledged == old(hal.acknowledged)
    {
      hide Exact, ClockAt, Configured, ListValid, ContentsValid;
      UpdatePresentTime();
      if head != null {
        var present := presentTime;
        var matchTime := head.timestamp;
        if matchTime <= present {
          ClockMonotonic(updateTicks, hal.ticks + 1);
          hal.FireInterrupt();
          return;
        }
        ArmForHead(matchTime);
      } else {
        ArmForWrap();
      }
    }

    /** The compare register as it was has matched. */
    twostate predicate MatchedSince()
      reads hal
    {
      old(hal.armed) && old(hal.ticks) < old(hal.matchAt) <= hal.ticks
    }

    /** Programs the interrupt for the first event, which lies ahead of the clock. */
    method ArmForHead(matchTime: nat)
      requires TimeValid() && hal.ticks == updateTicks
      requires contents != [] && matchTime == contents[0].timestamp > presentTime
      modifies hal`ticks, hal`pending, hal`armed, hal`matchAt, hal`serveBy
      ensures TimeValid() && Scheduled() && Renewed() && hal.ticks >= old(hal.ticks)
      ensures hal.pending ==> old(hal.pending) || MatchedSince() || WorthWaking(hal.ticks)
    {
      hide Exact, Micros, U32, Pow2, MaxDelta, MaxDeltaUs, IsShift, ComputeTick, ComputeDelta, NextMatch, MatchIntervalPassed;
      ghost var delta := ComputeDelta(matchTime - presentTime, hal.bits, frequency, frequencyShifts);
      MatchTickBracketsTarget(Clock(tickLastRead, tickRemainder, presentTime), startTicks, updateTicks, matchTime,
                              hal.bits, frequency, frequencyShifts);
      MaxDeltaBelowPeriod(hal.bits);
      var matchTick := ComputeTick(tickLastRead, matchTime - presentTime, hal.bits, frequency, frequencyShifts);
      if matchTick == tickLastRead {
        ArmAndRecheck(updateTicks, delta, hal.ticks, hal.ticks, hal.bits);
        ClockMonotonic(updateTicks + 1, hal.ticks + 1);
        hal.FireInterrupt();
        return;
      }
      hal.SetInterrupt(matchTick);
      ghost var armedAt := hal.ticks;
      var curTick := hal.Read();
      ArmAndRecheck(updateTicks, delta, armedAt, hal.ticks, hal.bits);
      if MatchIntervalPassed(tickLastRead, curTick, matchTick) {
        ClockMonotonic(updateTicks + delta + 1, hal.ticks + 1);
        hal.FireInterrupt();
      }
    }

    /** Programs the interrupt that keeps track of the counter's wrap-around. */
    method ArmForWrap()
      requires TimeValid() && hal.ticks == updateTicks && contents == []
      modifies hal`ticks, hal`pending, hal`armed, hal`matchAt, hal`serveBy
      ensures TimeValid() && Scheduled() && Renewed() && hal.ticks >= old(hal.ticks)
      ensures hal.pending ==> old(hal.pending) || MatchedSince()
    {
      hide Exact, Micros, U32, Pow2, MaxDelta, MaxDeltaUs, IsShift, NextMatch;
      var matchTick := U32(tickLastRead + maxDelta) % (bitmask + 1);
      hal.SetInterrupt(matchTick);
      ArmUnchecked(updateTicks, hal.ticks, hal.bits) by {
        MaxDeltaBelowPeriod(hal.bits);
      }
      MaxDeltaBelowPeriod(hal.bits);
    }

    // -------------------------------------------------------------------
    // The event list
    // -------------------------------------------------------------------

    /** The walk to the first event later than the timestamp. */
    method FindLater(timestamp: nat) returns (prev: TickerEvent?, p: TickerEvent?)
      requires ListValid()
      ensures var k := InsertPosition(contents, timestamp);
              && p == NodeAt(k)
              && prev == if k == 0 then null else nodes[k - 1]
    {
      prev, p := null, head;
      ghost var i := 0;
      while p != null
        invariant i <= |nodes|
        invariant p == NodeAt(i)
        invariant prev == if i == 0 then null else nodes[i - 1]
        invariant forall j | 0 <= j < i :: contents[j].timestamp <= timestamp
        decreases |nodes| - i
      {
        if timestamp < p.timestamp {
          break;
        }
        prev, p := p, p.next;
        i := i + 1;
      }
      PositionIsUnique(contents, timestamp, i);
    }

    /** Links an initialised node in front of the k-th one. */
    method LinkBefore(obj: TickerEvent, prev: TickerEvent?, p: TickerEvent?, ghost k: nat, ghost e: Entry)
      requires ListValid() && obj !in nodes && k <= |nodes|
      requires e.timestamp == obj.timestamp && e.id == obj.id
      requires p == NodeAt(k) && prev == if k == 0 then null else nodes[k - 1]
      modifies this`head, this`nodes, this`contents, nodes, obj
      ensures ListValid() && head == if prev == null then obj else old(head)
      ensures nodes == old(nodes[..k] + [obj] + nodes[k..])
      ensures contents == old(contents[..k] + [e] + contents[k..])
      ensures forall n :: n in nodes <==> n in old(nodes) || n == obj
      ensures obj.timestamp == old(obj.timestamp) && obj.id == old(obj.id)
      ensures forall n | n in old(nodes) :: n.timestamp == old(n.timestamp) && n.id == old(n.id)
    {
      SpliceKeepsDistinct(nodes, k, obj);
      assert k > 0 ==> forall j | 0 <= j < |nodes| && j != k - 1 :: nodes[j] != prev;
      hide Distinct;
      obj.next := p;
      if prev == null {
        head := obj;
      } else {
        prev.next := obj;
      }
      Splice(obj, k, e);
    }

    /** Enters a node, already linked in front of the k-th one, into the
        specification state. */
    ghost method Splice(obj: TickerEvent, k: nat, e: Entry)
      requires k <= |nodes| == |contents| && obj.next == NodeAt(k)
      requires head == if k == 0 then obj else nodes[0]
      requires forall i {:trigger nodes[i].next} | 0 <= i < |nodes| ::
                 nodes[i].next == if i + 1 == k then obj else NodeAt(i + 1)
      requires forall i {:trigger nodes[i].timestamp} {:trigger contents[i]} | 0 <= i < |nodes| ::
                 nodes[i].timestamp == contents[i].timestamp && nodes[i].id == contents[i].id
      requires obj.timestamp == e.timestamp && obj.id == e.id
      requires Distinct(nodes[..k] + [obj] + nodes[k..])
      modifies this`nodes, this`contents
      ensures ListValid()
      ensures nodes == old(nodes[..k] + [obj] + nodes[k..])
      ensures contents == old(contents[..k] + [e] + contents[k..])
    {
      hide Distinct;
      ghost var was := nodes;
      nodes := nodes[..k] + [obj] + nodes[k..];
      contents := contents[..k] + [e] + contents[k..];
      forall j | 0 <= j < |nodes|
        ensures && nodes[j].next == NodeAt(j + 1)
                && nodes[j].timestamp == contents[j].timestamp
                && nodes[j].id == contents[j].id
      {
        if j < k {
          assert nodes[j] == was[j];
        } else if j > k {
          assert nodes[j] == was[j - 1];
        }
      }
    }

    lemma HeadIsListed()
      requires ListValid()
      ensures head == null || head in nodes
    {
    }

    /** The list part of an insertion. */
    method Enqueue(obj: TickerEvent, timestamp: nat, id: nat) returns (atHead: bool)
      requires ListValid() && ContentsValid() && obj !in nodes
      modifies this`head, this`nodes, this`contents, this`ledger, nodes, obj
      ensures ListValid() && ContentsValid()
      ensures contents == Insert(old(contents), Entry(timestamp, id, |old(ledger)|))
      ensures ledger == old(ledger) + [Queued(timestamp, id)]
      ensures atHead <==> head == obj
      ensures atHead || (old(contents) != [] && contents[0] == old(contents)[0])
      ensures obj.timestamp == timestamp && obj.id == id
      ensures forall n :: n in nodes <==> n in old(nodes) || n == obj
      ensures forall n | n in old(nodes) :: n.timestamp == old(n.timestamp) && n.id == old(n.id)
    {
      hide ListValid, Sorted, Balanced;
      HeadIsListed();
      obj.timestamp := timestamp;
      obj.id := id;
      var prev, p := FindLater(timestamp);
      ghost var e := Entry(timestamp, id, |ledger|);
      InsertKeepsSorted(contents, e);
      InsertKeepsBalanced(contents, ledger, e);
      LinkBefore(obj, prev, p, InsertPosition(contents, timestamp), e);
      ledger := ledger + [Queued(timestamp, id)];
      atHead := prev == null;
    }

    /** Inserts an event that is not queued, behind every event not later. */
    method InsertEventUs(obj: TickerEvent, timestamp: nat, id: nat)
      requires Valid() && obj !in nodes
      modifies this`tickLastRead, this`tickRemainder, this`presentTime, this`updateTicks, hal
      modifies this`head, this`nodes, this`contents, this`ledger, Members(), obj
      ensures Valid()
      ensures contents == Insert(old(contents), Entry(timestamp, id, |old(ledger)|))
      ensures ledger == old(ledger) + [Queued(timestamp, id)]
      ensures old(Scheduled()) || head == obj ==> Scheduled()
      ensures if head == obj then Renewed() else unchanged(hal`armed, hal`matchAt)
      ensures hal.ticks >= updateTicks >= old(hal.ticks) && presentTime >= old(presentTime)
      ensures hal.acknowledged == old(hal.acknowledged)
      ensures obj.timestamp == timestamp && obj.id == id
      ensures forall n :: n in nodes <==> n in old(nodes) || n == obj
      ensures forall n | n in old(nodes) :: n.timestamp == old(n.timestamp) && n.id == old(n.id)
    {
      hide TimeValid, ListValid, ContentsValid, Renewed, MatchAhead, ClockAt, Insert;
      UpdatePresentTime();
      var atHead := Enqueue(obj, timestamp, id);
      if atHead {
        ScheduleInterrupt();
      }
    }

    /** Inserts an event given the low 32 bits of its time. */
    method InsertEvent(obj: TickerEvent, timestamp: nat, id: nat)
      requires Valid() && obj !in nodes && timestamp < U32_RANGE
      modifies this`tickLastRead, this`tickRemainder, this`presentTime, this`updateTicks, hal
      modifies this`head, this`nodes, this`contents, this`ledger, Members(), obj
      ensures Valid()
      ensures old(Scheduled()) || head == obj ==> Scheduled()
      ensures if head == obj then Renewed() else unchanged(hal`armed, hal`matchAt)
      ensures hal.ticks >= updateTicks >= old(hal.ticks)
      ensures ledger == old(ledger) + [Queued(obj.timestamp, id)]
      ensures contents == Insert(old(contents), Entry(obj.timestamp, id, |old(ledger)|))
      // The least time with these low bits that is not before the present.
      ensures U32(obj.timestamp) == timestamp
      ensures exists now | old(hal.ticks) <= now <= hal.ticks ::
                ClockAt(now) <= obj.timestamp < ClockAt(now) + U32_RANGE
    {
      hide TimeValid, Scheduled, Renewed, ListValid, ContentsValid, ConvertTimestamp, Insert;
      UpdatePresentTime();
      ghost var now := hal.ticks;
      var absoluteTimestamp := ConvertTimestamp(presentTime, timestamp);
      ConvertTimestampIsLeast(presentTime, timestamp);
      InsertEventUs(obj, absoluteTimestamp, id);
      assert ClockAt(now) <= obj.timestamp < ClockAt(now) + U32_RANGE;
    }

    lemma SettleIsValid(k: nat, fate: Fate)
      requires ListValid() && ContentsValid() && k < |nodes|
      requires !fate.Queued?
      requires fate.Fired? ==>
                 fate == Fired(contents[k].timestamp, contents[k].id, fate.clock) && contents[k].timestamp <= fate.clock
      ensures contents[k].serial < |ledger|
      ensures ledger[contents[k].serial] == Queued(contents[k].timestamp, contents[k].id)
      ensures Sorted(RemoveAt(contents, k))
      ensures Balanced(RemoveAt(contents, k), ledger[contents[k].serial := fate])
      ensures Extends(ledger, ledger[contents[k].serial := fate])
      ensures Distinct(nodes[..k] + nodes[k + 1..])
      ensures forall n :: n in nodes[..k] + nodes[k + 1..] <==> n in nodes && n != nodes[k]
    {
      RemoveKeepsSorted(contents, k);
      SettleKeepsBalanced(contents, ledger, k, fate);
      CutKeepsDistinct(nodes, k);
    }

    lemma OthersDiffer(k: nat)
      requires ListValid() && k < |nodes|
      ensures forall j | 0 <= j < |nodes| && j != k :: nodes[j] != nodes[k]
    {
    }

    /** Drops the k-th event, already unlinked, from the specification state and
        records its fate. */
    ghost method Settle(k: nat, fate: Fate)
      requires k < |nodes| == |contents| && contents[k].serial < |ledger|
      requires head == if k == 0 then NodeAt(1) else nodes[0]
      requires forall i {:trigger nodes[i].next} | 0 <= i < |nodes| ::
                 nodes[i].next == if i + 1 == k then NodeAt(i + 2) else NodeAt(i + 1)
      requires forall i {:trigger nodes[i].timestamp} {:trigger contents[i]} | 0 <= i < |nodes| ::
                 nodes[i].timestamp == contents[i].timestamp && nodes[i].id == contents[i].id
      requires Distinct(nodes[..k] + nodes[k + 1..])
      modifies this`nodes, this`contents, this`ledger
      ensures ListValid()
      ensures nodes == old(nodes[..k] + nodes[k + 1..])
      ensures contents == old(RemoveAt(contents, k))
      ensures ledger == old(ledger[contents[k].serial := fate])
    {
      hide Distinct;
      ghost var was := nodes;
      ledger := ledger[contents[k].serial := fate];
      nodes, contents := nodes[..k] + nodes[k + 1..], RemoveAt(contents, k);
      forall j | 0 <= j < |nodes|
        ensures && nodes[j].next == NodeAt(j + 1)
                && nodes[j].timestamp == contents[j].timestamp
                && nodes[j].id == contents[j].id
      {
        assert nodes[j] == was[if j < k then j else j + 1];
      }
    }

    /** The list part of a removal. */
    method Dequeue(obj: TickerEvent) returns (atHead: bool)
      requires ListValid() && ContentsValid()
      modifies this`head, this`nodes, this`contents, this`ledger, nodes
      ensures ListValid() && ContentsValid()
      ensures obj !in old(nodes) ==> nodes == old(nodes) && contents == old(contents) && ledger == old(ledger)
      ensures obj in old(nodes) ==>
                exists k: nat | k < |old(nodes)| && old(nodes)[k] == obj ::
                  CutAt(old(contents), old(ledger), k, contents, ledger)
      ensures atHead <==> old(head) == obj
      ensures atHead || contents == old(contents) == []
           || (contents != [] && old(contents) != [] && contents[0] == old(contents)[0])
      ensures forall n :: n in nodes <==> n in old(nodes) && n != obj
      ensures forall n | n in old(nodes) :: n.timestamp == old(n.timestamp) && n.id == old(n.id)
    {
      hide Sorted, Balanced, Distinct;
      atHead := head == obj;
      if atHead {
        SettleIsValid(0, Cancelled);
        head := obj.next;
        Settle(0, Cancelled);
      } else {
        var p := head;
        ghost var i := 0;
        while p != null
          invariant i <= |nodes|
          invariant p == NodeAt(i)
          invariant forall j | 0 <= j <= i && j < |nodes| :: nodes[j] != obj
          decreases |nodes| - i
        {
          if p.next == obj {
            SettleIsValid(i + 1, Cancelled);
            OthersDiffer(i);
            p.next := obj.next;
            Settle(i + 1, Cancelled);
            break;
          }
          p := p.next;
          i := i + 1;
        }
      }
    }

    /** Takes an event out of the queue; one that is not queued is left alone. */
    method RemoveEvent(obj: TickerEvent)
      requires Valid()
      modifies this`tickLastRead, this`tickRemainder, this`presentTime, this`updateTicks, hal
      modifies this`head, this`nodes, this`contents, this`ledger, Members()
      ensures Valid()
      ensures obj !in old(nodes) ==> nodes == old(nodes) && contents == old(contents) && ledger == old(ledger)
      ensures obj in old(nodes) ==>
                exists k: nat | k < |old(nodes)| && old(nodes)[k] == obj ::
                  CutAt(old(contents), old(ledger), k, contents, ledger)
      ensures forall n :: n in nodes <==> n in old(nodes) && n != obj
      ensures forall n | n in old(nodes) :: n.timestamp == old(n.timestamp) && n.id == old(n.id)
      ensures old(Scheduled()) || old(head) == obj ==> Scheduled()
      ensures if old(head) == obj then Renewed() else unchanged(hal)
      ensures hal.ticks >= old(hal.ticks) && presentTime >= old(presentTime) && updateTicks >= old(updateTicks)
      ensures hal.acknowledged == old(hal.acknowledged)
    {
      hide TimeValid, ListValid, ContentsValid, Renewed, MatchAhead, ClockAt, CutAt;
      var atHead := Dequeue(obj);
      if atHead {
        ScheduleInterrupt();
      }
    }

    // -------------------------------------------------------------------
    // The interrupt
    // -------------------------------------------------------------------

    /** A callback computes until a given tick at the latest. */
    method Compute(limit: nat)
      requires TimeValid() && limit <= updateTicks + hal.workTicks
      modifies hal`ticks, hal`pending, hal`serveBy
      ensures TimeValid() && hal.ticks >= old(hal.ticks)
    {
      hide Exact, ClockAt;
      hal.Work(limit);
    }

    /** The event handler is called, with an event's id. */
    ghost method CallHandler(id: nat)
      modifies this`calls
      ensures calls == old(calls) + [HandlerCall(id, presentTime)]
    {
      calls := calls + [HandlerCall(id, presentTime)];
    }

    /** The event handler, called with the event's id. It may make any finite
        sequence of removals and insertions of client events, at most `budget`
        insertions, none before `floor`. */
    method RunHandler(id: nat, clients: set<TickerEvent>, floor: nat, budget: nat) returns (left: nat)
      requires Valid() && hal.ticks == updateTicks && forall n | n in nodes :: n in clients
      modifies this`tickLastRead, this`tickRemainder, this`presentTime, this`updateTicks, hal
      modifies this`head, this`nodes, this`contents, this`ledger, this`calls, clients
      ensures Valid() && forall n | n in nodes :: n in clients
      ensures |contents| + left <= |old(contents)| + budget
      ensures Quiet(old(ledger), ledger)
      ensures NoneBefore(old(contents), floor) ==> NoneBefore(contents, floor)
      ensures calls == old(calls) + [HandlerCall(id, old(presentTime))]
      ensures hal.ticks >= old(hal.ticks) && hal.acknowledged == old(hal.acknowledged)
    {
      hide TimeValid, ListValid, Sorted, Balanced, Scheduled, Renewed, Insert, RemoveAt, Quiet, NoneBefore;
      CallHandler(id);
      left := budget;
      var steps: nat := *;
      QuietRefl(ledger);
      var limit := hal.ticks + hal.workTicks;
      while steps > 0 && clients != {}
        invariant limit <= updateTicks + hal.workTicks
        invariant Valid() && forall n | n in nodes :: n in clients
        invariant |contents| + left <= |old(contents)| + budget
        invariant Quiet(old(ledger), ledger)
        invariant NoneBefore(old(contents), floor) ==> NoneBefore(contents, floor)
        invariant calls == old(calls) + [HandlerCall(id, old(presentTime))]
        invariant hal.ticks >= old(hal.ticks) && hal.acknowledged == old(hal.acknowledged)
      {
        steps := steps - 1;
        Compute(limit);
        var obj :| obj in clients;
        var insert: bool := *;
        ghost var c, l := contents, ledger;
        RemoveEvent(obj);
        QuietRemoval(c, l, contents, ledger, floor);
        QuietCompose(old(ledger), l, ledger);
        if insert && left > 0 {
          var later: nat, newId: nat := *, *;
          c, l := contents, ledger;
          InsertEventUs(obj, floor + later, newId);
          QuietInsertion(c, l, Entry(floor + later, newId, |l|), floor);
          QuietCompose(old(ledger), l, ledger);
          left := left - 1;
        }
      }
      Compute(limit);
    }

    /** Takes the due event off the head of the list; with a handler to call it counts as fired. */
    method PopHead() returns (p: TickerEvent, ghost f: Firing)
      requires Valid() && head != null && head.timestamp <= presentTime
      modifies this`head, this`nodes, this`contents, this`ledger
      ensures Valid() && p == old(head) && p in old(nodes)
      ensures contents == RemoveAt(old(contents), 0)
      ensures forall n :: n in nodes <==> n in old(nodes) && n != p
      ensures f == Firing(old(contents[0].serial), p.timestamp, p.id, presentTime, hal.ticks)
      ensures p.timestamp == old(contents[0].timestamp) && p.id == old(contents[0].id)
      ensures f.serial < |old(ledger)| && old(ledger)[f.serial] == Queued(f.timestamp, f.id)
      ensures ledger == old(ledger)[f.serial := if handlerSet then Fired(f.timestamp, f.id, f.clock) else Dropped]
    {
      hide TimeValid, Balanced, Sorted, Extends, Distinct;
      p := head;
      f := Firing(contents[0].serial, p.timestamp, p.id, presentTime, hal.ticks);
      ghost var fate := if handlerSet then Fired(f.timestamp, f.id, f.clock) else Dropped;
      SettleIsValid(0, fate);
      head := head.next;
      Settle(0, fate);
    }

    /** Takes the due event off the head of the list and calls the handler, if there is
        one, with the event's id. */
    method DispatchHead(clients: set<TickerEvent>, polite: bool, budget: nat) returns (left: nat, ghost f: Firing)
      requires Valid() && forall n | n in nodes :: n in clients
      requires head != null && head.timestamp <= presentTime && hal.ticks == updateTicks
      modifies this`tickLastRead, this`tickRemainder, this`presentTime, this`updateTicks, hal
      modifies this`head, this`nodes, this`contents, this`ledger, this`calls, clients
      ensures Valid() && forall n | n in nodes :: n in clients
      ensures |contents| + left < |old(contents)| + budget
      ensures f.serial == old(contents[0].serial) && f.timestamp == old(contents[0].timestamp)
      ensures f.id == old(contents[0].id) && f.clock == old(presentTime) && f.returned == hal.ticks
      ensures calls == old(calls) + if handlerSet then [HandlerCall(old(contents[0].id), old(presentTime))] else []
      ensures f.serial < |old(ledger)| && old(ledger)[f.serial] == Queued(f.timestamp, f.id)
      ensures Quiet(old(ledger)[f.serial := if handlerSet then Fired(f.timestamp, f.id, f.clock) else Dropped], ledger)
      ensures polite ==> NoneBefore(contents, f.timestamp)
      ensures hal.ticks >= old(hal.ticks) && hal.acknowledged == old(hal.acknowledged)
    {
      hide TimeValid, Scheduled, Renewed, Quiet, Balanced, Extends, Distinct;
      HeadIsFirst();
      var p;
      p, f := PopHead();
      var floor := if polite then p.timestamp else 0;
      assert NoneBefore(contents, floor);
      hide NoneBefore, Sorted, ListValid;
      QuietRefl(ledger);
      left := budget;
      if handlerSet {
        left := RunHandler(p.id, clients, floor, budget);
      }
      f := f.(returned := hal.ticks);
    }

    /** The clock is read again for every event, after the handler before has
        returned, and all have returned by a given tick. */
    ghost predicate Reread(fired: seq<Firing>, now: nat)
      requires hal.frequency > 0
    {
      && (forall k | 0 <= k < |fired| ::
            startTicks <= fired[k].returned <= now && fired[k].clock <= ClockAt(fired[k].returned))
      && (forall j, k | 0 <= j < k < |fired| :: ClockAt(fired[j].returned) <= fired[k].clock)
    }

    /** The interrupt handler. Its calls of the event handler are the firings, one for
        one. With `polite` handlers, which insert nothing before the event they
        handle, events run in timestamp order; in any case none runs early, none
        twice, and at the last reading of the clock, made after all of them returned,
        none was due. */
    method IrqHandler(clients: set<TickerEvent>, polite: bool, budget: nat)
      returns (ghost fired: seq<Firing>, ghost last: nat)
      requires Valid() && forall n | n in nodes :: n in clients
      modifies this`tickLastRead, this`tickRemainder, this`presentTime, this`updateTicks, hal
      modifies this`head, this`nodes, this`contents, this`ledger, this`calls, clients
      ensures Valid() && Scheduled() && Renewed() && forall n | n in nodes :: n in clients
      ensures Extends(old(ledger), ledger) && Explains(fired, old(ledger), ledger)
      ensures |calls| == |old(calls)| + |fired| && old(calls) <= calls
      ensures forall k | 0 <= k < |fired| :: calls[|old(calls)| + k] == HandlerCall(fired[k].id, fired[k].clock)
      ensures !handlerSet ==> fired == []
      ensures polite ==> InOrder(fired)
      ensures hal.ticks >= last >= old(hal.ticks) >= startTicks
      ensures hal.acknowledged == old(hal.acknowledged) + 1
      ensures Reread(fired, last) && NoneBefore(contents, ClockAt(last) + 1)
    {
      hide TimeValid, Scheduled, Renewed, Extends, Explains, Quiet, ContentsValid, ListValid, ClockAt, InOrder, Reread;
      Acknowledge();
      var left := budget;
      fired, last := [], hal.ticks;
      NothingFired(ledger);
      NothingReread(last);
      while true
        invariant Valid() && forall n | n in nodes :: n in clients
        invariant Extends(old(ledger), ledger) && Explains(fired, old(ledger), ledger)
        invariant polite ==> InOrder(fired)
        invariant polite && fired != [] ==> NoneBefore(contents, fired[|fired| - 1].timestamp)
        invariant hal.ticks >= last >= old(hal.ticks) && hal.acknowledged == old(hal.acknowledged) + 1
        invariant Reread(fired, last)
        invariant |calls| == |old(calls)| + |fired| && old(calls) <= calls
        invariant forall k | 0 <= k < |fired| :: calls[|old(calls)| + k] == HandlerCall(fired[k].id, fired[k].clock)
        invariant !handlerSet ==> fired == []
        decreases |contents| + left
      {
        if head == null {
          break;
        }
        UpdatePresentTime();
        RereadLater(fired, last, hal.ticks);
        last := hal.ticks;
        if head.timestamp <= presentTime {
          ghost var f, l, c := Firing(0, 0, 0, 0, 0), ledger, contents;
          left, f := DispatchHead(clients, polite, left);
          RereadMore(fired, f, last);
          RereadLater(fired, last, hal.ticks);
          last := hal.ticks;
          if polite {
            StillInOrder(fired, c, f);
          }
          if handlerSet {
            ExplainDispatch(fired, old(ledger), l, f, ledger);
            fired := fired + [f];
          } else {
            ExplainDrop(fired, old(ledger), l, f.serial, ledger);
          }
        } else {
          HeadIsFirst();
          break;
        }
      }
      ScheduleInterrupt();
    }

    /** Entering the interrupt. */
    method Acknowledge()
      requires TimeValid()
      modifies hal`pending, hal`acknowledged
      ensures TimeValid() && !hal.pending && hal.acknowledged == old(hal.acknowledged) + 1
    {
      hal.ClearInterrupt();
    }

    lemma NothingReread(now: nat)
      requires hal.frequency > 0
      ensures Reread([], now)
    {
    }

    lemma RereadLater(fired: seq<Firing>, a: nat, b: nat)
      requires hal.frequency > 0 && Reread(fired, a) && a <= b
      ensures Reread(fired, b)
    {
    }

    lemma RereadMore(fired: seq<Firing>, f: Firing, read: nat)
      requires hal.frequency > 0 && Reread(fired, read) && startTicks <= read <= f.returned && f.clock == ClockAt(read)
      ensures Reread(fired + [f], f.returned)
    {
      hide ClockAt;
      ClockMonotonic(read, f.returned);
      forall k | 0 <= k < |fired| ensures ClockAt(fired[k].returned) <= f.clock {
        ClockMonotonic(fired[k].returned, read);
      }
    }

    lemma ClockMonotonic(a: nat, b: nat)
      requires startTicks <= a <= b && hal.frequency > 0
      ensures ClockAt(a) <= ClockAt(b)
    {
      MicrosMonotonic(a - startTicks, b - startTicks, hal.frequency);
    }

    lemma HeadIsFirst()
      requires ListValid() && ContentsValid() && head != null
      ensures NoneBefore(contents, head.timestamp)
    {
    }

    /** The first event decides for all. */
    lemma NoneDue(now: nat)
      requires Valid() && startTicks <= now
      requires head == null || head.timestamp > presentTime == ClockAt(now)
      ensures NoneBefore(contents, ClockAt(now) + 1)
    {
      if head != null {
        HeadIsFirst();
      }
    }

    // -------------------------------------------------------------------
    // Whole runs
    // -------------------------------------------------------------------

    /** Every interleaving of insertions, removals, clock readings, interrupts and
        passing time keeps the clock exact and loses no event. */
    method Run(clients: set<TickerEvent>)
      requires Valid() && Scheduled() && forall n | n in nodes :: n in clients
      modifies this`tickLastRead, this`tickRemainder, this`presentTime, this`updateTicks, hal
      modifies this`head, this`nodes, this`contents, this`ledger, this`calls, clients
      ensures Valid() && Scheduled()
      ensures Extends(old(ledger), ledger)
    {
      hide TimeValid, ListValid, ContentsValid, Scheduled, Renewed, MatchAhead, ClockAt, Insert, Becomes, Extends;
      var steps: nat := *;
      NothingFired(ledger);
      while steps > 0 && clients != {}
        invariant Valid() && Scheduled() && forall n | n in nodes :: n in clients
        invariant Extends(old(ledger), ledger)
      {
        steps := steps - 1;
        var obj :| obj in clients;
        var which: nat, timestamp: nat, id: nat := *, *, *;
        RunStep(clients, obj, which, timestamp, id, old(ledger));
      }
    }

    method RunStep(clients: set<TickerEvent>, obj: TickerEvent, which: nat, timestamp: nat, id: nat, ghost ledger0: seq<Fate>)
      requires Valid() && Scheduled() && forall n | n in nodes :: n in clients
      requires obj in clients && Extends(ledger0, ledger)
      modifies this`tickLastRead, this`tickRemainder, this`presentTime, this`updateTicks, hal
      modifies this`head, this`nodes, this`contents, this`ledger, this`calls, clients
      ensures Valid() && Scheduled() && forall n | n in nodes :: n in clients
      ensures Extends(ledger0, ledger)
    {
      hide TimeValid, ListValid, ContentsValid, Scheduled, Renewed, MatchAhead, ClockAt, Insert, Becomes, Extends, Explains;
      ghost var c, l := contents, ledger;
      if which == 0 {
        TimePasses();
      } else if which == 1 {
        UpdatePresentTime();
      } else if which == 2 && hal.pending {
        var polite: bool, budget: nat := *, *;
        var _, _ := IrqHandler(clients, polite, budget);
        ExtendsTransitive(ledger0, l, ledger);
      } else {
        RemoveOrInsert(clients, obj, which, timestamp, id);
        ExtendsTransitive(ledger0, l, ledger);
      }
    }

    method RemoveOrInsert(clients: set<TickerEvent>, obj: TickerEvent, which: nat, timestamp: nat, id: nat)
      requires Valid() && Scheduled() && forall n | n in nodes :: n in clients
      requires obj in clients
      modifies this`tickLastRead, this`tickRemainder, this`presentTime, this`updateTicks, hal
      modifies this`head, this`nodes, this`contents, this`ledger, this`calls, clients
      ensures Valid() && Scheduled() && forall n | n in nodes :: n in clients
      ensures Extends(old(ledger), ledger)
    {
      hide TimeValid, ListValid, Sorted, Balanced, Scheduled, Renewed, MatchAhead, ClockAt, Insert, Becomes, Extends, Explains;
      ghost var c, l := contents, ledger;
      RemoveEvent(obj);
      QuietRemoval(c, l, contents, ledger, 0);
      if which == 4 {
        ghost var c', l' := contents, ledger;
        InsertEventUs(obj, timestamp, id);
        QuietInsertion(c', l', Entry(timestamp, id, |l'|), 0);
        ExtendsTransitive(l, l', ledger);
      }
    }

    /** Time passing outside the ticker's code disturbs nothing. */
    method TimePasses()
      requires TimeValid() && Scheduled()
      modifies hal`ticks, hal`pending, hal`serveBy
      ensures TimeValid() && Scheduled() && hal.ticks >= old(hal.ticks)
    {
      hide Exact, ClockAt, Configured;
      hal.Elapse();
    }

    /** Nobody waits unnoticed: once the clock is past the first event's time an
        interrupt is pending. */
    lemma OverdueIsPending()
      requires Valid() && Scheduled()
      requires contents != [] && ClockAt(hal.ticks) > contents[0].timestamp
      ensures hal.pending
    {
      if !hal.pending {
        ClockMonotonic(hal.ticks, hal.matchAt);
      }
    }
  }
}
