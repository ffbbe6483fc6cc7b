/** Conversions between the ticks of a wrapping hardware counter and the
    64-bit microsecond clock of the ticker. */
module TickerTime {
  import opened Words

  const US_PER_SECOND: nat := 1_000_000

  /** The clock the ticker promises: whole microseconds covered by a tick count. */
  function Micros(ticks: nat, frequency: nat): nat
    requires frequency > 0
  {
    ticks * US_PER_SECOND / frequency
  }

  /** shifts is n when the frequency is 2^n with 1 <= n <= 31, and otherwise 0. */
  ghost predicate IsShift(frequency: nat, shifts: nat) {
    if shifts == 0 then forall i | 1 <= i <= 31 :: Pow2(i) != frequency
    else shifts <= 31 && Pow2(shifts) == frequency
  }

  ghost predicate ValidRate(bits: nat, frequency: nat, shifts: nat) {
    && 4 <= bits <= 32
    && 0 < frequency < U32_RANGE
    && IsShift(frequency, shifts)
  }

  /** Largest scheduling distance: 7/16 of the counter's period. */
  function MaxDelta(bits: nat): nat
    requires bits >= 4
  {
    7 * Pow2(bits - 4)
  }

  function MaxDeltaUs(bits: nat, frequency: nat): nat
    requires bits >= 4 && frequency > 0
  {
    (MaxDelta(bits) * US_PER_SECOND + frequency - 1) / frequency
  }

  lemma MaxDeltaBelowPeriod(bits: nat)
    requires 4 <= bits <= 32
    ensures 7 <= MaxDelta(bits) < Pow2(bits) <= U32_RANGE
    ensures 16 * MaxDelta(bits) == 7 * Pow2(bits)
    ensures MaxDelta(bits) <= 0x7000_0000
  {
    Pow2Add(bits - 4, 4);
    assert Pow2(4) == 16;
    Pow2Monotonic(bits, 32);
    Pow2Of32();
  }

  /** Searches the exponents from 31 down, as the initialisation does. */
  method FrequencyShifts(frequency: nat) returns (shifts: nat)
    ensures IsShift(frequency, shifts)
  {
    shifts := 0;
    var i := 31;
    while i > 0
      invariant 0 <= i <= 31
      invariant forall j | i < j <= 31 :: Pow2(j) != frequency
    {
      if Pow2(i) == frequency {
        shifts := i;
        return;
      }
      i := i - 1;
    }
  }

  // ---------------------------------------------------------------------
  // Elapsed time
  // ---------------------------------------------------------------------

  /** Ticks between two counter readings, in 32-bit arithmetic under the bit mask. */
  function ElapsedTicks(now: nat, last: nat, bits: nat): nat {
    U32(now - last) % Pow2(bits)
  }

  /** Whatever the number of wraps before, the elapsed ticks are exact
      when fewer than 2^bits passed. */
  lemma ElapsedIsExact(now: nat, last: nat, bits: nat)
    requires bits <= 32 && last <= now < last + Pow2(bits)
    ensures ElapsedTicks(now % Pow2(bits), last % Pow2(bits), bits) == now - last
  {
    var m := Pow2(bits);
    MaskedU32(now % m - last % m, bits);
    ResidueDifference(now, last, m);
  }

  /** Microseconds to add to the clock and the remainder to carry after
      elapsed more ticks: the three branches of the conversion. */
  function Convert(elapsed: nat, remainder: nat, frequency: nat, shifts: nat): (nat, nat)
    requires frequency > 0
  {
    if frequency == US_PER_SECOND then
      (elapsed, remainder)
    else
      var usTicks := U64(elapsed * US_PER_SECOND);
      if shifts != 0 then Carry(usTicks, Pow2(shifts), remainder, frequency)
      else Carry(usTicks, frequency, remainder, frequency)
  }

  /** Divides and carries the rest into the remainder. */
  function Carry(usTicks: nat, divisor: nat, remainder: nat, frequency: nat): (nat, nat)
    requires divisor > 0
  {
    QuotientTimesDivisor(usTicks, divisor);
    var us := usTicks / divisor;
    var rest := remainder + (usTicks - us * divisor);
    if rest >= frequency then (us + 1, rest - frequency) else (us, rest)
  }

  /** Exact in all three branches: no fraction of a microsecond is lost or
      invented, and the remainder stays below one microsecond. */
  lemma ConvertIsExact(elapsed: nat, remainder: nat, bits: nat, frequency: nat, shifts: nat)
    requires ValidRate(bits, frequency, shifts)
    requires elapsed < U32_RANGE && remainder < frequency
    requires frequency == US_PER_SECOND ==> remainder == 0
    ensures var (us, rest) := Convert(elapsed, remainder, frequency, shifts);
            && rest < frequency
            && us * frequency + rest == elapsed * US_PER_SECOND + remainder
            && (frequency == US_PER_SECOND ==> rest == 0)
  {
    hide U64, Pow2;
    var x := elapsed * US_PER_SECOND;
    FitsU64(x);
    if frequency != US_PER_SECOND {
      var us := x / frequency;
      QuotientTimesDivisor(x, frequency);
      assert (us + 1) * frequency == us * frequency + frequency;
    }
  }

  /** Clock value and remainder determined by the total tick count. */
  lemma ClockIsFloor(present: nat, remainder: nat, total: nat, frequency: nat)
    requires remainder < frequency
    requires present * frequency + remainder == total * US_PER_SECOND
    ensures present == Micros(total, frequency)
    ensures remainder == total * US_PER_SECOND % frequency
  {
    DivModUnique(total * US_PER_SECOND, frequency, present, remainder);
  }

  lemma MicrosMonotonic(a: nat, b: nat, frequency: nat)
    requires a <= b && frequency > 0
    ensures Micros(a, frequency) <= Micros(b, frequency)
  {
    FloorAtLeast(b * US_PER_SECOND, frequency, Micros(a, frequency));
  }

  /** The difference of two readings of the clock is less than a microsecond off the
      time between them. */
  lemma IntervalWithinOne(a: nat, b: nat, frequency: nat)
    requires a <= b && frequency > 0
    ensures var us := Micros(b, frequency) - Micros(a, frequency);
            (us - 1) * frequency < (b - a) * US_PER_SECOND < (us + 1) * frequency
  {
  }

  lemma FloorAtLeast(n: nat, d: nat, q: nat)
    requires d > 0 && q * d <= n
    ensures n / d >= q
  {
    var e := q - n / d;
    assert e * d == q * d - (n / d) * d;
    if e >= 1 {
      MulAtLeast(e, d);
    }
  }

  lemma FloorBelow(n: nat, d: nat, q: nat)
    requires d > 0 && n < q * d
    ensures n / d < q
  {
    var e := n / d - q;
    assert e * d == (n / d) * d - q * d;
    if e >= 1 {
      MulAtLeast(e, d);
    }
  }

  /** State the queue keeps about time. */
  datatype Clock = Clock(lastRead: nat, remainder: nat, present: nat)

  /** One update from a counter reading. */
  function Update(c: Clock, read: nat, bits: nat, frequency: nat, shifts: nat): Clock
    requires frequency > 0
  {
    if read == c.lastRead then c
    else
      var (us, rest) := Convert(ElapsedTicks(read, c.lastRead, bits), c.remainder, frequency, shifts);
      Clock(read, rest, c.present + us)
  }

  /** The clock is exact at tick `now` of a counter initialised at tick `start`. */
  ghost predicate Exact(c: Clock, start: nat, now: nat, bits: nat, frequency: nat) {
    && start <= now
    && c.lastRead == now % Pow2(bits)
    && c.remainder < frequency
    && c.present * frequency + c.remainder == (now - start) * US_PER_SECOND
  }

  lemma ExactAtStart(start: nat, bits: nat, frequency: nat)
    requires frequency > 0
    ensures Exact(Clock(start % Pow2(bits), 0, 0), start, start, bits, frequency) && Micros(0, frequency) == 0
  {
    ClockIsFloor(0, 0, 0, frequency);
  }

  lemma UpdateKeepsExact(c: Clock, start: nat, last: nat, now: nat, bits: nat, frequency: nat, shifts: nat)
    requires ValidRate(bits, frequency, shifts)
    requires Exact(c, start, last, bits, frequency)
    requires last <= now < last + Pow2(bits)
    ensures Exact(Update(c, now % Pow2(bits), bits, frequency, shifts), start, now, bits, frequency)
  {
    var m := Pow2(bits);
    ElapsedIsExact(now, last, bits);
    if now % m == c.lastRead {
      SameResidue(now, last, m);
    } else {
      ElapsedFitsU32(now - last, bits);
      ConvertAdvances(c.present, c.remainder, last - start, now - last, bits, frequency, shifts);
    }
  }

  lemma ElapsedFitsU32(elapsed: nat, bits: nat)
    requires bits <= 32 && elapsed < Pow2(bits)
    ensures elapsed < U32_RANGE
  {
    Pow2Monotonic(bits, 32);
    Pow2Of32();
  }

  lemma ConvertAdvances(present: nat, remainder: nat, total: nat, elapsed: nat,
                        bits: nat, frequency: nat, shifts: nat)
    requires ValidRate(bits, frequency, shifts)
    requires elapsed < U32_RANGE && remainder < frequency
    requires present * frequency + remainder == total * US_PER_SECOND
    ensures var (us, rest) := Convert(elapsed, remainder, frequency, shifts);
            && rest < frequency
            && (present + us) * frequency + rest == (total + elapsed) * US_PER_SECOND
  {
    ConvertIsExact(elapsed, remainder, bits, frequency, shifts);
    var (us, rest) := Convert(elapsed, remainder, frequency, shifts);
    assert (present + us) * frequency == present * frequency + us * frequency;
  }

  /** An update keeps the clock exact precisely when less than a period passed
      since the last one: otherwise whole periods are lost for ever. */
  lemma UpdateExactIff(c: Clock, start: nat, last: nat, now: nat, bits: nat, frequency: nat, shifts: nat)
    requires ValidRate(bits, frequency, shifts)
    requires Exact(c, start, last, bits, frequency) && last <= now
    ensures Exact(Update(c, now % Pow2(bits), bits, frequency, shifts), start, now, bits, frequency)
       <==> now - last < Pow2(bits)
  {
    var m := Pow2(bits);
    if now - last < m {
      UpdateKeepsExact(c, start, last, now, bits, frequency, shifts);
    } else {
      var seen := SeenTick(last, now, m);
      UpdateKeepsExact(c, start, last, seen, bits, frequency, shifts);
      var c' := Update(c, now % m, bits, frequency, shifts);
      assert Exact(c', start, seen, bits, frequency);
      if Exact(c', start, now, bits, frequency) {
        ExactDeterminesTick(c', start, seen, now, bits, frequency);
      }
    }
  }

  /** Read again exactly one period after it started, a counter shows 0 again, and
      the clock has not moved. */
  lemma WholePeriodLost(bits: nat, frequency: nat, shifts: nat)
    requires ValidRate(bits, frequency, shifts)
    ensures Exact(Clock(0, 0, 0), 0, 0, bits, frequency)
    ensures Update(Clock(0, 0, 0), Pow2(bits) % Pow2(bits), bits, frequency, shifts) == Clock(0, 0, 0)
    ensures !Exact(Clock(0, 0, 0), 0, Pow2(bits), bits, frequency)
  {
    hide Pow2, IsShift, Convert, ElapsedTicks;
    DivModUnique(0, Pow2(bits), 0, 0);
    DivModUnique(Pow2(bits), Pow2(bits), 1, 0);
    UpdateExactIff(Clock(0, 0, 0), 0, 0, Pow2(bits), bits, frequency, shifts);
  }

  /** Such as 16 bits at 32768 Hz: two seconds are lost. */
  lemma TwoSecondsLost()
    ensures ValidRate(16, 32768, 15)
    ensures Exact(Clock(0, 0, 0), 0, 0, 16, 32768) && !Exact(Clock(0, 0, 0), 0, 65536, 16, 32768)
  {
    SixteenBits();
    hide *;
    WholePeriodLost(16, 32768, 15);
  }

  lemma SixteenBits()
    ensures Pow2(16) == 65536 && ValidRate(16, 32768, 15)
  {
    assert Pow2(7) == 128 && Pow2(8) == 256;
    hide Pow2;
    Pow2Add(8, 8);
    Pow2Add(7, 8);
  }

  /** The tick at which the counter, read late, seems to be. */
  lemma SeenTick(last: nat, now: nat, m: nat) returns (seen: nat)
    requires m > 0 && now - last >= m
    ensures last <= seen < last + m && seen < now
    ensures seen % m == now % m
  {
    var q, r := (now - last) / m, (now - last) % m;
    seen := last + r;
    assert now - last == m * q + r;
    SameResidueAfterPeriods(now, q, m);
  }

  lemma ExactDeterminesTick(c: Clock, start: nat, a: nat, b: nat, bits: nat, frequency: nat)
    requires Exact(c, start, a, bits, frequency) && Exact(c, start, b, bits, frequency)
    ensures a == b
  {
  }

  /** The clock after a sequence of updates at the given tick counts. */
  function UpdateAll(c: Clock, times: seq<nat>, bits: nat, frequency: nat, shifts: nat): Clock
    requires frequency > 0
    decreases |times|
  {
    if times == [] then c
    else
      UpdateAll(Update(c, times[0] % Pow2(bits), bits, frequency, shifts), times[1..], bits, frequency, shifts)
  }

  /** Each update follows the one before by less than a period of the counter. */
  ghost predicate FrequentEnough(last: nat, times: seq<nat>, bits: nat)
    decreases |times|
  {
    times == [] || (last <= times[0] < last + Pow2(bits) && FrequentEnough(times[0], times[1..], bits))
  }

  /** No drift: however the readings are sliced and however often the counter
      wraps, the clock ends at the floor of the elapsed real time. */
  lemma {:induction false} NoDrift(c: Clock, start: nat, last: nat, times: seq<nat>,
                                   bits: nat, frequency: nat, shifts: nat)
    requires ValidRate(bits, frequency, shifts)
    requires Exact(c, start, last, bits, frequency)
    requires FrequentEnough(last, times, bits)
    ensures var end := if times == [] then last else times[|times| - 1];
            && end >= start
            && Exact(UpdateAll(c, times, bits, frequency, shifts), start, end, bits, frequency)
            && UpdateAll(c, times, bits, frequency, shifts).present == Micros(end - start, frequency)
    decreases |times|
  {
    if times == [] {
      ClockIsFloor(c.present, c.remainder, last - start, frequency);
    } else {
      var c' := Update(c, times[0] % Pow2(bits), bits, frequency, shifts);
      UpdateKeepsExact(c, start, last, times[0], bits, frequency, shifts);
      NoDrift(c', start, times[0], times[1..], bits, frequency, shifts);
    }
  }

  // ---------------------------------------------------------------------
  // Scheduling distance
  // ---------------------------------------------------------------------

  /** The three branches of the conversion back to ticks, in 32-bit and 64-bit arithmetic. */
  function UsToTicks(deltaUs: nat, frequency: nat, shifts: nat): nat {
    if frequency == US_PER_SECOND then U32(deltaUs)
    else if shifts != 0 then U32(U64(deltaUs * Pow2(shifts)) / US_PER_SECOND)
    else U32(U64(deltaUs * frequency) / US_PER_SECOND)
  }

  /** Ticks to wait for an event deltaUs in the future. */
  function ComputeDelta(deltaUs: nat, bits: nat, frequency: nat, shifts: nat): nat
    requires bits >= 4 && frequency > 0
  {
    if deltaUs <= MaxDeltaUs(bits, frequency) then
      var delta := UsToTicks(deltaUs, frequency, shifts);
      if delta > MaxDelta(bits) then MaxDelta(bits) else delta
    else
      MaxDelta(bits)
  }

  /** The compare value for an event deltaUs after the last reading. */
  function ComputeTick(lastRead: nat, deltaUs: nat, bits: nat, frequency: nat, shifts: nat): nat
    requires bits >= 4 && frequency > 0
  {
    U32(lastRead + ComputeDelta(deltaUs, bits, frequency, shifts)) % Pow2(bits)
  }

  /** The rounded-up microsecond bound keeps the intermediate product small. */
  lemma MaxDeltaUsTimesFrequency(bits: nat, frequency: nat)
    requires 4 <= bits <= 32 && frequency > 0
    ensures var top := MaxDelta(bits) * US_PER_SECOND;
            top <= MaxDeltaUs(bits, frequency) * frequency < top + frequency
  {
    var n := MaxDelta(bits) * US_PER_SECOND + frequency - 1;
    assert n == (n / frequency) * frequency + n % frequency;
  }

  lemma MulMonotonic(a: nat, b: nat, c: nat)
    requires a <= b
    ensures a * c <= b * c
  {
    assert b * c == a * c + (b - a) * c;
  }

  lemma ProductInRange(deltaUs: nat, bits: nat, frequency: nat)
    requires 4 <= bits <= 32 && 0 < frequency < U32_RANGE
    requires deltaUs <= MaxDeltaUs(bits, frequency)
    ensures deltaUs * frequency < MaxDelta(bits) * US_PER_SECOND + frequency
    ensures deltaUs * frequency < U64_RANGE
    ensures deltaUs * frequency / US_PER_SECOND < U32_RANGE
  {
    MaxDeltaUsTimesFrequency(bits, frequency);
    MaxDeltaBelowPeriod(bits);
    hide MaxDelta, MaxDeltaUs, Pow2;
    MulMonotonic(deltaUs, MaxDeltaUs(bits, frequency), frequency);
    FloorBelow(deltaUs * frequency, US_PER_SECOND, U32_RANGE);
  }

  /** All three branches, overflow included, compute the clamped floor. */
  lemma ComputeDeltaIsClampedFloor(deltaUs: nat, bits: nat, frequency: nat, shifts: nat)
    requires ValidRate(bits, frequency, shifts)
    ensures var floor := deltaUs * frequency / US_PER_SECOND;
            ComputeDelta(deltaUs, bits, frequency, shifts)
            == if floor > MaxDelta(bits) then MaxDelta(bits) else floor
  {
    if deltaUs <= MaxDeltaUs(bits, frequency) {
      ProductInRange(deltaUs, bits, frequency);
      UsToTicksIsFloor(deltaUs, frequency, shifts);
    } else {
      FarEventExceedsMaxDelta(deltaUs, bits, frequency);
    }
  }

  lemma UsToTicksIsFloor(deltaUs: nat, frequency: nat, shifts: nat)
    requires IsShift(frequency, shifts)
    requires deltaUs * frequency < U64_RANGE
    requires deltaUs * frequency / US_PER_SECOND < U32_RANGE
    ensures UsToTicks(deltaUs, frequency, shifts) == deltaUs * frequency / US_PER_SECOND
  {
    hide U32, U64, Pow2;
    FitsU64(deltaUs * frequency);
    FitsU32(deltaUs * frequency / US_PER_SECOND);
    if frequency == US_PER_SECOND {
      DivModUnique(deltaUs * frequency, US_PER_SECOND, deltaUs, 0);
    }
  }

  lemma FarEventExceedsMaxDelta(deltaUs: nat, bits: nat, frequency: nat)
    requires 4 <= bits <= 32 && frequency > 0
    requires deltaUs > MaxDeltaUs(bits, frequency)
    ensures deltaUs * frequency / US_PER_SECOND >= MaxDelta(bits)
  {
    MaxDeltaUsTimesFrequency(bits, frequency);
    hide MaxDelta, MaxDeltaUs;
    MulMonotonic(MaxDeltaUs(bits, frequency), deltaUs, frequency);
    FloorAtLeast(deltaUs * frequency, US_PER_SECOND, MaxDelta(bits));
  }

  /** The interrupt is never programmed for a tick at which the clock has passed
      the target, and unless it was clamped one further tick reaches it. */
  lemma MatchTickBracketsTarget(c: Clock, start: nat, now: nat, target: nat,
                                bits: nat, frequency: nat, shifts: nat)
    requires ValidRate(bits, frequency, shifts)
    requires Exact(c, start, now, bits, frequency) && c.present < target
    ensures var delta := ComputeDelta(target - c.present, bits, frequency, shifts);
            && delta <= MaxDelta(bits)
            && Micros(now + delta - start, frequency) <= target
            && (delta < MaxDelta(bits) ==> Micros(now + delta + 1 - start, frequency) >= target)
            && ComputeTick(c.lastRead, target - c.present, bits, frequency, shifts) == (now + delta) % Pow2(bits)
  {
    hide Pow2, MaxDelta, MaxDeltaUs, UsToTicks, Micros, U32;
    var deltaUs := target - c.present;
    var delta := ComputeDelta(deltaUs, bits, frequency, shifts);
    ComputeDeltaIsClampedFloor(deltaUs, bits, frequency, shifts);
    DeltaBracketsTarget(c.present, c.remainder, now - start, deltaUs, delta, frequency);
    MaskedU32(c.lastRead + delta, bits);
    ResidueSum(now, delta, Pow2(bits));
  }

  lemma DeltaBracketsTarget(present: nat, remainder: nat, total: nat, deltaUs: nat, delta: nat, frequency: nat)
    requires remainder < frequency
    requires present * frequency + remainder == total * US_PER_SECOND
    requires delta <= deltaUs * frequency / US_PER_SECOND
    ensures Micros(total + delta, frequency) <= present + deltaUs
    ensures delta == deltaUs * frequency / US_PER_SECOND ==>
              Micros(total + delta + 1, frequency) >= present + deltaUs
  {
    var x := deltaUs * frequency;
    var target := present + deltaUs;
    assert target * frequency == present * frequency + x;
    assert (target + 1) * frequency == target * frequency + frequency;
    FloorBelow((total + delta) * US_PER_SECOND, frequency, target + 1);
    if delta == x / US_PER_SECOND {
      FloorAtLeast((total + delta + 1) * US_PER_SECOND, frequency, target);
    }
  }

  // ---------------------------------------------------------------------
  // Match detection
  // ---------------------------------------------------------------------

  /** Has the counter incremented to or past matchTick since prevTick? */
  predicate MatchIntervalPassed(prevTick: nat, curTick: nat, matchTick: nat) {
    if matchTick > prevTick then
      curTick >= matchTick || curTick < prevTick
    else
      curTick < prevTick && curTick >= matchTick
  }

  /** The first tick after `from` at which an m-periodic counter shows c. */
  function NextMatch(from: nat, c: nat, m: nat): (k: nat)
    requires m > 0
  {
    from + 1 + (c - (from + 1)) % m
  }

  lemma NextMatchIsFirst(from: nat, c: nat, m: nat)
    requires c < m
    ensures var k := NextMatch(from, c, m);
            && from < k <= from + m && k % m == c
            && forall j | from < j < k :: j % m != c
  {
    var e := c - (from + 1);
    var k := NextMatch(from, c, m);
    assert k == (-(e / m)) * m + c by {
      assert e == (e / m) * m + e % m;
      assert (-(e / m)) * m == -((e / m) * m);
    }
    DivModUnique(k, m, -(e / m), c);
    forall j | from < j < k ensures j % m != c {
      if j % m == c {
        SameResidue(k, j, m);
      }
    }
  }

  /** The only tick congruent to the compare value within one period. */
  lemma NextMatchUnique(from: nat, k: nat, m: nat)
    requires from < k <= from + m && m > 0
    ensures NextMatch(from, k % m, m) == k
  {
    NextMatchIsFirst(from, k % m, m);
    var n := NextMatch(from, k % m, m);
    if n < k {
      SameResidue(k, n, m);
    }
  }

  /** The test on three residues decides exactly whether the counter passed the
      compare value, given that less than one period separates the readings. */
  lemma MatchIntervalPassedIff(prev: nat, cur: nat, matchTick: nat, m: nat)
    requires prev <= cur < prev + m && matchTick < m
    ensures MatchIntervalPassed(prev % m, cur % m, matchTick) <==> NextMatch(prev, matchTick, m) <= cur
  {
    var p, c := prev % m, cur % m;
    var e := matchTick - (p + 1);
    // Both readings relative to the period in which prev lies.
    var base := prev - p;
    assert base == (prev / m) * m;
    var c' := cur - base;
    assert c == if c' < m then c' else c' - m by {
      if c' < m {
        DivModUnique(cur, m, prev / m, c');
      } else {
        assert (prev / m + 1) * m == base + m;
        DivModUnique(cur, m, prev / m + 1, c' - m);
      }
    }
    var k := if matchTick > p then base + matchTick else base + m + matchTick;
    assert k % m == matchTick by {
      if matchTick > p {
        DivModUnique(k, m, prev / m, matchTick);
      } else {
        assert (prev / m + 1) * m == base + m;
        DivModUnique(k, m, prev / m + 1, matchTick);
      }
    }
    NextMatchUnique(prev, k, m);
  }

  /** Arming a compare value d ticks after the last reading catches that very
      tick exactly when it is still ahead; armed later, it comes a period late. */
  lemma ArmedInTimeIff(last: nat, d: nat, set_: nat, m: nat)
    requires 0 < d < m && last <= set_ < last + m
    ensures NextMatch(set_, (last + d) % m, m) == (if set_ < last + d then last + d else last + d + m)
  {
    if set_ < last + d {
      NextMatchUnique(set_, last + d, m);
    } else {
      ResidueSum(last + d + m, 0, m);
      assert (last + d + m) % m == (last + d) % m by {
        var q := (last + d) / m;
        assert last + d + m == (q + 1) * m + (last + d) % m by {
          assert last + d == q * m + (last + d) % m;
          assert (q + 1) * m == q * m + m;
        }
        DivModUnique(last + d + m, m, q + 1, (last + d) % m);
      }
      NextMatchUnique(set_, last + d + m, m);
    }
  }

  /** Programming the compare register and then reading the counter again: either
      the second reading shows the match has passed, or the match is still ahead
      and the register, however late it took effect, catches exactly that tick. */
  lemma ArmAndRecheck(last: nat, delta: nat, armedAt: nat, reread: nat, bits: nat)
    requires 4 <= bits <= 32 && delta <= MaxDelta(bits)
    requires last <= armedAt <= reread < last + Pow2(bits)
    ensures var m := Pow2(bits);
            var matchTick := (last + delta) % m;
            && (matchTick == last % m <==> delta == 0)
            && (delta > 0 ==> MatchIntervalPassed(last % m, reread % m, matchTick) <==> reread >= last + delta)
            && (delta > 0 && reread < last + delta ==> NextMatch(armedAt, matchTick, m) == last + delta)
  {
    var m := Pow2(bits);
    MaxDeltaBelowPeriod(bits);
    if (last + delta) % m == last % m {
      SameResidue(last + delta, last, m);
    }
    if delta > 0 {
      MatchIntervalPassedIff(last, reread, (last + delta) % m, m);
      NextMatchUnique(last, last + delta, m);
      if reread < last + delta {
        NextMatchUnique(armedAt, last + delta, m);
      }
    }
  }

  /** Programming the compare register without the second reading, as for an empty
      queue: the match comes in time exactly when the register took effect before it. */
  lemma ArmUnchecked(last: nat, armedAt: nat, bits: nat)
    requires 4 <= bits <= 32 && last <= armedAt < last + Pow2(bits)
    ensures var m := Pow2(bits);
            var matchTick := U32(last % m + MaxDelta(bits)) % m;
            && NextMatch(armedAt, matchTick, m) >= last + MaxDelta(bits)
            && (NextMatch(armedAt, matchTick, m) == last + MaxDelta(bits) <==> armedAt < last + MaxDelta(bits))
  {
    hide Pow2, MaxDelta, NextMatch, U32;
    MaxDeltaBelowPeriod(bits);
    MaskedU32(last % Pow2(bits) + MaxDelta(bits), bits);
    ResidueSum(last, MaxDelta(bits), Pow2(bits));
    ArmedInTimeIff(last, MaxDelta(bits), armedAt, Pow2(bits));
  }

  /** A 4-bit counter, last read at tick 0, whose compare value for tick 7 takes
      effect at tick 7: the match comes at tick 23, after the counter wrapped. */
  lemma ArmedLate()
    ensures Pow2(4) == 16 && MaxDelta(4) == 7
    ensures NextMatch(7, U32(0 % Pow2(4) + MaxDelta(4)) % Pow2(4), Pow2(4)) == 23
  {
    assert Pow2(2) == 4 && Pow2(4) == 4 * Pow2(2);
  }

  /** Waking at the latest MaxDelta ticks after an update leaves 9/16 of a period
      of interrupt latency before the next update comes too late. */
  lemma WakeupLeavesNineSixteenths(last: nat, wake: nat, latency: nat, bits: nat)
    requires 4 <= bits <= 32 && last <= wake <= last + MaxDelta(bits)
    requires 16 * latency < 9 * Pow2(bits)
    ensures wake + latency < last + Pow2(bits)
  {
    MaxDeltaBelowPeriod(bits);
  }

  // ---------------------------------------------------------------------
  // 32-bit timestamps
  // ---------------------------------------------------------------------

  /** Widens a 32-bit timestamp relative to a 64-bit reference. */
  function ConvertTimestamp(ref: nat, timestamp: nat): nat
    requires timestamp < U32_RANGE
  {
    var high := ref - U32(ref);
    var result := high + timestamp;
    if timestamp < U32(ref) then result + U32_RANGE else result
  }

  /** The least time at or after the reference with the given low 32 bits. */
  lemma ConvertTimestampIsLeast(ref: nat, timestamp: nat)
    requires timestamp < U32_RANGE
    ensures var r := ConvertTimestamp(ref, timestamp);
            && ref <= r < ref + U32_RANGE
            && U32(r) == timestamp
            && forall t: nat | ref <= t && U32(t) == timestamp :: r <= t
  {
    var r := ConvertTimestamp(ref, timestamp);
    assert U32(r) == timestamp;
    forall t: nat | ref <= t && U32(t) == timestamp ensures r <= t {
      assert t == (t / U32_RANGE) * U32_RANGE + timestamp;
    }
  }
}
