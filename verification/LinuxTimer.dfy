/** The simulated hardware timer: a counter computed from the monotonic clock. */
module LinuxTimer {
  import opened Arithmetic
  import opened FixedWidth

  const NANOSECONDS_PER_SECOND: uint64 := 1_000_000_000
  const BILLION := 1_000_000_000

  /** The ticks of a frequency that are complete after some nanoseconds, in unbounded arithmetic. */
  function Ticks(nanoseconds: nat, frequency: nat): (ticks: nat)
  {
    QuotientHasRoom(nanoseconds * frequency, BILLION);
    nanoseconds * frequency / BILLION
  }

  /** The fields that the counter is computed from. */
  datatype Base = Base(counter: uint32, startedAt: uint64, inputHz: uint32, prescaler: uint32, autoReload: uint32)

  function Frequency(base: Base): uint64 {
    DivMonotone(0, base.inputHz as int, base.prescaler as int + 1);
    base.inputHz as uint64 / (base.prescaler as uint64 + 1)
  }

  function Period(base: Base): uint64 {
    base.autoReload as uint64 + 1
  }

  /** `getTickFrequencyHzUnlocked` fits its 32-bit result. */
  lemma FrequencyFits(base: Base)
    ensures Frequency(base) <= base.inputHz as uint64
  {
    QuotientHasRoom(base.inputHz as int, base.prescaler as int + 1);
  }

  /** The divider divides: so many times `prescaler + 1` input ticks fit into a second. */
  lemma FrequencyDivides(base: Base)
    ensures var f, divisor := Frequency(base) as int, base.prescaler as int + 1;
            f * divisor <= base.inputHz as int < (f + 1) * divisor
  {
    DivModOf(base.inputHz as int, base.prescaler as int + 1);
    var f, divisor := Frequency(base) as int, base.prescaler as int + 1;
    assert (f + 1) * divisor == f * divisor + divisor;
  }

  /** A tick counts when it is complete. */
  lemma TicksAreComplete(nanoseconds: nat, frequency: nat)
    ensures var ticks := Ticks(nanoseconds, frequency);
            ticks * 1_000_000_000 <= nanoseconds * frequency < (ticks + 1) * 1_000_000_000
  {}

  // ----- Reading the counter -----

  /** A product in the arithmetic of the code, which does not overflow. */
  function Product(a: uint64, b: uint64): (product: uint64)
    requires a as int < TWO_TO_THE_32 && b as int < TWO_TO_THE_32
    ensures product as int == a as int * b as int
  {
    MulMonotone(0, a as int, b as int);
    MulMonotone(a as int, TWO_TO_THE_32 - 1, b as int);
    a * b
  }

  /** The ticks since the base, modulo the period, from whole seconds and the rest of a second. */
  function ElapsedTicks(elapsed: uint64, frequency: uint64, period: uint64): (ticks: uint64)
    requires frequency as int < TWO_TO_THE_32 && 0 < period as int <= TWO_TO_THE_32
    ensures ticks as int == Ticks(elapsed as int, frequency as int) % period as int
  {
    var seconds, remainder := elapsed / NANOSECONDS_PER_SECOND, elapsed % NANOSECONDS_PER_SECOND;
    var wholeTicks := Product(seconds % period, frequency % period) % period;
    var fractionalTicks := Product(remainder, frequency) / NANOSECONDS_PER_SECOND % period;
    TicksAreModular(elapsed as int, frequency as int, period as int);
    (wholeTicks + fractionalTicks) % period
  }

  lemma TicksAreModular(elapsed: nat, frequency: nat, period: nat)
    requires period > 0
    ensures var whole := elapsed / BILLION % period * (frequency % period) % period;
            var fraction := elapsed % BILLION * frequency / BILLION % period;
            (whole + fraction) % period == Ticks(elapsed, frequency) % period
  {
    var seconds, fraction := elapsed / BILLION, elapsed % BILLION * frequency / BILLION;
    FloorSplit(elapsed, frequency, BILLION);
    ModOfProduct(seconds, frequency, period);
    ModOfSum(seconds * frequency, fraction % period, period);
    ModOfSum(seconds * frequency, fraction, period);
  }

  /** What the counter shows when some ticks have passed since the base. */
  function CounterOn(base: Base, ticks: nat): (counter: int)
    ensures 0 <= counter < Period(base) as int
  {
    DivModOf(base.counter as int + ticks, Period(base) as int);
    (base.counter as int + ticks) % Period(base) as int
  }

  /** The counter begins at its base, counts up by one with each tick, and goes from the auto-reload value to 0. */
  lemma CounterCountsUp(base: Base, ticks: nat)
    ensures base.counter <= base.autoReload ==> CounterOn(base, 0) == base.counter as int
    ensures CounterOn(base, ticks + 1) ==
            if CounterOn(base, ticks) == base.autoReload as int then 0 else CounterOn(base, ticks) + 1
  {
    if base.counter <= base.autoReload {
      ModSmall(base.counter as int, Period(base) as int);
    }
    ModCounts(base.counter as int + ticks, Period(base) as int);
  }

  /** `counterAt`: its 64-bit arithmetic does not overflow and computes the counter of a timer that has run
      since its base: that many ticks on, modulo the period. */
  function CounterAt(base: Base, now: uint64): (counter: uint32)
    requires base.startedAt <= now
    ensures Frequency(base) > 0 ==>
              counter as int == CounterOn(base, Ticks((now - base.startedAt) as int, Frequency(base) as int))
    ensures Frequency(base) == 0 ==> counter == base.counter
  {
    var period, frequency := Period(base), Frequency(base);
    if frequency == 0 then base.counter
    else
      FrequencyFits(base);
      var elapsedTicks := ElapsedTicks(now - base.startedAt, frequency, period);
      var ticks := Ticks((now - base.startedAt) as int, frequency as int);
      ModOfSum(base.counter as int, ticks, period as int);
      assert 0 <= CounterOn(base, ticks);
      ((base.counter as uint64 + elapsedTicks) % period) as uint32
  }

  // ----- Taking a new base -----

  /** Ticks counted in two parts are those counted at once, or one fewer; exactly when the fractions of a tick
      that the parts leave over make no whole tick together is nothing lost. */
  lemma TicksOfParts(a: nat, b: nat, frequency: nat)
    ensures Ticks(a + b, frequency) ==
            Ticks(a, frequency) + Ticks(b, frequency) +
            if a * frequency % BILLION + b * frequency % BILLION < BILLION then 0 else 1
  {
    assert (a + b) * frequency == a * frequency + b * frequency;
    FloorOfSum(a * frequency, b * frequency, BILLION);
  }

  /** `captureCounter`: the counter at `now` becomes the counter of a base at `now`. */
  function Rebased(base: Base, now: uint64): Base
    requires base.startedAt <= now
  {
    base.(counter := CounterAt(base, now), startedAt := now)
  }

  /** What a cut between two times makes the count lose. */
  function Lost(a: nat, b: nat, frequency: nat): (lost: nat)
    ensures lost <= 1
  {
    if a * frequency % BILLION + b * frequency % BILLION < BILLION then 0 else 1
  }

  /** From the counter that a base shows the count goes on as if it had not been interrupted. */
  lemma CountGoesOn(base: Base, rebased: Base, a: nat, b: nat)
    requires Period(rebased) == Period(base) && rebased.counter as int == CounterOn(base, a)
    ensures CounterOn(rebased, b) == CounterOn(base, a + b)
  {
    ModLeft(base.counter as int + a, b, Period(base) as int);
  }

  lemma CatchesUp(base: Base, ticks: nat, lost: nat)
    ensures (CounterOn(base, ticks) + lost) % Period(base) as int == CounterOn(base, ticks + lost)
  {
    ModLeft(base.counter as int + ticks, lost, Period(base) as int);
  }

  /** Reading after one new base at `middle`: at most one tick behind, never ahead. */
  lemma RebasingLosesAtMostOneTick(base: Base, middle: uint64, now: uint64)
    requires base.startedAt <= middle <= now && Frequency(base) > 0
    ensures var lost := Lost((middle - base.startedAt) as int, (now - middle) as int, Frequency(base) as int);
            (CounterAt(Rebased(base, middle), now) as int + lost) % Period(base) as int == CounterAt(base, now) as int
  {
    var f := Frequency(base) as int;
    var a, b := (middle - base.startedAt) as int, (now - middle) as int;
    TicksOfParts(a, b, f);
    hide CounterOn, CounterAt, Ticks;
    CountGoesOn(base, Rebased(base, middle), Ticks(a, f), Ticks(b, f));
    CatchesUp(base, Ticks(a, f) + Ticks(b, f), Lost(a, b, f));
  }

  /** The moments of captures, in order, the last of them not after `now`. */
  ghost predicate InOrder(base: Base, times: seq<uint64>, now: uint64)
    decreases |times|
  {
    if times == [] then base.startedAt <= now
    else times[|times| - 1] <= now && InOrder(base, times[..|times| - 1], times[|times| - 1])
  }

  lemma {:induction false} StartsInOrder(base: Base, times: seq<uint64>, now: uint64)
    requires InOrder(base, times, now)
    ensures base.startedAt <= now
    decreases |times|
  {
    if times != [] {
      StartsInOrder(base, times[..|times| - 1], times[|times| - 1]);
    }
  }

  /** The base after a capture at each of the times. */
  ghost function RebasedAll(base: Base, times: seq<uint64>, now: uint64): (last: Base)
    requires InOrder(base, times, now)
    ensures last == base.(counter := last.counter, startedAt := last.startedAt) && last.startedAt <= now
    decreases |times|
  {
    if times == [] then base
    else Rebased(RebasedAll(base, times[..|times| - 1], times[|times| - 1]), times[|times| - 1])
  }

  /** The ticks that are counted from one capture to the next, and from the last one to `now`. */
  ghost function TicksCounted(base: Base, times: seq<uint64>, now: uint64): nat
    requires InOrder(base, times, now)
    decreases |times|
  {
    var f := Frequency(base) as int;
    if times == [] then Ticks((now - base.startedAt) as int, f)
    else
      var last := times[|times| - 1];
      TicksCounted(base, times[..|times| - 1], last) + Ticks((now - last) as int, f)
  }

  lemma SameRate(base: Base, times: seq<uint64>, now: uint64)
    requires InOrder(base, times, now)
    ensures Frequency(RebasedAll(base, times, now)) == Frequency(base)
    ensures Period(RebasedAll(base, times, now)) == Period(base)
  {}

  lemma {:induction false} CountedTicksAreShown(base: Base, times: seq<uint64>, now: uint64)
    requires InOrder(base, times, now)
    ensures var shown := CounterAt(RebasedAll(base, times, now), now);
            if Frequency(base) == 0 then shown == base.counter
            else shown as int == CounterOn(base, TicksCounted(base, times, now))
    decreases |times|
  {
    SameRate(base, times, now);
    hide CounterAt, CounterOn, Ticks, Frequency, Period;
    if times != [] && Frequency(base) > 0 {
      var earlier, last := times[..|times| - 1], times[|times| - 1];
      CountedTicksAreShown(base, earlier, last);
      CountGoesOn(base, RebasedAll(base, times, now), TicksCounted(base, earlier, last),
                  Ticks((now - last) as int, Frequency(base) as int));
    } else if times != [] {
      CountedTicksAreShown(base, times[..|times| - 1], times[|times| - 1]);
    }
  }

  lemma {:induction false} CountingLosesAtMostOneEach(base: Base, times: seq<uint64>, now: uint64)
    requires InOrder(base, times, now) && base.startedAt <= now
    ensures var counted := TicksCounted(base, times, now);
            counted <= Ticks((now - base.startedAt) as int, Frequency(base) as int) <= counted + |times|
    decreases |times|
  {
    if times != [] {
      var earlier, last := times[..|times| - 1], times[|times| - 1];
      StartsInOrder(base, earlier, last);
      CountingLosesAtMostOneEach(base, earlier, last);
      TicksOfParts((last - base.startedAt) as int, (now - last) as int, Frequency(base) as int);
    }
  }

  /** After any number of new bases the counter shows, modulo the period, what it would show without them less
      at most one tick for each, and never more. */
  lemma RebasingNeverGains(base: Base, times: seq<uint64>, now: uint64)
    requires InOrder(base, times, now)
    ensures base.startedAt <= now
    ensures Frequency(base) > 0 ==>
              var lost := Ticks((now - base.startedAt) as int, Frequency(base) as int) - TicksCounted(base, times, now);
              && 0 <= lost <= |times|
              && (CounterAt(RebasedAll(base, times, now), now) as int + lost) % Period(base) as int ==
                 CounterAt(base, now) as int
    ensures Frequency(base) == 0 ==> CounterAt(RebasedAll(base, times, now), now) == CounterAt(base, now)
  {
    StartsInOrder(base, times, now);
    hide CounterAt, CounterOn, Ticks, Frequency;
    CountedTicksAreShown(base, times, now);
    CountingLosesAtMostOneEach(base, times, now);
    var counted := TicksCounted(base, times, now);
    var lost := Ticks((now - base.startedAt) as int, Frequency(base) as int) - counted;
    CatchesUp(base, counted, lost);
  }

  // ----- The deadline of the worker -----

  /** `nanosecondsUntilOverflowUnlocked` of a running timer. */
  function NanosecondsUntilOverflow(base: Base, now: uint64): (delay: uint64)
    requires base.startedAt <= now
    ensures Frequency(base) == 0 ==> delay == NANOSECONDS_PER_SECOND
  {
    var frequency := Frequency(base);
    if frequency == 0 then NANOSECONDS_PER_SECOND
    else
      DivModOf((base.counter as int + Ticks((now - base.startedAt) as int, frequency as int)), Period(base) as int);
      var ticks := Period(base) - CounterAt(base, now) as uint64;
      FrequencyFits(base);
      QuotientHasRoom((ticks * NANOSECONDS_PER_SECOND + frequency - 1) as int, frequency as int);
      (ticks * NANOSECONDS_PER_SECOND + frequency - 1) / frequency
  }

  /** The deadline is never before the counter wraps, and the counter has not wrapped a whole tick earlier. */
  lemma DeadlineIsNotEarly(base: Base, now: uint64, earlier: nat)
    requires base.startedAt <= now && Frequency(base) > 0
    ensures var f, e := Frequency(base) as int, (now - base.startedAt) as int;
            var ticks, delay := Period(base) as int - CounterAt(base, now) as int,
                                NanosecondsUntilOverflow(base, now) as int;
            && 0 < ticks
            && Ticks(e + delay, f) >= Ticks(e, f) + ticks
            && (earlier <= delay && (delay - earlier - 1) * f >= BILLION ==>
                  Ticks(e + earlier, f) < Ticks(e, f) + ticks)
  {
    var f, e := Frequency(base) as int, (now - base.startedAt) as int;
    DivModOf(base.counter as int + Ticks(e, f), Period(base) as int);
    var ticks, delay := Period(base) as int - CounterAt(base, now) as int, NanosecondsUntilOverflow(base, now) as int;
    CeilingIs(ticks * BILLION, f);
    WrapTime(e, delay, f, ticks);
    if earlier <= delay && (delay - earlier - 1) * f >= BILLION {
      NotYetWrapped(e, delay, earlier, f, ticks);
    }
  }

  lemma WrapTime(e: nat, delay: nat, f: nat, ticks: nat)
    requires ticks * BILLION <= delay * f
    ensures Ticks(e + delay, f) >= Ticks(e, f) + ticks
  {
    TicksOfParts(e, delay, f);
    DivMonotone(ticks * BILLION, delay * f, BILLION);
    DivModIs(ticks * BILLION, BILLION, ticks, 0);
  }

  lemma NotYetWrapped(e: nat, delay: nat, earlier: nat, f: nat, ticks: nat)
    requires (delay - 1) * f < ticks * BILLION && earlier <= delay && (delay - earlier - 1) * f >= BILLION
    ensures Ticks(e + earlier, f) < Ticks(e, f) + ticks
  {
    TicksOfParts(e, earlier, f);
    assert earlier * f == (delay - 1) * f - (delay - earlier - 1) * f;
    DivMonotone(earlier * f, ticks * BILLION - BILLION - 1, BILLION);
    DivModIs(ticks * BILLION - BILLION - 1, BILLION, ticks - 2, BILLION - 1);
  }

  // ----- Durations -----

  /** `durationToTicksUnlocked`. */
  function DurationToTicks(base: Base, nanoseconds: int64): uint32 {
    var frequency := Frequency(base);
    if nanoseconds <= 0 || frequency == 0 then 0
    else
      var duration := nanoseconds as uint64;
      FrequencyFits(base);
      PartsToTicks(duration / NANOSECONDS_PER_SECOND, duration % NANOSECONDS_PER_SECOND, frequency)
  }

  function PartsToTicks(seconds: uint64, remainder: uint64, frequency: uint64): (ticks: uint32)
    requires remainder < NANOSECONDS_PER_SECOND && 0 < frequency < TWO_TO_THE_32 as uint64
    ensures var exact := seconds as int * frequency as int +
                         (remainder as int * frequency as int + BILLION - 1) / BILLION;
            ticks as int == if exact > UINT32_MAX as int then UINT32_MAX as int else exact
  {
    var maximum := UINT32_MAX as uint64;
    QuotientTest(seconds as int, maximum as int, frequency as int);
    MulMonotone(0, remainder as int, frequency as int);
    DivMonotone(0, remainder as int * frequency as int + BILLION - 1, BILLION);
    if seconds > maximum / frequency then UINT32_MAX
    else
      MulMonotone(remainder as int, BILLION - 1, frequency as int);
      MulMonotone(0, seconds as int, frequency as int);
      var wholeTicks := seconds * frequency;
      var fractionalTicks := (Product(remainder, frequency) + NANOSECONDS_PER_SECOND - 1) / NANOSECONDS_PER_SECOND;
      if fractionalTicks > maximum - wholeTicks then UINT32_MAX else (wholeTicks + fractionalTicks) as uint32
  }

  /** Rounded up in unbounded arithmetic, 0 for no duration, and at most the largest tick. */
  lemma DurationIsRoundedUp(base: Base, nanoseconds: int64)
    ensures var exact := if nanoseconds <= 0 then 0 else
                         (nanoseconds as int * Frequency(base) as int + 999_999_999) / 1_000_000_000;
            DurationToTicks(base, nanoseconds) as int == if exact > 0xFFFF_FFFF then 0xFFFF_FFFF else exact
  {
    if nanoseconds > 0 {
      if Frequency(base) == 0 {
        DivModIs(BILLION - 1, BILLION, 0, BILLION - 1);
      } else {
        FrequencyFits(base);
        CeilingSplit(nanoseconds as int, Frequency(base) as int);
      }
    }
  }

  /** Rounding up in two parts. */
  lemma CeilingSplit(n: nat, frequency: nat)
    ensures (n * frequency + BILLION - 1) / BILLION ==
            n / BILLION * frequency + (n % BILLION * frequency + BILLION - 1) / BILLION
    ensures (n % BILLION * frequency + BILLION - 1) / BILLION >= 0
  {
    DivModOf(n, BILLION);
    assert n * frequency == n % BILLION * frequency + n / BILLION * frequency * BILLION by {
      assert (n / BILLION * BILLION + n % BILLION) * frequency ==
             n / BILLION * BILLION * frequency + n % BILLION * frequency;
    }
    ModPlusMultiple(n % BILLION * frequency + BILLION - 1, n / BILLION * frequency, BILLION);
    assert n % BILLION * frequency >= 0;
    DivMonotone(0, n % BILLION * frequency + BILLION - 1, BILLION);
  }

  // ----- The timer -----

  class Timer {
    var counter: uint32
    var startedAt: uint64
    const inputHz: uint32
    var prescaler: uint32
    var autoReload: uint32
    var running: bool
    var version: uint32

    constructor (inputHz: uint32, prescaler: uint32, autoReload: uint32, now: uint64)
      ensures Fields() == Base(0, now, inputHz, prescaler, autoReload) && !running && version == 0
    {
      this.inputHz, this.prescaler, this.autoReload := inputHz, prescaler, autoReload;
      counter, startedAt, running, version := 0, now, false, 0;
    }

    function Fields(): Base
      reads this
    {
      Base(counter, startedAt, inputHz, prescaler, autoReload)
    }

    /** `getCounter`: a stopped timer shows its counter, whatever the time is. */
    function Counter(now: uint64): (shown: uint32)
      requires startedAt <= now
      reads this
      ensures !running ==> shown == counter
      ensures running && Frequency(Fields()) > 0 ==>
                shown as int == CounterOn(Fields(), Ticks((now - startedAt) as int, Frequency(Fields()) as int))
    {
      if running then CounterAt(Fields(), now) else counter
    }

    /** Every change is announced by a new version; 2^32 of them make the old one again. */
    function NextVersion(): (next: uint32)
      reads this
      ensures next as int == (version as int + 1) % 0x1_0000_0000 && next != version
    {
      if version == UINT32_MAX then 0 else version + 1
    }

    method CaptureCounter(now: uint64)
      requires startedAt <= now
      modifies `counter
      ensures counter == old(Counter(now))
    {
      if running {
        counter := CounterAt(Fields(), now);
      }
    }

    /** `start` and `startIt`: a running timer goes on from the same counter, a stopped one from where it stood. */
    method Start(now: uint64) returns (ok: bool)
      requires startedAt <= now
      modifies this
      ensures ok <==> Frequency(old(Fields())) != 0
      ensures !ok ==> Fields() == old(Fields()) && running == old(running) && version == old(version)
      ensures ok ==> running && version == old(NextVersion())
      ensures ok ==> Fields() == old(Fields()).(counter := old(Counter(now)), startedAt := now)
    {
      if Frequency(Fields()) == 0 {
        return false;
      }
      CaptureCounter(now);
      startedAt := now;
      running := true;
      version := NextVersion();
      ok := true;
    }

    /** `stop`: the counter stands still from now on. */
    method Stop(now: uint64)
      requires startedAt <= now
      modifies this
      ensures Fields() == old(Fields()).(counter := old(Counter(now))) && !running && version == old(NextVersion())
      ensures forall later: uint64 | startedAt <= later :: Counter(later) == old(Counter(now))
    {
      CaptureCounter(now);
      running := false;
      version := NextVersion();
    }

    method SetCounter(value: uint32, now: uint64)
      modifies this
      ensures Fields() == old(Fields()).(counter := value, startedAt := now)
      ensures running == old(running) && version == old(NextVersion())
    {
      counter := value;
      startedAt := now;
      version := NextVersion();
    }

    /** `setPrescaler`: what has been counted so far is kept at the old frequency. */
    method SetPrescaler(value: uint32, now: uint64)
      requires startedAt <= now
      modifies this
      ensures Fields() == old(Fields()).(counter := old(Counter(now)), startedAt := now, prescaler := value)
      ensures running == old(running) && version == old(NextVersion())
    {
      CaptureCounter(now);
      prescaler := value;
      startedAt := now;
      version := NextVersion();
    }

    /** `setAutoReload`: what has been counted so far is kept, modulo the old period. */
    method SetAutoReload(value: uint32, now: uint64)
      requires startedAt <= now
      modifies this
      ensures Fields() == old(Fields()).(counter := old(Counter(now)), startedAt := now, autoReload := value)
      ensures running == old(running) && version == old(NextVersion())
    {
      CaptureCounter(now);
      autoReload := value;
      startedAt := now;
      version := NextVersion();
    }

    /** `setPeriodImpl`: from 0, the counter now wraps after that many ticks, but at least one. */
    method SetPeriod(duration: int64, now: uint64)
      modifies this
      ensures var ticks := DurationToTicks(old(Fields()), duration);
              && Fields() == old(Fields()).(counter := 0, startedAt := now, autoReload := autoReload)
              && autoReload as int == if ticks == 0 then 0 else ticks as int - 1
      ensures running == old(running) && version == old(NextVersion())
    {
      var ticks := DurationToTicks(Fields(), duration);
      autoReload := if ticks == 0 then 0 else ticks - 1;
      counter := 0;
      startedAt := now;
      version := NextVersion();
    }
  }

  /** Starting a running timer again leaves its reading as it is, at that moment. */
  method Restart(timer: Timer, now: uint64)
    requires timer.running && timer.startedAt <= now && Frequency(timer.Fields()) != 0
    modifies timer
    ensures timer.Fields() == Rebased(old(timer.Fields()), now) && timer.running
    ensures timer.Counter(now) == old(timer.Counter(now))
  {
    ghost var base := timer.Fields();
    var ok := timer.Start(now);
    var f, p := Frequency(base) as int, Period(base) as int;
    DivModOf(base.counter as int + Ticks((now - base.startedAt) as int, f), p);
    ModSmall(timer.counter as int, p);
    assert Ticks(0, f) == 0 by {
      assert 0 * f == 0;
    }
  }
}
