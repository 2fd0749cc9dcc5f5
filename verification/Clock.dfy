/** The clocks: conversions between ticks and nanoseconds, and the reconstruction of a long count from a
    counter that wraps and a coarse clock that does not. */
module Clock {
  import opened Arithmetic
  import opened Errors
  import opened FixedWidth

  const TICKS_PER_SECOND: uint64 := 1000
  const NANOSECONDS_PER_SECOND: uint64 := 1_000_000_000

  function Floor(n: int, k: int, d: int): int
    requires d > 0
  {
    n * k / d
  }

  // ----- Conversions -----

  /** `ticks_to_nanoseconds`: exact, rounded down, and saturated. */
  function TicksToNanoseconds(ticks: uint64): (nanoseconds: int64)
    ensures var exact := Floor(ticks as int, NANOSECONDS_PER_SECOND as int, TICKS_PER_SECOND as int);
            nanoseconds as int == if exact > INT64_MAX as int then INT64_MAX as int else exact
  {
    var seconds, remainder := ticks / TICKS_PER_SECOND, ticks % TICKS_PER_SECOND;
    var fraction := remainder * NANOSECONDS_PER_SECOND / TICKS_PER_SECOND;
    FloorSplit(ticks as int, NANOSECONDS_PER_SECOND as int, TICKS_PER_SECOND as int);
    if seconds > (INT64_MAX as uint64 - fraction) / NANOSECONDS_PER_SECOND then INT64_MAX
    else (seconds * NANOSECONDS_PER_SECOND + fraction) as int64
  }

  /** `thread_ticks_to_counter_ticks`: exact, rounded down, and refused exactly when it does not fit. */
  function ThreadTicksToCounterTicks(ticks: uint64, frequency: uint64): (counterTicks: Option<uint64>)
    requires 0 < frequency <= NANOSECONDS_PER_SECOND
    ensures var exact := Floor(ticks as int, frequency as int, TICKS_PER_SECOND as int);
            if exact > UINT64_MAX as int then counterTicks == None
            else counterTicks.Some? && counterTicks.value as int == exact
  {
    var seconds, remainder := ticks / TICKS_PER_SECOND, ticks % TICKS_PER_SECOND;
    FloorSplit(ticks as int, frequency as int, TICKS_PER_SECOND as int);
    FractionIsLess(remainder as int, frequency as int, TICKS_PER_SECOND as int);
    assert 0 <= remainder as int * frequency as int <= 1000 * 1_000_000_000;
    var fraction := remainder * frequency / TICKS_PER_SECOND;
    QuotientTest(seconds as int, UINT64_MAX as int - fraction as int, frequency as int);
    if seconds > (UINT64_MAX - fraction) / frequency then None
    else Some(seconds * frequency + fraction)
  }

  /** `counter_ticks_to_nanoseconds`: exact, rounded down, and refused exactly when it does not fit. */
  function CounterTicksToNanoseconds(ticks: uint64, frequency: uint64): (nanoseconds: Option<int64>)
    requires 0 < frequency <= NANOSECONDS_PER_SECOND
    ensures var exact := Floor(ticks as int, NANOSECONDS_PER_SECOND as int, frequency as int);
            if exact > INT64_MAX as int then nanoseconds == None
            else nanoseconds.Some? && nanoseconds.value as int == exact
  {
    var seconds, remainder := ticks / frequency, ticks % frequency;
    FloorSplit(ticks as int, NANOSECONDS_PER_SECOND as int, frequency as int);
    FractionIsLess(remainder as int, NANOSECONDS_PER_SECOND as int, frequency as int);
    assert 0 <= remainder as int * NANOSECONDS_PER_SECOND as int <= 1_000_000_000 * 1_000_000_000;
    var fraction := remainder * NANOSECONDS_PER_SECOND / frequency;
    if seconds > (INT64_MAX as uint64 - fraction) / NANOSECONDS_PER_SECOND then None
    else Some((seconds * NANOSECONDS_PER_SECOND + fraction) as int64)
  }

  lemma FloorMeans(n: int, k: int, d: int)
    requires d > 0
    ensures Floor(n, k, d) * d <= n * k < (Floor(n, k, d) + 1) * d
  {
    DivModOf(n * k, d);
    assert (Floor(n, k, d) + 1) * d == Floor(n, k, d) * d + d;
  }

  /** A tick is a millisecond, and times that are too long become the longest one. */
  lemma TicksAreMilliseconds(ticks: uint64)
    ensures var exact := ticks as int * 1_000_000;
            TicksToNanoseconds(ticks) as int == if exact > 0x7FFF_FFFF_FFFF_FFFF then 0x7FFF_FFFF_FFFF_FFFF else exact
  {
    DivModIs(ticks as int * 1_000_000_000, 1000, ticks as int * 1_000_000, 0);
  }

  /** In seconds, for any frequency: what is left over is less than one unit of the result. */
  lemma ConversionsRoundDown(ticks: uint64, frequency: uint64)
    requires 0 < frequency <= NANOSECONDS_PER_SECOND
    ensures var counter := ThreadTicksToCounterTicks(ticks, frequency);
            if counter.Some?
            then counter.value as int * 1000 <= ticks as int * frequency as int < (counter.value as int + 1) * 1000
            else ticks as int * frequency as int >= 0x1_0000_0000_0000_0000 * 1000
    ensures var time, f := CounterTicksToNanoseconds(ticks, frequency), frequency as int;
            if time.Some?
            then time.value as int * f <= ticks as int * 1_000_000_000 < (time.value as int + 1) * f
            else ticks as int * 1_000_000_000 >= 0x8000_0000_0000_0000 * f
  {
    FloorMeans(ticks as int, frequency as int, 1000);
    FloorMeans(ticks as int, 1_000_000_000, frequency as int);
    var exact := Floor(ticks as int, 1_000_000_000, frequency as int);
    if exact > INT64_MAX as int {
      MulMonotone(0x8000_0000_0000_0000, exact, frequency as int);
    }
  }

  // ----- The long count of a counter that wraps -----

  /** The counter value `r` ticks after it stood at `epoch`. */
  function Advanced(epoch: int, r: int, modulus: int): int
    requires modulus > 0
  {
    (epoch + r) % modulus
  }

  /** The counter stands at its epoch, goes up by one with each tick, and starts again at its modulus. */
  lemma AdvancesByOne(epoch: int, r: int, modulus: int)
    requires modulus > 0
    ensures 0 <= epoch < modulus ==> Advanced(epoch, 0, modulus) == epoch
    ensures Advanced(epoch, r + 1, modulus) ==
            if Advanced(epoch, r, modulus) + 1 == modulus then 0 else Advanced(epoch, r, modulus) + 1
  {
    if 0 <= epoch < modulus {
      ModSmall(epoch, modulus);
    }
    ModCounts(epoch + r, modulus);
  }

  /** The counts that the counter cannot tell apart from the elapsed one, as near to the estimate as can be;
      of two that are equally near the later one. */
  predicate IsNearest(epoch: uint64, current: uint64, modulus: uint64, coarse: uint64, r: int)
    requires modulus > 0
  {
    && r >= 0 && Advanced(epoch as int, r, modulus as int) == current as int
    && 2 * (coarse as int - r) < modulus as int && 2 * (r - coarse as int) <= modulus as int
  }

  function ModularElapsed(epoch: uint64, current: uint64, modulus: uint64): uint64
    requires epoch < modulus && current < modulus
  {
    if current >= epoch then current - epoch else modulus - epoch + current
  }

  /** The difference in whole turns of the counter, rounded to the nearer number. */
  function Wraps(difference: uint64, modulus: uint64): uint64
    requires modulus > 0
  {
    QuotientHasRoom(difference as int, modulus as int);
    var whole, remainder := difference / modulus, difference % modulus;
    if remainder >= modulus - remainder then whole + 1 else whole
  }

  function Turns(modular: uint64, coarse: uint64, modulus: uint64): uint64
    requires modulus > 0
  {
    if coarse >= modular then Wraps(coarse - modular, modulus) else 0
  }

  function AfterTurns(modular: uint64, turns: uint64, modulus: uint64): (elapsed: Option<uint64>)
    requires modulus > 0
    ensures var exact := modular as int + turns as int * modulus as int;
            if exact > UINT64_MAX as int then elapsed == None else elapsed.Some? && elapsed.value as int == exact
  {
    QuotientTest(turns as int, UINT64_MAX as int - modular as int, modulus as int);
    assert turns as int * modulus as int >= 0;
    if turns > (UINT64_MAX - modular) / modulus then None else Some(modular + turns * modulus)
  }

  /** The arithmetic of `high_resolution_elapsed_nanoseconds`. */
  function Reconstruct(epoch: uint64, current: uint64, modulus: uint64, coarse: uint64): Option<uint64>
    requires epoch < modulus && current < modulus
  {
    var modular := ModularElapsed(epoch, current, modulus);
    if coarse < modular && modular - coarse > modulus / 2 then None
    else AfterTurns(modular, Turns(modular, coarse, modulus), modulus)
  }

  lemma ModularElapsedIs(epoch: uint64, current: uint64, modulus: uint64, r: int)
    requires epoch < modulus && current < modulus
    ensures var modular := ModularElapsed(epoch, current, modulus) as int;
            Advanced(epoch as int, r, modulus as int) == current as int <==> r % modulus as int == modular
  {
    var m, e, c := modulus as int, epoch as int, current as int;
    var modular := ModularElapsed(epoch, current, modulus) as int;
    ModSmall(c, m);
    ModSmall(modular, m);
    ModEqual(e + r, c, m);
    ModEqual(r, modular, m);
    if current < epoch {
      assert e + r - c == r - modular + 1 * m;
      ModPlusMultiple(r - modular, 1, m);
    }
  }

  /** Rounding to the nearer turn, and up in the middle. */
  lemma NearestTurn(difference: uint64, modulus: uint64, w: int)
    requires modulus > 0
    ensures var d, m := difference as int, modulus as int;
            2 * (d - w * m) < m && 2 * (w * m - d) <= m <==> w == Wraps(difference, modulus) as int
  {
    var d, m := difference as int, modulus as int;
    DivModOf(d, m);
    var turns := d / m - w;
    assert turns * m == d / m * m - w * m;
    TurnsAside(turns, m);
  }

  lemma TurnsAside(turns: int, m: int)
    requires m > 0
    ensures turns > 0 ==> turns * m >= m
    ensures turns < -1 ==> turns * m <= -2 * m
    ensures turns == -1 ==> turns * m == -m
    ensures turns == 0 ==> turns * m == 0
  {
    if turns > 0 {
      MulAtLeast(turns, m);
    } else if turns < -1 {
      MulAtLeast(-1 - turns, m);
      assert (-1 - turns) * m == -m - turns * m;
    }
  }

  /** Among the counts in the right residue class, nearness decides the number of turns. */
  lemma NearestCount(modular: uint64, modulus: uint64, coarse: uint64, w: int)
    requires modular < modulus && w >= 0
    ensures var m, r := modulus as int, modular as int + w * modulus as int;
            2 * (coarse as int - r) < m && 2 * (r - coarse as int) <= m <==>
            w == Turns(modular, coarse, modulus) as int && !(coarse < modular && modular - coarse > modulus / 2)
  {
    if coarse >= modular {
      NearestTurn(coarse - modular, modulus, w);
    } else if w > 0 {
      MulAtLeast(w, modulus as int);
    }
  }

  /** A result is given exactly when there is a nearest count that fits, and then it is that one. */
  lemma ReconstructIsNearest(epoch: uint64, current: uint64, modulus: uint64, coarse: uint64, r: uint64)
    requires epoch < modulus && current < modulus
    ensures Reconstruct(epoch, current, modulus, coarse) == Some(r) <==>
            IsNearest(epoch, current, modulus, coarse, r as int)
  {
    var m, modular := modulus as int, ModularElapsed(epoch, current, modulus);
    var w := r as int / m;
    ModularElapsedIs(epoch, current, modulus, r as int);
    QuotientHasRoom(r as int, m);
    TurnsAndRemainder(r as int, m, Turns(modular, coarse, modulus) as int, modular as int);
    TurnsAndRemainder(r as int, m, w, modular as int);
    NearestCount(modular, modulus, coarse, w);
    hide Wraps, Advanced, ModularElapsed, Turns, AfterTurns;
  }

  /** The reconstruction is exact: if the coarse clock is off by less than half a turn, the true count comes
      out, whatever it is. */
  lemma ReconstructionIsExact(epoch: uint64, current: uint64, modulus: uint64, coarse: uint64, elapsed: uint64)
    requires epoch < modulus && current as int == Advanced(epoch as int, elapsed as int, modulus as int)
    requires 2 * (coarse as int - elapsed as int) < modulus as int
    requires 2 * (elapsed as int - coarse as int) < modulus as int
    ensures current < modulus && Reconstruct(epoch, current, modulus, coarse) == Some(elapsed)
  {
    DivModOf(epoch as int + elapsed as int, modulus as int);
    ReconstructIsNearest(epoch, current, modulus, coarse, elapsed);
  }

  /** Half a turn is the limit: an estimate of just half a turn fits no turn and a whole one equally well,
      and a counter that has not moved is then taken to have gone round once. */
  lemma HalfATurnIsAmbiguous(epoch: uint64, half: uint64)
    requires 0 < half <= 0x8000_0000 && epoch < 2 * half
    ensures Reconstruct(epoch, epoch, 2 * half, half) == Some(2 * half)
    ensures Advanced(epoch as int, 0, 2 * half as int) == Advanced(epoch as int, 2 * half as int, 2 * half as int)
            == epoch as int
  {
    ModSmall(epoch as int, 2 * half as int);
    ModPlusMultiple(epoch as int, 1, 2 * half as int);
    hide Reconstruct;
    ReconstructIsNearest(epoch, epoch, 2 * half, half, 2 * half);
  }

  // ----- Reading the counter -----

  datatype Counter = Counter(ticks: uint64, frequency: uint64, modulus: uint64, version: uint32)

  /** `valid_high_resolution_counter`; a modulus of 0 stands for a counter that does not wrap. */
  predicate IsValidCounter(counter: Counter) {
    && 0 < counter.frequency <= NANOSECONDS_PER_SECOND
    && (counter.modulus == 0 || counter.ticks < counter.modulus)
  }

  predicate HasSameScale(a: Counter, b: Counter) {
    a.version == b.version && a.frequency == b.frequency && a.modulus == b.modulus
  }

  function ElapsedTicks(epoch: Counter, current: Counter, threadTicks: uint64): Option<uint64>
    requires IsValidCounter(epoch) && IsValidCounter(current) && HasSameScale(epoch, current)
  {
    if current.modulus == 0 then
      if current.ticks < epoch.ticks then None else Some(current.ticks - epoch.ticks)
    else
      match ThreadTicksToCounterTicks(threadTicks, current.frequency)
      case None => None
      case Some(coarse) => Reconstruct(epoch.ticks, current.ticks, current.modulus, coarse)
  }

  /** The timer that refines the coarse clock, as long as it keeps running unchanged. */
  class HighResolutionClock {
    const epoch: Counter
    var available: bool

    constructor (epoch: Counter)
      requires IsValidCounter(epoch)
      ensures this.epoch == epoch && available
    {
      this.epoch, available := epoch, true;
    }

    /** `high_resolution_elapsed_nanoseconds`. A reading that fails or is out of range, or whose timer was started
        anew, retires the timer for good; one that the coarse clock does not bear out is only passed over. */
    method ElapsedNanoseconds(reading: Option<Counter>, threadTicks: uint64) returns (result: Option<int64>)
      requires IsValidCounter(epoch)
      modifies `available
      ensures available <==>
                && old(available) && reading.Some? && reading.value.version == epoch.version
                && reading.value.frequency == epoch.frequency && reading.value.modulus == epoch.modulus
                && 0 < reading.value.frequency <= 1_000_000_000
                && (reading.value.modulus == 0 || reading.value.ticks < reading.value.modulus)
      ensures result.Some? ==> available
      ensures available ==>
                result == match ElapsedTicks(epoch, reading.value, threadTicks)
                          case None => None
                          case Some(ticks) => CounterTicksToNanoseconds(ticks, epoch.frequency)
    {
      if !available {
        return None;
      }
      if reading.None? || !IsValidCounter(reading.value) || !HasSameScale(reading.value, epoch) {
        available := false;
        return None;
      }
      var elapsed := ElapsedTicks(epoch, reading.value, threadTicks);
      match elapsed {
        case None => return None;
        case Some(ticks) => return CounterTicksToNanoseconds(ticks, epoch.frequency);
      }
    }
  }

  /** A counter that does not wrap gives the difference, or nothing when it has gone back. */
  lemma PlainCounterCounts(epoch: Counter, current: Counter, threadTicks: uint64)
    requires IsValidCounter(epoch) && IsValidCounter(current) && HasSameScale(epoch, current) && epoch.modulus == 0
    ensures forall elapsed: uint64 :: ElapsedTicks(epoch, current, threadTicks) == Some(elapsed) <==>
                                      epoch.ticks as int + elapsed as int == current.ticks as int
    ensures ElapsedTicks(epoch, current, threadTicks) == None <==> current.ticks < epoch.ticks
  {}

  /** The whole path is exact: a counter that wraps, read when `elapsed` of its ticks have passed while the
      thread clock is less than half a turn off, gives the elapsed nanoseconds rounded down. */
  lemma ElapsedIsExact(epoch: Counter, current: Counter, threadTicks: uint64, elapsed: uint64)
    requires IsValidCounter(epoch) && IsValidCounter(current) && HasSameScale(epoch, current) && epoch.modulus > 0
    requires current.ticks as int == Advanced(epoch.ticks as int, elapsed as int, epoch.modulus as int)
    requires var coarse := Floor(threadTicks as int, epoch.frequency as int, TICKS_PER_SECOND as int);
             && coarse <= UINT64_MAX as int
             && 2 * (coarse - elapsed as int) < epoch.modulus as int
             && 2 * (elapsed as int - coarse) < epoch.modulus as int
    requires Floor(elapsed as int, NANOSECONDS_PER_SECOND as int, epoch.frequency as int) <= INT64_MAX as int
    ensures ElapsedTicks(epoch, current, threadTicks) == Some(elapsed)
    ensures var nanoseconds := CounterTicksToNanoseconds(elapsed, epoch.frequency);
            nanoseconds.Some? &&
            nanoseconds.value as int == Floor(elapsed as int, NANOSECONDS_PER_SECOND as int, epoch.frequency as int)
  {
    var coarse := ThreadTicksToCounterTicks(threadTicks, current.frequency).value;
    ReconstructionIsExact(epoch.ticks, current.ticks, current.modulus, coarse, elapsed);
  }

  // ----- Waiting -----

  const MAX_FINITE_WAIT: uint64 := 0xFFFF_FFFE

  function Ceiling(n: int, k: int, d: int): int
    requires d > 0
  {
    (n * k + d - 1) / d
  }

  /** `duration_to_ticks`: rounded up, and at most the longest finite wait. */
  function DurationToTicks(nanoseconds: uint64): (ticks: uint64)
    ensures var exact := Ceiling(nanoseconds as int, TICKS_PER_SECOND as int, NANOSECONDS_PER_SECOND as int);
            ticks as int == if exact > MAX_FINITE_WAIT as int then MAX_FINITE_WAIT as int else exact
  {
    if nanoseconds == 0 then 0
    else
      var whole, remainder := nanoseconds / NANOSECONDS_PER_SECOND, nanoseconds % NANOSECONDS_PER_SECOND;
      if whole > UINT32_MAX as uint64 / TICKS_PER_SECOND then MAX_FINITE_WAIT
      else
        var ticks := whole * TICKS_PER_SECOND +
                     (remainder * TICKS_PER_SECOND + NANOSECONDS_PER_SECOND - 1) / NANOSECONDS_PER_SECOND;
        if ticks > MAX_FINITE_WAIT then MAX_FINITE_WAIT else ticks
  }

  /** The fewest milliseconds that are not shorter than the duration, unless that is no finite wait. */
  lemma DurationIsCovered(nanoseconds: uint64)
    ensures var ticks := DurationToTicks(nanoseconds) as int;
            && ticks <= 0xFFFF_FFFE && (ticks - 1) * 1_000_000 < nanoseconds as int
            && (ticks * 1_000_000 >= nanoseconds as int || ticks == 0xFFFF_FFFE)
  {
    CeilingMeans(nanoseconds as int);
  }

  lemma CeilingMeans(n: int)
    requires n >= 0
    ensures var c := Ceiling(n, TICKS_PER_SECOND as int, NANOSECONDS_PER_SECOND as int);
            (c - 1) * 1_000_000 < n <= c * 1_000_000
  {
    CeilingIs(n * 1000, 1_000_000_000);
  }

  function Slept(chunks: seq<uint32>): int {
    if chunks == [] then 0 else Slept(chunks[..|chunks| - 1]) + (chunks[|chunks| - 1] as int - 1)
  }

  function Total(lengths: seq<int>): int {
    if lengths == [] then 0 else Total(lengths[..|lengths| - 1]) + lengths[|lengths| - 1]
  }

  /** When a sleep of n ticks lasts at least n - 1 milliseconds, the sleeps last `Slept` of them, and not
      longer than that when each takes no longer than it must. */
  lemma {:induction false} SleepsAddUp(sleeps: seq<uint32>, lengths: seq<int>)
    requires |lengths| == |sleeps|
    requires forall i | 0 <= i < |sleeps| :: lengths[i] >= (sleeps[i] as int - 1) * 1_000_000
    ensures Total(lengths) >= Slept(sleeps) * 1_000_000
    ensures (forall i | 0 <= i < |sleeps| :: lengths[i] == (sleeps[i] as int - 1) * 1_000_000) ==>
              Total(lengths) == Slept(sleeps) * 1_000_000
  {
    if sleeps != [] {
      SleepsAddUp(sleeps[..|sleeps| - 1], lengths[..|lengths| - 1]);
    }
  }

  /** `sleep_for`: a sleep of n + 1 ticks lasts more than n whole periods, so the sleeps together last at
      least the duration, and none of them is an endless one. */
  method SleepFor(nanoseconds: uint64) returns (sleeps: seq<uint32>)
    ensures Slept(sleeps) == Ceiling(nanoseconds as int, TICKS_PER_SECOND as int, NANOSECONDS_PER_SECOND as int)
    ensures (Slept(sleeps) - 1) * 1_000_000 < nanoseconds as int <= Slept(sleeps) * 1_000_000
    ensures forall i | 0 <= i < |sleeps| :: 1 < sleeps[i] < 0xFFFF_FFFF
  {
    CeilingMeans(nanoseconds as int);
    sleeps := [];
    if nanoseconds == 0 {
      return;
    }
    var whole, remainder := nanoseconds / NANOSECONDS_PER_SECOND, nanoseconds % NANOSECONDS_PER_SECOND;
    var ticks := whole * TICKS_PER_SECOND +
                 (remainder * TICKS_PER_SECOND + NANOSECONDS_PER_SECOND - 1) / NANOSECONDS_PER_SECOND;
    ghost var total := ticks as int;
    while ticks != 0
      invariant Slept(sleeps) + ticks as int == total
      invariant forall i | 0 <= i < |sleeps| :: 1 < sleeps[i] < UINT32_MAX
    {
      var chunk := if ticks < MAX_FINITE_WAIT - 1 then ticks else MAX_FINITE_WAIT - 1;
      sleeps := sleeps + [(chunk + 1) as uint32];
      ticks := ticks - chunk;
    }
  }
}
