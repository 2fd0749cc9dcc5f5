/** The 32-bit tick of ThreadX, extended to 64 bits by counting its turns. */
module TickCounter {
  import opened FixedWidth

  const TURN := 0x1_0000_0000

  /** The true number of ticks: never wraps. A sample of it is what `tx_time_get` returns. */
  function Sample(ticks: nat): uint32 {
    (ticks % TURN) as uint32
  }

  function WholeTurns(ticks: nat): nat {
    ticks / TURN * TURN
  }

  datatype Tick = Tick(epoch: uint64, previous: uint32)

  /** One call: the new pair, and the result. */
  function Extended(tick: Tick, current: uint32): (Tick, uint64) {
    var epoch := if current < tick.previous then ((tick.epoch as int + TURN) % TWO_TO_THE_64) as uint64 else tick.epoch;
    (Tick(epoch, current), ((epoch as int + current as int) % TWO_TO_THE_64) as uint64)
  }

  /** A sample put below an epoch is added to it. */
  lemma SampleFitsBelow(epoch: uint64, current: uint32)
    requires epoch as int % TURN == 0
    ensures Or(epoch, current as uint64) as int == epoch as int + current as int
  {
    Widths();
    OrIsPlus(epoch as int / TURN, current as int, 32);
  }

  lemma EpochWraps(epoch: uint64)
    requires epoch as int % TURN == 0
    ensures epoch > UINT64_MAX - TURN as uint64 <==> epoch as int + TURN == TWO_TO_THE_64
    ensures (epoch as int + TURN) % TURN == 0
  {}

  lemma ExtendedIs(tick: Tick, current: uint32, epoch: uint64)
    requires tick.epoch as int % TURN == 0 && epoch as int % TURN == 0
    requires epoch as int == if current >= tick.previous then tick.epoch as int
                             else if tick.epoch as int + TURN == TWO_TO_THE_64 then 0 else tick.epoch as int + TURN
    ensures epoch as int + current as int < TWO_TO_THE_64
    ensures Extended(tick, current) == (Tick(epoch, current), (epoch as int + current as int) as uint64)
  {
    EpochWraps(epoch);
  }

  /** `tick_epoch` and `last_tick`. The epoch is a multiple of 2^32, so that the `|` adds the sample to it. */
  class ExtendedTick {
    var epoch: uint64
    var previous: uint32

    ghost function Contents(): Tick
      reads this
    {
      Tick(epoch, previous)
    }

    ghost predicate Valid()
      reads this
    {
      epoch as int % TURN == 0
    }

    constructor (first: uint32)
      ensures Valid() && Contents() == Tick(0, first)
    {
      epoch, previous := 0, first;
    }

    /** `extend_tick_counter`. */
    method Extend(current: uint32) returns (result: uint64)
      requires Valid()
      modifies this
      ensures Valid() && (Contents(), result) == Extended(old(Contents()), current)
    {
      hide Extended, Or;
      EpochWraps(epoch);
      ghost var before := Contents();
      if current < previous {
        epoch := if epoch > UINT64_MAX - TURN as uint64 then 0 else epoch + TURN as uint64;
      }
      previous := current;
      ExtendedIs(before, current, epoch);
      SampleFitsBelow(epoch, current);
      result := Or(epoch, current as uint64);
    }
  }

  /** The pair after a sample of the true tick, if it has never missed a turn. */
  function Shown(ticks: nat): Tick
    requires ticks < TWO_TO_THE_64
  {
    Tick(WholeTurns(ticks) as uint64, Sample(ticks))
  }

  /** A call shows the true tick exactly when less than 2^32 ticks have passed since the last one. */
  lemma ExtensionIsTrue(before: nat, now: nat)
    requires before <= now < TWO_TO_THE_64
    ensures Extended(Shown(before), Sample(now)).1 as int == now <==> now - before < TURN
    ensures now - before < TURN ==> Extended(Shown(before), Sample(now)).0 == Shown(now)
  {
    TurnsOf(before, now);
  }

  lemma TurnsOf(before: nat, now: nat)
    requires before <= now < TWO_TO_THE_64
    ensures WholeTurns(before) <= WholeTurns(now) <= TWO_TO_THE_64 - TURN
    ensures WholeTurns(now) + Sample(now) as int == now && WholeTurns(before) + Sample(before) as int == before
    ensures var counted := WholeTurns(before) + if Sample(now) < Sample(before) then TURN else 0;
            && (now - before < TURN <==> WholeTurns(now) == counted)
            && (Sample(now) < Sample(before) ==> WholeTurns(before) + TURN <= WholeTurns(now))
  {}

  /** The calls of a run, from an initialization at the tick `first`. */
  function Run(first: nat, ticks: seq<nat>): (Tick, seq<uint64>)
    decreases |ticks|
  {
    if ticks == [] then (Tick(0, Sample(first)), []) else
      var (tick, results) := Run(first, ticks[..|ticks| - 1]);
      var (next, result) := Extended(tick, Sample(ticks[|ticks| - 1]));
      (next, results + [result])
  }

  function Gap(first: nat, ticks: seq<nat>, i: nat): int
    requires i < |ticks|
  {
    ticks[i] - if i == 0 then first else ticks[i - 1]
  }

  ghost predicate IsTimeline(first: nat, ticks: seq<nat>) {
    first < TURN && forall i | 0 <= i < |ticks| :: ticks[i] < TWO_TO_THE_64 && 0 <= Gap(first, ticks, i)
  }

  ghost predicate AreTrue(results: seq<uint64>, ticks: seq<nat>) {
    |results| == |ticks| && forall i | 0 <= i < |ticks| :: results[i] as int == ticks[i]
  }

  ghost predicate AreClose(first: nat, ticks: seq<nat>) {
    forall i | 0 <= i < |ticks| :: Gap(first, ticks, i) < TURN
  }

  lemma OneMoreGap(first: nat, ticks: seq<nat>)
    requires |ticks| > 0 && IsTimeline(first, ticks)
    ensures var n := |ticks| - 1;
            && IsTimeline(first, ticks[..n]) && 0 <= Gap(first, ticks, n) && ticks[n] < TWO_TO_THE_64
            && (AreClose(first, ticks) <==> AreClose(first, ticks[..n]) && Gap(first, ticks, n) < TURN)
  {
    var n := |ticks| - 1;
    assert forall i | 0 <= i < n :: Gap(first, ticks[..n], i) == Gap(first, ticks, i) && ticks[..n][i] == ticks[i];
    hide Gap;
  }

  lemma OneMoreResult(results: seq<uint64>, ticks: seq<nat>)
    requires |results| == |ticks| > 0
    ensures var n := |ticks| - 1;
            AreTrue(results, ticks) <==> AreTrue(results[..n], ticks[..n]) && results[n] as int == ticks[n]
  {
    var n := |ticks| - 1;
    assert AreTrue(results[..n], ticks[..n]) ==> forall i | 0 <= i < n :: results[..n][i] as int == ticks[i];
  }

  lemma FirstIsShown(first: nat)
    requires first < TURN
    ensures Tick(0, Sample(first)) == Shown(first)
  {}

  /** A whole run gives the true 64-bit ticks exactly when no two neighbouring samples are 2^32 ticks or more
      apart; what the rollover timer is there for. */
  lemma {:induction false} RunIsTrue(first: nat, ticks: seq<nat>)
    requires IsTimeline(first, ticks)
    ensures |Run(first, ticks).1| == |ticks|
    ensures AreTrue(Run(first, ticks).1, ticks) <==> AreClose(first, ticks)
    ensures AreClose(first, ticks) ==>
              var last := if ticks == [] then first else ticks[|ticks| - 1];
              last < TWO_TO_THE_64 && Run(first, ticks).0 == Shown(last)
    decreases |ticks|
  {
    if ticks == [] {
      FirstIsShown(first);
    } else {
      hide Extended, Shown, Sample, IsTimeline, AreTrue, AreClose;
      var n := |ticks| - 1;
      var (tick, results) := Run(first, ticks[..n]);
      var (next, result) := Extended(tick, Sample(ticks[n]));
      assert Run(first, ticks) == (next, results + [result]);
      RunLength(first, ticks[..n]);
      assert (results + [result])[..n] == results;
      OneMoreGap(first, ticks);
      OneMoreResult(results + [result], ticks);
      RunIsTrue(first, ticks[..n]);
      if AreClose(first, ticks[..n]) {
        ExtensionIsTrue(if n == 0 then first else ticks[n - 1], ticks[n]);
      }
    }
  }

  lemma {:induction false} RunLength(first: nat, ticks: seq<nat>)
    ensures |Run(first, ticks).1| == |ticks|
    decreases |ticks|
  {
    if ticks != [] {
      RunLength(first, ticks[..|ticks| - 1]);
    }
  }
}
