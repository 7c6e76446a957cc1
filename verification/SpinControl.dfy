/**
 The controller that tunes the delay between sends: every tenth of a second the number of packets
 sent is compared with the expected one and the delay is lengthened or shortened.
 */
module SpinControl {
  import opened MachineWords
  import opened ModularIndex

  const NANOSECONDS: int := 1_000_000_000
  const MIN_DELAY: int := 100
  const SHORTEST_TUNED: int := 1000

  /** Division of C: towards zero. */
  function Quotient(a: int, b: int): int
    requires b > 0
  {
    if a >= 0 then a / b else -((-a) / b)
  }

  /** The rate guard of OptionParser::Check; the rate is converted to an unsigned 64-bit number. */
  predicate RateAccepted(packetRate: int, groups: nat) {
    !(Wrap(Wrap(packetRate) * groups) > 1_000_000 || packetRate < 1)
  }

  /** For the vectors a parsed range can yield the guard means what its message says. */
  lemma RateGuard(packetRate: int, groups: nat)
    requires -0x8000_0000 <= packetRate < 0x8000_0000 && groups <= 0x1_0000_0000
    ensures RateAccepted(packetRate, groups) <==> 1 <= packetRate && packetRate * groups <= 1_000_000
  {
    if packetRate >= 1 {
      assert packetRate * groups <= 0x8000_0000 * groups;
    }
  }

  function DeltaThreshold(packetRate: nat, groups: nat): int {
    if packetRate * groups / 2000 > 1 then packetRate * groups / 2000 else 1
  }

  function InitialDelay(packetRate: nat): int
    requires packetRate > 0
  {
    NANOSECONDS / packetRate
  }

  /** The threshold is the larger of 1 and the two-thousandth of the packets expected in a second; the
      first delay spreads the packets over it; and a tenth of them is expected in each tick. */
  lemma SetPoints(packetRate: nat, groups: nat)
    requires packetRate > 0
    ensures var t, packets := DeltaThreshold(packetRate, groups), packetRate * groups;
            && t >= 1 && (packets >= 2000 ==> 2000 * t <= packets) && packets < 2000 * (t + 1)
            && (packets < 2000 ==> t == 1)
    ensures InitialDelay(packetRate) * packetRate <= NANOSECONDS < (InitialDelay(packetRate) + 1) * packetRate
    ensures 10 * ExpectedPerTick(packetRate, groups) <= packetRate * groups
    ensures packetRate * groups < 10 * (ExpectedPerTick(packetRate, groups) + 1)
  {
    var q := NANOSECONDS / packetRate;
    QuotientExact(NANOSECONDS, packetRate);
    assert (q + 1) * packetRate == q * packetRate + packetRate;
  }

  function ExpectedPerTick(packetRate: nat, groups: nat): nat {
    packetRate * groups / 10
  }

  /** One tuning step: the delay after delta packets more than expected. */
  function Tick(delay: int, delta: int, threshold: int): int
    requires threshold >= 1
  {
    if delta > threshold then
      var longer := if delay > 0 then delay + Quotient(delta, threshold) * 10 else delay;
      if longer < SHORTEST_TUNED then MIN_DELAY else longer
    else if delta < -threshold then
      var shorter := Quotient(delta, threshold) * 10 + delay;
      if shorter < SHORTEST_TUNED then MIN_DELAY else shorter
    else
      delay
  }

  predicate Tuned(delay: int) {
    delay == MIN_DELAY || delay >= SHORTEST_TUNED
  }

  lemma QuotientBeyond(delta: int, threshold: int)
    requires threshold >= 1
    ensures delta > threshold ==> 1 <= Quotient(delta, threshold) <= delta
    ensures delta < -threshold ==> Quotient(delta, threshold) <= -1
    ensures delta >= 0 ==> (Quotient(delta, threshold) >= 90 <==> delta >= 90 * threshold)
  {
    var a := if delta >= 0 then delta else -delta;
    QuotientBounds(a, threshold);
  }

  lemma QuotientBounds(a: nat, b: nat)
    requires b >= 1
    ensures a / b <= a && (a >= b ==> a / b >= 1) && (a / b >= 90 <==> a >= 90 * b)
  {
    var q, r := a / b, a % b;
    Euclid(a, b);
    if q >= 90 {
      MulMonotone(90, q, b);
    } else {
      MulMonotone(q, 89, b);
    }
    if q < 1 {
      MulMonotone(q, 0, b);
    } else {
      MulMonotone(1, b, q);
    }
  }

  lemma QuotientExact(a: nat, b: nat)
    requires b >= 1
    ensures (a / b) * b <= a < (a / b) * b + b
    ensures forall k: nat :: a / b >= k <==> a >= b * k
  {
    var q := a / b;
    Euclid(a, b);
    forall k: nat ensures q >= k <==> a >= b * k {
      if q >= k {
        MulMonotone(k, q, b);
      } else {
        MulMonotone(q + 1, k, b);
      }
    }
  }

  /** By how much a delay changes that is not at its minimum: ten for every whole threshold. A fast tick
      lengthens it by these; a slow one shortens it by these, or to the minimum exactly if that would
      take it below 1000. */
  lemma TickAmount(delay: int, delta: int, threshold: int)
    requires delay >= SHORTEST_TUNED && threshold >= 1
    ensures var next := Tick(delay, delta, threshold);
            && (delta > threshold ==>
                  (next - delay) % 10 == 0 && 10 * (delta - threshold) < (next - delay) * threshold <= 10 * delta)
            && (delta < -threshold ==>
                  (next == MIN_DELAY <==> -delta >= threshold * ((delay - SHORTEST_TUNED) / 10 + 1)))
            && (delta < -threshold && next != MIN_DELAY ==>
                  (delay - next) % 10 == 0 && 10 * (-delta - threshold) < (delay - next) * threshold <= 10 * -delta)
  {
    var a := if delta >= 0 then delta else -delta;
    var q := a / threshold;
    QuotientExact(a, threshold);
    assert (10 * q) * threshold == 10 * (q * threshold);
    if delta < -threshold {
      var k := (delay - SHORTEST_TUNED) / 10 + 1;
      assert q >= k <==> delay - 10 * q < SHORTEST_TUNED;
    }
  }

  /** The same where a fast tick takes the delay off its minimum. */
  lemma TickLeavesMinimum(delta: int, threshold: int)
    requires threshold >= 1 && delta >= 90 * threshold && delta > threshold
    ensures var next := Tick(MIN_DELAY, delta, threshold);
            next % 10 == 0 && 10 * (delta - threshold) < (next - MIN_DELAY) * threshold <= 10 * delta
  {
    var q := delta / threshold;
    QuotientExact(delta, threshold);
    assert q >= 90;
    assert (10 * q) * threshold == 10 * (q * threshold);
  }

  /** The delay keeps its form and moves the right way; at its minimum it only leaves on a tick that
      is too fast by 90 thresholds, and above it a slow tick takes at least 10 off. */
  lemma TickMoves(delay: int, delta: int, threshold: int)
    requires Tuned(delay) && threshold >= 1
    ensures Tuned(Tick(delay, delta, threshold))
    ensures delta > threshold ==> Tick(delay, delta, threshold) >= delay
    ensures delta < -threshold ==> Tick(delay, delta, threshold) <= delay
    ensures -threshold <= delta <= threshold ==> Tick(delay, delta, threshold) == delay
    ensures delay == MIN_DELAY ==>
              (Tick(delay, delta, threshold) != MIN_DELAY <==> delta > threshold && delta >= 90 * threshold)
    ensures delta < -threshold && delay >= SHORTEST_TUNED ==>
              Tick(delay, delta, threshold) == MIN_DELAY || Tick(delay, delta, threshold) <= delay - 10
    ensures delta <= 0x1_0000_0000 ==> Tick(delay, delta, threshold) <= delay + 10 * 0x1_0000_0000
  {
    QuotientBeyond(delta, threshold);
  }

  function TickAll(delay: int, deltas: seq<int>, threshold: int): int
    requires threshold >= 1
    decreases |deltas|
  {
    if deltas == [] then delay else TickAll(Tick(delay, deltas[0], threshold), deltas[1..], threshold)
  }

  lemma InitialDelayBounds(packetRate: nat)
    requires 1 <= packetRate <= 1_000_000
    ensures SHORTEST_TUNED <= InitialDelay(packetRate) <= NANOSECONDS
  {
    var q := NANOSECONDS / packetRate;
    Euclid(NANOSECONDS, packetRate);
    if q < 1000 {
      MulMonotone(q, 999, packetRate);
    }
    MulMonotone(1, packetRate, q);
  }

  /** From any rate the guard accepts, the delay is 100 or at least 1000 after every run of ticks, and
      it cannot leave the 64-bit range within 2 * 10^8 of them. */
  lemma {:induction false} EveryRun(packetRate: nat, groups: nat, deltas: seq<int>)
    requires 1 <= groups <= 0x1_0000_0000 && packetRate < 0x8000_0000 && RateAccepted(packetRate, groups)
    ensures Tuned(TickAll(InitialDelay(packetRate), deltas, DeltaThreshold(packetRate, groups)))
    ensures (forall i :: 0 <= i < |deltas| ==> deltas[i] <= 0x1_0000_0000) && |deltas| <= 200_000_000 ==>
              TickAll(InitialDelay(packetRate), deltas, DeltaThreshold(packetRate, groups)) < 0x8000_0000_0000_0000
  {
    RateGuard(packetRate, groups);
    MulMonotone(1, groups, packetRate);
    InitialDelayBounds(packetRate);
    TicksFrom(InitialDelay(packetRate), deltas, DeltaThreshold(packetRate, groups));
  }

  lemma {:induction false} TicksFrom(delay: int, deltas: seq<int>, threshold: int)
    requires Tuned(delay) && threshold >= 1
    ensures Tuned(TickAll(delay, deltas, threshold))
    ensures (forall i :: 0 <= i < |deltas| ==> deltas[i] <= 0x1_0000_0000) ==>
              TickAll(delay, deltas, threshold) <= delay + |deltas| * 42_949_672_960
    decreases |deltas|
  {
    if deltas != [] {
      TickMoves(delay, deltas[0], threshold);
      TicksFrom(Tick(delay, deltas[0], threshold), deltas[1..], threshold);
    }
  }

  /** Consecutive fast ticks lengthen a delay that is not at its minimum by at least 10 each. */
  lemma {:induction false} FastTicksLengthen(delay: int, deltas: seq<int>, threshold: int)
    requires delay >= SHORTEST_TUNED && threshold >= 1
    requires forall i :: 0 <= i < |deltas| ==> deltas[i] > threshold
    ensures TickAll(delay, deltas, threshold) >= delay + 10 * |deltas|
    decreases |deltas|
  {
    if deltas != [] {
      QuotientBeyond(deltas[0], threshold);
      FastTicksLengthen(Tick(delay, deltas[0], threshold), deltas[1..], threshold);
    }
  }

  /** Consecutive slow ticks bring the delay to its minimum within (delay - 1000) / 10 + 1 of them. */
  lemma {:induction false} SlowTicksReachMinimum(delay: int, deltas: seq<int>, threshold: int)
    requires Tuned(delay) && threshold >= 1
    requires forall i :: 0 <= i < |deltas| ==> deltas[i] < -threshold
    requires delay >= SHORTEST_TUNED ==> |deltas| >= (delay - SHORTEST_TUNED) / 10 + 1
    ensures TickAll(delay, deltas, threshold) == MIN_DELAY
    decreases |deltas|
  {
    if deltas != [] {
      TickMoves(delay, deltas[0], threshold);
      SlowTicksReachMinimum(Tick(delay, deltas[0], threshold), deltas[1..], threshold);
    }
  }

  class SpinWorker {
    const expectedPPSDiv10: int
    const deltaThreshold: int
    var spinDuration: int
    var previousTuningN: uint32

    constructor (packetRate: nat, groups: nat)
      requires 1 <= packetRate && packetRate * groups < 0x1_0000_0000
      ensures spinDuration == InitialDelay(packetRate) && previousTuningN == 0
      ensures deltaThreshold == DeltaThreshold(packetRate, groups) && expectedPPSDiv10 == ExpectedPerTick(packetRate, groups)
    {
      spinDuration := NANOSECONDS / packetRate;
      expectedPPSDiv10 := packetRate * groups / 10;
      deltaThreshold := if packetRate * groups / 2000 > 1 then packetRate * groups / 2000 else 1;
      previousTuningN := 0;
    }

    /** The tuning branch; the packet counter is loaded twice and may have moved in between. */
    method Tune(loaded: uint32, loadedAgain: uint32)
      requires deltaThreshold >= 1
      modifies this
      ensures previousTuningN == loadedAgain
      ensures spinDuration ==
              Tick(old(spinDuration), loaded - old(previousTuningN) - expectedPPSDiv10, deltaThreshold)
    {
      var packetDelta := (loaded as int - previousTuningN as int) - expectedPPSDiv10;
      previousTuningN := loadedAgain;
      if packetDelta > deltaThreshold {
        var duration := spinDuration;
        if duration > 0 {
          duration := duration + Quotient(packetDelta, deltaThreshold) * 10;
        }
        if duration < 1000 {
          spinDuration := 100;
        } else {
          spinDuration := duration;
        }
      }
      if packetDelta < -deltaThreshold {
        var shorter := Quotient(packetDelta, deltaThreshold) * 10;
        shorter := shorter + spinDuration;
        if shorter < 1000 {
          spinDuration := 100;
        } else {
          spinDuration := shorter;
        }
      }
    }
  }
}
