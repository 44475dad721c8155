/** The quadrature wheel simulator (simulators/wheel-rpm/src/main.c): edge intervals from a
    fractional accumulator, and the Gray sequence put on the two outputs. */
module WheelSimulator {
  import opened CArithmetic

  const COUNTS_PER_REVOLUTION := 128
  const MAX_ABSOLUTE_RPM := 3000
  const IDLE_INTERVAL_US := 100_000
  const QUADRATURE_STATES: seq<nat> := [0, 1, 3, 2]

  /** Microseconds from the first edge to the n-th edge after it, at a constant speed. */
  function EdgeOffset(absoluteRpm: nat, n: nat): nat
    requires 0 < absoluteRpm
  {
    n * US_PER_MINUTE / (COUNTS_PER_REVOLUTION * absoluteRpm)
  }

  /** The state the n-th edge puts on the outputs. */
  function StateAfter(startIndex: int, direction: int, n: nat): nat {
    QUADRATURE_STATES[(startIndex + n * direction) % 4]
  }

  /** In numbers: 128 edges a revolution, going round 0, 1, 3, 2. */
  lemma EdgesInNumbers(absoluteRpm: nat, startIndex: int, direction: int, n: nat)
    requires 0 < absoluteRpm
    ensures EdgeOffset(absoluteRpm, n) == n * 60_000_000 / (128 * absoluteRpm)
    ensures StateAfter(startIndex, direction, n) == [0, 1, 3, 2][(startIndex + n * direction) % 4]
  {
  }

  function Clamp(rpm: int): int {
    if rpm > MAX_ABSOLUTE_RPM then MAX_ABSOLUTE_RPM
    else if rpm < -MAX_ABSOLUTE_RPM then -MAX_ABSOLUTE_RPM
    else rpm
  }

  class Simulator {
    var rpm: int
    var absoluteRpm: nat
    var direction: int
    var stateIndex: nat
    var denominator: nat
    var accumulator: nat
    // Since the speed was last set: where the Gray index stood, how many edges there have
    // been, and the sum of the intervals handed to the timer.
    ghost var startIndex: nat
    ghost var edges: nat
    ghost var elapsed: nat

    ghost predicate Valid()
      reads this
    {
      && absoluteRpm == Abs(rpm) <= MAX_ABSOLUTE_RPM
      && direction == (if rpm < 0 then -1 else 1)
      && denominator == COUNTS_PER_REVOLUTION * absoluteRpm
      && startIndex < 4
      && (rpm == 0 ==> stateIndex == startIndex)
      && (rpm != 0 ==>
            && stateIndex == (startIndex + edges * direction) % 4
            && accumulator < denominator
            && elapsed * denominator + accumulator == edges * US_PER_MINUTE)
    }

    constructor (initialRpm: int)
      ensures Valid() && rpm == Clamp(initialRpm) && edges == 0 && elapsed == 0 && startIndex == 0
    {
      rpm := Clamp(initialRpm);
      absoluteRpm := Abs(Clamp(initialRpm));
      direction := if initialRpm < 0 then -1 else 1;
      denominator := COUNTS_PER_REVOLUTION * Abs(Clamp(initialRpm));
      accumulator, stateIndex := 0, 0;
      startIndex, edges, elapsed := 0, 0, 0;
    }

    method SetRpm(requested: int)
      requires Valid()
      modifies this
      ensures Valid() && rpm == (if requested > 3000 then 3000 else if requested < -3000 then -3000 else requested)
      ensures stateIndex == old(stateIndex) == startIndex && edges == 0 && elapsed == 0
    {
      rpm := requested;
      if rpm > MAX_ABSOLUTE_RPM { rpm := MAX_ABSOLUTE_RPM; }
      if rpm < -MAX_ABSOLUTE_RPM { rpm := -MAX_ABSOLUTE_RPM; }
      absoluteRpm := Abs(rpm);
      direction := if rpm < 0 then -1 else 1;
      denominator := absoluteRpm * COUNTS_PER_REVOLUTION;
      accumulator := 0;
      startIndex, edges, elapsed := stateIndex, 0, 0;
    }

    method NextInterval() returns (interval: nat)
      requires denominator <= COUNTS_PER_REVOLUTION * MAX_ABSOLUTE_RPM
      requires 0 < denominator ==> accumulator < denominator
      modifies this`accumulator
      ensures denominator == 0 ==> interval == 100_000 && accumulator == old(accumulator)
      ensures 0 < denominator ==>
                && 1 <= interval && accumulator < denominator
                && interval * denominator + accumulator == 60_000_000 + old(accumulator)
    {
      if denominator == 0 {
        return IDLE_INTERVAL_US;
      }
      interval := US_PER_MINUTE / denominator;
      var remainder := US_PER_MINUTE % denominator;
      accumulator := accumulator + remainder;
      if accumulator >= denominator {
        accumulator := accumulator - denominator;
        interval := interval + 1;
      }
      if interval == 0 {
        interval := 1;
      }
    }

    /** One timer alarm: the state now on the outputs, and the time to the next alarm. However
        many alarms there have been, the next one is exactly EdgeOffset after the first. */
    method EdgeAlarm() returns (state: nat, interval: nat)
      requires Valid()
      modifies this
      ensures Valid() && rpm == old(rpm) && startIndex == old(startIndex)
      ensures rpm == 0 ==> interval == 100_000 && state == [0, 1, 3, 2][startIndex]
      ensures rpm != 0 ==>
                && edges == old(edges) + 1
                && elapsed == old(elapsed) + interval == EdgeOffset(absoluteRpm, edges)
                && state == StateAfter(startIndex, direction, edges)
    {
      if absoluteRpm != 0 {
        stateIndex := (stateIndex + direction + 4) % 4;
        NextIndex(startIndex, direction, edges);
      }
      interval := NextInterval();
      state := QUADRATURE_STATES[stateIndex];
      if rpm != 0 {
        Distribute(elapsed, interval, denominator);
        edges, elapsed := edges + 1, elapsed + interval;
        AccumulatorExact(absoluteRpm, edges, elapsed, accumulator);
      }
    }
  }

  lemma Distribute(x: int, y: int, factor: int)
    ensures (x + y) * factor == x * factor + y * factor
  {
  }

  lemma NextIndex(startIndex: int, direction: int, n: nat)
    requires direction == 1 || direction == -1
    ensures ((startIndex + n * direction) % 4 + direction + 4) % 4 == (startIndex + (n + 1) * direction) % 4
  {
  }

  /** What the accumulator keeps after n edges is what division by the edge rate leaves over:
      the simulator's edges never drift from their exact times by a microsecond. */
  lemma AccumulatorExact(absoluteRpm: nat, n: nat, sum: nat, accumulator: nat)
    requires 0 < absoluteRpm
    requires sum * (COUNTS_PER_REVOLUTION * absoluteRpm) + accumulator == n * US_PER_MINUTE
    requires accumulator < COUNTS_PER_REVOLUTION * absoluteRpm
    ensures sum == EdgeOffset(absoluteRpm, n)
  {
    QuotientUnique(n * US_PER_MINUTE, COUNTS_PER_REVOLUTION * absoluteRpm, sum);
  }
}
