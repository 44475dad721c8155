/** Engine speed from spark edges (sensor-node/src/sensors/engine_rpm.c), the spark simulator
    (simulators/engine-rpm/src/main.c), and the two together. */
module EngineSpeed {
  import opened CArithmetic

  const MIN_SPARK_INTERVAL_US := 10_000
  const MAX_SPARK_INTERVAL_US := 60_000
  const STOP_TIMEOUT_US := 100_000
  const CAPTURE_QUEUE_LENGTH := 256

  datatype Capture = Capture(timestampUs: int, elapsedUs: int, valid: bool)

  datatype Event = Event(timestampUs: int, rpm: int, spark: bool)

  function EventOf(c: Capture): Event
    requires c.valid ==> 0 < c.elapsedUs
  {
    Event(c.timestampUs, if c.valid then US_PER_MINUTE / c.elapsedUs else 0, true)
  }

  /** The edge before edge `k`, or 0 when there is none since the last discard. */
  function PreviousEdge(edges: seq<int>, k: nat): int
    requires k < |edges|
  {
    if k == 0 then 0 else edges[k - 1]
  }

  /** What the interrupt records for edge `k`. */
  function CaptureOf(edges: seq<int>, k: nat): Capture
    requires k < |edges|
  {
    var previous := PreviousEdge(edges, k);
    var elapsed := edges[k] - previous;
    Capture(edges[k], elapsed, previous != 0 && MIN_SPARK_INTERVAL_US <= elapsed <= MAX_SPARK_INTERVAL_US)
  }

  lemma CapturesUnchanged(edges: seq<int>, nowUs: int)
    ensures forall i :: 0 <= i < |edges| ==> CaptureOf(edges + [nowUs], i) == CaptureOf(edges, i)
  {
  }

  class Sensor {
    var lastSparkUs: int
    var lastZeroUs: int
    var dropped: nat
    var events: seq<Capture>
    // Since the last discard: every edge, which edges the queued captures belong to, and how
    // many captures were handed out or reported as dropped.
    ghost var edges: seq<int>
    ghost var queued: seq<nat>
    ghost var taken: nat
    ghost var reported: nat

    ghost predicate Valid()
      reads this
    {
      && lastSparkUs == (if edges == [] then 0 else edges[|edges| - 1])
      && |queued| == |events| <= CAPTURE_QUEUE_LENGTH
      && (forall i :: 0 <= i < |queued| ==> queued[i] < |edges| && events[i] == CaptureOf(edges, queued[i]))
      && (forall i, j :: 0 <= i < j < |queued| ==> queued[i] < queued[j])
      && taken + |events| + dropped + reported == |edges|
    }

    constructor ()
      ensures Valid() && edges == [] && lastZeroUs == 0
    {
      lastSparkUs, lastZeroUs, dropped, events := 0, 0, 0, [];
      edges, queued, taken, reported := [], [], 0, 0;
    }

    /** One rising edge. The last-edge time advances whatever becomes of the capture. */
    method Isr(nowUs: int)
      requires Valid()
      modifies this
      ensures Valid() && edges == old(edges) + [nowUs]
      ensures var full := |old(events)| == 256;
              && dropped == old(dropped) + (if full then 1 else 0)
              && queued == old(queued) + (if full then [] else [|old(edges)|])
      ensures taken == old(taken) && reported == old(reported) && lastZeroUs == old(lastZeroUs)
    {
      var elapsedUs := nowUs - lastSparkUs;
      var valid := lastSparkUs != 0 && elapsedUs >= MIN_SPARK_INTERVAL_US && elapsedUs <= MAX_SPARK_INTERVAL_US;
      lastSparkUs := nowUs;
      ghost var k := |edges|;
      CapturesUnchanged(edges, nowUs);
      edges := edges + [nowUs];
      assert Capture(nowUs, elapsedUs, valid) == CaptureOf(edges, k);
      if |events| < CAPTURE_QUEUE_LENGTH {
        events := events + [Capture(nowUs, elapsedUs, valid)];
        queued := queued + [k];
      } else {
        dropped := dropped + 1;
      }
    }

    method DiscardPending(nowUs: int)
      modifies this
      ensures Valid() && edges == [] && events == [] && dropped == 0 && lastZeroUs == nowUs
    {
      events, lastSparkUs, lastZeroUs, dropped := [], 0, nowUs, 0;
      edges, queued, taken, reported := [], [], 0, 0;
    }

    /** The next event, if any. A spark event speaks about one edge `k` and its predecessor
        only, however many captures between them were dropped; a zero is reported only after
        100 ms without an edge and without another zero. */
    method NextEvent(nowUs: int) returns (event: Event, some: bool, ghost k: nat)
      requires Valid()
      modifies this
      ensures Valid() && edges == old(edges) && dropped == old(dropped) && reported == old(reported)
      ensures old(events) != [] ==>
                && some && k == old(queued)[0] && k < |edges| && event == EventOf(CaptureOf(edges, k))
                && queued == old(queued)[1..] && lastZeroUs == old(lastZeroUs)
      ensures old(events) != [] ==>
                && event.spark && event.timestampUs == edges[k]
                && event.rpm == if k > 0 && edges[k - 1] != 0 && 10_000 <= edges[k] - edges[k - 1] <= 60_000
                                then 60_000_000 / (edges[k] - edges[k - 1]) else 0
      ensures old(events) == [] ==>
                && queued == []
                && (some <==> && nowUs - (if edges == [] then 0 else edges[|edges| - 1]) >= 100_000
                              && nowUs - old(lastZeroUs) >= 100_000)
                && (some ==> event == Event(nowUs, 0, false) && lastZeroUs == nowUs)
                && (!some ==> lastZeroUs == old(lastZeroUs))
    {
      event, some, k := Event(0, 0, false), false, 0;
      if events == [] {
        if nowUs - lastSparkUs >= STOP_TIMEOUT_US && nowUs - lastZeroUs >= STOP_TIMEOUT_US {
          lastZeroUs := nowUs;
          event, some := Event(nowUs, 0, false), true;
        }
        return;
      }
      var capture := events[0];
      event, some, k := EventOf(capture), true, queued[0];
      events := events[1..];
      queued := queued[1..];
      taken := taken + 1;
    }

    method DroppedEvents() returns (count: nat)
      requires Valid()
      modifies this`dropped, this`reported
      ensures Valid() && count == old(dropped) && dropped == 0 && reported == old(reported) + count
    {
      count := dropped;
      dropped := 0;
      reported := reported + count;
    }
  }

  /** A nonzero speed is reported for edge `k` if and only if its predecessor is known and the
      gap between the two is within range; it is then between 1000 and 6000. */
  lemma NonzeroExactlyInRange(edges: seq<int>, k: nat)
    requires k < |edges|
    ensures var gap := edges[k] - PreviousEdge(edges, k);
            var rpm := EventOf(CaptureOf(edges, k)).rpm;
            && (rpm != 0 <==> PreviousEdge(edges, k) != 0 && 10_000 <= gap <= 60_000)
            && (rpm != 0 ==> 1000 <= rpm <= 6000 && rpm * gap <= 60_000_000 < (rpm + 1) * gap)
  {
    var gap := edges[k] - PreviousEdge(edges, k);
    if MIN_SPARK_INTERVAL_US <= gap <= MAX_SPARK_INTERVAL_US {
      var q := US_PER_MINUTE / gap;
      assert q * gap <= US_PER_MINUTE < (q + 1) * gap;
      if q < 1000 { MulMonotone(q + 1, 1000, gap); }
      if q > 6000 { MulMonotone(6001, q, gap); }
    }
  }

  /** An overspeed train never aliases into an accepted speed. */
  lemma OverspeedNeverAliases(edges: seq<int>, k: nat)
    requires k < |edges|
    requires forall i :: 0 < i < |edges| ==> edges[i] - edges[i - 1] < 10_000
    ensures EventOf(CaptureOf(edges, k)).rpm == 0
  {
    NonzeroExactlyInRange(edges, k);
  }

  // ---------------------------------------------------------------------------
  // The simulator.
  // ---------------------------------------------------------------------------

  const MAX_SIMULATED_RPM := 4000
  const PULSE_HIGH_US := 200
  const IDLE_DELAY_US := 100_000

  function PeriodUs(rpm: nat): nat {
    if rpm == 0 then 0 else US_PER_MINUTE / rpm
  }

  lemma PeriodLongerThanPulse(rpm: nat)
    requires 0 < rpm <= MAX_SIMULATED_RPM
    ensures PULSE_HIGH_US < PeriodUs(rpm)
  {
    var p := US_PER_MINUTE / rpm;
    assert US_PER_MINUTE < p * rpm + rpm;
    MulMonotone(rpm, MAX_SIMULATED_RPM, p + 1);
  }

  class Simulator {
    var rpm: nat
    var periodUs: nat
    var outputHigh: bool
    // Since the speed was last set: completed pulses and the delays handed to the timer.
    ghost var pulses: nat
    ghost var elapsed: int

    ghost predicate Valid()
      reads this
    {
      && rpm <= MAX_SIMULATED_RPM && periodUs == PeriodUs(rpm)
      && (rpm != 0 ==> elapsed == pulses * periodUs + if outputHigh then PULSE_HIGH_US else 0)
    }

    constructor (initialRpm: nat)
      requires initialRpm <= MAX_SIMULATED_RPM
      ensures Valid() && rpm == initialRpm && pulses == 0 && elapsed == 0
    {
      rpm, periodUs, outputHigh := initialRpm, PeriodUs(initialRpm), false;
      pulses, elapsed := 0, 0;
    }

    method SetRpm(requested: nat)
      requires requested <= MAX_SIMULATED_RPM
      modifies this
      ensures Valid() && rpm == requested && pulses == 0 && elapsed == 0 && !outputHigh
    {
      rpm, periodUs, outputHigh := requested, PeriodUs(requested), false;
      pulses, elapsed := 0, 0;
    }

    /** One timer alarm. The n-th rising edge is exactly n periods after the first. */
    method PulseAlarm() returns (high: bool, delayUs: int)
      requires Valid()
      modifies this
      ensures Valid() && rpm == old(rpm) && 0 < delayUs
      ensures rpm == 0 ==> !high && delayUs == 100_000
      ensures high ==> delayUs == 200
      ensures rpm != 0 ==>
                && high == outputHigh == !old(outputHigh) && elapsed == old(elapsed) + delayUs
                && (high ==> old(elapsed) == pulses * PeriodUs(rpm) && pulses == old(pulses))
                && (!high ==> pulses == old(pulses) + 1)
    {
      if rpm != 0 { PeriodLongerThanPulse(rpm); }
      if rpm == 0 || periodUs == 0 {
        outputHigh, high, delayUs := false, false, IDLE_DELAY_US;
      } else if !outputHigh {
        outputHigh, high, delayUs := true, true, PULSE_HIGH_US;
        elapsed := elapsed + delayUs;
      } else {
        outputHigh, high := false, false;
        delayUs := if periodUs > PULSE_HIGH_US then periodUs - PULSE_HIGH_US else 1;
        assert (pulses + 1) * periodUs == pulses * periodUs + periodUs;
        pulses, elapsed := pulses + 1, elapsed + delayUs;
      }
    }
  }

  /** Dividing a minute by a period that was itself a minute divided by r gives r back. */
  lemma PeriodInverts(r: nat)
    requires 1000 <= r <= 4000
    ensures 10_000 <= PeriodUs(r) <= 60_000
    ensures 60_000_000 / PeriodUs(r) == r
  {
    var p := PeriodUs(r);
    assert p * r <= US_PER_MINUTE < p * r + r;
    MulMonotone(r, MAX_SIMULATED_RPM, p + 1);
    MulMonotone(1000, r, p);
    QuotientUnique(US_PER_MINUTE, p, r);
  }

  /** A spark at the time of one of the simulator's pulses, its first since the speed was set being at t0. */
  predicate IsSimulatedSpark(edge: int, t0: int, pulse: nat, rpm: nat) {
    edge == t0 + pulse * PeriodUs(rpm)
  }

  /** The sparks since the last discard are the simulator's pulses from number `first` on. */
  predicate Sparked(edges: seq<int>, t0: int, first: nat, rpm: nat) {
    && 0 < t0 + first * PeriodUs(rpm)
    && forall i :: 0 <= i < |edges| ==> IsSimulatedSpark(edges[i], t0, first + i, rpm)
  }

  /** The wiring of the bench: an alarm that raises the output is a spark, at the time the alarm
      before it was armed for; an alarm that lowers it is none. */
  method PulseOnTheWire(simulator: Simulator, sensor: Sensor, ghost t0: int, ghost first: nat, nowUs: int)
    returns (delayUs: int)
    requires simulator.Valid() && sensor.Valid() && simulator.rpm != 0
    requires Sparked(sensor.edges, t0, first, simulator.rpm) && nowUs == t0 + simulator.elapsed
    requires first + |sensor.edges| == simulator.pulses + if simulator.outputHigh then 1 else 0
    modifies simulator, sensor
    ensures simulator.Valid() && sensor.Valid() && simulator.rpm == old(simulator.rpm)
    ensures Sparked(sensor.edges, t0, first, simulator.rpm) && nowUs + delayUs == t0 + simulator.elapsed
    ensures first + |sensor.edges| == simulator.pulses + if simulator.outputHigh then 1 else 0
    ensures simulator.outputHigh != old(simulator.outputHigh)
  {
    var high;
    high, delayUs := simulator.PulseAlarm();
    if high {
      sensor.Isr(nowUs);
    }
  }

  /** End to end: for the simulator's edges at 1000 to 4000 RPM, every spark but the first
      after a discard reports exactly the simulated speed. */
  lemma SimulatedEngineIsExact(edges: seq<int>, t0: int, first: nat, rpm: nat, k: nat)
    requires 1000 <= rpm <= 4000 && Sparked(edges, t0, first, rpm)
    requires 0 < k < |edges|
    ensures EventOf(CaptureOf(edges, k)).rpm == rpm
  {
    PeriodInverts(rpm);
    assert IsSimulatedSpark(edges[k - 1], t0, first + (k - 1), rpm);
    assert IsSimulatedSpark(edges[k], t0, first + k, rpm);
    NextPulse(edges[k - 1], edges[k], t0, first + (k - 1), rpm);
    MulMonotone(first, first + (k - 1), PeriodUs(rpm));
  }

  lemma NextPulse(edge: int, next: int, t0: int, pulse: nat, rpm: nat)
    requires IsSimulatedSpark(edge, t0, pulse, rpm) && IsSimulatedSpark(next, t0, pulse + 1, rpm)
    ensures next - edge == PeriodUs(rpm)
  {
    assert (pulse + 1) * PeriodUs(rpm) == pulse * PeriodUs(rpm) + PeriodUs(rpm);
  }
}
