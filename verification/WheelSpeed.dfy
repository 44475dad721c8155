/** The wheel simulator and the bearing encoder together: what speed the sensor reports for the
    edges the simulator produces (simulators/wheel-rpm/src/main.c driving
    sensor-node/src/sensors/bearing_encoder.c). */
module WheelSpeed {
  import opened CArithmetic
  import opened BearingEncoder
  import Wheel = WheelSimulator

  function Direction(rpm: int): int {
    if rpm < 0 then -1 else 1
  }

  function EdgeTime(t0: int, rpm: int, k: nat): int
    requires rpm != 0
  {
    t0 + Wheel.EdgeOffset(Abs(rpm), k)
  }

  function SimulatedLevel(index: nat, rpm: int, k: nat): Level {
    Wheel.StateAfter(index, Direction(rpm), k)
  }

  /** A stretch of constant speed, seen by the encoder: the simulator was set to `rpm` at Gray index
      `index` and put its first edge on the wires at `t0`; from entry `since` of the encoder's
      history on, its edges are the simulator's, entry `since` being edge `first`. An encoder
      started on a turning wheel has `first` > 0, one that saw the speed change has `since` > 0. */
  datatype Stretch = Stretch(t0: int, index: nat, rpm: int, since: nat, first: nat) {
    predicate Valid() {
      0 < Abs(rpm) <= Wheel.MAX_ABSOLUTE_RPM && 0 < EdgeTime(t0, rpm, first)
    }

    /** The simulator's edges before entry n of the history. */
    function Edges(n: nat): nat
      requires since <= n
    {
      first + (n - since)
    }

    predicate IsEdge(e: Edge, k: nat)
      requires since <= k && rpm != 0
    {
      e == Edge(EdgeTime(t0, rpm, Edges(k)), SimulatedLevel(index, rpm, Edges(k) + 1))
    }
  }

  /** Every interrupt from entry `since` on is an edge of the simulator, none being missed. */
  predicate Simulated(h: History, r: Stretch) {
    && r.Valid() && r.since <= |h.edges|
    && LevelBefore(h.first, h.edges, r.since) == SimulatedLevel(r.index, r.rpm, r.first)
    && forall k {:trigger r.IsEdge(h.edges[k], k)} :: r.since <= k < |h.edges| ==> r.IsEdge(h.edges[k], k)
  }

  /** Entry m of the reads was made while the wheel turned: after an edge, and before the next. */
  predicate Interleaved(h: History, m: nat, r: Stretch)
    requires h.Shaped() && m < |h.times| && r.rpm != 0
  {
    && r.since <= h.upTo[m] && 0 < r.Edges(h.upTo[m])
    && EdgeTime(r.t0, r.rpm, r.Edges(h.upTo[m]) - 1) <= h.times[m] <= EdgeTime(r.t0, r.rpm, r.Edges(h.upTo[m]))
  }

  /** The wiring of the bench: one alarm of the simulator is one interrupt of the encoder, at
      the time the previous alarm was armed for. */
  method EdgeOnTheWires(simulator: Wheel.Simulator, encoder: Encoder, ghost r: Stretch, nowUs: int)
    requires simulator.Valid() && encoder.Valid()
    requires Simulated(encoder.history, r) && r.rpm == simulator.rpm && r.index == simulator.startIndex
    requires simulator.edges == r.Edges(|encoder.history.edges|) && nowUs == r.t0 + simulator.elapsed
    modifies simulator, encoder
    ensures simulator.Valid() && encoder.Valid()
    ensures Simulated(encoder.history, r) && r.rpm == simulator.rpm && r.index == simulator.startIndex
    ensures simulator.edges == r.Edges(|encoder.history.edges|) == old(simulator.edges) + 1
  {
    ghost var h := encoder.history;
    assert simulator.elapsed == Wheel.EdgeOffset(simulator.absoluteRpm, simulator.edges) by {
      Wheel.AccumulatorExact(simulator.absoluteRpm, simulator.edges, simulator.elapsed, simulator.accumulator);
    }
    var level, interval := simulator.EdgeAlarm();
    encoder.Isr(level, nowUs);
    ghost var g := encoder.history;
    assert r.IsEdge(Edge(nowUs, level), |h.edges|);
    OneEdgeMore(h, r, Edge(nowUs, level));
  }

  lemma OneEdgeMore(h: History, r: Stretch, e: Edge)
    requires Simulated(h, r) && r.IsEdge(e, |h.edges|)
    ensures Simulated(h.AddEdge(e), r)
  {
    var g := h.AddEdge(e);
    forall k | r.since <= k < |g.edges| ensures r.IsEdge(g.edges[k], k) {
      if k < |h.edges| {
        assert r.IsEdge(h.edges[k], k) && g.edges[k] == h.edges[k];
      }
    }
  }

  /** The encoder last saw the state that is on the wires. */
  lemma WiresAreSeen(simulator: Wheel.Simulator, h: History, r: Stretch)
    requires simulator.Valid() && Simulated(h, r) && r.rpm == simulator.rpm && r.index == simulator.startIndex
    requires simulator.edges == r.Edges(|h.edges|)
    ensures LevelBefore(h.first, h.edges, |h.edges|) == Wheel.QUADRATURE_STATES[simulator.stateIndex]
  {
    var n := |h.edges|;
    if r.since < n {
      assert r.IsEdge(h.edges[n - 1], n - 1);
    }
  }

  /** A new speed begins a new stretch in mid-history, whatever the speed was before: its first edge
      comes when the alarm that is already armed goes off, at `t1`. */
  method SetSpeedOnTheWires(simulator: Wheel.Simulator, ghost h: History, requested: int, ghost t1: int)
    returns (ghost r: Stretch)
    requires simulator.Valid() && requested != 0 && 0 < t1
    requires LevelBefore(h.first, h.edges, |h.edges|) == Wheel.QUADRATURE_STATES[simulator.stateIndex]
    modifies simulator
    ensures simulator.Valid() && simulator.rpm == Wheel.Clamp(requested)
    ensures r == Stretch(t1, simulator.startIndex, simulator.rpm, |h.edges|, 0) && Simulated(h, r)
    ensures simulator.edges == r.Edges(|h.edges|) && t1 == r.t0 + simulator.elapsed
  {
    simulator.SetRpm(requested);
    r := Stretch(t1, simulator.startIndex, simulator.rpm, |h.edges|, 0);
    assert EdgeTime(t1, simulator.rpm, 0) == t1;
  }

  /** A session starts the encoder while the wheel turns: the stretch goes on, with a history that
      begins at the edge the wheel has come to. */
  lemma StartOnTurningWheel(h: History, r: Stretch, nowUs: int)
    requires Simulated(h, r)
    ensures Simulated(Started(LevelBefore(h.first, h.edges, |h.edges|), nowUs),
                      Stretch(r.t0, r.index, r.rpm, 0, r.Edges(|h.edges|)))
  {
    var n := |h.edges|;
    if r.since < n {
      assert r.IsEdge(h.edges[n - 1], n - 1);
    }
    EdgesGoForward(Abs(r.rpm), r.first, r.Edges(n));
  }

  lemma EdgesGoForward(absoluteRpm: nat, m: nat, n: nat)
    requires 0 < absoluteRpm && m <= n
    ensures Wheel.EdgeOffset(absoluteRpm, m) <= Wheel.EdgeOffset(absoluteRpm, n)
  {
    SpanOfEdges(absoluteRpm, m, n - m);
    var rate := Wheel.COUNTS_PER_REVOLUTION * absoluteRpm;
    var span := Wheel.EdgeOffset(absoluteRpm, n) - Wheel.EdgeOffset(absoluteRpm, m);
    if span < 0 {
      MulMonotone(span, -1, rate);
    }
  }

  /** The simulator's Gray order is the one the decoder counts down. */
  lemma EdgeCountsBackward(index: nat, rpm: int, k: nat)
    ensures Transition(SimulatedLevel(index, rpm, k), SimulatedLevel(index, rpm, k + 1)) == -Direction(rpm)
  {
    var i := (index + k * Direction(rpm)) % 4;
    assert (index + (k + 1) * Direction(rpm)) % 4 == (i + Direction(rpm)) % 4;
  }

  lemma TimesGap(factor: int, x: int, y: int)
    ensures factor * (x - y) == factor * x - factor * y
  {
  }

  lemma SimulatedTransition(h: History, r: Stretch, k: nat)
    requires Simulated(h, r) && r.since <= k < |h.edges|
    ensures TransitionAt(h.first, h.edges, k) == -Direction(r.rpm)
    ensures h.edges[k].time == EdgeTime(r.t0, r.rpm, r.Edges(k))
  {
    EdgeCountsBackward(r.index, r.rpm, r.Edges(k));
    assert r.IsEdge(h.edges[k], k);
    assert r.since < k ==> r.IsEdge(h.edges[k - 1], k - 1);
    assert h.edges[k].level == SimulatedLevel(r.index, r.rpm, r.Edges(k) + 1);
    assert LevelBefore(h.first, h.edges, k) == SimulatedLevel(r.index, r.rpm, r.Edges(k));
  }

  lemma OneMoreDecoded(h: History, r: Stretch, n: nat)
    requires Simulated(h, r) && r.since < n <= |h.edges|
    ensures Decoded(h.first, h.edges, n) == Decoded(h.first, h.edges, n - 1) - Direction(r.rpm)
    ensures LastCounted(h.first, h.edges, n) == EdgeTime(r.t0, r.rpm, r.Edges(n) - 1)
  {
    SimulatedTransition(h, r, n - 1);
  }

  lemma {:induction false} SimulatedDecoding(h: History, r: Stretch, n: nat)
    requires Simulated(h, r) && r.since <= n <= |h.edges|
    ensures Decoded(h.first, h.edges, n) - Decoded(h.first, h.edges, r.since) == -(Direction(r.rpm) * (n - r.since))
  {
    if n == r.since {
    } else {
      SimulatedDecoding(h, r, n - 1);
      OneMoreDecoded(h, r, n);
      TimesGap(Direction(r.rpm), n - r.since, 1);
    }
  }

  /** n edges take n minutes' worth of counts, to within one edge rate: the floors do not add up. */
  lemma SpanOfEdges(absoluteRpm: nat, i: nat, n: nat)
    requires 0 < absoluteRpm
    ensures var rate := Wheel.COUNTS_PER_REVOLUTION * absoluteRpm;
            var span := Wheel.EdgeOffset(absoluteRpm, i + n) - Wheel.EdgeOffset(absoluteRpm, i);
            Abs(span * rate - n * US_PER_MINUTE) < rate
  {
    var rate := Wheel.COUNTS_PER_REVOLUTION * absoluteRpm;
    var a, b := Wheel.EdgeOffset(absoluteRpm, i), Wheel.EdgeOffset(absoluteRpm, i + n);
    var x, y := i * US_PER_MINUTE, (i + n) * US_PER_MINUTE;
    assert a == x / rate && b == y / rate;
    assert a * rate <= x < a * rate + rate && b * rate <= y < b * rate + rate;
    assert (b - a) * rate == b * rate - a * rate;
  }

  /** A rounded quotient close to an integer is that integer. */
  lemma RoundsTo(numerator: int, denominator: int, q: int)
    requires 0 < denominator && 0 < numerator && 2 * Abs(numerator - q * denominator) < denominator
    ensures Rounded(numerator, denominator) == q
  {
    QuotientUnique(numerator + denominator / 2, denominator, q);
  }

  /** From edge to edge over at least two microseconds per RPM, the speed is exact. */
  lemma ExactBetweenEdges(rpm: int, i: nat, n: nat)
    requires 0 < Abs(rpm) <= Wheel.MAX_ABSOLUTE_RPM
    requires 2 * Abs(rpm) <= Wheel.EdgeOffset(Abs(rpm), i + n) - Wheel.EdgeOffset(Abs(rpm), i)
    ensures var span := Wheel.EdgeOffset(Abs(rpm), i + n) - Wheel.EdgeOffset(Abs(rpm), i);
            CalculateRpm(-(Direction(rpm) * n), span) == -rpm
  {
    var r := Abs(rpm);
    var span := Wheel.EdgeOffset(r, i + n) - Wheel.EdgeOffset(r, i);
    SpanOfEdges(r, i, n);
    assert span * (128 * r) == r * (128 * span);
    MulMonotone(2 * r, span, 128);
    assert 0 < n * US_PER_MINUTE by { MulMonotone(2, span, 128 * r); }
    RoundsTo(n * US_PER_MINUTE, 128 * span, r);
    assert CalculateRpm(n, span) == r;
    RpmIsOdd(n, span);
  }

  /** Whatever the alignment, n edges seen in a window of `span` were produced at a speed near
      the one reported: the error is at most one edge's worth, plus one. */
  lemma NearInAnyWindow(rpm: int, n: nat, span: nat)
    requires 0 < Abs(rpm) <= Wheel.MAX_ABSOLUTE_RPM && 2 * Abs(rpm) <= span
    requires Abs(n * US_PER_MINUTE - span * (128 * Abs(rpm))) < US_PER_MINUTE + 128 * Abs(rpm)
    ensures (Abs(CalculateRpm(-(Direction(rpm) * n), span) + rpm) - 1) * (128 * span) <= US_PER_MINUTE
  {
    var r, den := Abs(rpm), 128 * span;
    assert span * (128 * r) == r * den;
    MulMonotone(2 * r, span, 64);
    if n == 0 {
      assert (r - 1) * den == r * den - den;
    } else {
      var q := Rounded(n * US_PER_MINUTE, den);
      RoundedIsNearest(n * US_PER_MINUTE, den);
      WithinOne(n * US_PER_MINUTE, den, q, r, US_PER_MINUTE + 128 * r);
      NotClamped(q, r, den);
      assert CalculateRpm(n, span) == q;
      RpmIsOdd(n, span);
    }
  }

  lemma WithinOne(numerator: int, den: int, q: int, r: int, slack: int)
    requires 0 < den && 2 * Abs(numerator - q * den) <= den
    requires Abs(numerator - r * den) < slack && slack <= US_PER_MINUTE + den / 2
    ensures (Abs(q - r) - 1) * den <= US_PER_MINUTE
  {
    GapTimes(q, r, den);
    AbsoluteTimes(q - r, den);
    GapTimes(Abs(q - r), 1, den);
  }

  lemma GapTimes(x: int, y: int, factor: int)
    ensures (x - y) * factor == x * factor - y * factor
  {
  }

  lemma AbsoluteTimes(x: int, factor: nat)
    ensures Abs(x * factor) == Abs(x) * factor
  {
    if x < 0 {
      assert (-x) * factor == -(x * factor);
    }
    MulMonotone(0, Abs(x), factor);
  }

  lemma NotClamped(q: int, r: nat, den: int)
    requires r <= Wheel.MAX_ABSOLUTE_RPM && 128 <= den && (Abs(q - r) - 1) * den <= US_PER_MINUTE
    ensures Abs(q) < INT32_MAX
  {
    if Abs(q - r) > US_PER_MINUTE {
      MulMonotone(US_PER_MINUTE, Abs(q - r) - 1, den);
      MulMonotone(128, den, US_PER_MINUTE);
    }
  }

  /** A window that opens between edges i-1 and i and closes between edges i+n-1 and i+n. */
  lemma WindowCount(r: nat, i: nat, n: nat, span: int)
    requires 0 < r && 0 < i
    requires Wheel.EdgeOffset(r, i + n - 1) - Wheel.EdgeOffset(r, i) <= span
    requires span <= Wheel.EdgeOffset(r, i + n) - Wheel.EdgeOffset(r, i - 1)
    ensures Abs(n * US_PER_MINUTE - span * (128 * r)) < US_PER_MINUTE + 128 * r
  {
    SpanOfEdges(r, i - 1, n + 1);
    var inner := Wheel.EdgeOffset(r, i + n - 1) - Wheel.EdgeOffset(r, i);
    if n > 0 {
      SpanOfEdges(r, i, n - 1);
    } else {
      SpanOfEdges(r, i - 1, 1);
      assert inner * (128 * r) == -((-inner) * (128 * r));
    }
    Squeeze(inner, Wheel.EdgeOffset(r, i + n) - Wheel.EdgeOffset(r, i - 1), span, 128 * r, n);
  }

  lemma Squeeze(inner: int, outer: int, span: int, rate: nat, n: nat)
    requires inner <= span <= outer
    requires Abs(inner * rate - (n - 1) * US_PER_MINUTE) < rate
    requires Abs(outer * rate - (n + 1) * US_PER_MINUTE) < rate
    ensures Abs(n * US_PER_MINUTE - span * rate) < US_PER_MINUTE + rate
  {
    MulMonotone(inner, span, rate);
    MulMonotone(span, outer, rate);
  }

  lemma OneEdge(r: nat, k: nat)
    requires 5 <= r
    ensures Wheel.EdgeOffset(r, k + 1) - Wheel.EdgeOffset(r, k) < STOP_TIMEOUT_US
  {
    SpanOfEdges(r, k, 1);
    var gap := Wheel.EdgeOffset(r, k + 1) - Wheel.EdgeOffset(r, k);
    if STOP_TIMEOUT_US <= gap {
      MulMonotone(STOP_TIMEOUT_US, gap, 128 * r);
      MulMonotone(128 * 5, 128 * r, STOP_TIMEOUT_US - 1);
    }
  }

  /** A read taken while the simulator runs at 5 RPM or more takes the wheel for stopped if it has
      not had an edge since the encoder was started, and never once it has had one at this speed. */
  lemma NeverTakenForStopped(h: History, r: Stretch)
    requires h.Valid() && Simulated(h, r) && 5 <= Abs(r.rpm)
    requires h.upTo[h.Reads()] == |h.edges| && Interleaved(h, h.Reads(), r)
    ensures r.since < |h.edges| ==> !IsStopped(h.LastEdge(), h.times[h.Reads()])
    ensures h.edges == [] ==> IsStopped(h.LastEdge(), h.times[h.Reads()])
  {
    if r.since < |h.edges| {
      OneMoreDecoded(h, r, |h.edges|);
      OneEdge(Abs(r.rpm), r.Edges(|h.edges|) - 1);
      EdgesGoForward(Abs(r.rpm), r.first, r.Edges(|h.edges|) - 1);
    }
  }

  lemma SimulatedCount(h: History, r: Stretch, i: nat, j: nat)
    requires Simulated(h, r) && r.since <= i <= j <= |h.edges|
    ensures Decoded(h.first, h.edges, j) - Decoded(h.first, h.edges, i) == -(Direction(r.rpm) * (j - i))
  {
    SimulatedDecoding(h, r, i);
    SimulatedDecoding(h, r, j);
    TimesGap(Direction(r.rpm), j - r.since, i - r.since);
  }

  lemma WindowOpensBefore(h: History, r: Stretch)
    requires h.Shaped() && r.Valid()
    requires Interleaved(h, h.WindowStart(), r) && Interleaved(h, h.Reads(), r)
    requires h.times[h.WindowStart()] < h.times[h.Reads()]
    ensures h.upTo[h.WindowStart()] <= h.upTo[h.Reads()]
  {
    var i, j := h.upTo[h.WindowStart()], h.upTo[h.Reads()];
    if j < i {
      EdgesGoForward(Abs(r.rpm), r.Edges(j), r.Edges(i) - 1);
    }
  }

  lemma ReadingIsSpeedOfWindow(h: History, r: Stretch, i: nat, j: nat)
    requires h.Valid() && Simulated(h, r) && !IsStopped(h.LastEdge(), h.times[h.Reads()])
    requires i == h.upTo[h.WindowStart()] && j == h.upTo[h.Reads()] && r.since <= i <= j
    ensures Reading(h) == CalculateRpm(-(Direction(r.rpm) * (j - i)), h.times[h.Reads()] - h.times[h.WindowStart()])
  {
    SimulatedCount(h, r, i, j);
  }

  /** End to end: while the simulator runs at a constant speed, from the first read after a start
      on, a read that does not find the wheel stopped and whose window is at least 2*|rpm|
      microseconds long reports -rpm to within one edge's worth plus one, and exactly -rpm when
      the window runs from edge to edge. */
  lemma ReadingOfSimulatedWheel(h: History, r: Stretch, window: nat)
    requires h.Valid() && Simulated(h, r)
    requires Interleaved(h, h.WindowStart(), r) && Interleaved(h, h.Reads(), r)
    requires 2 * Abs(r.rpm) <= window == h.times[h.Reads()] - h.times[h.WindowStart()]
    requires !IsStopped(h.LastEdge(), h.times[h.Reads()])
    ensures (Abs(Reading(h) + r.rpm) - 1) * (128 * window) <= US_PER_MINUTE
    ensures var i, j := r.Edges(h.upTo[h.WindowStart()]), r.Edges(h.upTo[h.Reads()]);
            window == EdgeTime(r.t0, r.rpm, j - 1) - EdgeTime(r.t0, r.rpm, i - 1) ==> Reading(h) == -r.rpm
  {
    var i, j := h.upTo[h.WindowStart()], h.upTo[h.Reads()];
    WindowOpensBefore(h, r);
    ReadingIsSpeedOfWindow(h, r, i, j);
    SpeedOfWindow(r.rpm, r.t0, r.Edges(i), j - i, h.times[h.WindowStart()], h.times[h.Reads()]);
  }

  lemma SpeedOfWindow(rpm: int, t0: int, i: nat, n: nat, opens: int, closes: int)
    requires 0 < Abs(rpm) <= Wheel.MAX_ABSOLUTE_RPM && 0 < i && 2 * Abs(rpm) <= closes - opens
    requires EdgeTime(t0, rpm, i - 1) <= opens <= EdgeTime(t0, rpm, i)
    requires EdgeTime(t0, rpm, i + n - 1) <= closes <= EdgeTime(t0, rpm, i + n)
    ensures var speed := CalculateRpm(-(Direction(rpm) * n), closes - opens);
            && (Abs(speed + rpm) - 1) * (128 * (closes - opens)) <= US_PER_MINUTE
            && (closes - opens == EdgeTime(t0, rpm, i + n - 1) - EdgeTime(t0, rpm, i - 1) ==> speed == -rpm)
  {
    WindowCount(Abs(rpm), i, n, closes - opens);
    NearInAnyWindow(rpm, n, closes - opens);
    if closes - opens == EdgeTime(t0, rpm, i + n - 1) - EdgeTime(t0, rpm, i - 1) {
      ExactBetweenEdges(rpm, i - 1, n);
    }
  }
}
