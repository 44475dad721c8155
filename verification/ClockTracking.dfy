/** How closely the disciplined clock follows GPS (master-node/src/time/clock_discipline.c). */
module ClockTracking {
  import opened CArithmetic
  import opened ClockDiscipline

  // ---------------------------------------------------------------------------
  // Tracking.
  // ---------------------------------------------------------------------------

  /** The state right after observation `o` anchored or was accepted with an error within `bound`. */
  predicate Tracks(d: Discipline, o: Observation, bound: int) {
    && d.Locked? && d.misses == []
    && d.line.uptime == o.uptime
    && d.line.utc + d.line.correction == o.utc
    && Abs(d.line.correction) <= bound
  }

  /** What is left of an error after `spread` microseconds of correction. */
  function Remaining(error: int, spread: nat): int {
    error - TruncDiv(error * spread, CORRECTION_US)
  }

  /** size - floor(size * spread/P) is ceil(size * (1 - spread/P)): it grows with `size` and
      falls with `spread`. */
  lemma RemainingSize(size: nat, spread: nat, minimum: nat, bound: nat)
    requires size <= bound && minimum <= spread <= CORRECTION_US
    ensures 0 <= size - size * spread / CORRECTION_US <= bound - bound * minimum / CORRECTION_US
    ensures size * minimum >= CORRECTION_US ==> 1 <= size * spread / CORRECTION_US
  {
    var q, gap := size * spread / CORRECTION_US, bound - size;
    MulMonotone(minimum, spread, size);
    MulMonotone(spread, CORRECTION_US, size);
    MulMonotone(minimum, CORRECTION_US, gap);
    assert bound * minimum == size * minimum + gap * minimum;
    assert bound * minimum <= size * spread + gap * CORRECTION_US;
  }

  lemma RemainingBound(error: int, spread: nat, minimum: nat, bound: nat)
    requires Abs(error) <= bound && minimum <= spread <= CORRECTION_US
    ensures Abs(Remaining(error, spread)) <= bound - bound * minimum / CORRECTION_US
    ensures Abs(Remaining(error, spread)) <= Abs(error)
    ensures 0 <= error ==> 0 <= Remaining(error, spread)
    ensures error <= 0 ==> Remaining(error, spread) <= 0
    ensures Abs(error) * minimum >= CORRECTION_US ==> Abs(Remaining(error, spread)) < Abs(error)
  {
    RemainingSize(Abs(error), spread, minimum, bound);
    assert error < 0 ==> -(error * spread) == Abs(error) * spread;
  }

  /** One tracked observation: the error it finds is what remained plus the new disagreement. */
  lemma TrackedStep(d: Discipline, o: Observation, p: Observation, period: nat, drift: nat, bound: nat)
    requires Tracks(d, o, bound) && bound <= MAX_ERROR_US
    requires 0 < period <= CORRECTION_US && period <= p.uptime - o.uptime
    requires Abs((p.utc - o.utc) - (p.uptime - o.uptime)) <= drift
    requires drift <= bound * period / CORRECTION_US
    ensures OutcomeOf(d, p) == Corrected && Tracks(Next(d, p), p, bound)
    ensures drift == 0 ==>
              var was, now := d.line.correction, Next(d, p).line.correction;
              && Abs(now) <= Abs(was)
              && (0 <= was ==> 0 <= now) && (was <= 0 ==> now <= 0)
              && (Abs(was) * period >= CORRECTION_US ==> Abs(now) < Abs(was))
  {
    var elapsed := p.uptime - o.uptime;
    var spread := Min(elapsed, CORRECTION_US);
    RemainingBound(d.line.correction, spread, period, bound);
    assert d.line.ErrorOf(p) == Remaining(d.line.correction, spread)
                                + ((p.utc - o.utc) - elapsed);
  }

  /** Observation i comes at least `period` after the one before it, and the two clocks disagree
      about the time between them by at most `drift`. */
  predicate RegularAt(os: seq<Observation>, i: nat, period: nat, drift: nat)
    requires 0 < i < |os|
  {
    && period <= os[i].uptime - os[i - 1].uptime
    && Abs((os[i].utc - os[i - 1].utc) - (os[i].uptime - os[i - 1].uptime)) <= drift
  }

  predicate Regular(os: seq<Observation>, period: nat, drift: nat) {
    forall i {:trigger RegularAt(os, i, period, drift)} :: 0 < i < |os| ==> RegularAt(os, i, period, drift)
  }

  /** Observations at least `period` apart whose disagreement with the uptime clock is at most
      `drift` each, with drift <= bound*period/32 s: from the anchor on, every observation of
      the run is accepted and finds an error within `bound`. */
  lemma {:induction false} TrackingBound(os: seq<Observation>, n: nat, period: nat, drift: nat, bound: nat)
    requires n < |os| && Regular(os, period, drift)
    requires bound <= MAX_ERROR_US && 0 < period <= CORRECTION_US
    requires drift <= bound * period / CORRECTION_US
    ensures Tracks(StateAt(os, n + 1), os[n], bound)
    ensures n == 0 ==> OutcomeAt(os, n) == Anchored
    ensures 0 < n ==> StateAt(os, n).Locked? && OutcomeAt(os, n) == Corrected
                      && Abs(StateAt(os, n).line.ErrorOf(os[n])) <= bound
  {
    if n == 0 {
    } else {
      TrackingBound(os, n - 1, period, drift, bound);
      assert RegularAt(os, n, period, drift);
      TrackedStep(StateAt(os, n), os[n - 1], os[n], period, drift, bound);
    }
  }

  /** Observation i is within `jitter` of true UTC, comes at least `period` after the one before
      it, and uptime drifts from true UTC by at most `drift` in between. */
  predicate JitteryAt(os: seq<Observation>, truth: seq<int>, i: nat, period: nat, drift: nat, jitter: nat)
    requires i < |os| == |truth|
  {
    && Abs(os[i].utc - truth[i]) <= jitter
    && (0 < i ==>
          && period <= os[i].uptime - os[i - 1].uptime
          && Abs((truth[i] - truth[i - 1]) - (os[i].uptime - os[i - 1].uptime)) <= drift)
  }

  predicate Jittery(os: seq<Observation>, truth: seq<int>, period: nat, drift: nat, jitter: nat)
    requires |os| == |truth|
  {
    forall i {:trigger JitteryAt(os, truth, i, period, drift, jitter)} :: 0 <= i < |os| ==>
      JitteryAt(os, truth, i, period, drift, jitter)
  }

  /** The bound `limit` leaves room: correcting limit - jitter over one period makes up for the
      drift and the rounding of that period, and no error can look like a bad observation. */
  predicate Absorbs(limit: nat, period: nat, drift: nat, jitter: nat) {
    && 0 < period <= CORRECTION_US
    && jitter <= limit && jitter + limit <= MAX_ERROR_US
    && (drift + 1) * CORRECTION_US <= period * (limit - jitter)
  }

  /** Each part of a mixture is within its bound, so the mixture is within the mixed bound. */
  lemma Mixture(off: int, noise: int, spread: nat, rest: nat, limit: nat, period: nat, jitter: nat)
    requires Abs(off) <= limit && Abs(noise) <= jitter <= limit && period <= spread
    ensures Abs(off * rest + noise * spread) <= limit * (rest + spread) - period * (limit - jitter)
  {
    MulBound(off, limit, rest);
    MulBound(noise, jitter, spread);
    MulMonotone(period, spread, limit - jitter);
    SplitProducts(limit, jitter, rest, spread);
  }

  lemma SplitProducts(x: int, y: int, rest: int, spread: int)
    ensures x * rest + y * spread == x * (rest + spread) - spread * (x - y)
  {
  }

  /** The deviation `off` from true UTC after `spread` microseconds of a correction that was
      aimed at a target itself `noise` off. */
  lemma DeviationShrinks(off: int, noise: int, spread: nat, limit: nat, period: nat, drift: nat, jitter: nat)
    requires Absorbs(limit, period, drift, jitter) && period <= spread <= CORRECTION_US
    requires Abs(off) <= limit && Abs(noise) <= jitter
    ensures Abs(off + TruncDiv((noise - off) * spread, CORRECTION_US)) + drift <= limit
  {
    Mixture(off, noise, spread, CORRECTION_US - spread, limit, period, jitter);
    SplitProducts(off, noise, CORRECTION_US - spread, spread);
    assert (noise - off) * spread == -(spread * (off - noise));
    Truncated(off, (noise - off) * spread, limit * CORRECTION_US - period * (limit - jitter), limit - drift);
  }

  lemma Truncated(off: int, x: int, bound: int, limit: int)
    requires Abs(off * CORRECTION_US + x) <= bound <= (limit - 1) * CORRECTION_US
    ensures Abs(off + TruncDiv(x, CORRECTION_US)) <= limit
  {
    var q := TruncDiv(x, CORRECTION_US);
    assert Abs(q * CORRECTION_US - x) < CORRECTION_US;
  }

  /** The state right after an observation, `off` from true UTC and corrected towards it. */
  predicate Follows(d: Discipline, o: Observation, truth: int, limit: nat) {
    && d.Locked? && d.line.uptime == o.uptime && d.line.utc + d.line.correction == o.utc
    && Abs(d.line.utc - truth) <= limit
  }

  /** One observation p, `elapsed` after o, with its own drift and its own share of the correction. */
  lemma JitteredStep(d: Discipline, o: Observation, p: Observation, before: int, truth: int,
                     period: nat, drift: nat, jitter: nat, limit: nat)
    requires Absorbs(limit, period, drift, jitter) && Follows(d, o, before, limit)
    requires Abs(o.utc - before) <= jitter && Abs(p.utc - truth) <= jitter
    requires period <= p.uptime - o.uptime && Abs((truth - before) - (p.uptime - o.uptime)) <= drift
    ensures OutcomeOf(d, p) == Corrected && Follows(Next(d, p), p, truth, limit)
    ensures Abs(d.Estimate(p.uptime) - truth) <= limit
  {
    var elapsed := p.uptime - o.uptime;
    var off, noise := d.line.utc - before, o.utc - before;
    DeviationShrinks(off, noise, Min(elapsed, CORRECTION_US), limit, period, drift, jitter);
    assert d.line.correction == noise - off;
  }

  /** With observations that jitter around true UTC and an uptime clock that drifts, every
      observation after the anchor is accepted, and the estimate it finds and leaves is within
      `limit` of true UTC. */
  lemma {:induction false} TrackingWithJitter(os: seq<Observation>, truth: seq<int>, n: nat,
                                              period: nat, drift: nat, jitter: nat, limit: nat)
    requires n < |os| == |truth| && Jittery(os, truth, period, drift, jitter)
    requires Absorbs(limit, period, drift, jitter)
    ensures Follows(StateAt(os, n + 1), os[n], truth[n], limit)
    ensures OutcomeAt(os, n) == if n == 0 then Anchored else Corrected
    ensures 0 < n ==> Abs(StateAt(os, n).Estimate(os[n].uptime) - truth[n]) <= limit
  {
    assert JitteryAt(os, truth, n, period, drift, jitter);
    if n > 0 {
      TrackingWithJitter(os, truth, n - 1, period, drift, jitter, limit);
      assert JitteryAt(os, truth, n - 1, period, drift, jitter);
      JitteredStep(StateAt(os, n), os[n - 1], os[n], truth[n - 1], truth[n], period, drift, jitter, limit);
    }
  }

  const MILLION := 1_000_000

  /** Observation i is within `jitter` of true UTC and comes between `shortest` and `longest` after
      the one before it, over which uptime drifts by at most `ppm` parts in a million. */
  predicate DriftingAt(os: seq<Observation>, truth: seq<int>, i: nat, ppm: nat,
                       shortest: nat, longest: nat, jitter: nat)
    requires i < |os| == |truth|
  {
    && Abs(os[i].utc - truth[i]) <= jitter
    && (0 < i ==>
          var elapsed := os[i].uptime - os[i - 1].uptime;
          && shortest <= elapsed <= longest
          && MILLION * Abs((truth[i] - truth[i - 1]) - elapsed) <= ppm * elapsed)
  }

  predicate Drifting(os: seq<Observation>, truth: seq<int>, ppm: nat, shortest: nat, longest: nat, jitter: nat)
    requires |os| == |truth|
  {
    forall i {:trigger DriftingAt(os, truth, i, ppm, shortest, longest, jitter)} :: 0 <= i < |os| ==>
      DriftingAt(os, truth, i, ppm, shortest, longest, jitter)
  }

  /** The room the bound must leave: enough correction over the shortest gap, and over the longest. */
  predicate AbsorbsRate(limit: nat, ppm: nat, shortest: nat, longest: nat, jitter: nat) {
    && 0 < shortest <= CORRECTION_US && jitter <= limit && jitter + limit <= MAX_ERROR_US
    && CORRECTION_US * (ppm * shortest + MILLION) <= MILLION * (shortest * (limit - jitter))
    && ppm * longest + MILLION <= MILLION * (limit - jitter)
  }

  /** A line through the origin that is above another at one point is above it further on. */
  lemma StillAbove(shortest: nat, elapsed: nat, slope: int, fixed: nat)
    requires 0 < shortest <= elapsed && fixed <= shortest * slope
    ensures fixed <= elapsed * slope
  {
    if slope < 0 {
      MulMonotone(slope, -1, shortest);
    } else {
      MulMonotone(shortest, elapsed, slope);
    }
  }

  lemma ShortGapAbsorbed(ppm: nat, shortest: nat, elapsed: nat, room: nat)
    requires 0 < shortest <= elapsed
    requires CORRECTION_US * (ppm * shortest + MILLION) <= MILLION * (shortest * room)
    ensures CORRECTION_US * (ppm * elapsed + MILLION) <= MILLION * (elapsed * room)
  {
    var slope := MILLION * room - CORRECTION_US * ppm;
    assert shortest * slope == MILLION * (shortest * room) - CORRECTION_US * (ppm * shortest);
    assert elapsed * slope == MILLION * (elapsed * room) - CORRECTION_US * (ppm * elapsed);
    StillAbove(shortest, elapsed, slope, CORRECTION_US * MILLION);
  }

  /** Every gap leaves the room that its own drift needs. */
  lemma GapAbsorbed(ppm: nat, shortest: nat, longest: nat, jitter: nat, limit: nat, elapsed: nat, slip: nat)
    requires AbsorbsRate(limit, ppm, shortest, longest, jitter) && shortest <= elapsed <= longest
    requires MILLION * slip <= ppm * elapsed
    ensures Absorbs(limit, Min(elapsed, CORRECTION_US), slip, jitter)
  {
    var room := limit - jitter;
    if elapsed <= CORRECTION_US {
      ShortGapAbsorbed(ppm, shortest, elapsed, room);
    } else {
      MulMonotone(elapsed, longest, ppm);
    }
  }

  /** The same when drift is a rate: lost sentences and early bursts included, each gap has the
      drift of its own length, and the estimate stays within `limit` of true UTC. */
  lemma {:induction false} TrackingAtRate(os: seq<Observation>, truth: seq<int>, n: nat, ppm: nat,
                                          shortest: nat, longest: nat, jitter: nat, limit: nat)
    requires n < |os| == |truth| && Drifting(os, truth, ppm, shortest, longest, jitter)
    requires AbsorbsRate(limit, ppm, shortest, longest, jitter)
    ensures Follows(StateAt(os, n + 1), os[n], truth[n], limit)
    ensures OutcomeAt(os, n) == if n == 0 then Anchored else Corrected
    ensures 0 < n ==> Abs(StateAt(os, n).Estimate(os[n].uptime) - truth[n]) <= limit
  {
    assert DriftingAt(os, truth, n, ppm, shortest, longest, jitter);
    if n == 0 {
    } else {
      TrackingAtRate(os, truth, n - 1, ppm, shortest, longest, jitter, limit);
      assert DriftingAt(os, truth, n - 1, ppm, shortest, longest, jitter);
      var elapsed := os[n].uptime - os[n - 1].uptime;
      var slip := Abs((truth[n] - truth[n - 1]) - elapsed);
      GapAbsorbed(ppm, shortest, longest, jitter, limit, elapsed, slip);
      JitteredStep(StateAt(os, n), os[n - 1], os[n], truth[n - 1], truth[n],
                   Min(elapsed, CORRECTION_US), slip, jitter, limit);
    }
  }

  /** The documented conditions: at 30 ppm of drift and 20 ms of jitter the estimate stays within
      21.12 ms of true UTC, whatever is lost at 5 Hz for up to 37 s, and within 20.992 ms, whatever
      is lost at 1 Hz for up to 33 s. */
  lemma DocumentedTracking(os: seq<Observation>, truth: seq<int>, n: nat)
    requires n < |os| == |truth|
    ensures Drifting(os, truth, 30, 200_000, 37_000_000, 20_000) ==>
              Follows(StateAt(os, n + 1), os[n], truth[n], 21_120)
    ensures Drifting(os, truth, 30, 1_000_000, 33_000_000, 20_000) ==>
              Follows(StateAt(os, n + 1), os[n], truth[n], 20_992)
  {
    if Drifting(os, truth, 30, 200_000, 37_000_000, 20_000) {
      TrackingAtRate(os, truth, n, 30, 200_000, 37_000_000, 20_000, 21_120);
    }
    if Drifting(os, truth, 30, 1_000_000, 33_000_000, 20_000) {
      TrackingAtRate(os, truth, n, 30, 1_000_000, 33_000_000, 20_000, 20_992);
    }
  }

  /** With GPS and uptime in step, every observation either finds the error already below
      the resolution 32 s/period or leaves it strictly smaller: it falls by at least one
      microsecond per observation until it gets there. */
  lemma {:induction false} ErrorConverges(d: Discipline, os: seq<Observation>, period: nat)
    requires os != [] && Regular(os, period, 0)
    requires Tracks(d, os[0], MAX_ERROR_US) && 0 < period <= CORRECTION_US
    ensures var final := FinalCorrection(d, os[1..]);
            && Abs(final) <= Abs(d.line.correction)
            && (0 <= d.line.correction ==> 0 <= final) && (d.line.correction <= 0 ==> final <= 0)
            && (Abs(final) * period < CORRECTION_US || Abs(final) <= Abs(d.line.correction) - (|os| - 1))
    decreases |os|
  {
    if |os| > 1 {
      assert RegularAt(os, 1, period, 0);
      TrackedStep(d, os[0], os[1], period, 0, MAX_ERROR_US);
      var next := Next(d, os[1]);
      assert os[1..][1..] == os[2..];
      forall i | 0 < i < |os[1..]| ensures RegularAt(os[1..], i, period, 0) {
        assert RegularAt(os, i + 1, period, 0);
      }
      ErrorConverges(next, os[1..], period);
      var final := FinalCorrection(next, os[2..]);
      if Abs(d.line.correction) * period < CORRECTION_US {
        MulMonotone(Abs(final), Abs(d.line.correction), period);
      }
    }
  }

  function FinalCorrection(d: Discipline, os: seq<Observation>): int
    decreases |os|
  {
    if os == [] then (if d.Locked? then d.line.correction else 0)
    else FinalCorrection(Next(d, os[0]), os[1..])
  }
}
