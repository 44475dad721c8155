/** Runs of the disciplined clock (master-node/src/time/clock_discipline.c): how fast it goes, and
    when it can go back. Observations are dated before they arrive, and tasks read in between. */
module ClockRuns {
  import opened CArithmetic
  import opened ClockDiscipline

  // ---------------------------------------------------------------------------
  // Rate of the line, and monotonicity over runs.
  // ---------------------------------------------------------------------------

  lemma QuotientsClose(x: int, y: int, n: nat)
    requires Abs(y - x) <= MAX_ERROR_US * n
    ensures Abs(TruncDiv(y, CORRECTION_US) - TruncDiv(x, CORRECTION_US)) <= (n + 159) / 160
  {
  }

  /** Within one line, elapsed UTC differs from elapsed uptime by at most 1/160, rounded up. */
  lemma RateWithinLine(l: Line, from: int, to: int)
    requires Abs(l.correction) <= MAX_ERROR_US && from <= to
    ensures Abs(l.At(to) - l.At(from) - (to - from)) <= (to - from + 159) / 160
  {
    var a, b := Min(from - l.uptime, CORRECTION_US), Min(to - l.uptime, CORRECTION_US);
    MulDifference(l.correction, a, b, MAX_ERROR_US);
    QuotientsClose(l.correction * a, l.correction * b, b - a);
  }

  lemma LineNeverDecreases(l: Line, from: int, to: int)
    requires Abs(l.correction) <= MAX_ERROR_US && from <= to
    ensures l.At(from) <= l.At(to)
  {
    RateWithinLine(l, from, to);
  }

  /** A task reads the clock, or an observation reaches it, having been dated earlier. */
  datatype Event = Read(now: int) | Observe(observation: Observation, arrivedAt: int) {
    function Time(): int {
      if Read? then now else arrivedAt
    }

    /** How long before its arrival an observation is dated. */
    function Age(): int
      requires Observe?
    {
      arrivedAt - observation.uptime
    }

    /** An observation is not dated after its arrival, and GPS time is after 1970. */
    predicate Plausible() {
      Observe? ==> 0 <= Age() && 0 < observation.utc
    }
  }

  function After(d: Discipline, e: Event): Discipline {
    if e.Read? then d else Next(d, e.observation)
  }

  function AfterAll(d: Discipline, es: seq<Event>): Discipline
    decreases |es|
  {
    if es == [] then d else AfterAll(After(d, es[0]), es[1..])
  }

  /** Events in the order in which they reach the clock. */
  predicate InOrder(es: seq<Event>, start: int) {
    && (forall i :: 0 <= i < |es| ==> start <= es[i].Time())
    && (forall i, j :: 0 <= i < j < |es| ==> es[i].Time() <= es[j].Time())
    && (forall i :: 0 <= i < |es| ==> es[i].Plausible())
  }

  lemma InOrderTail(es: seq<Event>, start: int)
    requires InOrder(es, start) && es != []
    ensures start <= es[0].Time() && InOrder(es[1..], es[0].Time()) && es[0].Plausible()
  {
  }

  const FIRST_UTC_MS := 1_577_836_800_000
  const LAST_UTC_MS := 4_102_444_800_000
  const DATES_APART_US := 50_000

  /** An observation as the receiver can make it: a whole millisecond of 2020 to 2099, dated
      after power-on. */
  predicate ReceivableAt(e: Event) {
    e.Observe? ==>
      && 0 < e.observation.uptime && e.observation.utc % 1000 == 0
      && FIRST_UTC_MS * 1000 <= e.observation.utc < LAST_UTC_MS * 1000
  }

  /** A run as the receiver can feed it: besides, no two observations share a burst. */
  predicate Receivable(es: seq<Event>) {
    && (forall i :: 0 <= i < |es| ==> ReceivableAt(es[i]))
    && (forall i, j :: 0 <= i < j < |es| && es[i].Observe? && es[j].Observe? ==>
          es[i].observation.uptime + DATES_APART_US <= es[j].observation.uptime)
  }

  /** What a task would read just before and just after every event. */
  function Seen(d: Discipline, es: seq<Event>): seq<int>
    decreases |es|
  {
    if es == [] then []
    else [d.Estimate(es[0].Time()), After(d, es[0]).Estimate(es[0].Time())] + Seen(After(d, es[0]), es[1..])
  }

  predicate NonDecreasing(s: seq<int>) {
    |s| < 2 || (s[0] <= s[1] && NonDecreasing(s[1..]))
  }

  /** The event puts the estimate back, at the moment it arrives. */
  predicate Lowers(d: Discipline, e: Event) {
    After(d, e).Estimate(e.Time()) < d.Estimate(e.Time())
  }

  predicate EverLowers(d: Discipline, es: seq<Event>)
    decreases |es|
  {
    es != [] && (Lowers(d, es[0]) || EverLowers(After(d, es[0]), es[1..]))
  }

  /** What was corrected of an error since the observation that found it. */
  function CorrectedSince(error: int, age: int): int {
    TruncDiv(error * Min(age, CORRECTION_US), CORRECTION_US)
  }

  /** Which observations put the estimate back: one that steps to a line which, at its arrival,
      is behind; and one that is accepted when less of its error has been corrected since its
      date than the old line ran ahead of uptime in that time. */
  lemma LowersExactly(d: Discipline, e: Event)
    requires e.Plausible()
    ensures Lowers(d, e) <==>
              && e.Observe? && d.Locked?
              && var o, age := e.observation, e.Age();
                 match OutcomeOf(d, o)
                 case Stepped => o.utc + age < d.line.At(e.arrivedAt)
                 case Corrected =>
                   CorrectedSince(d.line.ErrorOf(o), age) < d.line.At(e.arrivedAt) - d.line.At(o.uptime) - age
                 case _ => false
    ensures Lowers(d, e) && OutcomeOf(d, e.observation) == Corrected ==> 0 < e.Age()
  {
    if e.Observe? && d.Locked? && OutcomeOf(d, e.observation) == Stepped {
      assert Next(d, e.observation).line.correction * Min(e.Age(), CORRECTION_US) == 0;
    }
  }

  /** The estimate is continuous at the date of an observation, except at a first fix or a step. */
  lemma ContinuousUnlessStepped(d: Discipline, o: Observation)
    requires d.Locked?
    ensures OutcomeOf(d, o) != Stepped ==> Next(d, o).Estimate(o.uptime) == d.Estimate(o.uptime)
    ensures OutcomeOf(d, o) == Stepped ==> Next(d, o).Estimate(o.uptime) == o.utc
    ensures OutcomeOf(d, o) == Corrected ==> Abs(Next(d, o).line.correction) <= MAX_ERROR_US
  {
  }

  /** Up to an event, the estimate moves forward. */
  lemma ForwardUntil(d: Discipline, e: Event, start: int)
    requires d.Ready() && start <= e.Time()
    ensures After(d, e).Ready()
    ensures d.Estimate(start) <= d.Estimate(e.Time())
  {
    if d.Locked? {
      LineNeverDecreases(d.line, start, e.Time());
    }
  }

  /** Over every run, what tasks can read never decreases if and only if no event puts the
      estimate back at its arrival; LowersExactly says which do. */
  lemma {:induction false} BackwardsExactlyWhenLowered(d: Discipline, es: seq<Event>, start: int)
    requires d.Ready() && InOrder(es, start)
    ensures NonDecreasing([d.Estimate(start)] + Seen(d, es)) <==> !EverLowers(d, es)
    decreases |es|
  {
    if es == [] {
    } else {
      var e, rest, next := es[0], es[1..], After(d, es[0]);
      var now := e.Time();
      var first, before, after := d.Estimate(start), d.Estimate(now), next.Estimate(now);
      InOrderTail(es, start);
      ForwardUntil(d, e, start);
      BackwardsExactlyWhenLowered(next, rest, now);
      var tail := [after] + Seen(next, rest);
      assert [first] + Seen(d, es) == [first, before] + tail;
      PrependTwo(first, before, tail);
    }
  }

  lemma {:induction false} PrependTwo(first: int, before: int, tail: seq<int>)
    requires tail != []
    ensures NonDecreasing([first, before] + tail) <==>
            first <= before && before <= tail[0] && NonDecreasing(tail)
  {
    assert ([first, before] + tail)[1..] == [before] + tail;
    assert ([before] + tail)[1..] == tail;
  }

  lemma LowersLater(d: Discipline, e: Event, rest: seq<Event>)
    requires EverLowers(After(d, e), rest)
    ensures EverLowers(d, [e] + rest)
  {
    assert ([e] + rest)[1..] == rest;
  }

  /** Midnight of 2024-01-01. */
  const NEW_YEAR_US := 1_704_067_200_000_000

  /** An observation of `utc`, a number of microseconds into 2024, that arrives 80 ms after its date. */
  function Observed(uptime: int, utc: int): Event {
    Observe(Observation(uptime, NEW_YEAR_US + utc), uptime + 80_000)
  }

  const ANCHORED := Line(1_000_000, NEW_YEAR_US, 0)

  /** Steady observations, one second behind the line. */
  function Behind(i: nat): Event {
    Observed(2_000_000 + 1_000_000 * i, 1_000_000 * i)
  }

  function BehindUpTo(k: nat): (os: seq<Observation>)
    ensures |os| == k && (0 < k ==> os[0] == Behind(0).observation)
  {
    if k == 0 then [] else BehindUpTo(k - 1) + [Behind(k - 1).observation]
  }

  lemma BehindOutcome(k: nat)
    requires k <= 5
    ensures var d, o := Locked(ANCHORED, BehindUpTo(k)), Behind(k).observation;
            if k == 5 then OutcomeOf(d, o) == Stepped
            else OutcomeOf(d, o) == Rejected && Next(d, o) == Locked(ANCHORED, BehindUpTo(k + 1))
  {
    assert ANCHORED.ErrorOf(Behind(k).observation) == -1_000_000;
    assert BehindUpTo(k + 1) == BehindUpTo(k) + [Behind(k).observation];
  }

  lemma {:induction false} FallsBehind(k: nat) returns (es: seq<Event>)
    requires k <= 5
    ensures |es| == 6 - k && EverLowers(Locked(ANCHORED, BehindUpTo(k)), es)
    ensures forall i :: 0 <= i < |es| ==> es[i] == Behind(k + i)
    decreases 6 - k
  {
    var d, e := Locked(ANCHORED, BehindUpTo(k)), Behind(k);
    BehindOutcome(k);
    if k == 5 {
      LowersExactly(d, e);
      es := [e];
    } else {
      var rest := FallsBehind(k + 1);
      LowersLater(d, e, rest);
      es := [e] + rest;
    }
  }

  /** One observation a second: the anchor, and those behind it. */
  function Falling(i: nat): Event {
    if i == 0 then Observed(1_000_000, 0) else Behind(i - 1)
  }

  lemma FallingIsReceivable(es: seq<Event>)
    requires |es| <= 7 && forall i :: 0 <= i < |es| ==> es[i] == Falling(i)
    ensures Receivable(es) && InOrder(es, 0)
  {
  }

  /** From power-on: an anchor, then six steady observations one second behind. The last steps the
      clock back. */
  lemma ClockCanRunBackwards() returns (es: seq<Event>)
    ensures Receivable(es) && InOrder(es, 0) && EverLowers(Unsynchronized, es)
  {
    var rest := FallsBehind(0);
    LowersLater(Unsynchronized, Falling(0), rest);
    es := [Falling(0)] + rest;
    FallingIsReceivable(es);
  }

  // ---------------------------------------------------------------------------
  // Runs without a step.
  // ---------------------------------------------------------------------------

  predicate NoStep(d: Discipline, es: seq<Event>)
    decreases |es|
  {
    es == [] ||
    (!(es[0].Observe? && OutcomeOf(d, es[0].observation) == Stepped) && NoStep(After(d, es[0]), es[1..]))
  }

  /** How many times the line is restarted by an accepted observation. */
  function Restarts(d: Discipline, es: seq<Event>): nat
    decreases |es|
  {
    if es == [] then 0
    else (if Accepted(d, es[0]) then 1 else 0) + Restarts(After(d, es[0]), es[1..])
  }

  predicate Accepted(d: Discipline, e: Event) {
    e.Observe? && OutcomeOf(d, e.observation) == Corrected
  }

  /** By how much an accepted observation of this age can move the estimate at its arrival. */
  function Slack(age: int): int {
    age / 160 + (age + 159) / 160
  }

  function TotalSlack(d: Discipline, es: seq<Event>): int
    decreases |es|
  {
    if es == [] then 0
    else (if Accepted(d, es[0]) then Slack(es[0].Age()) else 0) + TotalSlack(After(d, es[0]), es[1..])
  }

  /** An accepted observation dated `age` before the latest read makes a later read fall below
      that read by at most the slack of that age. */
  lemma BackDatedObservation(l: Line, o: Observation, lastRead: int, later: int)
    requires Abs(l.correction) <= MAX_ERROR_US
    requires !l.Misses(o) && o.uptime <= lastRead <= later
    ensures Next(Locked(l, []), o).Estimate(later) >= l.At(lastRead) - Slack(lastRead - o.uptime)
  {
    AcceptedMoves(l, o, lastRead);
    LineNeverDecreases(Next(Locked(l, []), o).line, lastRead, later);
  }

  /** Old and new line, compared at any moment after the date of the observation between them. */
  lemma AcceptedMoves(l: Line, o: Observation, now: int)
    requires Abs(l.correction) <= MAX_ERROR_US && !l.Misses(o) && o.uptime <= now
    ensures var next := Line(o.uptime, l.At(o.uptime), l.ErrorOf(o));
            Abs(next.At(now) - l.At(now)) <= Slack(now - o.uptime)
  {
    RateWithinLine(l, o.uptime, now);
    MulBound(l.ErrorOf(o), MAX_ERROR_US, Min(now - o.uptime, CORRECTION_US));
  }

  /** Between two readings with no step between them, the later is below the earlier by at most
      the slack of the observations accepted between them; before the first fix both are 0. */
  lemma {:induction false} LaterReadingBound(d: Discipline, es: seq<Event>, start: int, end: int)
    requires d.Ready() && InOrder(es, start) && start <= end && NoStep(d, es)
    requires forall i :: 0 <= i < |es| ==> es[i].Time() <= end
    ensures AfterAll(d, es).Ready() && 0 <= TotalSlack(d, es)
    ensures d.Estimate(start) - TotalSlack(d, es) <= AfterAll(d, es).Estimate(end)
    decreases |es|
  {
    if es == [] {
      if d.Locked? { LineNeverDecreases(d.line, start, end); }
    } else {
      var e, next := es[0], After(d, es[0]);
      InOrderTail(es, start);
      ForwardUntil(d, e, start);
      if Accepted(d, e) {
        AcceptedMoves(d.line, e.observation, e.Time());
      } else {
        LowersExactly(d, e);
      }
      LaterReadingBound(next, es[1..], e.Time(), end);
    }
  }

  /** Three observations of a receiver: an anchor, one 200 ms ahead, and one that finds the line
      200 ms too far ahead; a task polls the clock as the last arrives, before and after it. */
  const AHEAD := Observed(1_200_000, 400_000)
  const LATE := Observed(1_360_000, 161_000)
  const POLL := Read(1_440_000)
  const LATE_RUN := [Observed(1_000_000, 0), AHEAD, POLL, LATE, POLL]

  const GAINING := Line(1_200_000, NEW_YEAR_US + 200_000, 200_000)
  const LOSING := Line(1_360_000, NEW_YEAR_US + 361_000, -200_000)

  lemma LateLines()
    ensures Next(Unsynchronized, Observed(1_000_000, 0).observation) == Locked(ANCHORED, [])
    ensures Accepted(Locked(ANCHORED, []), AHEAD) && After(Locked(ANCHORED, []), AHEAD) == Locked(GAINING, [])
    ensures Accepted(Locked(GAINING, []), LATE) && After(Locked(GAINING, []), LATE) == Locked(LOSING, [])
    ensures GAINING.At(1_440_000) == NEW_YEAR_US + 441_500 && LOSING.At(1_440_000) == NEW_YEAR_US + 440_500
  {
    assert GAINING.correction * Min(160_000, CORRECTION_US) == 32_000_000_000;
    assert GAINING.correction * Min(240_000, CORRECTION_US) == 48_000_000_000;
    assert LOSING.correction * Min(80_000, CORRECTION_US) == -16_000_000_000;
  }

  lemma LateRunIsReceivable()
    ensures Receivable(LATE_RUN) && InOrder(LATE_RUN, 0)
  {
  }

  lemma AfterFirst(d: Discipline, e: Event, rest: seq<Event>)
    ensures AfterAll(d, [e] + rest) == AfterAll(After(d, e), rest)
    ensures NoStep(d, [e] + rest) <==>
            !(e.Observe? && OutcomeOf(d, e.observation) == Stepped) && NoStep(After(d, e), rest)
  {
    assert ([e] + rest)[1..] == rest;
  }

  /** The bound is reached: between the two polls of that run a single accepted observation,
      80 ms old, costs all of its slack, a millisecond. */
  lemma BackDatingBoundIsReached()
    ensures Receivable(LATE_RUN) && InOrder(LATE_RUN, 0)
    ensures var d := AfterAll(Unsynchronized, LATE_RUN[..3]);
            && LATE_RUN[3] == LATE && Accepted(d, LATE) && Slack(LATE.Age()) == 1000
            && After(d, LATE).Estimate(POLL.now) == d.Estimate(POLL.now) - Slack(LATE.Age())
  {
    LateRunIsReceivable();
    LateLines();
    var first := Observed(1_000_000, 0);
    assert LATE_RUN[..3] == [first] + ([AHEAD] + ([POLL] + []));
    AfterFirst(Unsynchronized, first, [AHEAD] + ([POLL] + []));
    AfterFirst(Locked(ANCHORED, []), AHEAD, [POLL] + []);
    AfterFirst(Locked(GAINING, []), POLL, []);
  }

  /** Over a whole run without a step, elapsed UTC differs from elapsed uptime by at most 1/160
      of it, plus less than one microsecond of rounding for every line followed, plus the slack
      of the observations that arrived late. */
  lemma {:induction false} RateOverRun(d: Discipline, es: seq<Event>, start: int, end: int)
    requires d.Locked? && d.Ready() && InOrder(es, start) && start <= end
    requires forall i :: 0 <= i < |es| ==> es[i].Time() <= end
    requires NoStep(d, es)
    ensures var final := AfterAll(d, es);
            && final.Locked?
            && 160 * Abs(final.Estimate(end) - d.Estimate(start) - (end - start))
               <= (end - start) + 159 * (Restarts(d, es) + 1) + 160 * TotalSlack(d, es)
    decreases |es|
  {
    if es == [] {
      RateWithinLine(d.line, start, end);
    } else {
      var e, next := es[0], After(d, es[0]);
      RateOverEvent(d, e, start);
      if Accepted(d, e) {
        RateOverRun(next, es[1..], e.Time(), end);
      } else {
        RateOverRun(next, es[1..], start, end);
      }
    }
  }

  lemma RateOverEvent(d: Discipline, e: Event, start: int)
    requires d.Locked? && d.Ready() && start <= e.Time() && e.Plausible()
    requires e.Observe? ==> OutcomeOf(d, e.observation) != Stepped
    ensures After(d, e).Locked? && After(d, e).Ready()
    ensures !Accepted(d, e) ==> After(d, e).line == d.line
    ensures Accepted(d, e) ==>
              160 * Abs(After(d, e).Estimate(e.Time()) - d.Estimate(start) - (e.Time() - start))
              <= (e.Time() - start) + 159 + 160 * Slack(e.Age())
  {
    if Accepted(d, e) {
      RateWithinLine(d.line, start, e.Time());
      AcceptedMoves(d.line, e.observation, e.Time());
    }
  }
}
