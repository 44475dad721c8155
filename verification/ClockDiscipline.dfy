/** The GPS-disciplined UTC estimate (master-node/src/time/clock_discipline.c) and the rule by
    which it steps. Times are microseconds. */
module ClockDiscipline {
  import opened CArithmetic

  const CORRECTION_US := 32_000_000
  const MAX_ERROR_US := 200_000
  const STEP_AFTER_US := 5_000_000
  const STEP_AFTER_REJECTIONS := 5
  const COUNTER_MAX := 255

  datatype Observation = Observation(uptime: int, utc: int)

  /** The straight line the estimate follows, with the error still being added to it. */
  datatype Line = Line(uptime: int, utc: int, correction: int) {
    function At(now: int): int {
      var elapsed := now - uptime;
      utc + elapsed + TruncDiv(correction * Min(elapsed, CORRECTION_US), CORRECTION_US)
    }

    function ErrorOf(o: Observation): int {
      o.utc - At(o.uptime)
    }

    predicate Misses(o: Observation) {
      Abs(ErrorOf(o)) > MAX_ERROR_US
    }
  }

  datatype Outcome = Anchored | Corrected | Rejected | Stepped

  // ---------------------------------------------------------------------------
  // The specification: a line and the whole list of observations it has rejected.
  // ---------------------------------------------------------------------------

  datatype Discipline = Unsynchronized | Locked(line: Line, misses: seq<Observation>) {
    function Estimate(now: int): int {
      if Unsynchronized? then 0 else line.At(now)
    }

    /** Once locked, the error being corrected is one that an observation may leave. */
    predicate Ready() {
      Locked? ==> Abs(line.correction) <= MAX_ERROR_US
    }
  }

  predicate StepsNow(misses: seq<Observation>, o: Observation) {
    var all := misses + [o];
    |all| >= STEP_AFTER_REJECTIONS && o.uptime - all[0].uptime >= STEP_AFTER_US
  }

  function OutcomeOf(d: Discipline, o: Observation): Outcome {
    if d.Unsynchronized? then Anchored
    else if !d.line.Misses(o) then Corrected
    else if StepsNow(d.misses, o) then Stepped
    else Rejected
  }

  function Next(d: Discipline, o: Observation): Discipline {
    match OutcomeOf(d, o)
    case Anchored => Locked(Line(o.uptime, o.utc, 0), [])
    case Stepped => Locked(Line(o.uptime, o.utc, 0), [])
    case Corrected => Locked(Line(o.uptime, d.line.At(o.uptime), d.line.ErrorOf(o)), [])
    case Rejected => Locked(d.line, d.misses + [o])
  }

  /** The state after the first `n` observations since boot. */
  function StateAt(os: seq<Observation>, n: nat): Discipline
    requires n <= |os|
  {
    if n == 0 then Unsynchronized else Next(StateAt(os, n - 1), os[n - 1])
  }

  function OutcomeAt(os: seq<Observation>, n: nat): Outcome
    requires n < |os|
  {
    OutcomeOf(StateAt(os, n), os[n])
  }

  // ---------------------------------------------------------------------------
  // The implementation: six fields, a counter that saturates at 255.
  // ---------------------------------------------------------------------------

  class DisciplinedClock {
    var synchronized: bool
    var anchorUptimeUs: int
    var anchorUtcUs: int
    var correctionUs: int
    var rejectedInARow: nat
    var rejectingSinceUs: int
    ghost var spec: Discipline

    ghost predicate Valid()
      reads this
    {
      && synchronized == spec.Locked?
      && (synchronized ==>
            && spec.line == Line(anchorUptimeUs, anchorUtcUs, correctionUs)
            && rejectedInARow == Min(|spec.misses|, COUNTER_MAX)
            && (spec.misses != [] ==> rejectingSinceUs == spec.misses[0].uptime))
    }

    constructor ()
      ensures Valid() && spec == Unsynchronized
    {
      synchronized := false;
      anchorUptimeUs, anchorUtcUs, correctionUs := 0, 0, 0;
      rejectedInARow, rejectingSinceUs := 0, 0;
      spec := Unsynchronized;
    }

    method UtcUs(uptimeUs: int) returns (utcUs: int)
      requires Valid()
      ensures utcUs == spec.Estimate(uptimeUs)
      ensures spec == Unsynchronized ==> utcUs == 0
    {
      if !synchronized {
        return 0;
      }
      var elapsedUs := uptimeUs - anchorUptimeUs;
      var correctingUs := if elapsedUs < CORRECTION_US then elapsedUs else CORRECTION_US;
      var correctionSoFarUs := TruncDiv(correctionUs * correctingUs, CORRECTION_US);
      utcUs := anchorUtcUs + elapsedUs + correctionSoFarUs;
    }

    /** The line now passes through the GPS time; nothing remains of the old one. */
    method JumpTo(uptimeUs: int, utcUs: int)
      modifies this
      ensures Valid() && spec == Locked(Line(uptimeUs, utcUs, 0), [])
    {
      synchronized := true;
      anchorUptimeUs, anchorUtcUs, correctionUs := uptimeUs, utcUs, 0;
      rejectedInARow, rejectingSinceUs := 0, 0;
      spec := Locked(Line(uptimeUs, utcUs, 0), []);
    }

    method Observe(uptimeUs: int, utcUs: int) returns (outcome: Outcome, errorUs: int)
      requires Valid()
      modifies this
      ensures Valid()
      ensures outcome == OutcomeOf(old(spec), Observation(uptimeUs, utcUs))
      ensures spec == Next(old(spec), Observation(uptimeUs, utcUs))
      ensures errorUs == if old(spec).Unsynchronized? then 0
                         else utcUs - old(spec).Estimate(uptimeUs)
      ensures outcome == Anchored <==> old(spec) == Unsynchronized
      ensures outcome == Corrected <==> old(spec) != Unsynchronized && Abs(errorUs) <= 200_000
    {
      ghost var o := Observation(uptimeUs, utcUs);
      errorUs := 0;
      if !synchronized {
        JumpTo(uptimeUs, utcUs);
        return Anchored, errorUs;
      }
      var estimateUs := UtcUs(uptimeUs);
      errorUs := utcUs - estimateUs;
      if Abs(errorUs) > MAX_ERROR_US {
        if rejectedInARow == 0 {
          rejectingSinceUs := uptimeUs;
        }
        if rejectedInARow < COUNTER_MAX {
          rejectedInARow := rejectedInARow + 1;
        }
        if rejectedInARow < STEP_AFTER_REJECTIONS || uptimeUs - rejectingSinceUs < STEP_AFTER_US {
          spec := Locked(spec.line, spec.misses + [o]);
          return Rejected, errorUs;
        }
        JumpTo(uptimeUs, utcUs);
        return Stepped, errorUs;
      }
      anchorUptimeUs, anchorUtcUs, correctionUs := uptimeUs, estimateUs, errorUs;
      rejectedInARow := 0;
      spec := Locked(Line(uptimeUs, estimateUs, errorUs), []);
      outcome := Corrected;
    }
  }

  // ---------------------------------------------------------------------------
  // Step rule.
  // ---------------------------------------------------------------------------

  /** The last observation before position `n` that was not rejected. */
  function LastReset(os: seq<Observation>, n: nat): int
    requires n <= |os|
  {
    if n == 0 then -1
    else if OutcomeAt(os, n - 1) != Rejected then n - 1
    else LastReset(os, n - 1)
  }

  predicate AllMiss(l: Line, os: seq<Observation>) {
    forall o :: o in os ==> l.Misses(o)
  }

  lemma AllMissAppend(l: Line, os: seq<Observation>, o: Observation)
    ensures AllMiss(l, os + [o]) <==> AllMiss(l, os) && l.Misses(o)
  {
    assert forall p :: p in os + [o] <==> p in os || p == o;
  }

  lemma RejectionKeepsLine(d: Discipline, o: Observation)
    requires OutcomeOf(d, o) == Rejected
    ensures d.Locked? && d.line.Misses(o) && Next(d, o) == Locked(d.line, d.misses + [o])
  {
  }

  lemma ResetForgets(d: Discipline, o: Observation)
    requires OutcomeOf(d, o) != Rejected
    ensures Next(d, o).Locked? && Next(d, o).misses == []
  {
  }

  /** What the specification remembers at position n is exactly what was rejected since the
      reset at j, and every one of those missed the one line in force since then. */
  ghost predicate SinceReset(os: seq<Observation>, j: nat, n: nat)
    requires j < n <= |os|
  {
    && StateAt(os, j + 1).Locked? && StateAt(os, j + 1).misses == []
    && StateAt(os, n) == Locked(StateAt(os, j + 1).line, os[j + 1..n])
    && AllMiss(StateAt(os, j + 1).line, os[j + 1..n])
  }

  lemma RejectionExtends(os: seq<Observation>, j: nat, n: nat)
    requires j < n < |os| && SinceReset(os, j, n) && OutcomeAt(os, n) == Rejected
    ensures SinceReset(os, j, n + 1)
  {
    var d, o := StateAt(os, n), os[n];
    RejectionKeepsLine(d, o);
    assert os[j + 1..n + 1] == os[j + 1..n] + [o];
    AllMissAppend(d.line, os[j + 1..n], o);
  }

  lemma ResetStarts(os: seq<Observation>, n: nat)
    requires n < |os| && OutcomeAt(os, n) != Rejected
    ensures SinceReset(os, n, n + 1)
  {
    ResetForgets(StateAt(os, n), os[n]);
    assert os[n + 1..n + 1] == [];
  }

  lemma {:induction false} MissesSinceReset(os: seq<Observation>, n: nat)
    requires 0 < n <= |os|
    ensures 0 <= LastReset(os, n) < n && SinceReset(os, LastReset(os, n), n)
  {
    if OutcomeAt(os, n - 1) == Rejected {
      MissesSinceReset(os, n - 1);
      var j := LastReset(os, n - 1);
      RejectionExtends(os, j, n - 1);
      assert LastReset(os, n) == j;
    } else {
      ResetStarts(os, n - 1);
      assert LastReset(os, n) == n - 1;
    }
  }

  lemma StepsWhenAllMiss(os: seq<Observation>, n: nat) returns (j: int, line: Line)
    requires 0 < n < |os|
    ensures 0 <= j < n && j == LastReset(os, n)
    ensures StateAt(os, j + 1).Locked? && line == StateAt(os, j + 1).line
    ensures OutcomeAt(os, n) == Stepped <==>
              AllMiss(line, os[j + 1..n + 1]) && n - j >= 5 && os[n].uptime - os[j + 1].uptime >= 5_000_000
  {
    MissesSinceReset(os, n);
    j := LastReset(os, n);
    line := StateAt(os, j + 1).line;
    assert os[j + 1..n] + [os[n]] == os[j + 1..n + 1];
    AllMissAppend(line, os[j + 1..n], os[n]);
  }

  /** Observations low to high - 1 are each more than 200 ms off the line. */
  predicate AllFarOff(l: Line, os: seq<Observation>, low: nat, high: nat)
    requires low <= high <= |os|
  {
    forall i :: low <= i < high ==> Abs(os[i].utc - l.At(os[i].uptime)) > 200_000
  }

  lemma AllMissInOrder(l: Line, os: seq<Observation>, low: nat, high: nat)
    requires low <= high <= |os|
    ensures AllMiss(l, os[low..high]) <==> AllFarOff(l, os, low, high)
  {
    var part := os[low..high];
    if AllMiss(l, part) {
      forall i | low <= i < high ensures l.Misses(os[i]) {
        assert part[i - low] in part;
      }
    }
  }

  /** An observation steps the clock if and only if it and every observation since the last
      one that anchored, was accepted or stepped missed the unchanged line by more than
      200 ms, there are at least five of them, and the first is at least 5 s old. */
  lemma StepRule(os: seq<Observation>, n: nat)
    requires 0 < n < |os|
    ensures var j := LastReset(os, n);
            && 0 <= j < n
            && (OutcomeAt(os, n) == Stepped <==>
                  && AllFarOff(StateAt(os, j + 1).line, os, j + 1, n + 1)
                  && n - j >= 5
                  && os[n].uptime - os[j + 1].uptime >= 5_000_000)
  {
    var j, line := StepsWhenAllMiss(os, n);
    AllMissInOrder(line, os, j + 1, n + 1);
  }

  /** The correction is spread evenly over 32 s, rounded towards the line, and then is complete. */
  lemma CorrectionIsSpread(l: Line, elapsed: int)
    ensures elapsed >= 32_000_000 ==> l.At(l.uptime + elapsed) == l.utc + elapsed + l.correction
    ensures elapsed <= 32_000_000 ==>
              Abs((l.At(l.uptime + elapsed) - l.utc - elapsed) * 32_000_000 - l.correction * elapsed) < 32_000_000
  {
    if elapsed >= 32_000_000 {
      assert l.correction * 32_000_000 / 32_000_000 == l.correction;
    }
  }
}
