/** The clock the rest of the master reads (master-node/src/time/absolute_clock.c): the
    disciplined estimate, shared under a lock, in milliseconds. Every method is one critical section. */
module AbsoluteClock {
  import opened CArithmetic
  import opened ClockDiscipline
  import opened ClockRuns

  function Milliseconds(d: Discipline, uptimeUs: int): int {
    TruncDiv(d.Estimate(uptimeUs), 1000)
  }

  class SharedClock {
    const discipline: DisciplinedClock

    constructor ()
      ensures fresh(discipline) && discipline.Valid() && discipline.spec == Unsynchronized
    {
      discipline := new DisciplinedClock();
    }

    method NowUtc(uptimeUs: int) returns (utcMs: int)
      requires discipline.Valid()
      ensures utcMs == Milliseconds(discipline.spec, uptimeUs)
      ensures discipline.spec == Unsynchronized ==> utcMs == 0
    {
      var utcUs := discipline.UtcUs(uptimeUs);
      utcMs := TruncDiv(utcUs, 1000);
    }

    /** A time at or before 1970 is ignored; anything else is one observation. */
    method ObserveUtc(utcMs: int, uptimeUs: int)
      requires discipline.Valid()
      modifies discipline
      ensures discipline.Valid()
      ensures discipline.spec == if utcMs <= 0 then old(discipline.spec)
                                 else Next(old(discipline.spec), Observation(uptimeUs, utcMs * 1000))
    {
      if utcMs <= 0 {
        return;
      }
      var outcome, errorUs := discipline.Observe(uptimeUs, utcMs * 1000);
    }
  }

  /** The times the reads of a run return, in order. */
  function Readings(d: Discipline, es: seq<Event>): seq<int>
    decreases |es|
  {
    if es == [] then []
    else (if es[0].Read? then [Milliseconds(d, es[0].now)] else []) + Readings(After(d, es[0]), es[1..])
  }

  /** Every reading before the first fix is 0. */
  lemma {:induction false} NoTimeBeforeFirstFix(polls: seq<Event>, rest: seq<Event>, k: nat)
    requires k < |polls| && forall i :: 0 <= i < |polls| ==> polls[i].Read?
    ensures |Readings(Unsynchronized, polls + rest)| > k
    ensures Readings(Unsynchronized, polls + rest)[k] == 0
    decreases k
  {
    var es := polls + rest;
    assert es[0] == polls[0] && es[1..] == polls[1..] + rest;
    if k > 0 {
      NoTimeBeforeFirstFix(polls[1..], rest, k - 1);
    }
  }

  predicate Ascending(s: seq<int>) {
    forall i, j :: 0 <= i < j < |s| ==> s[i] <= s[j]
  }

  lemma TruncationKeepsOrder(a: int, b: int)
    requires a <= b
    ensures TruncDiv(a, 1000) <= TruncDiv(b, 1000)
  {
  }

  /** Unless an event puts the estimate back at its arrival, no later read ever returns an earlier
      time: from power-on, through the first fix, over any mix of reads and observations, however
      late these arrive. */
  lemma {:induction false} ReadingsAscend(d: Discipline, es: seq<Event>, start: int)
    requires d.Ready() && InOrder(es, start) && !EverLowers(d, es)
    ensures Ascending(Readings(d, es))
    ensures forall t :: t in Readings(d, es) ==> Milliseconds(d, start) <= t
    decreases |es|
  {
    if es == [] {
    } else {
      var e, next := es[0], After(d, es[0]);
      var now := e.Time();
      InOrderTail(es, start);
      ForwardUntil(d, e, start);
      TruncationKeepsOrder(d.Estimate(start), d.Estimate(now));
      TruncationKeepsOrder(d.Estimate(now), next.Estimate(now));
      ReadingsAscend(next, es[1..], now);
      Prepend(if e.Read? then [Milliseconds(d, now)] else [], Readings(next, es[1..]), Milliseconds(next, now));
    }
  }

  lemma ReadingsFirst(d: Discipline, e: Event, rest: seq<Event>)
    ensures Readings(d, [e] + rest)
            == (if e.Read? then [Milliseconds(d, e.now)] else []) + Readings(After(d, e), rest)
  {
    assert ([e] + rest)[1..] == rest;
  }

  /** In a run of a receiver without any step, a late observation makes the clock read a millisecond
      less than it just did, at the same uptime. */
  lemma LateObservationLowersAReading()
    ensures Receivable(LATE_RUN) && InOrder(LATE_RUN, 0) && NoStep(Unsynchronized, LATE_RUN)
    ensures Readings(Unsynchronized, LATE_RUN) == [NEW_YEAR_US / 1000 + 441, NEW_YEAR_US / 1000 + 440]
  {
    LateRunIsReceivable();
    LateLines();
    var anchored, gaining, losing := Locked(ANCHORED, []), Locked(GAINING, []), Locked(LOSING, []);
    var first, last := Observed(1_000_000, 0), [POLL] + [];
    assert LATE_RUN == [first] + ([AHEAD] + ([POLL] + ([LATE] + last)));
    AfterFirst(losing, POLL, []);
    AfterFirst(gaining, LATE, last);
    AfterFirst(gaining, POLL, [LATE] + last);
    AfterFirst(anchored, AHEAD, [POLL] + ([LATE] + last));
    AfterFirst(Unsynchronized, first, [AHEAD] + ([POLL] + ([LATE] + last)));
    ReadingsFirst(losing, POLL, []);
    ReadingsFirst(gaining, LATE, last);
    ReadingsFirst(gaining, POLL, [LATE] + last);
    ReadingsFirst(anchored, AHEAD, [POLL] + ([LATE] + last));
    ReadingsFirst(Unsynchronized, first, [AHEAD] + ([POLL] + ([LATE] + last)));
  }

  lemma Prepend(head: seq<int>, tail: seq<int>, low: int)
    requires Ascending(tail) && |head| <= 1
    requires forall t :: t in head ==> t <= low
    requires forall t :: t in tail ==> low <= t
    ensures Ascending(head + tail)
  {
    forall i, j | 0 <= i < j < |head + tail| ensures (head + tail)[i] <= (head + tail)[j] {
      assert (head + tail)[j] == tail[j - |head|];
      if i < |head| { assert (head + tail)[i] in head && tail[j - |head|] in tail; }
    }
  }
}
