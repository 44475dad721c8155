/** From received bytes to the disciplined clock: what the reader guarantees is what the clock's
    theorems assume (master-node/src/gps/gps_receiver.c feeding master-node/src/time/absolute_clock.c),
    while other tasks read the clock whenever they like. */
module GpsClock {
  import opened CArithmetic
  import opened Wrappers
  import Gps = GpsReceiver
  import RmcParser
  import opened RmcTime
  import opened ClockDiscipline
  import opened ClockRuns
  import opened ClockTracking
  import opened AbsoluteClock
  import opened Calendar

  // ---------------------------------------------------------------------------
  // The observations that reach the clock, among the reads of other tasks.
  // ---------------------------------------------------------------------------

  /** The observations the clock takes; times at or before 1970 are ignored. */
  function Kept(os: seq<Gps.Observation>): seq<Gps.Observation> {
    if os == [] then []
    else
      var last := os[|os| - 1];
      Kept(os[..|os| - 1]) + if last.utcMs <= 0 then [] else [last]
  }

  lemma {:induction false} KeptOnes(os: seq<Gps.Observation>)
    ensures forall o :: o in Kept(os) ==> o in os && 0 < o.utcMs
    ensures Gps.Spaced(os) ==> Gps.Spaced(Kept(os))
  {
    if os == [] {
    } else {
      var rest := os[..|os| - 1];
      KeptOnes(rest);
      if Gps.Spaced(os) {
        forall a | 0 <= a < |Kept(rest)| ensures Kept(rest)[a].uptimeUs + Gps.BURST_GAP_US <= os[|os| - 1].uptimeUs {
          assert Kept(rest)[a] in rest;
        }
      }
    }
  }

  function AsSeen(o: Gps.Observation): Observation {
    Observation(o.uptimeUs, o.utcMs * 1000)
  }

  /** The observations among the events of a run. */
  function Heard(es: seq<Event>): seq<Event> {
    if es == [] then []
    else
      var last := es[|es| - 1];
      Heard(es[..|es| - 1]) + if last.Observe? then [last] else []
  }

  /** An observation among the events has its place among those heard, after those before it. */
  lemma {:induction false} HeardInPlace(es: seq<Event>, i: nat)
    requires i < |es| && es[i].Observe?
    ensures |Heard(es[..i])| < |Heard(es)| && Heard(es)[|Heard(es[..i])|] == es[i]
  {
    var n := |es| - 1;
    if i < n {
      HeardInPlace(es[..n], i);
      assert es[..n][..i] == es[..i];
    }
  }

  /** An observation arrives no earlier than it was completed. */
  predicate ArrivesAs(o: Gps.Observation, e: Event) {
    e.Observe? && e.observation == AsSeen(o) && o.readAtUs <= e.arrivedAt
  }

  /** A run whose observations are those of the reader, in order; the reads are arbitrary. */
  ghost predicate Interleaves(es: seq<Event>, os: seq<Gps.Observation>) {
    && |Heard(es)| == |Kept(os)|
    && (forall i {:trigger Heard(es)[i]} :: 0 <= i < |Heard(es)| ==> ArrivesAs(Kept(os)[i], Heard(es)[i]))
    && (forall i :: 0 <= i < |es| ==> 0 <= es[i].Time())
    && (forall i, j :: 0 <= i < j < |es| ==> es[i].Time() <= es[j].Time())
  }

  /** The observation that event i of a run delivers. */
  function Delivered(es: seq<Event>, os: seq<Gps.Observation>, i: nat): Gps.Observation
    requires i < |es| && |Heard(es[..i])| < |Kept(os)|
  {
    Kept(os)[|Heard(es[..i])|]
  }

  lemma DeliveredByEvent(es: seq<Event>, os: seq<Gps.Observation>, i: nat)
    requires Interleaves(es, os) && i < |es| && es[i].Observe?
    ensures |Heard(es[..i])| < |Kept(os)| && ArrivesAs(Delivered(es, os, i), es[i])
    ensures Delivered(es, os, i) in os && 0 < Delivered(es, os, i).utcMs
  {
    HeardInPlace(es, i);
    KeptOnes(os);
    assert ArrivesAs(Kept(os)[|Heard(es[..i])|], Heard(es)[|Heard(es[..i])|]);
  }

  lemma DeliveredApart(es: seq<Event>, os: seq<Gps.Observation>, i: nat, j: nat)
    requires Interleaves(es, os) && i < j < |es| && es[i].Observe? && es[j].Observe? && Gps.Spaced(os)
    ensures es[i].observation.uptime + DATES_APART_US <= es[j].observation.uptime
  {
    DeliveredByEvent(es, os, i);
    DeliveredByEvent(es, os, j);
    HeardInPlace(es[..j], i);
    assert es[..j][..i] == es[..i];
    KeptOnes(os);
  }

  /** For every stream of bytes, however corrupted, and every parser: any interleaving of what the
      reader tells the clock with the reads of other tasks is a run in the sense of `InOrder`. */
  lemma AnyByteStreamMakesARun(bytes: Gps.Text, times: seq<int>, parse: Gps.Text -> Option<int>, es: seq<Event>)
    requires |bytes| == |times| && Gps.Timeline(times)
    requires Interleaves(es, Gps.Observations(bytes, times, parse, |bytes|))
    ensures InOrder(es, 0)
  {
    var os := Gps.Observations(bytes, times, parse, |bytes|);
    Gps.ObservationsAreDatedBack(bytes, times, parse, |bytes|);
    forall i | 0 <= i < |es| ensures es[i].Plausible() {
      if es[i].Observe? {
        DeliveredByEvent(es, os, i);
      }
    }
  }

  predicate OfOurCentury(o: Gps.Observation) {
    0 < o.uptimeUs && ClockRuns.FIRST_UTC_MS <= o.utcMs < ClockRuns.LAST_UTC_MS
  }

  lemma SpacedObservationsAreReceivable(es: seq<Event>, os: seq<Gps.Observation>)
    requires Interleaves(es, os) && Gps.Spaced(os) && forall o :: o in os ==> OfOurCentury(o)
    ensures Receivable(es)
  {
    forall i | 0 <= i < |es| ensures ReceivableAt(es[i]) {
      if es[i].Observe? {
        DeliveredByEvent(es, os, i);
        assert OfOurCentury(Delivered(es, os, i));
      }
    }
    forall i, j | 0 <= i < j < |es| && es[i].Observe? && es[j].Observe?
      ensures es[i].observation.uptime + DATES_APART_US <= es[j].observation.uptime
    {
      DeliveredApart(es, os, i, j);
    }
  }

  /** With the sentence parser, such a run is one a receiver can feed: whole milliseconds of 2020 to
      2099, dated after power-on, no two observations in one burst. */
  lemma SentencesMakeAReceivableRun(bytes: Gps.Text, times: seq<int>, fits: seq<Gps.Text> -> bool,
                                    parse: Gps.Text -> Option<int>, es: seq<Event>)
    requires |bytes| == |times| && Gps.Timeline(times) && forall line :: parse(line) == SentenceUtc(line, fits)
    requires Interleaves(es, Gps.Observations(bytes, times, parse, |bytes|))
    ensures Receivable(es)
  {
    var os := Gps.Observations(bytes, times, parse, |bytes|);
    Gps.ObservationsAreDatedBack(bytes, times, parse, |bytes|);
    Gps.ObservationsAreSpaced(bytes, times, parse, |bytes|);
    forall o | o in os ensures OfOurCentury(o) {
      ParsedInRange(bytes, times, fits, parse, o);
    }
    SpacedObservationsAreReceivable(es, os);
  }

  lemma ParsedInRange(bytes: Gps.Text, times: seq<int>, fits: seq<Gps.Text> -> bool, parse: Gps.Text -> Option<int>,
                      o: Gps.Observation)
    requires |bytes| == |times| && forall line :: parse(line) == SentenceUtc(line, fits)
    requires o in Gps.Observations(bytes, times, parse, |bytes|)
    ensures ClockRuns.FIRST_UTC_MS <= o.utcMs < ClockRuns.LAST_UTC_MS
  {
    var line := Gps.EveryObservationWasParsed(bytes, times, parse, |bytes|, o);
    var fields := RmcParser.Split(RmcParser.Payload(line)).All();
    AcceptedUtcInRange(fields[1], fields[9]);
  }

  /** So what tasks can read goes backwards if and only if some observation puts the estimate back
      at its arrival: from power-on, whatever bytes arrive and whenever the clock is read. */
  lemma AnyByteStreamWithAnyReads(bytes: Gps.Text, times: seq<int>, parse: Gps.Text -> Option<int>, es: seq<Event>)
    requires |bytes| == |times| && Gps.Timeline(times)
    requires Interleaves(es, Gps.Observations(bytes, times, parse, |bytes|))
    ensures NonDecreasing([Unsynchronized.Estimate(0)] + Seen(Unsynchronized, es)) <==> !EverLowers(Unsynchronized, es)
    ensures !EverLowers(Unsynchronized, es) ==> Ascending(Readings(Unsynchronized, es))
  {
    AnyByteStreamMakesARun(bytes, times, parse, es);
    BackwardsExactlyWhenLowered(Unsynchronized, es, 0);
    if !EverLowers(Unsynchronized, es) {
      ReadingsAscend(Unsynchronized, es, 0);
    }
  }

  lemma {:induction false} ReadyAlways(d: Discipline, es: seq<Event>)
    requires d.Ready()
    ensures AfterAll(d, es).Ready()
    decreases |es|
  {
    if es == [] {
    } else {
      ReadyAlways(After(d, es[0]), es[1..]);
    }
  }

  /** And between any two readings with no step between them, the later is below the earlier by at
      most the slack of the observations accepted in between. */
  lemma ReadingsOfAnyByteStream(bytes: Gps.Text, times: seq<int>, parse: Gps.Text -> Option<int>,
                                before: seq<Event>, between: seq<Event>, after: seq<Event>, start: int, end: int)
    requires |bytes| == |times| && Gps.Timeline(times)
    requires Interleaves(before + between + after, Gps.Observations(bytes, times, parse, |bytes|))
    requires start <= end && forall e :: e in between ==> start <= e.Time() <= end
    requires NoStep(AfterAll(Unsynchronized, before), between)
    ensures var d := AfterAll(Unsynchronized, before);
            d.Estimate(start) - TotalSlack(d, between) <= AfterAll(d, between).Estimate(end)
  {
    var es := before + between + after;
    AnyByteStreamMakesARun(bytes, times, parse, es);
    ReadyAlways(Unsynchronized, before);
    assert forall i :: 0 <= i < |between| ==> between[i] == es[|before| + i];
    assert forall i :: 0 <= i < |between| ==> between[i] in between;
    LaterReadingBound(AfterAll(Unsynchronized, before), between, start, end);
  }

  // ---------------------------------------------------------------------------
  // Tracking.
  // ---------------------------------------------------------------------------

  /** The observations as the clock sees them. */
  function ClockObservations(os: seq<Gps.Observation>): (r: seq<Observation>)
    ensures |r| == |Kept(os)|
  {
    seq(|Kept(os)|, i requires 0 <= i < |Kept(os)| => AsSeen(Kept(os)[i]))
  }

  predicate Apart(cs: seq<Observation>, period: nat) {
    forall i {:trigger cs[i]} :: 0 < i < |cs| ==> period <= cs[i].uptime - cs[i - 1].uptime
  }

  /** The bursts alone keep the observations of any byte stream 50 ms apart. */
  lemma AnyByteStreamIsSpaced(bytes: Gps.Text, times: seq<int>, parse: Gps.Text -> Option<int>)
    requires |bytes| == |times| && Gps.Timeline(times)
    ensures Apart(ClockObservations(Gps.Observations(bytes, times, parse, |bytes|)), Gps.BURST_GAP_US)
  {
    Gps.ObservationsAreSpaced(bytes, times, parse, |bytes|);
    KeptOnes(Gps.Observations(bytes, times, parse, |bytes|));
  }

  /** GPS time and uptime disagree by at most `drift` from one observation to the next. */
  predicate SteadyAt(cs: seq<Observation>, i: nat, drift: nat)
    requires 0 < i < |cs|
  {
    Abs((cs[i].utc - cs[i - 1].utc) - (cs[i].uptime - cs[i - 1].uptime)) <= drift
  }

  /** While the observations of a byte stream are steady to within bound*period/32 s, none after
      the first is rejected and none finds an error beyond `bound`. */
  lemma AnyByteStreamIsTracked(bytes: Gps.Text, times: seq<int>, parse: Gps.Text -> Option<int>,
                               cs: seq<Observation>, n: nat, period: nat, drift: nat, bound: nat)
    requires |bytes| == |times| && Gps.Timeline(times)
    requires cs == ClockObservations(Gps.Observations(bytes, times, parse, |bytes|)) && n < |cs|
    requires forall i {:trigger SteadyAt(cs, i, drift)} :: 0 < i < |cs| ==> SteadyAt(cs, i, drift)
    requires 0 < period <= CORRECTION_US && (period <= Gps.BURST_GAP_US || Apart(cs, period))
    requires bound <= MAX_ERROR_US && drift <= bound * period / CORRECTION_US
    ensures OutcomeAt(cs, n) == if n == 0 then Anchored else Corrected
    ensures 0 < n ==> StateAt(cs, n).Locked? && Abs(StateAt(cs, n).line.ErrorOf(cs[n])) <= bound
  {
    AnyByteStreamIsSpaced(bytes, times, parse);
    forall i | 0 < i < |cs| ensures RegularAt(cs, i, period, drift) {
      assert SteadyAt(cs, i, drift);
    }
    TrackingBound(cs, n, period, drift, bound);
  }

  /** The observation is within `jitter` of true UTC, from which uptime drifts by at most `drift`
      from one observation to the next. */
  predicate NearAt(cs: seq<Observation>, truth: seq<int>, i: nat, drift: nat, jitter: nat)
    requires i < |cs| == |truth|
  {
    && Abs(cs[i].utc - truth[i]) <= jitter
    && (0 < i ==> Abs((truth[i] - truth[i - 1]) - (cs[i].uptime - cs[i - 1].uptime)) <= drift)
  }

  /** And while they jitter around true UTC, the estimate stays within `limit` of it. */
  lemma AnyByteStreamFollowsTrueUtc(bytes: Gps.Text, times: seq<int>, parse: Gps.Text -> Option<int>,
                                    cs: seq<Observation>, truth: seq<int>, n: nat,
                                    period: nat, drift: nat, jitter: nat, limit: nat)
    requires |bytes| == |times| && Gps.Timeline(times)
    requires cs == ClockObservations(Gps.Observations(bytes, times, parse, |bytes|)) && n < |cs| == |truth|
    requires forall i {:trigger NearAt(cs, truth, i, drift, jitter)} :: 0 <= i < |cs| ==>
               NearAt(cs, truth, i, drift, jitter)
    requires (period <= Gps.BURST_GAP_US || Apart(cs, period)) && Absorbs(limit, period, drift, jitter)
    ensures OutcomeAt(cs, n) == if n == 0 then Anchored else Corrected
    ensures Follows(StateAt(cs, n + 1), cs[n], truth[n], limit)
    ensures 0 < n ==> Abs(StateAt(cs, n).Estimate(cs[n].uptime) - truth[n]) <= limit
  {
    AnyByteStreamIsSpaced(bytes, times, parse);
    forall i | 0 <= i < |cs| ensures JitteryAt(cs, truth, i, period, drift, jitter) {
      assert NearAt(cs, truth, i, drift, jitter);
    }
    TrackingWithJitter(cs, truth, n, period, drift, jitter, limit);
  }

  // ---------------------------------------------------------------------------
  // Printed sentences.
  // ---------------------------------------------------------------------------

  /** Sentences that a receiver may print: valid, and short enough for the line buffer. */
  predicate AllPrintable(ps: seq<Printed>, fits: seq<Gps.Text> -> bool) {
    forall p :: p in ps ==> p.Valid(fits) && |p.Line()| < Gps.LINE_MAX - 1
  }

  /** The lines on the wire end in a return. */
  function WireLines(ps: seq<Printed>): seq<Gps.Text> {
    if ps == [] then [] else WireLines(ps[..|ps| - 1]) + [ps[|ps| - 1].Line() + [Gps.RETURN]]
  }

  function Moments(ps: seq<Printed>, fits: seq<Gps.Text> -> bool): seq<int>
    requires AllPrintable(ps, fits)
  {
    if ps == [] then []
    else
      var last := ps[|ps| - 1];
      assert last in ps && last.Valid(fits);
      Moments(ps[..|ps| - 1], fits) + [UtcOf(last.moment)]
  }

  lemma PrintedLineIsDelivered(p: Printed, fits: seq<Gps.Text> -> bool)
    requires p.Valid(fits) && |p.Line()| < Gps.LINE_MAX - 1
    ensures Gps.OneLine(p.Line() + [Gps.RETURN]) && Gps.Handed(p.Line() + [Gps.RETURN]) == [p.Line()]
  {
    RmcParser.JoinIsClean(p.fields.closed);
    var payload := RmcParser.Join(p.fields);
    var checksum := RmcParser.Checksum(payload);
    var tail := [RmcParser.STAR, RmcParser.HexDigit(checksum / 16), RmcParser.HexDigit(checksum % 16), Gps.RETURN];
    var line := p.Line() + [Gps.RETURN];
    assert line == [RmcParser.DOLLAR] + payload + tail;
    forall i | 0 <= i < |line| ensures line[i] != Gps.NEWLINE && line[i] != Gps.NUL {
      if 0 < i <= |payload| {
        assert RmcParser.IsPrintable(payload[i - 1]);
      }
    }
    assert line[..|line| - 1] == p.Line();
  }

  lemma OneMorePrinted(lines: seq<Gps.Text>, p: Printed, fits: seq<Gps.Text> -> bool, parse: Gps.Text -> Option<int>)
    requires p.Valid(fits) && |p.Line()| < Gps.LINE_MAX - 1 && parse(p.Line()) == SentenceUtc(p.Line(), fits)
    ensures Gps.OneLine(p.Line() + [Gps.RETURN]) && 0 < UtcOf(p.moment)
    ensures Gps.Carried(Gps.Delivered(lines + [p.Line() + [Gps.RETURN]]), parse)
            == Gps.Carried(Gps.Delivered(lines), parse) + [UtcOf(p.moment)]
  {
    var line := p.Line() + [Gps.RETURN];
    PrintedLineIsDelivered(p, fits);
    PrintedSentenceCarriesItsMoment(p, fits);
    assert (lines + [line])[..|lines|] == lines;
    Gps.CarriedAppend(Gps.Delivered(lines), p.Line(), parse);
  }

  lemma {:induction false} PrintedLines(ps: seq<Printed>, fits: seq<Gps.Text> -> bool, parse: Gps.Text -> Option<int>)
    requires AllPrintable(ps, fits) && forall line :: parse(line) == SentenceUtc(line, fits)
    ensures Gps.Carried(Gps.Delivered(WireLines(ps)), parse) == Moments(ps, fits)
  {
    if ps == [] {
    } else {
      var rest, last := ps[..|ps| - 1], ps[|ps| - 1];
      assert AllPrintable(rest, fits) && last in ps;
      PrintedLines(rest, fits, parse);
      OneMorePrinted(WireLines(rest), last, fits, parse);
    }
  }

  lemma {:induction false} PrintedLinesAreLines(ps: seq<Printed>, fits: seq<Gps.Text> -> bool)
    requires AllPrintable(ps, fits)
    ensures forall k :: 0 <= k < |WireLines(ps)| ==> Gps.OneLine(WireLines(ps)[k])
  {
    if ps == [] {
    } else {
      var rest, last := ps[..|ps| - 1], ps[|ps| - 1];
      assert AllPrintable(rest, fits) && last in ps;
      PrintedLinesAreLines(rest, fits);
      PrintedLineIsDelivered(last, fits);
    }
  }

  lemma {:induction false} MomentsArePositive(ps: seq<Printed>, fits: seq<Gps.Text> -> bool)
    requires AllPrintable(ps, fits)
    ensures forall t :: t in Moments(ps, fits) ==> 0 < t
  {
    if ps == [] {
    } else {
      var rest, last := ps[..|ps| - 1], ps[|ps| - 1];
      assert AllPrintable(rest, fits) && last in ps;
      MomentsArePositive(rest, fits);
      PrintedSentenceCarriesItsMoment(last, fits);
    }
  }

  lemma {:induction false} KeptAll(os: seq<Gps.Observation>)
    requires forall o :: o in os ==> 0 < o.utcMs
    ensures Kept(os) == os
  {
    if os == [] {
    } else {
      KeptAll(os[..|os| - 1]);
    }
  }

  /** End to end: when a receiver prints valid sentences, a burst for each, the clock observes
      exactly the moments printed, in order. */
  lemma PrintedMomentsReachTheClock(ps: seq<Printed>, fits: seq<Gps.Text> -> bool, parse: Gps.Text -> Option<int>,
                                    bytes: Gps.Text, times: seq<int>)
    requires AllPrintable(ps, fits) && forall line :: parse(line) == SentenceUtc(line, fits)
    requires bytes == Gps.Stream(WireLines(ps)) && |bytes| == |times|
    requires Gps.Timeline(times) && Gps.BurstPerLine(bytes, times)
    ensures var os := Gps.Observations(bytes, times, parse, |bytes|);
            Gps.Utcs(os) == Moments(ps, fits) && Kept(os) == os
  {
    var os := Gps.Observations(bytes, times, parse, |bytes|);
    PrintedLines(ps, fits, parse);
    PrintedLinesAreLines(ps, fits);
    MomentsArePositive(ps, fits);
    Gps.LinesOfStream(WireLines(ps));
    Gps.ObservationsAreCarried(bytes, times, parse);
    forall o | o in os ensures 0 < o.utcMs {
      var k :| 0 <= k < |os| && os[k] == o;
      assert Gps.Utcs(os)[k] in Moments(ps, fits);
    }
    KeptAll(os);
  }
}
