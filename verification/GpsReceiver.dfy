/** The GPS byte reader (master-node/src/gps/gps_receiver.c): framing lines out of the byte stream,
    and pairing the first fix of every burst with the moment the burst began. The sentence
    parser is a parameter: it maps a line to the UTC it carries, if it carries one. */
module GpsReceiver {
  import opened CArithmetic
  import opened Wrappers
  import RmcParser

  const LINE_MAX := 128
  const BURST_GAP_US := 50_000
  const OUTPUT_DELAY_US := 0
  const NEWLINE: Byte := 0x0A
  const RETURN: Byte := 0x0D
  const NUL: Byte := 0

  type Text = RmcParser.Text

  /** A GPS time, the uptime it is dated to, and when the byte that completed it was read. */
  datatype Observation = Observation(utcMs: int, uptimeUs: int, readAtUs: int)

  // ---------------------------------------------------------------------------
  // Lines.
  // ---------------------------------------------------------------------------

  /** The line that is open after n bytes: what came since the last newline. */
  function OpenLine(bytes: Text, n: nat): Text
    requires n <= |bytes|
  {
    if n == 0 || bytes[n - 1] == NEWLINE then [] else OpenLine(bytes, n - 1) + [bytes[n - 1]]
  }

  predicate HasNul(line: Text) {
    exists i :: 0 <= i < |line| && line[i] == NUL
  }

  predicate Deliverable(line: Text) {
    |line| < LINE_MAX && !HasNul(line)
  }

  function StripReturn(line: Text): Text {
    if line != [] && line[|line| - 1] == RETURN then line[..|line| - 1] else line
  }

  /** What a finished line hands to the parser. */
  function Handed(line: Text): seq<Text> {
    if Deliverable(line) then [StripReturn(line)] else []
  }

  /** Byte i ends a line that is handed to the parser. */
  predicate EndsLine(bytes: Text, i: nat)
    requires i < |bytes|
  {
    bytes[i] == NEWLINE && Deliverable(OpenLine(bytes, i))
  }

  function LineAt(bytes: Text, i: nat): Text
    requires i < |bytes|
  {
    StripReturn(OpenLine(bytes, i))
  }

  /** What byte i hands to the parser. */
  function Ended(bytes: Text, i: nat): seq<Text>
    requires i < |bytes|
  {
    if bytes[i] == NEWLINE then Handed(OpenLine(bytes, i)) else []
  }

  /** The lines handed to the parser for the first n bytes. */
  function Lines(bytes: Text, n: nat): seq<Text>
    requires n <= |bytes|
  {
    Collect(EndedBy(bytes), n)
  }

  function AllLines(bytes: Text): seq<Text> {
    Lines(bytes, |bytes|)
  }

  function EndedBy(bytes: Text): nat -> seq<Text> {
    (i: nat) => if i < |bytes| then Ended(bytes, i) else []
  }

  function Collect<T>(piece: nat -> seq<T>, n: nat): seq<T> {
    if n == 0 then [] else Collect(piece, n - 1) + piece(n - 1)
  }

  ghost predicate Continues<T>(whole: nat -> seq<T>, part: nat -> seq<T>, g: nat, n: nat) {
    forall i {:trigger part(i)} :: 0 <= i < n ==> whole(g + i) == part(i)
  }

  lemma {:induction false} CollectGoesOn<T>(whole: nat -> seq<T>, part: nat -> seq<T>, g: nat, n: nat)
    requires Continues(whole, part, g, n)
    ensures Collect(whole, g + n) == Collect(whole, g) + Collect(part, n)
  {
    if n == 0 {
    } else {
      CollectGoesOn(whole, part, g, n - 1);
      assert whole(g + (n - 1)) == part(n - 1);
      Reassociate(Collect(whole, g), Collect(part, n - 1), part(n - 1));
    }
  }

  lemma Reassociate<T>(a: seq<T>, b: seq<T>, c: seq<T>)
    ensures (a + b) + c == a + (b + c)
  {
  }

  /** From byte g on, t reads s, and byte g begins a line. */
  predicate GoesOn(t: Text, g: nat, s: Text) {
    && g + |s| == |t| && (g == 0 || t[g - 1] == NEWLINE)
    && forall i :: 0 <= i < |s| ==> t[g + i] == s[i]
  }

  lemma {:induction false} SameLine(t: Text, g: nat, s: Text, n: nat)
    requires n <= |s| && GoesOn(t, g, s)
    ensures OpenLine(t, g + n) == OpenLine(s, n)
  {
    if n == 0 {
    } else {
      SameLine(t, g, s, n - 1);
      assert t[g + (n - 1)] == s[n - 1];
    }
  }

  lemma SamePieces(t: Text, g: nat, s: Text, n: nat)
    requires n <= |s| && GoesOn(t, g, s)
    ensures Continues(EndedBy(t), EndedBy(s), g, n)
  {
    forall i | 0 <= i < n ensures EndedBy(t)(g + i) == EndedBy(s)(i) {
      SameLine(t, g, s, i);
      assert t[g + i] == s[i];
    }
  }

  lemma LinesGoOn(t: Text, g: nat, s: Text, n: nat)
    requires n <= |s| && GoesOn(t, g, s)
    ensures Lines(t, g + n) == Lines(t, g) + Lines(s, n)
  {
    SamePieces(t, g, s, n);
    CollectGoesOn(EndedBy(t), EndedBy(s), g, n);
  }

  /** After a newline, framing starts over: what went before cannot matter. */
  lemma FramingStartsOver(garbage: Text, s: Text, n: nat)
    requires n <= |s| && (garbage == [] || garbage[|garbage| - 1] == NEWLINE)
    ensures Lines(garbage + s, |garbage| + n) == Lines(garbage, |garbage|) + Lines(s, n)
  {
    LinesGoOn(garbage + s, |garbage|, s, n);
    LinesOfPrefix(garbage, s, |garbage|);
  }

  lemma {:induction false} LinesOfPrefix(a: Text, b: Text, n: nat)
    requires n <= |a|
    ensures OpenLine(a + b, n) == OpenLine(a, n) && Lines(a + b, n) == Lines(a, n)
  {
    if n == 0 {
    } else {
      LinesOfPrefix(a, b, n - 1);
      assert (a + b)[n - 1] == a[n - 1];
    }
  }

  predicate OneLine(line: Text) {
    forall i :: 0 <= i < |line| ==> line[i] != NEWLINE
  }

  /** The byte stream of a list of lines, each ended by a newline. */
  function Stream(lines: seq<Text>): (s: Text)
    ensures s == [] || s[|s| - 1] == NEWLINE
  {
    if lines == [] then [] else Stream(lines[..|lines| - 1]) + (lines[|lines| - 1] + [NEWLINE])
  }

  function Delivered(lines: seq<Text>): seq<Text> {
    if lines == [] then [] else Delivered(lines[..|lines| - 1]) + Handed(lines[|lines| - 1])
  }

  /** Every stream is a list of newline-terminated lines and an unfinished one: the parser gets
      exactly the lines of at most 127 bytes without a NUL, less one trailing return, in order. */
  lemma {:induction false} LinesOfStream(lines: seq<Text>)
    requires forall k :: 0 <= k < |lines| ==> OneLine(lines[k])
    ensures AllLines(Stream(lines)) == Delivered(lines)
  {
    if lines == [] {
    } else {
      var before, last := Stream(lines[..|lines| - 1]), lines[|lines| - 1];
      LinesOfStream(lines[..|lines| - 1]);
      assert OneLine(last);
      OneMoreLine(before, last);
    }
  }

  lemma OneMoreLine(before: Text, line: Text)
    requires OneLine(line) && (before == [] || before[|before| - 1] == NEWLINE)
    ensures AllLines(before + (line + [NEWLINE])) == AllLines(before) + Handed(line)
  {
    LinesOfOne(line);
    AllLinesGoOn(before, line + [NEWLINE]);
  }

  lemma AllLinesGoOn(a: Text, b: Text)
    requires a == [] || a[|a| - 1] == NEWLINE
    ensures AllLines(a + b) == AllLines(a) + AllLines(b)
  {
    FramingStartsOver(a, b, |b|);
  }

  lemma LinesOfOne(line: Text)
    requires OneLine(line)
    ensures AllLines(line + [NEWLINE]) == Handed(line)
  {
    var s := line + [NEWLINE];
    UnfinishedLine(s, |line|);
    assert s[..|line|] == line;
  }

  lemma {:induction false} UnfinishedLine(s: Text, n: nat)
    requires n <= |s| && forall i :: 0 <= i < n ==> s[i] != NEWLINE
    ensures OpenLine(s, n) == s[..n] && Lines(s, n) == []
  {
    if n == 0 {
    } else {
      UnfinishedLine(s, n - 1);
    }
  }

  lemma {:induction false} OpenLineIs(bytes: Text, start: nat, n: nat)
    requires start <= n <= |bytes| && (start == 0 || bytes[start - 1] == 10)
    requires forall k :: start <= k < n ==> bytes[k] != 10
    ensures OpenLine(bytes, n) == bytes[start..n]
  {
    if n == start {
    } else {
      OpenLineIs(bytes, start, n - 1);
      assert bytes[start..n] == bytes[start..n - 1] + [bytes[n - 1]];
    }
  }

  /** In bytes: the newline at i ends the line that began at `start`. The parser gets it, without one
      return at its end, if and only if it has at most 127 bytes and none of them is 0. */
  lemma LineInBytes(bytes: Text, start: nat, i: nat)
    requires start <= i < |bytes| && (start == 0 || bytes[start - 1] == 10)
    requires forall k :: start <= k < i ==> bytes[k] != 10
    ensures bytes[i] != 10 ==> Ended(bytes, i) == []
    ensures bytes[i] == 10 ==>
              Ended(bytes, i)
              == if i - start > 127 || (exists k :: start <= k < i && bytes[k] == 0) then []
                 else if start < i && bytes[i - 1] == 13 then [bytes[start..i - 1]]
                 else [bytes[start..i]]
  {
    OpenLineIs(bytes, start, i);
    var line := bytes[start..i];
    if k :| start <= k < i && bytes[k] == 0 {
      assert line[k - start] == 0;
    }
    assert line != [] ==> line[|line| - 1] == bytes[i - 1] && line[..|line| - 1] == bytes[start..i - 1];
  }

  // ---------------------------------------------------------------------------
  // Bursts.
  // ---------------------------------------------------------------------------

  predicate StartsBurst(times: seq<int>, i: nat)
    requires i < |times|
  {
    i == 0 || times[i] - times[i - 1] >= BURST_GAP_US
  }

  /** When the burst that byte i belongs to began. */
  function BurstTime(times: seq<int>, i: nat): int
    requires i < |times|
  {
    if StartsBurst(times, i) then times[i] else BurstTime(times, i - 1)
  }

  /** Reception times as the timer gives them: positive and never decreasing. */
  predicate Timeline(times: seq<int>) {
    && (|times| > 0 ==> 0 < times[0])
    && forall i :: 0 < i < |times| ==> NotBefore(times, i)
  }

  predicate NotBefore(times: seq<int>, i: nat)
    requires 0 < i < |times|
  {
    times[i - 1] <= times[i]
  }

  lemma {:induction false} BurstTimes(times: seq<int>, j: nat, i: nat)
    requires j <= i < |times| && Timeline(times)
    ensures 0 < BurstTime(times, i) <= times[i] && 0 < times[j] <= times[i]
    ensures BurstTime(times, j) <= BurstTime(times, i)
    ensures BurstTime(times, j) < BurstTime(times, i) ==> times[j] + BURST_GAP_US <= BurstTime(times, i)
  {
    if i == 0 {
    } else {
      assert NotBefore(times, i);
      if j < i {
        BurstTimes(times, j, i - 1);
      } else {
        BurstTimes(times, i - 1, i - 1);
      }
    }
  }

  /** Byte i ends a line that carries a UTC. */
  predicate IsFix(bytes: Text, parse: Text -> Option<int>, i: nat)
    requires i < |bytes|
  {
    EndsLine(bytes, i) && parse(LineAt(bytes, i)).Some?
  }

  /** The fixes that set the clock: the first of every burst. */
  ghost predicate SetsClock(bytes: Text, times: seq<int>, parse: Text -> Option<int>, i: nat)
    requires i < |bytes| == |times|
  {
    && IsFix(bytes, parse, i)
    && forall j :: 0 <= j < i && IsFix(bytes, parse, j) ==> BurstTime(times, j) != BurstTime(times, i)
  }

  ghost function Observations(bytes: Text, times: seq<int>, parse: Text -> Option<int>, n: nat): seq<Observation>
    requires n <= |bytes| == |times|
  {
    Collect(ObservedBy(bytes, times, parse), n)
  }

  ghost function ObservedBy(bytes: Text, times: seq<int>, parse: Text -> Option<int>): nat -> seq<Observation>
    requires |bytes| == |times|
  {
    (i: nat) => if i < |bytes| then Observed(bytes, times, parse, i) else []
  }

  /** What byte i tells the clock. */
  ghost function Observed(bytes: Text, times: seq<int>, parse: Text -> Option<int>, i: nat): seq<Observation>
    requires i < |bytes| == |times|
  {
    if SetsClock(bytes, times, parse, i)
    then [Observation(parse(LineAt(bytes, i)).value, BurstTime(times, i) - OUTPUT_DELAY_US, times[i])]
    else []
  }

  /** One of the first n bytes ended a fix in the burst that began at `start`. */
  ghost predicate BurstFixed(bytes: Text, times: seq<int>, parse: Text -> Option<int>, n: nat, start: int)
    requires n <= |bytes| == |times|
  {
    exists j :: 0 <= j < n && IsFix(bytes, parse, j) && BurstTime(times, j) == start
  }

  /** An observation is dated to the start of a burst that has had a fix among the first n bytes. */
  ghost predicate DatesBurst(bytes: Text, times: seq<int>, parse: Text -> Option<int>, n: nat, o: Observation)
    requires n <= |bytes| == |times|
  {
    BurstFixed(bytes, times, parse, n, o.uptimeUs + OUTPUT_DELAY_US)
  }

  ghost predicate AllDateBursts(bytes: Text, times: seq<int>, parse: Text -> Option<int>, n: nat, os: seq<Observation>)
    requires n <= |bytes| == |times|
  {
    forall a :: 0 <= a < |os| ==> DatesBurst(bytes, times, parse, n, os[a])
  }

  predicate Spaced(os: seq<Observation>) {
    forall a, b :: 0 <= a < b < |os| ==> os[a].uptimeUs + BURST_GAP_US <= os[b].uptimeUs
  }

  lemma EarlierBurst(bytes: Text, times: seq<int>, parse: Text -> Option<int>, i: nat, o: Observation)
    requires i < |bytes| == |times| && Timeline(times)
    requires DatesBurst(bytes, times, parse, i, o)
    ensures DatesBurst(bytes, times, parse, i + 1, o)
    ensures SetsClock(bytes, times, parse, i) ==> o.uptimeUs + BURST_GAP_US <= BurstTime(times, i) - OUTPUT_DELAY_US
  {
    var j :| 0 <= j < i && IsFix(bytes, parse, j) && BurstTime(times, j) == o.uptimeUs + OUTPUT_DELAY_US;
    BurstTimes(times, j, i);
    BurstTimes(times, j, j);
  }

  lemma EarlierBursts(bytes: Text, times: seq<int>, parse: Text -> Option<int>, i: nat, os: seq<Observation>)
    requires i < |bytes| == |times| && Timeline(times) && AllDateBursts(bytes, times, parse, i, os)
    ensures AllDateBursts(bytes, times, parse, i + 1, os)
    ensures SetsClock(bytes, times, parse, i) ==>
              forall a :: 0 <= a < |os| ==> os[a].uptimeUs + BURST_GAP_US <= BurstTime(times, i) - OUTPUT_DELAY_US
  {
    forall a | 0 <= a < |os|
      ensures DatesBurst(bytes, times, parse, i + 1, os[a])
      ensures SetsClock(bytes, times, parse, i) ==>
                os[a].uptimeUs + BURST_GAP_US <= BurstTime(times, i) - OUTPUT_DELAY_US
    {
      assert DatesBurst(bytes, times, parse, i, os[a]);
      EarlierBurst(bytes, times, parse, i, os[a]);
    }
  }

  /** The uptimes observed are strictly increasing, a burst gap apart: at most one observation
      per burst, whatever the bytes. */
  lemma {:induction false} ObservationsAreSpaced(bytes: Text, times: seq<int>, parse: Text -> Option<int>, n: nat)
    requires n <= |bytes| == |times| && Timeline(times)
    ensures Spaced(Observations(bytes, times, parse, n))
    ensures AllDateBursts(bytes, times, parse, n, Observations(bytes, times, parse, n))
  {
    if n == 0 {
    } else {
      var i := n - 1;
      var os := Observations(bytes, times, parse, i);
      ObservationsAreSpaced(bytes, times, parse, i);
      EarlierBursts(bytes, times, parse, i, os);
    }
  }

  /** Every observation is dated before it was read, and after power-on. */
  lemma {:induction false} ObservationsAreDatedBack(bytes: Text, times: seq<int>, parse: Text -> Option<int>, n: nat)
    requires n <= |bytes| == |times| && Timeline(times)
    ensures forall o :: o in Observations(bytes, times, parse, n) ==> 0 < o.uptimeUs <= o.readAtUs
  {
    if n == 0 {
    } else {
      ObservationsAreDatedBack(bytes, times, parse, n - 1);
      BurstTimes(times, n - 1, n - 1);
    }
  }

  lemma {:induction false} BurstBegins(times: seq<int>, first: nat, i: nat)
    requires first <= i < |times| && (first == 0 || times[first] - times[first - 1] >= 50_000)
    requires forall k :: first < k <= i ==> times[k] - times[k - 1] < 50_000
    ensures BurstTime(times, i) == times[first]
  {
    if i > first {
      assert times[i] - times[i - 1] < 50_000;
      BurstBegins(times, first, i - 1);
    }
  }

  /** In microseconds: bytes `first` to i have less than 50 ms between them and at least 50 ms before
      them. Byte i sets the clock if and only if it is the first of them to end a line with a UTC, and
      that is dated to the first byte, without any correction. */
  lemma ObservedInBurst(bytes: Text, times: seq<int>, parse: Text -> Option<int>, first: nat, i: nat)
    requires first <= i < |bytes| == |times| && Timeline(times)
    requires first == 0 || times[first] - times[first - 1] >= 50_000
    requires forall k :: first < k <= i ==> times[k] - times[k - 1] < 50_000
    ensures Observed(bytes, times, parse, i)
            == if IsFix(bytes, parse, i) && forall j :: first <= j < i ==> !IsFix(bytes, parse, j)
               then [Observation(parse(LineAt(bytes, i)).value, times[first], times[i])] else []
  {
    BurstBegins(times, first, i);
    forall j | 0 <= j < i ensures BurstTime(times, j) == BurstTime(times, i) <==> first <= j {
      if first <= j {
        BurstBegins(times, first, j);
      } else {
        BurstTimes(times, j, first - 1);
        BurstTimes(times, first - 1, first - 1);
      }
    }
  }

  /** Every observation carries a time that some line was parsed to. */
  lemma {:induction false} EveryObservationWasParsed(bytes: Text, times: seq<int>, parse: Text -> Option<int>, n: nat,
                                                     o: Observation) returns (line: Text)
    requires n <= |bytes| == |times| && o in Observations(bytes, times, parse, n)
    ensures parse(line) == Some(o.utcMs)
  {
    if o in Observations(bytes, times, parse, n - 1) {
      line := EveryObservationWasParsed(bytes, times, parse, n - 1, o);
    } else {
      line := LineAt(bytes, n - 1);
      assert o in Observed(bytes, times, parse, n - 1);
    }
  }

  // ---------------------------------------------------------------------------
  // One burst for every line.
  // ---------------------------------------------------------------------------

  /** Where the line that is open after n bytes begins: just after the last newline. */
  function LineStart(bytes: Text, n: nat): (start: nat)
    requires n <= |bytes|
    ensures start <= n
  {
    if n == 0 || bytes[n - 1] == NEWLINE then n else LineStart(bytes, n - 1)
  }

  /** The receiver pauses before every line, and only there. */
  predicate BurstPerLine(bytes: Text, times: seq<int>)
    requires |bytes| == |times|
  {
    forall i {:trigger StartsBurst(times, i)} :: 0 <= i < |bytes| ==>
      (StartsBurst(times, i) <==> i == 0 || bytes[i - 1] == NEWLINE)
  }

  lemma {:induction false} LineBegins(bytes: Text, n: nat)
    requires n <= |bytes|
    ensures LineStart(bytes, LineStart(bytes, n)) == LineStart(bytes, n)
    ensures forall i :: LineStart(bytes, n) <= i < n ==> bytes[i] != NEWLINE
  {
    if n > 0 && bytes[n - 1] != NEWLINE {
      LineBegins(bytes, n - 1);
    }
  }

  lemma {:induction false} BurstIsLine(bytes: Text, times: seq<int>, i: nat)
    requires i < |bytes| == |times| && BurstPerLine(bytes, times)
    ensures BurstTime(times, i) == times[LineStart(bytes, i)]
  {
    if !StartsBurst(times, i) {
      BurstIsLine(bytes, times, i - 1);
    }
  }

  /** Then every fix sets the clock, dated to the first byte of its line. */
  lemma {:induction false} EveryFixSetsClock(bytes: Text, times: seq<int>, parse: Text -> Option<int>, i: nat)
    requires i < |bytes| == |times| && Timeline(times) && BurstPerLine(bytes, times)
    ensures SetsClock(bytes, times, parse, i) <==> IsFix(bytes, parse, i)
    ensures BurstTime(times, i) == times[LineStart(bytes, i)]
  {
    var start := LineStart(bytes, i);
    BurstIsLine(bytes, times, i);
    LineBegins(bytes, i);
    assert StartsBurst(times, start);
    forall j | 0 <= j < i && IsFix(bytes, parse, j) ensures BurstTime(times, j) != BurstTime(times, i) {
      assert j < start;
      BurstTimes(times, j, start - 1);
      BurstTimes(times, start - 1, start - 1);
    }
  }

  /** The times carried by lines, in order, as far as they carry one. */
  function Carried(lines: seq<Text>, parse: Text -> Option<int>): seq<int> {
    CarriedUpTo(lines, parse, |lines|)
  }

  function CarriedUpTo(lines: seq<Text>, parse: Text -> Option<int>, n: nat): seq<int>
    requires n <= |lines|
  {
    if n == 0 then [] else CarriedUpTo(lines, parse, n - 1) + CarriedBy(lines[n - 1], parse)
  }

  function CarriedBy(line: Text, parse: Text -> Option<int>): seq<int> {
    if parse(line).Some? then [parse(line).value] else []
  }

  lemma {:induction false} CarriedPrefix(lines: seq<Text>, more: seq<Text>, parse: Text -> Option<int>, n: nat)
    requires n <= |lines|
    ensures CarriedUpTo(lines + more, parse, n) == CarriedUpTo(lines, parse, n)
  {
    if n == 0 {
    } else {
      CarriedPrefix(lines, more, parse, n - 1);
      assert (lines + more)[n - 1] == lines[n - 1];
    }
  }

  lemma CarriedAppend(lines: seq<Text>, line: Text, parse: Text -> Option<int>)
    ensures Carried(lines + [line], parse) == Carried(lines, parse) + CarriedBy(line, parse)
  {
    CarriedPrefix(lines, [line], parse, |lines|);
  }

  function Utcs(os: seq<Observation>): seq<int> {
    seq(|os|, i requires 0 <= i < |os| => os[i].utcMs)
  }

  lemma UtcsConcatenate(a: seq<Observation>, b: seq<Observation>)
    ensures Utcs(a + b) == Utcs(a) + Utcs(b)
  {
  }

  /** The line that byte i ends, if any, carries what byte i tells the clock, if anything. */
  predicate Carries(lines: seq<Text>, os: seq<Observation>, parse: Text -> Option<int>) {
    |lines| <= 1 && Utcs(os) == if lines == [] then [] else CarriedBy(lines[0], parse)
  }

  lemma EveryByteCarries(bytes: Text, times: seq<int>, parse: Text -> Option<int>, i: nat)
    requires i < |bytes| == |times| && Timeline(times) && BurstPerLine(bytes, times)
    ensures Carries(Ended(bytes, i), Observed(bytes, times, parse, i), parse)
  {
    EveryFixSetsClock(bytes, times, parse, i);
  }

  lemma CarriedOneMore(lines: seq<Text>, os: seq<Observation>, more: seq<Text>, seen: seq<Observation>,
                       parse: Text -> Option<int>)
    requires Utcs(os) == Carried(lines, parse) && Carries(more, seen, parse)
    ensures Utcs(os + seen) == Carried(lines + more, parse)
  {
    UtcsConcatenate(os, seen);
    if more == [] {
      assert lines + more == lines;
    } else {
      assert more == [more[0]];
      CarriedAppend(lines, more[0], parse);
    }
  }

  lemma {:induction false} CollectedCarry(piece: nat -> seq<Text>, observed: nat -> seq<Observation>,
                                          parse: Text -> Option<int>, n: nat)
    requires forall i {:trigger piece(i)} :: 0 <= i < n ==> Carries(piece(i), observed(i), parse)
    ensures Utcs(Collect(observed, n)) == Carried(Collect(piece, n), parse)
  {
    if n == 0 {
    } else {
      CollectedCarry(piece, observed, parse, n - 1);
      CarriedOneMore(Collect(piece, n - 1), Collect(observed, n - 1), piece(n - 1), observed(n - 1), parse);
    }
  }

  /** With one burst for every line, the observations are exactly the times that the delivered
      lines carry, in order. */
  lemma ObservationsAreCarried(bytes: Text, times: seq<int>, parse: Text -> Option<int>)
    requires |bytes| == |times| && Timeline(times) && BurstPerLine(bytes, times)
    ensures Utcs(Observations(bytes, times, parse, |bytes|)) == Carried(Lines(bytes, |bytes|), parse)
  {
    var piece, observed := EndedBy(bytes), ObservedBy(bytes, times, parse);
    forall i | 0 <= i < |bytes| ensures Carries(piece(i), observed(i), parse) {
      EveryByteCarries(bytes, times, parse, i);
    }
    CollectedCarry(piece, observed, parse, |bytes|);
  }

  // ---------------------------------------------------------------------------
  // The reader.
  // ---------------------------------------------------------------------------

  /** The line buffer: it holds the open line while that can still be delivered. */
  class LineBuffer {
    const line: array<Byte>
    var length: nat
    var overflow: bool

    ghost predicate Holds(open: Text)
      reads this, line
    {
      && line.Length == LINE_MAX && length < LINE_MAX
      && overflow == !Deliverable(open)
      && (!overflow ==> line[..length] == open)
    }

    constructor ()
      ensures Holds([]) && fresh(line)
    {
      line := new Byte[LINE_MAX](_ => 0);
      length, overflow := 0, false;
    }

    method Append(b: Byte, ghost open: Text)
      requires Holds(open) && b != NEWLINE
      modifies this, line
      ensures Holds(open + [b])
    {
      assert HasNul(open) ==> HasNul(open + [b]) by {
        if i :| 0 <= i < |open| && open[i] == NUL { assert (open + [b])[i] == NUL; }
      }
      assert HasNul(open + [b]) ==> HasNul(open) || b == NUL by {
        if i :| 0 <= i < |open + [b]| && (open + [b])[i] == NUL { assert i == |open| || open[i] == NUL; }
      }
      if b == NUL {
        assert (open + [b])[|open|] == NUL;
        overflow := true;
      } else if length < LINE_MAX - 1 {
        line[length] := b;
        length := length + 1;
        assert !overflow ==> line[..length] == open + [b];
      } else {
        overflow := true;
      }
    }

    /** A newline: the finished line, if it may be delivered; the buffer is empty again. */
    method Finish(ghost open: Text) returns (finished: Option<Text>)
      requires Holds(open)
      modifies this, line
      ensures Holds([])
      ensures finished == if Deliverable(open) then Some(StripReturn(open)) else None
    {
      if length > 0 && line[length - 1] == RETURN {
        length := length - 1;
      }
      ghost var kept := line[..length];
      line[length] := NUL;
      assert line[..length] == kept;
      assert !overflow ==> kept == StripReturn(open);
      finished := if overflow then None else Some(line[..length]);
      length, overflow := 0, false;
      assert Deliverable([]);
    }
  }

  /** The loop over received bytes. `burstStartUs` is 0 once the burst has set the clock. */
  method ReadSentences(bytes: Text, times: seq<int>, parse: Text -> Option<int>)
    returns (lines: seq<Text>, observations: seq<Observation>)
    requires |bytes| == |times| && Timeline(times)
    ensures lines == Lines(bytes, |bytes|)
    ensures observations == Observations(bytes, times, parse, |bytes|)
  {
    lines, observations := [], [];
    var buffer := new LineBuffer();
    var burstStartUs, previousByteUs := 0, 0;
    for i := 0 to |bytes|
      invariant buffer.Holds(OpenLine(bytes, i)) && fresh(buffer) && fresh(buffer.line)
      invariant lines == Lines(bytes, i) && observations == Observations(bytes, times, parse, i)
      invariant previousByteUs == if i == 0 then 0 else times[i - 1]
      invariant 0 < i ==> burstStartUs == BurstPending(bytes, times, parse, i)
    {
      var handed, seen;
      handed, seen, burstStartUs := TakeByte(buffer, bytes, times, parse, i, previousByteUs, burstStartUs);
      previousByteUs := times[i];
      lines, observations := lines + handed, observations + seen;
    }
  }

  /** One byte: into the line, or at its end to the parser. */
  method TakeByte(buffer: LineBuffer, bytes: Text, times: seq<int>, parse: Text -> Option<int>, i: nat,
                  previousByteUs: int, burstStartUs: int)
    returns (handed: seq<Text>, seen: seq<Observation>, nextStartUs: int)
    requires i < |bytes| == |times| && Timeline(times) && buffer.Holds(OpenLine(bytes, i))
    requires previousByteUs == if i == 0 then 0 else times[i - 1]
    requires 0 < i ==> burstStartUs == BurstPending(bytes, times, parse, i)
    modifies buffer, buffer.line
    ensures buffer.Holds(OpenLine(bytes, i + 1))
    ensures handed == Ended(bytes, i) && seen == Observed(bytes, times, parse, i)
    ensures nextStartUs == BurstPending(bytes, times, parse, i + 1)
  {
    nextStartUs := StartBurst(bytes, times, parse, i, previousByteUs, burstStartUs);
    if bytes[i] == NEWLINE {
      var finished := buffer.Finish(OpenLine(bytes, i));
      handed, seen, nextStartUs := HandOver(finished, bytes, times, parse, i, nextStartUs);
    } else {
      FixStep(bytes, times, parse, i);
      buffer.Append(bytes[i], OpenLine(bytes, i));
      handed, seen := [], [];
    }
  }

  /** A finished line goes to the parser; the first fix of a burst sets the clock. */
  method HandOver(finished: Option<Text>, ghost bytes: Text, times: seq<int>, parse: Text -> Option<int>, i: nat,
                  burstStartUs: int) returns (handed: seq<Text>, seen: seq<Observation>, nextStartUs: int)
    requires i < |bytes| == |times| && bytes[i] == NEWLINE && 0 < BurstTime(times, i)
    requires finished == if Deliverable(OpenLine(bytes, i)) then Some(StripReturn(OpenLine(bytes, i))) else None
    requires burstStartUs
             == if BurstFixed(bytes, times, parse, i, BurstTime(times, i)) then 0 else BurstTime(times, i)
    ensures handed == Ended(bytes, i) && seen == Observed(bytes, times, parse, i)
    ensures nextStartUs == BurstPending(bytes, times, parse, i + 1)
  {
    FixStep(bytes, times, parse, i);
    handed, seen, nextStartUs := [], [], burstStartUs;
    if finished.Some? {
      handed := [finished.value];
      var utc := parse(finished.value);
      if utc.Some? && burstStartUs != 0 {
        seen := [Observation(utc.value, burstStartUs - OUTPUT_DELAY_US, times[i])];
        nextStartUs := 0;
      }
    }
  }

  lemma FixStep(bytes: Text, times: seq<int>, parse: Text -> Option<int>, i: nat)
    requires i < |bytes| == |times|
    ensures var start := BurstTime(times, i);
            && (BurstFixed(bytes, times, parse, i + 1, start)
                <==> BurstFixed(bytes, times, parse, i, start) || IsFix(bytes, parse, i))
            && (SetsClock(bytes, times, parse, i)
                <==> IsFix(bytes, parse, i) && !BurstFixed(bytes, times, parse, i, start))
  {
  }

  /** The start of the present burst, or 0 if it has set the clock already. */
  ghost function BurstPending(bytes: Text, times: seq<int>, parse: Text -> Option<int>, n: nat): int
    requires 0 < n <= |bytes| == |times|
  {
    var start := BurstTime(times, n - 1);
    if BurstFixed(bytes, times, parse, n, start) then 0 else start
  }

  /** A byte after a gap starts a new burst. */
  method StartBurst(ghost bytes: Text, times: seq<int>, ghost parse: Text -> Option<int>, i: nat,
                    previousByteUs: int, burstStartUs: int) returns (startUs: int)
    requires i < |bytes| == |times| && Timeline(times)
    requires previousByteUs == if i == 0 then 0 else times[i - 1]
    requires 0 < i ==> burstStartUs == BurstPending(bytes, times, parse, i)
    ensures startUs == if BurstFixed(bytes, times, parse, i, BurstTime(times, i)) then 0 else BurstTime(times, i)
    ensures 0 < BurstTime(times, i)
  {
    BurstTimes(times, i, i);
    if 0 < i {
      BurstTimes(times, i - 1, i - 1);
    }
    startUs := burstStartUs;
    if previousByteUs == 0 || times[i] - previousByteUs >= BURST_GAP_US {
      NewBurstIsUnused(bytes, times, parse, i);
      startUs := times[i];
    }
  }

  lemma NewBurstIsUnused(bytes: Text, times: seq<int>, parse: Text -> Option<int>, i: nat)
    requires i < |bytes| == |times| && Timeline(times) && StartsBurst(times, i)
    ensures !BurstFixed(bytes, times, parse, i, BurstTime(times, i))
  {
    forall j | 0 <= j < i ensures BurstTime(times, j) < BurstTime(times, i) {
      BurstTimes(times, j, i - 1);
    }
  }
}
