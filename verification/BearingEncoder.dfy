/** The quadrature bearing encoder (sensor-node/src/sensors/bearing_encoder.c): edge decoding in
    the interrupt, a ring of the last five reads, and a rounded speed over that window. */
module BearingEncoder {
  import opened CArithmetic

  const COUNTS_PER_REVOLUTION := 128
  const WINDOW_SAMPLES := 5
  const STOP_TIMEOUT_US := 100_000
  const INT32_MAX := 0x7FFF_FFFF
  const INT32_MIN := -0x8000_0000
  const TRANSITIONS: seq<int> := [0, -1, 1, 0, 1, 0, 0, -1, -1, 0, 0, 1, 0, 1, -1, 0]

  /** The levels of the two inputs: A is bit 1, B is bit 0. */
  type Level = x: nat | x < 4

  function Transition(previous: Level, current: Level): int {
    TRANSITIONS[previous * 4 + current]
  }

  /** Where a level sits in the Gray cycle 0, 2, 3, 1 that the decoder counts upward. */
  function GrayPosition(level: Level): nat {
    [0, 3, 1, 2][level]
  }

  // ---------------------------------------------------------------------------
  // Speed.
  // ---------------------------------------------------------------------------

  function Rounded(numerator: int, denominator: int): int
    requires 0 < denominator
  {
    if numerator > 0 then TruncDiv(numerator + denominator / 2, denominator)
    else TruncDiv(numerator - denominator / 2, denominator)
  }

  function CalculateRpm(counts: int, elapsedUs: int): int {
    if elapsedUs <= 0 || counts == 0 then 0
    else
      var rounded := Rounded(counts * US_PER_MINUTE, COUNTS_PER_REVOLUTION * elapsedUs);
      if rounded > INT32_MAX then INT32_MAX
      else if rounded < INT32_MIN then INT32_MIN
      else rounded
  }

  /** The quotient is the nearest integer, and reversing the direction reverses the sign. */
  lemma RoundedIsNearest(numerator: int, denominator: int)
    requires 0 < denominator
    ensures 2 * Abs(numerator - Rounded(numerator, denominator) * denominator) <= denominator
    ensures Rounded(-numerator, denominator) == -Rounded(numerator, denominator)
  {
    if numerator == 0 {
      QuotientUnique(denominator / 2, denominator, 0);
    }
    assert -(numerator - denominator / 2) == -numerator + denominator / 2;
  }

  /** A speed fits 32 bits, saturating at the nearer end, and follows the direction counted. */
  lemma RpmFits(counts: int, elapsedUs: int)
    ensures var rpm := CalculateRpm(counts, elapsedUs);
            && INT32_MIN <= rpm <= INT32_MAX
            && (0 < counts ==> 0 <= rpm) && (counts < 0 ==> rpm <= 0)
            && (elapsedUs <= 0 ==> rpm == 0)
            && (0 < elapsedUs && INT32_MIN < rpm < INT32_MAX ==>
                  2 * Abs(counts * US_PER_MINUTE - rpm * (COUNTS_PER_REVOLUTION * elapsedUs))
                  <= COUNTS_PER_REVOLUTION * elapsedUs)
  {
    if 0 < elapsedUs && counts != 0 {
      RoundedIsNearest(counts * US_PER_MINUTE, COUNTS_PER_REVOLUTION * elapsedUs);
    }
  }

  lemma RpmIsOdd(counts: int, elapsedUs: int)
    requires Abs(CalculateRpm(counts, elapsedUs)) < INT32_MAX
    ensures CalculateRpm(-counts, elapsedUs) == -CalculateRpm(counts, elapsedUs)
  {
    if 0 < elapsedUs && counts != 0 {
      RoundedIsNearest(counts * US_PER_MINUTE, COUNTS_PER_REVOLUTION * elapsedUs);
      assert (-counts) * US_PER_MINUTE == -(counts * US_PER_MINUTE);
    }
  }

  /** Five 32-bit counts cannot overflow the 64-bit numerator, rounding term included. */
  lemma NumeratorFits(counts: seq<int>, elapsedUs: int)
    requires |counts| <= WINDOW_SAMPLES
    requires forall c :: c in counts ==> INT32_MIN <= c <= INT32_MAX
    requires 0 < elapsedUs <= 0x7F_FFFF_FFFF_FFFF
    ensures Abs(Sum(counts) * US_PER_MINUTE) + COUNTS_PER_REVOLUTION * elapsedUs / 2 <= 0x7FFF_FFFF_FFFF_FFFF
  {
    SumBound(counts, 0x8000_0000);
    MulBound(Sum(counts), WINDOW_SAMPLES * 0x8000_0000, US_PER_MINUTE);
  }

  function Sum(s: seq<int>): int {
    if s == [] then 0 else Sum(s[..|s| - 1]) + s[|s| - 1]
  }

  lemma {:induction false} SumBound(s: seq<int>, bound: nat)
    requires forall x :: x in s ==> Abs(x) <= bound
    ensures Abs(Sum(s)) <= |s| * bound
  {
    if s == [] {
    } else {
      assert s[|s| - 1] in s;
      SumBound(s[..|s| - 1], bound);
      assert |s| * bound == (|s| - 1) * bound + bound;
    }
  }

  // ---------------------------------------------------------------------------
  // What the interrupts decoded.
  // ---------------------------------------------------------------------------

  datatype Edge = Edge(time: int, level: Level)

  function LevelBefore(first: Level, edges: seq<Edge>, k: nat): Level
    requires k <= |edges|
  {
    if k == 0 then first else edges[k - 1].level
  }

  function TransitionAt(first: Level, edges: seq<Edge>, k: nat): int
    requires k < |edges|
  {
    Transition(LevelBefore(first, edges, k), edges[k].level)
  }

  /** The sum of the transitions of the first `n` interrupts. */
  function Decoded(first: Level, edges: seq<Edge>, n: nat): int
    requires n <= |edges|
  {
    if n == 0 then 0 else Decoded(first, edges, n - 1) + TransitionAt(first, edges, n - 1)
  }

  /** The time of the last of the first `n` interrupts that counted; 0 if there was none. */
  function LastCounted(first: Level, edges: seq<Edge>, n: nat): int
    requires n <= |edges|
  {
    if n == 0 then 0
    else if TransitionAt(first, edges, n - 1) != 0 then edges[n - 1].time
    else LastCounted(first, edges, n - 1)
  }

  /** Later interrupts do not change what the earlier ones decoded. */
  lemma {:induction false} EarlierUnchanged(first: Level, edges: seq<Edge>, e: Edge, n: nat)
    requires n <= |edges|
    ensures Decoded(first, edges + [e], n) == Decoded(first, edges, n)
    ensures LastCounted(first, edges + [e], n) == LastCounted(first, edges, n)
  {
    if n == 0 {
    } else {
      EarlierUnchanged(first, edges, e, n - 1);
      assert TransitionAt(first, edges + [e], n - 1) == TransitionAt(first, edges, n - 1);
    }
  }

  /** Both inputs changed at once, so the interrupt missed a state. */
  predicate Skips(first: Level, edges: seq<Edge>, k: nat)
    requires k < |edges|
  {
    LevelBefore(first, edges, k) + edges[k].level == 3
  }

  /** Counting `total` takes the Gray position of `from` to that of `to`, modulo 4. */
  predicate Advances(total: int, from: Level, to: Level) {
    (GrayPosition(from) + total) % 4 == GrayPosition(to)
  }

  lemma TransitionAdvances(previous: Level, current: Level)
    requires previous + current != 3
    ensures Advances(Transition(previous, current), previous, current)
  {
  }

  lemma AdvancesChain(x: int, a: Level, b: Level, y: int, c: Level)
    requires Advances(x, a, b) && Advances(y, b, c)
    ensures Advances(x + y, a, c)
  {
    var p, q := GrayPosition(a) + x, GrayPosition(b);
    assert p == 4 * (p / 4) + q;
  }

  /** If no interrupt skipped a state, the total decoded is the change of Gray position modulo 4. */
  lemma {:induction false} DecodedFollowsGrayPosition(first: Level, edges: seq<Edge>, n: nat)
    requires n <= |edges|
    requires forall k :: 0 <= k < n ==> !Skips(first, edges, k)
    ensures Advances(Decoded(first, edges, n), first, LevelBefore(first, edges, n))
  {
    if n == 0 {
    } else {
      assert !Skips(first, edges, n - 1);
      DecodedFollowsGrayPosition(first, edges, n - 1);
      TransitionAdvances(LevelBefore(first, edges, n - 1), edges[n - 1].level);
      AdvancesChain(Decoded(first, edges, n - 1), first, LevelBefore(first, edges, n - 1),
                    TransitionAt(first, edges, n - 1), edges[n - 1].level);
    }
  }

  // ---------------------------------------------------------------------------
  // The ring.
  // ---------------------------------------------------------------------------

  /** A ring of five slots holds the last five differences of a running total. */
  ghost predicate RingHolds(ring: seq<int>, totals: seq<int>) {
    && |ring| == WINDOW_SAMPLES && 0 < |totals|
    && forall p {:trigger Growth(totals, p)} :: 0 <= p < |totals| - 1 && |totals| - 1 - WINDOW_SAMPLES <= p ==>
         ring[p % WINDOW_SAMPLES] == Growth(totals, p)
  }

  function Growth(totals: seq<int>, p: nat): int
    requires p + 1 < |totals|
  {
    totals[p + 1] - totals[p]
  }

  /** How many slots are in use after a number of reads. */
  function Used(readCount: int): int {
    Min(readCount, WINDOW_SAMPLES)
  }

  lemma RingPush(ring: seq<int>, totals: seq<int>, x: int)
    requires RingHolds(ring, totals)
    ensures RingHolds(ring[(|totals| - 1) % WINDOW_SAMPLES := x], totals + [totals[|totals| - 1] + x])
  {
    var n := |totals| - 1;
    var more := totals + [totals[n] + x];
    forall p | 0 <= p <= n && n + 1 - WINDOW_SAMPLES <= p
      ensures ring[n % WINDOW_SAMPLES := x][p % WINDOW_SAMPLES] == Growth(more, p)
    {
      if p < n {
        assert Growth(more, p) == Growth(totals, p);
        DistinctSlots(p, n);
      }
    }
  }

  lemma NextSlot(n: nat)
    ensures (n % WINDOW_SAMPLES + 1) % WINDOW_SAMPLES == (n + 1) % WINDOW_SAMPLES
  {
  }

  lemma DistinctSlots(p: nat, n: nat)
    requires p < n < p + WINDOW_SAMPLES
    ensures p % WINDOW_SAMPLES != n % WINDOW_SAMPLES
  {
  }

  lemma SumPrefixes(s: seq<int>)
    requires |s| == 5
    ensures Sum(s[..0]) == 0 && Sum(s[..1]) == s[0] && Sum(s[..2]) == s[0] + s[1]
    ensures Sum(s[..3]) == s[0] + s[1] + s[2] && Sum(s[..4]) == s[0] + s[1] + s[2] + s[3]
    ensures Sum(s[..5]) == s[0] + s[1] + s[2] + s[3] + s[4]
  {
    var five, four, three, two, one := s[..5], s[..4], s[..3], s[..2], s[..1];
    assert five[..4] == four && four[..3] == three && three[..2] == two && two[..1] == one && one[..0] == [];
    assert Sum(one) == s[0] && Sum(two) == Sum(one) + s[1] && Sum(three) == Sum(two) + s[2];
  }

  /** Summing the used slots, in slot order, gives what the total grew by over the last reads. */
  lemma RingSum(ring: seq<int>, totals: seq<int>)
    requires RingHolds(ring, totals)
    ensures var n := |totals| - 1;
            Sum(ring[..Used(n)]) == totals[n] - totals[n - Used(n)]
  {
    var n := |totals| - 1;
    SumPrefixes(ring);
    if n < WINDOW_SAMPLES {
      assert forall p :: 0 <= p < n ==> ring[p] == Growth(totals, p);
    } else {
      FiveSlots(ring, n, Growth(totals, n - 5), Growth(totals, n - 4), Growth(totals, n - 3),
                Growth(totals, n - 2), Growth(totals, n - 1));
    }
  }

  lemma FiveSlots(ring: seq<int>, n: nat, a: int, b: int, c: int, d: int, e: int)
    requires |ring| == 5 <= n
    requires ring[(n - 5) % 5] == a && ring[(n - 4) % 5] == b && ring[(n - 3) % 5] == c
    requires ring[(n - 2) % 5] == d && ring[(n - 1) % 5] == e
    ensures ring[0] + ring[1] + ring[2] + ring[3] + ring[4] == a + b + c + d + e
  {
  }

  // ---------------------------------------------------------------------------
  // The record of what happened since the last start.
  // ---------------------------------------------------------------------------

  /** The level at the start and every interrupt since. For the start (entry 0) and every read
      after it: its time, how many interrupts came before it, and the running total of the
      counts the reads collected. */
  datatype History = History(first: Level, edges: seq<Edge>, times: seq<int>, upTo: seq<nat>, collected: seq<int>) {
    predicate Shaped() {
      0 < |times| && |times| == |upTo| == |collected| && forall m :: 0 <= m < |upTo| ==> upTo[m] <= |edges|
    }

    /** What the reads have collected up to entry m is what the interrupts before it decoded. */
    predicate ConservedAt(m: nat)
      requires Shaped() && m < |collected|
    {
      collected[m] == Decoded(first, edges, upTo[m])
    }

    /** Nothing is lost between the interrupt and the reads. */
    predicate Conserved()
      requires Shaped()
    {
      forall m :: 0 <= m < |collected| ==> ConservedAt(m)
    }

    predicate Valid() {
      Shaped() && Conserved()
    }

    function Reads(): nat
      requires Shaped()
    {
      |times| - 1
    }

    /** The entry the speed window opens at: five reads back, or the start. */
    function WindowStart(): nat
      requires Shaped()
    {
      Reads() - Used(Reads())
    }

    function LastEdge(): int {
      LastCounted(first, edges, |edges|)
    }

    function AddEdge(e: Edge): History {
      this.(edges := edges + [e])
    }

    function AddRead(now: int, count: int): History
      requires Shaped()
    {
      this.(times := times + [now], upTo := upTo + [|edges|], collected := collected + [collected[Reads()] + count])
    }
  }

  function Started(level: Level, now: int): History {
    History(level, [], [now], [0], [0])
  }

  lemma AfterEdge(h: History, e: Edge)
    requires h.Valid()
    ensures var g := h.AddEdge(e);
            var t := Transition(LevelBefore(h.first, h.edges, |h.edges|), e.level);
            && g.Valid()
            && g.LastEdge() == (if t != 0 then e.time else h.LastEdge())
            && Decoded(g.first, g.edges, |g.edges|) == Decoded(h.first, h.edges, |h.edges|) + t
  {
    var g := h.AddEdge(e);
    forall m | 0 <= m < |h.collected| ensures g.ConservedAt(m) {
      assert h.ConservedAt(m);
      EarlierUnchanged(h.first, h.edges, e, h.upTo[m]);
    }
    EarlierUnchanged(h.first, h.edges, e, |h.edges|);
  }

  lemma AfterRead(h: History, now: int, count: int)
    requires h.Valid() && h.collected[h.Reads()] + count == Decoded(h.first, h.edges, |h.edges|)
    ensures h.AddRead(now, count).Valid()
  {
    var g := h.AddRead(now, count);
    forall m | 0 <= m < |g.collected| ensures g.ConservedAt(m) {
      if m < |h.collected| { assert h.ConservedAt(m); }
    }
  }

  predicate IsStopped(lastEdgeUs: int, nowUs: int) {
    lastEdgeUs <= 0 || nowUs - lastEdgeUs >= STOP_TIMEOUT_US
  }

  /** The speed over the last five reads: exactly the interrupts between the entry where the
      window opens and the last read, over exactly the time between the two. */
  function Reading(h: History): int
    requires h.Shaped()
  {
    var n, m := h.Reads(), h.WindowStart();
    if IsStopped(h.LastEdge(), h.times[n]) then 0
    else CalculateRpm(Decoded(h.first, h.edges, h.upTo[n]) - Decoded(h.first, h.edges, h.upTo[m]),
                      h.times[n] - h.times[m])
  }

  // ---------------------------------------------------------------------------
  // What a read returns, told in the interrupts alone.
  // ---------------------------------------------------------------------------

  /** The sixteen transitions; upward is 0, 2, 3, 1 and round. */
  lemma TransitionTable()
    ensures Transition(0, 0) == 0 && Transition(0, 1) == -1 && Transition(0, 2) == 1 && Transition(0, 3) == 0
    ensures Transition(1, 0) == 1 && Transition(1, 1) == 0 && Transition(1, 2) == 0 && Transition(1, 3) == -1
    ensures Transition(2, 0) == -1 && Transition(2, 1) == 0 && Transition(2, 2) == 0 && Transition(2, 3) == 1
    ensures Transition(3, 0) == 0 && Transition(3, 1) == 1 && Transition(3, 2) == -1 && Transition(3, 3) == 0
  {
  }

  /** Interrupt k is the last of all that counted. */
  ghost predicate IsLastCounted(h: History, k: nat) {
    && k < |h.edges| && TransitionAt(h.first, h.edges, k) != 0
    && forall j :: k < j < |h.edges| ==> TransitionAt(h.first, h.edges, j) == 0
  }

  ghost predicate NoneCounted(h: History) {
    forall j :: 0 <= j < |h.edges| ==> TransitionAt(h.first, h.edges, j) == 0
  }

  /** The nearest integer to counts / 128 revolutions per elapsedUs / 60,000,000 minutes, halves away
      from zero, or the nearer end of 32 bits if that lies outside. */
  ghost predicate IsSpeed(rpm: int, counts: int, elapsedUs: int) {
    var numerator, denominator := counts * 60_000_000, 128 * elapsedUs;
    && -2_147_483_648 <= rpm <= 2_147_483_647
    && (rpm == 2_147_483_647 || 2 * (numerator - rpm * denominator) < denominator
        || (counts < 0 && 2 * (numerator - rpm * denominator) == denominator))
    && (rpm == -2_147_483_648 || -denominator < 2 * (numerator - rpm * denominator)
        || (0 < counts && 2 * (numerator - rpm * denominator) == -denominator))
  }

  ghost predicate IsWindowSpeed(value: int, counts: int, elapsedUs: int) {
    if elapsedUs <= 0 then value == 0 else IsSpeed(value, counts, elapsedUs)
  }

  /** The value if interrupt k was the last that counted: 0 once it is 100 ms old, else the speed over
      the last five reads, or as many as there were. */
  ghost predicate IsReadingGiven(value: int, h: History, k: nat)
    requires h.Shaped() && k < |h.edges|
  {
    var n := |h.times| - 1;
    var m := if n < 5 then 0 else n - 5;
    if h.edges[k].time <= 0 || h.times[n] - h.edges[k].time >= 100_000 then value == 0
    else IsWindowSpeed(value, Decoded(h.first, h.edges, h.upTo[n]) - Decoded(h.first, h.edges, h.upTo[m]),
                       h.times[n] - h.times[m])
  }

  /** A wheel of which nothing was counted is at rest; any other has a last interrupt that counted. */
  ghost predicate IsReading(value: int, h: History)
    requires h.Shaped()
  {
    && (NoneCounted(h) ==> value == 0)
    && forall k: nat :: IsLastCounted(h, k) ==> IsReadingGiven(value, h, k)
  }

  lemma {:induction false} LastCountedIsLast(first: Level, edges: seq<Edge>, n: nat, k: nat)
    requires k < n <= |edges| && TransitionAt(first, edges, k) != 0
    requires forall j :: k < j < n ==> TransitionAt(first, edges, j) == 0
    ensures LastCounted(first, edges, n) == edges[k].time
    decreases n
  {
    if k < n - 1 {
      LastCountedIsLast(first, edges, n - 1, k);
    }
  }

  lemma {:induction false} NothingCounted(first: Level, edges: seq<Edge>, n: nat)
    requires n <= |edges| && forall j :: 0 <= j < n ==> TransitionAt(first, edges, j) == 0
    ensures LastCounted(first, edges, n) == 0
  {
    if n == 0 {
    } else {
      NothingCounted(first, edges, n - 1);
    }
  }

  lemma RpmIsSpeed(counts: int, elapsedUs: int)
    requires 0 < elapsedUs
    ensures IsSpeed(CalculateRpm(counts, elapsedUs), counts, elapsedUs)
  {
    var numerator, denominator := counts * US_PER_MINUTE, COUNTS_PER_REVOLUTION * elapsedUs;
    if counts != 0 {
      var rounded := Rounded(numerator, denominator);
      assert 0 < counts ==> -denominator <= 2 * (numerator - rounded * denominator) < denominator;
      assert counts < 0 ==> -denominator < 2 * (numerator - rounded * denominator) <= denominator;
      if rounded > INT32_MAX {
        MulMonotone(INT32_MAX + 1, rounded, denominator);
      } else if rounded < INT32_MIN {
        MulMonotone(rounded, INT32_MIN - 1, denominator);
      }
    }
  }

  lemma RpmIsWindowSpeed(counts: int, elapsedUs: int)
    ensures IsWindowSpeed(CalculateRpm(counts, elapsedUs), counts, elapsedUs)
  {
    if 0 < elapsedUs {
      RpmIsSpeed(counts, elapsedUs);
    }
  }

  lemma ReadingGivenLast(h: History, k: nat)
    requires h.Shaped() && k < |h.edges| && h.LastEdge() == h.edges[k].time
    ensures IsReadingGiven(Reading(h), h, k)
  {
    var n, m := h.Reads(), h.WindowStart();
    RpmIsWindowSpeed(Decoded(h.first, h.edges, h.upTo[n]) - Decoded(h.first, h.edges, h.upTo[m]),
                     h.times[n] - h.times[m]);
  }

  lemma ReadingIsRight(h: History)
    requires h.Shaped()
    ensures IsReading(Reading(h), h)
  {
    if NoneCounted(h) {
      NothingCounted(h.first, h.edges, |h.edges|);
    }
    forall k: nat | IsLastCounted(h, k) ensures IsReadingGiven(Reading(h), h, k) {
      LastCountedIsLast(h.first, h.edges, |h.edges|, k);
      ReadingGivenLast(h, k);
    }
  }

  // ---------------------------------------------------------------------------
  // The sensor.
  // ---------------------------------------------------------------------------

  class Encoder {
    var pendingCount: int
    var lastValidEdgeUs: int
    var lastLevel: Level
    const countWindow: array<int>
    const timeWindowUs: array<int>
    var windowIndex: nat
    var windowSize: nat
    var lastReadUs: int
    ghost var history: History

    ghost predicate RingValid()
      reads this, countWindow, timeWindowUs
    {
      && countWindow != timeWindowUs
      && history.Shaped()
      && windowIndex == history.Reads() % WINDOW_SAMPLES
      && windowSize == Used(history.Reads())
      && RingHolds(countWindow[..], history.collected)
      && RingHolds(timeWindowUs[..], history.times)
    }

    ghost predicate Valid()
      reads this, countWindow, timeWindowUs
    {
      && RingValid()
      && history.Conserved()
      && lastReadUs == history.times[history.Reads()]
      && lastLevel == LevelBefore(history.first, history.edges, |history.edges|)
      && lastValidEdgeUs == history.LastEdge()
      && history.collected[history.Reads()] + pendingCount == Decoded(history.first, history.edges, |history.edges|)
    }

    constructor (level: Level, nowUs: int)
      ensures Valid() && history == Started(level, nowUs)
      ensures fresh(countWindow) && fresh(timeWindowUs)
    {
      countWindow := new int[WINDOW_SAMPLES];
      timeWindowUs := new int[WINDOW_SAMPLES];
      pendingCount, lastValidEdgeUs, lastLevel := 0, 0, level;
      windowIndex, windowSize, lastReadUs := 0, 0, nowUs;
      history := Started(level, nowUs);
    }

    /** The level survives a restart; counts, window and last edge do not. */
    method Start(nowUs: int)
      requires Valid()
      modifies this, countWindow, timeWindowUs
      ensures Valid() && history == Started(old(lastLevel), nowUs)
    {
      pendingCount, lastValidEdgeUs := 0, 0;
      for i := 0 to WINDOW_SAMPLES
        modifies countWindow, timeWindowUs
      {
        countWindow[i], timeWindowUs[i] := 0, 0;
      }
      windowIndex, windowSize, lastReadUs := 0, 0, nowUs;
      history := Started(lastLevel, nowUs);
    }

    /** One interrupt. */
    method Isr(level: Level, nowUs: int)
      requires Valid()
      modifies this
      ensures Valid() && history == old(history).AddEdge(Edge(nowUs, level))
    {
      var transition := Transition(lastLevel, level);
      if transition != 0 {
        pendingCount := pendingCount + transition;
        lastValidEdgeUs := nowUs;
      }
      lastLevel := level;
      AfterEdge(history, Edge(nowUs, level));
      history := history.AddEdge(Edge(nowUs, level));
    }

    /** One read: unless time has passed, it returns 0 and changes nothing. */
    method ReadRpm(nowUs: int) returns (value: int)
      requires Valid()
      modifies this, countWindow, timeWindowUs
      ensures Valid()
      ensures history == if nowUs <= old(lastReadUs) then old(history)
                         else old(history).AddRead(nowUs, old(pendingCount))
      ensures value == if nowUs <= old(lastReadUs) then 0 else Reading(history)
      ensures if nowUs <= old(lastReadUs) then value == 0 else IsReading(value, history)
    {
      var elapsedUs := nowUs - lastReadUs;
      if elapsedUs <= 0 {
        return 0;
      }
      TakePending(nowUs);
      value := WindowSpeed(nowUs);
      ReadingIsRight(history);
    }

    /** The speed at the last read, from the rings. */
    method WindowSpeed(nowUs: int) returns (value: int)
      requires Valid() && nowUs == lastReadUs
      ensures value == Reading(history)
    {
      if IsStopped(lastValidEdgeUs, nowUs) {
        return 0;
      }
      var windowCount, windowElapsedUs := SumWindow();
      assert history.ConservedAt(history.Reads()) && history.ConservedAt(history.WindowStart());
      value := CalculateRpm(windowCount, windowElapsedUs);
    }

    /** What has been counted since the last read goes into the window. */
    method TakePending(nowUs: int)
      requires Valid()
      modifies this, countWindow, timeWindowUs
      ensures Valid() && history == old(history).AddRead(nowUs, old(pendingCount)) && lastReadUs == nowUs
    {
      var elapsedUs := nowUs - lastReadUs;
      lastReadUs := nowUs;
      var count := pendingCount;
      pendingCount := 0;
      AfterRead(history, nowUs, count);
      StoreInWindow(count, elapsedUs);
    }

    method StoreInWindow(count: int, elapsedUs: int)
      requires RingValid()
      modifies this`windowIndex, this`windowSize, this`history, countWindow, timeWindowUs
      ensures RingValid()
      ensures history == old(history).AddRead(old(history.times[history.Reads()]) + elapsedUs, count)
    {
      Overwrite(countWindow, windowIndex, count, history.collected);
      Overwrite(timeWindowUs, windowIndex, elapsedUs, history.times);
      NextSlot(history.Reads());
      windowIndex := (windowIndex + 1) % WINDOW_SAMPLES;
      if windowSize < WINDOW_SAMPLES {
        windowSize := windowSize + 1;
      }
      history := history.AddRead(history.times[history.Reads()] + elapsedUs, count);
    }

    /** The newest value takes the place of the oldest. */
    static method Overwrite(ring: array<int>, index: nat, value: int, ghost totals: seq<int>)
      requires RingHolds(ring[..], totals) && index == (|totals| - 1) % WINDOW_SAMPLES
      modifies ring
      ensures RingHolds(ring[..], totals + [totals[|totals| - 1] + value])
    {
      RingPush(ring[..], totals, value);
      ghost var before := ring[..];
      ring[index] := value;
      assert ring[..] == before[index := value];
    }

    method SumWindow() returns (count: int, elapsedUs: int)
      requires RingValid()
      ensures var n, m := history.Reads(), history.WindowStart();
              && count == history.collected[n] - history.collected[m]
              && elapsedUs == history.times[n] - history.times[m]
    {
      count, elapsedUs := 0, 0;
      for i := 0 to windowSize
        invariant count == Sum(countWindow[..i]) && elapsedUs == Sum(timeWindowUs[..i])
      {
        assert countWindow[..i + 1][..i] == countWindow[..i];
        assert timeWindowUs[..i + 1][..i] == timeWindowUs[..i];
        count := count + countWindow[i];
        elapsedUs := elapsedUs + timeWindowUs[i];
      }
      RingSum(countWindow[..], history.collected);
      RingSum(timeWindowUs[..], history.times);
      assert countWindow[..][..windowSize] == countWindow[..windowSize];
      assert timeWindowUs[..][..windowSize] == timeWindowUs[..windowSize];
    }
  }
}
