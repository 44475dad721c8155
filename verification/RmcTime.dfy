/** UTC from the time and date fields of an RMC sentence (master-node/src/gps/rmc_parser.c), and
    the round trip of a whole printed sentence. */
module RmcTime {
  import opened CArithmetic
  import opened Calendar
  import opened RmcParser
  import opened Wrappers

  function Digit(b: Byte): int {
    if IsDigit(b) then b - ZERO else -1
  }

  /** Two decimal digits, or -1. */
  function TwoDigits(text: Text, at: nat): int
    requires at + 2 <= |text|
  {
    if IsDigit(text[at]) && IsDigit(text[at + 1]) then 10 * Digit(text[at]) + Digit(text[at + 1]) else -1
  }

  /** What the digit at a position of the time field is worth, in milliseconds. */
  function Worth(at: nat): nat {
    if at == 7 then 100 else if at == 8 then 10 else if at == 9 then 1 else 0
  }

  /** Milliseconds from the fraction digits before position n; digits after the third add nothing. */
  function Fraction(time: Text, n: nat): nat
    requires n <= |time| && AllDigits(time, n)
  {
    if n <= 7 then 0 else Fraction(time, n - 1) + Digit(time[n - 1]) * Worth(n - 1)
  }

  predicate AllDigits(time: Text, n: nat)
    requires n <= |time|
  {
    forall i :: 7 <= i < n ==> IsDigit(time[i])
  }

  predicate TimeShaped(time: Text) {
    6 <= |time| && (6 < |time| ==> time[6] == DOT && |time| != 7)
  }

  /** Milliseconds since midnight. */
  function TimeOfDay(time: Text): Option<nat> {
    if !TimeShaped(time) then None
    else
      var hour, minute, second := TwoDigits(time, 0), TwoDigits(time, 2), TwoDigits(time, 4);
      if 0 <= hour < 24 && 0 <= minute < 60 && 0 <= second < 60 && AllDigits(time, |time|)
      then Some(((hour * 60 + minute) * 60 + second) * 1000 + Fraction(time, |time|))
      else None
  }

  function DateField(date: Text): Date
    requires |date| == 6
  {
    Date(2000 + TwoDigits(date, 4), TwoDigits(date, 2), TwoDigits(date, 0))
  }

  /** The moment two fields denote; only moments of the years 2020 to 2099 are accepted. */
  function ParsedUtc(time: Text, date: Text): Option<nat> {
    if |date| == 6 && TimeOfDay(time).Some? && 2020 <= DateField(date).year && DateField(date).Valid()
    then Some(DayCount(DateField(date)) * DAY_MS + TimeOfDay(time).value)
    else None
  }

  method Digits(text: Text, at: nat, count: nat) returns (value: int)
    requires at + count <= |text|
    ensures count == 1 ==> value == Digit(text[at])
    ensures count == 2 ==> value == TwoDigits(text, at)
  {
    value := 0;
    for i := 0 to count
      invariant i == 0 ==> value == 0
      invariant i == 1 ==> value == Digit(text[at]) && IsDigit(text[at])
      invariant i == 2 ==> value == TwoDigits(text, at) && IsDigit(text[at]) && IsDigit(text[at + 1])
    {
      if !IsDigit(text[at + i]) {
        return -1;
      }
      value := value * 10 + text[at + i] - ZERO;
    }
  }

  method ParseUtc(time: Text, date: Text) returns (utc: Option<nat>)
    ensures utc == ParsedUtc(time, date)
  {
    if |date| != 6 || |time| < 6 || (|time| > 6 && (time[6] != DOT || |time| == 7)) {
      return None;
    }
    var clock, millisecondsOfDay := ParseClock(time);
    if !clock {
      return None;
    }
    var day := Digits(date, 0, 2);
    var month := Digits(date, 2, 2);
    var shortYear := Digits(date, 4, 2);
    if shortYear < 20 || month < 1 || month > 12 {
      return None;
    }
    var year := 2000 + shortYear;
    var daysInMonth := MONTH_DAYS[month - 1] + if month == 2 && LeapYear(year) then 1 else 0;
    if day < 1 || day > daysInMonth {
      return None;
    }
    var days := CountDays(year, month, day);
    utc := Some(days * DAY_MS + millisecondsOfDay);
  }

  method ParseClock(time: Text) returns (ok: bool, milliseconds: nat)
    requires TimeShaped(time)
    ensures TimeOfDay(time) == if ok then Some(milliseconds) else None
  {
    var hour := Digits(time, 0, 2);
    var minute := Digits(time, 2, 2);
    var second := Digits(time, 4, 2);
    if hour < 0 || hour > 23 || minute < 0 || minute > 59 || second < 0 || second > 59 {
      return false, 0;
    }
    ok, milliseconds := ParseFraction(time);
    milliseconds := (hour * 3600 + minute * 60 + second) * 1000 + milliseconds;
  }

  method ParseFraction(time: Text) returns (ok: bool, milliseconds: nat)
    ensures ok == AllDigits(time, |time|)
    ensures ok ==> milliseconds == Fraction(time, |time|)
  {
    milliseconds := 0;
    var scale: nat := 100;
    var i := 7;
    while i < |time|
      invariant 7 <= i && (i <= |time| || i == 7)
      invariant scale == Worth(i)
      invariant i <= |time| ==> AllDigits(time, i) && milliseconds == Fraction(time, i)
      invariant |time| < i ==> milliseconds == 0
    {
      var digit := Digits(time, i, 1);
      if digit < 0 {
        return false, milliseconds;
      }
      milliseconds := milliseconds + digit * scale;
      scale := scale / 10;
      i := i + 1;
    }
    ok := true;
  }

  method CountDays(year: int, month: int, day: int) returns (days: nat)
    requires Date(year, month, day).Valid()
    ensures days == DayCount(Date(year, month, day))
  {
    days := day - 1;
    for y := 1970 to year
      invariant days == day - 1 + DaysBeforeYear(y)
    {
      days := days + 365 + if LeapYear(y) then 1 else 0;
    }
    for m := 1 to month
      invariant days == day - 1 + DaysBeforeYear(year) + DaysBeforeMonth(year, m)
    {
      days := days + MONTH_DAYS[m - 1] + if m == 2 && LeapYear(year) then 1 else 0;
    }
  }

  // ---------------------------------------------------------------------------
  // The same in bytes and numbers alone.
  // ---------------------------------------------------------------------------

  /** What the two ASCII digits at a position are worth. */
  function Pair(text: Text, at: nat): int
    requires at + 2 <= |text|
  {
    10 * (text[at] as int - 48) + (text[at + 1] as int - 48)
  }

  predicate AsciiDigits(text: Text, from: nat, end: nat)
    requires end <= |text|
  {
    forall i :: from <= i < end ==> 48 <= text[i] <= 57
  }

  predicate LeapByTheBook(year: int) {
    year % 4 == 0 && (year % 100 != 0 || year % 400 == 0)
  }

  /** hhmmss, or hhmmss. with one or more decimals; ddmmyy from 2020 on. */
  predicate WrittenMoment(time: Text, date: Text) {
    && 6 <= |time| && AsciiDigits(time, 0, 6)
    && (|time| == 6 || (8 <= |time| && time[6] == 0x2E && AsciiDigits(time, 7, |time|)))
    && Pair(time, 0) <= 23 && Pair(time, 2) <= 59 && Pair(time, 4) <= 59
    && |date| == 6 && AsciiDigits(date, 0, 6) && 20 <= Pair(date, 4)
    && 1 <= Pair(date, 2) <= 12 && 1 <= Pair(date, 0) <= 31
    && (Pair(date, 2) in {4, 6, 9, 11} ==> Pair(date, 0) <= 30)
    && (Pair(date, 2) == 2 ==> Pair(date, 0) <= if LeapByTheBook(2000 + Pair(date, 4)) then 29 else 28)
  }

  /** The first three decimals. */
  function WrittenMilliseconds(time: Text): int {
    (if |time| > 7 then 100 * (time[7] as int - 48) else 0)
    + (if |time| > 8 then 10 * (time[8] as int - 48) else 0)
    + (if |time| > 9 then time[9] as int - 48 else 0)
  }

  lemma {:induction false} FractionWritten(time: Text, n: nat)
    requires 7 <= n <= |time| && AllDigits(time, n)
    ensures Fraction(time, n) == WrittenMilliseconds(time[..n])
  {
    if n == 7 {
    } else {
      FractionWritten(time, n - 1);
      assert forall i :: 0 <= i < n - 1 ==> time[..n - 1][i] == time[..n][i];
    }
  }

  lemma PairIsTwoDigits(text: Text, at: nat)
    requires at + 2 <= |text|
    ensures 0 <= TwoDigits(text, at) <==> AsciiDigits(text, at, at + 2)
    ensures 0 <= TwoDigits(text, at) ==> TwoDigits(text, at) == Pair(text, at) <= 99
    ensures TwoDigits(text, at) < 0 ==> TwoDigits(text, at) == -1
  {
    assert AsciiDigits(text, at, at + 2) <==> 48 <= text[at] <= 57 && 48 <= text[at + 1] <= 57;
  }

  lemma TimeIsWritten(time: Text)
    requires 6 <= |time|
    ensures TimeOfDay(time).Some? <==>
              && AsciiDigits(time, 0, 6)
              && (|time| == 6 || (8 <= |time| && time[6] == 0x2E && AsciiDigits(time, 7, |time|)))
              && Pair(time, 0) <= 23 && Pair(time, 2) <= 59 && Pair(time, 4) <= 59
    ensures TimeOfDay(time).Some? ==>
              TimeOfDay(time).value == 3_600_000 * Pair(time, 0) + 60_000 * Pair(time, 2) + 1000 * Pair(time, 4)
                                       + WrittenMilliseconds(time)
  {
    PairIsTwoDigits(time, 0);
    PairIsTwoDigits(time, 2);
    PairIsTwoDigits(time, 4);
    assert AsciiDigits(time, 0, 6) <==>
           AsciiDigits(time, 0, 2) && AsciiDigits(time, 2, 4) && AsciiDigits(time, 4, 6);
    if 7 < |time| && AllDigits(time, |time|) {
      FractionWritten(time, |time|);
      assert time[..|time|] == time;
    }
  }

  lemma DateIsWritten(date: Text)
    requires |date| == 6
    ensures var d := DateField(date);
            (2020 <= d.year && d.Valid()) <==>
              && AsciiDigits(date, 0, 6) && 20 <= Pair(date, 4)
              && 1 <= Pair(date, 2) <= 12 && 1 <= Pair(date, 0) <= 31
              && (Pair(date, 2) in {4, 6, 9, 11} ==> Pair(date, 0) <= 30)
              && (Pair(date, 2) == 2 ==> Pair(date, 0) <= if LeapByTheBook(2000 + Pair(date, 4)) then 29 else 28)
  {
    PairIsTwoDigits(date, 0);
    PairIsTwoDigits(date, 2);
    PairIsTwoDigits(date, 4);
    assert AsciiDigits(date, 0, 6) <==>
           AsciiDigits(date, 0, 2) && AsciiDigits(date, 2, 4) && AsciiDigits(date, 4, 6);
    var d := DateField(date);
    if 1 <= d.month <= 12 {
      MonthLengths(d.year, d.month);
    }
  }

  lemma DaysWritten(date: Text)
    requires |date| == 6 && AsciiDigits(date, 0, 6) && 2020 <= DateField(date).year && DateField(date).Valid()
    ensures var y, m := 2000 + Pair(date, 4), Pair(date, 2);
            DayCount(DateField(date)) == 365 * (y - 1970) + (y - 1969) / 4 + (367 * m - 362) / 12
                                         - (if m <= 2 then 0 else if y % 4 == 0 then 1 else 2) + Pair(date, 0) - 1
  {
    PairIsTwoDigits(date, 0);
    PairIsTwoDigits(date, 2);
    PairIsTwoDigits(date, 4);
    UtcClosedForm(Civil(DateField(date), 0, 0, 0, 0));
    NoCommonCentury(2000 + Pair(date, 4));
  }

  lemma NoCommonCentury(year: int)
    requires 2000 <= year < 2100
    ensures (year - 1901) / 100 == (year - 1601) / 400
    ensures year % 4 == 0 ==> year % 100 != 0 || year % 400 == 0
  {
  }

  /** Which two fields are accepted, and what UTC they give, from their bytes. */
  lemma ParsedUtcInBytes(time: Text, date: Text)
    ensures ParsedUtc(time, date).Some? <==> WrittenMoment(time, date)
    ensures WrittenMoment(time, date) ==>
              var y, m := 2000 + Pair(date, 4), Pair(date, 2);
              var days := 365 * (y - 1970) + (y - 1969) / 4 + (367 * m - 362) / 12
                          - (if m <= 2 then 0 else if y % 4 == 0 then 1 else 2) + Pair(date, 0) - 1;
              && ParsedUtc(time, date).Some?
              && ParsedUtc(time, date).value
                 == 86_400_000 * days + 3_600_000 * Pair(time, 0) + 60_000 * Pair(time, 2) + 1000 * Pair(time, 4)
                    + WrittenMilliseconds(time)
  {
    if |date| != 6 || |time| < 6 {
    } else {
      TimeIsWritten(time);
      DateIsWritten(date);
      if WrittenMoment(time, date) {
        DaysWritten(date);
      }
    }
  }

  // ---------------------------------------------------------------------------
  // Whole sentences.
  // ---------------------------------------------------------------------------

  /** Latitude, longitude and speed, with their hemispheres. */
  function Telemetry(fields: seq<Text>): seq<Text>
    requires FIELD_COUNT <= |fields|
  {
    fields[3..8]
  }

  predicate AllEmpty(fields: seq<Text>) {
    forall i :: 0 <= i < |fields| ==> fields[i] == []
  }

  predicate IsAbsent(telemetry: seq<Text>)
    ensures |telemetry| == 5 ==> (IsAbsent(telemetry) <==> AllEmpty(telemetry))
  {
    && |telemetry| == 5 && telemetry[0] == [] && telemetry[1] == [] && telemetry[2] == []
    && telemetry[3] == [] && telemetry[4] == []
  }

  /** Telemetry that is there must be well formed; `fits` says which is. */
  predicate TelemetryAllowed(fields: seq<Text>, fits: seq<Text> -> bool)
    requires FIELD_COUNT <= |fields|
  {
    AllEmpty(Telemetry(fields)) || fits(Telemetry(fields))
  }

  /** The UTC a line sets the clock to, if it is a sentence that is accepted and carries one. */
  function SentenceUtc(line: Text, fits: seq<Text> -> bool): Option<int> {
    if !Accepts(line) then None
    else
      var fields := Split(Payload(line)).All();
      if !TelemetryAllowed(fields, fits) then None
      else match ParsedUtc(fields[1], fields[9]) case Some(utc) => Some(utc) case None => None
  }

  /** One line: whether it is a valid sentence, and the UTC it carries, if any. Bad telemetry
      makes the whole sentence invalid, a bad time or date only leaves out the UTC. */
  method ParseSentence(line: Text, fits: seq<Text> -> bool) returns (valid: bool, utc: Option<int>)
    ensures valid <==> Accepts(line) && TelemetryAllowed(Split(Payload(line)).All(), fits)
    ensures valid || utc.Some? ==> Accepts(line) && Split(Payload(line)).All()[2] == [0x41]
    ensures utc == SentenceUtc(line, fits)
  {
    var ok, fields := FieldsFromRmc(line);
    if !ok {
      return false, None;
    }
    assert fields[2] == Split(Payload(line)).All()[2];
    var telemetry := fields[3..8];
    assert telemetry == Telemetry(Split(Payload(line)).All());
    if !IsAbsent(telemetry) && !fits(telemetry) {
      return false, None;
    }
    var parsed := ParseUtc(fields[1], fields[9]);
    valid := true;
    utc := if parsed.Some? then Some(parsed.value) else None;
  }

  // ---------------------------------------------------------------------------
  // Printing.
  // ---------------------------------------------------------------------------

  function PrintDigit(v: nat): (b: Byte)
    requires v < 10
    ensures IsDigit(b) && Digit(b) == v
  {
    ZERO + v
  }

  function PrintTwo(v: nat): (text: Text)
    requires v < 100
    ensures |text| == 2 && TwoDigits(text, 0) == v
  {
    [PrintDigit(v / 10), PrintDigit(v % 10)]
  }

  /** hhmmss.sss */
  function PrintTime(c: Civil): Text
    requires c.Valid()
  {
    PrintTwo(c.hour) + PrintTwo(c.minute) + PrintTwo(c.second)
    + [DOT, PrintDigit(c.millisecond / 100)] + PrintTwo(c.millisecond % 100)
  }

  /** ddmmyy */
  function PrintDate(d: Date): Text
    requires d.Valid() && 2000 <= d.year < 2100
  {
    PrintTwo(d.day) + PrintTwo(d.month) + PrintTwo(d.year - 2000)
  }

  lemma PrintedTime(c: Civil)
    requires c.Valid()
    ensures var t := PrintTime(c);
            && |t| == 10 && t[6] == DOT && AllDigits(t, 10) && Fraction(t, 10) == c.millisecond
            && TwoDigits(t, 0) == c.hour && TwoDigits(t, 2) == c.minute && TwoDigits(t, 4) == c.second
  {
    var t := PrintTime(c);
    assert t[0..2] == PrintTwo(c.hour) && t[2..4] == PrintTwo(c.minute) && t[4..6] == PrintTwo(c.second);
    assert t[7] == PrintDigit(c.millisecond / 100) && t[8..10] == PrintTwo(c.millisecond % 100);
    assert t[8] == PrintDigit(c.millisecond % 100 / 10) && t[9] == PrintDigit(c.millisecond % 100 % 10);
    assert Fraction(t, 7) == 0 && Fraction(t, 8) == Digit(t[7]) * 100;
    assert Fraction(t, 9) == Fraction(t, 8) + Digit(t[8]) * 10;
  }

  lemma PrintedTimeOfDay(c: Civil)
    requires c.Valid()
    ensures TimeOfDay(PrintTime(c)) == Some(c.MillisecondOfDay())
  {
    PrintedTime(c);
  }

  lemma PrintedDate(d: Date)
    requires d.Valid() && 2000 <= d.year < 2100
    ensures |PrintDate(d)| == 6 && DateField(PrintDate(d)) == d
  {
    var t := PrintDate(d);
    assert t[0..2] == PrintTwo(d.day) && t[2..4] == PrintTwo(d.month) && t[4..6] == PrintTwo(d.year - 2000);
  }

  lemma MomentOfFields(time: Text, date: Text, c: Civil)
    requires c.Valid() && 2020 <= c.date.year
    requires TimeOfDay(time) == Some(c.MillisecondOfDay()) && |date| == 6 && DateField(date) == c.date
    ensures ParsedUtc(time, date) == Some(UtcOf(c))
  {
  }

  /** Every moment of 2020 to 2099 printed as time and date fields parses to its own UTC, which
      converts back to the same moment, to the millisecond. */
  lemma PrintedMomentParsesBack(c: Civil)
    requires c.Valid() && 2020 <= c.date.year < 2100
    ensures ParsedUtc(PrintTime(c), PrintDate(c.date)) == Some(UtcOf(c))
    ensures CivilOf(UtcOf(c)) == c
  {
    PrintedTimeOfDay(c);
    PrintedDate(c.date);
    MomentOfFields(PrintTime(c), PrintDate(c.date), c);
    CivilOfUtcOf(c);
  }

  /** What a receiver prints: the fields of a sentence, and the moment they carry. */
  datatype Printed = Printed(fields: Fields, moment: Civil) {
    /** The other fields are as the parser wants them. */
    predicate Valid(fits: seq<Text> -> bool) {
      && moment.Valid() && 2020 <= moment.date.year < 2100
      && Printable(fields.open) && (forall i :: 0 <= i < |fields.closed| ==> Printable(fields.closed[i]))
      && FIELD_COUNT <= |fields.All()| && IsRmcType(fields.All()[0]) && fields.All()[2] == ACTIVE
      && fields.All()[1] == PrintTime(moment) && fields.All()[9] == PrintDate(moment.date)
      && TelemetryAllowed(fields.All(), fits)
    }

    function Line(): Text {
      Sentence(fields)
    }
  }

  /** A whole sentence: printed around any other valid fields, the moment survives the checksum,
      the splitting and the conversion. */
  lemma PrintedSentenceCarriesItsMoment(p: Printed, fits: seq<Text> -> bool)
    requires p.Valid(fits)
    ensures SentenceUtc(p.Line(), fits) == Some(UtcOf(p.moment)) && 0 < UtcOf(p.moment)
  {
    SentenceParsesBack(p.fields);
    PrintedMomentParsesBack(p.moment);
    YearsAreOrdered(1970, p.moment.date.year);
  }

  /** A sentence whose status is not `A`, or whose type is not a talker's RMC, never carries a UTC. */
  lemma VoidSentenceHasNoUtc(fields: Fields, fits: seq<Text> -> bool)
    requires Printable(fields.open) && (forall i :: 0 <= i < |fields.closed| ==> Printable(fields.closed[i]))
    requires |fields.All()| < 10 || fields.All()[2] != [0x41] || |fields.All()[0]| != 5
             || fields.All()[0][2..] != [0x52, 0x4D, 0x43]
    ensures SentenceUtc(Sentence(fields), fits) == None
  {
    PrintedAcceptedExactly(fields);
  }

  /** Conversely, whatever is accepted denotes a valid moment of 2020 to 2099. */
  lemma AcceptedMomentIsValid(time: Text, date: Text)
    requires ParsedUtc(time, date).Some?
    ensures var c := CivilOf(ParsedUtc(time, date).value);
            c.Valid() && 2020 <= c.date.year < 2100 && UtcOf(c) == ParsedUtc(time, date).value
  {
    FractionIsMilliseconds(time, |time|);
    var c := Civil(DateField(date), TwoDigits(time, 0), TwoDigits(time, 2), TwoDigits(time, 4), Fraction(time, |time|));
    assert UtcOf(c) == ParsedUtc(time, date).value;
    CivilOfUtcOf(c);
  }

  const FIRST_UTC_MS := 1_577_836_800_000
  const LAST_UTC_MS := 4_102_444_800_000

  lemma FirstOfYear(year: int)
    requires 1970 <= year
    ensures year == 2020 ==> DayCount(Date(year, 1, 1)) == 18_262
    ensures year == 2100 ==> DayCount(Date(year, 1, 1)) == 47_482
  {
    YearClosedForm(year);
  }

  lemma BetweenYears(c: Civil, first: int, last: int)
    requires c.Valid() && 1970 <= first <= c.date.year < last
    ensures DayCount(Date(first, 1, 1)) * DAY_MS <= UtcOf(c) < DayCount(Date(last, 1, 1)) * DAY_MS
  {
    MillisecondOfDayInverts(c);
    if Date(first, 1, 1).Before(c.date) {
      DayCountIncreases(Date(first, 1, 1), c.date);
    }
    DayCountIncreases(c.date, Date(last, 1, 1));
  }

  lemma OfThisCentury(c: Civil, first: int, last: int)
    requires c.Valid() && first == 2020 && last == 2100 && first <= c.date.year < last
    ensures FIRST_UTC_MS <= UtcOf(c) < LAST_UTC_MS
  {
    BetweenYears(c, first, last);
    FirstOfYear(first);
    FirstOfYear(last);
  }

  /** As a number, every UTC that is accepted lies between the first moment of 2020 and that of 2100. */
  lemma AcceptedUtcInRange(time: Text, date: Text)
    requires ParsedUtc(time, date).Some?
    ensures FIRST_UTC_MS <= ParsedUtc(time, date).value < LAST_UTC_MS
  {
    AcceptedMomentIsValid(time, date);
    OfThisCentury(CivilOf(ParsedUtc(time, date).value), 2020, 2100);
  }

  lemma {:induction false} FractionIsMilliseconds(time: Text, n: nat)
    requires n <= |time| && AllDigits(time, n)
    ensures Fraction(time, n) <= 999
    ensures n <= 8 ==> Fraction(time, n) % 100 == 0 && Fraction(time, n) <= 900
    ensures n <= 9 ==> Fraction(time, n) % 10 == 0 && Fraction(time, n) <= 990
  {
    if n <= 7 {
    } else {
      FractionIsMilliseconds(time, n - 1);
    }
  }
}
