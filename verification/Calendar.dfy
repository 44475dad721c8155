/** The Gregorian calendar twice: as the day count the RMC parser computes
    (master-node/src/gps/rmc_parser.c), and as day-by-day succession from 1970-01-01, which is
    what the exporter's conversion back to a date must follow (master-node/src/web/web_server.c). */
module Calendar {

  const MONTH_DAYS: seq<nat> := [31, 28, 31, 30, 31, 30, 31, 31, 30, 31, 30, 31]
  const DAY_MS := 86_400_000

  datatype Date = Date(year: int, month: int, day: int) {
    predicate Valid() {
      1970 <= year && 1 <= month <= 12 && 1 <= day <= DaysInMonth(year, month)
    }

    predicate Before(other: Date) {
      year < other.year || (year == other.year && (month < other.month || (month == other.month && day < other.day)))
    }
  }

  datatype Civil = Civil(date: Date, hour: nat, minute: nat, second: nat, millisecond: nat) {
    predicate Valid() {
      date.Valid() && hour < 24 && minute < 60 && second < 60 && millisecond < 1000
    }

    predicate Before(other: Civil) {
      date.Before(other.date) || (date == other.date && MillisecondOfDay() < other.MillisecondOfDay())
    }

    function MillisecondOfDay(): nat {
      ((hour * 60 + minute) * 60 + second) * 1000 + millisecond
    }
  }

  predicate LeapYear(year: int) {
    year % 4 == 0 && (year % 100 != 0 || year % 400 == 0)
  }

  function DaysInMonth(year: int, month: int): nat
    requires 1 <= month <= 12
  {
    MONTH_DAYS[month - 1] + if month == 2 && LeapYear(year) then 1 else 0
  }

  function DaysInYear(year: int): nat {
    if LeapYear(year) then 366 else 365
  }

  // ---------------------------------------------------------------------------
  // Counting days.
  // ---------------------------------------------------------------------------

  function DaysBeforeYear(year: int): nat
    requires 1970 <= year
  {
    if year == 1970 then 0 else DaysBeforeYear(year - 1) + DaysInYear(year - 1)
  }

  function DaysBeforeMonth(year: int, month: int): nat
    requires 1 <= month <= 13
  {
    if month == 1 then 0 else DaysBeforeMonth(year, month - 1) + DaysInMonth(year, month - 1)
  }

  function DayCount(d: Date): nat
    requires d.Valid()
  {
    DaysBeforeYear(d.year) + DaysBeforeMonth(d.year, d.month) + d.day - 1
  }

  function UtcOf(c: Civil): nat
    requires c.Valid()
  {
    DayCount(c.date) * DAY_MS + c.MillisecondOfDay()
  }

  // ---------------------------------------------------------------------------
  // Closed forms, in numbers alone.
  // ---------------------------------------------------------------------------

  /** Every month's length. */
  lemma MonthLengths(year: int, month: int)
    requires 1 <= month <= 12
    ensures month in {1, 3, 5, 7, 8, 10, 12} ==> DaysInMonth(year, month) == 31
    ensures month in {4, 6, 9, 11} ==> DaysInMonth(year, month) == 30
    ensures month == 2 && year % 4 == 0 && (year % 100 != 0 || year % 400 == 0) ==> DaysInMonth(year, month) == 29
    ensures month == 2 && (year % 4 != 0 || (year % 100 == 0 && year % 400 != 0)) ==> DaysInMonth(year, month) == 28
  {
  }

  lemma LeapFours(year: int)
    ensures (year - 1968) / 4 == (year - 1969) / 4 + if year % 4 == 0 then 1 else 0
  {
  }

  lemma LeapCenturies(year: int)
    ensures (year - 1900) / 100 == (year - 1901) / 100 + if year % 100 == 0 then 1 else 0
  {
  }

  lemma LeapFourCenturies(year: int)
    ensures (year - 1600) / 400 == (year - 1601) / 400 + if year % 400 == 0 then 1 else 0
  {
  }

  lemma OfFourHundred(year: int)
    ensures year % 400 == 0 ==> year % 100 == 0
  {
    var k := year / 400;
    assert year % 400 == 0 ==> year == 100 * (4 * k);
  }

  lemma OfHundred(year: int)
    ensures year % 100 == 0 ==> year % 4 == 0
  {
    var k := year / 100;
    assert year % 100 == 0 ==> year == 4 * (25 * k);
  }

  /** The leap years from 1970 on, before a year: every fourth, less the centuries, but for every fourth
      of those. */
  lemma OneMoreYear(year: int)
    ensures (year - 1968) / 4 - (year - 1900) / 100 + (year - 1600) / 400
            == (year - 1969) / 4 - (year - 1901) / 100 + (year - 1601) / 400 + (DaysInYear(year) - 365)
  {
    LeapFours(year);
    LeapCenturies(year);
    LeapFourCenturies(year);
    OfFourHundred(year);
    OfHundred(year);
  }

  lemma {:induction false} YearClosedForm(year: int)
    requires 1970 <= year
    ensures DaysBeforeYear(year) == 365 * (year - 1970) + (year - 1969) / 4 - (year - 1901) / 100 + (year - 1601) / 400
  {
    if year == 1970 {
    } else {
      YearClosedForm(year - 1);
      OneMoreYear(year - 1);
    }
  }

  lemma MonthClosedForm(year: int, month: int)
    requires 1 <= month <= 12
    ensures DaysBeforeMonth(year, month)
            == (367 * month - 362) / 12
               - (if month <= 2 then 0 else if year % 4 == 0 && (year % 100 != 0 || year % 400 == 0) then 1 else 2)
  {
    assert DaysBeforeMonth(year, 2) == 31;
    assert DaysBeforeMonth(year, 3) == 59 + if LeapYear(year) then 1 else 0;
    assert DaysBeforeMonth(year, 5) == DaysBeforeMonth(year, 3) + 61;
    assert DaysBeforeMonth(year, 7) == DaysBeforeMonth(year, 5) + 61;
    assert DaysBeforeMonth(year, 9) == DaysBeforeMonth(year, 7) + 62;
    assert DaysBeforeMonth(year, 11) == DaysBeforeMonth(year, 9) + 61;
  }

  /** UTC from the numbers of a date and a time, without tables or loops. */
  lemma UtcClosedForm(c: Civil)
    requires c.Valid()
    ensures var y, m := c.date.year, c.date.month;
            var leap := y % 4 == 0 && (y % 100 != 0 || y % 400 == 0);
            var days := 365 * (y - 1970) + (y - 1969) / 4 - (y - 1901) / 100 + (y - 1601) / 400
                        + (367 * m - 362) / 12 - (if m <= 2 then 0 else if leap then 1 else 2) + c.date.day - 1;
            && DayCount(c.date) == days
            && UtcOf(c) == 86_400_000 * days + 3_600_000 * c.hour + 60_000 * c.minute + 1000 * c.second + c.millisecond
  {
    YearClosedForm(c.date.year);
    MonthClosedForm(c.date.year, c.date.month);
  }

  // ---------------------------------------------------------------------------
  // Succession of days.
  // ---------------------------------------------------------------------------

  function NextDay(d: Date): (next: Date)
    requires d.Valid()
    ensures next.Valid()
  {
    if d.day < DaysInMonth(d.year, d.month) then Date(d.year, d.month, d.day + 1)
    else if d.month < 12 then Date(d.year, d.month + 1, 1)
    else Date(d.year + 1, 1, 1)
  }

  /** The date n days after 1970-01-01. */
  function DateOf(n: nat): (d: Date)
    ensures d.Valid()
  {
    if n == 0 then Date(1970, 1, 1) else NextDay(DateOf(n - 1))
  }

  /** Broken-down UTC. */
  function CivilOf(utcMs: nat): Civil {
    var ms := utcMs % DAY_MS;
    Civil(DateOf(utcMs / DAY_MS), ms / 3_600_000, ms / 60_000 % 60, ms / 1000 % 60, ms % 1000)
  }

  // ---------------------------------------------------------------------------
  // The two agree.
  // ---------------------------------------------------------------------------

  lemma YearOfMonths(year: int)
    ensures DaysBeforeMonth(year, 13) == DaysInYear(year)
  {
    assert DaysBeforeMonth(year, 2) == DaysBeforeMonth(year, 1) + 31 == 31;
    assert DaysBeforeMonth(year, 3) == DaysBeforeMonth(year, 2) + DaysInMonth(year, 2);
    assert DaysBeforeMonth(year, 5) == DaysBeforeMonth(year, 3) + 61;
    assert DaysBeforeMonth(year, 7) == DaysBeforeMonth(year, 5) + 61;
    assert DaysBeforeMonth(year, 9) == DaysBeforeMonth(year, 7) + 62;
    assert DaysBeforeMonth(year, 11) == DaysBeforeMonth(year, 9) + 61;
  }

  lemma {:induction false} MonthsAreOrdered(year: int, earlier: int, later: int)
    requires 1 <= earlier < later <= 13
    ensures DaysBeforeMonth(year, earlier) + DaysInMonth(year, earlier) <= DaysBeforeMonth(year, later)
    decreases later
  {
    if earlier < later - 1 {
      MonthsAreOrdered(year, earlier, later - 1);
    }
  }

  lemma {:induction false} YearsAreOrdered(earlier: int, later: int)
    requires 1970 <= earlier < later
    ensures DaysBeforeYear(earlier) + DaysInYear(earlier) <= DaysBeforeYear(later)
    decreases later
  {
    if earlier < later - 1 {
      YearsAreOrdered(earlier, later - 1);
    }
  }

  /** The day count is strictly increasing, so it tells any two dates apart. */
  lemma DayCountIncreases(a: Date, b: Date)
    requires a.Valid() && b.Valid() && a.Before(b)
    ensures DayCount(a) < DayCount(b)
  {
    if a.year < b.year {
      MonthsAreOrdered(a.year, a.month, 13);
      YearOfMonths(a.year);
      YearsAreOrdered(a.year, b.year);
    } else if a.month < b.month {
      MonthsAreOrdered(a.year, a.month, b.month);
    }
  }

  lemma NextDayCountsOne(d: Date)
    requires d.Valid()
    ensures DayCount(NextDay(d)) == DayCount(d) + 1
  {
    if d.month == 12 {
      YearOfMonths(d.year);
      assert DaysBeforeMonth(d.year, 13) == DaysBeforeMonth(d.year, 12) + DaysInMonth(d.year, 12);
    }
  }

  lemma {:induction false} DayCountOfDateOf(n: nat)
    ensures DayCount(DateOf(n)) == n
  {
    if n == 0 {
    } else {
      DayCountOfDateOf(n - 1);
      NextDayCountsOne(DateOf(n - 1));
    }
  }

  /** Counting days and walking that many days from the epoch comes back to the same date. */
  lemma DateOfDayCount(d: Date)
    requires d.Valid()
    ensures DateOf(DayCount(d)) == d
  {
    var e := DateOf(DayCount(d));
    DayCountOfDateOf(DayCount(d));
    if d.Before(e) {
      DayCountIncreases(d, e);
    } else if e.Before(d) {
      DayCountIncreases(e, d);
    }
  }

  lemma MillisecondOfDayInverts(c: Civil)
    requires c.Valid()
    ensures var ms := c.MillisecondOfDay();
            && ms < DAY_MS && ms % 1000 == c.millisecond && ms / 1000 % 60 == c.second
            && ms / 60_000 % 60 == c.minute && ms / 3_600_000 == c.hour
  {
    var ms := c.MillisecondOfDay();
    assert ms / 1000 == (c.hour * 60 + c.minute) * 60 + c.second;
    assert ms / 60_000 == c.hour * 60 + c.minute;
  }

  /** The parser's UTC converts back to the very date and time it came from, to the millisecond. */
  lemma CivilOfUtcOf(c: Civil)
    requires c.Valid()
    ensures CivilOf(UtcOf(c)) == c
  {
    MillisecondOfDayInverts(c);
    DateOfDayCount(c.date);
  }

  /** UTC is strictly increasing in civil time. */
  lemma UtcIncreases(a: Civil, b: Civil)
    requires a.Valid() && b.Valid()
    ensures UtcOf(a) < UtcOf(b) <==> a.Before(b)
  {
    MillisecondOfDayInverts(a);
    MillisecondOfDayInverts(b);
    if a.date.Before(b.date) {
      DayCountIncreases(a.date, b.date);
    } else if b.date.Before(a.date) {
      DayCountIncreases(b.date, a.date);
    }
  }
}
