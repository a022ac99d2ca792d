/** The hybrid Julian/Gregorian calendar of src/ESCalendar.cpp: seconds since 2001-01-01 00:00 UTC to and from
    era/year/month/day/hour/minute/seconds.  Doubles are exact reals, C ints are unbounded, and every floor() the
    code takes is a floor here (Dafny's integer `/` floors when the divisor is positive). */
module Calendar {

  datatype Date = Date(era: int, year: int, month: int, day: int)

  datatype DateComponents = DateComponents(date: Date, hour: int, minute: int, seconds: real)

  const SECONDS_PER_DAY: real := 86400.0
  const JULIAN_DAY_OF_1990_EPOCH: real := 2447891.5
  const EPOCH_1990: real := -347241600.0
  const DAYS_IN_JULIAN_CYCLE := 1461
  const DAYS_IN_GREGORIAN_CYCLE := 146097
  const DAYS_IN_NON_LEAP_CENTURY := 36525
  const SWITCHOVER: real := -13197600000.0

  // ---------------------------------------------------------------- conversions, as the code computes them

  function SignedYear(era: int, year: int): int {
    if era == 0 then 1 - year else year
  }

  /** Days from 1 March to the first of the month numbered 3 (March) .. 14 (February of the next year). */
  function DaysBeforeMonth(monthI: int): int {
    (153 * monthI - 457) / 5
  }

  /** The tail shared by all three "day count to date" conversions. */
  function DateFromMarchYear(signedYear: int, x0: int): Date {
    var monthI := (5 * x0 + 461) / 153;
    var month := if monthI > 12 then monthI - 12 else monthI;
    var year := if monthI > 12 then signedYear + 1 else signedYear;
    Date(if year <= 0 then 0 else 1, if year <= 0 then 1 - year else year, month, x0 - DaysBeforeMonth(monthI) + 1)
  }

  /** Julian date of day x1, counted from 1 March of (signed) year 0. */
  function JulianDate(x1: int): Date {
    var signedYear := (4 * x1 + 3) / DAYS_IN_JULIAN_CYCLE;
    DateFromMarchYear(signedYear, x1 - DAYS_IN_JULIAN_CYCLE * signedYear / 4)
  }

  /** Gregorian date of day x2, counted from 1 March of (signed) year 0, once its century is known. */
  function GregorianDateInCentury(x2: int, century: int): Date {
    var x1 := x2 - DAYS_IN_GREGORIAN_CYCLE * century / 4;
    var yearWithinCentury := (100 * x1 + 99) / DAYS_IN_NON_LEAP_CENTURY;
    DateFromMarchYear(100 * century + yearWithinCentury, x1 - DAYS_IN_NON_LEAP_CENTURY * yearWithinCentury / 100)
  }

  /** C's integer conversion of a quotient: towards zero. */
  function TruncDiv(a: int, b: int): int
    requires b > 0
  {
    if a >= 0 then a / b else -((-a) / b)
  }

  function UtcComponents(t: real): DateComponents {
    var xF := (if t < SWITCHOVER then 730793.0 else 730791.0) + t / SECONDS_PER_DAY;
    var x := xF.Floor;
    var date := if t < SWITCHOVER then JulianDate(x)
                else GregorianDateInCentury(x, TruncDiv(4 * x + 3, DAYS_IN_GREGORIAN_CYCLE));
    var hoursF := (xF - x as real) * 24.0;
    var minutesF := (hoursF - hoursF.Floor as real) * 60.0;
    DateComponents(date, hoursF.Floor, minutesF.Floor, (minutesF - minutesF.Floor as real) * 60.0)
  }

  /** The month number 3..14 and the year that starts in March. */
  function MarchMonth(month: int): int {
    if month < 3 then month + 12 else month
  }

  function MarchYear(d: Date): int {
    SignedYear(d.era, d.year) - (if d.month < 3 then 1 else 0)
  }

  function JulianDayOfJulian(d: Date): real {
    1721116.5 + (1461 * MarchYear(d) / 4) as real + (DaysBeforeMonth(MarchMonth(d.month)) + d.day) as real
  }

  function JulianDayOfGregorian(d: Date): real {
    var c := MarchYear(d) / 100;
    var x := MarchYear(d) - 100 * c;
    1721118.5 + (146097 * c / 4) as real + (36525 * x / 100) as real
    + (DaysBeforeMonth(MarchMonth(d.month)) + d.day) as real
  }

  predicate InJulianPart(d: Date) {
    d.era == 0 || d.year < 1582 || (d.year == 1582 && (d.month < 10 || (d.month == 10 && d.day < 15)))
  }

  function JulianDayOf(d: Date): real {
    if InJulianPart(d) then JulianDayOfJulian(d) else JulianDayOfGregorian(d)
  }

  function IntervalFromUtc(cs: DateComponents): real {
    (JulianDayOf(cs.date) - JULIAN_DAY_OF_1990_EPOCH) * 24.0 * 3600.0 + EPOCH_1990
    + (cs.hour * 3600 + cs.minute * 60) as real + cs.seconds
  }

  // ---------------------------------------------------------------- the calendar itself, as a reference

  predicate JulianLeap(signedYear: int) { signedYear % 4 == 0 }

  predicate GregorianLeap(signedYear: int) {
    signedYear % 4 == 0 && (signedYear % 100 != 0 || signedYear % 400 == 0)
  }

  function MonthLength(leap: bool, month: int): int {
    if month == 2 then (if leap then 29 else 28)
    else if month == 4 || month == 6 || month == 9 || month == 11 then 30
    else 31
  }

  predicate HybridLeap(d: Date) {
    if InJulianPart(d) then JulianLeap(SignedYear(d.era, d.year)) else GregorianLeap(SignedYear(d.era, d.year))
  }

  predicate WellFormed(d: Date, leap: bool) {
    && (d.era == 0 || d.era == 1) && d.year >= 1
    && 1 <= d.month <= 12 && 1 <= d.day <= MonthLength(leap, d.month)
  }

  /** The dates of the hybrid calendar: 5 to 14 October 1582 were skipped. */
  predicate ValidDate(d: Date) {
    && WellFormed(d, HybridLeap(d))
    && !(d.era == 1 && d.year == 1582 && d.month == 10 && 5 <= d.day <= 14)
  }

  predicate ValidComponents(cs: DateComponents) {
    ValidDate(cs.date) && 0 <= cs.hour < 24 && 0 <= cs.minute < 60 && 0.0 <= cs.seconds < 60.0
  }

  /** The day after a date in a calendar whose current year is or is not a leap year. */
  function DayAfter(d: Date, leap: bool): Date {
    if d.day < MonthLength(leap, d.month) then d.(day := d.day + 1)
    else FirstOfNextMonth(d.era, d.year, d.month)
  }

  function FirstOfNextMonth(era: int, year: int, month: int): Date {
    if month < 12 then Date(era, year, month + 1, 1)
    else if era == 0 then (if year == 1 then Date(1, 1, 1, 1) else Date(0, year - 1, 1, 1))
    else Date(era, year + 1, 1, 1)
  }

  /** The day after a date of the hybrid calendar. */
  function NextDay(d: Date): Date {
    if d == Date(1, 1582, 10, 4) then Date(1, 1582, 10, 15) else DayAfter(d, HybridLeap(d))
  }

  // ---------------------------------------------------------------- one March-to-March year

  function DayInMarchYear(d: Date): int { DaysBeforeMonth(MarchMonth(d.month)) + d.day - 1 }

  predicate MarchYearDay(x0: int, leap: bool) { 0 <= x0 < (if leap then 366 else 365) }

  /** Whether the February that ends the March year is long. */
  predicate MarchLeap(signedYear: int, gregorian: bool) {
    if gregorian then GregorianLeap(signedYear + 1) else JulianLeap(signedYear + 1)
  }

  lemma DaysBeforeMonthTable()
    ensures DaysBeforeMonth(3) == 0 && DaysBeforeMonth(4) == 31 && DaysBeforeMonth(5) == 61
    ensures DaysBeforeMonth(6) == 92 && DaysBeforeMonth(7) == 122 && DaysBeforeMonth(8) == 153
    ensures DaysBeforeMonth(9) == 184 && DaysBeforeMonth(10) == 214 && DaysBeforeMonth(11) == 245
    ensures DaysBeforeMonth(12) == 275 && DaysBeforeMonth(13) == 306 && DaysBeforeMonth(14) == 337
  {
  }

  /** A day of a March year becomes a well-formed date that encodes back to it. */
  lemma MarchYearDecode(signedYear: int, x0: int, gregorian: bool)
    requires MarchYearDay(x0, MarchLeap(signedYear, gregorian))
    ensures var d := DateFromMarchYear(signedYear, x0);
            && MarchYear(d) == signedYear
            && DayInMarchYear(d) == x0
            && WellFormed(d, if gregorian then GregorianLeap(SignedYear(d.era, d.year))
                             else JulianLeap(SignedYear(d.era, d.year)))
  {
    DaysBeforeMonthTable();
    var monthI := (5 * x0 + 461) / 153;
    assert 3 <= monthI <= 14;
  }

  /** A well-formed date is a day of its March year, and decoding that day gives the date back. */
  lemma MarchYearEncode(d: Date, gregorian: bool)
    requires WellFormed(d, if gregorian then GregorianLeap(SignedYear(d.era, d.year))
                           else JulianLeap(SignedYear(d.era, d.year)))
    ensures MarchYearDay(DayInMarchYear(d), MarchLeap(MarchYear(d), gregorian))
    ensures DateFromMarchYear(MarchYear(d), DayInMarchYear(d)) == d
  {
    DaysBeforeMonthTable();
    var monthI := (5 * DayInMarchYear(d) + 461) / 153;
    assert monthI == MarchMonth(d.month);
  }

  // ---------------------------------------------------------------- whole years: Julian

  /** Splitting a day count into March year and day is exact in both directions (Julian). */
  lemma JulianSplit(x1: int, signedYear: int, x0: int)
    ensures x1 == 1461 * signedYear / 4 + x0 && MarchYearDay(x0, MarchLeap(signedYear, false))
      <==> signedYear == (4 * x1 + 3) / 1461 && x0 == x1 - 1461 * signedYear / 4
  {
    var q, r := signedYear / 4, signedYear % 4;
    assert 1461 * signedYear / 4 == 1461 * q + 1461 * r / 4;
    assert MarchLeap(signedYear, false) <==> r == 3;
  }

  // ---------------------------------------------------------------- whole years: Gregorian

  function CenturyStart(c: int): int { 146097 * c / 4 }
  function YearStart(y: int): int { 36525 * y / 100 }

  /** The days of century c: 36524, or 36525 when the century that ends it has a leap centurial year. */
  lemma CenturySplit(x2: int, c: int)
    ensures c == (4 * x2 + 3) / 146097
      <==> 0 <= x2 - CenturyStart(c) < (if c % 4 == 3 then 36525 else 36524)
  {
    var q, r := c / 4, c % 4;
    assert CenturyStart(c) == 146097 * q + 146097 * r / 4;
  }

  lemma YearInCenturySplit(x1: int, y: int)
    requires 0 <= x1 < 36525
    ensures y == (100 * x1 + 99) / 36525
      <==> 0 <= y < 100 && 0 <= x1 - YearStart(y) < (if y % 4 == 3 then 366 else 365)
  {
    var q, r := y / 4, y % 4;
    assert YearStart(y) == 1461 * q + 36525 * r / 100;
  }

  lemma GregorianSplit(x2: int, c: int, y: int, x0: int)
    requires x2 == CenturyStart(c) + YearStart(y) + x0
    ensures 0 <= y < 100 && MarchYearDay(x0, MarchLeap(100 * c + y, true))
      <==> c == (4 * x2 + 3) / 146097 && y == (100 * (x2 - CenturyStart(c)) + 99) / 36525
  {
    CenturySplit(x2, c);
    var x1 := x2 - CenturyStart(c);
    if 0 <= y < 100 && MarchYearDay(x0, MarchLeap(100 * c + y, true)) {
      MarchLeapInCentury(c, y);
      var q, r := y / 4, y % 4;
      assert YearStart(y) == 1461 * q + 36525 * r / 100;
      assert 0 <= x1 < (if c % 4 == 3 then 36525 else 36524);
      YearInCenturySplit(x1, y);
    }
    if c == (4 * x2 + 3) / 146097 && y == (100 * x1 + 99) / 36525 {
      YearInCenturySplit(x1, y);
      MarchLeapInCentury(c, y);
      assert y == 99 ==> YearStart(y) == 36159;
    }
  }

  lemma CenturyRemainders(c: int, k: int)
    requires 1 <= k <= 100
    ensures (100 * c + k) % 4 == k % 4
    ensures (100 * c + k) % 100 == 0 <==> k == 100
    ensures (100 * c + 100) % 400 == 0 <==> (c + 1) % 4 == 0
  {
    var n := 25 * c;
    assert 100 * c + k == 4 * n + k;
    var m := c + 1;
    var q, r := m / 4, m % 4;
    assert 100 * c + 100 == 400 * q + 100 * r;
  }

  lemma MarchLeapInCentury(c: int, y: int)
    requires 0 <= y < 100
    ensures MarchLeap(100 * c + y, true) <==> y % 4 == 3 && (y != 99 || c % 4 == 3)
  {
    CenturyRemainders(c, y + 1);
    BeforeMultipleOf4(y);
    BeforeMultipleOf4(c);
    var n := 100 * c + (y + 1);
    assert n == 100 * c + y + 1;
    assert y == 99 ==> n == 100 * c + 100;
    assert MarchLeap(100 * c + y, true) <==> n % 4 == 0 && (n % 100 != 0 || n % 400 == 0);
  }

  lemma BeforeMultipleOf4(x: int)
    ensures (x + 1) % 4 == 0 <==> x % 4 == 3
  {
  }

  // ---------------------------------------------------------------- whole dates

  function JulianCount(d: Date): int { 1461 * MarchYear(d) / 4 + DayInMarchYear(d) }

  function GregorianCount(d: Date): int {
    CenturyStart(MarchYear(d) / 100) + YearStart(MarchYear(d) % 100) + DayInMarchYear(d)
  }

  function GregorianDate(x2: int): Date { GregorianDateInCentury(x2, (4 * x2 + 3) / 146097) }

  predicate JulianWellFormed(d: Date) { WellFormed(d, JulianLeap(SignedYear(d.era, d.year))) }

  predicate GregorianWellFormed(d: Date) { WellFormed(d, GregorianLeap(SignedYear(d.era, d.year))) }

  /** Days and Julian-calendar dates correspond one to one. */
  lemma JulianDecode(x1: int)
    ensures JulianWellFormed(JulianDate(x1)) && JulianCount(JulianDate(x1)) == x1
  {
    hide MarchYear, DayInMarchYear, DateFromMarchYear, WellFormed, MarchLeap, MarchYearDay;
    var signedYear := (4 * x1 + 3) / 1461;
    var x0 := x1 - 1461 * signedYear / 4;
    JulianSplit(x1, signedYear, x0);
    MarchYearDecode(signedYear, x0, false);
  }

  lemma JulianEncode(d: Date)
    requires JulianWellFormed(d)
    ensures JulianDate(JulianCount(d)) == d
  {
    hide MarchYear, DayInMarchYear, DateFromMarchYear, MarchLeap, MarchYearDay;
    MarchYearEncode(d, false);
    JulianSplit(JulianCount(d), MarchYear(d), DayInMarchYear(d));
  }

  lemma DivMod100(c: int, y: int)
    requires 0 <= y < 100
    ensures (100 * c + y) / 100 == c && (100 * c + y) % 100 == y
  {
  }

  lemma GregorianDateParts(x2: int, c: int, y: int, x0: int)
    requires x2 == CenturyStart(c) + YearStart(y) + x0
    requires c == (4 * x2 + 3) / 146097 && y == (100 * (x2 - CenturyStart(c)) + 99) / 36525
    ensures GregorianDate(x2) == DateFromMarchYear(100 * c + y, x0)
  {
  }

  /** Days and proleptic Gregorian dates correspond one to one. */
  lemma GregorianDecode(x2: int)
    ensures GregorianWellFormed(GregorianDate(x2)) && GregorianCount(GregorianDate(x2)) == x2
  {
    hide MarchYear, DayInMarchYear, DateFromMarchYear, WellFormed, MarchLeap, MarchYearDay;
    hide GregorianDate, CenturyStart, YearStart;
    var c := (4 * x2 + 3) / 146097;
    var y := (100 * (x2 - CenturyStart(c)) + 99) / 36525;
    var x0 := x2 - CenturyStart(c) - YearStart(y);
    GregorianSplit(x2, c, y, x0);
    GregorianDateParts(x2, c, y, x0);
    MarchYearDecode(100 * c + y, x0, true);
    DivMod100(c, y);
  }

  lemma GregorianEncode(d: Date)
    requires GregorianWellFormed(d)
    ensures GregorianDate(GregorianCount(d)) == d
  {
    hide MarchYear, DayInMarchYear, DateFromMarchYear, WellFormed, MarchLeap, MarchYearDay;
    hide GregorianDate, CenturyStart, YearStart;
    MarchYearEncode(d, true);
    var c, y, x0 := MarchYear(d) / 100, MarchYear(d) % 100, DayInMarchYear(d);
    assert MarchYear(d) == 100 * c + y;
    GregorianSplit(GregorianCount(d), c, y, x0);
    GregorianDateParts(GregorianCount(d), c, y, x0);
  }

  // ---------------------------------------------------------------- the two calendars meet on 15 October 1582

  const FIRST_DAY_AFTER_JULIAN := 578043
  const FIRST_GREGORIAN_DAY := 578041

  lemma JulianPartIsEarly(d: Date)
    requires JulianWellFormed(d)
    ensures JulianCount(d) < FIRST_DAY_AFTER_JULIAN <==> InJulianPart(d) && ValidDate(d)
  {
    MarchYearEncode(d, false);
    DaysBeforeMonthTable();
  }

  lemma GregorianPartIsLate(d: Date)
    requires GregorianWellFormed(d)
    ensures GregorianCount(d) >= FIRST_GREGORIAN_DAY <==> !InJulianPart(d)
  {
    MarchYearEncode(d, true);
    DaysBeforeMonthTable();
    var c, y := MarchYear(d) / 100, MarchYear(d) % 100;
    assert MarchYear(d) == 100 * c + y;
    assert CenturyStart(15) == 547863 && YearStart(82) == 29950;
    assert c <= 15 ==> CenturyStart(c) <= 547863;
    assert c < 15 ==> CenturyStart(c) <= 547863 - 36524;
    assert c > 15 ==> CenturyStart(c) >= 547863 + 36524;
    assert 0 <= YearStart(y) <= 36159;
    assert y < 82 ==> YearStart(y) <= 29950 - 365;
    assert y > 82 ==> YearStart(y) >= 29950 + 365;
  }

  /** Julian day numbers in terms of the counts. */
  lemma JulianDayCounts(d: Date)
    ensures JulianDayOfJulian(d) == 1721117.5 + JulianCount(d) as real
    ensures JulianDayOfGregorian(d) == 1721119.5 + GregorianCount(d) as real
  {
    var sy := MarchYear(d);
    assert sy - 100 * (sy / 100) == sy % 100;
  }

  // ---------------------------------------------------------------- round trips

  lemma DateInJulianPart(x1: int)
    requires x1 < FIRST_DAY_AFTER_JULIAN
    ensures ValidDate(JulianDate(x1)) && JulianDayOf(JulianDate(x1)) == 1721117.5 + x1 as real
    ensures InJulianPart(JulianDate(x1))
  {
    hide JulianDate, JulianCount;
    JulianDecode(x1);
    JulianPartIsEarly(JulianDate(x1));
    JulianDayCounts(JulianDate(x1));
  }

  lemma DateInGregorianPart(x2: int)
    requires x2 >= FIRST_GREGORIAN_DAY
    ensures ValidDate(GregorianDate(x2)) && JulianDayOf(GregorianDate(x2)) == 1721119.5 + x2 as real
    ensures !InJulianPart(GregorianDate(x2))
  {
    hide GregorianDate, GregorianCount;
    GregorianDecode(x2);
    GregorianPartIsLate(GregorianDate(x2));
    JulianDayCounts(GregorianDate(x2));
  }

  /** The date shown for an instant is a valid date whose midnight is at or before it, by less than a day. */
  lemma DateOfInstant(t: real)
    ensures var d := UtcComponents(t).date;
            && ValidDate(d)
            && var x := (if t < SWITCHOVER then 730793.0 else 730791.0) + t / SECONDS_PER_DAY;
            && JulianDayOf(d) == (if t < SWITCHOVER then 1721117.5 else 1721119.5) + x.Floor as real
  {
    hide JulianDate, GregorianDateInCentury;
    var x := ((if t < SWITCHOVER then 730793.0 else 730791.0) + t / SECONDS_PER_DAY).Floor;
    if t < SWITCHOVER {
      DateInJulianPart(x);
    } else {
      DateInGregorianPart(x);
    }
  }

  /** The clock fields split the part of the day exactly and stay in range. */
  lemma ClockFields(f: real)
    requires 0.0 <= f < 1.0
    ensures var h := f * 24.0; var m := (h - h.Floor as real) * 60.0; var s := (m - m.Floor as real) * 60.0;
            && 0 <= h.Floor < 24 && 0 <= m.Floor < 60 && 0.0 <= s < 60.0
            && (h.Floor * 3600 + m.Floor * 60) as real + s == f * SECONDS_PER_DAY
  {
  }

  /** Interval to components and back is the identity for every instant, and the components are in range. */
  lemma IntervalRoundTrip(t: real)
    ensures ValidComponents(UtcComponents(t))
    ensures IntervalFromUtc(UtcComponents(t)) == t
  {
    DateOfInstant(t);
    var xF := (if t < SWITCHOVER then 730793.0 else 730791.0) + t / SECONDS_PER_DAY;
    ClockFields(xF - xF.Floor as real);
  }

  lemma ClockFieldsInverse(hour: int, minute: int, seconds: real)
    requires 0 <= hour < 24 && 0 <= minute < 60 && 0.0 <= seconds < 60.0
    ensures var f := ((hour * 3600 + minute * 60) as real + seconds) / SECONDS_PER_DAY;
            var h := f * 24.0; var m := (h - h.Floor as real) * 60.0;
            && 0.0 <= f < 1.0
            && h.Floor == hour && m.Floor == minute && (m - m.Floor as real) * 60.0 == seconds
  {
    var f := ((hour * 3600 + minute * 60) as real + seconds) / SECONDS_PER_DAY;
    var h := f * 24.0;
    assert h == hour as real + (minute * 60) as real / 3600.0 + seconds / 3600.0;
    assert h.Floor == hour;
    var m := (h - hour as real) * 60.0;
    assert m == minute as real + seconds / 60.0;
    assert m.Floor == minute;
  }

  /** A valid date's day number places its interval on the right side of the switchover, at its own count. */
  lemma InstantOfDate(d: Date, f: real)
    requires ValidDate(d) && 0.0 <= f < 1.0
    ensures var t := (JulianDayOf(d) - JULIAN_DAY_OF_1990_EPOCH) * 24.0 * 3600.0 + EPOCH_1990 + f * SECONDS_PER_DAY;
            && (t < SWITCHOVER <==> InJulianPart(d))
            && (if InJulianPart(d) then 730793.0 + t / SECONDS_PER_DAY == JulianCount(d) as real + f
                else 730791.0 + t / SECONDS_PER_DAY == GregorianCount(d) as real + f)
  {
    JulianDayCounts(d);
    if InJulianPart(d) {
      JulianPartIsEarly(d);
    } else {
      GregorianPartIsLate(d);
    }
  }

  /** The components of an instant, given its day count and the fraction of the day. */
  lemma ComponentsAt(t: real, x: int, f: real)
    requires 0.0 <= f < 1.0
    requires (if t < SWITCHOVER then 730793.0 else 730791.0) + t / SECONDS_PER_DAY == x as real + f
    ensures var cs := UtcComponents(t);
            var h := f * 24.0; var m := (h - h.Floor as real) * 60.0;
            && cs.date == (if t < SWITCHOVER then JulianDate(x) else GregorianDate(x))
            && cs.hour == h.Floor && cs.minute == m.Floor && cs.seconds == (m - m.Floor as real) * 60.0
  {
    var xF := (if t < SWITCHOVER then 730793.0 else 730791.0) + t / SECONDS_PER_DAY;
    assert xF.Floor == x;
    assert t >= SWITCHOVER ==> x >= FIRST_GREGORIAN_DAY;
  }

  /** Components to interval and back is the identity for every valid hybrid date and time of day. */
  lemma ComponentsRoundTrip(cs: DateComponents)
    requires ValidComponents(cs)
    ensures UtcComponents(IntervalFromUtc(cs)) == cs
  {
    hide UtcComponents, JulianDate, GregorianDate, JulianDayOf, JulianCount, GregorianCount;
    var d := cs.date;
    var f := ((cs.hour * 3600 + cs.minute * 60) as real + cs.seconds) / SECONDS_PER_DAY;
    ClockFieldsInverse(cs.hour, cs.minute, cs.seconds);
    InstantOfDate(d, f);
    var t := IntervalFromUtc(cs);
    assert t == (JulianDayOf(d) - JULIAN_DAY_OF_1990_EPOCH) * 24.0 * 3600.0 + EPOCH_1990 + f * SECONDS_PER_DAY;
    if InJulianPart(d) {
      ComponentsAt(t, JulianCount(d), f);
      JulianEncode(d);
    } else {
      ComponentsAt(t, GregorianCount(d), f);
      GregorianEncode(d);
    }
  }

  /** Instants and valid components correspond one to one. */
  lemma ComponentsDetermineInstant(t: real, cs: DateComponents)
    requires ValidComponents(cs)
    ensures UtcComponents(t) == cs <==> t == IntervalFromUtc(cs)
  {
    if t == IntervalFromUtc(cs) {
      ComponentsRoundTrip(cs);
    } else {
      IntervalRoundTrip(t);
    }
  }
}
