/** Date arithmetic on the hybrid calendar (src/ESCalendar.cpp): the two calendar converters, the length of a month and
    the effect of adding months, each tied to the calendar's own day-by-day rules. */
module HybridDates {
  import opened Calendar

  // ---------------------------------------------------------------- the day count follows the calendar

  /** The next day of one calendar's own rules, within or across a March year. */
  lemma NextMarchDay(d: Date, leap: bool)
    requires WellFormed(d, leap)
    ensures var e := DayAfter(d, leap);
            if d.month == 2 && d.day == MonthLength(leap, 2) then
              && MarchYear(e) == MarchYear(d) + 1 && DayInMarchYear(e) == 0
              && DayInMarchYear(d) == (if leap then 365 else 364)
            else
              MarchYear(e) == MarchYear(d) && DayInMarchYear(e) == DayInMarchYear(d) + 1
  {
    DaysBeforeMonthTable();
  }

  lemma JulianNext(d: Date)
    requires JulianWellFormed(d)
    ensures JulianCount(DayAfter(d, JulianLeap(SignedYear(d.era, d.year)))) == JulianCount(d) + 1
  {
    NextMarchDay(d, JulianLeap(SignedYear(d.era, d.year)));
    JulianYearStep(MarchYear(d));
  }

  lemma GregorianNext(d: Date)
    requires GregorianWellFormed(d)
    ensures GregorianCount(DayAfter(d, GregorianLeap(SignedYear(d.era, d.year)))) == GregorianCount(d) + 1
  {
    NextMarchDay(d, GregorianLeap(SignedYear(d.era, d.year)));
    GregorianYearStep(MarchYear(d));
  }

  lemma SwitchoverDays()
    ensures JulianCount(Date(1, 1582, 10, 4)) == 578042
    ensures GregorianCount(Date(1, 1582, 10, 15)) == 578041
  {
    DaysBeforeMonthTable();
  }

  /** The next calendar day is a valid date and its Julian day number is exactly one more, across month ends,
      leap days, the missing year 0 and the ten skipped days of October 1582. */
  lemma NextDayAdvances(d: Date)
    requires ValidDate(d)
    ensures ValidDate(NextDay(d))
    ensures JulianDayOf(NextDay(d)) == JulianDayOf(d) + 1.0
  {
    hide JulianCount, GregorianCount, JulianDayOfJulian, JulianDayOfGregorian;
    var e := NextDay(d);
    assert ValidDate(e);
    JulianDayCounts(d);
    JulianDayCounts(e);
    if d == Date(1, 1582, 10, 4) {
      SwitchoverDays();
    } else if InJulianPart(d) {
      JulianNext(d);
    } else {
      GregorianNext(d);
    }
  }

  lemma JulianYearStep(y: int)
    ensures 1461 * (y + 1) / 4 - 1461 * y / 4 == (if JulianLeap(y + 1) then 366 else 365)
  {
  }

  /** From one 1 March to the next. */
  lemma GregorianYearStep(y: int)
    ensures CenturyStart((y + 1) / 100) + YearStart((y + 1) % 100) - CenturyStart(y / 100) - YearStart(y % 100)
            == (if GregorianLeap(y + 1) then 366 else 365)
  {
    var c, k := y / 100, y % 100;
    assert y == 100 * c + k;
    MarchLeapInCentury(c, k);
    assert MarchLeap(y, true) == GregorianLeap(y + 1);
    if k == 99 {
      DivMod100(c + 1, 0);
      CenturyStep(c);
      assert YearStart(99) == 36159 && YearStart(0) == 0;
    } else {
      DivMod100(c, k + 1);
      YearStep(k);
    }
  }

  lemma YearStep(k: int)
    requires 0 <= k < 99
    ensures YearStart(k + 1) - YearStart(k) == (if k % 4 == 3 then 366 else 365)
  {
    var q, r := k / 4, k % 4;
    assert YearStart(k) == 1461 * q + 36525 * r / 100;
  }

  lemma CenturyStep(c: int)
    ensures CenturyStart(c + 1) - CenturyStart(c) == (if c % 4 == 3 then 36525 else 36524)
  {
    var q, r := c / 4, c % 4;
    assert CenturyStart(c) == 146097 * q + 146097 * r / 4;
  }

  /** The day count starts where the library's time base does: 2001-01-01 00:00 is interval 0. */
  lemma EpochIsZero()
    ensures ValidDate(Date(1, 2001, 1, 1))
    ensures IntervalFromUtc(DateComponents(Date(1, 2001, 1, 1), 0, 0, 0.0)) == 0.0
  {
    DaysBeforeMonthTable();
  }

  // ---------------------------------------------------------------- gregorianToHybrid and hybridToGregorian

  /** The guard both converters start with. */
  predicate InGregorianSection(d: Date) {
    d.era == 1 && (d.year > 1582 || (d.year == 1582 && (d.month > 10 || (d.month == 10 && d.day >= 15))))
  }

  function GregorianToHybrid(d: Date): Date {
    if InGregorianSection(d) then d
    else JulianDate((JulianDayOfGregorian(d) - 1721117.5).Floor)
  }

  function HybridToGregorian(d: Date): Date {
    if InGregorianSection(d) then d
    else GregorianDate((JulianDayOfJulian(d) - 1721119.5).Floor)
  }

  lemma ToHybridByCount(g: Date)
    requires !InGregorianSection(g)
    ensures GregorianToHybrid(g) == JulianDate(GregorianCount(g) + 2)
  {
    hide JulianDayOfGregorian, GregorianCount, JulianDate;
    JulianDayCounts(g);
    assert JulianDayOfGregorian(g) - 1721117.5 == (GregorianCount(g) + 2) as real;
  }

  lemma ToGregorianByCount(h: Date)
    requires !InGregorianSection(h)
    ensures HybridToGregorian(h) == GregorianDate(JulianCount(h) - 2)
  {
    ToGregorianFloor(h);
  }

  lemma ToGregorianFloor(h: Date)
    ensures (JulianDayOfJulian(h) - 1721119.5).Floor == JulianCount(h) - 2
  {
    JulianDayCounts(h);
    assert JulianDayOfJulian(h) - 1721119.5 == (JulianCount(h) - 2) as real;
  }

  lemma SectionsAgree(d: Date)
    requires d.era == 0 || d.era == 1
    ensures InGregorianSection(d) == !InJulianPart(d)
  {
  }

  /** On a Gregorian date: the result is a valid hybrid date of the same Julian day, and converting back returns it. */
  lemma GregorianRoundTrip(g: Date)
    requires GregorianWellFormed(g)
    ensures ValidDate(GregorianToHybrid(g))
    ensures JulianDayOf(GregorianToHybrid(g)) == JulianDayOfGregorian(g)
    ensures HybridToGregorian(GregorianToHybrid(g)) == g
  {
    SectionsAgree(g);
    if !InGregorianSection(g) {
      ToHybridByCount(g);
      var h := JulianDate(GregorianCount(g) + 2);
      GregorianPartIsLate(g);
      JulianDecode(GregorianCount(g) + 2);
      JulianPartIsEarly(h);
      JulianDayCounts(g);
      JulianDayCounts(h);
      SectionsAgree(h);
      ToGregorianByCount(h);
      GregorianEncode(g);
    }
  }

  lemma GregorianFromCount(g: Date, x2: int)
    requires g == GregorianDate(x2)
    ensures GregorianWellFormed(g) && GregorianCount(g) == x2
    ensures JulianDayOfGregorian(g) == 1721119.5 + x2 as real
    ensures InGregorianSection(g) == (x2 >= FIRST_GREGORIAN_DAY)
  {
    GregorianDecode(x2);
    GregorianPartIsLate(g);
    JulianDayCounts(g);
    SectionsAgree(g);
  }

  /** On a valid hybrid date: the result is a proleptic Gregorian date of the same Julian day, and converting back
      returns it. */
  lemma HybridRoundTrip(h: Date)
    requires ValidDate(h)
    ensures GregorianWellFormed(HybridToGregorian(h))
    ensures JulianDayOfGregorian(HybridToGregorian(h)) == JulianDayOf(h)
    ensures GregorianToHybrid(HybridToGregorian(h)) == h
  {
    hide GregorianDate, JulianDate, JulianDayOfJulian, JulianDayOfGregorian, JulianCount, GregorianCount;
    SectionsAgree(h);
    if !InGregorianSection(h) {
      ToGregorianByCount(h);
      JulianPartIsEarly(h);
      JulianDayCounts(h);
      GregorianFromCount(HybridToGregorian(h), JulianCount(h) - 2);
      ToHybridByCount(HybridToGregorian(h));
      JulianEncode(h);
    }
  }

  /** The ten skipped days are exactly the Julian-looking dates that do not come back. */
  lemma SkippedDaysDoNotReturn(h: Date)
    requires InJulianPart(h) && JulianWellFormed(h)
    ensures GregorianToHybrid(HybridToGregorian(h)) == h <==> ValidDate(h)
  {
    if ValidDate(h) {
      HybridRoundTrip(h);
    } else {
      SectionsAgree(h);
      ToGregorianByCount(h);
      JulianPartIsEarly(h);
      GregorianFromCount(HybridToGregorian(h), JulianCount(h) - 2);
    }
  }

  /** The four int cells that the C interface passes by address. */
  class DateCells {
    var era: int
    var year: int
    var month: int
    var day: int

    constructor (d: Date)
      ensures Value() == d
    {
      era, year, month, day := d.era, d.year, d.month, d.day;
    }

    function Value(): Date
      reads this
    {
      Date(era, year, month, day)
    }

    method StoreMarchYear(signedYear: int, x0: int)
      modifies this
      ensures Value() == DateFromMarchYear(signedYear, x0)
    {
      var sy := signedYear;
      var monthI := (5 * x0 + 461) / 153;
      if monthI > 12 {
        month := monthI - 12;
        sy := sy + 1;
      } else {
        month := monthI;
      }
      if sy <= 0 {
        era, year := 0, 1 - sy;
      } else {
        era, year := 1, sy;
      }
      day := x0 - DaysBeforeMonth(monthI) + 1;
    }

    method ToHybrid()
      modifies this
      ensures Value() == GregorianToHybrid(old(Value()))
    {
      if InGregorianSection(Value()) {
        return;
      }
      var x1 := (JulianDayOfGregorian(Value()) - 1721117.5).Floor;
      var signedYear := (4 * x1 + 3) / DAYS_IN_JULIAN_CYCLE;
      StoreMarchYear(signedYear, x1 - DAYS_IN_JULIAN_CYCLE * signedYear / 4);
    }

    method ToGregorian()
      modifies this
      ensures Value() == HybridToGregorian(old(Value()))
    {
      hide JulianDayOfJulian, DateFromMarchYear;
      if InGregorianSection(Value()) {
        return;
      }
      var x2 := (JulianDayOfJulian(Value()) - 1721119.5).Floor;
      var century := (4 * x2 + 3) / DAYS_IN_GREGORIAN_CYCLE;
      var x1 := x2 - DAYS_IN_GREGORIAN_CYCLE * century / 4;
      var yearWithinCentury := (100 * x1 + 99) / DAYS_IN_NON_LEAP_CENTURY;
      StoreMarchYear(100 * century + yearWithinCentury,
                     x1 - DAYS_IN_NON_LEAP_CENTURY * yearWithinCentury / 100);
    }
  }

  /** What a caller of the in-place converters sees: there and back leaves the cells as they were. */
  method ConvertThereAndBack(cells: DateCells)
    requires ValidDate(cells.Value())
    modifies cells
    ensures cells.Value() == old(cells.Value())
  {
    HybridRoundTrip(cells.Value());
    cells.ToGregorian();
    cells.ToHybrid();
  }

  // ---------------------------------------------------------------- daysInMonth

  /** C's rint: to nearest, ties to even. */
  function Rint(x: real): int {
    var f := x.Floor;
    if x - f as real < 0.5 || (x - f as real == 0.5 && f % 2 == 0) then f else f + 1
  }

  function MidnightOf(d: Date): real { IntervalFromUtc(DateComponents(d, 0, 0, 0.0)) }

  function DaysInMonth(era: int, year: int, month: int): int
    requires 1 <= month <= 12
  {
    if month == 2 then
      Rint((MidnightOf(Date(era, year, 3, 1)) - MidnightOf(Date(era, year, 2, 1))) / 86400.0)
    else if month == 4 || month == 6 || month == 9 || month == 11 then 30
    else 31
  }

  /** February is measured between two day numbers, yet always has its length by the leap rule in force. */
  lemma DaysInMonthFollowsLeapRule(era: int, year: int, month: int)
    requires (era == 0 || era == 1) && year >= 1 && 1 <= month <= 12
    ensures DaysInMonth(era, year, month) == MonthLength(HybridLeap(Date(era, year, month, 1)), month)
  {
    if month == 2 {
      var feb, mar := Date(era, year, 2, 1), Date(era, year, 3, 1);
      DaysBeforeMonthTable();
      JulianDayCounts(feb);
      JulianDayCounts(mar);
      JulianYearStep(MarchYear(feb));
      GregorianYearStep(MarchYear(feb));
      var n := MonthLength(HybridLeap(feb), 2);
      assert JulianDayOf(mar) - JulianDayOf(feb) == n as real;
      assert (MidnightOf(mar) - MidnightOf(feb)) / 86400.0 == n as real;
    }
  }

  /** Within one month of one calendar, days are numbered consecutively. */
  lemma SameMonthDistance(first: Date, last: Date)
    requires first == last.(day := 1)
    requires InJulianPart(first) == InJulianPart(last)
    ensures JulianDayOf(last) == JulianDayOf(first) + (last.day - 1) as real
  {
  }

  /** The month's length is the distance to the next month's first day for every month but one: October 1582, which
      the code calls 31 days long, spans 21. */
  lemma DaysInMonthSpansMonth(era: int, year: int, month: int)
    requires (era == 0 || era == 1) && year >= 1 && 1 <= month <= 12
    ensures JulianDayOf(FirstOfNextMonth(era, year, month)) - JulianDayOf(Date(era, year, month, 1))
            == DaysInMonth(era, year, month) as real
       <==> !(era == 1 && year == 1582 && month == 10)
  {
    var first := Date(era, year, month, 1);
    DaysInMonthFollowsLeapRule(era, year, month);
    if era == 1 && year == 1582 && month == 10 {
      OctoberSpans21();
    } else {
      var last := first.(day := MonthLength(HybridLeap(first), month));
      assert InJulianPart(first) == InJulianPart(last);
      SameMonthDistance(first, last);
      assert ValidDate(last);
      NextDayAdvances(last);
      assert NextDay(last) == FirstOfNextMonth(era, year, month);
    }
  }

  lemma OctoberSpans21()
    ensures JulianDayOf(Date(1, 1582, 11, 1)) - JulianDayOf(Date(1, 1582, 10, 1)) == 21.0
  {
    var oct, nov := Date(1, 1582, 10, 1), Date(1, 1582, 11, 1);
    DaysBeforeMonthTable();
    JulianDayCounts(oct);
    JulianDayCounts(nov);
    assert JulianCount(oct) == 578039;
    assert GregorianCount(nov) == 578058;
  }

  // ---------------------------------------------------------------- adding months

  function MonthIndex(d: Date): int { 12 * SignedYear(d.era, d.year) + d.month - 1 }

  /** The date part of addMonthsToTimeInterval. */
  function AddMonthsToDate(d: Date, months: int): Date
    requires 1 <= d.month <= 12
  {
    var yearMonth := SignedYear(d.era, d.year) as real + (d.month - 1 + months) as real / 12.0;
    var signedYear := yearMonth.Floor;
    var month := Rint((yearMonth - signedYear as real) * 12.0) + 1;
    MonthArithmetic(SignedYear(d.era, d.year), d.month - 1 + months);
    var era := if signedYear <= 0 then 0 else 1;
    var year := if signedYear <= 0 then 1 - signedYear else signedYear;
    var length := DaysInMonth(era, year, month);
    Date(era, year, month, if d.day > length then length else d.day)
  }

  lemma MonthArithmetic(signedYear: int, zeroMonth: int)
    ensures var yearMonth := signedYear as real + zeroMonth as real / 12.0;
            && yearMonth.Floor == signedYear + zeroMonth / 12
            && Rint((yearMonth - yearMonth.Floor as real) * 12.0) == zeroMonth % 12
  {
    var q, r := zeroMonth / 12, zeroMonth % 12;
    var yearMonth := signedYear as real + zeroMonth as real / 12.0;
    assert yearMonth == (signedYear + q) as real + r as real / 12.0;
    assert yearMonth.Floor == signedYear + q;
  }

  predicate InSkippedDays(d: Date) { d.era == 1 && d.year == 1582 && d.month == 10 && 5 <= d.day <= 14 }

  /** Adding months moves the month index by exactly that many, keeps the day unless the month is too short, and gives
      a valid date unless it lands in the skipped days. */
  lemma AddMonthsLandsOn(d: Date, months: int)
    requires ValidDate(d)
    ensures var r := AddMonthsToDate(d, months);
            && MonthIndex(r) == MonthIndex(d) + months
            && r.day == (if d.day <= MonthLength(HybridLeap(r), r.month) then d.day
                         else MonthLength(HybridLeap(r), r.month))
            && (ValidDate(r) <==> !InSkippedDays(r))
  {
    MonthArithmetic(SignedYear(d.era, d.year), d.month - 1 + months);
    var r := AddMonthsToDate(d, months);
    DaysInMonthFollowsLeapRule(r.era, r.year, r.month);
    if !(r.era == 1 && r.year == 1582 && r.month == 10) {
      assert HybridLeap(r) == HybridLeap(Date(r.era, r.year, r.month, 1));
    }
  }

  /** Dates are determined by month index and day. */
  lemma MonthIndexInjective(d: Date, e: Date)
    requires (d.era == 0 || d.era == 1) && d.year >= 1 && 1 <= d.month <= 12
    requires (e.era == 0 || e.era == 1) && e.year >= 1 && 1 <= e.month <= 12
    requires MonthIndex(d) == MonthIndex(e) && d.day == e.day
    ensures d == e
  {
    assert d.month == e.month && SignedYear(d.era, d.year) == SignedYear(e.era, e.year);
  }

  lemma KeepsShortDay(d: Date, months: int)
    requires ValidDate(d) && d.day <= 28
    ensures var r := AddMonthsToDate(d, months);
            && (r.era == 0 || r.era == 1) && r.year >= 1 && 1 <= r.month <= 12
            && MonthIndex(r) == MonthIndex(d) + months && r.day == d.day
  {
    AddMonthsLandsOn(d, months);
    MonthArithmetic(SignedYear(d.era, d.year), d.month - 1 + months);
  }

  /** For days every month has, adding months composes; in particular adding and subtracting returns. */
  lemma AddMonthsComposes(d: Date, a: int, b: int)
    requires ValidDate(d) && d.day <= 28
    requires ValidDate(AddMonthsToDate(d, a))
    ensures AddMonthsToDate(AddMonthsToDate(d, a), b) == AddMonthsToDate(d, a + b)
    ensures AddMonthsToDate(d, 0) == d
  {
    hide AddMonthsToDate;
    KeepsShortDay(d, a);
    KeepsShortDay(AddMonthsToDate(d, a), b);
    KeepsShortDay(d, a + b);
    KeepsShortDay(d, 0);
    MonthIndexInjective(AddMonthsToDate(d, 0), d);
    MonthIndexInjective(AddMonthsToDate(AddMonthsToDate(d, a), b), AddMonthsToDate(d, a + b));
  }
}
