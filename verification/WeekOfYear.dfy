/** Week numbers (src/ESWatchTime.cpp, weekOfYearNumberUsingEnv) in any zone, against the definition by
    first Thursdays (section 4.1.4 of ISO 8601:2004). */
module WeekOfYear {
  import opened Calendar
  import opened HybridDates
  import opened ZoneConversion
  import MidnightCache

  // ---------------------------------------------------------------- days and years of the hybrid calendar

  /** Days since 1 January 2001, which was a Monday. */
  function DayNumber(d: Date): int {
    if InJulianPart(d) then JulianCount(d) - 730793 else GregorianCount(d) - 730791
  }

  function NewYear(y: int): Date { Date(if y <= 0 then 0 else 1, if y <= 0 then 1 - y else y, 1, 1) }

  function Jan1(y: int): int { DayNumber(NewYear(y)) }

  function YearLength(y: int): int {
    if y == 1582 then 355
    else if (if y < 1582 then JulianLeap(y) else GregorianLeap(y)) then 366 else 365
  }

  lemma MidnightIsDayNumber(d: Date)
    ensures MidnightOf(d) == DayNumber(d) as real * 86400.0
  {
    JulianDayCounts(d);
  }

  lemma NewYearCounts(y: int)
    ensures Jan1(y) == if y <= 1582 then 1461 * (y - 1) / 4 + 306 - 730793
                       else CenturyStart((y - 1) / 100) + YearStart((y - 1) % 100) + 306 - 730791
  {
    DaysBeforeMonthTable();
  }

  lemma YearAdvances(y: int)
    ensures Jan1(y + 1) == Jan1(y) + YearLength(y)
  {
    NewYearCounts(y);
    NewYearCounts(y + 1);
    JulianYearStep(y - 1);
    GregorianYearStep(y - 1);
    assert CenturyStart(15) == 547863 && YearStart(82) == 29950;
  }

  lemma {:induction false} NewYearsAscend(a: int, b: int)
    requires a < b
    ensures Jan1(a) + 355 <= Jan1(b)
    decreases b - a
  {
    YearAdvances(b - 1);
    if a < b - 1 {
      NewYearsAscend(a, b - 1);
    }
  }

  /** A valid date lies within its year, at the place its month and day say. */
  lemma DateInYear(d: Date)
    requires ValidDate(d)
    ensures var y := SignedYear(d.era, d.year);
            && Jan1(y) <= DayNumber(d) < Jan1(y + 1)
            && (if d.month == 12 then DayNumber(d) == Jan1(y + 1) - (32 - d.day) else DayNumber(d) <= Jan1(y + 1) - 32)
  {
    var y := SignedYear(d.era, d.year);
    NewYearCounts(y);
    NewYearCounts(y + 1);
    JulianYearStep(y - 1);
    GregorianYearStep(y - 1);
    DaysBeforeMonthTable();
    CountsFromMarch(d);
    hide CenturyStart, YearStart, DaysBeforeMonth, JulianCount, GregorianCount;
    TransitionYear();
  }

  lemma CountsFromMarch(d: Date)
    ensures var y := SignedYear(d.era, d.year) - (if d.month < 3 then 1 else 0);
            && JulianCount(d) == 1461 * y / 4 + DaysBeforeMonth(MarchMonth(d.month)) + d.day - 1
            && GregorianCount(d)
               == CenturyStart(y / 100) + YearStart(y % 100) + DaysBeforeMonth(MarchMonth(d.month)) + d.day - 1
  {
  }

  lemma TransitionYear()
    ensures CenturyStart(15) == 547863 && YearStart(82) == 29950 && YearStart(81) == 29585
  {
  }

  /** The year a day belongs to. */
  function DateOfDay(n: int): Date { UtcComponents(n as real * 86400.0).date }

  function YearOf(n: int): int { SignedYear(DateOfDay(n).era, DateOfDay(n).year) }

  lemma DateOfDayIs(n: int)
    ensures ValidDate(DateOfDay(n)) && DayNumber(DateOfDay(n)) == n
  {
    hide UtcComponents, JulianCount, GregorianCount;
    var t := n as real * 86400.0;
    IntervalRoundTrip(t);
    DateOfInstant(t);
    MidnightIsDayNumber(DateOfDay(n));
    DayFromInstant(t, n, 0.0);
  }

  /** The date on display at any time of a day is the day's. */
  lemma DayFromInstant(t: real, n: int, s: real)
    requires t == n as real * 86400.0 + s && 0.0 <= s < 86400.0
    ensures ValidDate(UtcComponents(t).date) && DayNumber(UtcComponents(t).date) == n
  {
    hide UtcComponents, JulianCount, GregorianCount, JulianDayOfJulian, JulianDayOfGregorian;
    DateOfInstant(t);
    var d := UtcComponents(t).date;
    JulianDayCounts(d);
    var base := if t < SWITCHOVER then 730793 else 730791;
    DaysAndFraction(t, n, s);
    MidnightCache.FloorOfShift(s / 86400.0, base + n);
    assert JulianDayOf(d) == 2451910.5 + n as real;
    hide JulianDayOf;
    DayNumberFromJulianDay(d, n);
  }

  lemma DaysAndFraction(t: real, n: int, s: real)
    requires t == n as real * 86400.0 + s && 0.0 <= s < 86400.0
    ensures t / SECONDS_PER_DAY == n as real + s / 86400.0 && 0.0 <= s / 86400.0 < 1.0
  {
  }

  lemma DayNumberFromJulianDay(d: Date, n: int)
    requires JulianDayOf(d) == 2451910.5 + n as real
    ensures DayNumber(d) == n
  {
    JulianDayCounts(d);
  }

  lemma YearHolds(n: int)
    ensures Jan1(YearOf(n)) <= n < Jan1(YearOf(n) + 1)
  {
    hide Jan1, DayNumber, DateOfDay;
    DateOfDayIs(n);
    DateInYear(DateOfDay(n));
  }

  /** Days belong to exactly one year. */
  lemma YearOfExactly(n: int, y: int)
    ensures y == YearOf(n) <==> Jan1(y) <= n < Jan1(y + 1)
  {
    YearHolds(n);
    hide Jan1, YearOf;
    if y < YearOf(n) && y + 1 < YearOf(n) {
      NewYearsAscend(y + 1, YearOf(n));
    }
    if y > YearOf(n) && y > YearOf(n) + 1 {
      NewYearsAscend(YearOf(n) + 1, y);
    }
  }

  // ---------------------------------------------------------------- weeks, by definition

  /** The Thursday of a day's Monday-to-Sunday week. */
  function Thursday(n: int): int { n - n % 7 + 3 }

  /** A week belongs to its Thursday's year; weeks are numbered from 0 by their Thursdays. */
  function IsoWeek(n: int): int { (Thursday(n) - Jan1(YearOf(Thursday(n)))) / 7 }

  /** The 4th of January is in the first week, and no year has more than 53. */
  lemma IsoWeekFacts(n: int, y: int)
    ensures IsoWeek(Jan1(y) + 3) == 0 && YearOf(Thursday(Jan1(y) + 3)) == y
    ensures 0 <= IsoWeek(n) <= 52
    ensures IsoWeek(n + 7) == (if YearOf(Thursday(n + 7)) == YearOf(Thursday(n)) then IsoWeek(n) + 1 else 0)
  {
    hide Jan1, YearOf;
    YearAdvances(y);
    YearOfExactly(Thursday(Jan1(y) + 3), y);
    var z := YearOf(Thursday(n));
    YearOfExactly(Thursday(n), z);
    YearAdvances(z);
    YearAdvances(z + 1);
    assert Thursday(n + 7) == Thursday(n) + 7;
    YearOfExactly(Thursday(n) + 7, z);
    YearOfExactly(Thursday(n) + 7, z + 1);
  }

  /** The first day of a day's week, for weeks that start on weekday `start` (0 is Sunday). */
  function WeekStart(n: int, start: int): int { n - (n + 1 - start) % 7 }

  /** Weeks counted from the one that contains New Year. */
  function CalendarWeek(n: int, start: int): int {
    (WeekStart(n, start) - WeekStart(Jan1(YearOf(n)), start)) / 7
  }

  // ---------------------------------------------------------------- the computation

  function Weekday(local: real): int {
    var days := local / 86400.0 + 1.0;
    (days - (days / 7.0).Floor as real * 7.0).Floor
  }

  lemma WeekdayIs(local: real, n: int, s: real)
    requires local == n as real * 86400.0 + s && 0.0 <= s < 86400.0
    ensures Weekday(local) == (n + 1) % 7
  {
    var q, r := (n + 1) / 7, (n + 1) % 7;
    var f := s / 86400.0;
    var days := local / 86400.0 + 1.0;
    assert days == (7 * q + r) as real + f;
    assert days / 7.0 == q as real + (r as real + f) / 7.0;
    assert (days / 7.0).Floor == q;
  }

  /** From New Year's weekday to the first day of the first week. */
  function Delta(weekdayOfJan1: int, weekStartDay: int, useISO8601: bool): int {
    if useISO8601 then
      if weekdayOfJan1 == 0 || weekdayOfJan1 >= 5 then (8 - weekdayOfJan1) % 7 else 1 - weekdayOfJan1
    else -((weekdayOfJan1 + 7 - weekStartDay) % 7)
  }

  /** The ISO rule moves to the Monday whose week has the year's first Thursday. */
  lemma DeltaIso(j: int)
    ensures var f := j + Delta((j + 1) % 7, 1, true);
            f % 7 == 0 && -3 <= f - j <= 3 && j <= Thursday(f) < j + 7
  {
  }

  lemma DeltaStart(j: int, start: int)
    requires 0 <= start <= 6
    ensures j + Delta((j + 1) % 7, start, false) == WeekStart(j, start)
  {
  }

  /** Days of the last three days of December already belong to the next year's first week just when the code says. */
  lemma EndOfDecember(n: int, day: int, k: int)
    requires 29 <= day <= 31 && n == k - (32 - day)
    ensures var weekdayOfDec31 := ((n + 1) % 7 + (31 - day)) % 7;
            (weekdayOfDec31 <= 3 && weekdayOfDec31 >= 1 && weekdayOfDec31 + day >= 32 <==> Thursday(n) >= k)
            && Thursday(n) < k + 7
  {
  }

  lemma EarlierThursday(n: int, k: int)
    requires n <= k - 4
    ensures Thursday(n) < k
  {
  }

  /** The year's own count gives the ISO week from its first week's Monday on. */
  lemma FromFirstMonday(n: int, y: int, f: int)
    requires f == Jan1(y) + Delta((Jan1(y) + 1) % 7, 1, true) && f <= n && Thursday(n) < Jan1(y + 1)
    ensures (n - f) / 7 == IsoWeek(n)
  {
    hide Jan1, YearOf;
    DeltaIso(Jan1(y));
    YearOfExactly(Thursday(n), y);
  }

  /** Days before it belong to the year before, whose first week starts early enough to hold them. */
  lemma BeforeFirstMonday(n: int, y: int, f: int)
    requires f == Jan1(y) + Delta((Jan1(y) + 1) % 7, 1, true) && Jan1(y) <= n < f
    ensures Thursday(n) < Jan1(y) && Jan1(y - 1) + Delta((Jan1(y - 1) + 1) % 7, 1, true) + 4 <= n
  {
    hide Jan1;
    DeltaIso(Jan1(y));
    DeltaIso(Jan1(y - 1));
    YearAdvances(y - 1);
  }

  lemma FromWeekStart(n: int, start: int)
    requires 0 <= start <= 6
    ensures WeekStart(Jan1(YearOf(n)), start) <= n
    ensures (n - WeekStart(Jan1(YearOf(n)), start)) / 7 == CalendarWeek(n, start)
  {
    YearOfExactly(n, YearOf(n));
    hide Jan1, YearOf;
    var w, v := WeekStart(n, start), WeekStart(Jan1(YearOf(n)), start);
    assert (w + 1 - start) % 7 == 0 && (v + 1 - start) % 7 == 0;
  }

  /** The instant the zone gives for the start of January 1st of signed year y. */
  function NewYearInstant(zone: Zone, y: int): real { Resolve(zone, Jan1(y) as real * 86400.0) }

  lemma FirstOfYear(cs: DateComponents, y: int, zone: Zone)
    requires cs.hour == 0 && cs.minute == 0 && cs.seconds == 0.0 && cs.date == NewYear(y)
    ensures IntervalFromLocal(zone, cs) == NewYearInstant(zone, y)
  {
    MidnightIsDayNumber(NewYear(y));
  }

  lemma YearStartIs(d: Date)
    requires ValidDate(d)
    ensures d.(month := 1, day := 1) == NewYear(SignedYear(d.era, d.year))
  {
  }

  /** rint forgives anything under half a day. */
  lemma RintDays(days: int, slack: real)
    requires -43200.0 < slack < 43200.0
    ensures Rint((days as real * 86400.0 + slack) / 86400.0) == days
  {
    assert (days as real * 86400.0 + slack) / 86400.0 == days as real + slack / 86400.0;
    assert -0.5 < slack / 86400.0 < 0.5;
  }

  /** Two seconds after the midnight that the code gets from the midnight cache: the one the wall clock would show if
      the offset in force now had been in force then. */
  function EarlyInDay(now: real, zone: Zone): real { now - MidnightCache.SecondsOfDay(zone, now) + 2.0 }

  function LocalDay(zone: Zone, t: real): int { ((t + zone(t)) / 86400.0).Floor }

  lemma LocalDayIs(zone: Zone, t: real) returns (s: real)
    ensures t + zone(t) == LocalDay(zone, t) as real * 86400.0 + s && 0.0 <= s < 86400.0
    ensures s == MidnightCache.SecondsOfDay(zone, t)
  {
    hide UtcComponents, ClockSeconds;
    var n := ClockIsSecondsOfDay(t + zone(t));
    s := ClockSeconds(UtcComponents(t + zone(t)));
    MidnightCache.FloorOfShift(s / 86400.0, n);
    assert (t + zone(t)) / 86400.0 == s / 86400.0 + n as real;
  }

  /** The date the code works with is the day's, or a change of the clock since midnight puts it on another day of the
      same year, away from the last days of December. */
  predicate DateAgrees(zone: Zone, now: real) {
    var d, n := LocalDay(zone, now), LocalDay(zone, EarlyInDay(now, zone));
    n == d || (YearOf(n) == YearOf(d) && n <= Jan1(YearOf(d) + 1) - 4 && d <= Jan1(YearOf(d) + 1) - 4)
  }

  /** The zone shows the start of the year, with an offset less than half a day from the present one, and within three
      days of New Year the clock has not been put forward since. */
  predicate YearStartsAsNow(zone: Zone, now: real, y: int) {
    var p, d := NewYearInstant(zone, y), LocalDay(zone, now);
    && Reads(zone, p, Jan1(y) as real * 86400.0)
    && -43202.0 < zone(p) - zone(now) < 43198.0
    && (-3 <= d - Jan1(y) <= 3 ==> zone(now) - zone(p) <= 2.0)
  }

  /** At a fixed offset all this holds. */
  lemma FixedOffsetAgrees(now: real, offset: real, y: int)
    ensures var zone: Zone := (u: real) => offset;
            DateAgrees(zone, now) && YearStartsAsNow(zone, now, y)
  {
    hide UtcComponents, ClockSeconds, Jan1, YearOf;
    var zone: Zone := (u: real) => offset;
    var s := LocalDayIs(zone, now);
    var d := LocalDay(zone, now);
    var m := EarlyInDay(now, zone);
    assert m + zone(m) == d as real * 86400.0 + 2.0;
    assert (m + zone(m)) / 86400.0 == 2.0 / 86400.0 + d as real;
    MidnightCache.FloorOfShift(2.0 / 86400.0, d);
  }

  // ---------------------------------------------------------------- the number the code computes, in any zone

  /** The start of a year's first week, counted in days from what the zone gives for New Year. */
  function FirstWeek(zone: Zone, y: int, weekStartDay: int, useISO8601: bool): real {
    var p := NewYearInstant(zone, y);
    p + (Delta(Weekday(p + zone(p)), weekStartDay, useISO8601) * 86400) as real
  }

  /** The end of December that belongs to the next year's first week. */
  predicate EarlyExit(zone: Zone, midnight: real) {
    var n := LocalDay(zone, midnight);
    Thursday(n) >= Jan1(YearOf(n) + 1)
  }

  /** The year whose weeks are counted. */
  function CountingYear(zone: Zone, midnight: real, weekStartDay: int, useISO8601: bool): int {
    var y := YearOf(LocalDay(zone, midnight));
    if midnight >= FirstWeek(zone, y, weekStartDay, useISO8601) then y else y - 1
  }

  function WeekShown(zone: Zone, midnight: real, weekStartDay: int, useISO8601: bool): int {
    if useISO8601 && EarlyExit(zone, midnight) then 0
    else
      var first := FirstWeek(zone, CountingYear(zone, midnight, weekStartDay, useISO8601), weekStartDay, useISO8601);
      Rint((midnight - first) / 86400.0) / 7
  }

  /** Whether one of the last days of December is in the first week of the next year, which starts on day k. */
  method InFirstWeekOfNextYear(day: int, local: real, ghost n: int, ghost s: real, ghost k: int) returns (early: bool)
    requires 29 <= day <= 31 && n == k - (32 - day) && local == n as real * 86400.0 + s && 0.0 <= s < 86400.0
    ensures Thursday(n) < k + 7 && (early <==> Thursday(n) >= k)
  {
    hide Weekday, Thursday;
    var weekday := Weekday(local);
    WeekdayIs(local, n, s);
    EndOfDecember(n, day, k);
    var weekdayOfDec31 := (weekday + (31 - day)) % 7;
    early := weekdayOfDec31 <= 3 && weekdayOfDec31 >= 1 && weekdayOfDec31 + day >= 32;
  }

  /** The year before the one an instant's day is in has begun, and its first week too. */
  lemma YearBeforeHasBegun(zone: Zone, midnight: real, weekStartDay: int, useISO8601: bool)
    requires BoundedZone(zone) && 0 <= weekStartDay <= 6
    ensures var y := YearOf(LocalDay(zone, midnight));
            && midnight >= NewYearInstant(zone, y - 1)
            && midnight >= FirstWeek(zone, y - 1, weekStartDay, useISO8601)
  {
    assert -86400.0 <= zone(midnight) <= 86400.0;
    hide LocalDay, Jan1, YearOf, NewYearInstant, Weekday, Delta, BoundedZone, MidnightCache.SecondsOfDay;
    var n := LocalDay(zone, midnight);
    var s := LocalDayIs(zone, midnight);
    var y := YearOf(n);
    YearOfExactly(n, y);
    NewYearsAscend(y - 1, y);
    var p := NewYearInstant(zone, y - 1);
    OffsetUsed(zone, y - 1);
    WeekdayInRange(p + zone(p));
    DeltaIsSmall(Weekday(p + zone(p)), weekStartDay, useISO8601);
    LongAfter(midnight, zone(midnight), n, s, Jan1(y - 1), p, Delta(Weekday(p + zone(p)), weekStartDay, useISO8601));
  }

  lemma LongAfter(midnight: real, offset: real, n: int, s: real, j: int, p: real, delta: int)
    requires midnight + offset == n as real * 86400.0 + s && s >= 0.0 && offset <= 86400.0 && n >= j + 355
    requires -86400.0 <= j as real * 86400.0 - p && delta <= 3
    ensures midnight >= p && midnight >= p + (delta * 86400) as real
  {
  }

  lemma DeltaIsSmall(weekday: int, weekStartDay: int, useISO8601: bool)
    requires 0 <= weekday <= 6 && 0 <= weekStartDay <= 6
    ensures -6 <= Delta(weekday, weekStartDay, useISO8601) <= 3
  {
  }

  lemma OffsetUsed(zone: Zone, y: int)
    requires BoundedZone(zone)
    ensures -86400.0 <= Jan1(y) as real * 86400.0 - NewYearInstant(zone, y) <= 86400.0
  {
    hide Jan1;
  }

  lemma WeekdayInRange(local: real)
    ensures 0 <= Weekday(local) <= 6
  {
    var n := (local / 86400.0).Floor;
    assert local == local / 86400.0 * 86400.0;
    WeekdayIs(local, n, local - n as real * 86400.0);
  }

  /** Two seconds into the day, as the midnight cache has it, decide the week.  The loop body runs at most twice, the
      assertion at its end holds, and if the cache is right, or is refilled from a clean day, those seconds are into
      the day the wall clock shows. */
  method WeekOfYearNumber(env: MidnightCache.TimeEnvironment, now: real, weekStartDay: int, useISO8601: bool)
    returns (week: int, ghost passes: nat)
    requires 0 <= weekStartDay <= 6 && (useISO8601 ==> weekStartDay == 1) && BoundedZone(env.zone)
    modifies env`cacheMidnightBase, env`cacheDSTEvent, env`cacheDSTDelta
    ensures env.Cached() == if old(MidnightCache.InSpan(env.Cached(), now)) then old(env.Cached())
                            else MidnightCache.Refill(env.zone, env.zoneNext, now)
    ensures week == WeekShown(env.zone, MidnightCache.Answer(env.Cached(), now) + 2.0, weekStartDay, useISO8601)
    ensures old(env.Valid()) && MidnightCache.Proper(now)
            && (old(MidnightCache.InSpan(env.Cached(), now)) || MidnightCache.Sound(env.zone, env.zoneNext, now)) ==>
              env.Valid() && week == WeekShown(env.zone, EarlyInDay(now, env.zone), weekStartDay, useISO8601)
    ensures passes <= 2
  {
    hide *;
    var midnight := env.MidnightForTimeInterval(now);
    assert midnight == now - MidnightCache.SecondsOfDay(env.zone, now) ==>
             midnight + 2.0 == EarlyInDay(now, env.zone) by { EarlyIs(now, env.zone); }
    week, passes := WeekFrom(env.zone, midnight + 2.0, weekStartDay, useISO8601);
  }

  lemma EarlyIs(now: real, zone: Zone)
    ensures EarlyInDay(now, zone) == now - MidnightCache.SecondsOfDay(zone, now) + 2.0
  {
  }

  /** The computation from the midnight on. */
  method WeekFrom(zone: Zone, midnight: real, weekStartDay: int, useISO8601: bool)
    returns (week: int, ghost passes: nat)
    requires 0 <= weekStartDay <= 6 && (useISO8601 ==> weekStartDay == 1) && BoundedZone(zone)
    ensures week == WeekShown(zone, midnight, weekStartDay, useISO8601) && passes <= 2
  {
    hide UtcComponents, IntervalFromLocal, Jan1, YearOf, Weekday, DayNumber, Rint, NewYearInstant, Thursday, Delta;
    hide LocalDay, ValidDate, NewYear, BoundedZone;
    ghost var n := LocalDay(zone, midnight);
    ghost var s := LocalDayIs(zone, midnight);
    var cs := LocalComponents(midnight, zone);
    DayFromInstant(midnight + zone(midnight), n, s);
    DateInYear(cs.date);
    ghost var y := SignedYear(cs.date.era, cs.date.year);
    YearOfExactly(n, y);
    passes := 0;

    if useISO8601 && cs.date.month == 12 && cs.date.day >= 29 {
      var early := InFirstWeekOfNextYear(cs.date.day, midnight + zone(midnight), n, s, Jan1(y + 1));
      if early {
        return 0, passes;
      }
    } else if useISO8601 {
      EarlierThursday(n, Jan1(y + 1));
    }

    var yearStart := cs.(date := cs.date.(month := 1, day := 1), hour := 0, minute := 0, seconds := 0.0);
    YearStartIs(cs.date);
    FirstOfYear(yearStart, y, zone);
    var first := IntervalFromLocal(zone, yearStart);
    YearBeforeHasBegun(zone, midnight, weekStartDay, useISO8601);
    while true
      invariant passes <= 1
      invariant yearStart.hour == 0 && yearStart.minute == 0 && yearStart.seconds == 0.0
      invariant yearStart.date == NewYear(y - passes) && first == NewYearInstant(zone, y - passes)
      invariant passes == 1 ==> midnight < FirstWeek(zone, y, weekStartDay, useISO8601)
      decreases 2 - passes
    {
      var weekdayOfJan1 := Weekday(first + zone(first));
      var delta := Delta(weekdayOfJan1, weekStartDay, useISO8601);
      first := first + (delta * 86400) as real;
      passes := passes + 1;
      if midnight >= first {
        break;
      }
      yearStart := YearBefore(yearStart);
      YearBeforeIs(y);
      FirstOfYear(yearStart, y - 1, zone);
      first := IntervalFromLocal(zone, yearStart);
      assert midnight >= first;
    }
    var logicalDayOfYear := Rint((midnight - first) / 86400.0);
    week := logicalDayOfYear / 7;
  }

  lemma YearBeforeIs(y: int)
    ensures forall cs: DateComponents :: cs.date == NewYear(y) ==> YearBefore(cs) == cs.(date := NewYear(y - 1))
  {
  }

  function YearBefore(cs: DateComponents): DateComponents {
    var d := cs.date;
    cs.(date := if d.era <= 0 then d.(year := d.year + 1)
                else if d.year == 1 then d.(era := 0)
                else d.(year := d.year - 1))
  }

  // ---------------------------------------------------------------- when that number is right

  function RightWeek(d: int, weekStartDay: int, useISO8601: bool): int {
    if useISO8601 then IsoWeek(d) else CalendarWeek(d, weekStartDay)
  }

  /** The first day of a year's first week, and the year to whose weeks a day belongs. */
  function FirstDay(y: int, weekStartDay: int, useISO8601: bool): int {
    Jan1(y) + Delta((Jan1(y) + 1) % 7, weekStartDay, useISO8601)
  }

  function WeekYear(d: int, useISO8601: bool): int { YearOf(if useISO8601 then Thursday(d) else d) }

  /** By how much the code's distance from the first week exceeds whole days: two seconds, the change of the clock since
      New Year, and the days by which a New Year the zone does not show misleads about its weekday. */
  function Slack(zone: Zone, now: real, y: int, weekStartDay: int, useISO8601: bool): real {
    var p := NewYearInstant(zone, y);
    2.0 + (Jan1(y) as real * 86400.0 - p - zone(now))
    + ((FirstDay(y, weekStartDay, useISO8601) - Jan1(y) - Delta(Weekday(p + zone(p)), weekStartDay, useISO8601))
       * 86400) as real
  }

  /** The days this makes after rounding. */
  function Slip(days: int, slack: real): int { Rint(days as real + slack / 86400.0) - days }

  /** A day is in its year's first week or after it, and the weeks since then are its number. */
  lemma RightWeekCounts(d: int, weekStartDay: int, useISO8601: bool)
    requires 0 <= weekStartDay <= 6 && (useISO8601 ==> weekStartDay == 1)
    ensures var days := d - FirstDay(WeekYear(d, useISO8601), weekStartDay, useISO8601);
            days >= 0 && RightWeek(d, weekStartDay, useISO8601) == days / 7
  {
    var w := WeekYear(d, useISO8601);
    hide Jan1, YearOf;
    if useISO8601 {
      YearOfExactly(Thursday(d), w);
      FromFirstThursday(d, w);
      FromFirstMonday(d, w, FirstDay(w, weekStartDay, true));
    } else {
      hide Delta, WeekStart, CalendarWeek;
      FromWeekStart(d, weekStartDay);
      DeltaStart(Jan1(w), weekStartDay);
    }
  }

  lemma FromFirstThursday(d: int, y: int)
    requires Jan1(y) <= Thursday(d)
    ensures FirstDay(y, 1, true) <= d
  {
    hide Jan1;
    DeltaIso(Jan1(y));
  }

  lemma DistanceIs(zone: Zone, now: real, y: int, weekStartDay: int, useISO8601: bool)
    ensures var d := LocalDay(zone, now);
            EarlyInDay(now, zone) - FirstWeek(zone, y, weekStartDay, useISO8601)
            == (d - FirstDay(y, weekStartDay, useISO8601)) as real * 86400.0
               + Slack(zone, now, y, weekStartDay, useISO8601)
  {
    var s := LocalDayIs(zone, now);
    hide LocalDay, Jan1, NewYearInstant, Weekday, Delta, MidnightCache.SecondsOfDay;
  }

  lemma DaysCounted(zone: Zone, now: real, y: int, weekStartDay: int, useISO8601: bool)
    ensures var days := LocalDay(zone, now) - FirstDay(y, weekStartDay, useISO8601);
            Rint((EarlyInDay(now, zone) - FirstWeek(zone, y, weekStartDay, useISO8601)) / 86400.0)
            == days + Slip(days, Slack(zone, now, y, weekStartDay, useISO8601))
  {
    DistanceIs(zone, now, y, weekStartDay, useISO8601);
    hide LocalDay, FirstDay, Slack, FirstWeek, EarlyInDay, Rint;
    var days := LocalDay(zone, now) - FirstDay(y, weekStartDay, useISO8601);
    var slack := Slack(zone, now, y, weekStartDay, useISO8601);
    assert (days as real * 86400.0 + slack) / 86400.0 == days as real + slack / 86400.0;
  }

  /** Nothing slips by more than nine days. */
  lemma SlipIsSmall(zone: Zone, now: real, y: int, weekStartDay: int, useISO8601: bool, days: int)
    requires BoundedZone(zone) && 0 <= weekStartDay <= 6
    ensures -9 <= Slip(days, Slack(zone, now, y, weekStartDay, useISO8601)) <= 9
  {
    var p := NewYearInstant(zone, y);
    OffsetUsed(zone, y);
    WeekdayInRange(p + zone(p));
    assert -86400.0 <= zone(now) <= 86400.0;
    DeltaIsSmall(Weekday(p + zone(p)), weekStartDay, useISO8601);
    DeltaIsSmall((Jan1(y) + 1) % 7, weekStartDay, useISO8601);
    hide Jan1, NewYearInstant, Weekday, BoundedZone, Slip, Delta;
    var slack := Slack(zone, now, y, weekStartDay, useISO8601);
    assert -8.5 * 86400.0 <= slack <= 8.5 * 86400.0;
    hide Slack;
    SlipIsRounded(days, slack);
  }

  lemma SlipIsRounded(days: int, slack: real)
    requires -8.5 * 86400.0 <= slack <= 8.5 * 86400.0
    ensures -9 <= Slip(days, slack) <= 9
  {
    var x := slack / 86400.0;
    assert -8.5 <= x <= 8.5;
  }

  lemma OtherYearIsFar(z: int, w: int, weekStartDay: int, useISO8601: bool)
    requires 0 <= weekStartDay <= 6 && z != w
    ensures var a, b := FirstDay(z, weekStartDay, useISO8601), FirstDay(w, weekStartDay, useISO8601);
            if z < w then a + 340 <= b else b + 340 <= a
  {
    if z < w {
      NewYearsAscend(z, w);
    } else {
      NewYearsAscend(w, z);
    }
    hide Jan1;
  }

  /** The early exit is taken in the first week; or the right year's weeks are counted, and what slips stays within the
      day's week. */
  predicate CountsRight(zone: Zone, now: real, weekStartDay: int, useISO8601: bool) {
    var d, midnight := LocalDay(zone, now), EarlyInDay(now, zone);
    var w := WeekYear(d, useISO8601);
    var days := d - FirstDay(w, weekStartDay, useISO8601);
    if useISO8601 && EarlyExit(zone, midnight) then days < 7
    else
      && CountingYear(zone, midnight, weekStartDay, useISO8601) == w
      && 0 <= days % 7 + Slip(days, Slack(zone, now, w, weekStartDay, useISO8601)) < 7
  }

  /** In any zone the number computed from the right midnight is right exactly then. */
  lemma WeekShownExactly(zone: Zone, now: real, weekStartDay: int, useISO8601: bool)
    requires BoundedZone(zone) && 0 <= weekStartDay <= 6 && (useISO8601 ==> weekStartDay == 1)
    ensures WeekShown(zone, EarlyInDay(now, zone), weekStartDay, useISO8601)
            == RightWeek(LocalDay(zone, now), weekStartDay, useISO8601)
       <==> CountsRight(zone, now, weekStartDay, useISO8601)
  {
    var d, midnight := LocalDay(zone, now), EarlyInDay(now, zone);
    var w, z := WeekYear(d, useISO8601), CountingYear(zone, midnight, weekStartDay, useISO8601);
    hide LocalDay, EarlyInDay, WeekYear, CountingYear, EarlyExit, RightWeek, FirstDay, Slack, Slip, FirstWeek, Rint;
    hide BoundedZone;
    RightWeekCounts(d, weekStartDay, useISO8601);
    DaysCounted(zone, now, z, weekStartDay, useISO8601);
    SlipIsSmall(zone, now, z, weekStartDay, useISO8601, d - FirstDay(z, weekStartDay, useISO8601));
    if z != w {
      OtherYearIsFar(z, w, weekStartDay, useISO8601);
    }
  }

  // ---------------------------------------------------------------- zones for which it always is

  /** With New Year shown under about the present offset nothing slips. */
  lemma NothingSlips(zone: Zone, now: real, y: int, weekStartDay: int, useISO8601: bool, days: int)
    requires YearStartsAsNow(zone, now, y)
    ensures var slack := Slack(zone, now, y, weekStartDay, useISO8601);
            && -43200.0 < slack < 43200.0 && Slip(days, slack) == 0
            && (-3 <= LocalDay(zone, now) - Jan1(y) <= 3 ==> slack >= 0.0)
  {
    var p := NewYearInstant(zone, y);
    WeekdayIs(p + zone(p), Jan1(y), 0.0);
    hide Jan1, NewYearInstant, Weekday, LocalDay, Delta;
    var slack := Slack(zone, now, y, weekStartDay, useISO8601);
    assert slack == 2.0 + zone(p) - zone(now);
    assert days as real + slack / 86400.0 == (days as real * 86400.0 + slack) / 86400.0;
    RintDays(days, slack);
  }

  /** Then the right year's weeks are counted, too. */
  lemma BeginsWhenItDoes(zone: Zone, now: real, weekStartDay: int, useISO8601: bool)
    requires 0 <= weekStartDay <= 6 && DateAgrees(zone, now)
    requires YearStartsAsNow(zone, now, YearOf(LocalDay(zone, now)))
    ensures var d, midnight := LocalDay(zone, now), EarlyInDay(now, zone);
            var y := YearOf(d);
            CountingYear(zone, midnight, weekStartDay, useISO8601)
            == if d >= FirstDay(y, weekStartDay, useISO8601) then y else y - 1
  {
    var d := LocalDay(zone, now);
    var y := YearOf(d);
    var days := d - FirstDay(y, weekStartDay, useISO8601);
    assert y == YearOf(LocalDay(zone, EarlyInDay(now, zone)));
    hide LocalDay, Slack, Slip, FirstWeek, EarlyInDay, YearStartsAsNow, FirstDay, DateAgrees, Jan1, YearOf;
    NothingSlips(zone, now, y, weekStartDay, useISO8601, 0);
    DistanceIs(zone, now, y, weekStartDay, useISO8601);
    if days == 0 {
      NearNewYear(d, y, weekStartDay, useISO8601);
    }
    NotBefore(days, Slack(zone, now, y, weekStartDay, useISO8601));
  }

  lemma NearNewYear(d: int, y: int, weekStartDay: int, useISO8601: bool)
    requires 0 <= weekStartDay <= 6 && y == YearOf(d) && d == FirstDay(y, weekStartDay, useISO8601)
    ensures -3 <= d - Jan1(y) <= 3
  {
    YearOfExactly(d, y);
    hide Jan1, YearOf;
  }

  lemma NotBefore(days: int, slack: real)
    requires -43200.0 < slack < 43200.0 && (days == 0 ==> slack >= 0.0)
    ensures days as real * 86400.0 + slack >= 0.0 <==> days >= 0
  {
    assert days >= 1 ==> days as real * 86400.0 >= 86400.0;
    assert days <= -1 ==> days as real * 86400.0 <= -86400.0;
  }

  /** In a zone that shows the start of the year, or of the two years for ISO weeks, with about the present offset, the
      number is right: the ISO week, or the week counted from the one with New Year, each from 0. */
  lemma WeekShownIsRight(zone: Zone, now: real, weekStartDay: int, useISO8601: bool)
    requires BoundedZone(zone) && 0 <= weekStartDay <= 6 && (useISO8601 ==> weekStartDay == 1)
    requires DateAgrees(zone, now) && YearStartsAsNow(zone, now, YearOf(LocalDay(zone, now)))
    requires useISO8601 ==> YearStartsAsNow(zone, now, YearOf(LocalDay(zone, now)) - 1)
    ensures WeekShown(zone, EarlyInDay(now, zone), weekStartDay, useISO8601)
            == RightWeek(LocalDay(zone, now), weekStartDay, useISO8601)
  {
    hide *;
    WeekShownExactly(zone, now, weekStartDay, useISO8601);
    OrdinaryCounts(zone, now, weekStartDay, useISO8601);
  }

  lemma OrdinaryCounts(zone: Zone, now: real, weekStartDay: int, useISO8601: bool)
    requires BoundedZone(zone) && 0 <= weekStartDay <= 6 && (useISO8601 ==> weekStartDay == 1)
    requires DateAgrees(zone, now) && YearStartsAsNow(zone, now, YearOf(LocalDay(zone, now)))
    requires useISO8601 ==> YearStartsAsNow(zone, now, YearOf(LocalDay(zone, now)) - 1)
    ensures CountsRight(zone, now, weekStartDay, useISO8601)
  {
    var d := LocalDay(zone, now);
    var y, w := YearOf(d), WeekYear(d, useISO8601);
    hide LocalDay, EarlyInDay, EarlyExit, CountingYear, FirstDay, Slack, Slip, YearStartsAsNow, Jan1, YearOf;
    hide BoundedZone, DateAgrees, Thursday;
    BeginsWhenItDoes(zone, now, weekStartDay, useISO8601);
    ExitAgrees(zone, now);
    if useISO8601 {
      WeekYearIs(d, y);
      if Thursday(d) >= Jan1(y + 1) {
        FirstWeekIsShort(d, y);
      } else {
        NothingSlips(zone, now, w, weekStartDay, useISO8601, d - FirstDay(w, weekStartDay, useISO8601));
      }
    } else {
      RightWeekCounts(d, weekStartDay, useISO8601);
      NothingSlips(zone, now, w, weekStartDay, useISO8601, d - FirstDay(w, weekStartDay, useISO8601));
    }
  }

  lemma ExitAgrees(zone: Zone, now: real)
    requires DateAgrees(zone, now)
    ensures EarlyExit(zone, EarlyInDay(now, zone)) <==>
            Thursday(LocalDay(zone, now)) >= Jan1(YearOf(LocalDay(zone, now)) + 1)
  {
    hide LocalDay, EarlyInDay, Jan1, YearOf;
  }

  /** A day belongs to its own year's weeks, or to the next one's from the Thursday rule on, or to the last one's before
      the first Monday. */
  lemma WeekYearIs(d: int, y: int)
    requires y == YearOf(d)
    ensures WeekYear(d, true) == if Thursday(d) >= Jan1(y + 1) then y + 1
                                 else if d >= FirstDay(y, 1, true) then y
                                 else y - 1
  {
    YearOfExactly(d, y);
    YearAdvances(y - 1);
    YearAdvances(y + 1);
    DeltaIso(Jan1(y));
    YearOfExactly(Thursday(d), y - 1);
    YearOfExactly(Thursday(d), y);
    YearOfExactly(Thursday(d), y + 1);
    hide Jan1, YearOf;
  }

  lemma FirstWeekIsShort(d: int, y: int)
    requires y == YearOf(d) && Thursday(d) >= Jan1(y + 1)
    ensures d - FirstDay(y + 1, 1, true) < 7
  {
    YearOfExactly(d, y);
    DeltaIso(Jan1(y + 1));
    hide Jan1, YearOf;
  }

  /** So it is at a fixed offset. */
  lemma FixedOffsetIsRight(now: real, offset: real, weekStartDay: int, useISO8601: bool)
    requires -MAX_OFFSET <= offset <= MAX_OFFSET
    requires 0 <= weekStartDay <= 6 && (useISO8601 ==> weekStartDay == 1)
    ensures var zone: Zone := (u: real) => offset;
            WeekShown(zone, EarlyInDay(now, zone), weekStartDay, useISO8601)
            == RightWeek(LocalDay(zone, now), weekStartDay, useISO8601)
  {
    var zone: Zone := (u: real) => offset;
    var y := YearOf(LocalDay(zone, now));
    assert BoundedZone(zone);
    FixedOffsetAgrees(now, offset, y);
    FixedOffsetAgrees(now, offset, y - 1);
    hide *;
    WeekShownIsRight(zone, now, weekStartDay, useISO8601);
  }

  lemma In2001()
    ensures Jan1(2001) == 0 && YearOf(108) == 2001
  {
    NewYear2001();
    YearAdvances(2001);
    hide Jan1, YearOf;
    YearOfExactly(108, 2001);
  }

  lemma NewYear2001()
    ensures Jan1(2001) == 0
  {
    NewYearCounts(2001);
    assert CenturyStart(20) == 730485;
  }

  /** Where the date line was moved a hundred days into 2001, a Monday is still shown in the week before. */
  lemma DateLineExample()
    ensures var zone: Zone := (u: real) => if u < 8640000.0 then -36000.0 else 50400.0;
            BoundedZone(zone) && LocalDay(zone, 9064800.0) == 105 && !CountsRight(zone, 9064800.0, 1, true)
  {
    var zone: Zone := (u: real) => if u < 8640000.0 then -36000.0 else 50400.0;
    In2001();
    hide Jan1, YearOf;
    assert zone(0.0) == -36000.0 && zone(36000.0) == -36000.0;
    assert NewYearInstant(zone, 2001) == 36000.0;
    WeekdayIs(0.0, 0, 0.0);
    hide Weekday, NewYearInstant;
    assert FirstDay(2001, 1, true) == 0;
    assert Slack(zone, 9064800.0, 2001, 1, true) == -86398.0;
    assert Slip(105, -86398.0) == -1;
  }
}
