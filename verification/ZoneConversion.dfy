/** Local time (src/ESCalendar_simpleTZ.cpp, src/ESCalendar.cpp): a time zone is its UTC-offset function, and the
    inversion from local components looks the offset up twice. */
module ZoneConversion {
  import opened Calendar
  import opened Common
  import opened HybridDates

  /** Seconds ahead of UTC at each instant. */
  type Zone = real -> real

  function LocalComponents(t: real, off: Zone): DateComponents {
    UtcComponents(t + off(t))
  }

  /** The instant chosen for a local reading given in seconds. */
  function Resolve(off: Zone, localT: real): real {
    var offsetAtLocalT := off(localT);
    var tryUtc := localT - offsetAtLocalT;
    var offsetAtTryUtc := off(tryUtc);
    if offsetAtTryUtc == offsetAtLocalT then tryUtc else localT - offsetAtTryUtc
  }

  function IntervalFromLocal(off: Zone, cs: DateComponents): real {
    Resolve(off, IntervalFromUtc(cs))
  }

  const MAX_OFFSET: real := 86400.0

  ghost predicate BoundedZone(off: Zone) {
    forall u :: -MAX_OFFSET <= off(u) <= MAX_OFFSET
  }

  /** Within a day of localT the offset changes at most once, from `before` to `after` at `change` (which may lie
      outside the window: then there is no change near). */
  ghost predicate OneChangeNear(off: Zone, localT: real, change: real, before: real, after: real) {
    && BoundedZone(off)
    && -MAX_OFFSET <= before <= MAX_OFFSET && -MAX_OFFSET <= after <= MAX_OFFSET
    && forall u :: localT - MAX_OFFSET <= u <= localT + MAX_OFFSET ==>
         off(u) == if u < change then before else after
  }

  predicate Reads(off: Zone, u: real, localT: real) { u + off(u) == localT }

  /** The wall clock jumps over these readings. */
  predicate InGap(localT: real, change: real, before: real, after: real) {
    change + before <= localT < change + after
  }

  /** The wall clock shows these readings twice. */
  predicate InOverlap(localT: real, change: real, before: real, after: real) {
    change + after <= localT < change + before
  }

  /** The chosen instant shows the requested reading exactly when some instant does, which is when the reading is not
      in a gap. */
  lemma ResolveReadsWhenPossible(off: Zone, localT: real, change: real, before: real, after: real)
    requires OneChangeNear(off, localT, change, before, after)
    ensures Reads(off, Resolve(off, localT), localT) <==> exists u :: Reads(off, u, localT)
    ensures Reads(off, Resolve(off, localT), localT) <==> !InGap(localT, change, before, after)
  {
    var r := Resolve(off, localT);
    assert localT - MAX_OFFSET <= localT - off(localT) <= localT + MAX_OFFSET;
    if u :| Reads(off, u, localT) {
      assert localT - MAX_OFFSET <= u <= localT + MAX_OFFSET;
      assert !InGap(localT, change, before, after);
    }
    if !InGap(localT, change, before, after) {
      assert Reads(off, r, localT);
    }
  }

  /** In a gap the reading of the chosen instant misses the request by the length of the gap: backwards when the
      requested reading, taken as UTC, lies before the change, forwards otherwise. */
  lemma GapShift(off: Zone, localT: real, change: real, before: real, after: real)
    requires OneChangeNear(off, localT, change, before, after)
    requires InGap(localT, change, before, after)
    ensures var r := Resolve(off, localT);
            r + off(r) == (if localT < change then localT - (after - before) else localT + (after - before))
  {
    assert localT - MAX_OFFSET <= localT - off(localT) <= localT + MAX_OFFSET;
  }

  /** Of two instants with the same reading the earlier one is chosen exactly when the reading, taken as UTC, lies
      before the change; a zone east of Greenwich gets the later one. */
  lemma OverlapChoice(off: Zone, localT: real, change: real, before: real, after: real)
    requires OneChangeNear(off, localT, change, before, after)
    requires InOverlap(localT, change, before, after)
    ensures Reads(off, localT - before, localT) && Reads(off, localT - after, localT)
    ensures localT - before < localT - after
    ensures Resolve(off, localT) == localT - before <==> localT < change
    ensures Resolve(off, localT) == localT - after <==> localT >= change
    ensures before <= 0.0 ==> localT < change
    ensures after >= 0.0 ==> localT >= change
  {
    assert localT - MAX_OFFSET <= localT - off(localT) <= localT + MAX_OFFSET;
  }

  /** An hour is repeated in a zone two hours ahead of Greenwich: the conversion returns the second of the two
      answers. */
  lemma EastOverlapExample()
    ensures var off: Zone := (u: real) => if u < 0.0 then 7200.0 else 3600.0;
            && OneChangeNear(off, 5000.0, 0.0, 7200.0, 3600.0) && InOverlap(5000.0, 0.0, 7200.0, 3600.0)
            && Reads(off, -2200.0, 5000.0) && Reads(off, 1400.0, 5000.0) && Resolve(off, 5000.0) == 1400.0
  {
    var off: Zone := (u: real) => if u < 0.0 then 7200.0 else 3600.0;
    OverlapChoice(off, 5000.0, 0.0, 7200.0, 3600.0);
  }

  /** A valid local date and time comes back from its instant exactly when the zone shows it at all. */
  lemma LocalRoundTrip(off: Zone, cs: DateComponents, change: real, before: real, after: real)
    requires ValidComponents(cs)
    requires OneChangeNear(off, IntervalFromUtc(cs), change, before, after)
    ensures LocalComponents(IntervalFromLocal(off, cs), off) == cs
       <==> exists u :: Reads(off, u, IntervalFromUtc(cs))
  {
    hide UtcComponents, IntervalFromUtc, ValidComponents;
    var localT := IntervalFromUtc(cs);
    var r := Resolve(off, localT);
    ResolveReadsWhenPossible(off, localT, change, before, after);
    ComponentsDetermineInstant(r + off(r), cs);
  }

  /** An instant comes back from its local components unless its reading is shown twice and the other one is chosen. */
  lemma InstantRoundTrip(off: Zone, t: real, change: real, before: real, after: real)
    requires OneChangeNear(off, t + off(t), change, before, after)
    ensures IntervalFromLocal(off, LocalComponents(t, off)) == t
       <==> (InOverlap(t + off(t), change, before, after) ==> (t < change <==> t + off(t) < change))
  {
    var localT := t + off(t);
    IntervalRoundTrip(localT);
    hide UtcComponents, IntervalFromUtc;
    assert localT - MAX_OFFSET <= t <= localT + MAX_OFFSET;
    assert localT - MAX_OFFSET <= localT - off(localT) <= localT + MAX_OFFSET;
    assert Reads(off, t, localT);
    ResolveReadsWhenPossible(off, localT, change, before, after);
  }

  // ---------------------------------------------------------------- adding days and months

  function ClockSeconds(cs: DateComponents): real {
    (cs.hour * 3600 + cs.minute * 60) as real + cs.seconds
  }

  function AddDays(now: real, off: Zone, days: int): real {
    var target := now + days as real * 86400.0;
    var deltaError := ClockSeconds(LocalComponents(target, off)) - ClockSeconds(LocalComponents(now, off));
    if Abs(deltaError) < 0.001 then target
    else if deltaError > 43200.0 then target - (deltaError - 86400.0)
    else if deltaError <= 0.0 && deltaError < -43200.0 then target - (deltaError + 86400.0)
    else target - deltaError
  }

  /** The clock fields are the seconds since local midnight, up to whole days. */
  lemma ClockIsSecondsOfDay(t: real) returns (n: int)
    ensures 0.0 <= ClockSeconds(UtcComponents(t)) < 86400.0
    ensures t == n as real * 86400.0 + ClockSeconds(UtcComponents(t))
  {
    var base := if t < SWITCHOVER then 730793 else 730791;
    var xF := base as real + t / SECONDS_PER_DAY;
    n := xF.Floor - base;
    ClockFields(xF - xF.Floor as real);
    assert t == (xF - base as real) * 86400.0;
  }

  /** One second past midnight of the local day an instant falls on, as a reading. */
  function DayStart(off: Zone, u: real): real {
    IntervalFromUtc(LocalComponents(u, off).(hour := 0, minute := 0, seconds := 1.0))
  }

  lemma DayStartIs(off: Zone, u: real) returns (n: int)
    ensures DayStart(off, u) == n as real * 86400.0 + 1.0
    ensures n as real * 86400.0 <= u + off(u) < n as real * 86400.0 + 86400.0
  {
    n := ClockIsSecondsOfDay(u + off(u));
    IntervalRoundTrip(u + off(u));
    SameDate(UtcComponents(u + off(u)));
    hide UtcComponents, IntervalFromUtc, ClockSeconds;
  }

  lemma SameDate(cs: DateComponents)
    ensures IntervalFromUtc(cs.(hour := 0, minute := 0, seconds := 1.0)) == IntervalFromUtc(cs) - ClockSeconds(cs) + 1.0
  {
  }

  /** The clock readings 24-hour days apart tell a shift of the clock: one under half a day, unless it is under a
      millisecond and does not carry the reading past midnight; and one of half a day if it does not. */
  predicate ShiftIsSeen(clock: real, shift: real) {
    || shift == 0.0 || 0.001 <= Abs(shift) < 43200.0
    || (Abs(shift) < 0.001 && !(0.0 <= clock + shift < 86400.0))
    || (Abs(shift) == 43200.0 && 0.0 <= clock + shift < 86400.0)
  }

  /** The result's distance on the wall clock is exactly the requested number of days, measured with the offset found
      one exact multiple of 24 hours away, if and only if the readings tell by how much the clock is shifted there.  It
      then shows the same time of day just when that offset is still in force.  Across a date-line change it is a day
      off. */
  lemma AddDaysKeepsWallClock(now: real, off: Zone, days: int)
    ensures var target, r := now + days as real * 86400.0, AddDays(now, off, days);
            var shift := off(target) - off(now);
            var seen := ShiftIsSeen(ClockSeconds(LocalComponents(now, off)), shift);
            && (r + off(target) == now + off(now) + days as real * 86400.0 <==> seen)
            && (seen ==> (Reads(off, r, now + off(now) + days as real * 86400.0) <==> off(r) == off(target)))
            && (Abs(shift) == 86400.0 ==> r + off(target) == now + off(now) + days as real * 86400.0 + shift)
  {
    hide UtcComponents;
    var target := now + days as real * 86400.0;
    var m := ClockIsSecondsOfDay(now + off(now));
    var n := ClockIsSecondsOfDay(target + off(target));
    var r := AddDays(now, off, days);
    WrapRecoversShift(ClockSeconds(LocalComponents(now, off)), ClockSeconds(LocalComponents(target, off)),
                      off(target) - off(now), days + m - n);
    if r == target - (off(target) - off(now)) {
      SameReading(off, r, now + off(now) + days as real * 86400.0, off(target));
    }
  }

  /** The wrapped difference of two clock readings is the shift between them exactly if they tell it. */
  lemma WrapRecoversShift(clockNow: real, clockThen: real, shift: real, k: int)
    requires 0.0 <= clockNow < 86400.0 && 0.0 <= clockThen < 86400.0
    requires clockThen - clockNow == shift + k as real * 86400.0
    ensures var e := clockThen - clockNow;
            var wrapped := if Abs(e) < 0.001 then 0.0
                           else if e > 43200.0 then e - 86400.0
                           else if e <= 0.0 && e < -43200.0 then e + 86400.0
                           else e;
            (wrapped == shift <==> ShiftIsSeen(clockNow, shift)) && (Abs(shift) == 86400.0 ==> wrapped == 0.0)
  {
    if Abs(shift) <= 86400.0 {
      assert -3 < k < 3;
    }
  }

  lemma SameReading(off: Zone, r: real, localT: real, offset: real)
    requires r + offset == localT
    ensures Reads(off, r, localT) <==> off(r) == offset
  {
  }

  function AddMonths(now: real, off: Zone, months: int): real
    requires 1 <= LocalComponents(now, off).date.month <= 12
  {
    var cs := LocalComponents(now, off);
    IntervalFromLocal(off, cs.(date := AddMonthsToDate(cs.date, months)))
  }

  /** The result shows the date that many months on, at the same time of day, exactly when that date is not one of the
      ten that were skipped and the zone shows that reading at all. */
  lemma AddMonthsKeepsClock(now: real, off: Zone, months: int, change: real, before: real, after: real)
    requires 1 <= LocalComponents(now, off).date.month <= 12
    requires var cs := LocalComponents(now, off);
             var target := cs.(date := AddMonthsToDate(cs.date, months));
             OneChangeNear(off, IntervalFromUtc(target), change, before, after)
    ensures var cs := LocalComponents(now, off);
            var target := cs.(date := AddMonthsToDate(cs.date, months));
            && (ValidComponents(target) <==> !InSkippedDays(target.date))
            && (LocalComponents(AddMonths(now, off, months), off) == target
                <==> !InSkippedDays(target.date) && exists u :: Reads(off, u, IntervalFromUtc(target)))
  {
    hide UtcComponents, IntervalFromUtc, AddMonthsToDate;
    var cs := LocalComponents(now, off);
    var target := cs.(date := AddMonthsToDate(cs.date, months));
    assert ValidComponents(cs) by { IntervalRoundTrip(now + off(now)); }
    AddMonthsLandsOn(cs.date, months);
    assert AddMonths(now, off, months) == IntervalFromLocal(off, target);
    var r := AddMonths(now, off, months);
    assert ValidComponents(LocalComponents(r, off)) by { IntervalRoundTrip(r + off(r)); }
    if !InSkippedDays(target.date) {
      LocalRoundTrip(off, target, change, before, after);
    }
  }
}
