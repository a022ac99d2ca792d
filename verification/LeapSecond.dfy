/** Leap seconds (src/ESLeapSecond.cpp): a table of events, a cached position in it found by bisection, and the
    elapsed-time functions built on it.  The functions take any table; the library's own is proved well formed. */
module LeapSecond {

  datatype Event = Event(beginning: real, leapSeconds: real, cumulative: real)

  const LEAP_SECOND_TABLE: seq<Event> := [
    Event(-899510400.0, 1.0, 1.0),
    Event(-883612800.0, 1.0, 2.0),
    Event(-852076800.0, 1.0, 3.0),
    Event(-820540800.0, 1.0, 4.0),
    Event(-789004800.0, 1.0, 5.0),
    Event(-757382400.0, 1.0, 6.0),
    Event(-725846400.0, 1.0, 7.0),
    Event(-694310400.0, 1.0, 8.0),
    Event(-662774400.0, 1.0, 9.0),
    Event(-615513600.0, 1.0, 10.0),
    Event(-583977600.0, 1.0, 11.0),
    Event(-552441600.0, 1.0, 12.0),
    Event(-489283200.0, 1.0, 13.0),
    Event(-410313600.0, 1.0, 14.0),
    Event(-347155200.0, 1.0, 15.0),
    Event(-315619200.0, 1.0, 16.0),
    Event(-268358400.0, 1.0, 17.0),
    Event(-236822400.0, 1.0, 18.0),
    Event(-205286400.0, 1.0, 19.0),
    Event(-157852800.0, 1.0, 20.0),
    Event(-110592000.0, 1.0, 21.0),
    Event(-63158400.0, 1.0, 22.0),
    Event(157766400.0, 1.0, 23.0),
    Event(252460800.0, 1.0, 24.0),
    Event(362793600.0, 1.0, 25.0),
    Event(457401600.0, 1.0, 26.0),
    Event(504921600.0, 1.0, 27.0)
  ]

  /** The interval that stands for "never". */
  const FAR_FAR_IN_THE_FUTURE: real := 1e150

  /** Event times increase and each cumulative total adds its own event to the one before. */
  ghost predicate ValidTable(es: seq<Event>) {
    && |es| >= 2
    && es[0].cumulative == es[0].leapSeconds
    && forall i :: 0 < i < |es| ==> Follows(es[i - 1], es[i])
  }

  predicate Follows(e: Event, f: Event) {
    e.beginning < f.beginning && f.cumulative == e.cumulative + f.leapSeconds
  }

  lemma {:induction false} TimesIncrease(es: seq<Event>, i: int, j: int)
    requires ValidTable(es) && 0 <= i < j < |es|
    ensures es[i].beginning < es[j].beginning
    decreases j
  {
    if i < j - 1 {
      TimesIncrease(es, i, j - 1);
    }
  }

  // ---------------------------------------------------------------- what the lookups mean

  /** Leap seconds of the events strictly before an instant, added up event by event. */
  function SecondsBefore(es: seq<Event>, utc: real): real {
    if es == [] then 0.0
    else
      var last := es[|es| - 1];
      SecondsBefore(es[..|es| - 1], utc) + (if last.beginning < utc then last.leapSeconds else 0.0)
  }

  /** Leap seconds of the events in [from, to). */
  function SecondsDuring(es: seq<Event>, from: real, to: real): real {
    if es == [] then 0.0
    else
      var last := es[|es| - 1];
      SecondsDuring(es[..|es| - 1], from, to)
      + (if from <= last.beginning < to then last.leapSeconds else 0.0)
  }

  /** The first k events are exactly those strictly before utc. */
  ghost predicate Splits(es: seq<Event>, utc: real, k: int) {
    && 0 <= k <= |es|
    && (forall i :: 0 <= i < k ==> es[i].beginning < utc)
    && (forall i :: k <= i < |es| ==> utc <= es[i].beginning)
  }

  /** In a valid table the events before an instant add up to the stored total of the last of them. */
  lemma {:induction false} SecondsBeforeIsCumulative(es: seq<Event>, utc: real, k: int, n: int)
    requires ValidTable(es) && Splits(es, utc, k) && 0 <= n <= |es|
    ensures SecondsBefore(es[..n], utc)
            == (if k == 0 || n == 0 then 0.0 else es[(if n < k then n else k) - 1].cumulative)
    decreases n
  {
    if n > 0 {
      assert es[..n][..n - 1] == es[..n - 1];
      SecondsBeforeIsCumulative(es, utc, k, n - 1);
    }
  }

  lemma CumulativeAt(es: seq<Event>, utc: real, k: int)
    requires ValidTable(es) && Splits(es, utc, k)
    ensures SecondsBefore(es, utc) == (if k == 0 then 0.0 else es[k - 1].cumulative)
  {
    SecondsBeforeIsCumulative(es, utc, k, |es|);
    assert es[..|es|] == es;
  }

  /** Between two neighbouring events, the earlier and all before it are past. */
  lemma SplitsBetween(es: seq<Event>, utc: real, k: int)
    requires ValidTable(es) && 0 <= k <= |es|
    requires k > 0 ==> es[k - 1].beginning < utc
    requires k < |es| ==> utc <= es[k].beginning
    ensures Splits(es, utc, k)
  {
    forall i | 0 <= i < k
      ensures es[i].beginning < utc
    {
      if i < k - 1 { TimesIncrease(es, i, k - 1); }
    }
    forall i | k <= i < |es|
      ensures utc <= es[i].beginning
    {
      if k < i { TimesIncrease(es, k, i); }
    }
  }

  /** The first event at or after an instant, or never. */
  ghost predicate IsNextEvent(es: seq<Event>, utc: real, date: real, delta: real) {
    (exists k :: Splits(es, utc, k) && k < |es| && date == es[k].beginning && delta == es[k].leapSeconds)
    || (Splits(es, utc, |es|) && date == FAR_FAR_IN_THE_FUTURE && delta == 0.0)
  }

  // ---------------------------------------------------------------- the lookups themselves

  class LeapSecondTable {
    const events: seq<Event>
    var cacheLastEvent: int

    constructor (es: seq<Event>)
      requires ValidTable(es)
      ensures Valid() && events == es
    {
      events := es;
      cacheLastEvent := 0;
    }

    /** The cache may point anywhere but at the last entry. */
    ghost predicate Valid()
      reads this
    {
      ValidTable(events) && 0 <= cacheLastEvent < |events| - 1
    }

    predicate CacheHolds(utc: real)
      requires 0 <= cacheLastEvent < |events| - 1
      reads this
    {
      events[cacheLastEvent].beginning < utc <= events[cacheLastEvent + 1].beginning
    }

    method FindAndCacheEventPriorTo(utc: real)
      requires Valid()
      requires events[0].beginning < utc <= events[|events| - 1].beginning
      modifies this`cacheLastEvent
      ensures Valid() && CacheHolds(utc)
      ensures Splits(events, utc, cacheLastEvent + 1)
    {
      var idx1, idx2 := 0, |events| - 1;
      while idx2 - idx1 > 1
        invariant 0 <= idx1 < idx2 < |events|
        invariant events[idx1].beginning < utc <= events[idx2].beginning
      {
        var pivot := (idx1 + idx2) / 2;
        if utc > events[pivot].beginning {
          idx1 := pivot;
        } else {
          idx2 := pivot;
        }
      }
      cacheLastEvent := idx1;
      SplitsBetween(events, utc, idx1 + 1);
    }

    method CumulativeLeapSecondsForUtc(utc: real) returns (total: real)
      requires Valid()
      modifies this`cacheLastEvent
      ensures Valid()
      ensures total == SecondsBefore(events, utc)
    {
      if utc > events[|events| - 1].beginning {
        SplitsBetween(events, utc, |events|);
        CumulativeAt(events, utc, |events|);
        total := events[|events| - 1].cumulative;
      } else if utc <= events[0].beginning {
        SplitsBetween(events, utc, 0);
        CumulativeAt(events, utc, 0);
        total := 0.0;
      } else {
        if !CacheHolds(utc) {
          FindAndCacheEventPriorTo(utc);
        }
        SplitsBetween(events, utc, cacheLastEvent + 1);
        CumulativeAt(events, utc, cacheLastEvent + 1);
        total := events[cacheLastEvent].cumulative;
      }
    }

    method NextLeapSecondAfter(utc: real) returns (date: real, delta: real)
      requires Valid()
      modifies this`cacheLastEvent
      ensures Valid()
      ensures IsNextEvent(events, utc, date, delta)
    {
      if utc > events[|events| - 1].beginning {
        SplitsBetween(events, utc, |events|);
        return FAR_FAR_IN_THE_FUTURE, 0.0;
      }
      if utc <= events[0].beginning {
        SplitsBetween(events, utc, 0);
        return events[0].beginning, events[0].leapSeconds;
      }
      if !CacheHolds(utc) {
        FindAndCacheEventPriorTo(utc);
      }
      SplitsBetween(events, utc, cacheLastEvent + 1);
      return events[cacheLastEvent + 1].beginning, events[cacheLastEvent + 1].leapSeconds;
    }

    method LeapSecondsDuringInterval(utc1: real, utc2: real) returns (seconds: real)
      requires Valid()
      modifies this`cacheLastEvent
      ensures Valid()
      ensures utc1 <= utc2 ==> seconds == SecondsDuring(events, utc1, utc2)
      ensures utc2 <= utc1 ==> seconds == -SecondsDuring(events, utc2, utc1)
    {
      var c2 := CumulativeLeapSecondsForUtc(utc2);
      var c1 := CumulativeLeapSecondsForUtc(utc1);
      if utc1 <= utc2 {
        DuringIsDifference(events, utc1, utc2);
      }
      if utc2 <= utc1 {
        DuringIsDifference(events, utc2, utc1);
      }
      seconds := c2 - c1;
    }

    method IntervalBetweenUtcValues(utc1: real, utc2: real) returns (interval: real)
      requires Valid()
      modifies this`cacheLastEvent
      ensures Valid()
      ensures interval == Elapsed(events, utc1, utc2)
    {
      var c2 := CumulativeLeapSecondsForUtc(utc2);
      var c1 := CumulativeLeapSecondsForUtc(utc1);
      interval := utc2 + c2 - (utc1 + c1);
    }

    method IntervalWithLiveLeapCorrections(utc1: real, live1: real, utc2: real, live2: real) returns (delta: real)
      requires Valid()
      modifies this`cacheLastEvent
      ensures Valid()
      ensures delta == ElapsedLive(events, utc1, live1, utc2, live2)
    {
      delta := utc2 - utc1;
      var during2 := CumulativeLeapSecondsForUtc(utc2);
      var during1 := CumulativeLeapSecondsForUtc(utc1);
      delta := delta + (during2 - during1);
      if live1 > 1.0 {
        delta := delta - (live1 - 1.0);
      }
      if live2 > 1.0 {
        delta := delta + (live2 - 1.0);
      }
    }

    /** Splitting an interval at any point, whatever the cache holds each time, adds up. */
    method IntervalsAdd(utc1: real, utc2: real, utc3: real) returns (whole: real, parts: real)
      requires Valid()
      modifies this`cacheLastEvent
      ensures Valid() && whole == parts == Elapsed(events, utc1, utc3)
    {
      whole := IntervalBetweenUtcValues(utc1, utc3);
      var first := IntervalBetweenUtcValues(utc1, utc2);
      var second := IntervalBetweenUtcValues(utc2, utc3);
      parts := first + second;
    }
  }

  // ---------------------------------------------------------------- elapsed time

  function Elapsed(es: seq<Event>, utc1: real, utc2: real): real {
    utc2 + SecondsBefore(es, utc2) - (utc1 + SecondsBefore(es, utc1))
  }

  /** What remains of a live correction once its first second is discounted. */
  function LiveExtra(live: real): real {
    if live > 1.0 then live - 1.0 else 0.0
  }

  function ElapsedLive(es: seq<Event>, utc1: real, live1: real, utc2: real, live2: real): real {
    Elapsed(es, utc1, utc2) - LiveExtra(live1) + LiveExtra(live2)
  }

  lemma {:induction false} DuringIsDifference(es: seq<Event>, from: real, to: real)
    requires from <= to
    ensures SecondsDuring(es, from, to) == SecondsBefore(es, to) - SecondsBefore(es, from)
  {
    if es != [] {
      DuringIsDifference(es[..|es| - 1], from, to);
    }
  }

  /** Elapsed time is the difference of the labels plus the leap seconds between them. */
  lemma ElapsedCountsLeaps(es: seq<Event>, utc1: real, utc2: real)
    requires utc1 <= utc2
    ensures Elapsed(es, utc1, utc2) == utc2 - utc1 + SecondsDuring(es, utc1, utc2)
  {
    DuringIsDifference(es, utc1, utc2);
  }

  /** Without negative leap seconds, later labels are later by at least their difference. */
  lemma {:induction false} ElapsedMonotone(es: seq<Event>, utc1: real, utc2: real)
    requires utc1 <= utc2 && forall i :: 0 <= i < |es| ==> es[i].leapSeconds >= 0.0
    ensures Elapsed(es, utc1, utc2) >= utc2 - utc1
  {
    if es != [] {
      ElapsedMonotone(es[..|es| - 1], utc1, utc2);
    }
  }

  /** The library's own 27 entries form a valid table ending at its total of 27 seconds. */
  lemma TheTableIsValid()
    ensures ValidTable(LEAP_SECOND_TABLE)
    ensures |LEAP_SECOND_TABLE| == 27
    ensures LEAP_SECOND_TABLE[0].beginning == -899510400.0
    ensures LEAP_SECOND_TABLE[26].beginning == 504921600.0 && LEAP_SECOND_TABLE[26].cumulative == 27.0
    ensures forall i :: 0 <= i < 27 ==> LEAP_SECOND_TABLE[i].leapSeconds == 1.0
  {
    var es := LEAP_SECOND_TABLE;
    var i := 1;
    while i < 27
      invariant 1 <= i <= 27
      invariant forall j :: 0 < j < i ==> Follows(es[j - 1], es[j])
      invariant forall j :: 0 <= j < i ==> es[j].leapSeconds == 1.0
    {
      assert Follows(es[i - 1], es[i]) && es[i].leapSeconds == 1.0;
      i := i + 1;
    }
  }
}
