/** Showing UTC around a leap second (src/ESTimeInl.hpp, src/ESTime.cpp).  A raw time runs on uniformly; the displayed
    time is held just short of the leap while a positive leap second passes, and a live correction lets elapsed time be
    recovered from what was displayed. */
module LeapAdjust {
  import opened LeapSecond

  /** The statics _nextLeapSecondDate and _nextLeapSecondDelta. */
  datatype NextLeap = NextLeap(date: real, delta: real)

  const HOLD_SHORT: real := 0.000001

  /** The code's assertion that an adjustment in force has a nonzero size. */
  predicate Armed(next: NextLeap, rawUtc: real) {
    rawUtc >= next.date - 1.0 ==> next.delta != 0.0
  }

  function AdjustGuts(next: NextLeap, rawUtc: real): real {
    if next.delta > 0.0 then
      (if rawUtc > next.date + next.delta then rawUtc - next.delta else next.date - HOLD_SHORT)
    else rawUtc - next.delta
  }

  function Adjust(next: NextLeap, rawUtc: real): real {
    if rawUtc >= next.date then AdjustGuts(next, rawUtc) else rawUtc
  }

  datatype Display = Display(utc: real, live: real)

  function AdjustGutsLive(next: NextLeap, rawUtc: real): Display {
    if next.delta > 0.0 then
      var timeSinceStart := rawUtc - next.date;
      if timeSinceStart > next.delta then Display(rawUtc - next.delta, 0.0)
      else Display(if timeSinceStart > 0.0 then next.date - HOLD_SHORT else rawUtc, timeSinceStart + HOLD_SHORT + 1.0)
    else Display(rawUtc - next.delta, 0.0)
  }

  function AdjustLive(next: NextLeap, rawUtc: real): Display {
    if rawUtc >= next.date - 1.0 then AdjustGutsLive(next, rawUtc) else Display(rawUtc, 0.0)
  }

  // ---------------------------------------------------------------- the displayed time

  /** Raw times for which the positive leap second is passing. */
  predicate Holding(next: NextLeap, rawUtc: real) {
    next.delta > 0.0 && next.date <= rawUtc <= next.date + next.delta
  }

  /** Readings in the last instant before the hold. */
  predicate InLastMicrosecond(next: NextLeap, rawUtc: real) {
    next.delta > 0.0 && next.date - HOLD_SHORT < rawUtc <= next.date
  }

  /** The display steps back exactly when it goes from the last microsecond before a positive leap into the hold, and
      then by less than the hold interval; the date never advances past the leap before the leap is over. */
  lemma DisplayStepsBackOnlyIntoHold(next: NextLeap, raw1: real, raw2: real)
    requires Armed(next, raw2) && raw1 <= raw2
    ensures Adjust(next, raw1) > Adjust(next, raw2)
       <==> InLastMicrosecond(next, raw1) && raw1 < next.date && Holding(next, raw2)
    ensures Adjust(next, raw1) < Adjust(next, raw2) + 0.000001
    ensures next.delta > 0.0 && raw2 <= next.date + next.delta ==> Adjust(next, raw2) < next.date
  {
  }

  /** The two variants show the same time except at the very instant of a positive leap, and throughout the second
      before a negative one, where the live variant has already skipped ahead. */
  lemma VariantsAgreeExactly(next: NextLeap, rawUtc: real)
    requires Armed(next, rawUtc)
    ensures AdjustLive(next, rawUtc).utc == Adjust(next, rawUtc)
       <==> !(next.delta > 0.0 && rawUtc == next.date)
            && !(next.delta < 0.0 && next.date - 1.0 <= rawUtc < next.date)
  {
  }

  // ---------------------------------------------------------------- continuous time and back

  function NtpTimeForCTime(next: NextLeap, contSkew: real, cTime: real): real {
    Adjust(next, cTime + contSkew)
  }

  function CTimeForNtpTime(next: NextLeap, contSkew: real, ntpTime: real): real {
    if ntpTime > next.date then (ntpTime + next.delta) - contSkew else ntpTime - contSkew
  }

  /** A displayed time converts to continuous time and back to itself except the leap instant itself and, for a
      negative leap, the labels that leap removes. */
  lemma NtpRoundTripExactly(next: NextLeap, contSkew: real, ntpTime: real)
    requires next.delta != 0.0
    ensures NtpTimeForCTime(next, contSkew, CTimeForNtpTime(next, contSkew, ntpTime)) == ntpTime
       <==> (if next.delta > 0.0 then ntpTime != next.date
             else !(next.date <= ntpTime < next.date - next.delta))
  {
  }

  /** A continuous time survives display and conversion exactly when it is not held; a negative leap loses none. */
  lemma CTimeRoundTripExactly(next: NextLeap, contSkew: real, cTime: real)
    requires next.delta != 0.0
    ensures CTimeForNtpTime(next, contSkew, NtpTimeForCTime(next, contSkew, cTime)) == cTime
       <==> !Holding(next, cTime + contSkew)
  {
  }

  /** If the correction is off by at most so much, so is the time shown, but for the hold: unless a negative leap comes
      between the two. */
  lemma ShownWithinError(next: NextLeap, contSkew: real, trueSkew: real, error: real, cTime: real)
    requires trueSkew - error <= contSkew <= trueSkew + error
    requires next.delta >= 0.0 || (cTime + contSkew < next.date <==> cTime + trueSkew < next.date)
    ensures var shown, utc := NtpTimeForCTime(next, contSkew, cTime), NtpTimeForCTime(next, trueSkew, cTime);
            utc - error - 0.000001 <= shown <= utc + error + 0.000001
    ensures cTime + contSkew < next.date && cTime + trueSkew < next.date ==>
              NtpTimeForCTime(next, contSkew, cTime) - NtpTimeForCTime(next, trueSkew, cTime) == contSkew - trueSkew
  {
  }

  // ---------------------------------------------------------------- elapsed time is recoverable

  /** Event k is a positive leap, `next` holds it, and a raw time lies between the events on either side of it. */
  ghost predicate AroundEvent(es: seq<Event>, k: int, next: NextLeap, rawUtc: real) {
    && ValidTable(es) && 0 <= k < |es|
    && next == NextLeap(es[k].beginning, es[k].leapSeconds) && next.delta > 0.0
    && (k > 0 ==> es[k - 1].beginning < next.date - HOLD_SHORT && es[k - 1].beginning < rawUtc)
    && (k + 1 < |es| ==> rawUtc <= es[k + 1].beginning)
  }

  /** How far a reading in the last microsecond before the leap overstates elapsed time. */
  function Overstated(next: NextLeap, rawUtc: real): real {
    if InLastMicrosecond(next, rawUtc) then rawUtc - (next.date - HOLD_SHORT) else 0.0
  }

  function CumulativeBeforeEvent(es: seq<Event>, k: int): real
    requires 0 <= k < |es|
  {
    if k == 0 then 0.0 else es[k - 1].cumulative
  }

  /** One displayed reading, with its leap seconds and live correction, is the raw time up to a constant. */
  lemma ReadingRecoversRawTime(es: seq<Event>, k: int, next: NextLeap, rawUtc: real)
    requires AroundEvent(es, k, next, rawUtc)
    ensures var shown := AdjustLive(next, rawUtc);
            shown.utc + SecondsBefore(es, shown.utc) + LiveExtra(shown.live)
            == rawUtc + CumulativeBeforeEvent(es, k) + Overstated(next, rawUtc)
    ensures 0.0 <= Overstated(next, rawUtc) <= 0.000001
  {
    var shown := AdjustLive(next, rawUtc);
    if rawUtc <= next.date + next.delta {
      SplitsBetween(es, shown.utc, k);
      CumulativeAt(es, shown.utc, k);
    } else {
      SplitsBetween(es, shown.utc, k + 1);
      CumulativeAt(es, shown.utc, k + 1);
      assert k > 0 ==> Follows(es[k - 1], es[k]);
    }
  }

  /** For two raw times around the same positive leap, the elapsed time computed from what was displayed is the raw
      difference, exact but for readings in the last microsecond before the leap, each of which adds what it
      overstates: at most a microsecond. */
  lemma ElapsedTimeRecoverable(es: seq<Event>, k: int, next: NextLeap, raw1: real, raw2: real)
    requires AroundEvent(es, k, next, raw1) && AroundEvent(es, k, next, raw2)
    ensures var d1, d2 := AdjustLive(next, raw1), AdjustLive(next, raw2);
            ElapsedLive(es, d1.utc, d1.live, d2.utc, d2.live)
            == (raw2 - raw1) + Overstated(next, raw2) - Overstated(next, raw1)
    ensures !InLastMicrosecond(next, raw1) && !InLastMicrosecond(next, raw2) ==>
              var d1, d2 := AdjustLive(next, raw1), AdjustLive(next, raw2);
              ElapsedLive(es, d1.utc, d1.live, d2.utc, d2.live) == raw2 - raw1
  {
    ReadingRecoversRawTime(es, k, next, raw1);
    ReadingRecoversRawTime(es, k, next, raw2);
  }

  // ---------------------------------------------------------------- the clock's own state

  datatype SourceStatus =
    | Off | Unsynchronized | PollingUnsynchronized | FailedUnsynchronized | NoNetUnsynchronized
    | Synchronized | PollingSynchronized | FailedSynchronized | NoNetSynchronized
    | Refining | PollingRefining | FailedRefining | NoNetRefining

  predicate StatusIsUsable(status: SourceStatus) {
    status.Synchronized? || status.PollingSynchronized? || status.FailedSynchronized? || status.Refining?
    || status.FailedRefining? || status.NoNetSynchronized? || status.NoNetRefining?
  }

  /** A time source as recheckForBestDriver sees it. */
  datatype Driver = Driver(id: int, status: SourceStatus, timeError: real)

  /** The choice among time sources: never worse than any usable one, unchanged unless that is a strict improvement,
      and the first in the list of those equally good. */
  ghost predicate BestChoice(drivers: seq<Driver>, oldBest: Driver, best: Driver) {
    && (best == oldBest || best in drivers)
    && (forall d :: d in drivers && StatusIsUsable(d.status) ==>
          StatusIsUsable(best.status) && best.timeError <= d.timeError)
    && (best != oldBest ==>
          StatusIsUsable(best.status) && (StatusIsUsable(oldBest.status) ==> best.timeError < oldBest.timeError))
    && (best != oldBest ==> exists i :: 0 <= i < |drivers| && FirstBest(drivers, i, best))
  }

  ghost predicate FirstBest(drivers: seq<Driver>, i: int, best: Driver)
    requires 0 <= i < |drivers|
  {
    && drivers[i] == best
    && forall j :: 0 <= j < i && StatusIsUsable(drivers[j].status) ==> best.timeError < drivers[j].timeError
  }

  /** What a source knows of the time, whatever it is doing about it: nothing, something, or all it wants. */
  datatype Knowledge = Nothing | Something | Enough

  function KnowledgeOf(status: SourceStatus): Knowledge {
    match status
    case Off | Unsynchronized | PollingUnsynchronized | FailedUnsynchronized | NoNetUnsynchronized => Nothing
    case Synchronized | PollingSynchronized | FailedSynchronized | NoNetSynchronized => Enough
    case Refining | PollingRefining | FailedRefining | NoNetRefining => Something
  }

  /** A source is usable exactly if it knows something, except while it polls to know more. */
  lemma UsableExactly(status: SourceStatus)
    ensures StatusIsUsable(status) <==> !KnowledgeOf(status).Nothing? && !status.PollingRefining?
  {
  }

  /** The status the NTP driver takes when it starts to sync (src/ESNTPDriver.cpp). */
  function OnResync(status: SourceStatus, userRequested: bool): SourceStatus {
    match status
    case Unsynchronized | PollingUnsynchronized | FailedUnsynchronized | NoNetUnsynchronized => PollingUnsynchronized
    case Synchronized | PollingSynchronized | FailedSynchronized | NoNetSynchronized =>
      if userRequested then PollingSynchronized else PollingUnsynchronized
    case PollingRefining | Refining | FailedRefining =>
      if userRequested then PollingRefining else PollingUnsynchronized
    case _ => PollingUnsynchronized
  }

  /** A resync the user asks for lets the source keep what it knows, unless it was refining when the net went away; but
      it stays usable only if it was synchronised.  Any other resync makes it forget. */
  lemma ResyncKeepsExactly(status: SourceStatus)
    ensures KnowledgeOf(OnResync(status, true)) == KnowledgeOf(status) <==> !status.NoNetRefining?
    ensures StatusIsUsable(OnResync(status, true)) <==> KnowledgeOf(status).Enough?
    ensures KnowledgeOf(OnResync(status, false)).Nothing?
    ensures OnResync(OnResync(status, true), true) == OnResync(status, true)
  {
  }

  /** So when the user asks a source that is refining for more, any usable source takes its place, however much
      worse. */
  lemma RefiningSourceIsGivenUp(drivers: seq<Driver>, status: SourceStatus, oldBest: Driver, best: Driver,
                                other: Driver)
    requires KnowledgeOf(status).Something? && oldBest.status == OnResync(status, true)
    requires BestChoice(drivers, oldBest, best) && other in drivers && StatusIsUsable(other.status)
    ensures best != oldBest && best.timeError <= other.timeError
  {
    ResyncKeepsExactly(status);
  }

  /** The leap-second statics and the time sources of ESTime. */
  class TimeBase {
    var next: NextLeap
    var contSkew: real
    var drivers: seq<Driver>
    var bestDriver: Driver

    constructor (skew: real, initial: Driver, all: seq<Driver>)
      ensures next == NextLeap(FAR_FAR_IN_THE_FUTURE, 0.0) && contSkew == skew
      ensures bestDriver == initial && drivers == all
    {
      next := NextLeap(FAR_FAR_IN_THE_FUTURE, 0.0);
      contSkew := skew;
      drivers, bestDriver := all, initial;
    }

    /** currentTime() when the continuous clock reads cTime. */
    function CurrentTime(cTime: real): real
      reads this
    {
      NtpTimeForCTime(next, contSkew, cTime)
    }

    /** Look up the next leap from the time now displayed.  A raw time is then shown unadjusted exactly when it lies
        before the event found. */
    method SetupNextLeapSecondData(table: LeapSecondTable, cTime: real)
      requires table.Valid() && forall i :: 0 <= i < |table.events| ==> table.events[i].leapSeconds != 0.0
      modifies this`next, table`cacheLastEvent
      ensures table.Valid()
      ensures IsNextEvent(table.events, old(CurrentTime(cTime)), next.date, next.delta)
      ensures next.date < FAR_FAR_IN_THE_FUTURE ==> forall raw: real :: Adjust(next, raw) == raw <==> raw < next.date
    {
      var utcNow := CurrentTime(cTime);
      var date, delta := table.NextLeapSecondAfter(utcNow);
      next := NextLeap(date, delta);
    }

    method RecheckForBestDriver() returns (changed: bool)
      modifies this`bestDriver
      ensures BestChoice(drivers, old(bestDriver), bestDriver)
      ensures changed <==> bestDriver != old(bestDriver)
    {
      var oldBest := bestDriver;
      var bestAccuracy := bestDriver.timeError;
      var bestIsUsable := StatusIsUsable(bestDriver.status);
      for i := 0 to |drivers|
        invariant drivers == old(drivers)
        invariant bestAccuracy == bestDriver.timeError && bestIsUsable == StatusIsUsable(bestDriver.status)
        invariant BestChoice(drivers[..i], oldBest, bestDriver)
      {
        var driver := drivers[i];
        assert drivers[..i + 1] == drivers[..i] + [driver];
        ghost var first :| bestDriver == oldBest || (0 <= first < i && FirstBest(drivers[..i], first, bestDriver));
        assert bestDriver == oldBest || FirstBest(drivers[..i + 1], first, bestDriver);
        if driver == oldBest {
          continue;
        }
        if StatusIsUsable(driver.status) && (!bestIsUsable || driver.timeError < bestAccuracy) {
          bestDriver := driver;
          assert FirstBest(drivers[..i + 1], i, driver);
          bestIsUsable := true;
          bestAccuracy := driver.timeError;
        }
      }
      assert drivers[..|drivers|] == drivers;
      changed := oldBest != bestDriver;
    }
  }
}
