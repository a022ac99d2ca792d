# estime: a verified model

estime is a library about time: it keeps a clock synchronised with NTP servers, shows UTC across leap seconds, converts
between instants and dates in a hybrid Julian/Gregorian calendar and in time zones, fires timers across threads, and
drives a watch whose hands can be sped up, stopped and reversed.  The memory debugger Electric Fence is distributed
with its NTP code.  This project models the parts of it that carry a protocol, an invariant or delicate arithmetic, and
proves what they promise.

Run `dafny verify dfyconfig.toml` (Dafny 4.11) in this directory to check everything.

| file | what it models |
|---|---|
| `Calendar.dfy`, `HybridDates.dfy` | seconds since 2001 to date and time and back; the two calendars joined on 15 October 1582; months |
| `ZoneConversion.dfy` | local time and its inversion around an offset change; adding days and months |
| `DstSearch.dfy`, `DstLoneChange.dfy` | bisection for a changed day and the slow search for the next clock change; when what it finds is the next change |
| `LeapSecond.dfy`, `LeapSecondDates.dfy`, `LeapAdjust.dfy` | the leap-second table with its cached position, and its dates; the hold, the live correction, elapsed time; choice of time source |
| `FixedPoint.dfy` | 64-bit fixed point on two 32-bit words with 16-bit carries (section 6 of RFC 5905) |
| `NtpPacket.dfy`, `NtpEstimator.dfy` | one NTP response to bounds on the clock offset (section 8 of RFC 5905); intersecting the bounds over a sync |
| `TimerThread.dfy`, `TimerService.dfy`, `TimerDelivery.dfy`, `TimerStranding.dfy` | the timer thread as a state machine over message channels; its methods as refinements; one firing pass; that timers fire on time and their observers hear of it; when a timer drops out of the queue for good |
| `SlotArena.dfy`, `BufferMemory.dfy`, `ElectricFence.dfy`, `FenceRuns.dfy` | Electric Fence's slot array, the contents of buffers, and the allocator that lives inside the memory it manages; runs of it, particular and arbitrary |
| `MidnightCache.dfy` | thirty days of local midnights answered from one |
| `WatchClock.dfy`, `WeekOfYear.dfy` | the warped watch clock; week numbers |
| `Common.dfy`, `Powers.dfy` | small helpers |

Objects whose methods update fields are classes; each method is proved equal to a step of a specification function, and
the lemmas are about those functions, for every input, every run or every reachable state.  Doubles are exact reals, C
ints are unbounded unless a width is written out, and `floor`, `rint`, shifts and truncations stay where the code has
them.  `x & 0xffff`, `x >> 16` and their kind are written as the remainders and quotients by powers of two that they
compute.  Clocks, time zones (an offset function and a "next change" function), the kernel's page allocation and
arriving packets are inputs.  `ESUtil::fmod` is not part of this repository; it is taken as the remainder that is never
negative. A failed assertion of the code is a reachable error value or a proof obligation, never an assumption.

## What the proofs found

Each of these is a lemma or a postcondition below; the model follows the code.

- Deactivating a timer takes every timer with the same fire time off the queue.  On every run, all activated timers
  stay queued exactly until the release of an activated timer that shares its fire time is processed
  (`StepCompleteExactly`, `RunCompleteExactly`); the others then never fire again (`LostNeverFires`).  Two timers set
  for the same time, of which the first is released, show it (`StrandingExample`).
- `realloc` of an address that is not a live buffer is caught, unless the new buffer is placed at that very address;
  then it returns freed memory.  The slots before the call decide that address: what the first smallest fitting free
  slot gives, or the fresh memory if none fits, once the slot array has grown if it must (`Fence.Realloc`); malloc,
  free, realloc of one size is enough (`FreedBufferComesBack`).
- With buffers protected below, an empty buffer has the address of whatever memory follows it.  The allocator's
  invariants hold all the same, but freeing such a buffer stops the program exactly when an earlier slot with its
  address is not a buffer (`Fence.FreeBuffer`, `OnlyEmptyIsShadowed`); six calls lead there
  (`EmptyBufferCannotBeFreed`).
- With freed memory protected, no later buffer ever has a byte of a freed one, on any run (`FenceRuns.Run`).  But
  freeing a buffer also protects the free memory next to it, used before or not (`Fence.FreeBuffer`): in a new
  allocator one `free` uses up the whole first megabyte (`OneFreeUsesUpTheArena`).
- With pages of a megabyte or more, `initialize` counts one slot too many as used (`Fence.Initialize`).
- Where clock changes are at least sixty days apart, the slow search reports the next one exactly when it comes at
  most 1499 minutes of wall clock after the midnight the search backs up to, or, if that midnight is skipped, under a
  condition on the skip, and otherwise fails (`LoneOutcome`, `FindNextOfMany`).  Two hours ahead of Greenwich a skip
  from 23:30 to 0:30 makes it come back to one instant until its assertion fails (`SkippedMidnightIsNotFound`); a
  change back by two hours over midnight comes too late in the day (`LateChangeBackIsNotFound`).
- The comment on the local-to-UTC conversion says the first of two possible answers is returned; zones east of
  Greenwich get the second (`OverlapChoice`, `EastOverlapExample`).
- `daysInMonth` says 31 for October 1582, which spans 21 days (`DaysInMonthSpansMonth`).
- The bisection would skip a candidate if its lower bound could be below -1; the library never passes such a bound
  (`BisectExactly`).
- The plain and the live leap-second adjustment differ throughout the second before a negative leap and also at the
  very instant of a positive one (`VariantsAgreeExactly`).
- `LFPTOFP` saturates only from 65536 on: between 32768 and 65536 the sign is lost.  `LFPTOD` loses the sign of the
  most negative number (`LFpToFpTruncatesExactly`, `LFpToDExactly`).
- When the user asks a time source that is still refining for more, it stops counting as usable, unlike one that is
  synchronised, and any usable source takes its place, however much worse (`UsableExactly`,
  `RefiningSourceIsGivenUp`); one whose network went away while it was refining forgets what it knew
  (`ResyncKeepsExactly`).
- A packet's bounds miss the true offset only at the very bottom of the l_fp range (`BoundsContainOffsetExactly`,
  `BottomOfRangeExample`).  They also hold UTC if the server is off by no more than it says, except that a server below
  stratum 8 that states the very least dispersion and a precision of 2^-19 s or better can be honest and UTC outside
  (`HonestServerBoundsUtcExactly`).
- Send throttling starts only if a ticket is asked for while exactly six packets have been received
  (`ThrottlesExactly`).
- With one clock change near, the midnight cache answers its thirty days correctly exactly when the day it starts from
  begins with a second that the wall clock shows, and without a change in it (`RefillRightExactly`).  If the clock
  skips that second every answer is off, unless the change comes within a second before the midnight found; then the
  answers before the change are right (`WrongAfterGap`, `AnswerAfterRefillExactly`).
- `addDaysToTimeInterval` does not see shifts of more than half a day: across a move of the date line its result is a
  day off on the wall clock (`AddDaysKeepsWallClock`).  Such a move since New Year makes week numbers slip at the ends
  of weeks, so that a Monday is shown in the week before (`WeekShownExactly`, `DateLineExample`).
- `contTimeForWatchTime()` without an argument answers the present for a stopped, unlatched watch, but for a running
  one on smooth time only if it shows continuous time itself (`ContTimeNowExactly`), and one call of
  `checkAndConstrainAbsoluteTime` stops a running watch but leaves it out of range (`ConstrainExactly`).  The table
  search in `cycleFromWarp` never matches, so every running speed set directly is "other" (`SpeedsAreNotRecognised`).
- `gotPacket` always returns true, so its caller never takes back the count of used packets (`NtpDriver.GotPacket`,
  `SocketDescriptor.Accept`).

## Model

| member | source | states |
|---|---|---|
| `Calendar.IntervalRoundTrip` | src/ESCalendar.cpp:19-113 | interval to components to interval is the identity for every instant, and the components are a valid hybrid date and time of day |
| `Calendar.ComponentsRoundTrip` | src/ESCalendar.cpp:81-113 | components to interval to components is the identity for every valid date (BCE, leap days, both sides of the switchover) and time of day |
| `Calendar.ComponentsDetermineInstant` | src/ESCalendar.cpp:19-113 | an instant shows given valid components if and only if it is the instant computed from them |
| `Calendar.DateOfInstant` | src/ESCalendar.cpp:19-71 | the date shown is valid and its Julian day number is that of the day containing the instant |
| `Calendar.JulianDecode` | src/ESCalendar.cpp:30-62 | every day count decodes to a well-formed Julian-calendar date that encodes back to it |
| `Calendar.JulianEncode` | src/ESCalendar.cpp:81-113 | every well-formed Julian-calendar date decodes back from its day count |
| `Calendar.GregorianDecode` | src/ESCalendar.cpp:36-62 | every day count decodes to a well-formed proleptic Gregorian date that encodes back to it |
| `Calendar.GregorianEncode` | src/ESCalendar.cpp:81-113 | every well-formed Gregorian date decodes back from its day count |
| `Calendar.JulianPartIsEarly` | src/ESCalendar.cpp:81-113 | the day count places exactly the valid dates of the Julian part before the switchover |
| `Calendar.GregorianPartIsLate` | src/ESCalendar.cpp:81-113 | the day count places exactly the dates from 15 October 1582 on at or after the switchover |
| `HybridDates.NextDayAdvances` | src/ESCalendar.cpp:81-113 | the next calendar day is valid and one Julian day later, across month ends, leap days, the missing year 0 and the skipped days |
| `HybridDates.EpochIsZero` | src/ESCalendar.cpp:81-113 | 2001-01-01 00:00 is interval 0 |
| `HybridDates.GregorianRoundTrip` | src/ESCalendar.cpp:315-430 | Gregorian to hybrid gives a valid date with the same Julian day number and converts back, for every Gregorian date |
| `HybridDates.HybridRoundTrip` | src/ESCalendar.cpp:315-430 | hybrid to Gregorian keeps the Julian day number and converts back, for every valid hybrid date |
| `HybridDates.SkippedDaysDoNotReturn` | src/ESCalendar.cpp:315-430 | of the dates that look Julian, exactly the ten skipped ones do not come back |
| `HybridDates.DateCells.ToHybrid` | src/ESCalendar.cpp:315-372 | the in-place converter leaves the hybrid date of the old contents in its cells |
| `HybridDates.DateCells.ToGregorian` | src/ESCalendar.cpp:375-430 | the in-place converter leaves the Gregorian date of the old contents in its cells |
| `HybridDates.ConvertThereAndBack` | src/ESCalendar.cpp:315-430 | converting in place there and back leaves the caller's cells unchanged |
| `HybridDates.DaysInMonthFollowsLeapRule` | src/ESCalendar.cpp:219-251 | February, measured between two day numbers, has its length by the leap rule in force; the table is right for the others |
| `HybridDates.DaysInMonthSpansMonth` | src/ESCalendar.cpp:219-251 | the answer is the distance to the next month's first day if and only if the month is not October 1582 |
| `HybridDates.AddMonthsLandsOn` | src/ESCalendar.cpp:253-286 | adding months moves the month index by exactly that many, clamps the day to the month, and is valid unless it hits the skipped days |
| `HybridDates.AddMonthsComposes` | src/ESCalendar.cpp:253-286 | for days up to the 28th adding months composes, so adding and subtracting returns |
| `ZoneConversion.ResolveReadsWhenPossible` | src/ESCalendar_simpleTZ.cpp:106-122 | with one offset change near, the instant chosen shows the requested reading if and only if some instant does, that is, outside a gap |
| `ZoneConversion.GapShift` | src/ESCalendar_simpleTZ.cpp:106-122 | in a gap the reading of the instant chosen misses by the gap's length, backwards or forwards as the request lies before or after the change |
| `ZoneConversion.OverlapChoice` | src/ESCalendar_simpleTZ.cpp:106-122 | of two instants with one reading, the earlier is chosen if and only if the reading taken as UTC precedes the change |
| `ZoneConversion.EastOverlapExample` | src/ESCalendar_simpleTZ.cpp:106-122 | a repeated hour east of Greenwich, where the later instant is chosen |
| `ZoneConversion.LocalRoundTrip` | src/ESCalendar_simpleTZ.cpp:90-122 | local components come back from their instant if and only if the zone ever shows them |
| `ZoneConversion.InstantRoundTrip` | src/ESCalendar_simpleTZ.cpp:90-122 | an instant comes back from its local components unless its reading occurs twice and the other instant is chosen |
| `ZoneConversion.ClockIsSecondsOfDay` | src/ESCalendar.cpp:64-70 | hour, minute and second are the seconds since midnight |
| `ZoneConversion.AddDaysKeepsWallClock` | src/ESCalendar.cpp:176-217 | adding days moves the wall clock by exactly that many days, seen with the offset found there, if and only if the clock readings tell the shift (under half a day, not a hidden millisecond); it then shows the same time if and only if that offset is still in force; across a date-line move it is a day off |
| `ZoneConversion.AddMonthsKeepsClock` | src/ESCalendar.cpp:253-286 | adding months shows the same time of day on the new date if and only if that date exists and the zone shows that reading |
| `DstSearch.BisectFindsChange` | src/ESCalendar.cpp:435-473 | for any predicate, monotone or not, the index found looks changed and the one before it does not |
| `DstSearch.BisectSkips` | src/ESCalendar.cpp:435-473 | with a lower bound below -1 a change right after it is missed |
| `DstSearch.BisectExactly` | src/ESCalendar.cpp:435-473 | the bounds for which the search is right for every predicate: lower bound at least -1, or adjacent bounds |
| `DstSearch.RoundsLogarithmic` | src/ESCalendar.cpp:435-473 | bounds at most 2^e + 2 apart take at most e + 3 rounds |
| `DstSearch.BinarySearch` | src/ESCalendar.cpp:435-473 | the loop computes the specified index; for 32-bit bounds the guard of 100 rounds is never reached |
| `DstSearch.BackUpToMidnight` | src/ESCalendar.cpp:516-548 | ends at a day whose first second is unchanged, at a change right at midnight, or after three rounds at the code's failing assertion: exactly the specified backing up, one local midnight at a time |
| `DstSearch.SearchDay` | src/ESCalendar.cpp:547-604 | reports a whole minute of the day at which the flag changes, and fails if and only if there is none |
| `DstSearch.DaySearchExactly` | src/ESCalendar.cpp:547-604 | of a day with one change, the change is reported if it is one of its first 1499 minutes, and otherwise none |
| `DstSearch.FindChangedDay` | src/ESCalendar.cpp:488-514 | finds a day whose flag differs from today's though the day before has it, within the sixty days before the first sample that differs; gives up if and only if all eight samples look like today |
| `DstSearch.NextDstChangeTheSlowWay` | src/ESCalendar.cpp:484-604 | every change reported has different flags one second before and after; none is reported if and only if all samples look like today; anything else, failure included, is what backing up from a changed day and searching that day come to, the day lying within the sixty days before the first sample that differs |
| `DstSearch.SearchDayFindsLoneChange` | src/ESCalendar.cpp:547-604 | a lone change on a whole minute of the day is reported exactly |
| `DstLoneChange.FirstSecondIs` | src/ESCalendar.cpp:516-531 | the instant taken for a local midnight around a lone change: in a skip or an overlap, on which side of the change it comes out |
| `DstLoneChange.LoneOutcome` | src/ESCalendar.cpp:516-604 | the next change of flag and offset, on a whole minute and with no other ten days before or sixty after, is found exactly, or the search fails, as the stated condition on that minute and the two offsets says |
| `DstLoneChange.FindLoneChange` | src/ESCalendar.cpp:484-604 | the whole search, samples and bisection included, has that outcome, whatever the flag does later |
| `DstLoneChange.FirstDifferingIsNear` | src/ESCalendar.cpp:494-507 | the first sample that differs comes less than sixty days after the next change, so before any other |
| `DstLoneChange.NextIsAlone` | src/ESCalendar.cpp:484-604 | of any number of changes at least sixty days apart the next one is such a change |
| `DstLoneChange.FindNextOfMany` | src/ESCalendar.cpp:484-604 | so with any number of changes at least sixty days apart the search reports the first one after the instant given, or fails under the stated condition |
| `DstLoneChange.OrdinaryChangesAreFound` | src/ESCalendar.cpp:484-604 | changes forward, or back by at most an hour, meet the condition unless they skip a midnight that as UTC is not before them |
| `DstLoneChange.SkippedMidnightIsNotFound` | src/ESCalendar.cpp:531-548 | a zone east of Greenwich with a skipped midnight in which the search fails |
| `DstLoneChange.LateChangeBackIsNotFound` | src/ESCalendar.cpp:547-604 | a change too late in its long day to be found |
| `LeapSecond.LeapSecondTable.FindAndCacheEventPriorTo` | src/ESLeapSecond.cpp:49-77 | the cache ends on the last event before the instant, never on the table's last entry |
| `LeapSecond.LeapSecondTable.CumulativeLeapSecondsForUtc` | src/ESLeapSecond.cpp:79-99 | from any reachable cache state, the sum of all events strictly before the instant |
| `LeapSecond.LeapSecondTable.NextLeapSecondAfter` | src/ESLeapSecond.cpp:101-130 | from any reachable cache state, the first event at or after the instant, or never |
| `LeapSecond.LeapSecondTable.IntervalBetweenUtcValues` | src/ESLeapSecond.cpp:132-138 | the elapsed time, whatever the cache holds |
| `LeapSecond.LeapSecondTable.LeapSecondsDuringInterval` | src/ESLeapSecond.cpp:140-144 | the leap seconds of the events in the half-open interval, with sign |
| `LeapSecond.LeapSecondTable.IntervalWithLiveLeapCorrections` | src/ESLeapSecond.cpp:146-160 | the elapsed time corrected by what each live correction exceeds its first second |
| `LeapSecond.LeapSecondTable.IntervalsAdd` | src/ESLeapSecond.cpp:132-138 | splitting an interval at any point adds up |
| `LeapSecond.CumulativeAt` | src/ESLeapSecond.cpp:79-99 | in a valid table the stored total of the last event before an instant is the sum of all events before it |
| `LeapSecond.DuringIsDifference` | src/ESLeapSecond.cpp:140-144 | the leap seconds within an interval are the difference of the totals at its ends |
| `LeapSecond.ElapsedCountsLeaps` | src/ESLeapSecond.cpp:132-144 | elapsed time is the difference of the labels plus the leap seconds between them |
| `LeapSecond.ElapsedMonotone` | src/ESLeapSecond.cpp:132-138 | without negative leaps elapsed time is never less than the difference of the labels |
| `LeapSecond.TheTableIsValid` | src/ESLeapSecond.cpp:15-45 | the library's own entries increase by one second each and add up to 27 |
| `LeapSecondDates.DatesTo1976` | src/ESLeapSecond.cpp:17-21 | by the library's own calendar the events begin at midnight of the months the table's comments name |
| `LeapSecondDates.DatesTo1981` | src/ESLeapSecond.cpp:22-26 | as before, for the next five events |
| `LeapSecondDates.DatesTo1993` | src/ESLeapSecond.cpp:27-34 | as before, for the next eight |
| `LeapSecondDates.DatesTo2017` | src/ESLeapSecond.cpp:35-43 | as before, for the last nine |
| `LeapAdjust.DisplayStepsBackOnlyIntoHold` | src/ESTime.cpp:331-345 | the display steps back if and only if it enters the hold from the last microsecond, and by less than that; it never passes a positive leap before it is over |
| `LeapAdjust.VariantsAgreeExactly` | src/ESTime.cpp:331-367 | where the plain and the live adjustment show the same time |
| `LeapAdjust.NtpRoundTripExactly` | src/ESTimeInl.hpp:74-91 | which displayed times survive conversion to continuous time and back |
| `LeapAdjust.CTimeRoundTripExactly` | src/ESTimeInl.hpp:74-91 | a continuous time survives display and conversion if and only if it is not held |
| `LeapAdjust.ShownWithinError` | src/ESTimeInl.hpp:74-91 | if the correction is within its error of the truth, so is the time shown, but for the hold and for negative leaps |
| `LeapAdjust.ReadingRecoversRawTime` | src/ESTime.cpp:347-368 | a displayed reading with its leap seconds and live correction is the raw time up to a constant and at most a microsecond |
| `LeapAdjust.ElapsedTimeRecoverable` | src/ESLeapSecond.cpp:146-160 | around a positive leap, elapsed time computed from what was displayed is the raw difference, exact but for readings in the last microsecond, whose excess is given |
| `LeapAdjust.TimeBase.SetupNextLeapSecondData` | src/ESTime.cpp:370-374 | the next leap is looked up from the displayed time, and a raw time is then shown unadjusted if and only if it lies before it |
| `LeapAdjust.TimeBase.RecheckForBestDriver` | src/ESTime.cpp:537-564 | the source chosen is no worse than any usable one, changes only for a strict improvement and is the first of the equally good |
| `LeapAdjust.UsableExactly` | src/ESTime.cpp:525-535 | a source is usable if and only if it knows something of the time, except while it polls to know more |
| `LeapAdjust.ResyncKeepsExactly` | src/ESNTPDriver.cpp:1353-1381 | a resync the user asks for keeps what is known unless the network went away while refining, and keeps the source usable if and only if it was synchronised; any other resync forgets |
| `LeapAdjust.RefiningSourceIsGivenUp` | src/ESTime.cpp:525-564 | so when the best source is refining and the user asks for more, any usable source takes its place, however much worse |
| `FixedPoint.HalvesAddCarry` | src/ntp_fp.h:148-186 | adding by 16-bit halves gives the 32-bit sum and its carry |
| `FixedPoint.LFp.Neg` | src/ntp_fp.h:127-134 | 64-bit negation |
| `FixedPoint.LFp.Add` | src/ntp_fp.h:148-162 | 64-bit addition modulo 2^64, also in place |
| `FixedPoint.LFp.Sub` | src/ntp_fp.h:188-207 | 64-bit subtraction modulo 2^64, also in place |
| `FixedPoint.Add3` | src/ntp_fp.h:164-186 | 96-bit addition modulo 2^96 |
| `FixedPoint.LFp.RShift` | src/ntp_fp.h:217-226 | signed halving, rounding down |
| `FixedPoint.LFp.RShiftU` | src/ntp_fp.h:209-215 | unsigned halving |
| `FixedPoint.LFp.LShift` | src/ntp_fp.h:228-234 | doubling modulo 2^64 |
| `FixedPoint.LFp.ComparisonsAreNumeric` | src/ntp_fp.h:289-295 | the word comparisons are the comparisons of the 64-bit numbers, signed and unsigned |
| `FixedPoint.AddThenSub` | src/ntp_fp.h:148-207 | subtracting undoes adding, whatever overflowed |
| `FixedPoint.LFpToFpTruncatesExactly` | src/ntp_fp.h:100-113 | the 16.16 result is the value rounded down if and only if the integer part fits 16 bits |
| `FixedPoint.LFpToDExactly` | src/ntp_fp.h:324-335 | the real is the number's value if and only if it is not the most negative |
| `FixedPoint.DoubleRoundTripExactly` | src/ntp_fp.h:309-338 | to double and back is the identity if and only if it is not the most negative |
| `NtpPacket.ComputeBounds` | src/ESNTPDriver.cpp:731-780 | the in-place l_fp operations compute offset minus and plus error as specified, from differences that wrap around as 64-bit numbers do |
| `NtpPacket.BoundsContainOffsetExactly` | src/ESNTPDriver.cpp:682-780 | for non-negative one-way delays, a round trip under 32768 s and offsets that fit, a credible packet's bounds contain the true offset, except at the bottom of the range |
| `NtpPacket.BottomOfRangeExample` | src/ESNTPDriver.cpp:682-780 | a credible exchange at the bottom of the range whose bounds miss the offset |
| `NtpPacket.BoundsAreTight` | src/ESNTPDriver.cpp:731-780 | the width of the bounds is the round trip and twice the server's error, less than 2^-16 s short of it, and their middle is within a unit of 2^-32 s of the mean of the two differences |
| `NtpPacket.BoundsContainUtc` | src/ESNTPDriver.cpp:731-780 | the bounds hold UTC whenever the server is off from it by no more than its error term, less the stated rounding |
| `NtpPacket.HonestServerBoundsUtcExactly` | src/ESNTPDriver.cpp:682-780 | the bounds hold UTC in every exchange with a server that is off by at most half its root delay and its dispersion, if and only if it states more than the least dispersion, or no precision better than 2^-18 s, or a penalised stratum |
| `NtpPacket.HonestServerMayMiss` | src/ESNTPDriver.cpp:682-780 | for every other credible server, an honest exchange whose bounds do not hold UTC |
| `NtpPacket.HostErrorAddsUp` | src/ESNTPDriver.cpp:771-777 | what precision, root delay, dispersion and a high stratum each contribute to the server's error |
| `NtpPacket.CheckExactly` | src/ESNTPDriver.cpp:619-716 | in terms of the packet's own fields, which responses are credible, which are bad packets and which are insane |
| `NtpPacket.CredibleServerRunsForward` | src/ESNTPDriver.cpp:700-716 | within one era of the server's clock, a response that was sent before its request arrived is refused, and one that passes was not |
| `NtpPacket.ErrorCoversRounding` | src/ESNTPDriver.cpp:743-780 | what two shifts and one truncation lose is less than the least error of a credible server |
| `NtpPacket.HostErrorCoversTruncation` | src/ESNTPDriver.cpp:682-687 | because zero dispersion is rejected, the server's error exceeds the rounding |
| `NtpPacket.RemoveFirstCounts` | src/ESNTPDriver.cpp:547-568 | exactly one occurrence of the stamp is unlinked |
| `NtpPacket.SocketDescriptor.TakeXmitTime` | src/ESNTPDriver.cpp:547-568 | an answer matches if and only if its stamp is outstanding, and uses up exactly one |
| `NtpPacket.SocketDescriptor.NoteBounds` | src/ESNTPDriver.cpp:781-794 | the socket's own bounds are replaced while polling and intersected otherwise |
| `NtpPacket.SocketDescriptor.Screen` | src/ESNTPDriver.cpp:619-716 | the checks of length, version, mode, stratum, precision and host error come to the specified verdict, and mark the host or the packet as bad |
| `NtpPacket.SocketDescriptor.Accept` | src/ESNTPDriver.cpp:718-810 | a credible response reaches the socket's own bounds and the driver, and is counted as used for good |
| `NtpPacket.SocketDescriptor.RecvPacket` | src/ESNTPDriver.cpp:534-810 | a response is used if and only if it answers an outstanding request and is credible, whatever its fields; what every outcome does to the list of requests, the counters and bounds of the socket and the driver |
| `NtpPacket.ReceiveTrueAnswer` | src/ESNTPDriver.cpp:534-810 | an answer with non-negative delays keeps the driver's estimate sound, and if it is used the true offset is within the error bar from then on |
| `NtpEstimator.PacketKeepsSound` | src/ESNTPDriver.cpp:1937-2011 | a packet that bounds the true skew keeps the error bar right (also when the old skew is kept), narrows the bounds and is never contradictory |
| `NtpEstimator.SkewStaysInBounds` | src/ESNTPDriver.cpp:1967-2011 | without contradiction the reported skew lies in the cumulative bounds and its error is no tighter than they justify |
| `NtpEstimator.KeepsOrSpans` | src/ESNTPDriver.cpp:1937-2011 | a packet leaves skew and error bar alone if and only if it contradicts, or the sync goes on, the bounds hold the old skew and the old bar is no wider; otherwise the bar spans the cumulative bounds exactly |
| `NtpEstimator.BarShrinksOrStays` | src/ESNTPDriver.cpp:1983-2011 | as long as the bounds hold the skew, the error bar never grows, and the skew moves only if it shrinks |
| `NtpEstimator.TrustedBarNeverGrows` | src/ESNTPDriver.cpp:1983-2011 | over any number of packets, from a trusted old status too |
| `NtpEstimator.TrustedStatusIsKept` | src/ESNTPDriver.cpp:1983-2011 | a packet no better than a trusted status leaves it as it is |
| `NtpEstimator.ResetIsSound` | src/ESNTPDriver.cpp:1384-1389 | the state a sync starts from is sound, whether or not the old status is kept |
| `NtpEstimator.SyncStaysSound` | src/ESNTPDriver.cpp:1937-2011 | over a whole sync of packets that bound the true skew, every error bar holds and no packet is contradictory |
| `NtpEstimator.BoundsAreIntersection` | src/ESNTPDriver.cpp:1937-1942 | the cumulative bounds are exactly the intersection of all bounds |
| `NtpEstimator.ContradictionExactly` | src/ESNTPDriver.cpp:1952-1966 | a packet is contradictory if and only if no skew fits it and everything before |
| `NtpEstimator.ThrottlesExactly` | src/ESNTPDriver.cpp:2177-2196 | sending is spaced by 0.5 to 15 s if and only if a ticket was asked for at exactly six packets |
| `NtpEstimator.TicketSpacing` | src/ESNTPDriver.cpp:2177-2196 | once in force, consecutive tickets are 0.5 to 15 s apart |
| `NtpEstimator.SpacingGrows` | src/ESNTPDriver.cpp:2177-2196 | once in force the spacing grows by a twentieth with every ticket until it reaches 15 s |
| `NtpEstimator.NtpDriver.SetContSkew` | src/ESTimeSourceDriver.cpp:54-68 | skew and error become the new ones |
| `NtpEstimator.NtpDriver.StartSyncing` | src/ESNTPDriver.cpp:1320-1399 | the reset, which leaves the skew and, if the old status is kept, its error bar; and that a disabled, running or unconnected driver is left alone |
| `NtpEstimator.NtpDriver.GotPacket` | src/ESNTPDriver.cpp:1932-2022 | the branches make the specified decision and the specified new estimate, keeping a better old skew, and all of them return true |
| `NtpEstimator.NtpDriver.GetThrottleTicket` | src/ESNTPDriver.cpp:2177-2196 | the branches take the specified throttle step |
| `NtpEstimator.NtpDriver.Synchronise` | src/ESNTPDriver.cpp:1384-2022 | reset and packets on the driver object itself: the error bar holds after any number of packets |
| `TimerThread.StepKeeps` | src/ESTimer.cpp:163-437 | every step of clients and timer thread keeps the protocol invariant |
| `TimerThread.HandshakeIsSafe` | src/ESTimer.cpp:235-256 | in every interleaving no deleted timer is touched and no assertion fails; each timer is notified only before release and deleted at most once, after it |
| `TimerThread.NothingInFlightAtDeletion` | src/ESTimer.cpp:235-256 | at the step that deletes a timer no message and no queue entry names it |
| `TimerThread.DrainedMeansDeleted` | src/ESTimer.cpp:387-437 | once both channels are empty no released timer is left |
| `TimerThread.HandlingShortens` | src/ESTimer.cpp:412-422 | handling a message shortens the backlog, though a receipt may send a request |
| `TimerThread.SettlingDeletesReleased` | src/ESTimer.cpp:235-256 | from any reachable state, once messages stop arriving, exactly the released timers are deleted |
| `TimerDelivery.EveryFiringIsNotified` | src/ESTimer.cpp:412-437 | on every run the observer of a timer not released has been notified once for every notification received, what has been fired beyond that is in flight, and once nothing of it is under way the notifications are exactly the firings |
| `TimerDelivery.EveryTimerIsServed` | src/ESTimer.cpp:162-206 | on every run each timer is set for its first time plus a period for each firing and queued for that; a one-shot timer fires at most once; and an activated one that is not released is waiting for the timer thread, or active, or one-shot and has fired |
| `TimerDelivery.DueWhenShown` | src/ESTimer.cpp:313-330 | a UTC timer is due just when the display shows its time, unless UTC never shows it |
| `TimerDelivery.RecalculationSchedules` | src/ESTimer.cpp:258-275 | after a jump of the clock recalculation puts every queued timer at its time under the new clock, and there it stays |
| `TimerThread.DeactivateErasesOnlyItselfExactly` | src/ESTimer.cpp:208-215 | deactivation takes only its timer off the queue if and only if no other has its fire time |
| `TimerStranding.StepCompleteExactly` | src/ESTimer.cpp:208-256 | from any reachable state with all activated timers queued, a step leaves one outside if and only if it processes the release of an activated timer whose fire time another queued one shares |
| `TimerStranding.RunCompleteExactly` | src/ESTimer.cpp:163-437 | over whole runs: all activated timers stay queued if and only if no step does that |
| `TimerStranding.OutsideQueueIsLost` | src/ESTimer.cpp:194-215 | an activated timer outside the queue has no activation on its way |
| `TimerStranding.LostNeverFires` | src/ESTimer.cpp:162-192 | it is never fired again, whatever happens, until it is deleted |
| `TimerStranding.StrandingExample` | src/ESTimer.cpp:208-256 | a run of eight steps that leaves a timer activated, unreleased and outside an empty queue |
| `TimerThread.InsertKeeps` | src/ESTimer.cpp:195-206 | inserting keeps the queue sorted and without duplicates |
| `TimerThread.EraseKeyKeeps` | src/ESTimer.cpp:208-215 | erasing by fire time keeps the queue sorted and without duplicates |
| `TimerThread.RecalculateMoves` | src/ESTimer.cpp:258-275 | rebuilding the queue changes fire times only and leaves the same timers sorted |
| `TimerService.TimerSystem.ActivateTimer` | src/ESTimer.cpp:368-379 | takes the activation step |
| `TimerService.TimerSystem.ReleaseTimer` | src/ESTimer.cpp:387-402 | takes the release step |
| `TimerService.TimerSystem.ReceiveNotificationMessage` | src/ESTimer.cpp:412-422 | takes the receipt step: the observer is notified, or if the timer was released meanwhile its deletion is asked for again |
| `TimerService.TimerSystem.ActivateInTimerThread` | src/ESTimer.cpp:194-206 | takes the timer thread's activation step |
| `TimerService.TimerSystem.Deactivate` | src/ESTimer.cpp:208-215 | takes the timer thread's deactivation step |
| `TimerService.TimerSystem.ReleaseInTimerThread` | src/ESTimer.cpp:235-256 | takes the timer thread's release step: deactivate, then delete if the counts agree |
| `TimerService.TimerSystem.ProcessRequest` | src/ESTimer.cpp:307-385 | takes the oldest request and its step |
| `TimerService.TimerSystem.DeliverNotification` | src/ESTimer.cpp:430-437 | counts a notification and sends it |
| `TimerService.TimerSystem.PossiblyRepeat` | src/ESTimer.cpp:459-466 | moves a repeating timer's time on and leaves others as they are |
| `TimerService.TimerSystem.FireOne` | src/ESTimer.cpp:173-191 | one turn of the loop is one firing step |
| `TimerService.TimerSystem.FireLapsedTimers` | src/ESTimer.cpp:162-192 | the pass ends even with repeating timers, delivers in order of fire time exactly the queued timers whose fire time is before now, one-shot ones exactly once, and leaves the rest untouched |
| `TimerService.TimerSystem.RebuildQueue` | src/ESTimer.cpp:258-273 | builds the specified queue |
| `TimerService.TimerSystem.RecalculateAllFireTimes` | src/ESTimer.cpp:258-275 | rebuilds, then fires exactly the timers lapsed by their new fire times |
| `TimerService.DeliveryKeepsRest` | src/ESTimer.cpp:172-191 | a delivery leaves what follows in the queue alone, but for the timer itself if it repeats no earlier than its successor |
| `TimerService.RepeatSpendsBudget` | src/ESTimer.cpp:459-466 | a repeating timer that comes up again has strictly fewer deliveries left in the pass |
| `TimerService.PassSpends` | src/ESTimer.cpp:172-191 | every delivery makes what is left of the pass strictly smaller |
| `SlotArena.CreateKeeps` | ntpdist/ElectricFence/efence.c:474-478 | taking fresh memory keeps the slots disjoint and covering |
| `SlotArena.SplitKeeps` | ntpdist/ElectricFence/efence.c:495-503 | splitting keeps the slots disjoint and covering the same memory, and uses one slot |
| `SlotArena.MergeKeeps` | ntpdist/ElectricFence/efence.c:659-680 | coalescing keeps the slots disjoint and covering the same memory, and frees one slot |
| `SlotArena.AppendKeeps` | ntpdist/ElectricFence/efence.c:318-325 | growing the slot array changes nothing but the number of unused slots |
| `SlotArena.UserAddressUnique` | ntpdist/ElectricFence/efence.c:567-580 | no two slots have the same user address, except an empty buffer protected below and what starts right behind it |
| `SlotArena.AddressInsideExactly` | ntpdist/ElectricFence/efence.c:505-551 | a buffer's address lies in its own slot unless it is empty and protected below |
| `SlotArena.LiveBuffersDisjoint` | ntpdist/ElectricFence/efence.c:505-551 | live buffers are disjoint, in mapped memory, and none reaches into another's dead page |
| `SlotArena.DeadIsNotLive` | ntpdist/ElectricFence/efence.c:92-99 | no live buffer has a byte of one whose memory is protected |
| `BufferMemory.MoveDone` | ntpdist/ElectricFence/efence.c:730-740 | copying and clearing move the contents and touch no other live buffer, also if freeing the old one fails in between |
| `BufferMemory.ClearDone` | ntpdist/ElectricFence/efence.c:756-764 | clearing a new buffer clears it and touches no live one |
| `ElectricFence.CarveKeeps` | ntpdist/ElectricFence/efence.c:485-552 | giving a free slot to a buffer keeps all invariants and adds exactly that buffer |
| `ElectricFence.CarveBecomes` | ntpdist/ElectricFence/efence.c:485-552 | of all bytes of the arena exactly the buffer's own, with its dead page, change hands, and they were free; protected memory stays protected |
| `ElectricFence.CoalesceKeeps` | ntpdist/ElectricFence/efence.c:650-683 | freeing keeps all invariants, counts exactly the slots it wipes and touches no other buffer |
| `ElectricFence.CoalesceBecomes` | ntpdist/ElectricFence/efence.c:650-683 | of all bytes of the arena exactly those of the slot and the free slots found next to it change, and all of them are then protected, or all free |
| `ElectricFence.RunIsRun` | ntpdist/ElectricFence/efence.c:655-680 | besides the slot's own these are free bytes, and free memory right before or behind the slot is never missed |
| `ElectricFence.FreeBuries` | ntpdist/ElectricFence/efence.c:650-683 | with freed memory protected, the whole memory of the buffer freed is protected afterwards, and so is whatever was before |
| `ElectricFence.LiveWithout` | ntpdist/ElectricFence/efence.c:619-683 | after freeing, exactly that buffer is gone |
| `ElectricFence.FirstDecides` | ntpdist/ElectricFence/efence.c:635-648 | the slot found for an address is a buffer's if and only if a buffer is live there and nothing shadows it |
| `ElectricFence.OnlyEmptyIsShadowed` | ntpdist/ElectricFence/efence.c:635-648 | only an empty buffer protected below can be shadowed |
| `ElectricFence.ListIsFirst` | ntpdist/ElectricFence/efence.c:311-326 | the slot array's own address finds it, so it can be freed when it has moved |
| `ElectricFence.ListApart` | ntpdist/ElectricFence/efence.c:306-334 | no live buffer reaches into the slot array |
| `ElectricFence.BestFitExactly` | ntpdist/ElectricFence/efence.c:428-478 | the slot used is the first of the smallest free ones that are large enough; memory is asked of the system if and only if there is none |
| `ElectricFence.PlaceUnique` | ntpdist/ElectricFence/efence.c:428-551 | the slots determine the address |
| `ElectricFence.SuppliedFresh` | ntpdist/ElectricFence/efence.c:453-478 | memory freshly created becomes the best fit and leaves the next unused slot for the surplus |
| `ElectricFence.CarvedFunction` | ntpdist/ElectricFence/efence.c:428-552 | so do they all slots after the buffer is carved out |
| `ElectricFence.FreedFunction` | ntpdist/ElectricFence/efence.c:635-683 | the slots and the address decide all slots after freeing |
| `ElectricFence.HonestKernelExists` | ntpdist/ElectricFence/efence.c:474-478 | what is asked of the system's page allocation can be met |
| `ElectricFence.Fence.SizesAreTight` | ntpdist/ElectricFence/efence.c:379-391 | sizes are the next multiples of the alignment, of the page with a page to spare, and of a page from a megabyte on |
| `ElectricFence.Fence.SlotForUserAddress` | ntpdist/ElectricFence/efence.c:567-580 | finds the first slot with the address if there is one |
| `ElectricFence.Fence.SlotForInternalAddress` | ntpdist/ElectricFence/efence.c:585-597 | finds the first slot that starts there if there is one |
| `ElectricFence.Fence.SlotForInternalAddressPreviousTo` | ntpdist/ElectricFence/efence.c:604-617 | finds the first slot that ends there if there is one |
| `ElectricFence.Fence.FindSlots` | ntpdist/ElectricFence/efence.c:428-449 | in spite of its early exits finds the first of the smallest free slots that are large enough, and the first two unused slots if there are so many |
| `ElectricFence.Fence.Initialize` | ntpdist/ElectricFence/efence.c:186-300 | the first arena is the stated one and consistent; the count of unused slots is exact if and only if pages are under a megabyte |
| `ElectricFence.Fence.FindSpace` | ntpdist/ElectricFence/efence.c:428-478 | the first best fit if anything fits, fresh memory in the first unused slot otherwise; the internal error is reached if and only if too few slots are unused |
| `ElectricFence.Fence.Place` | ntpdist/ElectricFence/efence.c:428-552 | the buffer is carved from the first best fit and laid out against its dead page at an address no live buffer has, unless too few slots are unused |
| `ElectricFence.Fence.PlaceOrGrow` | ntpdist/ElectricFence/efence.c:410-552 | with the slot array grown first when it is nearly full, too few are never unused and the internal error is not reached |
| `ElectricFence.Fence.Memalign` | ntpdist/ElectricFence/efence.c:358-562 | fails only for a forbidden size 0; otherwise exactly the new buffer joins the live ones with all invariants kept, even when the slot array grew on the way, which it does if and only if fewer than seven slots are unused; all slots and the address are a function of those before; protected memory stays so |
| `ElectricFence.Fence.AdoptList` | ntpdist/ElectricFence/efence.c:318-326 | the copied slot array takes over and fits its buffer, the old one becomes an ordinary internal buffer that its address finds |
| `ElectricFence.Fence.AllocateMoreSlots` | ntpdist/ElectricFence/efence.c:306-334 | growing by allocating and freeing from inside the allocator keeps all invariants, all live buffers and all protected memory, and leaves slots that are a function of those before |
| `ElectricFence.Fence.FreeBuffer` | ntpdist/ElectricFence/efence.c:619-683 | succeeds exactly for null and live buffers nothing shadows, after which exactly that buffer is gone and the slots are those coalescing leaves; the slot's memory with the free memory next to it is then protected, if that is asked for, or free, and every other byte is as before; otherwise nothing changes; only empty buffers protected below are ever shadowed |
| `ElectricFence.Fence.Release` | ntpdist/ElectricFence/efence.c:650-683 | coalescing with both neighbours keeps all invariants |
| `ElectricFence.Fence.Malloc` | ntpdist/ElectricFence/efence.c:747-754 | as memalign, with the configured alignment |
| `ElectricFence.Fence.Calloc` | ntpdist/ElectricFence/efence.c:756-764 | a new buffer holds zeros and no other live buffer changes |
| `ElectricFence.Fence.Realloc` | ntpdist/ElectricFence/efence.c:708-745 | the old contents as far as they fit, zeros behind, the old buffer gone, no other touched; for any other address, success if and only if the new buffer is placed there, and the slots before the call say where that is |
| `FenceRuns.FreedBufferComesBack` | ntpdist/ElectricFence/efence.c:708-745 | malloc, free and realloc of the freed address return that address, and nothing is live |
| `FenceRuns.Run` | ntpdist/ElectricFence/efence.c:92-99 | over any sequence of calls, up to the one that stops the program, what each call makes of the live buffers; with freed memory protected, no buffer has a byte of one that is gone |
| `FenceRuns.OneFreeUsesUpTheArena` | ntpdist/ElectricFence/efence.c:650-706 | with freed memory protected one free takes the whole first arena, and the next buffer lies elsewhere |
| `FenceRuns.EmptyBufferCannotBeFreed` | ntpdist/ElectricFence/efence.c:619-648 | a run after which freeing a live empty buffer stops the program |
| `FenceRuns.CarveThenFree` | ntpdist/ElectricFence/efence.c:490-683 | in a fresh arena freeing the only buffer restores the slots there were |
| `MidnightCache.RefillRightExactly` | src/ESTimeEnvironment.cpp:37-74 | with one clock change near, a refilled cache is right for all its thirty days if and only if its first day starts cleanly |
| `MidnightCache.TwelveDaysEachWay` | src/ESTimeEnvironment.cpp:36-78 | after a refill from a clean day all queries within twelve days either way are answered from the cache, and rightly |
| `MidnightCache.AnswerAfterRefillExactly` | src/ESTimeEnvironment.cpp:37-78 | with one clock change near, which single answers of a refilled cache are right |
| `MidnightCache.AnswerRightExactly` | src/ESTimeEnvironment.cpp:75-77 | in any zone and from any cache, an answer is right if and only if the midnight it is counted from is one under the offset at the query |
| `MidnightCache.RefillAnswerExactly` | src/ESTimeEnvironment.cpp:37-78 | in any zone, however many changes are near, an answer after a refill is right if and only if the miss of the first reading and the unremembered moves of the clock add up to whole days |
| `MidnightCache.WrongAfterGap` | src/ESTimeEnvironment.cpp:40-46 | if the clock skips the first second of that day the refilled cache is wrong, and for every query unless the change falls within a second before the midnight found |
| `MidnightCache.WrongInFirstSecond` | src/ESTimeEnvironment.cpp:40-46 | it is wrong if the change falls into that second |
| `MidnightCache.DeltaIsShift` | src/ESTimeEnvironment.cpp:47-73 | the clock difference measured two seconds apart recovers the size of the change, across midnight too |
| `MidnightCache.SkippedMidnightExample` | src/ESTimeEnvironment.cpp:40-46 | a zone and an instant for which it goes wrong |
| `MidnightCache.FixedOffsetIsSound` | src/ESTimeEnvironment.cpp:37-73 | at a fixed offset every refill starts from a clean day |
| `MidnightCache.TimeEnvironment.MidnightForTimeInterval` | src/ESTimeEnvironment.cpp:36-78 | the answer is the cache's, refilled on a miss, and when it is right, in any zone; if the cache was right, or a refill starts from a clean day, the cache is right afterwards and so is the answer |
| `MidnightCache.TimeEnvironment.RefillCache` | src/ESTimeEnvironment.cpp:40-73 | the statements compute the specified cache |
| `MidnightCache.TimeEnvironment.ClearCache` | src/ESTimeEnvironment.cpp:107-121 | nothing is answered from a cleared cache |
| `MidnightCache.TimeEnvironment.SetTimeZone` | src/ESTimeEnvironment.cpp:80-105 | no answer for the old zone survives |
| `WatchClock.ControlsAreContinuous` | src/ESWatchTime.cpp:916-1117 | no control makes the shown time jump; when the kept time does |
| `WatchClock.ReadingIsDistance` | src/ESWatchTime.cpp:270-281 | after any unlatched run the reading is the initial one plus speed times elapsed time over the segments |
| `WatchClock.RunsStayConsistent` | src/ESWatchTime.cpp:1099-1295 | after any run the speed setting on display has the speed the table gives it, or is "other"; the latter if and only if the last control was a nonzero speed set directly or a start |
| `WatchClock.SearchNeverMatches` | src/ESWatchTime.cpp:902-913 | from any entry on, the table search ends without a match |
| `WatchClock.SpeedsAreNotRecognised` | src/ESWatchTime.cpp:896-914 | a speed set directly is paused if zero and "other" if not, also when it is in the table |
| `WatchClock.WatchTime.FindCycle` | src/ESWatchTime.cpp:896-914 | the loop over the table computes that search |
| `WatchClock.StartUndoesStop` | src/ESWatchTime.cpp:917-942 | stopping and starting resumes the speed and loses exactly the time between |
| `WatchClock.CycleUndoneExactly` | src/ESWatchTime.cpp:32-90 | when one step through the speeds is undone by the opposite one |
| `WatchClock.StepsAreNeighbours` | src/ESWatchTime.cpp:32-90 | a step forward goes to the next faster speed and a step back to the next slower one, unless they wrap around |
| `WatchClock.SpeedsAscend` | src/ESWatchTime.cpp:26-90 | the enumeration lists the speeds in ascending order, the same in both directions |
| `WatchClock.ContRoundTripExactly` | src/ESWatchTime.cpp:318-376 | which continuous times survive conversion to watch time and back |
| `WatchClock.WatchRoundTripExactly` | src/ESWatchTime.cpp:318-376 | which watch times survive conversion to continuous time and back |
| `WatchClock.ContTimeNowExactly` | src/ESWatchTime.cpp:342-361 | for each of the four branches, when the call without an argument answers the present |
| `WatchClock.UnfollowedExactly` | src/ESWatchTime.cpp:318-361 | the continuous time given for a displayed one is the one it labels |
| `WatchClock.ConstrainExactly` | src/ESWatchTime.cpp:176-197 | what one and two range checks achieve |
| `WatchClock.WatchTime.constructor` | src/ESWatchTime.cpp:117-122 | a new watch shows the time it follows |
| `WatchClock.WatchTime.Frozen` | src/ESWatchTime.cpp:124-129 | a frozen watch always shows its time |
| `WatchClock.WatchTime.CurrentTime` | src/ESWatchTime.cpp:270-281 | the shown time |
| `WatchClock.WatchTime.Stop` | src/ESWatchTime.cpp:917-927 | takes the step, without a jump |
| `WatchClock.WatchTime.Start` | src/ESWatchTime.cpp:929-942 | takes the step, without a jump |
| `WatchClock.WatchTime.ToggleStop` | src/ESWatchTime.cpp:944-952 | takes the step, without a jump |
| `WatchClock.WatchTime.SetWarp` | src/ESWatchTime.cpp:1099-1117 | takes the step, without a jump |
| `WatchClock.WatchTime.PausePlay` | src/ESWatchTime.cpp:1259-1269 | takes the step, without a jump |
| `WatchClock.WatchTime.CycleFastForward` | src/ESWatchTime.cpp:1271-1282 | takes the step, without a jump |
| `WatchClock.WatchTime.CycleRewind` | src/ESWatchTime.cpp:1284-1295 | takes the step, without a jump |
| `WatchClock.WatchTime.CheckAndConstrainAbsoluteTime` | src/ESWatchTime.cpp:176-197 | takes the specified step and says whether the time was outside |
| `WeekOfYear.WeekOfYearNumber` | src/ESWatchTime.cpp:746-821 | asks the midnight cache and computes the specified number, in any zone with offsets of at most a day; from a right cache or a clean refill it starts in the day the wall clock shows; at most two passes; the loop's assertion holds |
| `WeekOfYear.WeekFrom` | src/ESWatchTime.cpp:754-820 | the loop computes that number from the midnight on |
| `WeekOfYear.WeekShownExactly` | src/ESWatchTime.cpp:752-820 | the number is the first-Thursday week minus one (section 4.1.4 of ISO 8601:2004), or the weeks since the one with New Year, if and only if the early exit is taken in the first week, or the right year is counted and the slip of the clock since New Year stays within the day's week |
| `WeekOfYear.RightWeekCounts` | src/ESWatchTime.cpp:783-820 | counted from the first day of its week year a day is never before it, and its week is the whole weeks since |
| `WeekOfYear.WeekShownIsRight` | src/ESWatchTime.cpp:752-820 | it is right in every zone that shows New Year with about the present offset |
| `WeekOfYear.FixedOffsetIsRight` | src/ESWatchTime.cpp:746-821 | it is right at every fixed offset |
| `WeekOfYear.DateLineExample` | src/ESWatchTime.cpp:752-820 | a zone and a Monday for which it is not |
| `WeekOfYear.FixedOffsetAgrees` | src/ESWatchTime.cpp:746-821 | zones with a fixed offset are such zones |
| `WeekOfYear.IsoWeekFacts` | src/ESWatchTime.cpp:778-798 | 4 January is in the first week, there are at most 53, and a week later is the next week or the first of the next year |
| `WeekOfYear.EndOfDecember` | src/ESWatchTime.cpp:760-769 | the early exit is taken for exactly the days whose Thursday lies in the next year |
| `WeekOfYear.InFirstWeekOfNextYear` | src/ESWatchTime.cpp:760-769 | the statements that decide the early exit decide just that |
| `WeekOfYear.DeltaIso` | src/ESWatchTime.cpp:783-798 | the step from New Year leads to the Monday whose week has the year's first Thursday |
| `WeekOfYear.BeforeFirstMonday` | src/ESWatchTime.cpp:800-816 | days before it belong to the year before, whose first week starts early enough |
| `WeekOfYear.WeekdayIs` | src/ESCalendar.cpp:131-139 | the weekday of any instant of a day |
| `WeekOfYear.YearOfExactly` | src/ESCalendar.cpp:19-113 | a day belongs to a year if and only if it lies between its New Year and the next |
| `WeekOfYear.YearAdvances` | src/ESCalendar.cpp:81-113 | every year has 365 or 366 days by its calendar's rule, and 1582 has 355 |
| `WeekOfYear.DateInYear` | src/ESCalendar.cpp:81-113 | a date lies in its year, and in December as many days before the next as its day says |

## Left out

- Sockets, DNS, select, threads, locks, logging, preferences and the platform time-zone code: input and output.
- Rounding of doubles and overflow of C ints outside the fixed-point code, including `calloc`'s product.
- Page protection and unmapping in Electric Fence: protected memory is what is never given out again; reading or
  writing it or a dead page is not an event of the model.  The slot array is a sequence, not bytes of the memory it
  describes.
- The NTP driver's host ranking, reconnects, time-outs, status reporting and what it does after a contradictory or
  finishing packet; a resync asked for while a packet is being read is deferred by the code and is not modelled.
- What a C shift by 31 or more does: a packet whose precision asks for one has the outcome "undefined", of which only
  the match with a request is said.  The truncation of the client's own stamps to microseconds; stamps are taken as
  exact.
- The position of timers with equal fire times in a rebuilt queue: the code inserts with a hint, the model after
  equals.
- Daily timers, the exit of the timer thread and the select time-out.
- Which of two clock changes less than sixty days apart the slow search finds: for those only what it reports is
  proved.
- Watch reversal (it jumps by design), advancing to the next interval, month or year, and the rounding of latched
  times.
- Time zones are functions of the instant; a change at instant 0 exactly is the code's "no change" and is excluded.
- Zone offsets of more than a day.
- The time calibrator, the host and country tables, string formatting, and the remaining NTP platform tools.
- NtpPacket.ReceiveTrueAnswer: leaves out responses whose precision has the undefined outcome.
