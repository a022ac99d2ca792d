/** The search for the next daylight-saving change (src/ESCalendar.cpp): bisection over multiples of a step, and the
    slow search that narrows 60-day samples to days and days to minutes. */
module DstSearch {
  import opened Calendar
  import opened Powers
  import opened ZoneConversion

  // ---------------------------------------------------------------- bisection

  /** C's integer halving, towards zero. */
  function Half(n: int): int {
    if n >= 0 then n / 2 else -((-n) / 2)
  }

  /** The index the bisection ends on, `p(i)` telling whether index i still looks like now. */
  function Bisect(p: int -> bool, likeNow: int, likeThen: int): (k: int)
    requires likeNow < likeThen
    ensures likeNow < k <= likeThen
    decreases likeThen - likeNow
  {
    var tryIndex := Half(likeNow + likeThen + 1);
    if tryIndex == likeThen then likeThen
    else if p(tryIndex) then Bisect(p, tryIndex, likeThen)
    else Bisect(p, likeNow, tryIndex)
  }

  /** How far apart the bounds can still be after a round that starts with them d > 1 apart. */
  function Narrowed(d: int): int {
    if d == 2 then 1 else d / 2 + 1
  }

  lemma BisectStep(p: int -> bool, likeNow: int, likeThen: int)
    requires likeNow < likeThen && Half(likeNow + likeThen + 1) != likeThen
    ensures var tryIndex := Half(likeNow + likeThen + 1);
            && likeNow < tryIndex < likeThen
            && likeThen - tryIndex <= Narrowed(likeThen - likeNow)
            && tryIndex - likeNow <= Narrowed(likeThen - likeNow)
            && Bisect(p, likeNow, likeThen)
               == if p(tryIndex) then Bisect(p, tryIndex, likeThen) else Bisect(p, likeNow, tryIndex)
  {
  }

  lemma BisectLast(p: int -> bool, likeNow: int, likeThen: int)
    requires likeNow < likeThen
    ensures Half(likeNow + likeThen + 1) == likeThen ==> Bisect(p, likeNow, likeThen) == likeThen
  {
  }

  ghost predicate Brackets(p: int -> bool, likeNow: int, likeThen: int) {
    likeNow < likeThen && p(likeNow) && !p(likeThen)
  }

  /** For any predicate, monotone or not, the search ends where it changes, provided no negative midpoint is rounded
      towards zero; with the bounds the library passes (never negative) it always does. */
  lemma {:induction false} BisectFindsChange(p: int -> bool, likeNow: int, likeThen: int)
    requires Brackets(p, likeNow, likeThen)
    requires likeNow >= -1 || likeThen == likeNow + 1
    ensures p(Bisect(p, likeNow, likeThen) - 1) && !p(Bisect(p, likeNow, likeThen))
    decreases likeThen - likeNow
  {
    var tryIndex := Half(likeNow + likeThen + 1);
    if tryIndex == likeThen {
    } else if p(tryIndex) {
      BisectFindsChange(p, tryIndex, likeThen);
    } else {
      BisectFindsChange(p, likeNow, tryIndex);
    }
  }

  /** With a lower bound below -1 the halving rounds up past a candidate. */
  lemma {:induction false} BisectSkips(likeNow: int, likeThen: int)
    requires likeNow < -1 && likeThen > likeNow + 1
    ensures Bisect(i => i == likeNow, likeNow, likeThen) == likeNow + 2
    decreases likeThen - likeNow
  {
    var tryIndex := Half(likeNow + likeThen + 1);
    if tryIndex != likeThen {
      BisectSkips(likeNow, tryIndex);
    }
  }

  ghost predicate FindsChangeAlways(likeNow: int, likeThen: int)
    requires likeNow < likeThen
  {
    forall p: int -> bool :: Brackets(p, likeNow, likeThen) ==>
      p(Bisect(p, likeNow, likeThen) - 1) && !p(Bisect(p, likeNow, likeThen))
  }

  /** The bounds for which the search is right for every predicate. */
  lemma BisectExactly(likeNow: int, likeThen: int)
    requires likeNow < likeThen
    ensures FindsChangeAlways(likeNow, likeThen) <==> likeNow >= -1 || likeThen == likeNow + 1
  {
    if likeNow >= -1 || likeThen == likeNow + 1 {
      forall p: int -> bool | Brackets(p, likeNow, likeThen)
        ensures p(Bisect(p, likeNow, likeThen) - 1) && !p(Bisect(p, likeNow, likeThen))
      {
        BisectFindsChange(p, likeNow, likeThen);
      }
    } else {
      BisectSkips(likeNow, likeThen);
      var p := i => i == likeNow;
      assert Brackets(p, likeNow, likeThen);
      assert !p(Bisect(p, likeNow, likeThen) - 1);
    }
  }

  // ---------------------------------------------------------------- how many probes it takes

  /** Rounds of the loop for bounds d apart, at worst. */
  function Rounds(d: int): nat {
    if d <= 1 then 1 else 1 + Rounds(Narrowed(d))
  }

  lemma {:induction false} RoundsMonotone(c: int, d: int)
    requires c <= d
    ensures Rounds(c) <= Rounds(d)
    decreases d
  {
    if c > 1 {
      RoundsMonotone(Narrowed(c), Narrowed(d));
    }
  }

  lemma {:induction false} RoundsLogarithmic(d: int, e: nat)
    requires d <= Pow2(e) + 2
    ensures Rounds(d) <= e + 3
    decreases e
  {
    if e > 0 && d > 1 {
      RoundsLogarithmic(Narrowed(d), e - 1);
    } else {
      assert Rounds(2) == 2 && Rounds(3) == 3;
    }
  }

  lemma Pow2Of33()
    ensures Pow2(33) == 0x2_0000_0000
  {
    assert Pow2(11) == 2048;
    assert Pow2(22) == 0x40_0000;
  }

  /** Probe number i of a search: the zone's DST flag at a multiple of the step. */
  function Probe(isDst: real -> bool, isDstNow: bool, now: real, step: real): int -> bool {
    i => isDst(Multiple(now, step, i)) == isDstNow
  }

  function Multiple(now: real, step: real, i: int): real {
    now + i as real * step
  }

  const MAX_ROUNDS := 100

  method BinarySearch(isDst: real -> bool, isDstNow: bool, now: real, step: real, likeNowIndex: int, likeThenIndex: int)
    returns (k: int, count: nat)
    requires Brackets(Probe(isDst, isDstNow, now, step), likeNowIndex, likeThenIndex)
    ensures k == Bisect(Probe(isDst, isDstNow, now, step), likeNowIndex, likeThenIndex)
    ensures count <= Rounds(likeThenIndex - likeNowIndex)
    ensures -0x8000_0000 <= likeNowIndex && likeThenIndex < 0x8000_0000 ==> count <= MAX_ROUNDS
  {
    hide Bisect, Multiple;
    var lo, hi := likeNowIndex, likeThenIndex;
    ghost var p := Probe(isDst, isDstNow, now, step);
    count := 0;
    while true
      invariant Brackets(p, lo, hi)
      invariant Bisect(p, lo, hi) == Bisect(p, likeNowIndex, likeThenIndex)
      invariant count + Rounds(hi - lo) <= Rounds(likeThenIndex - likeNowIndex)
      decreases hi - lo
    {
      count := count + 1;
      var tryIndex := Half(lo + hi + 1);
      BisectLast(p, lo, hi);
      if tryIndex == hi {
        k := hi;
        break;
      }
      BisectStep(p, lo, hi);
      RoundsMonotone(hi - tryIndex, Narrowed(hi - lo));
      RoundsMonotone(tryIndex - lo, Narrowed(hi - lo));
      if isDst(Multiple(now, step, tryIndex)) == isDstNow {
        lo := tryIndex;
      } else {
        hi := tryIndex;
      }
    }
    if -0x8000_0000 <= likeNowIndex && likeThenIndex < 0x8000_0000 {
      Pow2Of33();
      RoundsLogarithmic(likeThenIndex - likeNowIndex, 33);
    }
  }

  // ---------------------------------------------------------------- the slow search

  /** `Failed` stands for reaching one of the code's failing assertions. */
  datatype Outcome = Found(at: real) | NoChange | Failed

  predicate TryAt(isDst: real -> bool, t: real) {
    isDst(t - 1.0) != isDst(t + 1.0)
  }

  function At60Days(t: real, period: int): real {
    t + (period * 60) as real * 86400.0
  }

  /** One second past local midnight of the local day an instant falls on. */
  function JustAfterMidnight(off: Zone, t: real): real { Resolve(off, DayStart(off, t)) }

  /** What backing up day by day from the changed day arrives at: a day whose first second is still unchanged, or a
      change found at midnight, or after three rounds the code's failing assertion. */
  function BackUp(isDst: real -> bool, off: Zone, isDstNow: bool, justAfter: real, count: nat): (Outcome, real)
    requires count <= 2
    decreases 2 - count
  {
    if isDst(justAfter) == isDstNow then (NoChange, justAfter)
    else if isDst(justAfter - 2.0) != isDst(justAfter) then (Found(justAfter - 1.0), justAfter)
    else if count == 2 then (Failed, JustAfterMidnight(off, justAfter - 2.0))
    else BackUp(isDst, off, isDstNow, JustAfterMidnight(off, justAfter - 2.0), count + 1)
  }

  method BackUpToMidnight(isDst: real -> bool, off: Zone, isDstNow: bool, start: real)
    returns (early: Outcome, justAfter: real)
    ensures (early, justAfter) == BackUp(isDst, off, isDstNow, start, 0)
    ensures early.Found? ==> TryAt(isDst, early.at)
    ensures early.NoChange? ==> isDst(justAfter) == isDstNow
  {
    hide Resolve, UtcComponents, IntervalFromUtc;
    justAfter := start;
    var isDstJustAfter := isDst(justAfter);
    var count := 0;
    early := NoChange;
    while isDstJustAfter != isDstNow
      invariant isDstJustAfter == isDst(justAfter)
      invariant 0 <= count <= 2
      invariant BackUp(isDst, off, isDstNow, justAfter, count) == BackUp(isDst, off, isDstNow, start, 0)
      decreases 3 - count
    {
      var justBefore := justAfter - 2.0;
      if isDst(justBefore) != isDstJustAfter {
        assert justBefore == justBefore + 1.0 - 1.0 && justAfter == justBefore + 1.0 + 1.0;
        early := Found(justBefore + 1.0);
        return;
      }
      justAfter := IntervalFromLocal(off, LocalComponents(justBefore, off).(hour := 0, minute := 0, seconds := 1.0));
      assert justAfter == JustAfterMidnight(off, justBefore);
      isDstJustAfter := isDst(justAfter);
      count := count + 1;
      if count > 2 {
        early := Failed;
        return;
      }
    }
  }

  function Minute(midnight: real, m: int): real {
    midnight + m as real * 60.0
  }

  predicate ChangeAtMinute(isDst: real -> bool, midnight: real, m: int) {
    TryAt(isDst, Minute(midnight, m))
  }

  /** Some whole minute of the next 25 hours at which the flag changes, or none. */
  ghost predicate DaySearched(isDst: real -> bool, midnight: real, res: Outcome) {
    match res
    case Found(at) => exists m: int :: 1 <= m < 1500 && ChangeAtMinute(isDst, midnight, m) && at == Minute(midnight, m)
    case NoChange => false
    case Failed => forall m: int :: 1 <= m < 1500 ==> !ChangeAtMinute(isDst, midnight, m)
  }

  /** Try the likely times first: 2 am, the other hours, the quarter hours, then every minute. */
  method SearchDay(isDst: real -> bool, midnight: real) returns (res: Outcome)
    ensures DaySearched(isDst, midnight, res)
  {
    if TryAt(isDst, midnight + 7200.0) {
      assert Minute(midnight, 120) == midnight + 7200.0;
      assert ChangeAtMinute(isDst, midnight, 120);
      return Found(midnight + 7200.0);
    }
    for i := 1 to 25
      invariant forall m: int :: 1 <= m < 60 * i && m % 60 == 0 ==> !ChangeAtMinute(isDst, midnight, m)
    {
      if i == 2 {
        assert Minute(midnight, 120) == midnight + 7200.0;
        continue;
      }
      if ChangeAtMinute(isDst, midnight, i * 60) {
        return Found(Minute(midnight, i * 60));
      }
    }
    for i := 0 to 25
      invariant forall m: int :: 1 <= m < 60 * i && m % 60 == 30 ==> !ChangeAtMinute(isDst, midnight, m)
    {
      if ChangeAtMinute(isDst, midnight, i * 60 + 30) {
        return Found(Minute(midnight, i * 60 + 30));
      }
      if ChangeAtMinute(isDst, midnight, i * 60 + 15) {
        return Found(Minute(midnight, i * 60 + 15));
      }
      if ChangeAtMinute(isDst, midnight, i * 60 + 45) {
        return Found(Minute(midnight, i * 60 + 45));
      }
    }
    for h := 0 to 25
      invariant forall m: int :: 1 <= m < 60 * h && m % 60 != 0 ==> !ChangeAtMinute(isDst, midnight, m)
    {
      for n := 1 to 60
        invariant forall m: int :: 1 <= m < 60 * h + n && m % 60 != 0 ==> !ChangeAtMinute(isDst, midnight, m)
      {
        if n == 30 {
          continue;
        }
        if ChangeAtMinute(isDst, midnight, h * 60 + n) {
          return Found(Minute(midnight, h * 60 + n));
        }
      }
    }
    return Failed;
  }

  /** The flag differs on day k, counted in exact 24-hour steps, though on the day before it does not. */
  predicate ChangedDay(isDst: real -> bool, t: real, k: int) {
    isDst(Multiple(t, 86400.0, k - 1)) == isDst(t) && isDst(Multiple(t, 86400.0, k)) != isDst(t)
  }

  ghost predicate NoSampleDiffers(isDst: real -> bool, t: real) {
    forall n: int :: 1 <= n < 9 ==> isDst(At60Days(t, n)) == isDst(t)
  }

  /** The first sample that does not look like today. */
  ghost predicate FirstDiffering(isDst: real -> bool, t: real, period: int) {
    && 1 <= period < 9 && isDst(At60Days(t, period)) != isDst(t)
    && forall n: int :: 1 <= n < period ==> isDst(At60Days(t, n)) == isDst(t)
  }

  /** A changed day in the sixty days before it. */
  ghost predicate FirstChangedDay(isDst: real -> bool, t: real, k: int) {
    && ChangedDay(isDst, t, k)
    && exists period: int :: FirstDiffering(isDst, t, period) && 60 * (period - 1) < k <= 60 * period
  }

  method FindChangedDay(isDst: real -> bool, t: real) returns (found: bool, k: int)
    ensures found ==> 1 <= k <= 480 && FirstChangedDay(isDst, t, k)
    ensures !found <==> NoSampleDiffers(isDst, t)
  {
    hide At60Days, Multiple, Bisect, Rounds;
    var isDstNow := isDst(t);
    var period := 1;
    while period < 9 && isDst(At60Days(t, period)) == isDstNow
      invariant 1 <= period <= 9
      invariant forall n: int :: 1 <= n < period ==> isDst(At60Days(t, n)) == isDstNow
    {
      period := period + 1;
    }
    if period == 9 {
      return false, 0;
    }
    k := BisectPeriod(isDst, t, period);
    found := true;
    assert FirstDiffering(isDst, t, period);
  }

  /** Bisection between two samples. */
  method BisectPeriod(isDst: real -> bool, t: real, period: int) returns (k: int)
    requires 1 <= period < 9 && isDst(At60Days(t, period)) != isDst(t)
    requires period > 1 ==> isDst(At60Days(t, period - 1)) == isDst(t)
    ensures 60 * (period - 1) < k <= 60 * period && ChangedDay(isDst, t, k)
  {
    hide At60Days, Multiple, Bisect, Rounds;
    SamplesAreProbes(isDst, isDst(t), t, period);
    var count;
    k, count := BinarySearch(isDst, isDst(t), t, 86400.0, (period - 1) * 60, period * 60);
    BisectFindsChange(Probe(isDst, isDst(t), t, 86400.0), (period - 1) * 60, period * 60);
  }

  /** What follows from the changed day: the back-up's own answer, or a search of the day it ended on. */
  ghost predicate FromChangedDay(isDst: real -> bool, off: Zone, t: real, k: int, res: Outcome) {
    var (early, justAfter) := BackUp(isDst, off, isDst(t), JustAfterMidnight(off, Multiple(t, 86400.0, k)), 0);
    if early.NoChange? then DaySearched(isDst, justAfter - 1.0, res) else res == early
  }

  /** Every change reported is one: the flag differs between the second before and the second after.  No change is
      reported exactly when the flag has today's value at all eight 60-day samples; otherwise the result is what
      backing up and searching make of a changed day in the sixty days before the first sample that differs. */
  method NextDstChangeTheSlowWay(isDst: real -> bool, off: Zone, t: real) returns (res: Outcome)
    ensures res.Found? ==> isDst(res.at - 1.0) != isDst(res.at + 1.0)
    ensures res.NoChange? <==> NoSampleDiffers(isDst, t)
    ensures !res.NoChange? ==>
              exists k :: 1 <= k <= 480 && FirstChangedDay(isDst, t, k) && FromChangedDay(isDst, off, t, k, res)
  {
    hide JustAfterMidnight, Multiple, BackUp, DaySearched, NoSampleDiffers, FirstChangedDay;
    var found, k := FindChangedDay(isDst, t);
    if !found {
      return NoChange;
    }
    res := SearchFromDay(isDst, off, t, k);
    assert FromChangedDay(isDst, off, t, k, res);
  }

  method SearchFromDay(isDst: real -> bool, off: Zone, t: real, k: int) returns (res: Outcome)
    ensures FromChangedDay(isDst, off, t, k, res) && !res.NoChange?
    ensures res.Found? ==> isDst(res.at - 1.0) != isDst(res.at + 1.0)
  {
    hide JustAfterMidnight, Multiple, BackUp, Minute;
    var changedDay := Multiple(t, 86400.0, k);
    var early, justAfter := BackUpToMidnight(isDst, off, isDst(t), JustAfterMidnight(off, changedDay));
    if !early.NoChange? {
      return early;
    }
    res := SearchDay(isDst, justAfter - 1.0);
  }

  lemma SamplesAreProbes(isDst: real -> bool, isDstNow: bool, t: real, period: int)
    requires isDstNow == isDst(t) && 1 <= period
    requires period > 1 ==> isDst(At60Days(t, period - 1)) == isDstNow
    requires isDst(At60Days(t, period)) != isDstNow
    ensures Brackets(Probe(isDst, isDstNow, t, 86400.0), (period - 1) * 60, period * 60)
  {
    assert Multiple(t, 86400.0, (period - 1) * 60) == (if period == 1 then t else At60Days(t, period - 1));
    assert Multiple(t, 86400.0, period * 60) == At60Days(t, period);
  }

  /** A lone change on a whole minute is what the search of a day reports, exactly when it lies 1 to 1499 minutes after
      the day's start. */
  lemma DaySearchExactly(isDst: real -> bool, midnight: real, change: int, res: Outcome)
    requires DaySearched(isDst, midnight, res)
    requires forall u, v :: midnight <= u <= v <= midnight + 90000.0 ==>
               (isDst(u) != isDst(v) <==> u < Minute(midnight, change) <= v)
    ensures res == if 1 <= change < 1500 then Found(Minute(midnight, change)) else Failed
  {
    forall m: int | 1 <= m < 1500
      ensures ChangeAtMinute(isDst, midnight, m) <==> m == change
    {
      var at := Minute(midnight, m);
      assert midnight <= at - 1.0 <= at + 1.0 <= midnight + 90000.0;
      assert at - 1.0 < Minute(midnight, change) <= at + 1.0 <==> m == change by { SameMinute(midnight, m, change); }
      assert isDst(at - 1.0) != isDst(at + 1.0) <==> at - 1.0 < Minute(midnight, change) <= at + 1.0;
    }
    hide ChangeAtMinute, Minute;
    assert 1 <= change < 1500 ==> ChangeAtMinute(isDst, midnight, change);
    match res
    case Found(at) =>
      var m: int :| 1 <= m < 1500 && ChangeAtMinute(isDst, midnight, m) && at == Minute(midnight, m);
    case NoChange =>
    case Failed =>
  }

  lemma SameMinute(midnight: real, m: int, n: int)
    ensures Minute(midnight, m) - 1.0 < Minute(midnight, n) <= Minute(midnight, m) + 1.0 <==> m == n
  {
    assert Minute(midnight, n) - Minute(midnight, m) == (n - m) as real * 60.0;
  }

  /** Within 25 hours of a midnight, a lone change on a whole minute is reported exactly. */
  method SearchDayFindsLoneChange(isDst: real -> bool, midnight: real, change: int) returns (res: Outcome)
    requires 1 <= change < 1500
    requires forall u: real :: isDst(u) != isDst(midnight) <==> u >= Minute(midnight, change)
    ensures res == Found(Minute(midnight, change))
  {
    res := SearchDay(isDst, midnight);
    DaySearchExactly(isDst, midnight, change, res);
  }
}
