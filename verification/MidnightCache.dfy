/** The cache of local midnights (src/ESTimeEnvironment.cpp): one midnight half a month back, and one clock change after
    it, answer every query for thirty days. */
module MidnightCache {
  import opened Calendar
  import opened Common
  import LeapSecond
  import opened ZoneConversion

  const SPAN: real := 2592000.0
  const PRELOAD: real := 1296000.0
  const FAR_IN_THE_PAST: real := -1e100

  /** When a zone next changes its clock after an instant; zero means never. */
  type NextChange = real -> real

  datatype Cache = Cache(base: real, event: real, delta: real)

  /** The remainder that is never negative. */
  function FloorMod(x: real): real { x - (x / 86400.0).Floor as real * 86400.0 }

  function SecondsOfDay(off: Zone, u: real): real { ClockSeconds(LocalComponents(u, off)) }

  /** One second past midnight of the local day half a month before t, as a reading. */
  function FirstReading(off: Zone, t: real): real { DayStart(off, t - PRELOAD) }

  function FirstMidnight(off: Zone, t: real): real { Resolve(off, FirstReading(off, t)) }

  /** The difference of two clock readings that are less than half a day apart but may lie on different days. */
  function ClockDifference(post: real, pre: real): real {
    if Abs(post - pre) > 43200.0 then
      if post > pre then post - 86400.0 - pre else post - (pre - 86400.0)
    else post - pre
  }

  function Refill(off: Zone, next: NextChange, t: real): Cache { RefillFrom(off, next, FirstMidnight(off, t)) }

  function RefillFrom(off: Zone, next: NextChange, firstMidnight: real): Cache {
    var base := firstMidnight - 1.0;
    var change := next(firstMidnight);
    if change == 0.0 then Cache(base, LeapSecond.FAR_FAR_IN_THE_FUTURE, 0.0)
    else if change <= base + SPAN then
      Cache(base, change, ClockDifference(SecondsOfDay(off, change + 1.0), SecondsOfDay(off, change - 1.0)) - 2.0)
    else Cache(base, change, 0.0)
  }

  function Answer(c: Cache, t: real): real {
    t - FloorMod(t - BaseFor(c, t))
  }

  function BaseFor(c: Cache, t: real): real { if t < c.event then c.base else c.base - c.delta }

  predicate InSpan(c: Cache, u: real) { c.base < u < c.base + SPAN }

  /** Every query the cache would answer is answered with the midnight the wall clock last showed. */
  ghost predicate Right(off: Zone, c: Cache) {
    forall u :: InSpan(c, u) ==> u - Answer(c, u) == SecondsOfDay(off, u)
  }

  // ---------------------------------------------------------------- seconds of the day

  lemma FloorModIs(x: real, k: int, s: real)
    requires x == s + k as real * 86400.0 && 0.0 <= s < 86400.0
    ensures FloorMod(x) == s
  {
    var f := s / 86400.0;
    assert x / 86400.0 == f + k as real;
    FloorOfShift(f, k);
  }

  lemma FloorOfShift(f: real, k: int)
    requires 0.0 <= f < 1.0
    ensures (f + k as real).Floor == k
  {
  }

  /** The wall clock's seconds of the day, from any number that differs from the reading by whole days. */
  lemma ClockFromReading(off: Zone, u: real, x: real, k: int)
    requires u + off(u) == x + k as real * 86400.0
    ensures SecondsOfDay(off, u) == FloorMod(x)
  {
    hide UtcComponents, ClockSeconds;
    var n := ClockIsSecondsOfDay(u + off(u));
    FloorModIs(x, n - k, SecondsOfDay(off, u));
  }

  /** A shift does not show in the remainder exactly if it is a whole number of days. */
  lemma ShiftShowsExactly(x: real, g: real)
    ensures FloorMod(x + g) == FloorMod(x) <==> FloorMod(g) == 0.0
    ensures 0.0 < Abs(g) < 86400.0 ==> FloorMod(g) != 0.0
  {
    var k, m, n := (g / 86400.0).Floor, (x / 86400.0).Floor, ((x + g) / 86400.0).Floor;
    RemainderIsLess(x);
    RemainderIsLess(g);
    if FloorMod(g) == 0.0 {
      FloorModIs(x + g, m + k, FloorMod(x));
    }
    if FloorMod(x + g) == FloorMod(x) {
      FloorModIs(g, n - m, 0.0);
    }
  }

  lemma RemainderIsLess(x: real)
    ensures 0.0 <= FloorMod(x) < 86400.0
  {
    var k := (x / 86400.0).Floor;
    assert x == x / 86400.0 * 86400.0 && k as real <= x / 86400.0 < k as real + 1.0;
  }

  /** Whatever the zone and the cache: an answer is right exactly if the midnight it is counted from, read with the
      offset in force at the query, is a midnight. */
  lemma AnswerRightExactly(off: Zone, c: Cache, u: real)
    ensures u - Answer(c, u) == SecondsOfDay(off, u) <==> FloorMod(BaseFor(c, u) + off(u)) == 0.0
  {
    hide BaseFor, SecondsOfDay, FloorMod;
    ClockFromReading(off, u, u + off(u), 0);
    ShiftShowsExactly(u - BaseFor(c, u), BaseFor(c, u) + off(u));
  }

  /** What the first reading was missed by, and what the clock has moved since, but for the remembered change. */
  function AnswerError(off: Zone, next: NextChange, t: real, u: real): real {
    var c, m := Refill(off, next, t), FirstMidnight(off, t);
    (m + off(m) - FirstReading(off, t)) + (off(u) - off(m)) - (if u < c.event then 0.0 else c.delta)
  }

  /** After a refill, in any zone, with any number of changes: an answer is right exactly if these add up to whole
      days. */
  lemma RefillAnswerExactly(off: Zone, next: NextChange, t: real, u: real)
    ensures u - Answer(Refill(off, next, t), u) == SecondsOfDay(off, u)
       <==> FloorMod(AnswerError(off, next, t, u)) == 0.0
  {
    var c := Refill(off, next, t);
    var n := FirstReadingIs(off, t);
    AnswerRightExactly(off, c, u);
    assert c.base == FirstMidnight(off, t) - 1.0;
    hide FirstReading, FirstMidnight, Refill, FloorMod, SecondsOfDay;
    WholeDaysVanish(BaseFor(c, u) + off(u), n);
  }

  lemma WholeDaysVanish(x: real, n: int)
    ensures FloorMod(x - n as real * 86400.0) == FloorMod(x)
  {
    RemainderIsLess(x);
    FloorModIs(x - n as real * 86400.0, (x / 86400.0).Floor - n, FloorMod(x));
  }

  lemma FirstReadingIs(off: Zone, t: real) returns (n: int)
    ensures FirstReading(off, t) == n as real * 86400.0 + 1.0
    ensures n as real * 86400.0 <= t - PRELOAD + off(t - PRELOAD) < n as real * 86400.0 + 86400.0
  {
    n := DayStartIs(off, t - PRELOAD);
  }

  // ---------------------------------------------------------------- one clock change

  /** Around the thirty days the zone's offset is a until the change and b from it on, the change moves the clock by
      less than half a day, and the zone knows when it is. */
  ghost predicate OneChange(off: Zone, next: NextChange, t: real, change: real, a: real, b: real) {
    && BoundedZone(off) && -43202.0 < b - a < 43198.0
    && -MAX_OFFSET <= a <= MAX_OFFSET && -MAX_OFFSET <= b <= MAX_OFFSET
    && (forall u :: t - PRELOAD - 4.0 * 86400.0 <= u <= t - PRELOAD + 34.0 * 86400.0 ==>
          off(u) == if u < change then a else b)
    && (var m := FirstMidnight(off, t);
        if a != b && m < change <= m - 1.0 + SPAN then next(m) == change != 0.0
        else next(m) == 0.0 || next(m) > m - 1.0 + SPAN)
  }

  /** The change falls between the first second as cached and the instant it was found at. */
  predicate ChangesInFirstSecond(off: Zone, t: real, change: real, a: real, b: real) {
    a != b && FirstMidnight(off, t) - 1.0 < change <= FirstMidnight(off, t)
  }

  /** The local day half a month back starts with a second the wall clock shows, without a change in it. */
  predicate DayStartsCleanly(off: Zone, t: real, change: real, a: real, b: real) {
    !InGap(FirstReading(off, t), change, a, b) && !ChangesInFirstSecond(off, t, change, a, b)
  }

  lemma NearTheStart(off: Zone, next: NextChange, t: real, change: real, a: real, b: real) returns (n: int)
    requires OneChange(off, next, t, change, a, b)
    ensures FirstReading(off, t) == n as real * 86400.0 + 1.0
    ensures OneChangeNear(off, FirstReading(off, t), change, a, b)
    ensures t - PRELOAD - 3.0 * 86400.0 <= FirstMidnight(off, t) - 1.0 <= t - PRELOAD + 3.0 * 86400.0
    ensures n as real * 86400.0 <= t - PRELOAD + off(t - PRELOAD) < n as real * 86400.0 + 86400.0
  {
    n := FirstReadingIs(off, t);
    hide FirstReading;
    assert -MAX_OFFSET <= off(t - PRELOAD) <= MAX_OFFSET;
  }

  /** The change the cache remembers is the one there is, and the clock difference recovers its size. */
  lemma DeltaIsShift(off: Zone, next: NextChange, t: real, change: real, a: real, b: real)
    requires OneChange(off, next, t, change, a, b)
    ensures var c := Refill(off, next, t);
            if a != b && c.base + 1.0 < change <= c.base + SPAN then c.event == change && c.delta == b - a
            else c.delta == 0.0
  {
    var n := NearTheStart(off, next, t, change, a, b);
    var m := FirstMidnight(off, t);
    hide FirstMidnight, FirstReading, RefillFrom, BoundedZone;
    if a != b && m < change <= m - 1.0 + SPAN {
      assert off(change - 1.0) == a && off(change + 1.0) == b;
    }
    DeltaFrom(off, next, m, change, a, b);
  }

  lemma DeltaFrom(off: Zone, next: NextChange, m: real, change: real, a: real, b: real)
    requires Abs(b - a + 2.0) < 43200.0
    requires if a != b && m < change <= m - 1.0 + SPAN
             then next(m) == change != 0.0 && off(change - 1.0) == a && off(change + 1.0) == b
             else next(m) == 0.0 || next(m) > m - 1.0 + SPAN
    ensures var c := RefillFrom(off, next, m);
            if a != b && m < change <= m - 1.0 + SPAN then c.event == change && c.delta == b - a else c.delta == 0.0
  {
    hide SecondsOfDay, ClockDifference;
    if a != b && m < change <= m - 1.0 + SPAN {
      ShiftSeen(off, change, a, b);
    }
  }

  lemma ShiftSeen(off: Zone, change: real, a: real, b: real)
    requires off(change - 1.0) == a && off(change + 1.0) == b && Abs(b - a + 2.0) < 43200.0
    ensures ClockDifference(SecondsOfDay(off, change + 1.0), SecondsOfDay(off, change - 1.0)) == b - a + 2.0
  {
    hide UtcComponents, ClockSeconds;
    var i := ClockIsSecondsOfDay(change + 1.0 + b);
    var j := ClockIsSecondsOfDay(change - 1.0 + a);
    UnwrapDifference(SecondsOfDay(off, change + 1.0), SecondsOfDay(off, change - 1.0), b - a + 2.0, j - i);
  }

  lemma UnwrapDifference(post: real, pre: real, shift: real, k: int)
    requires 0.0 <= post < 86400.0 && 0.0 <= pre < 86400.0
    requires post - pre == shift + k as real * 86400.0 && Abs(shift) < 43200.0
    ensures ClockDifference(post, pre) == shift
  {
    assert -2 < k < 2;
  }

  /** With one change around, a refilled cache answers a query correctly exactly if the clock shows the first second of
      the cached day and, in case it changes within it, does so by the time of the query; or if it does neither. */
  lemma AnswerAfterRefillExactly(off: Zone, next: NextChange, t: real, change: real, a: real, b: real, u: real)
    requires OneChange(off, next, t, change, a, b) && InSpan(Refill(off, next, t), u)
    ensures u - Answer(Refill(off, next, t), u) == SecondsOfDay(off, u)
       <==> (InGap(FirstReading(off, t), change, a, b)
             <==> ChangesInFirstSecond(off, t, change, a, b) && u < change)
  {
    hide FirstReading, FirstMidnight, Refill, FloorMod, SecondsOfDay, OneChange, InGap, Answer, AnswerError, InSpan;
    hide ChangesInFirstSecond;
    RefillAnswerExactly(off, next, t, u);
    ErrorAfterOneChange(off, next, t, change, a, b, u);
    ShiftShowsExactly(0.0, AnswerError(off, next, t, u));
    ZeroIsWhole();
  }

  lemma ErrorAfterOneChange(off: Zone, next: NextChange, t: real, change: real, a: real, b: real, u: real)
    requires OneChange(off, next, t, change, a, b) && InSpan(Refill(off, next, t), u)
    ensures Abs(AnswerError(off, next, t, u)) < 86400.0
    ensures AnswerError(off, next, t, u) == 0.0
       <==> (InGap(FirstReading(off, t), change, a, b)
             <==> ChangesInFirstSecond(off, t, change, a, b) && u < change)
  {
    var c, x, m := Refill(off, next, t), FirstReading(off, t), FirstMidnight(off, t);
    assert c.base == m - 1.0;
    hide FirstReading, FirstMidnight, Refill, OneChange, InGap;
    DeltaIsShift(off, next, t, change, a, b);
    FirstMidnightMisses(off, next, t, change, a, b);
    OffsetsInSpan(off, next, t, change, a, b, u);
    ErrorIs(c, x, m, change, a, b, u);
  }

  lemma OffsetsInSpan(off: Zone, next: NextChange, t: real, change: real, a: real, b: real, u: real)
    requires OneChange(off, next, t, change, a, b) && InSpan(Refill(off, next, t), u)
    ensures off(u) == if u < change then a else b
    ensures off(FirstMidnight(off, t)) == if FirstMidnight(off, t) < change then a else b
    ensures Abs(b - a) < 86400.0
  {
    var n := NearTheStart(off, next, t, change, a, b);
    assert Refill(off, next, t).base == FirstMidnight(off, t) - 1.0;
    hide FirstMidnight, Refill, FirstReading;
  }

  /** How far the first reading is missed, and on which side of the change. */
  lemma FirstMidnightMisses(off: Zone, next: NextChange, t: real, change: real, a: real, b: real)
    requires OneChange(off, next, t, change, a, b)
    ensures var x, m := FirstReading(off, t), FirstMidnight(off, t);
            && m + off(m) - x == (if !InGap(x, change, a, b) then 0.0 else if x < change then a - b else b - a)
            && (InGap(x, change, a, b) ==> m == x - (if x < change then b else a) && (m < change <==> x < change))
  {
    var n := NearTheStart(off, next, t, change, a, b);
    var x := FirstReading(off, t);
    hide FirstReading, OneChange;
    ResolveReadsWhenPossible(off, x, change, a, b);
    if InGap(x, change, a, b) {
      GapShift(off, x, change, a, b);
      assert off(x - MAX_OFFSET) == (if x - MAX_OFFSET < change then a else b);
    }
  }

  /** The error of an answer, when the miss of the first reading and the remembered change are known. */
  lemma ErrorIs(c: Cache, x: real, m: real, change: real, a: real, b: real, u: real)
    requires c.base == m - 1.0 && InSpan(c, u) && Abs(b - a) < 86400.0
    requires if a != b && m < change <= c.base + SPAN then c.event == change && c.delta == b - a else c.delta == 0.0
    ensures var offM, offU := if m < change then a else b, if u < change then a else b;
            var gap := InGap(x, change, a, b);
            var missed := if !gap then 0.0 else if x < change then a - b else b - a;
            var g := missed + (offU - offM) - (if u < c.event then 0.0 else c.delta);
            (gap ==> (m < change <==> x < change)) ==>
              && Abs(g) < 86400.0
              && (g == 0.0 <==> (gap <==> a != b && m - 1.0 < change <= m && u < change))
  {
  }

  lemma ZeroIsWhole()
    ensures FloorMod(0.0) == 0.0
  {
    FloorModIs(0.0, 0, 0.0);
  }

  /** A refilled cache answers all its thirty days correctly exactly when its first day starts cleanly. */
  lemma RefillRightExactly(off: Zone, next: NextChange, t: real, change: real, a: real, b: real)
    requires OneChange(off, next, t, change, a, b)
    ensures Right(off, Refill(off, next, t)) <==> DayStartsCleanly(off, t, change, a, b)
    ensures DayStartsCleanly(off, t, change, a, b) ==> InSpan(Refill(off, next, t), t)
  {
    if DayStartsCleanly(off, t, change, a, b) {
      RightWhenClean(off, next, t, change, a, b);
    } else if InGap(FirstReading(off, t), change, a, b) {
      WrongAfterGap(off, next, t, change, a, b);
    } else {
      WrongInFirstSecond(off, next, t, change, a, b);
    }
  }

  /** So after a miss at t, all queries within twelve days of t either way are answered from the cache, and rightly, if
      the first day starts cleanly. */
  lemma TwelveDaysEachWay(off: Zone, next: NextChange, t: real, change: real, a: real, b: real, u: real)
    requires OneChange(off, next, t, change, a, b) && DayStartsCleanly(off, t, change, a, b)
    requires t - 12.0 * 86400.0 < u < t + 12.0 * 86400.0
    ensures var c := Refill(off, next, t);
            && c.base < u < c.base + 30.0 * 86400.0
            && u - Answer(c, u) == SecondsOfDay(off, u)
  {
    var n := NearTheStart(off, next, t, change, a, b);
    assert Refill(off, next, t).base == FirstMidnight(off, t) - 1.0;
    hide FirstReading, FirstMidnight, SecondsOfDay, FloorMod, OneChange, Refill, Answer, DayStartsCleanly;
    RightWhenClean(off, next, t, change, a, b);
  }

  lemma RightWhenClean(off: Zone, next: NextChange, t: real, change: real, a: real, b: real)
    requires OneChange(off, next, t, change, a, b) && DayStartsCleanly(off, t, change, a, b)
    ensures Right(off, Refill(off, next, t)) && InSpan(Refill(off, next, t), t)
  {
    var c := Refill(off, next, t);
    var n := NearTheStart(off, next, t, change, a, b);
    hide FirstReading, FirstMidnight, SecondsOfDay, FloorMod, BoundedZone;
    forall u | InSpan(c, u)
      ensures u - Answer(c, u) == SecondsOfDay(off, u)
    {
      AnswerAfterRefillExactly(off, next, t, change, a, b, u);
    }
  }

  /** If the clock skips the first second of that day, the answer at the midnight found instead is wrong; and so are all
      of them, unless the change also falls within the second before it. */
  lemma WrongAfterGap(off: Zone, next: NextChange, t: real, change: real, a: real, b: real)
    requires OneChange(off, next, t, change, a, b) && InGap(FirstReading(off, t), change, a, b)
    ensures !Right(off, Refill(off, next, t))
    ensures !ChangesInFirstSecond(off, t, change, a, b) ==>
              forall u :: InSpan(Refill(off, next, t), u) ==>
                            u - Answer(Refill(off, next, t), u) != SecondsOfDay(off, u)
  {
    var c, m := Refill(off, next, t), FirstMidnight(off, t);
    assert InSpan(c, m);
    hide FirstReading, FirstMidnight, SecondsOfDay, FloorMod, OneChange, Refill;
    AnswerAfterRefillExactly(off, next, t, change, a, b, m);
    if !ChangesInFirstSecond(off, t, change, a, b) {
      forall u | InSpan(c, u)
        ensures u - Answer(c, u) != SecondsOfDay(off, u)
      {
        AnswerAfterRefillExactly(off, next, t, change, a, b, u);
      }
    }
  }

  /** If the change falls within the first second, the answers before it are wrong. */
  lemma WrongInFirstSecond(off: Zone, next: NextChange, t: real, change: real, a: real, b: real)
    requires OneChange(off, next, t, change, a, b) && a != b && !InGap(FirstReading(off, t), change, a, b)
    requires FirstMidnight(off, t) - 1.0 < change <= FirstMidnight(off, t)
    ensures !Right(off, Refill(off, next, t))
  {
    var c := Refill(off, next, t);
    var u := (c.base + change) / 2.0;
    assert InSpan(c, u) && u < change;
    hide FirstReading, FirstMidnight, SecondsOfDay, FloorMod, OneChange, Refill;
    AnswerAfterRefillExactly(off, next, t, change, a, b, u);
  }

  /** The condition of the theorem, for some change. */
  ghost predicate Sound(off: Zone, next: NextChange, t: real) {
    exists change, a, b :: OneChange(off, next, t, change, a, b) && DayStartsCleanly(off, t, change, a, b)
  }

  /** At a fixed offset it always holds. */
  lemma FixedOffsetIsSound(offset: real, t: real)
    requires -MAX_OFFSET <= offset <= MAX_OFFSET
    ensures var off: Zone := (u: real) => offset;
            var next: NextChange := (u: real) => 0.0;
            Sound(off, next, t)
  {
    var off: Zone := (u: real) => offset;
    var next: NextChange := (u: real) => 0.0;
    assert BoundedZone(off) && OneChange(off, next, t, 0.0, offset, offset);
    assert DayStartsCleanly(off, t, 0.0, offset, offset);
  }

  lemma SoundRefill(off: Zone, next: NextChange, t: real)
    requires Sound(off, next, t)
    ensures Right(off, Refill(off, next, t)) && InSpan(Refill(off, next, t), t)
  {
    var change, a, b :| OneChange(off, next, t, change, a, b) && DayStartsCleanly(off, t, change, a, b);
    hide OneChange, DayStartsCleanly, Right, Refill;
    RefillRightExactly(off, next, t, change, a, b);
  }

  /** Next to the empty cache's mark there are no other doubles within thirty days. */
  predicate Proper(t: real) { !(FAR_IN_THE_PAST < t < FAR_IN_THE_PAST + SPAN) }

  class TimeEnvironment {
    var zone: Zone
    var zoneNext: NextChange
    var cacheMidnightBase: real
    var cacheDSTEvent: real
    var cacheDSTDelta: real

    function Cached(): Cache
      reads this
    {
      Cache(cacheMidnightBase, cacheDSTEvent, cacheDSTDelta)
    }

    ghost predicate Valid()
      reads this
    {
      cacheMidnightBase == FAR_IN_THE_PAST || Right(zone, Cached())
    }

    constructor (zone: Zone, zoneNext: NextChange)
      ensures Valid() && this.zone == zone && this.zoneNext == zoneNext
    {
      this.zone, this.zoneNext := zone, zoneNext;
      cacheMidnightBase := FAR_IN_THE_PAST;
    }

    /** The answer is the cache's, refilled on a miss, and right exactly if the midnight it is counted from is one under
        the offset at the query.  Whenever the cache was right, and a refill starts from a clean
        day, it is right again, and the time since the midnight returned is what the wall clock shows: on a hit or a
        miss, before or after the cached clock change, and whatever was asked before. */
    method MidnightForTimeInterval(t: real) returns (r: real)
      modifies `cacheMidnightBase, `cacheDSTEvent, `cacheDSTDelta
      ensures Cached() == if old(InSpan(Cached(), t)) then old(Cached()) else Refill(zone, zoneNext, t)
      ensures r == Answer(Cached(), t)
      ensures t - r == SecondsOfDay(zone, t) <==> FloorMod(BaseFor(Cached(), t) + zone(t)) == 0.0
      ensures old(Valid()) && Proper(t) && (old(InSpan(Cached(), t)) || Sound(zone, zoneNext, t)) ==>
                Valid() && InSpan(Cached(), t) && t - r == SecondsOfDay(zone, t)
    {
      hide Right, Refill, SecondsOfDay, Sound, FloorMod;
      ghost var hit := InSpan(Cached(), t);
      if t <= cacheMidnightBase || t >= cacheMidnightBase + SPAN {
        RefillCache(t);
      }
      if hit || Sound(zone, zoneNext, t) {
        if !hit {
          SoundRefill(zone, zoneNext, t);
        }
        if Right(zone, Cached()) {
          RightAt(zone, Cached(), t);
        }
      }
      var midnightBase := if t < cacheDSTEvent then cacheMidnightBase else cacheMidnightBase - cacheDSTDelta;
      r := t - FloorMod(t - midnightBase);
      AnswerRightExactly(zone, Cached(), t);
    }

    method RefillCache(t: real)
      modifies `cacheMidnightBase, `cacheDSTEvent, `cacheDSTDelta
      ensures Cached() == Refill(zone, zoneNext, t)
    {
      hide UtcComponents, IntervalFromUtc, ClockSeconds;
      var cs := LocalComponents(t - PRELOAD, zone);
      cs := cs.(hour := 0, minute := 0, seconds := 1.0);
      var firstMidnight := IntervalFromLocal(zone, cs);
      cacheMidnightBase := firstMidnight - 1.0;
      var nextTZChange := zoneNext(firstMidnight);
      if nextTZChange != 0.0 {
        cacheDSTEvent := nextTZChange;
        if cacheDSTEvent <= cacheMidnightBase + SPAN {
          var post := ClockSeconds(LocalComponents(cacheDSTEvent + 1.0, zone));
          var pre := ClockSeconds(LocalComponents(cacheDSTEvent - 1.0, zone));
          if Abs(post - pre) > 43200.0 {
            if post > pre {
              post := post - 86400.0;
            } else {
              pre := pre - 86400.0;
            }
          }
          cacheDSTDelta := post - pre - 2.0;
        } else {
          cacheDSTDelta := 0.0;
        }
      } else {
        cacheDSTEvent := LeapSecond.FAR_FAR_IN_THE_FUTURE;
        cacheDSTDelta := 0.0;
      }
    }

    method ClearCache()
      modifies `cacheMidnightBase
      ensures Valid() && forall t :: Proper(t) ==> !InSpan(Cached(), t)
    {
      cacheMidnightBase := FAR_IN_THE_PAST;
    }

    /** No answer computed for the old zone survives. */
    method SetTimeZone(zone: Zone, zoneNext: NextChange)
      modifies this
      ensures Valid() && this.zone == zone && this.zoneNext == zoneNext
      ensures forall t :: Proper(t) ==> !InSpan(Cached(), t)
    {
      this.zone, this.zoneNext := zone, zoneNext;
      ClearCache();
    }
  }

  lemma RightAt(off: Zone, c: Cache, t: real)
    requires Right(off, c) && InSpan(c, t)
    ensures t - Answer(c, t) == SecondsOfDay(off, t)
  {
  }

  /** A zone that skips from midnight to one o'clock on the cached day gives midnights that are an hour off. */
  lemma SkippedMidnightExample()
    ensures var off: Zone := (u: real) => if u < 0.0 then 0.0 else 3600.0;
            var next: NextChange := (u: real) => 0.0;
            && OneChange(off, next, PRELOAD, 0.0, 0.0, 3600.0)
            && InGap(FirstReading(off, PRELOAD), 0.0, 0.0, 3600.0)
            && !Right(off, Refill(off, next, PRELOAD))
  {
    hide UtcComponents, IntervalFromUtc, ClockSeconds;
    var off: Zone := (u: real) => if u < 0.0 then 0.0 else 3600.0;
    var next: NextChange := (u: real) => 0.0;
    var n := FirstReadingIs(off, PRELOAD);
    assert off(0.0) == 3600.0;
    assert n == 0;
    hide FirstReading, DayStart;
    WrongAfterGap(off, next, PRELOAD, 0.0, 0.0, 3600.0);
  }
}
