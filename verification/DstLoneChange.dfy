/** When the slow search for a clock change (src/ESCalendar.cpp) finds the next one, and that it then is the next.
    Times of the change, offsets and wall clock readings are whole minutes; days are minutes divided by 1440. */
module DstLoneChange {
  import opened ZoneConversion
  import opened DstSearch

  function Seconds(minutes: int): real { minutes as real * 60.0 }

  const DAY: real := 86400.0

  /** The next change after t comes at minute c, within 480 days, and no other in the ten days before or the sixty after
      it: there the flag changes, and the offset from a minutes to b. */
  ghost predicate LoneChange(isDst: real -> bool, off: Zone, t: real, c: int, a: int, b: int) {
    && BoundedZone(off) && -1440 <= a <= 1440 && -1440 <= b <= 1440 && -1440 < b - a < 1440
    && t < Seconds(c) <= t + 480.0 * DAY
    && (forall u :: Seconds(c) - 10.0 * DAY <= u <= Seconds(c) + 10.0 * DAY ==>
          off(u) == if u < Seconds(c) then Seconds(a) else Seconds(b))
    && (forall u :: (t <= u || Seconds(c) - 10.0 * DAY <= u) && u < Seconds(c) + 60.0 * DAY ==>
          (isDst(u) == isDst(t) <==> u < Seconds(c)))
  }

  /** The first instant a whole number of days after t that is not before the change. */
  function ChangedDayIndex(t: real, c: int): int { -((t - Seconds(c)) / 86400.0).Floor }

  /** The day the wall clock shows then. */
  function ShownDay(t: real, c: int, b: int): int {
    ((Multiple(t, 86400.0, ChangedDayIndex(t, c)) + Seconds(b)) / 86400.0).Floor
  }

  /** The midnight the search ends at, as a reading in minutes: that of the day shown, or of the day before if the day
      shown already begins after the change. */
  function LastMidnight(day: int, c: int, a: int, b: int): int {
    if Late(day * 1440, c, a, b) then day * 1440 - 1440 else day * 1440
  }

  /** The instant chosen for midnight m comes after the change, and not right with it. */
  predicate Late(m: int, c: int, a: int, b: int) { c + b < m && !(m < c + a && m < c) }

  /** The clock skips that midnight. */
  predicate Skipped(midnight: int, c: int, a: int, b: int) { c + a <= midnight < c + b }

  /** When the search succeeds: the wall clock has run at most 1499 minutes since that midnight when the change comes;
      or if the midnight is skipped, the skipped reading, taken as UTC, lies before the change, or the skip starts
      with it. */
  predicate Findable(day: int, c: int, a: int, b: int) {
    FindableFrom(LastMidnight(day, c, a, b), c, a, b)
  }

  predicate FindableFrom(m: int, c: int, a: int, b: int) {
    if Skipped(m, c, a, b) then m < c || c + a == m else c + a - m <= 1499
  }

  // ---------------------------------------------------------------- one local midnight

  /** The instant chosen for one second past midnight m. */
  function FirstSecond(m: int, c: int, a: int, b: int): real {
    var offset := if Skipped(m, c, a, b) then (if m < c then b else a)
                  else if m >= c + b && (m >= c + a || m >= c) then b
                  else a;
    Seconds(m - offset) + 1.0
  }

  lemma MinuteOrder(m: int, n: int)
    ensures m < n <==> Seconds(m) < Seconds(n)
    ensures m < n <==> Seconds(m) + 1.0 < Seconds(n)
    ensures Seconds(m + n) == Seconds(m) + Seconds(n) && Seconds(m - n) == Seconds(m) - Seconds(n)
  {
    assert m < n ==> Seconds(n) - Seconds(m) >= 60.0;
  }

  /** One second past midnight m, taken apart by minutes. */
  lemma ResolvedIs(isDst: real -> bool, off: Zone, t: real, c: int, a: int, b: int, u: real, m: int)
    requires LoneChange(isDst, off, t, c, a, b) && Seconds(c) - 5.0 * DAY <= u <= Seconds(c) + 5.0 * DAY
    requires u - 2.0 * 86400.0 <= Seconds(m) + 1.0 <= u + 2.0 * 86400.0
    ensures Resolve(off, Seconds(m) + 1.0) == FirstSecond(m, c, a, b)
    ensures Seconds(m) - 86400.0 <= FirstSecond(m, c, a, b) <= Seconds(m) + 86401.0
  {
    OffsetsNear(isDst, off, t, c, a, b, u);
    hide LoneChange, Resolve;
    MinuteOrder(m, c);
    MinuteOrder(m, c + a);
    MinuteOrder(m, c + b);
    MinuteOrder(c, a);
    MinuteOrder(c, b);
    MinuteOrder(m, a);
    MinuteOrder(m, b);
    hide Seconds;
    ResolveInMinutes(off, Seconds(m) + 1.0, Seconds(m), Seconds(c), Seconds(a), Seconds(b));
  }

  lemma FirstSecondIs(isDst: real -> bool, off: Zone, t: real, c: int, a: int, b: int, u: real, day: int)
    requires LoneChange(isDst, off, t, c, a, b) && Seconds(c) - 5.0 * DAY <= u <= Seconds(c) + 5.0 * DAY
    requires day as real * 86400.0 <= u + off(u) < day as real * 86400.0 + 86400.0
    ensures JustAfterMidnight(off, u) == FirstSecond(day * 1440, c, a, b)
    ensures u - 3.0 * 86400.0 <= FirstSecond(day * 1440, c, a, b) <= u + 3.0 * 86400.0
  {
    var n := DayStartIs(off, u);
    assert n == day;
    assert DayStart(off, u) == Seconds(day * 1440) + 1.0;
    hide DayStart, LocalComponents, FirstSecond;
    ResolvedIs(isDst, off, t, c, a, b, u, day * 1440);
    assert -86400.0 <= off(u) <= 86400.0;
  }

  lemma OffsetsNear(isDst: real -> bool, off: Zone, t: real, c: int, a: int, b: int, u: real)
    requires LoneChange(isDst, off, t, c, a, b) && Seconds(c) - 5.0 * DAY <= u <= Seconds(c) + 5.0 * DAY
    ensures forall v :: u - 3.0 * 86400.0 <= v <= u + 3.0 * 86400.0 ==>
              off(v) == if v < Seconds(c) then Seconds(a) else Seconds(b)
    ensures -86400.0 <= Seconds(a) <= 86400.0 && -86400.0 <= Seconds(b) <= 86400.0
  {
  }

  lemma ResolveInMinutes(off: Zone, localT: real, m: real, c: real, a: real, b: real)
    requires localT == m + 1.0 && -86400.0 <= a <= 86400.0 && -86400.0 <= b <= 86400.0
    requires forall v :: localT - 86400.0 <= v <= localT + 86400.0 ==> off(v) == if v < c then a else b
    requires (m < c <==> localT < c) && (m < c + a <==> localT < c + a) && (m < c + b <==> localT < c + b)
    ensures var offset := if c + a <= m < c + b then (if m < c then b else a)
                          else if m >= c + b && (m >= c + a || m >= c) then b
                          else a;
            Resolve(off, localT) == localT - offset
  {
    assert localT - 86400.0 <= localT - off(localT) <= localT + 86400.0;
  }

  // ---------------------------------------------------------------- from a midnight to the outcome

  /** What backing up from an instant, in the given round, leads to. */
  ghost predicate LeadsTo(isDst: real -> bool, off: Zone, t: real, from: real, count: nat, res: Outcome)
    requires count <= 2
  {
    var (early, justAfter) := BackUp(isDst, off, isDst(t), from, count);
    if early.NoChange? then DaySearched(isDst, justAfter - 1.0, res) else res == early
  }

  /** Where the first second of midnight m lies: before the change, in the second right after it, or later. */
  lemma FirstSecondAgainstChange(m: int, c: int, a: int, b: int)
    ensures var x := FirstSecond(m, c, a, b);
            && (x < Seconds(c) <==> if Skipped(m, c, a, b) then m < c else m < c + b || (m < c + a && m < c))
            && (x - 2.0 < Seconds(c) <= x <==>
                 if Skipped(m, c, a, b) then m >= c && m == c + a else m == c + b && !(m < c + a && m < c))
            && (x - 2.0 < Seconds(c) <= x ==> x - 1.0 == Seconds(c))
  {
    MinuteOrder(m - a, c);
    MinuteOrder(c, m - a);
    MinuteOrder(m - b, c);
    MinuteOrder(c, m - b);
  }

  lemma SearchFromMidnight(isDst: real -> bool, off: Zone, t: real, c: int, a: int, b: int, start: int, res: Outcome)
    requires LoneChange(isDst, off, t, c, a, b)
    requires Seconds(c) - 5.0 * DAY <= Seconds(start) && start < c
    requires DaySearched(isDst, Seconds(start), res)
    ensures res == if c - start <= 1499 then Found(Seconds(c)) else Failed
  {
    hide DaySearched;
    MinuteOrder(c - start, start);
    assert Minute(Seconds(start), c - start) == Seconds(c);
    DaySearchExactly(isDst, Seconds(start), c - start, res);
  }

  /** The search started from a midnight that is not late. */
  lemma FromMidnight(isDst: real -> bool, off: Zone, t: real, c: int, a: int, b: int, day: int, count: nat,
                     res: Outcome)
    requires LoneChange(isDst, off, t, c, a, b) && count <= 1 && !Late(day * 1440, c, a, b)
    requires Seconds(c) - 4.0 * DAY <= FirstSecond(day * 1440, c, a, b) - 2.0 <= Seconds(c) + 4.0 * DAY
    requires LeadsTo(isDst, off, t, FirstSecond(day * 1440, c, a, b), count, res)
    ensures res == if FindableFrom(day * 1440, c, a, b) then Found(Seconds(c)) else Failed
  {
    hide JustAfterMidnight, DaySearched, DayStart;
    var m := day * 1440;
    var x := FirstSecond(m, c, a, b);
    FirstSecondAgainstChange(m, c, a, b);
    FlagAgainstChange(isDst, off, t, c, a, b, x);
    FlagAgainstChange(isDst, off, t, c, a, b, x - 2.0);
    if x < Seconds(c) {
      var start := m - (if Skipped(m, c, a, b) then b else a);
      assert x - 1.0 == Seconds(start);
      MinuteOrder(start, c);
      hide LoneChange, FirstSecond;
      SearchFromMidnight(isDst, off, t, c, a, b, start, res);
    } else if x - 2.0 >= Seconds(c) {
      GoesInCircles(isDst, off, t, c, a, b, day, count);
    }
  }

  lemma FlagAgainstChange(isDst: real -> bool, off: Zone, t: real, c: int, a: int, b: int, u: real)
    requires LoneChange(isDst, off, t, c, a, b) && Seconds(c) - 10.0 * DAY <= u <= Seconds(c) + 10.0 * DAY
    ensures isDst(u) == isDst(t) <==> u < Seconds(c)
    ensures off(u) == if u < Seconds(c) then Seconds(a) else Seconds(b)
  {
  }

  /** If the clock skips that midnight and the instant chosen for it lies after the change, backing up comes back to it,
      until the code's assertion fails. */
  lemma GoesInCircles(isDst: real -> bool, off: Zone, t: real, c: int, a: int, b: int, day: int, count: nat)
    requires LoneChange(isDst, off, t, c, a, b) && count <= 1
    requires var m := day * 1440;
             Skipped(m, c, a, b) && m >= c && c + a < m
    requires var x := FirstSecond(day * 1440, c, a, b);
             x - 2.0 >= Seconds(c) && x - 2.0 <= Seconds(c) + 4.0 * DAY
    ensures BackUp(isDst, off, isDst(t), FirstSecond(day * 1440, c, a, b), count).0 == Failed
  {
    hide JustAfterMidnight, DayStart;
    var m := day * 1440;
    var x := FirstSecond(m, c, a, b);
    FlagAgainstChange(isDst, off, t, c, a, b, x);
    FlagAgainstChange(isDst, off, t, c, a, b, x - 2.0);
    MinuteOrder(m, a);
    assert x - 2.0 + Seconds(b) == day as real * 86400.0 - 1.0 + Seconds(b - a);
    FirstSecondIs(isDst, off, t, c, a, b, x - 2.0, day);
    hide LoneChange, FirstSecond;
    StaysThere(isDst, off, isDst(t), x, count);
  }

  lemma StaysThere(isDst: real -> bool, off: Zone, now: bool, x: real, count: nat)
    requires count <= 2 && isDst(x) != now && isDst(x - 2.0) == isDst(x) && JustAfterMidnight(off, x - 2.0) == x
    ensures BackUp(isDst, off, now, x, count).0 == Failed
    decreases 2 - count
  {
    hide JustAfterMidnight;
    if count < 2 {
      StaysThere(isDst, off, now, x, count + 1);
    }
  }

  // ---------------------------------------------------------------- the theorem

  lemma ChangedDayIs(isDst: real -> bool, off: Zone, t: real, c: int, a: int, b: int, k: int)
    requires LoneChange(isDst, off, t, c, a, b) && 1 <= k <= 480 && FirstChangedDay(isDst, t, k)
    ensures k == ChangedDayIndex(t, c) && Seconds(c) <= Multiple(t, 86400.0, k) < Seconds(c) + 86400.0
  {
    var h := Multiple(t, 86400.0, k);
    assert Multiple(t, 86400.0, k - 1) == h - 86400.0;
    var period: int :| FirstDiffering(isDst, t, period) && 60 * (period - 1) < k <= 60 * period;
    FirstDifferingIsNear(isDst, off, t, c, a, b, period);
    assert t + 86400.0 <= h <= At60Days(t, period);
    var q := (t - Seconds(c)) / 86400.0;
    assert q * 86400.0 == t - Seconds(c);
    assert -(k as real) <= q < -(k as real) + 1.0;
  }

  /** The first sample that differs comes less than sixty days after the change: the one before it does not differ, and
      between the change and sixty days on there is no other. */
  lemma FirstDifferingIsNear(isDst: real -> bool, off: Zone, t: real, c: int, a: int, b: int, period: int)
    requires LoneChange(isDst, off, t, c, a, b) && FirstDiffering(isDst, t, period)
    ensures Seconds(c) <= At60Days(t, period) < Seconds(c) + 60.0 * DAY
  {
    var p := SampleAfter(t, c);
    assert isDst(At60Days(t, p)) != isDst(t);
    assert period <= p;
    assert At60Days(t, period) <= At60Days(t, p);
  }

  lemma SampleAfter(t: real, c: int) returns (p: int)
    requires t < Seconds(c) <= t + 480.0 * DAY
    ensures 1 <= p <= 8 && Seconds(c) <= At60Days(t, p) < Seconds(c) + 60.0 * DAY
  {
    var x := (t - Seconds(c)) / (60.0 * DAY);
    assert x * (60.0 * DAY) == t - Seconds(c);
    p := -x.Floor;
  }

  /** Whatever the search makes of the next change: it finds it exactly when it is findable, and otherwise ends in the
      code's failing assertion. */
  lemma LoneOutcome(isDst: real -> bool, off: Zone, t: real, c: int, a: int, b: int, k: int, res: Outcome)
    requires LoneChange(isDst, off, t, c, a, b) && 1 <= k <= 480 && FirstChangedDay(isDst, t, k)
    requires FromChangedDay(isDst, off, t, k, res)
    ensures res == if Findable(ShownDay(t, c, b), c, a, b) then Found(Seconds(c)) else Failed
  {
    hide JustAfterMidnight, DaySearched, DayStart, BackUp, FirstChangedDay;
    ChangedDayIs(isDst, off, t, c, a, b, k);
    var h := Multiple(t, 86400.0, k);
    var day := ShownDay(t, c, b);
    FlagAgainstChange(isDst, off, t, c, a, b, h);
    DayBounds(h + Seconds(b), day);
    FirstSecondIs(isDst, off, t, c, a, b, h, day);
    var x := FirstSecond(day * 1440, c, a, b);
    assert LeadsTo(isDst, off, t, x, 0, res);
    hide Multiple, ShownDay, ChangedDayIndex, FromChangedDay;
    FirstSecondAgainstChange(day * 1440, c, a, b);
    if !Late(day * 1440, c, a, b) {
      hide LoneChange, FirstSecond, LeadsTo, Late;
      FromMidnight(isDst, off, t, c, a, b, day, 0, res);
    } else {
      LateMidnight(isDst, off, t, c, a, b, h, day, res);
    }
  }

  lemma DayBounds(x: real, day: int)
    requires day == (x / 86400.0).Floor
    ensures day as real * 86400.0 <= x < day as real * 86400.0 + 86400.0
  {
    var q := x / 86400.0;
    assert q * 86400.0 == x;
  }

  /** From a day that begins after the change the search backs up to the day before. */
  lemma LateMidnight(isDst: real -> bool, off: Zone, t: real, c: int, a: int, b: int, h: real, day: int, res: Outcome)
    requires LoneChange(isDst, off, t, c, a, b) && Late(day * 1440, c, a, b)
    requires Seconds(c) <= h < Seconds(c) + 86400.0
    requires day as real * 86400.0 <= h + Seconds(b) < day as real * 86400.0 + 86400.0
    requires LeadsTo(isDst, off, t, FirstSecond(day * 1440, c, a, b), 0, res)
    ensures res == if FindableFrom(day * 1440 - 1440, c, a, b) then Found(Seconds(c)) else Failed
  {
    hide JustAfterMidnight, DaySearched, DayStart;
    var m := day * 1440;
    var x := FirstSecond(m, c, a, b);
    MinuteOrder(m, b);
    assert !Skipped(m, c, a, b) && x == Seconds(m - b) + 1.0;
    FirstSecondAgainstChange(m, c, a, b);
    assert x - 2.0 + Seconds(b) == (day - 1) as real * 86400.0 + 86399.0;
    FlagAgainstChange(isDst, off, t, c, a, b, x);
    FlagAgainstChange(isDst, off, t, c, a, b, x - 2.0);
    FirstSecondIs(isDst, off, t, c, a, b, x - 2.0, day - 1);
    var y := FirstSecond((day - 1) * 1440, c, a, b);
    assert LeadsTo(isDst, off, t, y, 1, res);
    assert (day - 1) * 1440 == m - 1440 < c + b by { MinuteOrder(m - 1440, c + b); MinuteOrder(c, b); }
    hide FirstSecond, LeadsTo, BackUp;
    FromMidnight(isDst, off, t, c, a, b, day - 1, 1, res);
  }

  /** The slow search itself. */
  method FindLoneChange(isDst: real -> bool, off: Zone, t: real, ghost c: int, ghost a: int, ghost b: int)
    returns (res: Outcome)
    requires LoneChange(isDst, off, t, c, a, b)
    ensures res == if Findable(ShownDay(t, c, b), c, a, b) then Found(Seconds(c)) else Failed
  {
    hide FirstChangedDay, FromChangedDay, Findable, ShownDay;
    SomeSampleDiffers(isDst, off, t, c, a, b);
    res := NextDstChangeTheSlowWay(isDst, off, t);
    ghost var k :| 1 <= k <= 480 && FirstChangedDay(isDst, t, k) && FromChangedDay(isDst, off, t, k, res);
    hide LoneChange;
    LoneOutcome(isDst, off, t, c, a, b, k, res);
  }

  lemma SomeSampleDiffers(isDst: real -> bool, off: Zone, t: real, c: int, a: int, b: int)
    requires LoneChange(isDst, off, t, c, a, b)
    ensures !NoSampleDiffers(isDst, t)
  {
    var p := SampleAfter(t, c);
    assert isDst(At60Days(t, p)) != isDst(t);
  }

  // ---------------------------------------------------------------- any number of changes

  /** How many of the changes have come by u. */
  function Changes(cs: seq<int>, u: real): nat {
    if cs == [] then 0
    else Changes(cs[..|cs| - 1], u) + (if Seconds(cs[|cs| - 1]) <= u then 1 else 0)
  }

  /** Changes at least sixty days apart switch the flag on and off, and the offset with it. */
  ghost predicate Switching(isDst: real -> bool, off: Zone, cs: seq<int>, a: int, b: int) {
    && BoundedZone(off) && -1440 <= a <= 1440 && -1440 <= b <= 1440 && -1440 < b - a < 1440
    && (forall i, j :: 0 <= i < j < |cs| ==> cs[i] + 86400 <= cs[j])
    && (forall u :: isDst(u) <==> Changes(cs, u) % 2 == 1)
    && (forall u :: off(u) == if Changes(cs, u) % 2 == 0 then Seconds(a) else Seconds(b))
  }

  lemma {:induction false} ChangesBetween(cs: seq<int>, u: real, i: nat)
    requires forall j, k :: 0 <= j < k < |cs| ==> cs[j] + 86400 <= cs[k]
    requires i <= |cs| && (i > 0 ==> Seconds(cs[i - 1]) <= u) && (i < |cs| ==> u < Seconds(cs[i]))
    ensures Changes(cs, u) == i
  {
    if cs != [] {
      var n := |cs| - 1;
      if i == |cs| {
        if n > 0 {
          MinuteOrder(cs[n - 1], cs[n]);
        }
        ChangesBetween(cs[..n], u, n);
      } else {
        if i < n {
          MinuteOrder(cs[i], cs[n]);
        }
        ChangesBetween(cs[..n], u, i);
      }
    }
  }

  /** However many changes there are, the next one is alone in the sense above. */
  lemma NextIsAlone(isDst: real -> bool, off: Zone, cs: seq<int>, a: int, b: int, i: nat, t: real)
    requires Switching(isDst, off, cs, a, b) && i < |cs| && (i > 0 ==> Seconds(cs[i - 1]) <= t)
    requires t < Seconds(cs[i]) <= t + 480.0 * DAY
    ensures var (from, to) := if i % 2 == 0 then (a, b) else (b, a);
            LoneChange(isDst, off, t, cs[i], from, to)
  {
    var c := cs[i];
    ChangesBetween(cs, t, i);
    forall u | (t <= u || Seconds(c) - 10.0 * DAY <= u) && u < Seconds(c) + 60.0 * DAY
      ensures Changes(cs, u) == if u < Seconds(c) then i else i + 1
    {
      if i > 0 {
        assert Seconds(cs[i - 1]) + 60.0 * DAY <= Seconds(c);
      }
      if i + 1 < |cs| {
        assert Seconds(c) + 60.0 * DAY <= Seconds(cs[i + 1]);
      }
      ChangesBetween(cs, u, if u < Seconds(c) then i else i + 1);
    }
    hide Changes;
  }

  /** So the change reported is the first one after t, if it is findable. */
  method FindNextOfMany(isDst: real -> bool, off: Zone, t: real, ghost cs: seq<int>, ghost a: int, ghost b: int,
                        ghost i: nat) returns (res: Outcome)
    requires Switching(isDst, off, cs, a, b) && i < |cs| && (i > 0 ==> Seconds(cs[i - 1]) <= t)
    requires t < Seconds(cs[i]) <= t + 480.0 * DAY
    ensures var (from, to) := if i % 2 == 0 then (a, b) else (b, a);
            res == if Findable(ShownDay(t, cs[i], to), cs[i], from, to) then Found(Seconds(cs[i])) else Failed
  {
    hide Switching, LoneChange, Findable, ShownDay;
    NextIsAlone(isDst, off, cs, a, b, i, t);
    ghost var (from, to) := if i % 2 == 0 then (a, b) else (b, a);
    res := FindLoneChange(isDst, off, t, cs[i], from, to);
  }

  /** Changes that put the clock back by at most an hour, or forward, are found, if they do not skip a midnight whose
      reading, taken as UTC, is not before the change (a skip that starts with the midnight does no harm). */
  lemma OrdinaryChangesAreFound(t: real, c: int, a: int, b: int)
    requires t < Seconds(c) && a - b <= 60
    requires forall day :: c + a < day * 1440 < c + b ==> day * 1440 < c
    ensures Findable(ShownDay(t, c, b), c, a, b)
  {
    var day := ShownDay(t, c, b);
    var h := Multiple(t, 86400.0, ChangedDayIndex(t, c));
    var q := (t - Seconds(c)) / 86400.0;
    assert q * 86400.0 == t - Seconds(c);
    assert h >= Seconds(c);
    DayBounds(h + Seconds(b), day);
    assert (c + b) as real * 60.0 <= h + Seconds(b) < (day + 1) as real * 86400.0;
    assert c + b < day * 1440 + 1440;
    var m := LastMidnight(day, c, a, b);
    assert m == day * 1440 || m == (day - 1) * 1440;
  }

  /** Two hours ahead of Greenwich, the clock jumps at 23:30 to 00:30: the search comes back to the same instant until
      its assertion fails. */
  method SkippedMidnightIsNotFound() returns (res: Outcome)
    ensures res == Failed
  {
    var off: Zone := (u: real) => if u < -9000.0 then 7200.0 else 10800.0;
    var isDst := (u: real) => u >= -9000.0;
    var t := -864000.0;
    assert Seconds(-150) == -9000.0 && Seconds(120) == 7200.0 && Seconds(180) == 10800.0;
    assert ChangedDayIndex(t, -150) == 10;
    assert ShownDay(t, -150, 180) == 0;
    hide JustAfterMidnight, ShownDay, ChangedDayIndex, Seconds;
    res := FindLoneChange(isDst, off, t, -150, 120, 180);
  }

  /** Where the clock is put back by two hours, from 1:59 to 23:59 of the day before, the change comes 25 hours and 59
      minutes after the midnight the search starts from. */
  method LateChangeBackIsNotFound() returns (res: Outcome)
    ensures res == Failed
  {
    var off: Zone := (u: real) => if u < 86340.0 then 7200.0 else 0.0;
    var isDst := (u: real) => u < 86340.0;
    var t := -777660.0;
    assert Seconds(1439) == 86340.0 && Seconds(120) == 7200.0 && Seconds(0) == 0.0;
    assert ChangedDayIndex(t, 1439) == 10;
    assert ShownDay(t, 1439, 0) == 0;
    hide JustAfterMidnight, ShownDay, ChangedDayIndex, Seconds;
    res := FindLoneChange(isDst, off, t, 1439, 120, 0);
  }
}
