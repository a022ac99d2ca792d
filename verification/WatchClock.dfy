/** The warped watch clock (src/ESWatchTime.cpp): the watch shows warp * x + b, where x is the time of the clock it
    follows; every control changes warp and b together.  The clock's value at each call is an input. */
module WatchClock {
  import opened LeapAdjust

  datatype Cycle =
    | ReverseFF6 | ReverseFF5 | ReverseFF4 | ReverseFF3 | ReverseFF2 | ReverseFF1 | Reverse | ReverseSlow1
    | Slow1 | Normal | FF1 | FF2 | FF3 | FF4 | FF5 | FF6 | Paused | Other

  function WarpFor(c: Cycle): real {
    match c
    case ReverseFF6 => -432000.0
    case ReverseFF5 => -86400.0
    case ReverseFF4 => -18000.0
    case ReverseFF3 => -3600.0
    case ReverseFF2 => -60.0
    case ReverseFF1 => -5.0
    case Reverse => -1.0
    case ReverseSlow1 => -0.25
    case Slow1 => 0.25
    case Normal => 1.0
    case FF1 => 5.0
    case FF2 => 60.0
    case FF3 => 3600.0
    case FF4 => 18000.0
    case FF5 => 86400.0
    case FF6 => 432000.0
    case Paused => 0.0
    case Other => 1.0
  }

  function NextFastForward(c: Cycle): Cycle {
    match c
    case ReverseFF6 => ReverseFF5
    case ReverseFF5 => ReverseFF4
    case ReverseFF4 => ReverseFF3
    case ReverseFF3 => ReverseFF2
    case ReverseFF2 => ReverseFF1
    case ReverseFF1 => Reverse
    case Reverse => ReverseSlow1
    case ReverseSlow1 => Slow1
    case Slow1 => Normal
    case Normal => FF1
    case FF1 => FF2
    case FF2 => FF3
    case FF3 => FF4
    case FF4 => FF5
    case FF5 => FF6
    case FF6 => Normal
    case Paused => Normal
    case Other => Normal
  }

  function NextRewind(c: Cycle): Cycle {
    match c
    case ReverseFF6 => Reverse
    case ReverseFF5 => ReverseFF6
    case ReverseFF4 => ReverseFF5
    case ReverseFF3 => ReverseFF4
    case ReverseFF2 => ReverseFF3
    case ReverseFF1 => ReverseFF2
    case Reverse => ReverseFF1
    case ReverseSlow1 => Reverse
    case Slow1 => ReverseSlow1
    case Normal => Slow1
    case FF1 => Normal
    case FF2 => FF1
    case FF3 => FF2
    case FF4 => FF3
    case FF5 => FF4
    case FF6 => FF5
    case Paused => ReverseSlow1
    case Other => Reverse
  }

  /** Settings that are speeds of the cycle, neither paused nor a speed of the caller's own. */
  predicate InCycle(c: Cycle) { !c.Paused? && !c.Other? }

  /** A step forward is to the next faster speed, unless it wraps around from the fastest; a step back to the next
      slower one, unless it wraps around from the fastest backwards.  A paused watch goes forward to normal speed and
      back to the slowest speed backwards. */
  lemma StepsAreNeighbours(c: Cycle)
    requires InCycle(c)
    ensures InCycle(NextFastForward(c)) && InCycle(NextRewind(c))
    ensures WarpFor(c) < WarpFor(NextFastForward(c)) <==> !c.FF6?
    ensures WarpFor(c) > WarpFor(NextRewind(c)) <==> !c.ReverseFF6?
    ensures forall d :: InCycle(d) && !c.FF6? ==> !(WarpFor(c) < WarpFor(d) < WarpFor(NextFastForward(c)))
    ensures forall d :: InCycle(d) && !c.ReverseFF6? ==> !(WarpFor(c) > WarpFor(d) > WarpFor(NextRewind(c)))
    ensures WarpFor(NextFastForward(FF6)) == 1.0 && WarpFor(NextRewind(ReverseFF6)) == -1.0
    ensures WarpFor(NextFastForward(Paused)) == 1.0 && WarpFor(NextRewind(Paused)) == -0.25
  {
  }

  /** The settings in the order of the C enumeration; outside it there is none. */
  const CYCLES: seq<Cycle> := [
    ReverseFF6, ReverseFF5, ReverseFF4, ReverseFF3, ReverseFF2, ReverseFF1, Reverse, ReverseSlow1,
    Slow1, Normal, FF1, FF2, FF3, FF4, FF5, FF6, Paused, Other
  ]

  function CycleAt(i: int): Cycle { if 0 <= i < |CYCLES| then CYCLES[i] else Other }

  /** The enumeration runs from the fastest speed backwards, five days a second, to the same speed forwards; every speed
      is there in both directions. */
  lemma SpeedsAscend(i: int)
    requires 0 <= i <= LAST_FORWARD
    ensures InCycle(CycleAt(i)) && WarpFor(CycleAt(LAST_FORWARD - i)) == -WarpFor(CycleAt(i))
    ensures i < LAST_FORWARD ==> WarpFor(CycleAt(i)) < WarpFor(CycleAt(i + 1))
    ensures WarpFor(CycleAt(LAST_FORWARD)) == 5.0 * 24.0 * 3600.0
  {
    assert CYCLES[15] == FF6;
  }

  const FIRST := 0
  const LAST_FORWARD := 15

  /** The search for the setting nearest a speed, from table position i on. */
  function SearchFrom(i: int, warp: real): Cycle
    decreases LAST_FORWARD - i
  {
    if i > LAST_FORWARD then Other
    else if WarpFor(CycleAt(i)) > warp && i < FIRST then
      if WarpFor(CycleAt(i)) - warp > warp - WarpFor(CycleAt(i - 1)) then CycleAt(i - 1) else CycleAt(i)
    else SearchFrom(i + 1, warp)
  }

  function CycleFromWarp(warp: real): Cycle {
    if warp == 0.0 then Paused else SearchFrom(FIRST, warp)
  }

  /** The search answers only at positions before the first, so from the first on it runs off the table's end. */
  lemma {:induction false} SearchNeverMatches(i: int, warp: real)
    requires i >= FIRST
    ensures SearchFrom(i, warp) == Other
    decreases LAST_FORWARD - i
  {
    if i <= LAST_FORWARD {
      SearchNeverMatches(i + 1, warp);
    }
  }

  /** So a speed that is in the table is not recognised, and every speed set directly is shown as `Other`. */
  lemma SpeedsAreNotRecognised(warp: real)
    ensures CycleFromWarp(warp) == (if warp == 0.0 then Paused else Other)
    ensures forall c: Cycle :: CycleFromWarp(WarpFor(c)) == c <==> c.Paused? || c.Other?
  {
    SearchNeverMatches(FIRST, warp);
    forall c: Cycle
      ensures CycleFromWarp(WarpFor(c)) == c <==> c.Paused? || c.Other?
    {
      SearchNeverMatches(FIRST, WarpFor(c));
    }
  }

  datatype Watch = Watch(warp: real, zero: real, beforeFreeze: real, cycle: Cycle, latched: nat, latchTime: real)

  /** The time the watch keeps, and the time it shows, which stands still while latched. */
  function Underlying(w: Watch, x: real): real {
    if w.warp != 0.0 then w.warp * x + w.zero else w.zero
  }

  function Shown(w: Watch, x: real): real {
    if w.latched > 0 then w.latchTime else Underlying(w, x)
  }

  // ---------------------------------------------------------------- the controls

  datatype Op = StopIt | StartIt | Toggle | WarpTo(warp: real) | PlayOrPause | FastForward | Rewind

  function Stopped(w: Watch, x: real): Watch {
    if w.warp != 0.0 then w.(zero := Shown(w, x), beforeFreeze := w.warp, warp := 0.0, cycle := Paused) else w
  }

  function Started(w: Watch, x: real): Watch {
    if w.warp == 0.0 then
      var warp := if w.beforeFreeze == 0.0 then 1.0 else w.beforeFreeze;
      w.(zero := w.zero - x * warp, beforeFreeze := warp, warp := warp, cycle := CycleFromWarp(warp))
    else w
  }

  function Warped(w: Watch, x: real, warp: real): Watch {
    if warp == 0.0 then Stopped(w, x)
    else w.(zero := if w.warp == 0.0 then w.zero - x * warp else w.zero + (w.warp - warp) * x,
            warp := warp, cycle := CycleFromWarp(warp))
  }

  function Apply(w: Watch, op: Op, x: real): Watch {
    match op
    case StopIt => Stopped(w, x)
    case StartIt => Started(w, x)
    case Toggle => if w.warp == 0.0 then Started(w, x) else Stopped(w, x)
    case WarpTo(warp) => Warped(w, x, warp)
    case PlayOrPause => if w.warp == 0.0 then Warped(w, x, 1.0).(cycle := Normal) else Stopped(w, x).(cycle := Paused)
    case FastForward => Warped(w, x, WarpFor(NextFastForward(w.cycle))).(cycle := NextFastForward(w.cycle))
    case Rewind => Warped(w, x, WarpFor(NextRewind(w.cycle))).(cycle := NextRewind(w.cycle))
  }

  lemma Distribute(a: real, b: real, x: real)
    ensures (a - b) * x == a * x - b * x
  {
  }

  /** A change at x that moves neither the shown time nor, unless it freezes a latched watch, the kept time. */
  predicate Continuous(w: Watch, after: Watch, x: real) {
    && Shown(after, x) == Shown(w, x)
    && (Underlying(after, x) == Underlying(w, x)
        <==> !(w.warp != 0.0 && after.warp == 0.0 && w.latched > 0 && w.latchTime != Underlying(w, x)))
  }

  lemma StoppedIsContinuous(w: Watch, x: real)
    ensures Continuous(w, Stopped(w, x), x)
  {
    hide CycleFromWarp;
  }

  lemma StartedIsContinuous(w: Watch, x: real)
    ensures Continuous(w, Started(w, x), x)
  {
    hide CycleFromWarp;
  }

  lemma WarpedIsContinuous(w: Watch, x: real, warp: real)
    ensures Continuous(w, Warped(w, x, warp), x)
  {
    hide CycleFromWarp;
    if warp == 0.0 {
      StoppedIsContinuous(w, x);
    } else {
      Distribute(w.warp, warp, x);
    }
  }

  lemma SettingIsIrrelevant(w: Watch, after: Watch, x: real, cycle: Cycle)
    requires Continuous(w, after, x)
    ensures Continuous(w, after.(cycle := cycle), x)
  {
  }

  /** No control makes the shown time jump, and the kept time jumps only if a running watch is stopped while latched at
      some other time. */
  lemma ControlsAreContinuous(w: Watch, op: Op, x: real)
    ensures Continuous(w, Apply(w, op, x), x)
  {
    StoppedIsContinuous(w, x);
    StartedIsContinuous(w, x);
    match op {
      case WarpTo(warp) => WarpedIsContinuous(w, x, warp);
      case PlayOrPause =>
        WarpedIsContinuous(w, x, 1.0);
        SettingIsIrrelevant(w, Warped(w, x, 1.0), x, Normal);
        SettingIsIrrelevant(w, Stopped(w, x), x, Paused);
      case FastForward =>
        WarpedIsContinuous(w, x, WarpFor(NextFastForward(w.cycle)));
        SettingIsIrrelevant(w, Warped(w, x, WarpFor(NextFastForward(w.cycle))), x, NextFastForward(w.cycle));
      case Rewind =>
        WarpedIsContinuous(w, x, WarpFor(NextRewind(w.cycle)));
        SettingIsIrrelevant(w, Warped(w, x, WarpFor(NextRewind(w.cycle))), x, NextRewind(w.cycle));
      case _ =>
    }
    hide Stopped, Started, Warped, WarpFor, NextFastForward, NextRewind, Shown, Underlying;
    assert Continuous(w, Apply(w, op, x), x);
  }

  /** A control applied when the followed clock shows x. */
  datatype Event = Event(op: Op, x: real)

  function Run(w: Watch, events: seq<Event>): Watch
    decreases |events|
  {
    if events == [] then w else Run(Apply(w, events[0].op, events[0].x), events[1..])
  }

  /** Speed times elapsed time, summed over the segments between controls. */
  function Travelled(w: Watch, x: real, events: seq<Event>, end: real): real
    decreases |events|
  {
    if events == [] then w.warp * (end - x)
    else w.warp * (events[0].x - x) + Travelled(Apply(w, events[0].op, events[0].x), events[0].x, events[1..], end)
  }

  lemma SegmentAdvances(w: Watch, x: real, y: real)
    ensures Underlying(w, y) == Underlying(w, x) + w.warp * (y - x)
  {
    assert w.warp * (y - x) == w.warp * y - w.warp * x;
  }

  /** After any run of an unlatched watch its reading is the initial one plus the distance travelled. */
  lemma {:induction false} ReadingIsDistance(w: Watch, x: real, events: seq<Event>, end: real)
    requires w.latched == 0
    ensures Shown(Run(w, events), end) == Shown(w, x) + Travelled(w, x, events, end)
    decreases |events|
  {
    hide Shown, Apply;
    if events == [] {
      ShownAdvances(w, x, end);
    } else {
      var e := events[0];
      ShownAdvances(w, x, e.x);
      ShownStays(w, e.op, e.x);
      ReadingIsDistance(Apply(w, e.op, e.x), e.x, events[1..], end);
    }
  }

  lemma ShownAdvances(w: Watch, x: real, y: real)
    requires w.latched == 0
    ensures Shown(w, y) == Shown(w, x) + w.warp * (y - x)
  {
    SegmentAdvances(w, x, y);
  }

  lemma ShownStays(w: Watch, op: Op, x: real)
    ensures Shown(Apply(w, op, x), x) == Shown(w, x) && Apply(w, op, x).latched == w.latched
  {
    ControlsAreContinuous(w, op, x);
    hide WarpFor, NextFastForward, NextRewind, CycleFromWarp, Shown;
  }

  /** The speed setting on display is the speed. */
  predicate Consistent(w: Watch) {
    && (w.cycle.Paused? <==> w.warp == 0.0)
    && (!w.cycle.Other? ==> w.warp == WarpFor(w.cycle))
  }

  /** The controls that leave the setting at "other": a nonzero speed set directly, and a start, which does not
      recognise the speed it resumes. */
  predicate MakesOther(w: Watch, op: Op) {
    match op
    case WarpTo(warp) => warp != 0.0
    case StartIt => w.warp == 0.0 || w.cycle.Other?
    case Toggle => w.warp == 0.0
    case _ => false
  }

  lemma StepStaysConsistent(w: Watch, op: Op, x: real)
    requires Consistent(w)
    ensures Consistent(Apply(w, op, x)) && (Apply(w, op, x).cycle.Other? <==> MakesOther(w, op))
  {
    hide SearchFrom;
    SearchNeverMatches(FIRST, w.beforeFreeze);
    SearchNeverMatches(FIRST, 1.0);
    SearchNeverMatches(FIRST, if op.WarpTo? then op.warp else 1.0);
  }

  /** After any run the setting is that of the speed, or "other" exactly if the last control made it so. */
  lemma {:induction false} RunsStayConsistent(w: Watch, events: seq<Event>)
    requires Consistent(w)
    ensures Consistent(Run(w, events))
    ensures events != [] ==>
              (Run(w, events).cycle.Other?
               <==> MakesOther(Run(w, events[..|events| - 1]), events[|events| - 1].op))
    decreases |events|
  {
    hide Consistent, Apply, MakesOther;
    if events != [] {
      var next := Apply(w, events[0].op, events[0].x);
      StepStaysConsistent(w, events[0].op, events[0].x);
      RunsStayConsistent(next, events[1..]);
      if |events| > 1 {
        assert events[1..][..|events| - 2] == events[..|events| - 1][1..];
      }
    }
  }

  /** Stopping and starting again resumes the old speed and loses exactly the time in between. */
  lemma StartUndoesStop(w: Watch, x1: real, x2: real, y: real)
    requires w.warp != 0.0 && w.latched == 0
    ensures var again := Apply(Apply(w, StopIt, x1), StartIt, x2);
            again.warp == w.warp && Shown(again, y) == Shown(w, y) - w.warp * (x2 - x1)
  {
    assert w.warp * (x2 - x1) == w.warp * x2 - w.warp * x1;
  }

  /** One step forward and one back leave speed and setting as they were, unless the forward step wrapped around or the
      watch was paused or at a speed of its own; and the other way round likewise. */
  lemma CycleUndoneExactly(w: Watch, x1: real, x2: real)
    requires Consistent(w)
    ensures var there := Apply(Apply(w, FastForward, x1), Rewind, x2);
            there.cycle == w.cycle && there.warp == w.warp <==> !(w.cycle.FF6? || w.cycle.Paused? || w.cycle.Other?)
    ensures var there := Apply(Apply(w, Rewind, x1), FastForward, x2);
            (there.cycle == w.cycle && there.warp == w.warp
             <==> !(w.cycle.ReverseFF6? || w.cycle.Paused? || w.cycle.Other?))
  {
    assert NextRewind(NextFastForward(w.cycle)) == w.cycle <==> !(w.cycle.FF6? || w.cycle.Paused? || w.cycle.Other?);
    assert NextFastForward(NextRewind(w.cycle)) == w.cycle
      <==> !(w.cycle.ReverseFF6? || w.cycle.Paused? || w.cycle.Other?);
  }

  // ---------------------------------------------------------------- watch time and continuous time

  /** A watch on smooth time follows continuous time, any other one the leap-adjusted UTC. */
  function Followed(smooth: bool, next: NextLeap, contSkew: real, cTime: real): real {
    if smooth then cTime else NtpTimeForCTime(next, contSkew, cTime)
  }

  function Unfollowed(smooth: bool, next: NextLeap, contSkew: real, time: real): real {
    if smooth then time else CTimeForNtpTime(next, contSkew, time)
  }

  function WatchTimeForContTime(w: Watch, smooth: bool, next: NextLeap, contSkew: real, cTime: real): real {
    if w.warp != 0.0 then w.warp * Followed(smooth, next, contSkew, cTime) + w.zero else w.zero
  }

  datatype Answer = At(cTime: real) | NoAnswer

  function ContTimeForWatchTime(w: Watch, smooth: bool, next: NextLeap, contSkew: real, now: real, t: real): Answer {
    if w.warp == 0.0 then
      if (if w.latched > 0 then w.latchTime else w.zero) == t then At(now) else NoAnswer
    else At(Unfollowed(smooth, next, contSkew, (t - w.zero) / w.warp))
  }

  lemma DivideBack(y: real, m: real)
    requires m != 0.0
    ensures m * (y / m) == y && (m * y) / m == y
  {
  }

  lemma ScaleOneToOne(x: real, y: real, m: real)
    requires m != 0.0
    ensures m * x == m * y <==> x == y
  {
    DivideBack(x, m);
    DivideBack(y, m);
  }

  /** From continuous time to watch time and back is the identity for a running watch, except that a watch on UTC cannot
      tell instants of a leap-second hold apart. */
  lemma ContRoundTripExactly(w: Watch, smooth: bool, next: NextLeap, contSkew: real, now: real, cTime: real)
    requires w.warp != 0.0 && next.delta != 0.0
    ensures ContTimeForWatchTime(w, smooth, next, contSkew, now, WatchTimeForContTime(w, smooth, next, contSkew, cTime))
            == At(cTime)
       <==> smooth || !Holding(next, cTime + contSkew)
  {
    var followed := Followed(smooth, next, contSkew, cTime);
    DivideBack(followed, w.warp);
    CTimeRoundTripExactly(next, contSkew, cTime);
    hide Followed, NtpTimeForCTime, CTimeForNtpTime, Holding;
    assert WatchTimeForContTime(w, smooth, next, contSkew, cTime) - w.zero == w.warp * followed;
  }

  /** The displayed times UTC skips: the instant of a positive leap, the seconds a negative leap leaves out. */
  predicate SkippedByLeap(next: NextLeap, time: real) {
    if next.delta > 0.0 then time == next.date else next.date <= time < next.date - next.delta
  }

  /** From watch time to continuous time and back is the identity whenever there is an answer, except for watches on UTC
      at times UTC skips. */
  lemma WatchRoundTripExactly(w: Watch, smooth: bool, next: NextLeap, contSkew: real, now: real, t: real)
    requires w.latched == 0 && next.delta != 0.0
    requires ContTimeForWatchTime(w, smooth, next, contSkew, now, t).At?
    ensures var cTime := ContTimeForWatchTime(w, smooth, next, contSkew, now, t).cTime;
            (WatchTimeForContTime(w, smooth, next, contSkew, cTime) == t
             <==> w.warp == 0.0 || smooth || !SkippedByLeap(next, (t - w.zero) / w.warp))
  {
    if w.warp != 0.0 {
      var followed := (t - w.zero) / w.warp;
      DivideBack(t - w.zero, w.warp);
      NtpRoundTripExactly(next, contSkew, followed);
      var back := Followed(smooth, next, contSkew, Unfollowed(smooth, next, contSkew, followed));
      assert smooth ==> back == followed;
      hide NtpTimeForCTime, CTimeForNtpTime;
      ScaleOneToOne(back, followed, w.warp);
    }
  }

  /** What the call without an argument answers. */
  function ContTimeNow(w: Watch, smooth: bool, next: NextLeap, contSkew: real, now: real): real {
    if w.warp == 0.0 then
      (if w.latched > 0 then Unfollowed(smooth, next, contSkew, w.latchTime) else now)
    else Unfollowed(smooth, next, contSkew, (Followed(smooth, next, contSkew, now) - w.zero) / w.warp)
  }

  /** The times whose conversion gives a continuous time: its own reading, unless it is held; the leap instant itself,
      for the start of a hold; and around a negative leap also a label the leap removes. */
  predicate LabelsUtc(next: NextLeap, contSkew: real, time: real, cTime: real) {
    || (time == NtpTimeForCTime(next, contSkew, cTime) && !Holding(next, cTime + contSkew))
    || (time == cTime + contSkew && time == next.date)
    || (next.delta < 0.0 && time == cTime + contSkew - next.delta && time > next.date)
  }

  predicate Labels(smooth: bool, next: NextLeap, contSkew: real, time: real, cTime: real) {
    if smooth then time == cTime else LabelsUtc(next, contSkew, time, cTime)
  }

  lemma UnfollowedExactly(smooth: bool, next: NextLeap, contSkew: real, time: real, cTime: real)
    requires smooth || next.delta != 0.0
    ensures Unfollowed(smooth, next, contSkew, time) == cTime <==> Labels(smooth, next, contSkew, time, cTime)
  {
  }

  /** It answers the present for a stopped watch that is not latched.  For one that is latched, or running, it does only
      when the latched time, or what a running watch would have to show to read this, labels the present: for a running
      watch on smooth time, exactly when it happens to show the continuous time itself. */
  lemma ContTimeNowExactly(w: Watch, smooth: bool, next: NextLeap, contSkew: real, now: real)
    requires smooth || next.delta != 0.0
    ensures w.warp == 0.0 && w.latched == 0 ==> ContTimeNow(w, smooth, next, contSkew, now) == now
    ensures w.warp == 0.0 && w.latched > 0 ==>
              (ContTimeNow(w, smooth, next, contSkew, now) == now <==> Labels(smooth, next, contSkew, w.latchTime, now))
    ensures w.warp != 0.0 && smooth ==>
              (ContTimeNow(w, smooth, next, contSkew, now) == now <==> ShowsAs(w, now, now))
    ensures w.warp != 0.0 && !smooth ==>
              (ContTimeNow(w, smooth, next, contSkew, now) == now
               <==> exists time :: Labels(smooth, next, contSkew, time, now)
                                   && ShowsAs(w, time, Followed(smooth, next, contSkew, now)))
  {
    UnfollowedExactly(smooth, next, contSkew, w.latchTime, now);
    if w.warp != 0.0 {
      var followed := Followed(smooth, next, contSkew, now);
      var time := (followed - w.zero) / w.warp;
      ShownAtOneTime(w, time, followed);
      ShownAtOneTime(w, now, now);
      UnfollowedExactly(smooth, next, contSkew, time, now);
      hide ShowsAs, LabelsUtc, NtpTimeForCTime, CTimeForNtpTime;
      assert ShowsAs(w, time, followed);
    }
  }

  /** A running watch shows a reading at one time only. */
  lemma ShownAtOneTime(w: Watch, time: real, reading: real)
    requires w.warp != 0.0
    ensures time == (reading - w.zero) / w.warp <==> ShowsAs(w, time, reading)
    ensures forall other :: ShowsAs(w, other, reading) ==> other == (reading - w.zero) / w.warp
  {
    DivideBack(reading - w.zero, w.warp);
    DivideBack(time, w.warp);
    forall other | ShowsAs(w, other, reading)
      ensures other == (reading - w.zero) / w.warp
    {
      DivideBack(other, w.warp);
    }
  }

  /** The watch shows `reading` when the clock it follows shows `time`. */
  predicate ShowsAs(w: Watch, time: real, reading: real) { Underlying(w, time) == reading }

  // ---------------------------------------------------------------- the supported range

  function Constrained(w: Watch, x: real, min: real, max: real): Watch {
    if Shown(w, x) <= min then (if w.warp != 0.0 then Stopped(w, x) else w.(zero := min))
    else if Shown(w, x) >= max then (if w.warp != 0.0 then Stopped(w, x) else w.(zero := max))
    else w
  }

  /** One check stops a running watch that has left the range but leaves it outside; only a second brings it back. */
  lemma ConstrainExactly(w: Watch, x: real, y: real, min: real, max: real)
    requires min < max && w.latched == 0
    ensures min <= Shown(Constrained(w, x, min, max), x) <= max <==> w.warp == 0.0 || min <= Shown(w, x) <= max
    ensures Shown(w, x) <= min || Shown(w, x) >= max ==>
              var twice := Constrained(Constrained(w, x, min, max), y, min, max);
              && twice.warp == 0.0
              && Shown(twice, y) == if Shown(w, x) <= min then min else max
  {
  }

  class WatchTime {
    var warp: real
    var ourTimeAtCorrectedZero: real
    var warpBeforeFreeze: real
    var cycle: Cycle
    var latched: nat
    var latchCorrectedTime: real

    function State(): Watch
      reads this
    {
      Watch(warp, ourTimeAtCorrectedZero, warpBeforeFreeze, cycle, latched, latchCorrectedTime)
    }

    constructor ()
      ensures Consistent(State()) && latched == 0
      ensures forall x :: Shown(State(), x) == x
    {
      warp, ourTimeAtCorrectedZero, cycle := 1.0, 0.0, Normal;
      warpBeforeFreeze, latched := 0.0, 0;
    }

    constructor Frozen(time: real)
      ensures Consistent(State()) && latched == 0
      ensures forall x :: Shown(State(), x) == time
    {
      warp, ourTimeAtCorrectedZero, cycle := 0.0, time, Paused;
      warpBeforeFreeze, latched := 0.0, 0;
    }

    /** cycleFromWarp: the loop over the table. */
    static method FindCycle(warp: real) returns (c: Cycle)
      ensures c == CycleFromWarp(warp)
    {
      if warp == 0.0 {
        return Paused;
      }
      var cycle := FIRST;
      while cycle <= LAST_FORWARD
        invariant SearchFrom(cycle, warp) == SearchFrom(FIRST, warp)
      {
        if WarpFor(CycleAt(cycle)) > warp {
          if cycle < FIRST {
            if WarpFor(CycleAt(cycle)) - warp > warp - WarpFor(CycleAt(cycle - 1)) {
              return CycleAt(cycle - 1);
            } else {
              return CycleAt(cycle);
            }
          }
        }
        cycle := cycle + 1;
      }
      return Other;
    }

    method CurrentTime(x: real) returns (t: real)
      ensures t == Shown(State(), x)
    {
      if latched > 0 {
        return latchCorrectedTime;
      }
      if warp != 0.0 {
        t := warp * x + ourTimeAtCorrectedZero;
      } else {
        t := ourTimeAtCorrectedZero;
      }
    }

    method Stop(x: real)
      modifies this
      ensures State() == Apply(old(State()), StopIt, x) && Shown(State(), x) == old(Shown(State(), x))
    {
      hide CycleFromWarp;
      StoppedIsContinuous(State(), x);
      if warp != 0.0 {
        var t := CurrentTime(x);
        ourTimeAtCorrectedZero := if latched > 0 then latchCorrectedTime else t;
        warpBeforeFreeze := warp;
        warp := 0.0;
        cycle := Paused;
      }
    }

    method Start(x: real)
      modifies this
      ensures State() == Apply(old(State()), StartIt, x) && Shown(State(), x) == old(Shown(State(), x))
    {
      hide CycleFromWarp;
      StartedIsContinuous(State(), x);
      if warp == 0.0 {
        if warpBeforeFreeze == 0.0 {
          warpBeforeFreeze := 1.0;
        }
        ourTimeAtCorrectedZero := ourTimeAtCorrectedZero - x * warpBeforeFreeze;
        warp := warpBeforeFreeze;
        cycle := FindCycle(warp);
      }
    }

    method ToggleStop(x: real)
      modifies this
      ensures State() == Apply(old(State()), Toggle, x) && Shown(State(), x) == old(Shown(State(), x))
    {
      if warp == 0.0 {
        Start(x);
      } else {
        Stop(x);
      }
    }

    method SetWarp(newWarp: real, x: real)
      modifies this
      ensures State() == Apply(old(State()), WarpTo(newWarp), x) && Shown(State(), x) == old(Shown(State(), x))
    {
      hide CycleFromWarp;
      ControlsAreContinuous(State(), WarpTo(newWarp), x);
      if newWarp == 0.0 {
        Stop(x);
      } else {
        if warp == 0.0 {
          ourTimeAtCorrectedZero := ourTimeAtCorrectedZero - x * newWarp;
        } else {
          ourTimeAtCorrectedZero := ourTimeAtCorrectedZero + (warp - newWarp) * x;
        }
        warp := newWarp;
        cycle := FindCycle(warp);
      }
    }

    method PausePlay(x: real)
      modifies this
      ensures State() == Apply(old(State()), PlayOrPause, x) && Shown(State(), x) == old(Shown(State(), x))
    {
      if warp == 0.0 {
        SetWarp(1.0, x);
        cycle := Normal;
      } else {
        Stop(x);
        cycle := Paused;
      }
    }

    method CycleFastForward(x: real)
      modifies this
      ensures State() == Apply(old(State()), FastForward, x) && Shown(State(), x) == old(Shown(State(), x))
    {
      hide WarpFor, NextFastForward, NextRewind, CycleFromWarp, Shown;
      ShownStays(State(), FastForward, x);
      var newCycle := NextFastForward(cycle);
      SetWarp(WarpFor(newCycle), x);
      cycle := newCycle;
    }

    method CycleRewind(x: real)
      modifies this
      ensures State() == Apply(old(State()), Rewind, x) && Shown(State(), x) == old(Shown(State(), x))
    {
      hide WarpFor, NextFastForward, NextRewind, CycleFromWarp, Shown;
      ShownStays(State(), Rewind, x);
      var newCycle := NextRewind(cycle);
      SetWarp(WarpFor(newCycle), x);
      cycle := newCycle;
    }

    method CheckAndConstrainAbsoluteTime(x: real, min: real, max: real) returns (outside: bool)
      requires min < max
      modifies this
      ensures State() == Constrained(old(State()), x, min, max)
      ensures outside <==> !(min < old(Shown(State(), x)) < max)
    {
      var now := CurrentTime(x);
      if now <= min {
        if warp != 0.0 {
          Stop(x);
        } else {
          ourTimeAtCorrectedZero := min;
        }
        return true;
      }
      if now >= max {
        if warp != 0.0 {
          Stop(x);
        } else {
          ourTimeAtCorrectedZero := max;
        }
        return true;
      }
      return false;
    }
  }
}
