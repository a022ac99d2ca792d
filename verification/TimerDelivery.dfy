/** What becomes of a timer on a whole run of the timer thread (src/ESTimer.cpp): every firing is notified exactly once
    unless the timer is released, one-shot timers fire at most once and repeating ones at fixed steps, and each is
    queued for the time it was set for. */
module TimerDelivery {
  import opened Common
  import opened LeapAdjust
  import opened TimerThread

  // ---------------------------------------------------------------- the history of a timer, read off the run

  /** What the last creation of a timer set, and how often it has been fired since. */
  datatype History = History(atTime: real, useContinuousTime: bool, repeatEvery: real, fires: nat)

  function HistoryAfter(h: map<TimerId, History>, a: Action): map<TimerId, History> {
    match a
    case Create(id, atTime, useContinuousTime, repeatEvery) =>
      h[id := History(atTime, useContinuousTime, repeatEvery, 0)]
    case Fire(id, _) => if id in h then h[id := h[id].(fires := h[id].fires + 1)] else h
    case _ => h
  }

  function Histories(h: map<TimerId, History>, run: seq<Action>): map<TimerId, History>
    decreases run
  {
    if run == [] then h else Histories(HistoryAfter(h, run[0]), run[1..])
  }

  /** The notifications of an observer since the timer was last created. */
  function NotifiedSince(log: seq<Event>, id: TimerId): nat {
    if log == [] then 0
    else
      var before := NotifiedSince(log[..|log| - 1], id);
      match log[|log| - 1]
      case Created(x) => if x == id then 0 else before
      case Notified(x) => if x == id then before + 1 else before
      case _ => before
  }

  lemma NotifiedAfter(log: seq<Event>, e: Event, id: TimerId)
    ensures NotifiedSince(log + [e], id)
            == match e
               case Created(x) => if x == id then 0 else NotifiedSince(log, id)
               case Notified(x) => NotifiedSince(log, id) + (if x == id then 1 else 0)
               case _ => NotifiedSince(log, id)
  {
    assert (log + [e])[..|log|] == log;
  }

  // ---------------------------------------------------------------- the invariant

  /** The counts: every firing was sent, every receipt notified as long as the timer was not released. */
  ghost predicate Counted(s: System, id: TimerId, h: History)
    requires id in s.timers
  {
    var t := s.timers[id];
    && t.sent == h.fires
    && (if t.releasePending then NotifiedSince(s.log, id) <= t.received else NotifiedSince(s.log, id) == t.received)
  }

  /** The times: a timer stays what it was created as, and each firing moves a repeating one by its period. */
  ghost predicate OnTime(s: System, id: TimerId, h: History)
    requires id in s.timers
  {
    var t := s.timers[id];
    && t.useContinuousTime == h.useContinuousTime && t.repeatEvery == h.repeatEvery
    && t.atTime == h.atTime + h.fires as real * h.repeatEvery
    && (id in s.queue && t.useContinuousTime ==> t.fireTime == t.atTime)
  }

  /** The duty: an activated timer is served, a one-shot timer once, a repeating one until it is released. */
  ghost predicate Served(s: System, id: TimerId, h: History)
    requires id in s.timers
  {
    var t := s.timers[id];
    && (h.repeatEvery == 0.0 ==> h.fires <= 1)
    && (h.repeatEvery == 0.0 && (t.activated || Awaited(s, id)) ==> h.fires == 0)
    && (t.thread.Some? && !t.releasePending ==>
          Awaited(s, id) || t.activated || (h.repeatEvery == 0.0 && h.fires == 1))
  }

  predicate Awaited(s: System, id: TimerId) { ActivateRequest(id) in s.toTimerThread }

  ghost predicate Tracked(s: System, id: TimerId, h: map<TimerId, History>)
    requires id in s.timers
  {
    id in h && Counted(s, id, h[id]) && OnTime(s, id, h[id]) && Served(s, id, h[id])
  }

  ghost predicate Tracks(s: System, h: map<TimerId, History>) {
    forall id :: id in s.timers ==> Tracked(s, id, h)
  }

  // ---------------------------------------------------------------- one step

  /** A timer that a step leaves alone stays tracked. */
  lemma Untouched(s: System, u: System, id: TimerId, h: map<TimerId, History>, after: map<TimerId, History>)
    requires id in s.timers && Tracked(s, id, h) && id in u.timers && id in after && after[id] == h[id]
    requires u.timers[id] == s.timers[id] && NotifiedSince(u.log, id) == NotifiedSince(s.log, id)
    requires id in u.queue ==> id in s.queue
    requires Awaited(u, id) <==> Awaited(s, id)
    ensures Tracked(u, id, after)
  {
  }

  lemma CreateTracks(s: System, a: Action, h: map<TimerId, History>)
    requires Inv(s) && Tracks(s, h) && a.Create? && Enabled(s, a)
    ensures Tracks(Apply(s, a), HistoryAfter(h, a))
  {
    hide CountInv, ReleaseInv, LogInv;
    var u := Apply(s, a);
    forall id | id in u.timers
      ensures Tracked(u, id, HistoryAfter(h, a))
    {
      NotifiedAfter(s.log, Created(a.id), id);
      if id != a.id {
        Untouched(s, u, id, h, HistoryAfter(h, a));
      } else {
        assert Awaited(s, id) ==> RequestSound(s, ActivateRequest(id));
      }
    }
  }

  lemma ClientTracks(s: System, a: Action, h: map<TimerId, History>)
    requires Inv(s) && Tracks(s, h) && (a.Activate? || a.Release?) && Enabled(s, a)
    ensures Tracks(Apply(s, a), HistoryAfter(h, a))
  {
    hide ReleaseInv, LogInv;
    var u := Apply(s, a);
    assert CountsAgree(s, a.id);
    forall id | id in u.timers
      ensures Tracked(u, id, HistoryAfter(h, a))
    {
      assert Tracked(s, id, h);
      if a.Release? {
        NotifiedAfter(s.log, ReleaseAsked(a.id), id);
      }
      if id != a.id {
        Untouched(s, u, id, h, HistoryAfter(h, a));
      }
    }
  }

  lemma ReceiveTracks(s: System, a: Action, h: map<TimerId, History>)
    requires Inv(s) && Tracks(s, h) && a.Receive? && Enabled(s, a)
    ensures Tracks(Apply(s, a), HistoryAfter(h, a))
  {
    hide QueueInv, RequestInv, ReleaseInv, LogInv;
    var u, n := Apply(s, a), s.toClients[a.k];
    ReceiveShape(s, a);
    ReceiveLog(s, a);
    hide Apply, CountInv, Tracked, NotifiedSince;
    forall id | id in u.timers
      ensures Tracked(u, id, HistoryAfter(h, a))
    {
      assert Tracked(s, id, h);
      NotifiedAfter(s.log, Notified(n.id), id);
      if id != n.id {
        assert Awaited(u, id) <==> Awaited(s, id);
        Untouched(s, u, id, h, h);
      } else {
        Received(s, u, id, h);
      }
    }
  }

  lemma Received(s: System, u: System, id: TimerId, h: map<TimerId, History>)
    requires id in s.timers && Tracked(s, id, h) && id in u.timers && u.queue == s.queue
    requires u.timers[id] == s.timers[id].(received := s.timers[id].received + 1)
    requires NotifiedSince(u.log, id)
             == NotifiedSince(s.log, id) + (if s.timers[id].releasePending then 0 else 1)
    requires Awaited(u, id) <==> Awaited(s, id)
    ensures Tracked(u, id, h)
  {
  }

  lemma ReceiveLog(s: System, a: Action)
    requires CountInv(s) && a.Receive? && Enabled(s, a)
    ensures var u, n := Apply(s, a), s.toClients[a.k];
            && n.id in s.timers && u.queue == s.queue
            && u.log == s.log + (if s.timers[n.id].releasePending then [] else [Notified(n.id)])
  {
    assert s.toClients[a.k] in s.toClients;
  }

  lemma ProcessTracks(s: System, a: Action, h: map<TimerId, History>)
    requires Inv(s) && Tracks(s, h) && a.Process? && Enabled(s, a)
    ensures Tracks(Apply(s, a), HistoryAfter(h, a))
  {
    hide CountInv, ReleaseInv, LogInv, Insert, EraseKey;
    var u, r := Apply(s, a), s.toTimerThread[0];
    assert r in s.toTimerThread && RequestSound(s, r);
    PoppedOrder(s.toTimerThread);
    assert u.toTimerThread == s.toTimerThread[1..];
    assert forall x :: x in s.toTimerThread[1..] ==> InOrder(r, x);
    ProcessedQueue(s, u, r, a.clock);
    assert Tracked(s, r.id, h);
    if r.id in u.timers {
      Processed(s, u, r, a.clock, h);
    }
    assert forall id :: id in u.timers && id != r.id ==> id in s.timers && u.timers[id] == s.timers[id];
    assert u.log == s.log || u.log == s.log + [Deleted(r.id)];
    hide Apply, ProcessStep, ActivateStep, ReleaseStep, Tracked, QueueInv;
    forall id | id in u.timers
      ensures Tracked(u, id, HistoryAfter(h, a))
    {
      assert Tracked(s, id, h);
      NotifiedAfter(s.log, Deleted(r.id), id);
      if id != r.id {
        assert Awaited(u, id) <==> Awaited(s, id);
        Untouched(s, u, id, h, h);
      }
    }
  }

  lemma ProcessedQueue(s: System, u: System, r: Request, clock: ClockBase)
    requires s.toTimerThread != [] && r == s.toTimerThread[0] && r.id in s.timers && QueueInv(s)
    requires u == ProcessStep(s.(toTimerThread := s.toTimerThread[1..]), r, clock)
    ensures forall x :: x in u.queue ==> x in s.queue || (r.ActivateRequest? && x == r.id)
    ensures r.ReleaseRequest? && s.timers[r.id].activated ==> r.id !in u.queue
  {
    hide Insert, EraseKey;
    InsertMembers(u.timers, s.queue, r.id);
    EraseKeyMembers(s.timers, s.queue, s.timers[r.id].fireTime);
  }

  lemma Processed(s: System, u: System, r: Request, clock: ClockBase, h: map<TimerId, History>)
    requires s.toTimerThread != [] && r == s.toTimerThread[0] && r.id in s.timers && RequestSound(s, r)
    requires u == ProcessStep(s.(toTimerThread := s.toTimerThread[1..]), r, clock) && r.id in u.timers
    requires forall x :: x in u.queue ==> x in s.queue || (r.ActivateRequest? && x == r.id)
    requires forall x :: x in s.toTimerThread[1..] ==> InOrder(r, x)
    requires Tracked(s, r.id, h)
    ensures Tracked(u, r.id, h)
  {
    hide Insert, EraseKey;
    assert u.toTimerThread == s.toTimerThread[1..];
    assert ActivateRequest(r.id) !in s.toTimerThread[1..];
    NotifiedAfter(s.log, Deleted(r.id), r.id);
  }

  lemma FireTracks(s: System, a: Action, h: map<TimerId, History>)
    requires Inv(s) && Tracks(s, h) && a.Fire? && Enabled(s, a)
    ensures Tracks(Apply(s, a), HistoryAfter(h, a))
  {
    hide RequestInv, ReleaseInv, LogInv, Insert, EraseOne;
    var u := Apply(s, a);
    FireQueue(s, a.id, a.clock);
    EraseOneKeeps(s.timers, s.queue, a.id);
    InsertMembers(u.timers, EraseOne(s.queue, a.id), a.id);
    QueuedIsNotAwaited(s, a.id);
    var after := HistoryAfter(h, a);
    assert Tracked(s, a.id, h);
    assert u.log == s.log && u.toTimerThread == s.toTimerThread;
    FiredOnce(s, u, a.id, a.clock, h);
    hide FireStep, Apply, Tracked, QueueInv;
    forall id | id in u.timers
      ensures Tracked(u, id, after)
    {
      assert Tracked(s, id, h);
      if id != a.id {
        Untouched(s, u, id, h, after);
      }
    }
  }

  lemma FiredOnce(s: System, u: System, id: TimerId, clock: ClockBase, h: map<TimerId, History>)
    requires id in s.timers && s.timers[id].thread.Some? && Tracked(s, id, h) && u == FireStep(s, id, clock)
    requires s.timers[id].activated && !Awaited(s, id)
    requires id !in EraseOne(s.queue, id)
    requires forall x :: x in Insert(u.timers, EraseOne(s.queue, id), id) <==> x in EraseOne(s.queue, id) || x == id
    ensures Tracked(u, id, h[id := h[id].(fires := h[id].fires + 1)])
  {
    hide Insert, EraseOne;
    OneStepMore(h[id].atTime, h[id].fires, h[id].repeatEvery);
  }

  lemma QueuedIsNotAwaited(s: System, id: TimerId)
    requires QueueInv(s) && RequestInv(s) && id in s.queue
    ensures !Awaited(s, id)
  {
    assert Awaited(s, id) ==> RequestSound(s, ActivateRequest(id));
  }

  lemma OneStepMore(start: real, n: nat, step: real)
    ensures start + (n + 1) as real * step == start + n as real * step + step
    ensures step == 0.0 ==> start + (n + 1) as real * step == start + n as real * step
  {
  }

  lemma RecalculateTracks(s: System, a: Action, h: map<TimerId, History>)
    requires Inv(s) && Tracks(s, h) && a.Recalculate?
    ensures Tracks(Apply(s, a), HistoryAfter(h, a))
  {
    hide CountInv, RequestInv, ReleaseInv, LogInv, RecalculateFrom;
    var u := Apply(s, a);
    RecalculateMoves(s, s.queue, [], a.clock);
    forall id | id in u.timers
      ensures Tracked(u, id, HistoryAfter(h, a))
    {
      assert Tracked(s, id, h);
    }
  }

  lemma StepTracks(s: System, a: Action, h: map<TimerId, History>)
    requires Inv(s) && Tracks(s, h) && Enabled(s, a)
    ensures Tracks(Apply(s, a), HistoryAfter(h, a))
  {
    hide Inv, Apply, Enabled, Tracks, HistoryAfter;
    match a
    case Create(_, _, _, _) => CreateTracks(s, a, h);
    case Activate(_, _) => ClientTracks(s, a, h);
    case Release(_, _) => ClientTracks(s, a, h);
    case Receive(_) => ReceiveTracks(s, a, h);
    case Process(_) => ProcessTracks(s, a, h);
    case Fire(_, _) => FireTracks(s, a, h);
    case Recalculate(_) => RecalculateTracks(s, a, h);
  }

  // ---------------------------------------------------------------- whole runs

  lemma {:induction false} RunTracks(s: System, run: seq<Action>, h: map<TimerId, History>)
    requires Inv(s) && Tracks(s, h) && Legal(s, run)
    ensures Inv(Run(s, run)) && Tracks(Run(s, run), Histories(h, run))
    decreases run
  {
    if run != [] {
      hide Inv, Apply, Tracks, HistoryAfter;
      StepKeeps(s, run[0]);
      StepTracks(s, run[0], h);
      RunTracks(Apply(s, run[0]), run[1..], HistoryAfter(h, run[0]));
    }
  }

  /** On every run, for every timer not released: its observer has been notified once for each notification received;
      what was fired and not received is in flight; so once no message of it is under way, the notifications since its
      creation are exactly the firings. */
  lemma EveryFiringIsNotified(run: seq<Action>, id: TimerId)
    requires Legal(INITIAL, run) && id in Run(INITIAL, run).timers && !Run(INITIAL, run).timers[id].releasePending
    ensures var s, h := Run(INITIAL, run), Histories(map[], run);
            && id in h && NotifiedSince(s.log, id) == s.timers[id].received
            && h[id].fires
               == NotifiedSince(s.log, id)
                  + (if s.timers[id].thread.Some? then InFlight(s, s.timers[id].thread.value, id) else 0)
            && ((forall n :: n in s.toClients ==> n.id != id) ==> NotifiedSince(s.log, id) == h[id].fires)
  {
    InitialInv();
    RunTracks(INITIAL, run, map[]);
    var s, h := Run(INITIAL, run), Histories(map[], run);
    assert Tracked(s, id, h) && CountsAgree(s, id);
    assert s.timers[id].thread.Some? && InFlight(s, s.timers[id].thread.value, id) > 0 ==>
             Notification(s.timers[id].thread.value, id) in s.toClients;
  }

  /** On every run, for every timer: it is set for its first time plus a period for each firing, and queued for just
      that time if it is on continuous time; a one-shot timer fires at most once; and one that has been activated and
      not released is waiting for the timer thread, or activated, or one-shot and has fired. */
  lemma EveryTimerIsServed(run: seq<Action>, id: TimerId)
    requires Legal(INITIAL, run) && id in Run(INITIAL, run).timers
    ensures var s, h := Run(INITIAL, run), Histories(map[], run);
            && id in h && OnTime(s, id, h[id]) && Served(s, id, h[id])
  {
    InitialInv();
    RunTracks(INITIAL, run, map[]);
    assert Tracked(Run(INITIAL, run), id, Histories(map[], run));
  }

  // ---------------------------------------------------------------- the time a timer is queued for

  /** The display shows a timer's time when it is due, except for times UTC does not show. */
  lemma DueWhenShown(clock: ClockBase, t: Timer)
    requires clock.next.delta != 0.0
    ensures t.useContinuousTime ==> CalculateFireTime(clock, t) == t.atTime
    ensures !t.useContinuousTime ==>
              (NtpTimeForCTime(clock.next, clock.contSkew, CalculateFireTime(clock, t)) == t.atTime
               <==> if clock.next.delta > 0.0 then t.atTime != clock.next.date
                    else !(clock.next.date <= t.atTime < clock.next.date - clock.next.delta))
  {
    NtpRoundTripExactly(clock.next, clock.contSkew, t.atTime);
  }

  /** Every queued timer is queued for the time it is set for, under the present clock. */
  ghost predicate Scheduled(s: System, clock: ClockBase) {
    forall id :: id in s.queue ==> id in s.timers && s.timers[id].fireTime == CalculateFireTime(clock, s.timers[id])
  }

  /** After a jump of the clock recalculation makes it so, and it stays so as long as the clock does not jump. */
  lemma RecalculationSchedules(s: System, a: Action, clock: ClockBase)
    requires Inv(s) && Enabled(s, a)
    requires a == Recalculate(clock)
             || (Scheduled(s, clock) && !a.Recalculate?
                 && (a.Process? ==> a.clock == clock) && (a.Fire? ==> a.clock == clock))
    ensures Scheduled(Apply(s, a), clock)
  {
    hide ReleaseInv, LogInv, RecalculateFrom, Insert, EraseOne, EraseKey;
    var u := Apply(s, a);
    match a
    case Recalculate(_) => RecalculateMoves(s, s.queue, [], clock);
    case Fire(id, _) =>
      FireQueue(s, id, clock);
      EraseOneKeeps(s.timers, s.queue, id);
      InsertMembers(u.timers, EraseOne(s.queue, id), id);
    case Process(_) =>
      var r := s.toTimerThread[0];
      assert r in s.toTimerThread && RequestSound(s, r);
      if r.ActivateRequest? {
        InsertMembers(u.timers, s.queue, r.id);
      } else {
        EraseKeyMembers(s.timers, s.queue, s.timers[r.id].fireTime);
      }
    case Receive(k) => assert s.toClients[k] in s.toClients;
    case _ =>
  }
}
