/** What deactivating by fire time (src/ESTimer.cpp, ESTimerThread::deactivate) does to other timers: on every run,
    when an activated timer drops out of the queue, and that it then never fires again. */
module TimerStranding {
  import opened Common
  import opened TimerThread

  /** Every activated timer is in the queue, so it will fire when its time comes. */
  ghost predicate Complete(s: System) {
    forall id :: id in s.timers && s.timers[id].activated ==> id in s.queue
  }

  /** Another queued timer is set for the same time. */
  ghost predicate SharesFireTime(s: System, id: TimerId) {
    exists other :: other in s.queue && other != id && FireTime(s.timers, other) == FireTime(s.timers, id)
  }

  /** The step takes the release of an activated timer that shares its fire time. */
  ghost predicate Strands(s: System, a: Action) {
    && a.Process? && s.toTimerThread != [] && s.toTimerThread[0].ReleaseRequest?
    && var id := s.toTimerThread[0].id;
    id in s.timers && s.timers[id].activated && SharesFireTime(s, id)
  }

  // ---------------------------------------------------------------- one step

  /** From any reachable complete state, a step leaves an activated timer outside the queue exactly when it processes
      the release of an activated timer whose fire time another queued timer shares. */
  lemma StepCompleteExactly(s: System, a: Action)
    requires Inv(s) && Complete(s) && Enabled(s, a)
    ensures Complete(Apply(s, a)) <==> !Strands(s, a)
  {
    hide CountInv, RequestInv, ReleaseInv, LogInv;
    match a
    case Create(_, _, _, _) =>
    case Activate(_, _) =>
    case Release(_, _) =>
    case Receive(_) => ReceiveComplete(s, a);
    case Process(_) => ProcessComplete(s, a);
    case Fire(id, clock) => FireComplete(s, id, clock);
    case Recalculate(clock) => RecalculateComplete(s, clock);
  }

  lemma ReceiveComplete(s: System, a: Action)
    requires Inv(s) && Complete(s) && a.Receive? && Enabled(s, a)
    ensures Complete(Apply(s, a))
  {
    hide QueueInv, RequestInv, ReleaseInv, LogInv;
    ReceiveShape(s, a);
  }

  lemma FireComplete(s: System, id: TimerId, clock: ClockBase)
    requires Inv(s) && Complete(s) && id in s.queue
    ensures Complete(FireStep(s, id, clock))
  {
    hide RequestInv, ReleaseInv, LogInv, CalculateFireTime, Insert, EraseOne;
    FireQueue(s, id, clock);
    var u := FireStep(s, id, clock);
    EraseOneKeeps(s.timers, s.queue, id);
    InsertMembers(u.timers, EraseOne(s.queue, id), id);
  }

  lemma RecalculateComplete(s: System, clock: ClockBase)
    requires Inv(s) && Complete(s)
    ensures Complete(Apply(s, Recalculate(clock)))
  {
    hide CountInv, RequestInv, ReleaseInv, LogInv, RecalculateFrom;
    RecalculateMoves(s, s.queue, [], clock);
  }

  lemma ProcessComplete(s: System, a: Action)
    requires Inv(s) && Complete(s) && a.Process? && Enabled(s, a)
    ensures Complete(Apply(s, a)) <==> !Strands(s, a)
  {
    hide CountInv, ReleaseInv, LogInv, FireStep, RecalculateFrom, ReceiveStep, CalculateFireTime, Insert, EraseKey;
    var r := s.toTimerThread[0];
    assert r in s.toTimerThread && RequestSound(s, r);
    hide RequestInv, InOrder;
    match r
    case ActivateRequest(id) => InsertMembers(Apply(s, a).timers, s.queue, id);
    case ReleaseRequest(id, _) =>
      if s.timers[id].activated {
        DeactivationComplete(s, s.(toTimerThread := s.toTimerThread[1..]), id);
      }
  }

  lemma DeactivationComplete(s: System, rest: System, id: TimerId)
    requires QueueInv(s) && Complete(s) && id in s.timers && s.timers[id].activated
    requires rest.timers == s.timers && rest.queue == s.queue
    ensures var v := DeactivateStep(rest, id);
            Complete(v) == Complete(DeleteStep(v, id)) == !SharesFireTime(s, id)
  {
    hide EraseKey, FireTime;
    EraseKeyMembers(s.timers, s.queue, s.timers[id].fireTime);
    var v := DeactivateStep(rest, id);
    assert FireTime(s.timers, id) == s.timers[id].fireTime by { FireTimeIs(s.timers, id); }
    if other :| other in s.queue && other != id && FireTime(s.timers, other) == FireTime(s.timers, id) {
      assert other in v.timers && v.timers[other].activated && other !in v.queue;
      assert other in DeleteStep(v, id).timers;
    }
  }

  lemma FireTimeIs(timers: map<TimerId, Timer>, id: TimerId)
    requires id in timers
    ensures FireTime(timers, id) == timers[id].fireTime
  {
  }

  // ---------------------------------------------------------------- whole runs

  ghost predicate AlwaysComplete(s: System, run: seq<Action>)
    requires Legal(s, run)
    decreases run
  {
    Complete(s) && (run != [] ==> AlwaysComplete(Apply(s, run[0]), run[1..]))
  }

  ghost predicate NeverStrands(s: System, run: seq<Action>)
    requires Legal(s, run)
    decreases run
  {
    run == [] || (!Strands(s, run[0]) && NeverStrands(Apply(s, run[0]), run[1..]))
  }

  lemma {:induction false} RunCompleteFrom(s: System, run: seq<Action>)
    requires Inv(s) && Complete(s) && Legal(s, run)
    ensures AlwaysComplete(s, run) <==> NeverStrands(s, run)
    decreases run
  {
    hide Inv, Apply, Complete, Strands;
    if run != [] {
      var u := Apply(s, run[0]);
      StepKeeps(s, run[0]);
      StepCompleteExactly(s, run[0]);
      if Complete(u) {
        RunCompleteFrom(u, run[1..]);
      } else {
        assert !AlwaysComplete(u, run[1..]);
      }
    }
  }

  /** Every activated timer stays in the queue throughout a run exactly when no step of it takes the release of an
      activated timer that shares its fire time with another. */
  lemma RunCompleteExactly(run: seq<Action>)
    requires Legal(INITIAL, run)
    ensures AlwaysComplete(INITIAL, run) <==> NeverStrands(INITIAL, run)
  {
    InitialInv();
    RunCompleteFrom(INITIAL, run);
  }

  // ---------------------------------------------------------------- a timer outside the queue is lost

  /** Activated at some time, not in the queue, and no activation on its way. */
  ghost predicate Lost(s: System, id: TimerId) {
    && id in s.timers && s.timers[id].thread.Some? && id !in s.queue
    && ActivateRequest(id) !in s.toTimerThread
  }

  lemma OutsideQueueIsLost(s: System, id: TimerId)
    requires Inv(s) && id in s.timers && s.timers[id].activated && id !in s.queue
    ensures Lost(s, id)
  {
    assert CountsAgree(s, id);
    assert ActivateRequest(id) in s.toTimerThread ==> RequestSound(s, ActivateRequest(id));
  }

  lemma LostStaysLost(s: System, a: Action, id: TimerId)
    requires Inv(s) && Lost(s, id) && Enabled(s, a)
    ensures !(a.Fire? && a.id == id)
    ensures id in Apply(s, a).timers ==> Lost(Apply(s, a), id)
  {
    hide ReleaseInv, LogInv;
    match a
    case Create(_, _, _, _) =>
    case Activate(_, _) =>
    case Release(_, _) =>
    case Receive(_) =>
      hide QueueInv, RequestInv;
      ReceiveShape(s, a);
    case Process(_) => LostThroughProcess(s, a, id);
    case Fire(x, clock) =>
      hide RequestInv, CalculateFireTime, Insert, EraseOne;
      FireQueue(s, x, clock);
      EraseOneKeeps(s.timers, s.queue, x);
      InsertMembers(FireStep(s, x, clock).timers, EraseOne(s.queue, x), x);
    case Recalculate(clock) =>
      hide CountInv, RequestInv, RecalculateFrom;
      RecalculateMoves(s, s.queue, [], clock);
  }

  lemma LostThroughProcess(s: System, a: Action, id: TimerId)
    requires Inv(s) && Lost(s, id) && a.Process? && Enabled(s, a)
    ensures id in Apply(s, a).timers ==> Lost(Apply(s, a), id)
  {
    hide CountInv, ReleaseInv, LogInv, FireStep, RecalculateFrom, ReceiveStep, CalculateFireTime, Insert, EraseKey;
    var r := s.toTimerThread[0];
    assert r in s.toTimerThread && RequestSound(s, r);
    hide RequestInv, InOrder;
    match r
    case ActivateRequest(x) => InsertMembers(Apply(s, a).timers, s.queue, x);
    case ReleaseRequest(x, _) => EraseKeyMembers(s.timers, s.queue, s.timers[x].fireTime);
  }

  /** No step of the run fires the timer while it exists. */
  ghost predicate NeverFires(s: System, run: seq<Action>, id: TimerId)
    requires Legal(s, run)
    decreases run
  {
    run == [] || id !in s.timers
    || (!(run[0].Fire? && run[0].id == id) && NeverFires(Apply(s, run[0]), run[1..], id))
  }

  /** An activated timer that has dropped out of the queue is never fired, whatever happens, until it is deleted. */
  lemma {:induction false} LostNeverFires(s: System, run: seq<Action>, id: TimerId)
    requires Inv(s) && Lost(s, id) && Legal(s, run)
    ensures NeverFires(s, run, id)
    decreases run
  {
    hide Inv, Apply, Lost;
    if run != [] {
      StepKeeps(s, run[0]);
      LostStaysLost(s, run[0], id);
      if id in Apply(s, run[0]).timers {
        LostNeverFires(Apply(s, run[0]), run[1..], id);
      }
    }
  }

  /** Activate two timers set for the same time, then release the first. */
  function StrandingRun(clock: ClockBase): seq<Action> {
    [Create(0, 10.0, true, 0.0), Create(1, 10.0, true, 0.0), Activate(0, 0), Activate(1, 0),
     Process(clock), Process(clock), Release(0, 0), Process(clock)]
  }

  function SetForTen(activated: bool): Timer {
    Timer(10.0, true, 0.0, Some(0), activated, false, if activated then 10.0 else 0.0, 0, 0)
  }

  const BOTH_ASKED := System(map[0 := SetForTen(false), 1 := SetForTen(false)], [],
                             [ActivateRequest(0), ActivateRequest(1)], [], false, [Created(0), Created(1)])

  const BOTH_QUEUED :=
    System(map[0 := SetForTen(true), 1 := SetForTen(true)], [0, 1], [], [], false, [Created(0), Created(1)])

  const ONE_STRANDED := System(map[1 := SetForTen(true)], [], [], [], false,
                               [Created(0), Created(1), ReleaseAsked(0), Deleted(0)])

  lemma AskBoth(clock: ClockBase, s1: System, s2: System, s3: System)
    requires var run := StrandingRun(clock);
             s1 == Apply(INITIAL, run[0]) && Enabled(s1, run[1]) && s2 == Apply(s1, run[1])
             && Enabled(s2, run[2]) && s3 == Apply(s2, run[2]) && Enabled(s3, run[3])
    ensures Apply(s3, StrandingRun(clock)[3]) == BOTH_ASKED
  {
    assert s1.timers == map[0 := s1.timers[0]];
    assert s2.timers == map[0 := s1.timers[0], 1 := s1.timers[0]];
    assert s3.timers == map[0 := SetForTen(false), 1 := s1.timers[0]] && s3.toTimerThread == [ActivateRequest(0)];
  }

  lemma QueueBoth(clock: ClockBase)
    ensures Enabled(BOTH_ASKED, Process(clock)) && Enabled(Apply(BOTH_ASKED, Process(clock)), Process(clock))
    ensures Apply(Apply(BOTH_ASKED, Process(clock)), Process(clock)) == BOTH_QUEUED
  {
    var s5 := Apply(BOTH_ASKED, Process(clock));
    assert s5.timers == map[0 := SetForTen(true), 1 := SetForTen(false)];
    assert s5.queue == [0] && s5.toTimerThread == [ActivateRequest(1)];
    assert Insert(BOTH_QUEUED.timers, [0], 1) == [0] + Insert(BOTH_QUEUED.timers, [], 1);
    var s6 := Apply(s5, Process(clock));
    assert s6.timers == BOTH_QUEUED.timers;
    assert s6.queue == [0, 1] && s6.toTimerThread == [];
  }

  lemma ReleaseFirst(clock: ClockBase)
    ensures Enabled(BOTH_QUEUED, Release(0, 0)) && Enabled(Apply(BOTH_QUEUED, Release(0, 0)), Process(clock))
    ensures Apply(Apply(BOTH_QUEUED, Release(0, 0)), Process(clock)) == ONE_STRANDED
  {
    var s7 := Apply(BOTH_QUEUED, Release(0, 0));
    assert s7.toTimerThread == [ReleaseRequest(0, 0)];
    assert EraseKey(s7.timers, [0, 1], 10.0) == [] + EraseKey(s7.timers, [1], 10.0);
    assert Apply(s7, Process(clock)).timers == map[1 := SetForTen(true)];
  }

  /** Two timers set for the same time, and nothing else: releasing the first leaves the second activated, not released,
      and outside the queue, so it never fires. */
  lemma StrandingExample(clock: ClockBase)
    ensures Legal(INITIAL, StrandingRun(clock))
    ensures var s := Run(INITIAL, StrandingRun(clock));
            && Inv(s) && 1 in s.timers && s.timers[1].activated && !s.timers[1].releasePending && s.queue == []
            && !Complete(s) && Lost(s, 1)
  {
    var run := StrandingRun(clock);
    var s1 := Apply(INITIAL, run[0]);
    var s2 := Apply(s1, run[1]);
    var s3 := Apply(s2, run[2]);
    AskBoth(clock, s1, s2, s3);
    QueueBoth(clock);
    ReleaseFirst(clock);
    hide Apply;
    RunOfEight(INITIAL, run, s1, s2, s3, BOTH_ASKED, Apply(BOTH_ASKED, Process(clock)), BOTH_QUEUED,
               Apply(BOTH_QUEUED, Release(0, 0)), ONE_STRANDED);
    hide Enabled, Legal, Run, ActivateStep, ReleaseStep;
    InitialInv();
    RunKeeps(INITIAL, run);
    OutsideQueueIsLost(ONE_STRANDED, 1);
  }

  lemma RunOfEight(s: System, run: seq<Action>, s1: System, s2: System, s3: System, s4: System, s5: System, s6: System,
                   s7: System, s8: System)
    requires |run| == 8
    requires Enabled(s, run[0]) && s1 == Apply(s, run[0]) && Enabled(s1, run[1]) && s2 == Apply(s1, run[1])
    requires Enabled(s2, run[2]) && s3 == Apply(s2, run[2]) && Enabled(s3, run[3]) && s4 == Apply(s3, run[3])
    requires Enabled(s4, run[4]) && s5 == Apply(s4, run[4]) && Enabled(s5, run[5]) && s6 == Apply(s5, run[5])
    requires Enabled(s6, run[6]) && s7 == Apply(s6, run[6]) && Enabled(s7, run[7]) && s8 == Apply(s7, run[7])
    ensures Legal(s, run) && Run(s, run) == s8
  {
    hide Enabled, Apply;
    assert run[8..] == [] && run[0..] == run;
    assert Legal(s8, run[8..]) && Run(s8, run[8..]) == s8;
    StepThenRun(s7, run, 7);
    StepThenRun(s6, run, 6);
    StepThenRun(s5, run, 5);
    StepThenRun(s4, run, 4);
    StepThenRun(s3, run, 3);
    StepThenRun(s2, run, 2);
    StepThenRun(s1, run, 1);
    StepThenRun(s, run, 0);
  }

  lemma StepThenRun(s: System, run: seq<Action>, k: nat)
    requires k < |run| && Enabled(s, run[k]) && Legal(Apply(s, run[k]), run[k + 1..])
    ensures Legal(s, run[k..]) && Run(s, run[k..]) == Run(Apply(s, run[k]), run[k + 1..])
  {
    hide Enabled, Apply;
    assert run[k..][0] == run[k] && run[k..][1..] == run[k + 1..];
  }
}
