/** The timer thread of src/ESTimer.cpp as a state machine.  Clients create, activate and release timers in their own
    threads; one timer thread keeps the queue of timers sorted by fire time, sends notifications, and deletes a timer
    only when the counts of notifications sent and received agree.  Threads talk through FIFO channels.  `delete` is
    removal from the map of live timers, so using a deleted timer, like any failed assertion, shows as `crashed`. */
module TimerThread {
  import opened Common
  import opened LeapAdjust

  type TimerId = nat
  type ThreadId = nat

  datatype Timer = Timer(
    atTime: real, useContinuousTime: bool, repeatEvery: real, thread: Option<ThreadId>,
    activated: bool, releasePending: bool, fireTime: real, sent: int, received: int)

  /** Calls into the timer thread. */
  datatype Request = ActivateRequest(id: TimerId) | ReleaseRequest(id: TimerId, received: int)

  /** A notification on its way to the thread that activated the timer. */
  datatype Notification = Notification(thread: ThreadId, id: TimerId)

  datatype Event = Created(id: TimerId) | ReleaseAsked(id: TimerId) | Notified(id: TimerId) | Deleted(id: TimerId)

  /** What fire times are computed from: the continuous-time skew and the next leap second. */
  datatype ClockBase = ClockBase(contSkew: real, next: NextLeap)

  datatype System = System(
    timers: map<TimerId, Timer>, queue: seq<TimerId>, toTimerThread: seq<Request>, toClients: seq<Notification>,
    crashed: bool, log: seq<Event>)

  // ---------------------------------------------------------------- the queue: a multiset sorted by fire time

  function FireTime(timers: map<TimerId, Timer>, id: TimerId): real {
    if id in timers then timers[id].fireTime else 0.0
  }

  /** Insertion after every element that is not later. */
  function Insert(timers: map<TimerId, Timer>, q: seq<TimerId>, id: TimerId): seq<TimerId> {
    if q == [] then [id]
    else if FireTime(timers, id) < FireTime(timers, q[0]) then [id] + q
    else [q[0]] + Insert(timers, q[1..], id)
  }

  /** Erasing by key: every element with that fire time goes. */
  function EraseKey(timers: map<TimerId, Timer>, q: seq<TimerId>, key: real): seq<TimerId> {
    if q == [] then []
    else (if FireTime(timers, q[0]) == key then [] else [q[0]]) + EraseKey(timers, q[1..], key)
  }

  /** Erasing one element. */
  function EraseOne(q: seq<TimerId>, id: TimerId): seq<TimerId> {
    if q == [] then []
    else if q[0] == id then q[1..]
    else [q[0]] + EraseOne(q[1..], id)
  }

  ghost predicate Sorted(timers: map<TimerId, Timer>, q: seq<TimerId>) {
    forall i, j :: 0 <= i < j < |q| ==> FireTime(timers, q[i]) <= FireTime(timers, q[j])
  }

  ghost predicate Distinct(q: seq<TimerId>) {
    forall i, j :: 0 <= i < j < |q| ==> q[i] != q[j]
  }

  lemma {:induction false} InsertMembers(timers: map<TimerId, Timer>, q: seq<TimerId>, id: TimerId)
    ensures forall x :: x in Insert(timers, q, id) <==> x in q || x == id
  {
    if q != [] {
      InsertMembers(timers, q[1..], id);
      assert forall x :: x in q <==> x == q[0] || x in q[1..];
    }
  }

  lemma PrependKeeps(timers: map<TimerId, Timer>, id: TimerId, q: seq<TimerId>)
    requires Sorted(timers, q) && Distinct(q)
    requires forall x :: x in q ==> FireTime(timers, id) <= FireTime(timers, x) && x != id
    ensures Sorted(timers, [id] + q) && Distinct([id] + q)
  {
    assert forall i :: 0 <= i < |q| ==> q[i] in q;
  }

  lemma TailKeeps(timers: map<TimerId, Timer>, q: seq<TimerId>)
    requires Sorted(timers, q) && Distinct(q) && q != []
    ensures Sorted(timers, q[1..]) && Distinct(q[1..])
    ensures forall x :: x in q[1..] ==> FireTime(timers, q[0]) <= FireTime(timers, x) && x != q[0]
  {
    hide FireTime;
  }

  lemma {:induction false} InsertKeeps(timers: map<TimerId, Timer>, q: seq<TimerId>, id: TimerId)
    requires Sorted(timers, q) && Distinct(q) && id !in q
    ensures Sorted(timers, Insert(timers, q, id)) && Distinct(Insert(timers, q, id))
  {
    if q != [] {
      TailKeeps(timers, q);
      InsertMembers(timers, q[1..], id);
      InsertKeeps(timers, q[1..], id);
      if FireTime(timers, id) < FireTime(timers, q[0]) {
        FirstIsLeast(timers, q);
        PrependKeeps(timers, id, q);
      } else {
        PrependKeeps(timers, q[0], Insert(timers, q[1..], id));
      }
    }
  }

  lemma FirstIsLeast(timers: map<TimerId, Timer>, q: seq<TimerId>)
    requires Sorted(timers, q) && q != []
    ensures forall x :: x in q ==> FireTime(timers, q[0]) <= FireTime(timers, x)
  {
  }

  lemma {:induction false} EraseKeyMembers(timers: map<TimerId, Timer>, q: seq<TimerId>, key: real)
    ensures forall x :: x in EraseKey(timers, q, key) <==> x in q && FireTime(timers, x) != key
  {
    if q != [] {
      EraseKeyMembers(timers, q[1..], key);
      assert forall x :: x in q <==> x == q[0] || x in q[1..];
    }
  }

  lemma {:induction false} EraseKeyKeeps(timers: map<TimerId, Timer>, q: seq<TimerId>, key: real)
    requires Sorted(timers, q) && Distinct(q)
    ensures Sorted(timers, EraseKey(timers, q, key)) && Distinct(EraseKey(timers, q, key))
  {
    if q != [] {
      TailKeeps(timers, q);
      EraseKeyMembers(timers, q[1..], key);
      EraseKeyKeeps(timers, q[1..], key);
      PrependKeeps(timers, q[0], EraseKey(timers, q[1..], key));
    }
  }

  lemma {:induction false} EraseOneAt(q: seq<TimerId>, i: nat)
    requires Distinct(q) && i < |q|
    ensures EraseOne(q, q[i]) == q[..i] + q[i + 1..]
  {
    if i > 0 {
      EraseOneAt(q[1..], i - 1);
      assert q[..i] + q[i + 1..] == [q[0]] + (q[1..][..i - 1] + q[1..][i..]);
    }
  }

  /** Sorting and membership depend on fire times only. */
  lemma SortedFrame(before: map<TimerId, Timer>, after: map<TimerId, Timer>, q: seq<TimerId>)
    requires Sorted(before, q)
    requires forall x :: x in q ==> FireTime(after, x) == FireTime(before, x)
    ensures Sorted(after, q)
  {
    forall i, j | 0 <= i < j < |q|
      ensures FireTime(after, q[i]) <= FireTime(after, q[j])
    {
      assert q[i] in q && q[j] in q;
    }
  }

  /** Deactivating a timer erases by fire time: it takes out just that timer exactly when no other queued timer is set
      for the same time. */
  lemma DeactivateErasesOnlyItselfExactly(timers: map<TimerId, Timer>, q: seq<TimerId>, id: TimerId)
    requires Distinct(q) && id in q
    ensures (forall x :: x in EraseKey(timers, q, FireTime(timers, id)) <==> x in q && x != id)
       <==> (forall x :: x in q && x != id ==> FireTime(timers, x) != FireTime(timers, id))
  {
    EraseKeyMembers(timers, q, FireTime(timers, id));
  }

  // ---------------------------------------------------------------- steps

  datatype Action =
    | Create(id: TimerId, atTime: real, useContinuousTime: bool, repeatEvery: real)
    | Activate(id: TimerId, thread: ThreadId)
    | Release(id: TimerId, thread: ThreadId)
    | Receive(k: nat)
    | Process(clock: ClockBase)
    | Fire(id: TimerId, clock: ClockBase)
    | Recalculate(clock: ClockBase)

  /** When a client may act (its side of the contract) and when a thread has something to do.  Receive(k) takes the
      oldest notification of some thread, Process the oldest request. */
  predicate Enabled(s: System, a: Action) {
    match a
    case Create(id, _, _, _) => id !in s.timers
    case Activate(id, _) => id in s.timers && !s.timers[id].releasePending && s.timers[id].thread.None?
    case Release(id, thread) =>
      && id in s.timers && !s.timers[id].releasePending
      && (s.timers[id].thread.Some? ==> s.timers[id].thread.value == thread)
    case Receive(k) => k < |s.toClients| && forall i :: 0 <= i < k ==> s.toClients[i].thread != s.toClients[k].thread
    case Process(_) => s.toTimerThread != []
    case Fire(id, _) => id in s.queue
    case Recalculate(_) => true
  }

  function CalculateFireTime(clock: ClockBase, t: Timer): real {
    if t.useContinuousTime then t.atTime else CTimeForNtpTime(clock.next, clock.contSkew, t.atTime)
  }

  function Crash(s: System): System { s.(crashed := true) }

  function ActivateStep(s: System, id: TimerId, clock: ClockBase): System {
    if id !in s.timers then Crash(s)
    else
      var t := s.timers[id].(fireTime := CalculateFireTime(clock, s.timers[id]), activated := true);
      var timers := s.timers[id := t];
      s.(timers := timers, queue := Insert(timers, s.queue, id))
  }

  function DeactivateStep(s: System, id: TimerId): System
    requires id in s.timers
  {
    s.(queue := EraseKey(s.timers, s.queue, s.timers[id].fireTime),
       timers := s.timers[id := s.timers[id].(activated := false)])
  }

  function DeleteStep(s: System, id: TimerId): System
    requires id in s.timers
  {
    if s.timers[id].activated then Crash(s)
    else s.(timers := s.timers - {id}, log := s.log + [Deleted(id)])
  }

  function ReleaseStep(s: System, id: TimerId, received: int): System {
    if id !in s.timers then Crash(s)
    else
      var u := if s.timers[id].activated then DeactivateStep(s, id) else s;
      if received != u.timers[id].sent then u else DeleteStep(u, id)
  }

  function ReceiveStep(s: System, n: Notification): System {
    if n.id !in s.timers || s.timers[n.id].thread != Some(n.thread) then Crash(s)
    else
      var t := s.timers[n.id].(received := s.timers[n.id].received + 1);
      var u := s.(timers := s.timers[n.id := t]);
      if t.releasePending then u.(toTimerThread := u.toTimerThread + [ReleaseRequest(n.id, t.received)])
      else u.(log := u.log + [Notified(n.id)])
  }

  /** Deliver a queued timer's notification, take it off the queue, and put it back if it repeats. */
  function FireStep(s: System, id: TimerId, clock: ClockBase): System {
    if id !in s.timers || s.timers[id].thread.None? then Crash(s)
    else
      var sent := s.timers[id].(sent := s.timers[id].sent + 1);
      var u := s.(toClients := s.toClients + [Notification(sent.thread.value, id)], queue := EraseOne(s.queue, id));
      if sent.repeatEvery != 0.0 then
        var moved := sent.(atTime := sent.atTime + sent.repeatEvery);
        var t := moved.(fireTime := CalculateFireTime(clock, moved));
        var timers := s.timers[id := t];
        u.(timers := timers, queue := Insert(timers, u.queue, id))
      else
        u.(timers := s.timers[id := sent.(activated := false)])
  }

  /** Recompute one fire time and move the timer from the old queue to the new one. */
  function RecalculateFrom(s: System, waiting: seq<TimerId>, rebuilt: seq<TimerId>, clock: ClockBase): System
    decreases waiting
  {
    if waiting == [] then s.(queue := rebuilt)
    else if waiting[0] !in s.timers then Crash(s)
    else
      var t := s.timers[waiting[0]];
      var timers := s.timers[waiting[0] := t.(fireTime := CalculateFireTime(clock, t))];
      RecalculateFrom(s.(timers := timers), waiting[1..], Insert(timers, rebuilt, waiting[0]), clock)
  }

  function ProcessStep(s: System, r: Request, clock: ClockBase): System {
    match r
    case ActivateRequest(id) => ActivateStep(s, id, clock)
    case ReleaseRequest(id, received) => ReleaseStep(s, id, received)
  }

  function Without(xs: seq<Notification>, k: nat): seq<Notification>
    requires k < |xs|
  {
    xs[..k] + xs[k + 1..]
  }

  function Apply(s: System, a: Action): System
    requires Enabled(s, a)
  {
    match a
    case Create(id, atTime, useContinuousTime, repeatEvery) =>
      s.(timers := s.timers[id := Timer(atTime, useContinuousTime, repeatEvery, None, false, false, 0.0, 0, 0)],
         log := s.log + [Created(id)])
    case Activate(id, thread) =>
      s.(timers := s.timers[id := s.timers[id].(thread := Some(thread))],
         toTimerThread := s.toTimerThread + [ActivateRequest(id)])
    case Release(id, _) =>
      s.(timers := s.timers[id := s.timers[id].(releasePending := true)],
         toTimerThread := s.toTimerThread + [ReleaseRequest(id, s.timers[id].received)],
         log := s.log + [ReleaseAsked(id)])
    case Receive(k) =>
      ReceiveStep(s.(toClients := Without(s.toClients, k)), s.toClients[k])
    case Process(clock) =>
      var rest := s.(toTimerThread := s.toTimerThread[1..]);
      ProcessStep(rest, s.toTimerThread[0], clock)
    case Fire(id, clock) => FireStep(s, id, clock)
    case Recalculate(clock) => RecalculateFrom(s, s.queue, [], clock)
  }

  // ---------------------------------------------------------------- a timer's life, read off the event log

  datatype Phase = Absent | Live | Releasing | Broken

  /** The only legal life of an id: created, notified any number of times, released, deleted; then it may be reused. */
  function NextPhase(p: Phase, e: Event, id: TimerId): Phase {
    if e.id != id then p
    else match e
      case Created(_) => if p.Absent? then Live else Broken
      case Notified(_) => if p.Live? then Live else Broken
      case ReleaseAsked(_) => if p.Live? then Releasing else Broken
      case Deleted(_) => if p.Releasing? then Absent else Broken
  }

  function PhaseOf(log: seq<Event>, id: TimerId): Phase {
    if log == [] then Absent else NextPhase(PhaseOf(log[..|log| - 1], id), log[|log| - 1], id)
  }

  lemma PhaseAfter(log: seq<Event>, e: Event, id: TimerId)
    ensures PhaseOf(log + [e], id) == NextPhase(PhaseOf(log, id), e, id)
  {
    assert (log + [e])[..|log|] == log;
  }

  // ---------------------------------------------------------------- the invariant

  ghost predicate QueueInv(s: System) {
    && Distinct(s.queue) && Sorted(s.timers, s.queue)
    && forall id :: id in s.queue ==> id in s.timers && s.timers[id].activated
  }

  function InFlight(s: System, thread: ThreadId, id: TimerId): nat {
    multiset(s.toClients)[Notification(thread, id)]
  }

  /** Notifications in flight make up the difference between sent and received. */
  ghost predicate CountInv(s: System) {
    && (forall n :: n in s.toClients ==> n.id in s.timers && s.timers[n.id].thread == Some(n.thread))
    && (forall id :: id in s.timers ==> CountsAgree(s, id))
  }

  ghost predicate CountsAgree(s: System, id: TimerId)
    requires id in s.timers
  {
    var t := s.timers[id];
    && 0 <= t.received
    && (t.thread.None? ==> !t.activated && t.sent == t.received == 0)
    && (t.thread.Some? ==> t.sent == t.received + InFlight(s, t.thread.value, id))
  }

  /** Requests under way: an activation comes before any release, and releases of one timer carry growing counts. */
  ghost predicate RequestInv(s: System) {
    && (forall r :: r in s.toTimerThread ==> RequestSound(s, r))
    && (forall i, j :: 0 <= i < j < |s.toTimerThread| ==> InOrder(s.toTimerThread[i], s.toTimerThread[j]))
  }

  ghost predicate RequestSound(s: System, r: Request) {
    && r.id in s.timers
    && (r.ActivateRequest? ==> s.timers[r.id].thread.Some? && !s.timers[r.id].activated)
    && (r.ReleaseRequest? ==> s.timers[r.id].releasePending && r.received <= s.timers[r.id].received)
  }

  predicate InOrder(first: Request, second: Request) {
    first.id == second.id ==> second.ReleaseRequest? && (first.ReleaseRequest? ==> first.received < second.received)
  }

  /** A released timer still waiting has either a release request with the current count under way, or a notification
      that will cause one. */
  ghost predicate ReleaseInv(s: System) {
    forall id :: id in s.timers && s.timers[id].releasePending ==> WillBeDeleted(s, id)
  }

  ghost predicate WillBeDeleted(s: System, id: TimerId)
    requires id in s.timers
  {
    var t := s.timers[id];
    ReleaseRequest(id, t.received) in s.toTimerThread
    || (t.thread.Some? && InFlight(s, t.thread.value, id) > 0)
  }

  function ExpectedPhase(s: System, id: TimerId): Phase {
    if id !in s.timers then Absent else if s.timers[id].releasePending then Releasing else Live
  }

  ghost predicate LogInv(s: System) {
    forall id :: PhaseOf(s.log, id) == ExpectedPhase(s, id)
  }

  ghost predicate Inv(s: System) {
    !s.crashed && QueueInv(s) && CountInv(s) && RequestInv(s) && ReleaseInv(s) && LogInv(s)
  }

  const INITIAL: System := System(map[], [], [], [], false, [])

  lemma InitialInv()
    ensures Inv(INITIAL)
  {
  }

  // ---------------------------------------------------------------- every step keeps the invariant

  lemma CreateKeeps(s: System, a: Action)
    requires Inv(s) && a.Create? && Enabled(s, a)
    ensures Inv(Apply(s, a))
  {
    hide ProcessStep, FireStep, RecalculateFrom, ReceiveStep;
    var u := Apply(s, a);
    SortedFrame(s.timers, u.timers, s.queue);
    forall id
      ensures PhaseOf(u.log, id) == ExpectedPhase(u, id)
    {
      PhaseAfter(s.log, Created(a.id), id);
    }
  }

  /** A step that changes one timer's flags and appends requests leaves the rest of the invariant alone. */
  lemma ActivateKeeps(s: System, a: Action)
    requires Inv(s) && a.Activate? && Enabled(s, a)
    ensures Inv(Apply(s, a))
  {
    hide ProcessStep, FireStep, RecalculateFrom, ReceiveStep;
    var u := Apply(s, a);
    SortedFrame(s.timers, u.timers, s.queue);
    assert CountInv(u) by {
      assert forall n :: n in s.toClients ==> n.id != a.id;
      assert forall id :: id in u.timers && id != a.id ==> CountsAgree(s, id);
      assert CountsAgree(s, a.id);
      assert Notification(a.thread, a.id) !in s.toClients;
    }
    assert RequestInv(u) by {
      assert forall r :: r in s.toTimerThread ==> RequestSound(s, r) && r.id != a.id;
      assert CountsAgree(s, a.id);
      OrderAfterAppend(s.toTimerThread, ActivateRequest(a.id));
    }
    WaitingAfterAppend(s, u, ActivateRequest(a.id));
    assert LogInv(u);
  }

  lemma OrderAfterAppend(rs: seq<Request>, r: Request)
    requires forall i, j :: 0 <= i < j < |rs| ==> InOrder(rs[i], rs[j])
    requires forall x :: x in rs ==> InOrder(x, r)
    ensures forall i, j :: 0 <= i < j < |rs + [r]| ==> InOrder((rs + [r])[i], (rs + [r])[j])
  {
    assert forall i :: 0 <= i < |rs| ==> rs[i] in rs;
  }

  /** Appending a request, or marking one timer released with its request, keeps every waiting release on its way. */
  lemma WaitingAfterAppend(s: System, u: System, r: Request)
    requires ReleaseInv(s) && u.toTimerThread == s.toTimerThread + [r] && u.toClients == s.toClients
    requires u.timers.Keys == s.timers.Keys
    requires forall id :: id in s.timers && id != r.id ==> u.timers[id] == s.timers[id]
    requires r.id in s.timers
    requires u.timers[r.id].releasePending ==> r == ReleaseRequest(r.id, u.timers[r.id].received)
    ensures ReleaseInv(u)
  {
    forall id | id in u.timers && u.timers[id].releasePending
      ensures WillBeDeleted(u, id)
    {
      assert id != r.id ==> WillBeDeleted(s, id);
    }
  }

  lemma ReleaseKeeps(s: System, a: Action)
    requires Inv(s) && a.Release? && Enabled(s, a)
    ensures Inv(Apply(s, a))
  {
    hide ProcessStep, FireStep, RecalculateFrom, ReceiveStep;
    var u := Apply(s, a);
    var r := ReleaseRequest(a.id, s.timers[a.id].received);
    SortedFrame(s.timers, u.timers, s.queue);
    WaitingAfterAppend(s, u, r);
    ReleaseRequests(s, u, r);
    assert CountInv(u) by {
      hide QueueInv, RequestInv, ReleaseInv, LogInv;
      assert forall id :: id in s.timers ==> CountsAgree(s, id);
    }
    hide CountInv, RequestInv, ReleaseInv, Sorted;
    forall id
      ensures PhaseOf(u.log, id) == ExpectedPhase(u, id)
    {
      PhaseAfter(s.log, ReleaseAsked(a.id), id);
    }
  }

  lemma ReleaseRequests(s: System, u: System, r: Request)
    requires RequestInv(s) && r.ReleaseRequest? && r.id in s.timers && !s.timers[r.id].releasePending
    requires r.received == s.timers[r.id].received
    requires u.timers == s.timers[r.id := s.timers[r.id].(releasePending := true)]
    requires u.toTimerThread == s.toTimerThread + [r]
    ensures RequestInv(u)
  {
    assert forall x :: x in s.toTimerThread ==> RequestSound(s, x);
    OrderAfterAppend(s.toTimerThread, r);
  }

  // Receiving a notification.

  lemma RemoveAt(xs: seq<Notification>, k: nat)
    requires k < |xs|
    ensures multiset(Without(xs, k)) == multiset(xs) - multiset{xs[k]} && xs[k] in xs
    ensures forall x :: x in Without(xs, k) ==> x in xs
  {
    assert xs == xs[..k] + [xs[k]] + xs[k + 1..];
  }

  lemma SameInFlight(s: System, u: System, n: Notification, id: TimerId)
    requires multiset(u.toClients) == multiset(s.toClients) - multiset{n} && id != n.id
    ensures forall thread :: InFlight(u, thread, id) == InFlight(s, thread, id)
  {
  }

  /** What receiving does to the parts the invariant speaks of. */
  lemma ReceiveShape(s: System, a: Action)
    requires CountInv(s) && a.Receive? && Enabled(s, a)
    ensures var u, n := Apply(s, a), s.toClients[a.k];
            && n in s.toClients && n.id in s.timers && s.timers[n.id].thread == Some(n.thread)
            && multiset(u.toClients) == multiset(s.toClients) - multiset{n}
            && (forall x :: x in u.toClients ==> x in s.toClients)
            && u.timers == s.timers[n.id := s.timers[n.id].(received := s.timers[n.id].received + 1)]
            && u.toTimerThread == s.toTimerThread
                 + (if s.timers[n.id].releasePending then [ReleaseRequest(n.id, s.timers[n.id].received + 1)] else [])
  {
    hide ActivateStep, ReleaseStep, FireStep, RecalculateFrom, ProcessStep;
    var n := s.toClients[a.k];
    RemoveAt(s.toClients, a.k);
    hide Without, CountsAgree, ReceiveStep;
    assert n.id in s.timers && s.timers[n.id].thread == Some(n.thread);
    ReceiveStepShape(s.(toClients := Without(s.toClients, a.k)), n);
  }

  lemma ReceiveStepShape(s: System, n: Notification)
    requires n.id in s.timers && s.timers[n.id].thread == Some(n.thread)
    ensures var u := ReceiveStep(s, n);
            && u.toClients == s.toClients
            && u.timers == s.timers[n.id := s.timers[n.id].(received := s.timers[n.id].received + 1)]
            && u.toTimerThread == s.toTimerThread
                 + (if s.timers[n.id].releasePending then [ReleaseRequest(n.id, s.timers[n.id].received + 1)] else [])
  {
  }

  lemma ReceiveCounts(s: System, a: Action)
    requires Inv(s) && a.Receive? && Enabled(s, a)
    ensures s.toClients[a.k].id in s.timers && s.timers[s.toClients[a.k].id].thread == Some(s.toClients[a.k].thread)
    ensures CountInv(Apply(s, a))
  {
    hide QueueInv, CountInv, RequestInv, ReleaseInv, LogInv, Apply;
    ReceiveShape(s, a);
    CountsAfterReceipt(s, Apply(s, a), s.toClients[a.k]);
  }

  lemma CountsAfterReceipt(s: System, u: System, n: Notification)
    requires CountInv(s) && n in s.toClients && multiset(u.toClients) == multiset(s.toClients) - multiset{n}
    requires forall x :: x in u.toClients ==> x in s.toClients
    requires u.timers == s.timers[n.id := s.timers[n.id].(received := s.timers[n.id].received + 1)]
    ensures CountInv(u)
  {
    forall id | id in u.timers
      ensures CountsAgree(u, id)
    {
      assert CountsAgree(s, id);
      if id != n.id {
        SameInFlight(s, u, n, id);
      } else {
        OneLessInFlight(s, u, n);
      }
    }
  }

  lemma OneLessInFlight(s: System, u: System, n: Notification)
    requires multiset(u.toClients) == multiset(s.toClients) - multiset{n} && n in s.toClients
    ensures InFlight(u, n.thread, n.id) == InFlight(s, n.thread, n.id) - 1
  {
    assert n in multiset(s.toClients);
  }

  lemma ReceiveQueue(s: System, a: Action)
    requires Inv(s) && a.Receive? && Enabled(s, a)
    requires s.toClients[a.k].id in s.timers && s.timers[s.toClients[a.k].id].thread == Some(s.toClients[a.k].thread)
    ensures QueueInv(Apply(s, a))
  {
    hide CountInv, RequestInv, ReleaseInv, LogInv;
    SortedFrame(s.timers, Apply(s, a).timers, s.queue);
  }

  lemma ReceiveRequests(s: System, a: Action)
    requires Inv(s) && a.Receive? && Enabled(s, a)
    requires s.toClients[a.k].id in s.timers && s.timers[s.toClients[a.k].id].thread == Some(s.toClients[a.k].thread)
    ensures RequestInv(Apply(s, a))
  {
    hide Sorted, Distinct, WillBeDeleted, PhaseOf, CountsAgree;
    var n := s.toClients[a.k];
    var t := s.timers[n.id];
    assert forall x :: x in s.toTimerThread ==> RequestSound(s, x);
    if t.releasePending {
      OrderAfterAppend(s.toTimerThread, ReleaseRequest(n.id, t.received + 1));
    }
  }

  lemma ReceiveWaiting(s: System, a: Action)
    requires Inv(s) && a.Receive? && Enabled(s, a)
    ensures ReleaseInv(Apply(s, a))
  {
    hide QueueInv, CountInv, RequestInv, ReleaseInv, LogInv, Apply;
    ReceiveShape(s, a);
    WaitingAfterReceipt(s, Apply(s, a), s.toClients[a.k]);
  }

  lemma WaitingAfterReceipt(s: System, u: System, n: Notification)
    requires ReleaseInv(s) && n.id in s.timers && multiset(u.toClients) == multiset(s.toClients) - multiset{n}
    requires u.timers == s.timers[n.id := s.timers[n.id].(received := s.timers[n.id].received + 1)]
    requires s.toTimerThread <= u.toTimerThread
    requires s.timers[n.id].releasePending ==> ReleaseRequest(n.id, s.timers[n.id].received + 1) in u.toTimerThread
    ensures ReleaseInv(u)
  {
    forall id | id in u.timers && u.timers[id].releasePending
      ensures WillBeDeleted(u, id)
    {
      assert WillBeDeleted(s, id);
      if id != n.id {
        SameInFlight(s, u, n, id);
      }
    }
  }

  lemma ReceiveKeeps(s: System, a: Action)
    requires Inv(s) && a.Receive? && Enabled(s, a)
    ensures Inv(Apply(s, a))
  {
    hide QueueInv, CountInv, RequestInv, ReleaseInv;
    ReceiveCounts(s, a);
    ReceiveQueue(s, a);
    ReceiveRequests(s, a);
    ReceiveWaiting(s, a);
    var u := Apply(s, a);
    forall id
      ensures PhaseOf(u.log, id) == ExpectedPhase(u, id)
    {
      PhaseAfter(s.log, Notified(s.toClients[a.k].id), id);
    }
  }

  // Processing a request.

  lemma PoppedOrder(rs: seq<Request>)
    requires rs != [] && forall i, j :: 0 <= i < j < |rs| ==> InOrder(rs[i], rs[j])
    ensures forall i, j :: 0 <= i < j < |rs[1..]| ==> InOrder(rs[1..][i], rs[1..][j])
    ensures forall r :: r in rs[1..] ==> InOrder(rs[0], r)
  {
  }

  lemma ProcessActivateKeeps(s: System, a: Action)
    requires Inv(s) && a.Process? && Enabled(s, a) && s.toTimerThread[0].ActivateRequest?
    ensures Inv(Apply(s, a))
  {
    hide ReleaseStep, FireStep, RecalculateFrom, ReceiveStep, CalculateFireTime;
    var u := Apply(s, a);
    var r := s.toTimerThread[0];
    assert r in s.toTimerThread && RequestSound(s, r);
    PoppedOrder(s.toTimerThread);
    assert r.id !in s.queue;
    assert QueueInv(u) by {
      SortedFrame(s.timers, u.timers, s.queue);
      InsertKeeps(u.timers, s.queue, r.id);
      InsertMembers(u.timers, s.queue, r.id);
    }
    assert CountInv(u) by {
      assert forall id :: id in s.timers ==> CountsAgree(s, id);
    }
    assert RequestInv(u) by {
      forall x | x in u.toTimerThread
        ensures RequestSound(u, x)
      {
        assert x in s.toTimerThread && RequestSound(s, x) && InOrder(r, x);
      }
    }
    assert ReleaseInv(u) by {
      forall id | id in u.timers && u.timers[id].releasePending
        ensures WillBeDeleted(u, id)
      {
        assert WillBeDeleted(s, id);
      }
    }
  }

  lemma ProcessReleaseKeeps(s: System, a: Action)
    requires Inv(s) && a.Process? && Enabled(s, a) && s.toTimerThread[0].ReleaseRequest?
    ensures Inv(Apply(s, a))
  {
    hide ActivateStep, FireStep, RecalculateFrom, ReceiveStep;
    var r := s.toTimerThread[0];
    var rest := s.(toTimerThread := s.toTimerThread[1..]);
    assert r in s.toTimerThread && RequestSound(s, r);
    var v := if s.timers[r.id].activated then DeactivateStep(rest, r.id) else rest;
    PoppedOrder(s.toTimerThread);
    DeactivatedInv(s, v, r);
    if r.received == v.timers[r.id].sent {
      DeleteKeeps(v, r);
    } else {
      assert WillBeDeleted(v, r.id) by {
        assert WillBeDeleted(s, r.id) && CountsAgree(s, r.id);
      }
      assert forall id :: id in v.timers && v.timers[id].releasePending ==> WillBeDeleted(v, id);
    }
  }

  /** Everything but the releases of that one timer still holds once a release request has been taken and its timer
      deactivated. */
  ghost predicate InvBut(s: System, r: Request) {
    && r.ReleaseRequest? && !s.crashed && QueueInv(s) && CountInv(s) && RequestInv(s) && LogInv(s)
    && r.id in s.timers && s.timers[r.id].releasePending && !s.timers[r.id].activated && r.id !in s.queue
    && r.received <= s.timers[r.id].received
    && (forall x :: x in s.toTimerThread ==> InOrder(r, x))
    && forall id :: id in s.timers && s.timers[id].releasePending && id != r.id ==> WillBeDeleted(s, id)
  }

  lemma DeactivatedInv(s: System, v: System, r: Request)
    requires Inv(s) && s.toTimerThread != [] && r == s.toTimerThread[0] && r.ReleaseRequest? && RequestSound(s, r)
    requires var rest := s.(toTimerThread := s.toTimerThread[1..]);
             v == if s.timers[r.id].activated then DeactivateStep(rest, r.id) else rest
    requires forall i, j :: 0 <= i < j < |v.toTimerThread| ==> InOrder(v.toTimerThread[i], v.toTimerThread[j])
    requires forall x :: x in v.toTimerThread ==> InOrder(r, x)
    ensures InvBut(v, r)
  {
    DeactivatedQueue(s, v, r);
    assert CountInv(v) by {
      hide QueueInv, RequestInv, ReleaseInv, LogInv, EraseKey;
      assert forall id :: id in s.timers ==> CountsAgree(s, id);
    }
    assert RequestInv(v) by {
      hide QueueInv, CountInv, ReleaseInv, LogInv, EraseKey, InOrder;
      assert forall x :: x in v.toTimerThread ==> x in s.toTimerThread && RequestSound(s, x);
    }
    DeactivatedWaiting(s, v, r);
    hide QueueInv, CountInv, RequestInv, ReleaseInv, EraseKey, InOrder;
    assert forall id :: ExpectedPhase(v, id) == ExpectedPhase(s, id);
  }

  lemma DeactivatedQueue(s: System, v: System, r: Request)
    requires QueueInv(s) && r.id in s.timers && s.toTimerThread != []
    requires var rest := s.(toTimerThread := s.toTimerThread[1..]);
             v == if s.timers[r.id].activated then DeactivateStep(rest, r.id) else rest
    ensures QueueInv(v) && r.id !in v.queue
  {
    var key := s.timers[r.id].fireTime;
    EraseKeyMembers(s.timers, s.queue, key);
    EraseKeyKeeps(s.timers, s.queue, key);
    SortedFrame(s.timers, v.timers, v.queue);
  }

  lemma DeactivatedWaiting(s: System, v: System, r: Request)
    requires ReleaseInv(s) && s.toTimerThread != [] && r == s.toTimerThread[0] && r.id in s.timers
    requires v.toTimerThread == s.toTimerThread[1..] && v.toClients == s.toClients
    requires v.timers == s.timers || v.timers == s.timers[r.id := s.timers[r.id].(activated := false)]
    ensures forall id :: id in v.timers && v.timers[id].releasePending && id != r.id ==> WillBeDeleted(v, id)
  {
    forall id | id in v.timers && v.timers[id].releasePending && id != r.id
      ensures WillBeDeleted(v, id)
    {
      assert WillBeDeleted(s, id);
    }
  }

  /** When the counts agree, no message names the timer any more: deleting it is safe. */
  lemma NothingNamesDeleted(v: System, r: Request)
    requires InvBut(v, r) && r.received == v.timers[r.id].sent
    ensures forall x :: x in v.toTimerThread ==> x.id != r.id
    ensures forall n :: n in v.toClients ==> n.id != r.id
  {
    assert CountsAgree(v, r.id);
    forall x | x in v.toTimerThread
      ensures x.id != r.id
    {
      assert RequestSound(v, x) && InOrder(r, x);
    }
    forall n | n in v.toClients
      ensures n.id != r.id
    {
      assert n in multiset(v.toClients);
    }
  }

  lemma DeleteKeeps(v: System, r: Request)
    requires InvBut(v, r) && r.received == v.timers[r.id].sent
    ensures Inv(DeleteStep(v, r.id))
  {
    NothingNamesDeleted(v, r);
    var u := DeleteStep(v, r.id);
    DeleteQueue(v, u, r.id);
    DeleteCounts(v, u, r.id);
    DeleteRequests(v, u, r.id);
    DeleteWaiting(v, u, r.id);
    hide QueueInv, CountInv, RequestInv, ReleaseInv, WillBeDeleted, InOrder;
    forall id
      ensures PhaseOf(u.log, id) == ExpectedPhase(u, id)
    {
      PhaseAfter(v.log, Deleted(r.id), id);
    }
  }

  /** Everything but one timer, which nothing names. */
  predicate Deletes(v: System, u: System, gone: TimerId) {
    && u.timers == v.timers - {gone} && u.queue == v.queue && gone !in v.queue
    && u.toTimerThread == v.toTimerThread && u.toClients == v.toClients
    && (forall x :: x in v.toTimerThread ==> x.id != gone)
    && (forall n :: n in v.toClients ==> n.id != gone)
  }

  lemma DeleteQueue(v: System, u: System, gone: TimerId)
    requires QueueInv(v) && Deletes(v, u, gone)
    ensures QueueInv(u)
  {
    hide Sorted;
    assert forall id :: id in v.queue ==> id != gone;
    SortedFrame(v.timers, u.timers, v.queue);
  }

  lemma DeleteCounts(v: System, u: System, gone: TimerId)
    requires CountInv(v) && Deletes(v, u, gone)
    ensures CountInv(u)
  {
    assert forall id :: id in u.timers ==> CountsAgree(v, id);
  }

  lemma DeleteRequests(v: System, u: System, gone: TimerId)
    requires RequestInv(v) && Deletes(v, u, gone)
    ensures RequestInv(u)
  {
    hide InOrder;
    assert forall x :: x in v.toTimerThread ==> RequestSound(v, x);
  }

  lemma DeleteWaiting(v: System, u: System, gone: TimerId)
    requires Deletes(v, u, gone)
    requires forall id :: id in v.timers && v.timers[id].releasePending && id != gone ==> WillBeDeleted(v, id)
    ensures ReleaseInv(u)
  {
    forall id | id in u.timers && u.timers[id].releasePending
      ensures WillBeDeleted(u, id)
    {
      assert WillBeDeleted(v, id);
    }
  }

  // Firing and recalculating.

  lemma EraseOneKeeps(timers: map<TimerId, Timer>, q: seq<TimerId>, id: TimerId)
    requires Distinct(q) && Sorted(timers, q) && id in q
    ensures Distinct(EraseOne(q, id)) && Sorted(timers, EraseOne(q, id))
    ensures forall x :: x in EraseOne(q, id) <==> x in q && x != id
  {
    hide FireTime, EraseOne;
    var i :| 0 <= i < |q| && q[i] == id;
    EraseOneAt(q, i);
    var r := EraseOne(q, id);
    assert forall j :: 0 <= j < |r| ==> r[j] == q[if j < i then j else j + 1];
    assert Distinct(r) && Sorted(timers, r);
    forall x
      ensures x in r <==> x in q && x != id
    {
      if x in q && x != id {
        var j :| 0 <= j < |q| && q[j] == x;
        assert r[if j < i then j else j - 1] == x;
      }
    }
  }

  lemma FireQueue(s: System, id: TimerId, clock: ClockBase)
    requires Inv(s) && id in s.queue
    ensures id in s.timers && s.timers[id].thread.Some?
    ensures QueueInv(FireStep(s, id, clock))
  {
    hide RequestInv, ReleaseInv, LogInv;
    var u := FireStep(s, id, clock);
    assert CountsAgree(s, id);
    var q := EraseOne(s.queue, id);
    EraseOneKeeps(s.timers, s.queue, id);
    SortedFrame(s.timers, u.timers, q);
    InsertKeeps(u.timers, q, id);
    InsertMembers(u.timers, q, id);
  }

  lemma FireCounts(s: System, id: TimerId, clock: ClockBase)
    requires Inv(s) && id in s.queue && id in s.timers && s.timers[id].thread.Some?
    ensures CountInv(FireStep(s, id, clock))
  {
    hide QueueInv, RequestInv, ReleaseInv, LogInv, Insert, EraseOne, CalculateFireTime;
    var u := FireStep(s, id, clock);
    var n := Notification(s.timers[id].thread.value, id);
    assert u.toClients == s.toClients + [n];
    CountsAfterSending(s, u, n);
  }

  lemma CountsAfterSending(s: System, u: System, n: Notification)
    requires CountInv(s) && n.id in s.timers && s.timers[n.id].thread == Some(n.thread)
    requires u.toClients == s.toClients + [n] && u.timers.Keys == s.timers.Keys
    requires forall x :: x in s.timers && x != n.id ==> u.timers[x] == s.timers[x]
    requires var t, v := s.timers[n.id], u.timers[n.id];
             v.thread == t.thread && v.received == t.received && v.sent == t.sent + 1
    ensures CountInv(u)
  {
    forall x | x in u.timers
      ensures CountsAgree(u, x)
    {
      assert CountsAgree(s, x);
    }
  }

  lemma FireRequests(s: System, id: TimerId, clock: ClockBase)
    requires Inv(s) && id in s.queue && id in s.timers && s.timers[id].thread.Some?
    ensures RequestInv(FireStep(s, id, clock)) && ReleaseInv(FireStep(s, id, clock))
  {
    hide CountInv, LogInv, Sorted, Distinct, Insert, EraseOne, CalculateFireTime;
    var u := FireStep(s, id, clock);
    assert forall x :: x in s.toTimerThread ==> RequestSound(s, x);
    forall x | x in u.timers && u.timers[x].releasePending
      ensures WillBeDeleted(u, x)
    {
      assert WillBeDeleted(s, x);
    }
  }

  lemma FireStepKeeps(s: System, id: TimerId, clock: ClockBase)
    requires Inv(s) && id in s.queue
    ensures Inv(FireStep(s, id, clock))
  {
    hide QueueInv, CountInv, RequestInv, ReleaseInv, Insert, EraseOne, CalculateFireTime;
    FireQueue(s, id, clock);
    FireCounts(s, id, clock);
    FireRequests(s, id, clock);
    assert forall x :: ExpectedPhase(FireStep(s, id, clock), x) == ExpectedPhase(s, x);
  }

  /** Same system but for fire times and the queue's order. */
  ghost predicate OnlyFireTimesDiffer(s: System, u: System) {
    && u == s.(timers := u.timers, queue := u.queue) && u.timers.Keys == s.timers.Keys
    && forall id :: id in s.timers ==> u.timers[id] == s.timers[id].(fireTime := u.timers[id].fireTime)
  }

  lemma {:induction false} RecalculateMoves(s: System, waiting: seq<TimerId>, rebuilt: seq<TimerId>, clock: ClockBase)
    requires Distinct(waiting) && Distinct(rebuilt) && Sorted(s.timers, rebuilt)
    requires forall x :: x in waiting ==> x in s.timers && x !in rebuilt
    ensures var u := RecalculateFrom(s, waiting, rebuilt, clock);
            && OnlyFireTimesDiffer(s, u) && Distinct(u.queue) && Sorted(u.timers, u.queue)
            && (forall x :: x in u.queue <==> x in waiting || x in rebuilt)
            && (forall x :: x in waiting ==> u.timers[x].fireTime == CalculateFireTime(clock, s.timers[x]))
            && (forall x :: x in s.timers && x !in waiting ==> u.timers[x] == s.timers[x])
    decreases waiting
  {
    if waiting != [] {
      var t := s.timers[waiting[0]];
      var timers := s.timers[waiting[0] := t.(fireTime := CalculateFireTime(clock, t))];
      var v := s.(timers := timers);
      assert waiting[0] in waiting;
      SortedFrame(s.timers, timers, rebuilt);
      InsertKeeps(timers, rebuilt, waiting[0]);
      InsertMembers(timers, rebuilt, waiting[0]);
      assert forall x :: x in waiting <==> x == waiting[0] || x in waiting[1..];
      assert waiting[0] !in waiting[1..];
      RecalculateMoves(v, waiting[1..], Insert(timers, rebuilt, waiting[0]), clock);
    }
  }

  lemma RecalculateKeeps(s: System, a: Action)
    requires Inv(s) && a.Recalculate?
    ensures Inv(Apply(s, a))
  {
    hide ProcessStep, FireStep, RecalculateFrom, ReceiveStep;
    var u := Apply(s, a);
    RecalculateMoves(s, s.queue, [], a.clock);
    assert CountInv(u) by {
      assert forall x :: x in s.timers ==> CountsAgree(s, x);
    }
    assert RequestInv(u) by {
      assert forall x :: x in s.toTimerThread ==> RequestSound(s, x);
    }
    assert ReleaseInv(u) by {
      forall x | x in u.timers && u.timers[x].releasePending
        ensures WillBeDeleted(u, x)
      {
        assert WillBeDeleted(s, x);
      }
    }
    assert forall x :: ExpectedPhase(u, x) == ExpectedPhase(s, x);
  }

  lemma FireKeeps(s: System, a: Action)
    requires Inv(s) && a.Fire? && Enabled(s, a)
    ensures Inv(Apply(s, a))
  {
    hide Inv;
    FireStepKeeps(s, a.id, a.clock);
  }

  lemma StepKeeps(s: System, a: Action)
    requires Inv(s) && Enabled(s, a)
    ensures Inv(Apply(s, a))
  {
    hide Inv, Apply, Enabled;
    match a
    case Create(_, _, _, _) => CreateKeeps(s, a);
    case Activate(_, _) => ActivateKeeps(s, a);
    case Release(_, _) => ReleaseKeeps(s, a);
    case Receive(_) => ReceiveKeeps(s, a);
    case Process(_) => ProcessKeeps(s, a);
    case Fire(_, _) => FireKeeps(s, a);
    case Recalculate(_) => RecalculateKeeps(s, a);
  }

  lemma ProcessKeeps(s: System, a: Action)
    requires Inv(s) && a.Process? && Enabled(s, a)
    ensures Inv(Apply(s, a))
  {
    hide Inv, Apply;
    match s.toTimerThread[0]
    case ActivateRequest(_) => ProcessActivateKeeps(s, a);
    case ReleaseRequest(_, _) => ProcessReleaseKeeps(s, a);
  }

  // ---------------------------------------------------------------- whole runs

  ghost predicate Legal(s: System, run: seq<Action>)
    decreases run
  {
    run == [] || (Enabled(s, run[0]) && Legal(Apply(s, run[0]), run[1..]))
  }

  ghost function Run(s: System, run: seq<Action>): System
    requires Legal(s, run)
    decreases run
  {
    if run == [] then s else Run(Apply(s, run[0]), run[1..])
  }

  lemma {:induction false} RunKeeps(s: System, run: seq<Action>)
    requires Inv(s) && Legal(s, run)
    ensures Inv(Run(s, run))
    decreases run
  {
    if run != [] {
      hide Inv, Apply;
      StepKeeps(s, run[0]);
      RunKeeps(Apply(s, run[0]), run[1..]);
    }
  }

  /** In any interleaving whatever of clients and the timer thread: no deleted timer is ever touched and no assertion
      fails; every timer's history is created, notified, released, deleted in that order, so it is deleted at most once
      per creation and its observer is never notified after release; and nothing in flight or queued names a timer
      that is gone. */
  lemma HandshakeIsSafe(run: seq<Action>)
    requires Legal(INITIAL, run)
    ensures var s := Run(INITIAL, run);
            && !s.crashed
            && (forall id :: PhaseOf(s.log, id) != Broken && (PhaseOf(s.log, id) == Absent <==> id !in s.timers))
            && (forall r :: r in s.toTimerThread ==> r.id in s.timers)
            && (forall n :: n in s.toClients ==> n.id in s.timers)
            && (forall id :: id in s.queue ==> id in s.timers)
  {
    InitialInv();
    RunKeeps(INITIAL, run);
    var s := Run(INITIAL, run);
    assert forall r :: r in s.toTimerThread ==> RequestSound(s, r);
  }

  /** At the step that deletes a timer nothing that remains in either channel or in the queue names it. */
  lemma NothingInFlightAtDeletion(s: System, a: Action, id: TimerId)
    requires Inv(s) && Enabled(s, a) && id in s.timers && id !in Apply(s, a).timers
    ensures var u := Apply(s, a);
            && (forall r :: r in u.toTimerThread ==> r.id != id)
            && (forall n :: n in u.toClients ==> n.id != id)
            && id !in u.queue
  {
    StepKeeps(s, a);
    var u := Apply(s, a);
    assert forall r :: r in u.toTimerThread ==> RequestSound(u, r);
  }

  /** Once both channels are empty no released timer is left. */
  lemma DrainedMeansDeleted(s: System)
    requires Inv(s) && s.toTimerThread == [] && s.toClients == []
    ensures forall id :: id in s.timers ==> !s.timers[id].releasePending
  {
    assert forall id :: id in s.timers && s.timers[id].releasePending ==> WillBeDeleted(s, id);
  }

  function Backlog(s: System): nat { 2 * |s.toClients| + |s.toTimerThread| }

  /** Handling one message shortens the backlog, though a received notification may send a request. */
  lemma HandlingShortens(s: System, a: Action)
    requires Inv(s) && Enabled(s, a) && (a.Receive? || a.Process?)
    ensures Backlog(Apply(s, a)) < Backlog(s)
  {
    hide FireStep, RecalculateFrom, CalculateFireTime, Insert, EraseKey;
    if a.Receive? {
      ReceiveCounts(s, a);
    }
  }

  /** Let both sides handle everything under way. */
  ghost function Settle(s: System, clock: ClockBase): System
    requires Inv(s)
    decreases Backlog(s)
  {
    if s.toClients != [] then
      StepKeeps(s, Receive(0));
      HandlingShortens(s, Receive(0));
      Settle(Apply(s, Receive(0)), clock)
    else if s.toTimerThread != [] then
      StepKeeps(s, Process(clock));
      HandlingShortens(s, Process(clock));
      Settle(Apply(s, Process(clock)), clock)
    else s
  }

  lemma HandlingKeepsOthers(s: System, a: Action)
    requires Inv(s) && Enabled(s, a) && (a.Receive? || a.Process?)
    ensures forall id :: id in s.timers && !s.timers[id].releasePending ==>
              id in Apply(s, a).timers && !Apply(s, a).timers[id].releasePending
    ensures forall id :: id in s.timers && s.timers[id].releasePending && id in Apply(s, a).timers ==>
              Apply(s, a).timers[id].releasePending
    ensures Apply(s, a).timers.Keys <= s.timers.Keys
  {
    hide FireStep, RecalculateFrom, CalculateFireTime, Insert, EraseKey, QueueInv, ReleaseInv, LogInv;
    if a.Process? {
      hide CountInv, ReceiveStep;
      assert RequestSound(s, s.toTimerThread[0]);
    } else {
      hide RequestInv;
      ReceiveCounts(s, a);
    }
  }

  /** From any reachable state, once messages stop arriving, exactly the released timers get deleted. */
  lemma {:induction false} SettlingDeletesReleased(s: System, clock: ClockBase)
    requires Inv(s)
    ensures Inv(Settle(s, clock)) && Settle(s, clock).toClients == [] && Settle(s, clock).toTimerThread == []
    ensures forall id :: id in Settle(s, clock).timers <==> id in s.timers && !s.timers[id].releasePending
    decreases Backlog(s)
  {
    hide Inv, Apply, CountInv, QueueInv, RequestInv, ReleaseInv, LogInv;
    if s.toClients != [] {
      StepKeeps(s, Receive(0));
      HandlingShortens(s, Receive(0));
      HandlingKeepsOthers(s, Receive(0));
      SettlingDeletesReleased(Apply(s, Receive(0)), clock);
    } else if s.toTimerThread != [] {
      StepKeeps(s, Process(clock));
      HandlingShortens(s, Process(clock));
      HandlingKeepsOthers(s, Process(clock));
      SettlingDeletesReleased(Apply(s, Process(clock)), clock);
    } else {
      DrainedMeansDeleted(s);
    }
  }
}
