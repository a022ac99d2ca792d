/** The timer thread's own methods (src/ESTimer.cpp), working in place on the queue and the timers, each shown to take
    the steps of the state machine; and what one pass over the lapsed timers delivers. */
module TimerService {
  import opened Common
  import opened TimerThread

  // ---------------------------------------------------------------- a series of deliveries

  ghost function FireAll(s: System, fired: seq<TimerId>, clock: ClockBase): System {
    if fired == [] then s else FireStep(FireAll(s, fired[..|fired| - 1], clock), fired[|fired| - 1], clock)
  }

  lemma FireAllAppend(s: System, fired: seq<TimerId>, id: TimerId, clock: ClockBase)
    ensures FireAll(s, fired + [id], clock) == FireStep(FireAll(s, fired, clock), id, clock)
  {
    assert (fired + [id])[..|fired|] == fired;
  }

  /** The fire time the k-th delivery was made for. */
  ghost function DeliveryTime(s: System, fired: seq<TimerId>, k: int, clock: ClockBase): real
    requires 0 <= k < |fired|
  {
    FireTime(FireAll(s, fired[..k], clock).timers, fired[k])
  }

  // ---------------------------------------------------------------- how long a pass can go on

  /** An upper bound on the `atTime` of a timer that counts as lapsed. */
  function LapseBound(t: Timer, now: real, clock: ClockBase): real {
    if t.useContinuousTime then now
    else now + clock.contSkew + (if clock.next.delta < 0.0 then -clock.next.delta else 0.0)
  }

  /** How many times one timer can still come up in a pass, if its fire time was computed in this pass. */
  function FreshBudget(t: Timer, now: real, clock: ClockBase): nat {
    if t.repeatEvery > 0.0 then
      if t.atTime >= LapseBound(t, now, clock) then 1
      else PositiveFloor((LapseBound(t, now, clock) - t.atTime) / t.repeatEvery) + 2
    else if t.repeatEvery < 0.0 && !t.useContinuousTime && t.atTime > clock.next.date then 2
    else 1
  }

  function PositiveFloor(x: real): nat {
    if x < 0.0 then 0 else x.Floor
  }

  /** What a repeating timer becomes when it is delivered. */
  function MovedOn(t: Timer, clock: ClockBase): Timer {
    var moved := t.(sent := t.sent + 1, atTime := t.atTime + t.repeatEvery);
    moved.(fireTime := CalculateFireTime(clock, moved))
  }

  /** A fire time from before the pass may be computed from an older clock, so it counts for one delivery more. */
  function Budget(t: Timer, current: bool, now: real, clock: ClockBase): nat {
    if current then FreshBudget(t, now, clock) else 1 + FreshBudget(MovedOn(t, clock), now, clock)
  }

  ghost function TotalBudget(timers: map<TimerId, Timer>, q: seq<TimerId>, fired: set<TimerId>, now: real,
                             clock: ClockBase): nat
  {
    if q == [] then 0
    else (if q[0] in timers then Budget(timers[q[0]], q[0] in fired, now, clock) else 0)
         + TotalBudget(timers, q[1..], fired, now, clock)
  }

  lemma {:induction false} TotalBudgetInsert(timers: map<TimerId, Timer>, q: seq<TimerId>, id: TimerId,
                                             fired: set<TimerId>, now: real, clock: ClockBase)
    requires id in timers
    ensures TotalBudget(timers, Insert(timers, q, id), fired, now, clock)
            == TotalBudget(timers, q, fired, now, clock) + Budget(timers[id], id in fired, now, clock)
  {
    if q != [] && FireTime(timers, id) >= FireTime(timers, q[0]) {
      TotalBudgetInsert(timers, q[1..], id, fired, now, clock);
      assert Insert(timers, q, id)[1..] == Insert(timers, q[1..], id);
    } else {
      assert Insert(timers, q, id)[1..] == q;
    }
  }

  /** Delivering a timer that is not in a stretch of the queue leaves that stretch's budget alone. */
  lemma {:induction false} TotalBudgetFrame(before: map<TimerId, Timer>, after: map<TimerId, Timer>, q: seq<TimerId>,
                                            fired: set<TimerId>, id: TimerId, now: real, clock: ClockBase)
    requires id !in q && forall x :: x in q ==> x in before && x in after && after[x] == before[x]
    ensures TotalBudget(after, q, fired + {id}, now, clock) == TotalBudget(before, q, fired, now, clock)
  {
    if q != [] {
      TotalBudgetFrame(before, after, q[1..], fired, id, now, clock);
    }
  }

  /** A repeating timer that is delivered, moved on and still comes up later in the pass has a smaller budget. */
  lemma RepeatSpendsBudget(t: Timer, current: bool, now: real, clock: ClockBase)
    requires current ==> t.fireTime == CalculateFireTime(clock, t)
    requires t.fireTime < now && t.repeatEvery != 0.0 && t.fireTime <= MovedOn(t, clock).fireTime
    ensures Budget(MovedOn(t, clock), true, now, clock) < Budget(t, current, now, clock)
  {
    if current {
      var bound := LapseBound(t, now, clock);
      assert t.atTime < bound;
      if t.repeatEvery > 0.0 && MovedOn(t, clock).atTime < bound {
        QuotientStep(bound - t.atTime, t.repeatEvery);
        assert bound - (t.atTime + t.repeatEvery) == bound - t.atTime - t.repeatEvery;
      }
    }
  }

  lemma Cancel(a: real, b: real, r: real)
    requires r > 0.0 && a * r == b * r
    ensures a == b
  {
    assert (a - b) * r == 0.0;
  }

  lemma QuotientStep(x: real, r: real)
    requires r > 0.0 && x - r > 0.0
    ensures (x - r) / r == x / r - 1.0
    ensures PositiveFloor((x - r) / r) + 1 == PositiveFloor(x / r)
  {
    var y, z := x / r, (x - r) / r;
    assert y * r == x && z * r == x - r;
    assert (y - 1.0) * r == y * r - r;
    Cancel(z, y - 1.0, r);
    assert z >= 0.0;
    assert z.Floor + 1 == (z + 1.0).Floor;
  }

  // ---------------------------------------------------------------- where a re-inserted timer lands

  lemma SortedTail(timers: map<TimerId, Timer>, front: seq<TimerId>, rest: seq<TimerId>)
    requires front != [] && Sorted(timers, front + rest)
    ensures (front + rest)[0] == front[0] && (front + rest)[1..] == front[1..] + rest
    ensures Sorted(timers, front[1..] + rest)
    ensures rest != [] ==> FireTime(timers, front[0]) <= FireTime(timers, rest[0])
  {
    hide FireTime;
    var q := front + rest;
    assert q[1..] == front[1..] + rest;
    assert Sorted(timers, q[1..]);
    assert rest != [] ==> q[|front|] == rest[0];
  }

  /** In a sorted queue split before `rest`, insertion falls into `rest` exactly when its head is not later. */
  lemma {:induction false} InsertSplit(timers: map<TimerId, Timer>, front: seq<TimerId>, rest: seq<TimerId>,
                                       id: TimerId)
    requires Sorted(timers, front + rest)
    ensures Insert(timers, front + rest, id)
            == if rest != [] && FireTime(timers, rest[0]) <= FireTime(timers, id)
               then front + Insert(timers, rest, id) else Insert(timers, front, id) + rest
  {
    hide FireTime, Sorted, Insert;
    InsertHead(timers, front + rest, id);
    InsertHead(timers, front, id);
    InsertHead(timers, rest, id);
    if front == [] {
      assert front + rest == rest;
      assert front + Insert(timers, rest, id) == Insert(timers, rest, id);
    } else {
      SortedTail(timers, front, rest);
      if FireTime(timers, id) < FireTime(timers, front[0]) {
        assert [id] + (front + rest) == ([id] + front) + rest;
      } else {
        InsertSplit(timers, front[1..], rest, id);
        assert front == [front[0]] + front[1..];
        AppendAssociates([front[0]], front[1..], Insert(timers, rest, id));
        AppendAssociates([front[0]], Insert(timers, front[1..], id), rest);
      }
    }
  }

  lemma InsertHead(timers: map<TimerId, Timer>, q: seq<TimerId>, id: TimerId)
    ensures Insert(timers, q, id)
            == if q == [] then [id] else if FireTime(timers, id) < FireTime(timers, q[0]) then [id] + q
               else [q[0]] + Insert(timers, q[1..], id)
  {
    hide FireTime;
  }

  lemma AppendAssociates(a: seq<TimerId>, b: seq<TimerId>, c: seq<TimerId>)
    ensures a + (b + c) == (a + b) + c
  {
  }

  function IndexOf(q: seq<TimerId>, id: TimerId): nat
    ensures IndexOf(q, id) <= |q|
  {
    if q == [] then 0 else if q[0] == id then 0 else 1 + IndexOf(q[1..], id)
  }

  lemma {:induction false} IndexOfAt(q: seq<TimerId>, k: nat)
    requires Distinct(q) && k < |q|
    ensures IndexOf(q, q[k]) == k
  {
    if k > 0 {
      IndexOfAt(q[1..], k - 1);
    }
  }

  // ---------------------------------------------------------------- one delivery within a pass

  /** Where the iterator stands after the element at i was handled: at the element that used to follow it. */
  function NextIndex(q: seq<TimerId>, i: nat, newQueue: seq<TimerId>): nat
    requires i < |q|
  {
    if i + 1 < |q| then IndexOf(newQueue, q[i + 1]) else |newQueue|
  }

  /** Whether a delivered timer comes up again in the same pass. */
  predicate ComesAgain(s: System, i: nat, clock: ClockBase)
    requires i < |s.queue| && s.queue[i] in s.timers
  {
    && s.timers[s.queue[i]].repeatEvery != 0.0 && i + 1 < |s.queue|
    && FireTime(s.timers, s.queue[i + 1]) <= MovedOn(s.timers[s.queue[i]], clock).fireTime
  }

  /** The queue a delivery leaves: the delivered timer taken out, and put back if it repeats. */
  lemma QueueAfterDelivery(s: System, i: nat, clock: ClockBase)
    requires Inv(s) && i < |s.queue| && s.queue[i] in s.timers && s.timers[s.queue[i]].thread.Some?
    ensures var id, u := s.queue[i], FireStep(s, s.queue[i], clock);
            var front, rest := s.queue[..i], s.queue[i + 1..];
            && (if s.timers[id].repeatEvery != 0.0
                then u.queue == Insert(u.timers, front + rest, id)
                     && FireTime(u.timers, id) == MovedOn(s.timers[id], clock).fireTime
                else u.queue == front + rest)
            && Sorted(u.timers, front + rest)
            && (rest != [] ==> FireTime(u.timers, rest[0]) == FireTime(s.timers, rest[0]))
  {
    var id := s.queue[i];
    var u := FireStep(s, id, clock);
    var front, rest := s.queue[..i], s.queue[i + 1..];
    InvHasQueue(s);
    hide Inv, CalculateFireTime, Insert;
    assert id in s.queue;
    FireStepQueue(s, id, clock);
    FireStepEffect(s, id, clock);
    hide FireStep, MovedOn;
    EraseOneAt(s.queue, i);
    EraseOneKeeps(s.timers, s.queue, id);
    assert forall x :: x in front + rest ==> x in s.queue && x != id;
    assert forall x :: x in front + rest ==> FireTime(u.timers, x) == FireTime(s.timers, x);
    hide FireTime;
    SortedFrame(s.timers, u.timers, front + rest);
    assert rest != [] ==> rest[0] in front + rest;
  }

  lemma FireStepQueue(s: System, id: TimerId, clock: ClockBase)
    requires id in s.timers && s.timers[id].thread.Some?
    ensures var u := FireStep(s, id, clock);
            && u.queue == (if s.timers[id].repeatEvery != 0.0 then Insert(u.timers, EraseOne(s.queue, id), id)
                           else EraseOne(s.queue, id))
            && id in u.timers
            && (s.timers[id].repeatEvery != 0.0 ==> FireTime(u.timers, id) == MovedOn(s.timers[id], clock).fireTime)
  {
    hide Insert, EraseOne, CalculateFireTime;
  }

  /** What one delivery does to the rest of the queue: it is unchanged but for the delivered timer, which reappears in
      it exactly when it repeats no earlier than its successor. */
  lemma DeliveryKeepsRest(s: System, i: nat, clock: ClockBase)
    requires Inv(s) && i < |s.queue|
    ensures s.queue[i] in s.timers && s.timers[s.queue[i]].thread.Some?
    ensures var u := FireStep(s, s.queue[i], clock);
            var k := NextIndex(s.queue, i, u.queue);
            && k <= |u.queue|
            && u.queue[k..] == (if ComesAgain(s, i, clock) then Insert(u.timers, s.queue[i + 1..], s.queue[i])
                                else s.queue[i + 1..])
            && Inv(u)
  {
    var id := s.queue[i];
    assert id in s.queue;
    LiveInQueue(s, id);
    FireStepKeeps(s, id, clock);
    QueueAfterDelivery(s, i, clock);
    InvHasQueue(FireStep(s, id, clock));
    hide Inv, FireStep, FireTime, Sorted, Distinct, Insert, MovedOn, IndexOf;
    var u := FireStep(s, id, clock);
    var front, rest := s.queue[..i], s.queue[i + 1..];
    assert rest != [] ==> rest[0] == s.queue[i + 1];
    if s.timers[id].repeatEvery != 0.0 {
      WhereItLands(u.timers, front, rest, id);
    } else {
      LandsAtRest(u.queue, front, rest);
    }
  }

  /** After an insertion into a queue split before `rest`, what starts at the old head of `rest`. */
  lemma WhereItLands(timers: map<TimerId, Timer>, front: seq<TimerId>, rest: seq<TimerId>, id: TimerId)
    requires Sorted(timers, front + rest) && Distinct(Insert(timers, front + rest, id))
    ensures var q := Insert(timers, front + rest, id);
            var k := if rest == [] then |q| else IndexOf(q, rest[0]);
            && k <= |q|
            && q[k..] == if rest != [] && FireTime(timers, rest[0]) <= FireTime(timers, id)
                         then Insert(timers, rest, id) else rest
  {
    hide FireTime, Sorted, Insert, IndexOf, Distinct;
    InsertSplit(timers, front, rest, id);
    InsertHead(timers, rest, id);
    if rest != [] && FireTime(timers, rest[0]) <= FireTime(timers, id) {
      LandsAt(Insert(timers, front + rest, id), front, Insert(timers, rest, id), rest[0]);
    } else {
      LandsAtRest(Insert(timers, front + rest, id), Insert(timers, front, id), rest);
    }
  }

  lemma LandsAt(q: seq<TimerId>, front: seq<TimerId>, rest: seq<TimerId>, head: TimerId)
    requires Distinct(q) && q == front + rest && rest != [] && rest[0] == head
    ensures IndexOf(q, head) == |front| && q[|front|..] == rest
  {
    IndexOfAt(q, |front|);
  }

  lemma LandsAtRest(q: seq<TimerId>, front: seq<TimerId>, rest: seq<TimerId>)
    requires Distinct(q) && q == front + rest
    ensures rest != [] ==> IndexOf(q, rest[0]) == |front|
    ensures q[|front|..] == rest && (rest == [] ==> |q| == |front|)
  {
    if rest != [] {
      IndexOfAt(q, |front|);
    }
  }

  // ---------------------------------------------------------------- a pass over the lapsed timers

  /** Timers lapsed when the pass began. */
  predicate Lapsed(s: System, id: TimerId, now: real) { FireTime(s.timers, id) < now }

  ghost predicate DeliveriesInOrder(s0: System, fired: seq<TimerId>, now: real, clock: ClockBase) {
    && (forall k :: 0 <= k < |fired| ==> DeliveryTime(s0, fired, k, clock) < now)
    && (forall k, l :: 0 <= k < l < |fired| ==> DeliveryTime(s0, fired, k, clock) <= DeliveryTime(s0, fired, l, clock))
  }

  /** Everything delivered so far was due no later than anything still ahead. */
  ghost predicate AheadIsLater(s0: System, s: System, i: nat, fired: seq<TimerId>, clock: ClockBase)
    requires i <= |s.queue|
  {
    forall k, x :: 0 <= k < |fired| && x in s.queue[i..] ==>
      DeliveryTime(s0, fired, k, clock) <= FireTime(s.timers, x)
  }

  /** Timers not yet delivered are untouched and ahead; delivered ones were lapsed at the start, and those that do not
      repeat are gone for good. */
  ghost predicate Accounted(s0: System, s: System, i: nat, fired: seq<TimerId>, now: real, clock: ClockBase)
    requires i <= |s.queue|
  {
    && (forall x :: x in s0.queue && x !in fired ==>
          x in s.queue[i..] && x in s.timers && x in s0.timers && s.timers[x] == s0.timers[x])
    && (forall x :: x in s.queue ==> x in s0.queue)
    && (forall x :: x in fired ==> x in s0.queue && Lapsed(s0, x, now) && FiredOnceOrRepeats(s0, s, x, fired, clock))
  }

  ghost predicate FiredOnceOrRepeats(s0: System, s: System, x: TimerId, fired: seq<TimerId>, clock: ClockBase) {
    && x in s0.timers && x in s.timers && s.timers[x].repeatEvery == s0.timers[x].repeatEvery
    && (if s0.timers[x].repeatEvery == 0.0 then x !in s.queue && !s.timers[x].activated && multiset(fired)[x] == 1
        else x in s.queue && s.timers[x].fireTime == CalculateFireTime(clock, s.timers[x]))
  }

  ghost predicate PassInv(s0: System, s: System, i: nat, fired: seq<TimerId>, now: real, clock: ClockBase) {
    && Inv(s) && s == FireAll(s0, fired, clock) && i <= |s.queue|
    && DeliveriesInOrder(s0, fired, now, clock) && AheadIsLater(s0, s, i, fired, clock)
    && Accounted(s0, s, i, fired, now, clock)
  }

  lemma DeliveryTimesExtend(s0: System, fired: seq<TimerId>, id: TimerId, clock: ClockBase)
    ensures forall k :: 0 <= k < |fired| ==>
              DeliveryTime(s0, fired + [id], k, clock) == DeliveryTime(s0, fired, k, clock)
    ensures DeliveryTime(s0, fired + [id], |fired|, clock) == FireTime(FireAll(s0, fired, clock).timers, id)
  {
    assert forall k :: 0 <= k <= |fired| ==> (fired + [id])[..k] == fired[..k];
    assert fired[..|fired|] == fired;
  }

  /** What a delivery changes: one timer, and that timer's place in the queue. */
  lemma FireStepEffect(s: System, id: TimerId, clock: ClockBase)
    requires QueueInv(s) && id in s.queue && id in s.timers && s.timers[id].thread.Some?
    ensures var u := FireStep(s, id, clock);
            && id in u.timers && u.timers[id].repeatEvery == s.timers[id].repeatEvery
            && (forall x :: x in s.timers && x != id ==> x in u.timers && u.timers[x] == s.timers[x])
            && (forall x :: x in u.queue ==> x in s.queue)
            && (forall x :: x in s.queue && x != id ==> x in u.queue)
            && (if s.timers[id].repeatEvery == 0.0 then id !in u.queue && !u.timers[id].activated
                else id in u.queue && u.timers[id] == MovedOn(s.timers[id], clock))
  {
    hide CalculateFireTime;
    var u := FireStep(s, id, clock);
    EraseOneKeeps(s.timers, s.queue, id);
    InsertMembers(u.timers, EraseOne(s.queue, id), id);
  }

  /** What lies ahead after a delivery: what lay behind the timer, and possibly the timer itself, none of it earlier. */
  lemma AheadAfterDelivery(s: System, i: nat, clock: ClockBase)
    requires Inv(s) && i < |s.queue|
    ensures var id := s.queue[i]; var u := FireStep(s, id, clock); var k := NextIndex(s.queue, i, u.queue);
            && id in s.timers && s.timers[id].thread.Some? && Inv(u) && k <= |u.queue|
            && (forall x :: x in s.queue[i + 1..] ==> x in u.queue[k..] && x != id)
            && (forall x :: x in u.queue[k..] ==> FireTime(s.timers, id) <= FireTime(u.timers, x))
  {
    DeliveryKeepsRest(s, i, clock);
    var id := s.queue[i];
    assert QueueInv(s) && id in s.queue;
    FireStepEffect(s, id, clock);
    hide Inv, FireStep, CalculateFireTime, NextIndex, Insert;
    var u := FireStep(s, id, clock);
    var rest := s.queue[i + 1..];
    InsertMembers(u.timers, rest, id);
    assert forall x :: x in rest ==> x in s.queue && x != id && FireTime(s.timers, id) <= FireTime(s.timers, x);
    assert ComesAgain(s, i, clock) ==> FireTime(s.timers, id) <= FireTime(s.timers, s.queue[i + 1]);
  }

  lemma InvHasQueue(s: System)
    requires Inv(s)
    ensures QueueInv(s)
  {
  }

  lemma PassStep(s0: System, s: System, i: nat, fired: seq<TimerId>, now: real, clock: ClockBase)
    requires PassInv(s0, s, i, fired, now, clock) && i < |s.queue| && FireTime(s.timers, s.queue[i]) < now
    ensures var u := FireStep(s, s.queue[i], clock);
            PassInv(s0, u, NextIndex(s.queue, i, u.queue), fired + [s.queue[i]], now, clock)
  {
    hide Inv, ComesAgain, MovedOn, NextIndex;
    var id := s.queue[i];
    var u := FireStep(s, id, clock);
    var k := NextIndex(s.queue, i, u.queue);
    AheadAfterDelivery(s, i, clock);
    InvHasQueue(s);
    FireStepEffect(s, id, clock);
    FireAllAppend(s0, fired, id, clock);
    DeliveryTimesExtend(s0, fired, id, clock);
    hide FireStep, FireAll, DeliveryTime;
    assert id in s.queue[i..];
    assert forall x :: x in s.queue[i + 1..] ==> x in s.queue[i..];
    PassOrder(s0, s, u, i, k, fired, now, clock);
    PassAccounts(s0, s, u, i, k, fired, now, clock);
  }

  lemma PassOrder(s0: System, s: System, u: System, i: nat, k: nat, fired: seq<TimerId>, now: real, clock: ClockBase)
    requires i < |s.queue| && k <= |u.queue| && s.queue[i] in s.queue[i..]
    requires DeliveriesInOrder(s0, fired, now, clock) && AheadIsLater(s0, s, i, fired, clock)
    requires FireTime(s.timers, s.queue[i]) < now
    requires forall j :: 0 <= j < |fired| ==>
               DeliveryTime(s0, fired + [s.queue[i]], j, clock) == DeliveryTime(s0, fired, j, clock)
    requires DeliveryTime(s0, fired + [s.queue[i]], |fired|, clock) == FireTime(s.timers, s.queue[i])
    requires forall x :: x in u.queue[k..] ==> FireTime(s.timers, s.queue[i]) <= FireTime(u.timers, x)
    ensures DeliveriesInOrder(s0, fired + [s.queue[i]], now, clock)
    ensures AheadIsLater(s0, u, k, fired + [s.queue[i]], clock)
  {
    hide FireTime, DeliveryTime;
    var id := s.queue[i];
    assert forall j :: 0 <= j < |fired| ==> DeliveryTime(s0, fired, j, clock) <= FireTime(s.timers, id);
  }

  lemma PassAccounts(s0: System, s: System, u: System, i: nat, k: nat, fired: seq<TimerId>, now: real, clock: ClockBase)
    requires i < |s.queue| && k <= |u.queue| && Accounted(s0, s, i, fired, now, clock)
    requires var id := s.queue[i];
             && id in s.timers && id in u.timers && FireTime(s.timers, id) < now
             && (forall x :: x in s.queue[i..] && x != id ==> x in u.queue[k..])
             && (forall x :: x in s.timers && x != id ==> x in u.timers && u.timers[x] == s.timers[x])
             && (forall x :: x in u.queue ==> x in s.queue)
             && (forall x :: x in s.queue && x != id ==> x in u.queue)
             && (if s.timers[id].repeatEvery == 0.0 then id !in u.queue && !u.timers[id].activated
                 else id in u.queue && u.timers[id] == MovedOn(s.timers[id], clock))
             && u.timers[id].repeatEvery == s.timers[id].repeatEvery
    ensures Accounted(s0, u, k, fired + [s.queue[i]], now, clock)
  {
    var id := s.queue[i];
    var more := fired + [id];
    assert id in s.queue;
    assert multiset(more) == multiset(fired) + multiset{id};
    assert forall x :: x in more <==> x in fired || x == id;
    if id in fired {
      assert FiredOnceOrRepeats(s0, s, id, fired, clock);
    } else {
      assert s.timers[id] == s0.timers[id];
      assert multiset(fired)[id] == 0;
    }
    forall x | x in more
      ensures x in s0.queue && Lapsed(s0, x, now) && FiredOnceOrRepeats(s0, u, x, more, clock)
    {
      if x != id {
        assert FiredOnceOrRepeats(s0, s, x, fired, clock);
      }
    }
  }

  ghost function SetOf(ids: seq<TimerId>): set<TimerId> { set x | x in ids }

  /** Every delivery spends part of what the rest of the pass can cost. */
  lemma PassSpends(s0: System, s: System, i: nat, fired: seq<TimerId>, now: real, clock: ClockBase)
    requires PassInv(s0, s, i, fired, now, clock) && i < |s.queue| && FireTime(s.timers, s.queue[i]) < now
    ensures var u := FireStep(s, s.queue[i], clock);
            var k := NextIndex(s.queue, i, u.queue);
            && k <= |u.queue|
            && TotalBudget(u.timers, u.queue[k..], SetOf(fired + [s.queue[i]]), now, clock)
               < TotalBudget(s.timers, s.queue[i..], SetOf(fired), now, clock)
  {
    hide Inv;
    var id := s.queue[i];
    var u := FireStep(s, id, clock);
    var rest := s.queue[i + 1..];
    InvHasQueue(s);
    DeliveryKeepsRest(s, i, clock);
    FireStepEffect(s, id, clock);
    assert SetOf(fired + [id]) == SetOf(fired) + {id};
    assert s.queue[i..][1..] == rest;
    assert forall x :: x in rest ==> x in s.queue && x != id;
    assert forall x :: x in s.queue ==> x in s.timers;
    assert id in fired ==> FiredOnceOrRepeats(s0, s, id, fired, clock);
    hide FireStep, NextIndex, LapseBound, FreshBudget, CalculateFireTime, Insert, PassInv, Budget;
    TotalBudgetFrame(s.timers, u.timers, rest, SetOf(fired), id, now, clock);
    if ComesAgain(s, i, clock) {
      TotalBudgetInsert(u.timers, rest, id, SetOf(fired + [id]), now, clock);
      assert s.timers[id].fireTime <= MovedOn(s.timers[id], clock).fireTime;
      RepeatSpendsBudget(s.timers[id], id in fired, now, clock);
    } else {
      BudgetIsPositive(s.timers[id], id in fired, now, clock);
    }
  }

  lemma BudgetIsPositive(t: Timer, current: bool, now: real, clock: ClockBase)
    ensures Budget(t, current, now, clock) > 0
  {
  }

  // ---------------------------------------------------------------- the object

  class TimerSystem {
    var timers: map<TimerId, Timer>
    var queue: seq<TimerId>
    var toTimerThread: seq<Request>
    var toClients: seq<Notification>
    var crashed: bool
    var log: seq<Event>

    function State(): System
      reads this
    {
      System(timers, queue, toTimerThread, toClients, crashed, log)
    }

    constructor ()
      ensures State() == INITIAL && Inv(State())
    {
      timers, queue, toTimerThread, toClients, crashed, log := map[], [], [], [], false, [];
      new;
      InitialInv();
    }

    // Called by clients, each in its own thread.

    method New(id: TimerId, atTime: real, useContinuousTime: bool, repeatEvery: real)
      requires Enabled(State(), Create(id, atTime, useContinuousTime, repeatEvery))
      modifies this
      ensures State() == Apply(old(State()), Create(id, atTime, useContinuousTime, repeatEvery))
    {
      timers := timers[id := Timer(atTime, useContinuousTime, repeatEvery, None, false, false, 0.0, 0, 0)];
      log := log + [Created(id)];
    }

    method ActivateTimer(id: TimerId, thread: ThreadId)
      requires Enabled(State(), Activate(id, thread))
      modifies this
      ensures State() == Apply(old(State()), Activate(id, thread))
    {
      timers := timers[id := timers[id].(thread := Some(thread))];
      toTimerThread := toTimerThread + [ActivateRequest(id)];
    }

    method ReleaseTimer(id: TimerId, thread: ThreadId)
      requires Enabled(State(), Release(id, thread))
      modifies this
      ensures State() == Apply(old(State()), Release(id, thread))
    {
      timers := timers[id := timers[id].(releasePending := true)];
      toTimerThread := toTimerThread + [ReleaseRequest(id, timers[id].received)];
      log := log + [ReleaseAsked(id)];
    }

    method ReceiveNotificationMessage(k: nat)
      requires Enabled(State(), Receive(k))
      modifies this
      ensures State() == Apply(old(State()), Receive(k))
    {
      var n := toClients[k];
      toClients := toClients[..k] + toClients[k + 1..];
      if n.id !in timers || timers[n.id].thread != Some(n.thread) {
        crashed := true;
        return;
      }
      var received := timers[n.id].received + 1;
      timers := timers[n.id := timers[n.id].(received := received)];
      if timers[n.id].releasePending {
        toTimerThread := toTimerThread + [ReleaseRequest(n.id, received)];
      } else {
        log := log + [Notified(n.id)];
      }
    }

    // Run in the timer thread.

    method ActivateInTimerThread(id: TimerId, clock: ClockBase)
      modifies this
      ensures State() == ActivateStep(old(State()), id, clock)
    {
      if id !in timers {
        crashed := true;
        return;
      }
      timers := timers[id := timers[id].(fireTime := CalculateFireTime(clock, timers[id]), activated := true)];
      queue := Insert(timers, queue, id);
    }

    method Deactivate(id: TimerId)
      requires id in timers
      modifies this
      ensures State() == DeactivateStep(old(State()), id)
    {
      queue := EraseKey(timers, queue, timers[id].fireTime);
      timers := timers[id := timers[id].(activated := false)];
    }

    method ReleaseInTimerThread(id: TimerId, received: int)
      modifies this
      ensures State() == ReleaseStep(old(State()), id, received)
    {
      if id !in timers {
        crashed := true;
        return;
      }
      if timers[id].activated {
        Deactivate(id);
      }
      if received != timers[id].sent {
        return;
      }
      assert !timers[id].activated;  // what the destructor asserts
      timers := timers - {id};
      log := log + [Deleted(id)];
    }

    method ProcessRequest(clock: ClockBase)
      requires toTimerThread != []
      modifies this
      ensures State() == Apply(old(State()), Process(clock))
    {
      var r := toTimerThread[0];
      toTimerThread := toTimerThread[1..];
      match r {
        case ActivateRequest(id) => ActivateInTimerThread(id, clock);
        case ReleaseRequest(id, received) => ReleaseInTimerThread(id, received);
      }
    }

    method DeliverNotification(id: TimerId)
      requires id in timers && timers[id].thread.Some?
      modifies this
      ensures State() == old(State()).(timers := old(timers)[id := old(timers)[id].(sent := old(timers)[id].sent + 1)],
                                       toClients := old(toClients) + [Notification(old(timers)[id].thread.value, id)])
    {
      timers := timers[id := timers[id].(sent := timers[id].sent + 1)];
      toClients := toClients + [Notification(timers[id].thread.value, id)];
    }

    /** Move a repeating timer's time on; a timer that does not repeat is left as it is. */
    method PossiblyRepeat(id: TimerId) returns (repeats: bool)
      requires id in timers
      modifies this`timers
      ensures repeats <==> old(timers)[id].repeatEvery != 0.0
      ensures var t := old(timers)[id];
              timers == if repeats then old(timers)[id := t.(atTime := t.atTime + t.repeatEvery)] else old(timers)
    {
      if timers[id].repeatEvery != 0.0 {
        timers := timers[id := timers[id].(atTime := timers[id].atTime + timers[id].repeatEvery)];
        return true;
      }
      return false;
    }

    /** The body of the loop: deliver, take off the queue, and re-insert if the timer repeats. */
    method FireOne(id: TimerId, clock: ClockBase)
      requires id in timers && timers[id].thread.Some?
      modifies this
      ensures State() == FireStep(old(State()), id, clock)
    {
      hide CalculateFireTime, Insert, EraseOne;
      DeliverNotification(id);
      queue := EraseOne(queue, id);
      var repeats := PossiblyRepeat(id);
      if repeats {
        timers := timers[id := timers[id].(fireTime := CalculateFireTime(clock, timers[id]))];
        assert timers == old(timers)[id := timers[id]];
        queue := Insert(timers, queue, id);
      } else {
        timers := timers[id := timers[id].(activated := false)];
        assert timers == old(timers)[id := timers[id]];
      }
    }

    /** One pass: it ends, even with repeating timers; deliveries are in order of fire time; it delivers exactly the
        timers that had lapsed at the start, those that do not repeat exactly once; and the queue is left sorted (part
        of Inv), with every other timer untouched. */
    method FireLapsedTimers(now: real, clock: ClockBase) returns (ghost fired: seq<TimerId>)
      requires Inv(State())
      modifies this
      ensures Inv(State())
      ensures State() == FireAll(old(State()), fired, clock)
      ensures DeliveriesInOrder(old(State()), fired, now, clock)
      ensures forall x :: x in fired <==> x in old(queue) && x in old(timers) && old(timers)[x].fireTime < now
      ensures forall x :: x in fired && x in old(timers) && old(timers)[x].repeatEvery == 0.0 ==>
                multiset(fired)[x] == 1 && x !in queue && x in timers && !timers[x].activated
      ensures forall x :: x in old(queue) && x !in fired ==>
                x in queue && x in timers && x in old(timers) && timers[x] == old(timers)[x]
    {
      hide Inv, FireStep, NextIndex, FireTime, DeliveriesInOrder, AheadIsLater;
      var i: nat := 0;
      fired := [];
      ghost var s0 := State();
      PassStarts(s0, now, clock);
      while i < |queue|
        invariant PassInv(s0, State(), i, fired, now, clock)
        invariant i <= |queue|
        decreases TotalBudget(timers, queue[i..], SetOf(fired), now, clock)
      {
        ghost var s := State();
        var id := queue[i];
        LiveInQueue(s, id);
        if timers[id].fireTime >= now {
          NothingLapsedAhead(s, i, now);
          break;
        }
        PassStep(s0, s, i, fired, now, clock);
        PassSpends(s0, s, i, fired, now, clock);
        var before := queue;
        FireOne(id, clock);
        i := NextIndex(before, i, queue);
        fired := fired + [id];
      }
      PassEnds(s0, State(), i, fired, now, clock);
    }

    /** Recompute every queued timer's fire time and build a new queue from them. */
    method RebuildQueue(clock: ClockBase)
      requires forall x :: x in queue ==> x in timers
      modifies this
      ensures State() == RecalculateFrom(old(State()), old(queue), [], clock)
    {
      hide Insert, CalculateFireTime, RecalculateFrom;
      var newQueue: seq<TimerId> := [];
      var i := 0;
      assert queue[0..] == queue;
      while i < |queue|
        invariant 0 <= i <= |queue| && queue == old(queue) && timers.Keys == old(timers).Keys
        invariant State() == old(State()).(timers := timers)
        invariant RecalculateFrom(State(), queue[i..], newQueue, clock)
                  == RecalculateFrom(old(State()), old(queue), [], clock)
      {
        var id := queue[i];
        assert queue[i..][0] == id && queue[i..][1..] == queue[i + 1..];
        RecalculateStep(State(), queue[i..], newQueue, clock);
        timers := timers[id := timers[id].(fireTime := CalculateFireTime(clock, timers[id]))];
        newQueue := Insert(timers, newQueue, id);
        i := i + 1;
      }
      RecalculateDone(State(), queue[i..], newQueue, clock);
      queue := newQueue;
    }

    method RecalculateAllFireTimes(now: real, clock: ClockBase) returns (ghost fired: seq<TimerId>)
      requires Inv(State())
      modifies this
      ensures Inv(State())
      ensures State() == FireAll(Apply(old(State()), Recalculate(clock)), fired, clock)
      ensures forall x :: x in fired <==>
                x in old(queue) && x in old(timers) && CalculateFireTime(clock, old(timers)[x]) < now
    {
      RecalculateIsMoves(State(), clock);
      hide Inv, FireAll, RecalculateFrom, Apply, DeliveriesInOrder;
      RebuildQueue(clock);
      fired := FireLapsedTimers(now, clock);
    }
  }

  lemma RecalculateStep(s: System, waiting: seq<TimerId>, rebuilt: seq<TimerId>, clock: ClockBase)
    requires waiting != [] && waiting[0] in s.timers
    ensures var id := waiting[0];
            var timers := s.timers[id := s.timers[id].(fireTime := CalculateFireTime(clock, s.timers[id]))];
            RecalculateFrom(s, waiting, rebuilt, clock)
            == RecalculateFrom(s.(timers := timers), waiting[1..], Insert(timers, rebuilt, waiting[0]), clock)
  {
  }

  lemma RecalculateDone(s: System, waiting: seq<TimerId>, rebuilt: seq<TimerId>, clock: ClockBase)
    requires waiting == []
    ensures RecalculateFrom(s, waiting, rebuilt, clock) == s.(queue := rebuilt)
  {
  }

  lemma RecalculateIsMoves(s: System, clock: ClockBase)
    requires Inv(s)
    ensures Apply(s, Recalculate(clock)) == RecalculateFrom(s, s.queue, [], clock)
    ensures Inv(Apply(s, Recalculate(clock)))
    ensures forall x :: x in s.queue ==> x in s.timers
    ensures forall x :: x in Apply(s, Recalculate(clock)).queue <==> x in s.queue
    ensures forall x :: x in s.queue ==>
              x in Apply(s, Recalculate(clock)).timers
              && Apply(s, Recalculate(clock)).timers[x].fireTime == CalculateFireTime(clock, s.timers[x])
  {
    RecalculateKeeps(s, Recalculate(clock));
    RecalculateMoves(s, s.queue, [], clock);
  }

  lemma PassStarts(s: System, now: real, clock: ClockBase)
    requires Inv(s)
    ensures PassInv(s, s, 0, [], now, clock)
  {
    assert s.queue[0..] == s.queue;
  }

  lemma LiveInQueue(s: System, id: TimerId)
    requires Inv(s) && id in s.queue
    ensures id in s.timers && s.timers[id].thread.Some? && FireTime(s.timers, id) == s.timers[id].fireTime
  {
    assert CountsAgree(s, id);
  }

  lemma NothingLapsedAhead(s: System, i: nat, now: real)
    requires Inv(s) && i < |s.queue| && FireTime(s.timers, s.queue[i]) >= now
    ensures forall x :: x in s.queue[i..] ==> FireTime(s.timers, x) >= now
  {
    hide FireTime;
    InvHasQueue(s);
    hide Inv;
  }

  lemma PassEnds(s0: System, s: System, i: nat, fired: seq<TimerId>, now: real, clock: ClockBase)
    requires Inv(s0) && PassInv(s0, s, i, fired, now, clock)
    requires forall x :: x in s.queue[i..] ==> FireTime(s.timers, x) >= now
    ensures forall x :: x in fired <==> x in s0.queue && x in s0.timers && s0.timers[x].fireTime < now
    ensures forall x :: x in fired ==> x in s0.timers && x in s.timers
    ensures forall x :: x in fired && s0.timers[x].repeatEvery == 0.0 ==>
              multiset(fired)[x] == 1 && x !in s.queue && x in s.timers && !s.timers[x].activated
    ensures forall x :: x in s0.queue && x !in fired ==>
              x in s.queue && x in s.timers && x in s0.timers && s.timers[x] == s0.timers[x]
  {
    hide Inv, AheadIsLater, DeliveriesInOrder, FireAll;
    assert forall x :: x in s0.queue && x !in fired ==>
             x in s.queue[i..] && FireTime(s0.timers, x) == FireTime(s.timers, x);
    assert forall x :: x in fired ==> FiredOnceOrRepeats(s0, s, x, fired, clock);
  }
}
