/** How the NTP driver accumulates packets into a clock correction (src/ESNTPDriver.cpp): each packet bounds the skew
    between two offsets, and the driver intersects the bounds over a whole synchronisation. */
module NtpEstimator {
  import opened Common

  /** The driver's running estimate. */
  datatype Estimate = Estimate(maxMinOffset: real, minMaxOffset: real, contSkew: real, timeError: real)

  /** What gotPacket decides. */
  datatype Decision = NonOverlapping | Finished | Refined

  datatype Packet = Packet(minOffset: real, maxOffset: real)

  const NO_BOUND: real := 1000000000.0
  const FIX_GOOD: real := 0.16

  function Max(a: real, b: real): real { if b > a then b else a }
  function Min(a: real, b: real): real { if b < a then b else a }

  // ---------------------------------------------------------------- one packet

  function Decide(e: Estimate, p: Packet): Decision {
    var lo, hi := Max(e.maxMinOffset, p.minOffset), Min(e.minMaxOffset, p.maxOffset);
    if hi < lo then NonOverlapping
    else if (hi - lo) / 2.0 < FIX_GOOD then Finished
    else Refined
  }

  function Absorb(e: Estimate, p: Packet): Estimate {
    var lo, hi := Max(e.maxMinOffset, p.minOffset), Min(e.minMaxOffset, p.maxOffset);
    var error, skew := (hi - lo) / 2.0, (hi + lo) / 2.0;
    var narrowed := e.(maxMinOffset := lo, minMaxOffset := hi);
    match Decide(e, p)
    case NonOverlapping => narrowed
    case Finished => narrowed.(contSkew := skew, timeError := error)
    case Refined =>
      if e.contSkew < skew - error || e.contSkew > skew + error || error < e.timeError
      then narrowed.(contSkew := skew, timeError := error)
      else narrowed
  }

  predicate Contains(p: Packet, skew: real) { p.minOffset <= skew <= p.maxOffset }

  /** The cumulative bounds hold the true skew, and so does the reported error bar once anything is known. */
  ghost predicate Sound(e: Estimate, trueSkew: real) {
    && e.maxMinOffset <= trueSkew <= e.minMaxOffset
    && (Abs(e.contSkew - trueSkew) <= e.timeError || e.timeError >= NO_BOUND)
  }

  /** A packet that bounds the true skew keeps the estimate sound, is never taken for contradictory, only narrows the
      cumulative bounds, and leaves the reported skew within its error bar of the truth, including when the old skew is
      kept. */
  lemma PacketKeepsSound(e: Estimate, p: Packet, trueSkew: real)
    requires Sound(e, trueSkew) && Contains(p, trueSkew)
    ensures Decide(e, p) != NonOverlapping
    ensures Sound(Absorb(e, p), trueSkew)
    ensures e.maxMinOffset <= Absorb(e, p).maxMinOffset && Absorb(e, p).minMaxOffset <= e.minMaxOffset
    ensures p.maxOffset - p.minOffset < 2.0 * NO_BOUND ==>
              Abs(Absorb(e, p).contSkew - trueSkew) <= Absorb(e, p).timeError
  {
  }

  /** Whatever the packets say, unless they contradict each other the reported skew lies in the cumulative bounds and
      its error bar is never tighter than they justify. */
  lemma SkewStaysInBounds(e: Estimate, p: Packet)
    requires Decide(e, p) != NonOverlapping && e.timeError >= (e.minMaxOffset - e.maxMinOffset) / 2.0
    ensures var f := Absorb(e, p);
            && f.maxMinOffset <= f.contSkew <= f.minMaxOffset
            && f.timeError >= (f.minMaxOffset - f.maxMinOffset) / 2.0
            && (Decide(e, p) == Finished <==> (f.minMaxOffset - f.maxMinOffset) / 2.0 < FIX_GOOD)
  {
  }

  /** A packet moves the reported skew and error bar only to span the cumulative bounds exactly, and leaves them alone
      exactly if it contradicts, or if the sync goes on, the bounds hold the old skew and the old bar is no wider. */
  lemma KeepsOrSpans(e: Estimate, p: Packet)
    ensures var f := Absorb(e, p);
            var (lo, hi) := (f.maxMinOffset, f.minMaxOffset);
            && lo == Max(e.maxMinOffset, p.minOffset) && hi == Min(e.minMaxOffset, p.maxOffset)
            && (Decide(e, p) == NonOverlapping <==> hi < lo)
            && (Decide(e, p) == Finished <==> lo <= hi < lo + 0.32)
            && (if hi < lo || (hi - lo >= 0.32 && lo <= e.contSkew <= hi && 2.0 * e.timeError <= hi - lo)
                then f.contSkew == e.contSkew && f.timeError == e.timeError
                else f.contSkew - f.timeError == lo && f.contSkew + f.timeError == hi)
  {
  }

  /** So, as long as the bounds hold the skew, the error bar never grows, and the skew moves only if the bar shrinks. */
  lemma BarShrinksOrStays(e: Estimate, p: Packet)
    requires Decide(e, p) == Refined
    ensures var f := Absorb(e, p);
            f.maxMinOffset <= e.contSkew <= f.minMaxOffset ==>
              f.timeError <= e.timeError && (f.contSkew != e.contSkew ==> f.timeError < e.timeError)
  {
    KeepsOrSpans(e, p);
  }

  // ---------------------------------------------------------------- a whole synchronisation

  /** The estimate startSyncing begins with. */
  function Reset(e: Estimate, oldStatusValid: bool): Estimate {
    Estimate(-NO_BOUND, NO_BOUND, e.contSkew, if oldStatusValid then e.timeError else NO_BOUND)
  }

  function AbsorbAll(e: Estimate, ps: seq<Packet>): Estimate {
    if ps == [] then e else Absorb(AbsorbAll(e, ps[..|ps| - 1]), ps[|ps| - 1])
  }

  ghost predicate AllContain(ps: seq<Packet>, skew: real) {
    forall i :: 0 <= i < |ps| ==> Contains(ps[i], skew)
  }

  /** Starting over is sound when the skew is within the driver's range and, if the old status is still trusted, within
      the old error bar. */
  lemma ResetIsSound(e: Estimate, oldStatusValid: bool, trueSkew: real)
    requires -NO_BOUND <= trueSkew <= NO_BOUND
    requires oldStatusValid ==> Abs(e.contSkew - trueSkew) <= e.timeError
    ensures Sound(Reset(e, oldStatusValid), trueSkew)
  {
  }

  /** If every packet of a sync bounds the true skew, then after every one of them the reported skew is within its error
      of the truth, the bounds only shrink, and no packet is ever found contradictory. */
  lemma {:induction false} SyncStaysSound(e: Estimate, ps: seq<Packet>, trueSkew: real)
    requires Sound(e, trueSkew) && AllContain(ps, trueSkew)
    ensures Sound(AbsorbAll(e, ps), trueSkew)
    ensures forall i :: 0 <= i < |ps| ==> Decide(AbsorbAll(e, ps[..i]), ps[i]) != NonOverlapping
    ensures ps != [] && ps[|ps| - 1].maxOffset - ps[|ps| - 1].minOffset < 2.0 * NO_BOUND ==>
              Abs(AbsorbAll(e, ps).contSkew - trueSkew) <= AbsorbAll(e, ps).timeError
  {
    if ps != [] {
      var front, last := ps[..|ps| - 1], ps[|ps| - 1];
      SyncStaysSound(e, front, trueSkew);
      PacketKeepsSound(AbsorbAll(e, front), last, trueSkew);
      forall i | 0 <= i < |ps|
        ensures Decide(AbsorbAll(e, ps[..i]), ps[i]) != NonOverlapping
      {
        assert i < |front| ==> ps[..i] == front[..i] && ps[i] == front[i];
      }
    }
  }

  /** No packet finishes the sync or contradicts, and the bounds never exclude the skew reported before. */
  ghost predicate AllRefine(e: Estimate, ps: seq<Packet>) {
    forall i :: 0 <= i < |ps| ==> Refines(AbsorbAll(e, ps[..i]), ps[i])
  }

  predicate Refines(e: Estimate, p: Packet) {
    && Decide(e, p) == Refined
    && Absorb(e, p).maxMinOffset <= e.contSkew <= Absorb(e, p).minMaxOffset
  }

  /** Then the error bar never grows over the sync, not even from a trusted old status, and unless it has shrunk the
      skew is still the one it began with. */
  lemma {:induction false} TrustedBarNeverGrows(e: Estimate, ps: seq<Packet>)
    requires AllRefine(e, ps)
    ensures AbsorbAll(e, ps).timeError <= e.timeError
    ensures AbsorbAll(e, ps).contSkew != e.contSkew ==> AbsorbAll(e, ps).timeError < e.timeError
  {
    if ps != [] {
      var front, last := ps[..|ps| - 1], ps[|ps| - 1];
      assert AllRefine(e, front) by {
        forall i | 0 <= i < |front|
          ensures Refines(AbsorbAll(e, front[..i]), front[i])
        {
          assert front[..i] == ps[..i] && front[i] == ps[i];
          assert Refines(AbsorbAll(e, ps[..i]), ps[i]);
        }
      }
      TrustedBarNeverGrows(e, front);
      assert Refines(AbsorbAll(e, ps[..|ps| - 1]), ps[|ps| - 1]);
      BarShrinksOrStays(AbsorbAll(e, front), last);
    }
  }

  /** A resync from a trusted status keeps it through a packet that is no better. */
  lemma TrustedStatusIsKept()
    ensures var e := Reset(Estimate(-3.0, 3.0, 0.1, 0.05), true);
            Absorb(e, Packet(-0.3, 0.7)) == Estimate(-0.3, 0.7, 0.1, 0.05)
  {
  }

  /** The cumulative bounds are exactly the intersection of the starting bounds with every packet's. */
  lemma {:induction false} BoundsAreIntersection(e: Estimate, ps: seq<Packet>, skew: real)
    ensures AbsorbAll(e, ps).maxMinOffset <= skew <= AbsorbAll(e, ps).minMaxOffset
       <==> e.maxMinOffset <= skew <= e.minMaxOffset && AllContain(ps, skew)
  {
    if ps != [] {
      var front, last := ps[..|ps| - 1], ps[|ps| - 1];
      BoundsAreIntersection(e, front, skew);
      assert AllContain(ps, skew) <==> AllContain(front, skew) && Contains(last, skew) by {
        assert forall i :: 0 <= i < |front| ==> front[i] == ps[i];
      }
    }
  }

  /** A packet is found contradictory exactly when no skew at all fits it and everything before it. */
  lemma ContradictionExactly(e: Estimate, ps: seq<Packet>, p: Packet)
    ensures Decide(AbsorbAll(e, ps), p) == NonOverlapping
       <==> !exists skew: real :: e.maxMinOffset <= skew <= e.minMaxOffset && AllContain(ps + [p], skew)
  {
    var all := ps + [p];
    assert all[..|all| - 1] == ps && all[|all| - 1] == p;
    var f := AbsorbAll(e, all);
    assert Decide(AbsorbAll(e, ps), p) == NonOverlapping <==> f.minMaxOffset < f.maxMinOffset;
    if f.maxMinOffset <= f.minMaxOffset {
      BoundsAreIntersection(e, all, f.maxMinOffset);
    } else {
      forall skew: real | e.maxMinOffset <= skew <= e.minMaxOffset
        ensures !AllContain(all, skew)
      {
        BoundsAreIntersection(e, all, skew);
      }
    }
  }

  // ---------------------------------------------------------------- send throttling

  const THROTTLE_BASE_PACKETS := 6
  const THROTTLE_BASE_INTERVAL: real := 0.5
  const THROTTLE_MULTIPLIER: real := 1.05
  const THROTTLE_INTERVAL_MAX: real := 15.0

  datatype Throttle = Throttle(sendInterval: real, lastTicketTime: real)

  datatype TicketRequest = TicketRequest(sendTime: real, packetsReceived: int)

  function NextTicket(t: Throttle, r: TicketRequest): Throttle {
    if r.packetsReceived < THROTTLE_BASE_PACKETS then Throttle(0.0, r.sendTime)
    else
      var interval := if r.packetsReceived == THROTTLE_BASE_PACKETS then THROTTLE_BASE_INTERVAL
                      else Min(THROTTLE_INTERVAL_MAX, t.sendInterval * THROTTLE_MULTIPLIER);
      Throttle(interval, t.lastTicketTime + interval)
  }

  function Tickets(t: Throttle, rs: seq<TicketRequest>): Throttle {
    if rs == [] then t else NextTicket(Tickets(t, rs[..|rs| - 1]), rs[|rs| - 1])
  }

  ghost predicate CountsOnlyGrow(rs: seq<TicketRequest>) {
    forall i, j :: 0 <= i < j < |rs| ==> rs[i].packetsReceived <= rs[j].packetsReceived
  }

  ghost predicate AskedAtThreshold(rs: seq<TicketRequest>) {
    exists i :: 0 <= i < |rs| && rs[i].packetsReceived == 6
  }

  /** Tickets are spaced by half a second to fifteen seconds exactly when one was asked for while the count of received
      packets stood at the threshold; a count that jumps over it leaves sending unthrottled.  Before the threshold the
      interval is zero, as the code asserts. */
  lemma {:induction false} ThrottlesExactly(t: Throttle, rs: seq<TicketRequest>)
    requires t.sendInterval == 0.0 && CountsOnlyGrow(rs)
    ensures var u := Tickets(t, rs);
            && (AskedAtThreshold(rs) ==> 0.5 <= u.sendInterval <= 15.0)
            && (!AskedAtThreshold(rs) ==> u.sendInterval == 0.0)
  {
    if rs != [] {
      var front, last := rs[..|rs| - 1], rs[|rs| - 1];
      ThrottlesExactly(t, front);
      assert AskedAtThreshold(rs) <==> AskedAtThreshold(front) || last.packetsReceived == THROTTLE_BASE_PACKETS by {
        assert forall i :: 0 <= i < |front| ==> front[i] == rs[i];
        if i :| 0 <= i < |front| && front[i].packetsReceived == THROTTLE_BASE_PACKETS {
          assert rs[i].packetsReceived == THROTTLE_BASE_PACKETS;
        }
        assert rs[|rs| - 1] == last;
      }
      assert forall i :: 0 <= i < |front| ==> rs[i].packetsReceived <= last.packetsReceived;
    }
  }

  /** The tickets handed out once throttling is in force are at least half a second apart and at most fifteen. */
  lemma TicketSpacing(t: Throttle, rs: seq<TicketRequest>, r: TicketRequest)
    requires t.sendInterval == 0.0 && CountsOnlyGrow(rs + [r])
    requires AskedAtThreshold(rs) && r.packetsReceived >= THROTTLE_BASE_PACKETS
    ensures 0.5 <= Tickets(t, rs + [r]).lastTicketTime - Tickets(t, rs).lastTicketTime <= 15.0
  {
    var all := rs + [r];
    assert all[..|all| - 1] == rs && all[|all| - 1] == r;
    assert forall i :: 0 <= i < |rs| ==> all[i] == rs[i];
    ThrottlesExactly(t, rs);
  }

  /** Once throttling is in force the spacing grows by a twentieth with every ticket, as packets keep coming, up to
      fifteen seconds. */
  lemma SpacingGrows(t: Throttle, rs: seq<TicketRequest>, r: TicketRequest)
    requires t.sendInterval == 0.0 && CountsOnlyGrow(rs + [r])
    requires AskedAtThreshold(rs) && r.packetsReceived > THROTTLE_BASE_PACKETS
    ensures var before, after := Tickets(t, rs).sendInterval, Tickets(t, rs + [r]).sendInterval;
            && before <= after && (after == before <==> before == 15.0)
            && (after < 15.0 ==> 20.0 * (after - before) == before)
  {
    var all := rs + [r];
    assert all[..|all| - 1] == rs && all[|all| - 1] == r;
    assert forall i :: 0 <= i < |rs| ==> all[i] == rs[i];
    ThrottlesExactly(t, rs);
  }

  // ---------------------------------------------------------------- the driver object

  class NtpDriver {
    var maxMinOffset: real
    var minMaxOffset: real
    var contSkew: real
    var currentTimeError: real
    var running: bool
    var numPacketsReceived: int
    var throttleSendInterval: real
    var throttleLastTicketTime: real

    constructor (skew: real, timeError: real)
      ensures contSkew == skew && currentTimeError == timeError && !running
    {
      maxMinOffset, minMaxOffset, contSkew, currentTimeError := -NO_BOUND, NO_BOUND, skew, timeError;
      running, numPacketsReceived, throttleSendInterval, throttleLastTicketTime := false, 0, 0.0, 0.0;
    }

    function Current(): Estimate
      reads this
    {
      Estimate(maxMinOffset, minMaxOffset, contSkew, currentTimeError)
    }

    function ThrottleState(): Throttle
      reads this
    {
      Throttle(throttleSendInterval, throttleLastTicketTime)
    }

    method SetContSkew(newContSkew: real, timeError: real)
      modifies this`contSkew, this`currentTimeError
      ensures contSkew == newContSkew && currentTimeError == timeError
    {
      if newContSkew != contSkew || timeError != currentTimeError {
        contSkew := newContSkew;
        currentTimeError := timeError;
      }
    }

    /** The reset at the start of a sync; a running, disabled or unconnected driver is left alone. */
    method StartSyncing(oldStatusValid: bool, disabled: bool, networkReachable: bool)
      modifies this
      ensures if disabled || old(running) || !networkReachable
              then Current() == old(Current()) && running == old(running) && ThrottleState() == old(ThrottleState())
                   && numPacketsReceived == old(numPacketsReceived)
              else Current() == Reset(old(Current()), oldStatusValid) && running && contSkew == old(contSkew)
                   && currentTimeError == (if oldStatusValid then old(currentTimeError) else NO_BOUND)
                   && ThrottleState() == Throttle(0.0, 0.0) && numPacketsReceived == 0
    {
      if disabled || running || !networkReachable {
        return;
      }
      running := true;
      var effectiveError := if oldStatusValid then currentTimeError else NO_BOUND;
      SetContSkew(contSkew, effectiveError);
      maxMinOffset := -NO_BOUND;
      minMaxOffset := NO_BOUND;
      numPacketsReceived := 0;
      throttleLastTicketTime := 0.0;
      throttleSendInterval := 0.0;
    }

    /** Whatever becomes of the packet, the caller is told that it is being used. */
    method GotPacket(minOffset: real, maxOffset: real) returns (used: bool, decision: Decision)
      modifies this`maxMinOffset, this`minMaxOffset, this`contSkew, this`currentTimeError
      ensures used
      ensures decision == Decide(old(Current()), Packet(minOffset, maxOffset))
      ensures Current() == Absorb(old(Current()), Packet(minOffset, maxOffset))
    {
      if minOffset > maxMinOffset {
        maxMinOffset := minOffset;
      }
      if maxOffset < minMaxOffset {
        minMaxOffset := maxOffset;
      }
      if minMaxOffset < maxMinOffset {
        return true, NonOverlapping;
      }
      var currentError := (minMaxOffset - maxMinOffset) / 2.0;
      var tentativeSkew := (minMaxOffset + maxMinOffset) / 2.0;
      if currentError < FIX_GOOD {
        SetContSkew(tentativeSkew, currentError);
        return true, Finished;
      }
      var minSkew := tentativeSkew - currentError;
      var maxSkew := tentativeSkew + currentError;
      if contSkew < minSkew {
        SetContSkew(tentativeSkew, currentError);
      } else if contSkew > maxSkew {
        SetContSkew(tentativeSkew, currentError);
      } else if currentError < currentTimeError {
        SetContSkew(tentativeSkew, currentError);
      }
      return true, Refined;
    }

    method GetThrottleTicket(sendTime: real) returns (ticket: real)
      modifies this`throttleSendInterval, this`throttleLastTicketTime
      ensures ThrottleState() == NextTicket(old(ThrottleState()), TicketRequest(sendTime, numPacketsReceived))
      ensures ticket == throttleLastTicketTime && (numPacketsReceived < 6 ==> ticket == sendTime)
    {
      if numPacketsReceived < THROTTLE_BASE_PACKETS {
        throttleSendInterval := 0.0;
        throttleLastTicketTime := sendTime;
      } else {
        if numPacketsReceived == THROTTLE_BASE_PACKETS {
          throttleSendInterval := THROTTLE_BASE_INTERVAL;
        } else {
          throttleSendInterval := throttleSendInterval * THROTTLE_MULTIPLIER;
          if throttleSendInterval > THROTTLE_INTERVAL_MAX {
            throttleSendInterval := THROTTLE_INTERVAL_MAX;
          }
        }
        throttleLastTicketTime := throttleLastTicketTime + throttleSendInterval;
      }
      ticket := throttleLastTicketTime;
    }

    /** A whole sync on the driver itself: the reset, then packets one by one. */
    method Synchronise(packets: seq<Packet>, oldStatusValid: bool, ghost trueSkew: real)
      requires !running && -NO_BOUND <= trueSkew <= NO_BOUND && AllContain(packets, trueSkew)
      requires oldStatusValid ==> Abs(contSkew - trueSkew) <= currentTimeError
      requires forall i :: 0 <= i < |packets| ==> packets[i].maxOffset - packets[i].minOffset < 2.0 * NO_BOUND
      modifies this
      ensures Current() == AbsorbAll(Reset(old(Current()), oldStatusValid), packets)
      ensures packets != [] ==> Abs(contSkew - trueSkew) <= currentTimeError
    {
      StartSyncing(oldStatusValid, false, true);
      ghost var start := Current();
      ResetIsSound(old(Current()), oldStatusValid, trueSkew);
      for i := 0 to |packets|
        invariant Current() == AbsorbAll(start, packets[..i])
        invariant Sound(Current(), trueSkew)
        invariant i > 0 ==> Abs(contSkew - trueSkew) <= currentTimeError
      {
        PacketKeepsSound(Current(), packets[i], trueSkew);
        assert packets[..i + 1][..i] == packets[..i];
        var used, decision := GotPacket(packets[i].minOffset, packets[i].maxOffset);
        assert decision != NonOverlapping;
      }
      assert packets[..|packets|] == packets;
    }
  }
}
