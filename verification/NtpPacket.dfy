/** Receiving one NTP response (src/ESNTPDriver.cpp, ESNTPSocketDescriptor::recvPacket): matching it to a request,
    rejecting what is not credible, and turning its four timestamps into bounds on the clock offset, in the l_fp
    arithmetic of src/ntp_fp.h.  This is the on-wire calculation of section 8 of RFC 5905. */
module NtpPacket {
  import opened Common
  import opened FixedPoint
  import opened Powers
  import opened NtpEstimator

  /** An l_fp timestamp as it stands in a packet. */
  datatype Stamp = Stamp(i: Word, f: Word) {
    function Value(): int { Value64(i, f) }
  }

  datatype Response = Response(
    length: int, version: int, mode: int, stratum: int, precision: int,
    rootDelay: Word, rootDispersion: Word, org: Stamp, rec: Stamp, xmt: Stamp)

  /** `Undefined` is a precision whose power of two the code computes by a shift that C does not define; after that it
      promises nothing. */
  datatype Verdict = Credible | BadPacket | BadHost | Insane | Undefined

  /** What became of a response: not an answer to any outstanding request, rejected, or used with these bounds. */
  datatype Outcome = Unmatched | Rejected(why: Verdict) | Used(packet: Packet)

  const PACKET_LENGTH := 48
  const NTP_VERSION := 4
  const NTP_OLD_VERSION := 1
  const MODE_PASSIVE := 2
  const MODE_SERVER := 4
  const DISPERSION_REJECT: real := 0.3
  const ROOT_DELAY_REJECT: real := 1.0
  const BASE_PENALTY_STRATUM := 8
  const BASE_STRATUM_PENALTY: real := 0.5
  const PENALTY_PER_STRATUM: real := 0.25
  const RTT_FOR_BAD_PACKET: real := 1800.0
  const RTT_FOR_BAD_HOST: real := 3600.0
  const SECOND: real := 4294967296.0
  const FP_SECOND: real := 65536.0

  /** FPTOD of an unsigned 16.16 number. */
  function UnsignedFpToD(x: Word): real { x as real / FP_SECOND }

  /** The exponents for which one shifted by them is an int. */
  predicate ShiftIsDefined(exponent: int) { -31 < exponent < 31 }

  /** Two to the power of the packet's precision. */
  function Precision(exponent: int): real
    requires ShiftIsDefined(exponent)
  {
    if exponent < 0 then 1.0 / Pow2(-exponent) as real else Pow2(exponent) as real
  }

  /** The sanity checks, in the code's order. */
  function Check(r: Response): Verdict {
    if r.length != PACKET_LENGTH then BadPacket
    else if r.version < NTP_OLD_VERSION || r.version > NTP_VERSION then BadHost
    else if r.mode != MODE_SERVER && r.mode != MODE_PASSIVE then BadHost
    else if r.stratum == 0 then BadHost
    else if !ShiftIsDefined(r.precision) then Undefined
    else if Precision(r.precision) > 0.25 then BadHost
    else if UnsignedFpToD(r.rootDelay) > ROOT_DELAY_REJECT then BadHost
    else if r.rootDelay == 0 && r.stratum != 1 then BadHost
    else if UnsignedFpToD(r.rootDispersion) > DISPERSION_REJECT || r.rootDispersion <= 0 then BadHost
    else if r.rec.Value() == 0 || r.xmt.Value() < r.rec.Value() then Insane
    else Credible
  }

  lemma CredibleShiftIsDefined(r: Response)
    ensures Check(r) == Credible ==> ShiftIsDefined(r.precision)
  {
  }

  /** The server's own error: everything but the round trip. */
  function HostError(r: Response): real
    requires ShiftIsDefined(r.precision)
  {
    UnsignedFpToD(r.rootDispersion) * 1.25 + UnsignedFpToD(r.rootDelay) / 2.0 + Precision(r.precision)
    + (if r.stratum >= BASE_PENALTY_STRATUM
       then BASE_STRATUM_PENALTY + (r.stratum - BASE_PENALTY_STRATUM) as real * PENALTY_PER_STRATUM else 0.0)
  }

  // ---------------------------------------------------------------- the on-wire arithmetic

  /** The signed difference of two stamps, as 64-bit subtraction gives it. */
  function Difference(a: int, b: int): int { TwosComplement((a - b) % W64, W64) }

  /** Half the sum of the two one-way differences, each halved first. */
  function OffsetUnits(d10: int, d23: int): int { TwosComplement((d10 / 2 + d23 / 2) % W64, W64) }

  /** 2^-32 s units to seconds as LFPTOD does it: the most negative number comes out positive. */
  function UnitsToSeconds(units: int): real {
    if units == -W63 then W31 as real else units as real / SECOND
  }

  /** The round trip, reduced to 16.16 by LFPTOFP. */
  function RoundTrip(d10: int, d23: int): int {
    var v := (d23 - d10) % W64;
    SignedFp(LFpToFp(v / W32, v % W32))
  }

  function Bounds(d10: int, d23: int, hostError: real): Packet {
    var offset := UnitsToSeconds(OffsetUnits(d10, d23));
    var error := RoundTrip(d10, d23) as real / FP_SECOND / 2.0 + hostError;
    Packet(offset - error, offset + error)
  }

  lemma SplitWords(i: Word, f: Word)
    ensures Value64(i, f) / W32 == i && Value64(i, f) % W32 == f
    ensures 0 <= Value64(i, f) < W64
  {
  }

  lemma LFpToDOfSigned(i: Word, f: Word)
    ensures LFpToD(i, f) == UnitsToSeconds(Signed64(i, f))
  {
    LFpToDExactly(i, f);
    if Signed64(i, f) == -W63 {
      assert i == W31 && f == 0;
    }
  }

  lemma SignedOfRemainder(i: Word, f: Word, x: int)
    requires Value64(i, f) == x % W64
    ensures Signed64(i, f) == TwosComplement(x % W64, W64)
  {
  }

  /** Sums of signed readings agree with sums of the words they were read from. */
  lemma SignedSum(a: int, b: int, x: int, y: int)
    requires a % W64 == x % W64 && b % W64 == y % W64
    ensures (a + b) % W64 == (x + y) % W64 && (a - b) % W64 == (x - y) % W64
  {
    var p, q := a / W64 - x / W64, b / W64 - y / W64;
    assert a == x + p * W64 && b == y + q * W64;
    ShiftByWraps(x + y, p + q);
    ShiftByWraps(x - y, p - q);
  }

  lemma ShiftByWraps(x: int, k: int)
    ensures (x + k * W64) % W64 == x % W64
  {
    RemainderIs(x + k * W64, W64, x / W64 + k, x % W64);
  }

  lemma SignedIsCongruent(i: Word, f: Word)
    ensures Signed64(i, f) % W64 == Value64(i, f) % W64
  {
    if Value64(i, f) >= W63 {
      ShiftByWraps(Value64(i, f), -1);
    }
  }

  /** Subtract two stamps. */
  method Subtract(a: Stamp, b: Stamp) returns (t: LFp)
    ensures fresh(t) && t.Signed() == Difference(a.Value(), b.Value())
  {
    t := new LFp(a.i, a.f);
    var u := new LFp(b.i, b.f);
    t.Sub(u);
    SignedOfRemainder(t.ui, t.uf, a.Value() - b.Value());
  }

  /** The offset: both differences shifted right, then added. */
  method HalfSum(t10: LFp, t23: LFp) returns (offset: real)
    ensures offset == UnitsToSeconds(OffsetUnits(t10.Signed(), t23.Signed()))
  {
    hide UnitsToSeconds, LFpToD, TwosComplement;
    var ci := new LFp(t10.ui, t10.uf);
    ci.RShift();
    var tmp := new LFp(t23.ui, t23.uf);
    tmp.RShift();
    SignedIsCongruent(ci.ui, ci.uf);
    SignedIsCongruent(tmp.ui, tmp.uf);
    ghost var c, t := ci.Value(), tmp.Value();
    SignedSum(c, t, t10.Signed() / 2, t23.Signed() / 2);
    ci.Add(tmp);
    SignedOfRemainder(ci.ui, ci.uf, t10.Signed() / 2 + t23.Signed() / 2);
    LFpToDOfSigned(ci.ui, ci.uf);
    offset := LFpToD(ci.ui, ci.uf);
  }

  /** The round trip: the differences subtracted in full precision, then truncated. */
  method TruncatedRoundTrip(t10: LFp, t23: LFp) returns (di: int)
    requires t10 != t23
    modifies t23
    ensures di == RoundTrip(old(t10.Signed()), old(t23.Signed()))
  {
    hide LFpToFp, SignedFp, TwosComplement;
    SignedIsCongruent(t10.ui, t10.uf);
    SignedIsCongruent(t23.ui, t23.uf);
    SignedSum(t23.Value(), t10.Value(), t23.Signed(), t10.Signed());
    t23.Sub(t10);
    SplitWords(t23.ui, t23.uf);
    di := SignedFp(LFpToFp(t23.ui, t23.uf));
  }

  /** The in-place sequence of l_fp operations computes the bounds. */
  method ComputeBounds(recv: Stamp, org: Stamp, rec: Stamp, xmt: Stamp, hostError: real) returns (p: Packet)
    ensures p == Bounds(Difference(xmt.Value(), recv.Value()), Difference(rec.Value(), org.Value()), hostError)
  {
    hide UnitsToSeconds, OffsetUnits, RoundTrip, Difference;
    var t10 := Subtract(xmt, recv);
    var t23 := Subtract(rec, org);
    var offset := HalfSum(t10, t23);
    var di := TruncatedRoundTrip(t10, t23);
    var error := di as real / FP_SECOND / 2.0 + hostError;
    p := Packet(offset - error, offset + error);
  }

  // ---------------------------------------------------------------- the bounds hold the truth

  /** The four moments of an exchange on unwrapped clocks, in units of 2^-32 s: sent and answered by the client's clock,
      received and replied to by the server's. */
  datatype Exchange = Exchange(sent: int, serverReceived: int, serverSent: int, received: int)

  function ForwardDifference(x: Exchange): int { x.serverReceived - x.sent }
  function BackwardDifference(x: Exchange): int { x.serverSent - x.received }

  /** With the server's clock ahead by `offset` seconds, neither leg took negative time. */
  predicate Causal(x: Exchange, offset: real) {
    BackwardDifference(x) as real <= offset * SECOND <= ForwardDifference(x) as real
  }

  /** Both differences fit an l_fp and the round trip is under 32768 s. */
  predicate InRange(x: Exchange) {
    && -W63 <= BackwardDifference(x) < W63 && -W63 <= ForwardDifference(x) < W63
    && ForwardDifference(x) - BackwardDifference(x) < 0x8000 * W32
  }

  predicate Stamped(x: Exchange, recv: Stamp, r: Response) {
    && r.org.Value() == x.sent % W64 && r.rec.Value() == x.serverReceived % W64
    && r.xmt.Value() == x.serverSent % W64 && recv.Value() == x.received % W64
  }

  lemma DifferenceIsExact(a: int, b: int, wa: int, wb: int)
    requires wa == a % W64 && wb == b % W64 && -W63 <= a - b < W63
    ensures Difference(wa, wb) == a - b
  {
    RemainderIs(wa, W64, 0, wa);
    RemainderIs(wb, W64, 0, wb);
    SignedSum(wa, wb, a, b);
    var k := if a - b < 0 then -1 else 0;
    RemainderIs(a - b, W64, k, a - b - k * W64);
  }

  lemma OffsetIsMidpoint(d10: int, d23: int)
    requires -W63 <= d10 <= d23 < W63
    ensures OffsetUnits(d10, d23) == d10 / 2 + d23 / 2
    ensures d10 + d23 - 2 <= 2 * OffsetUnits(d10, d23) <= d10 + d23
    ensures OffsetUnits(d10, d23) == -W63 <==> d23 <= -W63 + 1
  {
    var s := d10 / 2 + d23 / 2;
    var k := if s < 0 then -1 else 0;
    RemainderIs(s, W64, k, s - k * W64);
  }

  lemma RoundTripIsTruncated(d10: int, d23: int)
    requires 0 <= d23 - d10 < 0x8000 * W32
    ensures RoundTrip(d10, d23) == (d23 - d10) / W16
  {
    var v := d23 - d10;
    RemainderIs(v, W64, 0, v);
    assert v / W32 < 0x8000;
    LFpToFpTruncatesExactly(v / W32, v % W32);
    assert Value64(v / W32, v % W32) == v;
  }

  lemma HostErrorCoversTruncation(r: Response)
    requires Check(r) == Credible && 0 <= r.stratum <= 255
    ensures 1.25 / FP_SECOND < HostError(r) < 64.0
  {
    assert Precision(r.precision) > 0.0;
    assert UnsignedFpToD(r.rootDispersion) >= 1.0 / FP_SECOND;
  }

  /** A credible packet's bounds contain the server's true offset, in spite of the two right shifts and the truncated
      round trip, because the rejected zero dispersion leaves an error term larger than what they lose.  The one
      exception is an offset at the very bottom of the l_fp range, where the sign of the midpoint is lost. */
  lemma BoundsContainOffsetExactly(x: Exchange, offset: real, recv: Stamp, r: Response)
    requires Causal(x, offset) && InRange(x) && Stamped(x, recv, r)
    requires Check(r) == Credible && 0 <= r.stratum <= 255
    ensures Contains(Bounds(Difference(r.xmt.Value(), recv.Value()), Difference(r.rec.Value(), r.org.Value()),
                            HostError(r)), offset)
       <==> ForwardDifference(x) > -W63 + 1
    ensures var p := Bounds(Difference(r.xmt.Value(), recv.Value()), Difference(r.rec.Value(), r.org.Value()),
                            HostError(r));
            p.maxOffset - p.minOffset < 33000.0
  {
    assert ShiftIsDefined(r.precision);
    hide OffsetUnits, RoundTrip, HostError, Check, Difference;
    var d10, d23 := BackwardDifference(x), ForwardDifference(x);
    DifferenceIsExact(x.serverSent, x.received, r.xmt.Value(), recv.Value());
    DifferenceIsExact(x.serverReceived, x.sent, r.rec.Value(), r.org.Value());
    OffsetIsMidpoint(d10, d23);
    RoundTripIsTruncated(d10, d23);
    HostErrorCoversTruncation(r);
    ErrorCoversRounding(d10, d23, offset, HostError(r));
  }

  /** Both clocks differ by the whole range: the server's is 2^31 s behind, the exchange instantaneous. */
  lemma BottomOfRangeExample()
    ensures var x := Exchange(W63, 1, 1, W63 + 1);
            var recv, offset := Stamp(W31, 1), -2147483648.0;
            var r := Response(PACKET_LENGTH, NTP_VERSION, MODE_SERVER, 2, -6, 1, 1, Stamp(W31, 0), Stamp(0, 1),
                              Stamp(0, 1));
            && Check(r) == Credible && Stamped(x, recv, r) && InRange(x) && Causal(x, offset)
            && !Contains(Bounds(Difference(r.xmt.Value(), recv.Value()), Difference(r.rec.Value(), r.org.Value()),
                                HostError(r)), offset)
  {
    var x := Exchange(W63, 1, 1, W63 + 1);
    var recv := Stamp(W31, 1);
    var r := Response(PACKET_LENGTH, NTP_VERSION, MODE_SERVER, 2, -6, 1, 1, Stamp(W31, 0), Stamp(0, 1), Stamp(0, 1));
    assert Pow2(6) == 64;
    assert Stamped(x, recv, r);
    hide Bounds, Difference, HostError;
    BoundsContainOffsetExactly(x, -2147483648.0, recv, r);
  }

  /** The arithmetic of the margin: shifts lose at most two units, truncation at most 2^-17 s of the half round trip. */
  lemma ErrorCoversRounding(d10: int, d23: int, offset: real, hostError: real)
    requires d10 as real <= offset * SECOND <= d23 as real && -W63 <= d10 <= d23 < W63
    requires d23 - d10 < 0x8000 * W32 && RoundTrip(d10, d23) == (d23 - d10) / W16
    requires d10 + d23 - 2 <= 2 * OffsetUnits(d10, d23) <= d10 + d23
    requires OffsetUnits(d10, d23) == -W63 <==> d23 <= -W63 + 1
    requires 1.25 / FP_SECOND < hostError < 64.0
    ensures Contains(Bounds(d10, d23, hostError), offset) <==> d23 > -W63 + 1
    ensures Bounds(d10, d23, hostError).maxOffset - Bounds(d10, d23, hostError).minOffset < 33000.0
  {
    hide OffsetUnits, RoundTrip;
    var rtt := RoundTrip(d10, d23);
    var units := OffsetUnits(d10, d23);
    assert rtt * W16 <= d23 - d10 < rtt * W16 + W16;
    var error := rtt as real / FP_SECOND / 2.0 + hostError;
    assert error * SECOND >= (rtt * 32768) as real + 81920.0;
    assert 0.0 < error < 16448.0;
    if d23 > -W63 + 1 {
      assert UnitsToSeconds(units) * SECOND == units as real;
    } else {
      assert UnitsToSeconds(units) == 2147483648.0;
      assert offset < 0.0;
    }
  }

  predicate Tight(d10: int, d23: int, hostError: real, p: Packet) {
    var width, most := p.maxOffset - p.minOffset, (d23 - d10) as real / SECOND + 2.0 * hostError;
    && most - 1.0 / FP_SECOND < width <= most
    && (d23 > -W63 + 1 ==> -2.0 / SECOND <= p.maxOffset + p.minOffset - (d23 + d10) as real / SECOND <= 0.0)
  }

  /** The bounds are as tight as the exchange allows: their width is the round trip and twice the server's error, less
      than 2^-16 s short of it, and their middle is within a unit of the mean of the two differences. */
  lemma BoundsAreTight(x: Exchange, recv: Stamp, r: Response)
    requires InRange(x) && Stamped(x, recv, r) && BackwardDifference(x) <= ForwardDifference(x)
    requires ShiftIsDefined(r.precision)
    ensures Tight(BackwardDifference(x), ForwardDifference(x), HostError(r),
                  Bounds(Difference(r.xmt.Value(), recv.Value()), Difference(r.rec.Value(), r.org.Value()),
                         HostError(r)))
  {
    hide OffsetUnits, RoundTrip, HostError, Difference, Bounds, Tight;
    var d10, d23 := BackwardDifference(x), ForwardDifference(x);
    DifferenceIsExact(x.serverSent, x.received, r.xmt.Value(), recv.Value());
    DifferenceIsExact(x.serverReceived, x.sent, r.rec.Value(), r.org.Value());
    OffsetIsMidpoint(d10, d23);
    RoundTripIsTruncated(d10, d23);
    WidthAndMiddle(d10, d23, HostError(r));
  }

  lemma WidthAndMiddle(d10: int, d23: int, hostError: real)
    requires -W63 <= d10 <= d23 < W63 && RoundTrip(d10, d23) == (d23 - d10) / W16
    requires d10 + d23 - 2 <= 2 * OffsetUnits(d10, d23) <= d10 + d23
    requires OffsetUnits(d10, d23) == -W63 <==> d23 <= -W63 + 1
    ensures Tight(d10, d23, hostError, Bounds(d10, d23, hostError))
  {
    hide OffsetUnits, RoundTrip;
    var rtt, units := RoundTrip(d10, d23), OffsetUnits(d10, d23);
    assert rtt * W16 <= d23 - d10 < rtt * W16 + W16;
    var p := Bounds(d10, d23, hostError);
    assert p.maxOffset - p.minOffset == rtt as real / FP_SECOND + 2.0 * hostError;
    assert (rtt * W16) as real / SECOND == rtt as real / FP_SECOND;
    assert (rtt * W16 + W16) as real / SECOND == rtt as real / FP_SECOND + 1.0 / FP_SECOND;
    assert d23 > -W63 + 1 ==> p.maxOffset + p.minOffset == (2 * units) as real / SECOND;
  }

  // ---------------------------------------------------------------- what the server's own error stands for

  /** UTC is within a packet's bounds whenever the server's clock is off by no more than the server's error term leaves
      after rounding: half a unit of 2^-16 s. */
  lemma BoundsContainUtc(x: Exchange, offset: real, utcOffset: real, recv: Stamp, r: Response)
    requires Causal(x, offset) && InRange(x) && Stamped(x, recv, r) && ForwardDifference(x) > -W63 + 1
    requires ShiftIsDefined(r.precision) && Abs(utcOffset - offset) <= HostError(r) - 32768.0 / SECOND
    ensures Contains(Bounds(Difference(r.xmt.Value(), recv.Value()), Difference(r.rec.Value(), r.org.Value()),
                            HostError(r)), utcOffset)
  {
    hide OffsetUnits, RoundTrip, HostError, Difference;
    var d10, d23 := BackwardDifference(x), ForwardDifference(x);
    DifferenceIsExact(x.serverSent, x.received, r.xmt.Value(), recv.Value());
    DifferenceIsExact(x.serverReceived, x.sent, r.rec.Value(), r.org.Value());
    OffsetIsMidpoint(d10, d23);
    RoundTripIsTruncated(d10, d23);
    MarginCoversUtc(d10, d23, offset, utcOffset, HostError(r));
  }

  lemma MarginCoversUtc(d10: int, d23: int, offset: real, utcOffset: real, hostError: real)
    requires d10 as real <= offset * SECOND <= d23 as real && -W63 + 1 < d23 && d10 <= d23
    requires RoundTrip(d10, d23) == (d23 - d10) / W16
    requires OffsetUnits(d10, d23) == d10 / 2 + d23 / 2 != -W63
    requires Abs(utcOffset - offset) <= hostError - 32768.0 / SECOND
    ensures Contains(Bounds(d10, d23, hostError), utcOffset)
  {
    hide OffsetUnits, RoundTrip;
    var rtt, units := (d23 - d10) / W16, d10 / 2 + d23 / 2;
    RoundingLoses(d10, d23);
    var p := Bounds(d10, d23, hostError);
    assert p.maxOffset * SECOND == units as real + (rtt * 32768) as real + hostError * SECOND;
    assert p.minOffset * SECOND == units as real - (rtt * 32768) as real - hostError * SECOND;
    hide Bounds;
  }

  /** Halving both differences and truncating the round trip. */
  lemma RoundingLoses(d10: int, d23: int)
    ensures 2 * d23 <= 2 * (d10 / 2 + d23 / 2) + (d23 - d10) / W16 * W16 + 65536
    ensures 2 * d10 >= 2 * (d10 / 2 + d23 / 2) - (d23 - d10) / W16 * W16 - 65535
  {
    var rtt, units := (d23 - d10) / W16, d10 / 2 + d23 / 2;
    assert d10 + d23 - 2 <= 2 * units <= d10 + d23;
    assert rtt * W16 <= d23 - d10 <= rtt * W16 + W16 - 1;
    if 2 * units == d10 + d23 - 2 {
      assert d23 - d10 == 2 * (units + 1 - d10);
    }
  }

  /** An exchange with a server that is off from UTC by at most what it says, half its root delay and its root
      dispersion. */
  ghost predicate Honest(x: Exchange, offset: real, utcOffset: real, recv: Stamp, r: Response) {
    && Causal(x, offset) && InRange(x) && Stamped(x, recv, r) && ForwardDifference(x) > -W63 + 1
    && Check(r) == Credible
    && Abs(utcOffset - offset) <= UnsignedFpToD(r.rootDelay) / 2.0 + UnsignedFpToD(r.rootDispersion)
  }

  ghost predicate BoundsUtc(utcOffset: real, recv: Stamp, r: Response)
    requires ShiftIsDefined(r.precision)
  {
    Contains(Bounds(Difference(r.xmt.Value(), recv.Value()), Difference(r.rec.Value(), r.org.Value()), HostError(r)),
             utcOffset)
  }

  /** Two responses that differ in their stamps only. */
  predicate SameServer(r: Response, s: Response) { s == r.(org := s.org, rec := s.rec, xmt := s.xmt) }

  /** Such responses always bound UTC exactly if they state more than the least dispersion, or no better a precision
      than 2^-18 s, or a stratum that is penalised. */
  lemma HonestServerBoundsUtcExactly(r: Response)
    requires Check(r) == Credible
    ensures (forall s, x, offset, utcOffset, recv ::
               SameServer(r, s) && Honest(x, offset, utcOffset, recv, s) ==>
                 ShiftIsDefined(s.precision) && BoundsUtc(utcOffset, recv, s))
       <==> r.rootDispersion >= 2 || r.precision >= -18 || r.stratum >= 8
  {
    hide BoundsUtc, Honest, Check;
    if r.rootDispersion >= 2 || r.precision >= -18 || r.stratum >= 8 {
      forall s, x, offset, utcOffset, recv | SameServer(r, s) && Honest(x, offset, utcOffset, recv, s)
        ensures ShiftIsDefined(s.precision) && BoundsUtc(utcOffset, recv, s)
      {
        HonestServerBoundsUtc(x, offset, utcOffset, recv, s);
      }
    } else {
      CheckExactly(r);
      var s := HonestServerMayMiss(r);
    }
  }

  lemma HonestServerBoundsUtc(x: Exchange, offset: real, utcOffset: real, recv: Stamp, r: Response)
    requires Honest(x, offset, utcOffset, recv, r)
    requires r.rootDispersion >= 2 || r.precision >= -18 || r.stratum >= 8
    ensures ShiftIsDefined(r.precision) && BoundsUtc(utcOffset, recv, r)
  {
    ErrorExceedsStated(r);
    hide HostError, Bounds, Difference, Check, InRange, Stamped, Causal;
    BoundsContainUtc(x, offset, utcOffset, recv, r);
  }

  /** Otherwise there is an exchange, over in 2^-16 s, in which the server is off by all it says and UTC is outside. */
  lemma HonestServerMayMiss(r: Response) returns (s: Response)
    requires Check(r) == Credible && r.rootDispersion == 1 && r.precision <= -19 && r.stratum < 8
    ensures SameServer(r, s) && ShiftIsDefined(s.precision)
    ensures var x := Exchange(W63, W63 + 65535, W63 + 65535, W63 + 65535);
            var (offset, utcOffset) := (65535.0 / SECOND, 131071.0 / SECOND + UnsignedFpToD(s.rootDelay) / 2.0);
            Honest(x, offset, utcOffset, Stamp(W31, 65535), s) && !BoundsUtc(utcOffset, Stamp(W31, 65535), s)
  {
    s := r.(org := Stamp(W31, 0), rec := Stamp(W31, 65535), xmt := Stamp(W31, 65535));
    assert ShiftIsDefined(r.precision);
    PrecisionIs(r.precision);
    hide Precision;
    var d10, d23 := Difference(W63 + 65535, W63 + 65535), Difference(W63 + 65535, W63);
    assert d10 == 0 && d23 == 65535;
    RoundTripIsTruncated(0, 65535);
    OffsetIsMidpoint(0, 65535);
  }

  lemma ErrorExceedsStated(r: Response)
    requires Check(r) == Credible && (r.rootDispersion >= 2 || r.precision >= -18 || r.stratum >= 8)
    ensures ShiftIsDefined(r.precision)
    ensures UnsignedFpToD(r.rootDelay) / 2.0 + UnsignedFpToD(r.rootDispersion) <= HostError(r) - 32768.0 / SECOND
  {
    PrecisionIs(r.precision);
    assert r.rootDispersion >= 1;
    hide Precision;
  }

  lemma PrecisionIs(e: int)
    requires -31 < e < 31
    ensures Precision(e) >= 4.0 / SECOND
    ensures e >= -18 ==> Precision(e) >= 16384.0 / SECOND
    ensures e <= -19 ==> Precision(e) <= 8192.0 / SECOND
    ensures Precision(e) <= 0.25 <==> e <= -2
  {
    SomePowers();
    hide Pow2;
    if e < 0 {
      PowersAscend(-e, 30);
      if e >= -18 {
        PowersAscend(-e, 18);
        Reciprocal(262144, Pow2(-e));
      } else {
        PowersAscend(19, -e);
        Reciprocal(Pow2(-e), 524288);
      }
      if e <= -2 {
        PowersAscend(2, -e);
        Reciprocal(Pow2(-e), 4);
      } else {
        assert e == -1;
      }
      Reciprocal(1073741824, Pow2(-e));
    } else {
      PowersAscend(0, e);
    }
  }

  lemma SomePowers()
    ensures Pow2(0) == 1 && Pow2(1) == 2 && Pow2(2) == 4 && Pow2(18) == 262144 && Pow2(19) == 524288
    ensures Pow2(30) == 1073741824
  {
    assert Pow2(10) == 1024 && Pow2(20) == 1048576;
  }

  lemma Reciprocal(a: int, b: int)
    requires 0 < b <= a
    ensures 1.0 / a as real <= 1.0 / b as real
  {
  }

  lemma {:induction false} PowersAscend(a: nat, b: nat)
    requires a <= b
    ensures 1 <= Pow2(a) <= Pow2(b)
    decreases b
  {
    if a < b {
      PowersAscend(a, b - 1);
    } else if a > 0 {
      PowersAscend(a - 1, a - 1);
    }
  }

  /** What makes a server's error: a nearby server with a perfect clock has only its precision; two units of root delay
      add one of 2^-16 s, four of dispersion add five; beyond stratum 7 there is half a second more, and a quarter for
      each further stratum. */
  lemma HostErrorAddsUp(r: Response)
    requires ShiftIsDefined(r.precision)
    ensures HostError(r.(rootDelay := 0, rootDispersion := 0, stratum := 1))
            == if r.precision < 0 then 1.0 / Pow2(-r.precision) as real else Pow2(r.precision) as real
    ensures r.rootDelay + 2 < W32 ==> HostError(r.(rootDelay := r.rootDelay + 2)) - HostError(r) == 1.0 / 65536.0
    ensures r.rootDispersion + 4 < W32 ==>
              HostError(r.(rootDispersion := r.rootDispersion + 4)) - HostError(r) == 5.0 / 65536.0
    ensures HostError(r.(stratum := r.stratum + 1)) - HostError(r)
            == if r.stratum > 7 then 0.25 else if r.stratum == 7 then 0.5 else 0.0
  {
  }

  // ---------------------------------------------------------------- which responses are credible

  /** In terms of the packet's own fields. */
  lemma CheckExactly(r: Response)
    ensures Check(r) == BadPacket <==> r.length != 48
    ensures Check(r) == Credible
       <==> && r.length == 48 && 1 <= r.version <= 4 && (r.mode == 4 || r.mode == 2) && r.stratum != 0
            && -30 <= r.precision <= -2 && r.rootDelay <= 65536 && (r.rootDelay > 0 || r.stratum == 1)
            && 0 < r.rootDispersion <= 19660
            && r.rec.Value() > 0 && r.xmt.Value() >= r.rec.Value()
    ensures Check(r) == Insane
       <==> && r.length == 48 && 1 <= r.version <= 4 && (r.mode == 4 || r.mode == 2) && r.stratum != 0
            && -30 <= r.precision <= -2 && r.rootDelay <= 65536 && (r.rootDelay > 0 || r.stratum == 1)
            && 0 < r.rootDispersion <= 19660
            && (r.rec.Value() == 0 || r.xmt.Value() < r.rec.Value())
  {
    if ShiftIsDefined(r.precision) {
      PrecisionIs(r.precision);
    }
    hide Precision;
  }

  /** Within one era of the server's clock, a response that passes was not sent before its request was received; and one
      that says so is refused. */
  lemma CredibleServerRunsForward(x: Exchange, recv: Stamp, r: Response)
    requires Stamped(x, recv, r) && x.serverReceived / W64 == x.serverSent / W64
    ensures Check(r) == Credible ==> x.serverReceived <= x.serverSent
    ensures x.serverSent < x.serverReceived ==> Check(r) != Credible
    ensures Check(r) == Insane ==> x.serverSent < x.serverReceived || x.serverReceived % W64 == 0
  {
    CheckExactly(r);
    hide Check;
    assert x.serverSent == x.serverSent / W64 * W64 + x.serverSent % W64;
    assert x.serverReceived == x.serverReceived / W64 * W64 + x.serverReceived % W64;
  }

  // ---------------------------------------------------------------- the socket

  /** The list without its first occurrence of a stamp. */
  function RemoveFirst(xs: seq<Stamp>, x: Stamp): seq<Stamp> {
    if xs == [] then []
    else if xs[0] == x then xs[1..]
    else [xs[0]] + RemoveFirst(xs[1..], x)
  }

  /** Exactly one occurrence goes. */
  lemma {:induction false} RemoveFirstCounts(xs: seq<Stamp>, x: Stamp)
    requires x in xs
    ensures multiset(RemoveFirst(xs, x)) == multiset(xs) - multiset{x}
  {
    assert xs == [xs[0]] + xs[1..];
    if xs[0] != x {
      RemoveFirstCounts(xs[1..], x);
    }
  }

  lemma {:induction false} RemoveFirstAt(xs: seq<Stamp>, k: nat)
    requires k < |xs| && xs[k] !in xs[..k]
    ensures RemoveFirst(xs, xs[k]) == xs[..k] + xs[k + 1..]
  {
    if k > 0 {
      assert xs[1..][..k - 1] == xs[..k][1..];
      assert xs[0] == xs[..k][0];
      RemoveFirstAt(xs[1..], k - 1);
      assert xs[..k] + xs[k + 1..] == [xs[0]] + (xs[1..][..k - 1] + xs[1..][k..]);
    }
  }

  class SocketDescriptor {
    /** The stamps of requests not yet answered, newest first. */
    var xmitTimes: seq<Stamp>
    var packetsReceived: int
    var packetsUsed: int
    var sumRtt: real
    var averageRtt: real
    var skewLB: real
    var skewUB: real
    var nonRttError: real

    ghost predicate Valid()
      reads this
    {
      packetsReceived >= 0
    }

    constructor ()
      ensures Valid() && xmitTimes == [] && skewLB == -1000000.0 && skewUB == 1000000.0
    {
      xmitTimes, packetsReceived, packetsUsed, sumRtt, averageRtt := [], 0, 0, 0.0, 0.0;
      skewLB, skewUB, nonRttError := -1000000.0, 1000000.0, 0.0;
    }

    /** Sending a request notes its stamp at the front of the list. */
    method SendPacket(now: Stamp)
      modifies this`xmitTimes
      ensures xmitTimes == [now] + old(xmitTimes)
    {
      xmitTimes := [now] + xmitTimes;
    }

    /** Walk the list for a stamp and unlink it. */
    method TakeXmitTime(org: Stamp) returns (found: bool)
      modifies this`xmitTimes
      ensures found <==> org in old(xmitTimes)
      ensures found ==> multiset(xmitTimes) == old(multiset(xmitTimes)) - multiset{org}
      ensures xmitTimes == (if found then RemoveFirst(old(xmitTimes), org) else old(xmitTimes))
    {
      var k := 0;
      while k < |xmitTimes| && xmitTimes[k] != org
        invariant 0 <= k <= |xmitTimes|
        invariant xmitTimes == old(xmitTimes)
        invariant org !in xmitTimes[..k]
      {
        k := k + 1;
      }
      if k == |xmitTimes| {
        return false;
      }
      RemoveFirstAt(xmitTimes, k);
      RemoveFirstCounts(xmitTimes, org);
      xmitTimes := xmitTimes[..k] + xmitTimes[k + 1..];
      return true;
    }

    method NoteBounds(p: Packet, hostError: real, polling: bool)
      modifies this`skewLB, this`skewUB, this`nonRttError
      ensures skewLB == (if polling then p.minOffset else Max(old(skewLB), p.minOffset))
      ensures skewUB == (if polling then p.maxOffset else Min(old(skewUB), p.maxOffset))
      ensures nonRttError == (if skewLB != old(skewLB) || skewUB != old(skewUB) || polling
                              then hostError else old(nonRttError))
    {
      if polling {
        nonRttError := hostError;
        skewLB := p.minOffset;
        skewUB := p.maxOffset;
      } else {
        if p.minOffset > skewLB {
          skewLB := p.minOffset;
          nonRttError := hostError;
        }
        if p.maxOffset < skewUB {
          skewUB := p.maxOffset;
          nonRttError := hostError;
        }
      }
    }

    /** The branch for a credible response: its bounds go to the socket's own record and to the driver.  The driver
        always says it uses them, so the count is never taken back. */
    method Accept(driver: NtpDriver, r: Response, recv: Stamp, polling: bool) returns (p: Packet)
      requires packetsReceived > 0 && ShiftIsDefined(r.precision)
      modifies `packetsUsed, `sumRtt, `averageRtt, `skewLB, `skewUB, `nonRttError
      modifies driver`maxMinOffset, driver`minMaxOffset, driver`contSkew, driver`currentTimeError
      ensures nonRttError == (if skewLB != old(skewLB) || skewUB != old(skewUB) || polling
                              then HostError(r) else old(nonRttError))
      ensures p == Bounds(Difference(r.xmt.Value(), recv.Value()), Difference(r.rec.Value(), r.org.Value()),
                          HostError(r))
      ensures driver.Current() == Absorb(old(driver.Current()), p)
      ensures packetsUsed == old(packetsUsed) + 1
      ensures sumRtt == old(sumRtt) + (p.maxOffset - p.minOffset) && averageRtt == sumRtt / packetsReceived as real
      ensures skewLB == (if polling then p.minOffset else Max(old(skewLB), p.minOffset))
      ensures skewUB == (if polling then p.maxOffset else Min(old(skewUB), p.maxOffset))
    {
      hide Precision, HostError, Difference, Bounds, Absorb, Decide;
      var hostError := HostError(r);
      p := ComputeBounds(recv, r.org, r.rec, r.xmt, hostError);
      NoteBounds(p, hostError, polling);
      packetsUsed := packetsUsed + 1;
      sumRtt := sumRtt + (p.maxOffset - p.minOffset);
      averageRtt := sumRtt / packetsReceived as real;
      var used, decision := driver.GotPacket(p.minOffset, p.maxOffset);
      packetsUsed := if used then packetsUsed else packetsUsed - 1;
    }

    /** The branches for responses that are not: packet or host is marked bad, or nothing happens. */
    method Screen(r: Response) returns (verdict: Verdict)
      modifies `averageRtt
      ensures verdict == Check(r)
      ensures averageRtt == (if verdict.BadPacket? then RTT_FOR_BAD_PACKET
                             else if verdict.BadHost? then RTT_FOR_BAD_HOST else old(averageRtt))
    {
      hide Precision;
      if r.length != PACKET_LENGTH {
        averageRtt := RTT_FOR_BAD_PACKET;
        return BadPacket;
      }
      if r.version < NTP_OLD_VERSION || r.version > NTP_VERSION || (r.mode != MODE_SERVER && r.mode != MODE_PASSIVE)
         || r.stratum == 0 {
        averageRtt := RTT_FOR_BAD_HOST;
        return BadHost;
      }
      if !ShiftIsDefined(r.precision) {
        return Undefined;
      }
      if Precision(r.precision) > 0.25 || UnsignedFpToD(r.rootDelay) > ROOT_DELAY_REJECT
         || (r.rootDelay == 0 && r.stratum != 1)
         || UnsignedFpToD(r.rootDispersion) > DISPERSION_REJECT || r.rootDispersion <= 0 {
        averageRtt := RTT_FOR_BAD_HOST;
        return BadHost;
      }
      if r.rec.Value() == 0 || r.xmt.Value() < r.rec.Value() {
        return Insane;
      }
      return Credible;
    }

    /** One response: it is used exactly when it answers an outstanding request and is credible, each request can be
        answered once, and the driver is handed the bounds of the on-wire calculation. */
    method RecvPacket(driver: NtpDriver, r: Response, recv: Stamp, polling: bool) returns (outcome: Outcome)
      requires Valid()
      modifies this
      modifies driver`maxMinOffset, driver`minMaxOffset, driver`contSkew, driver`currentTimeError
      modifies driver`numPacketsReceived
      ensures Valid()
      ensures outcome.Unmatched? <==> r.org !in old(xmitTimes)
      ensures outcome.Unmatched? ==>
                && xmitTimes == old(xmitTimes) && packetsReceived == old(packetsReceived)
                && driver.numPacketsReceived == old(driver.numPacketsReceived) && averageRtt == old(averageRtt)
      ensures !outcome.Unmatched? ==> xmitTimes == RemoveFirst(old(xmitTimes), r.org)
      ensures r.org in old(xmitTimes) ==>
                && multiset(xmitTimes) == old(multiset(xmitTimes)) - multiset{r.org}
                && packetsReceived == old(packetsReceived) + 1
                && driver.numPacketsReceived == old(driver.numPacketsReceived) + 1
                && (outcome.Used? <==> Check(r) == Credible)
                && (outcome.Rejected? ==> outcome.why == Check(r))
      ensures outcome.Used? ==>
                && outcome.packet == Bounds(Difference(r.xmt.Value(), recv.Value()),
                                            Difference(r.rec.Value(), r.org.Value()), HostError(r))
                && driver.Current() == Absorb(old(driver.Current()), outcome.packet)
                && packetsUsed == old(packetsUsed) + 1
                && sumRtt == old(sumRtt) + (outcome.packet.maxOffset - outcome.packet.minOffset)
                && averageRtt == sumRtt / packetsReceived as real
                && nonRttError == (if skewLB != old(skewLB) || skewUB != old(skewUB) || polling
                                   then HostError(r) else old(nonRttError))
                && skewLB == (if polling then outcome.packet.minOffset else Max(old(skewLB), outcome.packet.minOffset))
                && skewUB == (if polling then outcome.packet.maxOffset else Min(old(skewUB), outcome.packet.maxOffset))
      ensures !outcome.Used? && outcome != Rejected(Undefined) ==>
                && driver.Current() == old(driver.Current())
                && packetsUsed == old(packetsUsed) && sumRtt == old(sumRtt)
                && skewLB == old(skewLB) && skewUB == old(skewUB) && nonRttError == old(nonRttError)
      ensures outcome == Rejected(Insane) ==> averageRtt == old(averageRtt)
      ensures outcome == Rejected(BadHost) ==> averageRtt == 3600.0
      ensures outcome == Rejected(BadPacket) ==> averageRtt == 1800.0
    {
      CredibleShiftIsDefined(r);
      hide Check, Precision, HostError, Difference, Bounds, Absorb, RemoveFirst, Max, Min;
      var found := TakeXmitTime(r.org);
      if !found {
        return Unmatched;
      }
      packetsReceived := packetsReceived + 1;
      driver.numPacketsReceived := driver.numPacketsReceived + 1;
      var verdict := Screen(r);
      if verdict != Credible {
        return Rejected(verdict);
      }
      var p := Accept(driver, r, recv, polling);
      outcome := Used(p);
    }
  }

  /** A response with non-negative one-way delays keeps the driver's estimate sound; one that is used makes the error
      bar hold, whatever was known before. */
  method ReceiveTrueAnswer(s: SocketDescriptor, driver: NtpDriver, r: Response, recv: Stamp, polling: bool,
                           ghost x: Exchange, ghost offset: real)
    requires s.Valid() && 0 <= r.stratum <= 255 && Check(r) != Undefined
    requires Causal(x, offset) && InRange(x) && ForwardDifference(x) > -W63 + 1 && Stamped(x, recv, r)
    requires Sound(driver.Current(), offset)
    modifies s, driver
    ensures Sound(driver.Current(), offset)
    ensures r.org in old(s.xmitTimes) && Check(r) == Credible ==>
              Abs(driver.contSkew - offset) <= driver.currentTimeError
  {
    hide Bounds, Difference, HostError, Check, Absorb;
    var outcome := s.RecvPacket(driver, r, recv, polling);
    if outcome.Used? {
      BoundsContainOffsetExactly(x, offset, recv, r);
      PacketKeepsSound(old(driver.Current()), outcome.packet, offset);
    }
  }
}
