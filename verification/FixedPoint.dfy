/** The l_fp arithmetic of src/ntp_fp.h: a 64-bit fixed-point number kept as two 32-bit words and worked on in place
    with 16-bit carries.  A word is its unsigned value; masks and shifts are written as the remainders and quotients by
    powers of two that they compute, and every addition is reduced to its word's width as C does. */
module FixedPoint {

  const W16 := 0x1_0000
  const W31 := 0x8000_0000
  const W32 := 0x1_0000_0000
  const W63 := 0x8000_0000_0000_0000
  const W64 := 0x1_0000_0000_0000_0000

  type Word = x: int | 0 <= x < W32

  /** x & 0xffff */
  function Low16(x: int): int { x % W16 }

  /** (x >> 16) & 0xffff */
  function High16(x: int): int { x / W16 % W16 }

  /** ((hi & 0xffff) << 16) | (lo & 0xffff) */
  function Join(hi: int, lo: int): Word { Low16(hi) * W16 + Low16(lo) }

  /** x & 0x10000, for the sums of two halves */
  predicate Carry(x: int) { x / W16 % 2 == 1 }

  /** -(s_fp)x, reduced to a word */
  function Neg32(x: Word): Word { if x == 0 then 0 else W32 - x }

  /** ~x */
  function Not32(x: Word): Word { W32 - 1 - x }

  function Wrap(x: int): Word { x % W32 }

  /** The signed number a word of w values stands for in two's complement. */
  function TwosComplement(x: int, w: int): int { if x >= w / 2 then x - w else x }

  function Value64(i: Word, f: Word): int { i * W32 + f }

  function Signed64(i: Word, f: Word): int { TwosComplement(Value64(i, f), W64) }

  // ---------------------------------------------------------------- one addition in halves

  /** Adding two words and a carry by halves gives the word sum and, from the upper half, its carry. */
  lemma HalvesAddCarry(a: Word, b: Word, carry: bool)
    ensures var sum := a + b + if carry then 1 else 0;
            var lo := Low16(a) + Low16(b) + (if carry then 1 else 0);
            var hi := High16(a) + High16(b) + (if Carry(lo) then 1 else 0);
            && Join(hi, lo) == sum % W32
            && (Carry(hi) <==> sum >= W32)
  {
    var sum := a + b + if carry then 1 else 0;
    var lo := Low16(a) + Low16(b) + (if carry then 1 else 0);
    var hi := High16(a) + High16(b) + (if Carry(lo) then 1 else 0);
    SplitHalf(a);
    SplitHalf(b);
    assert lo == Low16(lo) + (if Carry(lo) then W16 else 0);
    assert hi == Low16(hi) + (if Carry(hi) then W16 else 0);
    assert sum == Join(hi, lo) + (if Carry(hi) then W32 else 0);
  }

  lemma SplitHalf(a: Word)
    ensures a == High16(a) * W16 + Low16(a)
  {
  }

  /** Any number congruent to x modulo w and in range is x's remainder. */
  lemma RemainderIs(x: int, w: int, k: int, r: int)
    requires w > 0 && x == k * w + r && 0 <= r < w
    ensures x % w == r
  {
    var d := x / w - k;
    assert d * w == r - x % w;
    assert d >= 1 ==> d * w >= w;
    assert d <= -1 ==> d * w <= -w;
  }

  /** Adding the upper words with the lower words' carry, each reduced to a word, adds the 64-bit numbers. */
  lemma WordsAdd(i: Word, f: Word, ai: Word, af: Word)
    ensures var c := if f + af >= W32 then 1 else 0;
            Value64((i + ai + c) % W32, (f + af) % W32) == (Value64(i, f) + Value64(ai, af)) % W64
  {
    var c := if f + af >= W32 then 1 else 0;
    var k := if i + ai + c >= W32 then 1 else 0;
    RemainderIs(Value64(i, f) + Value64(ai, af), W64, k, (i + ai + c - k * W32) * W32 + (f + af - c * W32));
  }

  lemma WrapSum(a: Word, b: Word, c: int)
    requires 0 <= c <= 1
    ensures (a + b + c) % W32 == a + b + c - (if a + b + c >= W32 then W32 else 0)
  {
  }

  lemma WrapTwice(x: int)
    requires 0 <= x < 2 * W32 - 1
    ensures Wrap(Wrap(x) + 1) == (x + 1) % W32
  {
  }

  /** Subtracting is adding the negation, word by word. */
  lemma WordsSub(i: Word, f: Word, ai: Word, af: Word)
    ensures af == 0 ==> Value64(Wrap(i - ai), f) == (Value64(i, f) - Value64(ai, af)) % W64
    ensures af != 0 ==>
              var c := if f + Neg32(af) >= W32 then 1 else 0;
              Value64((i + Not32(ai) + c) % W32, (f + Neg32(af)) % W32) == (Value64(i, f) - Value64(ai, af)) % W64
  {
    var v, a := Value64(i, f), Value64(ai, af);
    if af == 0 {
      var k := if i < ai then -1 else 0;
      RemainderIs(i - ai, W32, k, i - ai - k * W32);
      RemainderIs(v - a, W64, k, (i - ai - k * W32) * W32 + f);
    } else {
      assert Value64(Not32(ai), Neg32(af)) == W64 - a;
      var k := if v < a then -1 else 0;
      RemainderIs(v - a, W64, k, v - a - k * W64);
      RemainderIs(v + (W64 - a), W64, k + 1, v - a - k * W64);
      WordsAdd(i, f, Not32(ai), Neg32(af));
    }
  }

  lemma WordsNeg(i: Word, f: Word)
    ensures f == 0 ==> Value64(Neg32(i), f) == (-Value64(i, f)) % W64
    ensures f != 0 ==> Value64(Not32(i), Neg32(f)) == (-Value64(i, f)) % W64
  {
    var v := Value64(i, f);
    if v == 0 {
    } else {
      RemainderIs(-v, W64, -1, W64 - v);
    }
  }

  // ---------------------------------------------------------------- the two-word number

  class LFp {
    var ui: Word
    var uf: Word

    constructor (i: Word, f: Word)
      ensures ui == i && uf == f
    {
      ui, uf := i, f;
    }

    function Value(): int
      reads this
    {
      Value64(ui, uf)
    }

    function Signed(): int
      reads this
    {
      Signed64(ui, uf)
    }

    /** M_NEG */
    method Neg()
      modifies this
      ensures Value() == (-old(Value())) % W64
    {
      WordsNeg(ui, uf);
      if uf == 0 {
        ui := Neg32(ui);
      } else {
        uf := Neg32(uf);
        ui := Not32(ui);
      }
    }

    /** M_ADD; `a` may be this same number */
    method Add(a: LFp)
      modifies this
      ensures Value() == (old(Value()) + old(a.Value())) % W64
    {
      hide Low16, High16, Join, Carry, Value64;
      HalvesAddCarry(uf, a.uf, false);
      WordsAdd(ui, uf, a.ui, a.uf);
      WrapTwice(ui + a.ui);
      var lo := Low16(uf) + Low16(a.uf);
      var hi := High16(uf) + High16(a.uf);
      if Carry(lo) {
        hi := hi + 1;
      }
      uf := Join(hi, lo);
      ui := Wrap(ui + a.ui);
      if Carry(hi) {
        ui := Wrap(ui + 1);
      }
    }

    /** M_SUB; `a` may be this same number */
    method Sub(a: LFp)
      modifies this
      ensures Value() == (old(Value()) - old(a.Value())) % W64
    {
      hide Low16, High16, Join, Carry, Not32, Neg32, Value64;
      WordsSub(ui, uf, a.ui, a.uf);
      if a.uf == 0 {
        ui := Wrap(ui - a.ui);
      } else {
        HalvesAddCarry(uf, Neg32(a.uf), false);
        WrapTwice(ui + Not32(a.ui));
        var lo := Low16(uf) + Low16(Neg32(a.uf));
        var hi := High16(uf) + High16(Neg32(a.uf));
        if Carry(lo) {
          hi := hi + 1;
        }
        uf := Join(hi, lo);
        ui := Wrap(ui + Not32(a.ui));
        if Carry(hi) {
          ui := Wrap(ui + 1);
        }
      }
    }

    /** M_RSHIFT, arithmetic */
    method RShift()
      modifies this
      ensures Signed() == old(Signed()) / 2
    {
      uf := uf / 2;
      if ui % 2 == 1 {
        uf := uf + W31;
      }
      if ui >= W31 {
        ui := ui / 2 + W31;
      } else {
        ui := ui / 2;
      }
    }

    /** M_RSHIFTU, logical */
    method RShiftU()
      modifies this
      ensures Value() == old(Value()) / 2
    {
      uf := uf / 2;
      if ui % 2 == 1 {
        uf := uf + W31;
      }
      ui := ui / 2;
    }

    /** M_LSHIFT */
    method LShift()
      modifies this
      ensures Value() == 2 * old(Value()) % W64
    {
      ghost var k := if ui >= W31 then 1 else 0;
      RemainderIs(2 * Value(), W64, k, 2 * Value() - k * W64);
      WrapSum(ui, ui, 0);
      WrapSum(uf, uf, 0);
      ui := Wrap(ui + ui);
      if uf >= W31 {
        ui := ui + 1;
      }
      uf := Wrap(uf + uf);
    }

    /** L_ISHIS: unsigned at-least */
    predicate IsHis(b: LFp)
      reads this, b
    {
      ui > b.ui || (ui == b.ui && uf >= b.uf)
    }

    /** L_ISGEQ: signed at-least, on l_i */
    predicate IsGeq(b: LFp)
      reads this, b
    {
      TwosComplement(ui, W32) > TwosComplement(b.ui, W32)
      || (TwosComplement(ui, W32) == TwosComplement(b.ui, W32) && uf >= b.uf)
    }

    /** L_ISEQU */
    predicate IsEqu(b: LFp)
      reads this, b
    {
      ui == b.ui && uf == b.uf
    }

    /** L_ISNEG */
    predicate IsNeg()
      reads this
    {
      ui >= W31
    }

    /** The comparisons on words are the comparisons of the 64-bit numbers. */
    lemma ComparisonsAreNumeric(b: LFp)
      ensures IsHis(b) <==> Value() >= b.Value()
      ensures IsGeq(b) <==> Signed() >= b.Signed()
      ensures IsEqu(b) <==> Value() == b.Value()
      ensures IsNeg() <==> Signed() < 0
    {
    }
  }

  /** Subtracting undoes adding, whatever overflowed, and a number minus itself is zero even in place. */
  method AddThenSub(r: LFp, a: LFp)
    requires r != a
    modifies r
    ensures r.Value() == old(r.Value())
  {
    r.Add(a);
    r.Sub(a);
    WrapCancels(old(r.Value()), a.Value());
  }

  lemma WrapCancels(r: int, a: int)
    requires 0 <= r < W64
    ensures ((r + a) % W64 - a) % W64 == r
  {
    var q := (r + a) / W64;
    assert (r + a) % W64 - a == r - q * W64;
    ModShift(r, -q);
  }

  lemma ModShift(r: int, q: int)
    requires 0 <= r < W64
    ensures (r + q * W64) % W64 == r
  {
  }

  lemma WordsAdd3(rOvr: Word, rI: Word, rF: Word, aOvr: Word, aI: Word, aF: Word)
    ensures var c := if rF + aF >= W32 then 1 else 0;
            var e := if rI + aI + c >= W32 then 1 else 0;
            (rOvr + aOvr + e) % W32 * W64 + (rI + aI + c) % W32 * W32 + (rF + aF) % W32
            == ((rOvr * W64 + rI * W32 + rF) + (aOvr * W64 + aI * W32 + aF)) % (W32 * W64)
  {
    var c := if rF + aF >= W32 then 1 else 0;
    var e := if rI + aI + c >= W32 then 1 else 0;
    var k := if rOvr + aOvr + e >= W32 then 1 else 0;
    WrapSum(rOvr, aOvr, e);
    WrapSum(rI, aI, c);
    WrapSum(rF, aF, 0);
    RemainderIs((rOvr * W64 + rI * W32 + rF) + (aOvr * W64 + aI * W32 + aF), W32 * W64, k,
                (rOvr + aOvr + e - k * W32) * W64 + (rI + aI + c - e * W32) * W32 + (rF + aF - c * W32));
  }

  /** M_ADD3: three words, the lowest a fraction. */
  method Add3(rOvr: Word, rI: Word, rF: Word, aOvr: Word, aI: Word, aF: Word) returns (ovr: Word, i: Word, f: Word)
    ensures ovr * W64 + i * W32 + f
            == ((rOvr * W64 + rI * W32 + rF) + (aOvr * W64 + aI * W32 + aF)) % (W32 * W64)
  {
    hide Low16, High16, Join, Carry;
    WordsAdd3(rOvr, rI, rF, aOvr, aI, aF);
    WrapTwice(rOvr + aOvr);
    HalvesAddCarry(rF, aF, false);
    var lo := Low16(rF) + Low16(aF);
    var hi := High16(rF) + High16(aF);
    if Carry(lo) {
      hi := hi + 1;
    }
    f := Join(hi, lo);
    ghost var carryF := Carry(hi);
    HalvesAddCarry(rI, aI, carryF);
    lo := Low16(rI) + Low16(aI);
    if Carry(hi) {
      lo := lo + 1;
    }
    hi := High16(rI) + High16(aI);
    if Carry(lo) {
      hi := hi + 1;
    }
    i := Join(hi, lo);
    ovr := Wrap(rOvr + aOvr);
    if Carry(hi) {
      ovr := Wrap(ovr + 1);
    }
  }

  // ---------------------------------------------------------------- conversions

  /** LFPTOFP: to 16.16, with the macro's saturation on the integer part. */
  function LFpToFp(i: Word, f: Word): Word {
    var si := TwosComplement(i, W32);
    if si >= W16 then 0x7fff_ffff
    else if si <= -W16 then 0x8000_0000
    else Wrap(si * W16) + High16(f)
  }

  function SignedFp(x: Word): int { TwosComplement(x, W32) }

  /** The 16.16 result is the value rounded down exactly when the integer part fits 16 bits signed: the macro saturates
      only from 65536 on, and between 32768 and 65536 the sign is lost. */
  lemma LFpToFpTruncatesExactly(i: Word, f: Word)
    ensures SignedFp(LFpToFp(i, f)) == Signed64(i, f) / W16 <==> -0x8000 <= TwosComplement(i, W32) < 0x8000
  {
    var si := TwosComplement(i, W32);
    assert Signed64(i, f) == si * W32 + f;
    assert Signed64(i, f) / W16 == si * W16 + f / W16;
  }

  /** LFPTOD, in exact arithmetic: negate first when negative, and read l_i as signed. */
  function LFpToD(i: Word, f: Word): real {
    if i >= W31 then
      var ni := if f == 0 then Neg32(i) else Not32(i);
      var nf := if f == 0 then f else Neg32(f);
      -(TwosComplement(ni, W32) as real + nf as real / W32 as real)
    else i as real + f as real / W32 as real
  }

  /** DTOLFP.  Outside the int32 range C leaves the conversion undefined. */
  function DToLFp(d: real): (Word, Word)
    requires -W31 as real < d < W31 as real
  {
    if d < 0.0 then
      var i := (-d).Floor;
      var f := ((-d - i as real) * W32 as real).Floor;
      if f == 0 then (Neg32(i), 0) else (Not32(i), Neg32(f))
    else
      var i := d.Floor;
      (i, ((d - i as real) * W32 as real).Floor)
  }

  /** The real a fixed-point number becomes is its signed value, except for the most negative number, whose sign is
      lost. */
  lemma LFpToDExactly(i: Word, f: Word)
    ensures LFpToD(i, f) == Signed64(i, f) as real / W32 as real <==> Signed64(i, f) != -W63
  {
    assert Signed64(i, f) == TwosComplement(i, W32) * W32 + f;
  }

  /** To double and back is the identity exactly off the most negative number. */
  lemma DoubleRoundTripExactly(i: Word, f: Word)
    ensures Signed64(i, f) != -W63
       <==> -W31 as real < LFpToD(i, f) < W31 as real && DToLFp(LFpToD(i, f)) == (i, f)
  {
    var d := LFpToD(i, f);
    if i < W31 {
      assert d.Floor == i;
      assert (d - i as real) * W32 as real == f as real;
    } else if f == 0 {
      assert i != W31 ==> (-d).Floor == Neg32(i);
    } else {
      assert -d == Not32(i) as real + Neg32(f) as real / W32 as real;
      assert (-d).Floor == Not32(i);
      assert (-d - Not32(i) as real) * W32 as real == Neg32(f) as real;
    }
  }
}
