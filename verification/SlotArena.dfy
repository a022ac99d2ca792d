/** The slot array of Electric Fence (ntpdist/ElectricFence/efence.c) as a value: which memory each slot describes, and
    what creating, splitting, placing and coalescing do to it. */
module SlotArena {

  datatype Mode = NotInUse | Free | Allocated | Protected | InternalUse

  datatype Slot = Slot(userAddress: int, internalAddress: int, userSize: int, internalSize: int, mode: Mode)

  const EMPTY := Slot(0, 0, 0, 0, NotInUse)

  function End(s: Slot): int { s.internalAddress + s.internalSize }

  predicate InUse(s: Slot) { !s.mode.NotInUse? }

  predicate Covers(s: Slot, p: int) { InUse(s) && s.internalAddress <= p < End(s) }

  predicate Apart(s: Slot, t: Slot) { End(s) <= t.internalAddress || End(t) <= s.internalAddress }

  /** A slot is either wiped, or describes whole pages. */
  predicate WellShaped(s: Slot, page: int)
    requires page > 0
  {
    if InUse(s) then
      && s.internalAddress > 0 && s.internalSize > 0
      && s.internalAddress % page == 0 && s.internalSize % page == 0
    else s == EMPTY
  }

  ghost predicate Covered(slots: seq<Slot>, p: int) {
    exists k :: 0 <= k < |slots| && Covers(slots[k], p)
  }

  /** The slots in use are disjoint and together cover exactly the memory obtained from the system. */
  ghost predicate Tiling(slots: seq<Slot>, mapped: set<int>, page: int)
    requires page > 0
  {
    Shapes(slots, page) && Disjoint(slots) && Covering(slots, mapped)
  }

  ghost predicate Shapes(slots: seq<Slot>, page: int)
    requires page > 0
  {
    forall k :: 0 <= k < |slots| ==> WellShaped(slots[k], page)
  }

  ghost predicate Disjoint(slots: seq<Slot>) {
    forall j, k :: 0 <= j < |slots| && 0 <= k < |slots| && j != k && InUse(slots[j]) && InUse(slots[k]) ==>
      Apart(slots[j], slots[k])
  }

  ghost predicate Covering(slots: seq<Slot>, mapped: set<int>) {
    forall p :: p in mapped <==> Covered(slots, p)
  }

  /** How a slot's user address relates to its memory: a live buffer ends where its dead page begins, or begins where
      it ends when pages are protected below; the allocator's own list and free memory start at their own address. */
  predicate UserLayout(s: Slot, page: int, below: bool) {
    match s.mode
    case NotInUse => true
    case Free => s.userAddress == 0 || s.userAddress == s.internalAddress
    case Protected => s.userAddress == 0 || s.userAddress == s.internalAddress
    case Allocated => LiveLayout(s, page, below)
    case InternalUse =>
      || (LiveLayout(s, page, below) && s.userSize > 0)
      || (s.userAddress == s.internalAddress && s.userSize == s.internalSize)
  }

  predicate LiveLayout(s: Slot, page: int, below: bool) {
    && 0 <= s.userSize <= s.internalSize - page
    && s.userAddress == (if below then s.internalAddress + page else End(s) - page - s.userSize)
  }

  ghost predicate Layouts(slots: seq<Slot>, page: int, below: bool) {
    forall k :: 0 <= k < |slots| ==> UserLayout(slots[k], page, below)
  }

  /** The buffers handed out and not yet freed, with their sizes. */
  ghost function Live(slots: seq<Slot>): set<(int, int)> {
    set k | 0 <= k < |slots| && slots[k].mode.Allocated? :: (slots[k].userAddress, slots[k].userSize)
  }

  function CountUnused(slots: seq<Slot>): nat {
    if slots == [] then 0
    else CountUnused(slots[..|slots| - 1]) + (if InUse(slots[|slots| - 1]) then 0 else 1)
  }

  // ---------------------------------------------------------------- counting

  lemma {:induction false} CountUpdate(slots: seq<Slot>, k: nat, s: Slot)
    requires k < |slots|
    ensures CountUnused(slots[k := s])
            == CountUnused(slots) - (if InUse(slots[k]) then 0 else 1) + (if InUse(s) then 0 else 1)
  {
    var n := |slots| - 1;
    if k == n {
      assert slots[k := s][..n] == slots[..n];
    } else {
      assert slots[k := s][..n] == slots[..n][k := s];
      CountUpdate(slots[..n], k, s);
    }
  }

  lemma {:induction false} CountAppendEmpty(slots: seq<Slot>, n: nat)
    ensures CountUnused(slots + seq(n, i => EMPTY)) == CountUnused(slots) + n
  {
    var all := slots + seq(n, i => EMPTY);
    if n == 0 {
      assert all == slots;
    } else {
      assert all[..|all| - 1] == slots + seq(n - 1, i => EMPTY);
      CountAppendEmpty(slots, n - 1);
    }
  }

  // ---------------------------------------------------------------- what the slot operations keep

  predicate Within(p: int, a: int, size: int) { a <= p < a + size }

  function Range(a: int, size: int): set<int> { set p: int | a <= p < a + size && Within(p, a, size) }

  /** An unused slot takes on memory newly obtained. */
  lemma CreateKeeps(slots: seq<Slot>, mapped: set<int>, page: int, k: nat, a: int, size: int)
    requires page > 0 && Tiling(slots, mapped, page) && k < |slots| && !InUse(slots[k])
    requires a > 0 && size > 0 && a % page == 0 && size % page == 0
    requires Range(a, size) !! mapped
    ensures Tiling(slots[k := Slot(0, a, 0, size, Free)], mapped + Range(a, size), page)
    ensures Live(slots[k := Slot(0, a, 0, size, Free)]) == Live(slots)
  {
    var s := Slot(0, a, 0, size, Free);
    var after := slots[k := s];
    forall j | 0 <= j < |slots| && InUse(slots[j])
      ensures Apart(slots[j], s)
    {
      var p := if slots[j].internalAddress >= a then slots[j].internalAddress else a;
      assert WellShaped(slots[j], page);
      assert !Apart(slots[j], s) ==> Covers(slots[j], p) && Within(p, a, size);
      assert Covers(slots[j], p) ==> Covered(slots, p);
    }
    forall p
      ensures p in mapped + Range(a, size) <==> Covered(after, p)
    {
      if p in mapped {
        var j :| 0 <= j < |slots| && Covers(slots[j], p);
        assert Covers(after[j], p);
      }
      if p in Range(a, size) {
        assert Covers(after[k], p);
      }
      if Covered(after, p) {
        var j :| 0 <= j < |after| && Covers(after[j], p);
        assert j != k ==> Covers(slots[j], p);
      }
    }
    LiveUnchanged(slots, after);
  }

  /** Changes that touch no allocated slot leave the live buffers alone. */
  lemma LiveUnchanged(slots: seq<Slot>, after: seq<Slot>)
    requires |slots| == |after|
    requires forall j :: 0 <= j < |slots| ==>
               (slots[j].mode.Allocated? <==> after[j].mode.Allocated?)
               && (slots[j].mode.Allocated? ==>
                     after[j].userAddress == slots[j].userAddress && after[j].userSize == slots[j].userSize)
    ensures Live(after) == Live(slots)
  {
    forall x
      ensures x in Live(after) <==> x in Live(slots)
    {
      if x in Live(after) {
        var j :| 0 <= j < |after| && after[j].mode.Allocated? && x == (after[j].userAddress, after[j].userSize);
        assert slots[j].mode.Allocated?;
      }
      if x in Live(slots) {
        var j :| 0 <= j < |slots| && slots[j].mode.Allocated? && x == (slots[j].userAddress, slots[j].userSize);
        assert after[j].mode.Allocated?;
      }
    }
  }

  /** The front of a slot is kept and an unused slot takes its surplus. */
  function SplitSlot(slots: seq<Slot>, f: nat, e: nat, n: int): seq<Slot>
    requires f < |slots| && e < |slots|
  {
    slots[e := slots[e].(internalSize := slots[f].internalSize - n, internalAddress := slots[f].internalAddress + n,
                         mode := Free)]
         [f := slots[f].(internalSize := n)]
  }

  lemma SplitKeeps(slots: seq<Slot>, mapped: set<int>, page: int, f: nat, e: nat, n: int)
    requires page > 0 && Tiling(slots, mapped, page) && f < |slots| && e < |slots|
    requires InUse(slots[f]) && !InUse(slots[e]) && 0 < n < slots[f].internalSize && n % page == 0
    ensures Tiling(SplitSlot(slots, f, e, n), mapped, page)
    ensures SplitSlot(slots, f, e, n)[e] == Slot(0, slots[f].internalAddress + n, 0, slots[f].internalSize - n, Free)
    ensures CountUnused(SplitSlot(slots, f, e, n)) == CountUnused(slots) - 1
    ensures Live(SplitSlot(slots, f, e, n)) == Live(slots)
  {
    SplitShapes(slots, page, f, e, n);
    SplitApart(slots, page, f, e, n);
    SplitCovering(slots, mapped, page, f, e, n);
    assert WellShaped(slots[e], page);
    hide Shapes, Disjoint, Covering, WellShaped, CountUnused, Live;
    SplitCounts(slots, f, e, n);
  }

  lemma SplitShapes(slots: seq<Slot>, page: int, f: nat, e: nat, n: int)
    requires page > 0 && Shapes(slots, page) && f < |slots| && e < |slots|
    requires InUse(slots[f]) && !InUse(slots[e]) && 0 < n < slots[f].internalSize && n % page == 0
    ensures Shapes(SplitSlot(slots, f, e, n), page)
  {
    assert WellShaped(slots[f], page) && WellShaped(slots[e], page);
    ModuloSums(slots[f].internalAddress, n, page);
    ModuloDifference(slots[f].internalSize, n, page);
  }

  lemma SplitCounts(slots: seq<Slot>, f: nat, e: nat, n: int)
    requires f < |slots| && e < |slots| && InUse(slots[f]) && slots[e] == EMPTY
    ensures SplitSlot(slots, f, e, n)[e] == Slot(0, slots[f].internalAddress + n, 0, slots[f].internalSize - n, Free)
    ensures CountUnused(SplitSlot(slots, f, e, n)) == CountUnused(slots) - 1
    ensures Live(SplitSlot(slots, f, e, n)) == Live(slots)
  {
    hide CountUnused, Live;
    var after := SplitSlot(slots, f, e, n);
    CountUpdate(slots, e, after[e]);
    CountUpdate(slots[e := after[e]], f, after[f]);
    LiveUnchanged(slots, after);
  }

  lemma SplitApart(slots: seq<Slot>, page: int, f: nat, e: nat, n: int)
    requires page > 0 && Shapes(slots, page) && Disjoint(slots) && f < |slots| && e < |slots|
    requires InUse(slots[f]) && !InUse(slots[e]) && 0 < n < slots[f].internalSize
    ensures Disjoint(SplitSlot(slots, f, e, n))
  {
    var after := SplitSlot(slots, f, e, n);
    forall j, k | 0 <= j < |after| && 0 <= k < |after| && j != k && InUse(after[j]) && InUse(after[k])
      ensures Apart(after[j], after[k])
    {
      var j', k' := if j == e then f else j, if k == e then f else k;
      if j' != k' {
        assert Apart(slots[j'], slots[k']);
        assert Part(slots[j'], after[j]) && Part(slots[k'], after[k]);
        PartsApart(slots[j'], slots[k'], after[j], after[k]);
      }
    }
  }

  predicate Part(s: Slot, t: Slot) { s.internalAddress <= t.internalAddress && End(t) <= End(s) }

  lemma PartsApart(s: Slot, t: Slot, s': Slot, t': Slot)
    requires Apart(s, t) && Part(s, s') && Part(t, t')
    ensures Apart(s', t')
  {
  }

  lemma SplitCovering(slots: seq<Slot>, mapped: set<int>, page: int, f: nat, e: nat, n: int)
    requires Covering(slots, mapped) && f < |slots| && e < |slots|
    requires InUse(slots[f]) && !InUse(slots[e]) && 0 < n < slots[f].internalSize
    ensures Covering(SplitSlot(slots, f, e, n), mapped)
  {
    var after := SplitSlot(slots, f, e, n);
    forall p
      ensures p in mapped <==> Covered(after, p)
    {
      if p in mapped {
        var j :| 0 <= j < |slots| && Covers(slots[j], p);
        assert Covers(after[if j != f then j else if p < slots[f].internalAddress + n then f else e], p);
      }
      if Covered(after, p) {
        var j :| 0 <= j < |after| && Covers(after[j], p);
        assert Covers(slots[if j == e then f else j], p);
      }
    }
  }

  lemma ModuloSums(a: int, b: int, page: int)
    requires page > 0 && a % page == 0 && b % page == 0
    ensures (a + b) % page == 0
  {
    var x, y := a / page, b / page;
    assert a + b == (x + y) * page;
    MultipleIsZero(x + y, page);
  }

  lemma ModuloDifference(a: int, b: int, page: int)
    requires page > 0 && a % page == 0 && b % page == 0
    ensures (a - b) % page == 0
  {
    var x, y := a / page, b / page;
    assert a - b == (x - y) * page;
    MultipleIsZero(x - y, page);
  }

  lemma MultipleIsZero(k: int, page: int)
    requires page > 0
    ensures (k * page) % page == 0
  {
    var q, r := (k * page) / page, (k * page) % page;
    assert (k - q) * page == r;
    assert k - q >= 1 ==> (k - q) * page >= page;
    assert k - q <= -1 ==> (k - q) * page <= -page;
  }

  /** A slot absorbs the memory right after it and the other slot is wiped. */
  function MergeSlots(slots: seq<Slot>, p: nat, q: nat): seq<Slot>
    requires p < |slots| && q < |slots|
  {
    slots[p := slots[p].(internalSize := slots[p].internalSize + slots[q].internalSize)][q := EMPTY]
  }

  lemma MergeKeeps(slots: seq<Slot>, mapped: set<int>, page: int, p: nat, q: nat)
    requires page > 0 && Tiling(slots, mapped, page) && p < |slots| && q < |slots| && p != q
    requires InUse(slots[p]) && InUse(slots[q]) && End(slots[p]) == slots[q].internalAddress
    ensures Tiling(MergeSlots(slots, p, q), mapped, page)
    ensures CountUnused(MergeSlots(slots, p, q)) == CountUnused(slots) + 1
    ensures !slots[p].mode.Allocated? && !slots[q].mode.Allocated? ==> Live(MergeSlots(slots, p, q)) == Live(slots)
  {
    MergeShapes(slots, page, p, q);
    MergeApart(slots, page, p, q);
    assert WellShaped(slots[p], page) && WellShaped(slots[q], page);
    MergeCovering(slots, mapped, p, q);
    hide Shapes, Disjoint, Covering, WellShaped, CountUnused, Live;
    MergeCounts(slots, p, q);
  }

  lemma MergeShapes(slots: seq<Slot>, page: int, p: nat, q: nat)
    requires page > 0 && Shapes(slots, page) && p < |slots| && q < |slots| && p != q
    requires InUse(slots[p]) && InUse(slots[q])
    ensures Shapes(MergeSlots(slots, p, q), page)
  {
    assert WellShaped(slots[p], page) && WellShaped(slots[q], page);
    ModuloSums(slots[p].internalSize, slots[q].internalSize, page);
  }

  lemma MergeCounts(slots: seq<Slot>, p: nat, q: nat)
    requires p < |slots| && q < |slots| && p != q && InUse(slots[p]) && InUse(slots[q])
    ensures CountUnused(MergeSlots(slots, p, q)) == CountUnused(slots) + 1
    ensures !slots[p].mode.Allocated? && !slots[q].mode.Allocated? ==> Live(MergeSlots(slots, p, q)) == Live(slots)
  {
    hide CountUnused, Live;
    var after := MergeSlots(slots, p, q);
    CountUpdate(slots, p, after[p]);
    CountUpdate(slots[p := after[p]], q, EMPTY);
    if !slots[p].mode.Allocated? && !slots[q].mode.Allocated? {
      LiveUnchanged(slots, after);
    }
  }

  lemma MergeApart(slots: seq<Slot>, page: int, p: nat, q: nat)
    requires page > 0 && Shapes(slots, page) && Disjoint(slots) && p < |slots| && q < |slots| && p != q
    requires InUse(slots[p]) && InUse(slots[q]) && End(slots[p]) == slots[q].internalAddress
    ensures Disjoint(MergeSlots(slots, p, q))
  {
    var after := MergeSlots(slots, p, q);
    forall j, k | 0 <= j < |after| && 0 <= k < |after| && j != k && InUse(after[j]) && InUse(after[k])
      ensures Apart(after[j], after[k])
    {
      assert j != q && k != q;
      assert Apart(slots[j], slots[k]);
      assert slots[j].internalSize > 0 && slots[k].internalSize > 0;
      assert j == p ==> Apart(slots[q], slots[k]);
      assert k == p ==> Apart(slots[q], slots[j]);
    }
  }

  lemma MergeCovering(slots: seq<Slot>, mapped: set<int>, p: nat, q: nat)
    requires Covering(slots, mapped) && p < |slots| && q < |slots| && p != q
    requires InUse(slots[p]) && InUse(slots[q]) && End(slots[p]) == slots[q].internalAddress
    requires slots[p].internalSize > 0 && slots[q].internalSize > 0
    ensures Covering(MergeSlots(slots, p, q), mapped)
  {
    var after := MergeSlots(slots, p, q);
    forall a
      ensures a in mapped <==> Covered(after, a)
    {
      if a in mapped {
        var j :| 0 <= j < |slots| && Covers(slots[j], a);
        assert Covers(after[if j == q then p else j], a);
      }
      if Covered(after, a) {
        var j :| 0 <= j < |after| && Covers(after[j], a);
        assert Covers(slots[if j == p && a >= slots[q].internalAddress then q else j], a);
      }
    }
  }

  /** Changing who uses a slot, not what memory it describes. */
  lemma RelabelKeeps(slots: seq<Slot>, mapped: set<int>, page: int, k: nat, s: Slot)
    requires page > 0 && Tiling(slots, mapped, page) && k < |slots| && InUse(slots[k]) && InUse(s)
    requires s.internalAddress == slots[k].internalAddress && s.internalSize == slots[k].internalSize
    ensures Tiling(slots[k := s], mapped, page)
    ensures CountUnused(slots[k := s]) == CountUnused(slots)
  {
    var after := slots[k := s];
    forall p
      ensures p in mapped <==> Covered(after, p)
    {
      if p in mapped {
        var j :| 0 <= j < |slots| && Covers(slots[j], p);
        assert Covers(after[j], p);
      }
      if Covered(after, p) {
        var j :| 0 <= j < |after| && Covers(after[j], p);
        assert Covers(slots[j], p);
      }
    }
    CountUpdate(slots, k, s);
  }

  lemma AppendKeeps(slots: seq<Slot>, mapped: set<int>, page: int, n: nat)
    requires page > 0 && Tiling(slots, mapped, page)
    ensures Tiling(slots + seq(n, i => EMPTY), mapped, page)
    ensures CountUnused(slots + seq(n, i => EMPTY)) == CountUnused(slots) + n
    ensures Live(slots + seq(n, i => EMPTY)) == Live(slots)
    ensures forall below :: Layouts(slots, page, below) ==> Layouts(slots + seq(n, i => EMPTY), page, below)
  {
    var after := slots + seq(n, i => EMPTY);
    CountAppendEmpty(slots, n);
    hide CountUnused, Covered;
    AppendCovering(slots, after, mapped);
    AppendLive(slots, after);
  }

  lemma AppendCovering(slots: seq<Slot>, after: seq<Slot>, mapped: set<int>)
    requires slots <= after && Covering(slots, mapped)
    requires forall j :: |slots| <= j < |after| ==> after[j] == EMPTY
    ensures Covering(after, mapped)
  {
    forall p
      ensures p in mapped <==> Covered(after, p)
    {
      if p in mapped {
        var j :| 0 <= j < |slots| && Covers(slots[j], p);
        assert Covers(after[j], p);
      }
      if Covered(after, p) {
        var j :| 0 <= j < |after| && Covers(after[j], p);
        assert j < |slots|;
      }
    }
  }

  lemma AppendLive(slots: seq<Slot>, after: seq<Slot>)
    requires slots <= after && forall j :: |slots| <= j < |after| ==> after[j] == EMPTY
    ensures Live(after) == Live(slots)
  {
    forall x
      ensures x in Live(after) <==> x in Live(slots)
    {
      if x in Live(slots) {
        var j :| 0 <= j < |slots| && slots[j].mode.Allocated? && x == (slots[j].userAddress, slots[j].userSize);
        assert after[j] == slots[j];
      }
    }
  }

  // ---------------------------------------------------------------- user addresses name slots

  /** A live buffer's address lies inside its own slot, except for a zero-size buffer placed above its dead page, whose
      address is where the next slot starts. */
  lemma AddressInsideExactly(s: Slot, page: int, below: bool)
    requires page > 0 && s.mode.Allocated? && WellShaped(s, page)
    requires 0 <= s.userSize <= s.internalSize - page
    requires s.userAddress == if below then s.internalAddress + page else End(s) - page - s.userSize
    requires s.userSize == 0 ==> s.internalSize == page
    ensures Covers(s, s.userAddress) <==> !(below && s.userSize == 0)
  {
  }

  /** An empty buffer above its dead page, which fills its slot: its address is where the slot ends. */
  predicate EmptyAtEnd(s: Slot, page: int, below: bool) { s.mode.Allocated? && below && s.userAddress == End(s) }

  lemma UserAddressCovered(s: Slot, page: int, below: bool)
    requires page > 0 && WellShaped(s, page) && UserLayout(s, page, below) && s.userAddress != 0
    ensures Covers(s, s.userAddress) <==> !EmptyAtEnd(s, page, below)
    ensures EmptyAtEnd(s, page, below) ==> s.userSize == 0 && s.internalSize == page
  {
  }

  /** Two slots laid out as buffers have different addresses. */
  lemma BufferAddressUnique(slots: seq<Slot>, mapped: set<int>, page: int, below: bool, j: nat, k: nat)
    requires page > 0 && Tiling(slots, mapped, page) && j < |slots| && k < |slots|
    requires InUse(slots[j]) && LiveLayout(slots[j], page, below)
    requires InUse(slots[k]) && LiveLayout(slots[k], page, below)
    ensures slots[j].userAddress == slots[k].userAddress ==> j == k
  {
    assert WellShaped(slots[j], page) && WellShaped(slots[k], page);
    assert j != k ==> Apart(slots[j], slots[k]);
  }

  /** No two slots have the same nonzero user address, unless one is an empty buffer above its dead page and the other
      is free memory, or the allocator's first list, right behind it. */
  lemma UserAddressUnique(slots: seq<Slot>, mapped: set<int>, page: int, below: bool, j: nat, k: nat)
    requires page > 0 && Tiling(slots, mapped, page) && Layouts(slots, page, below)
    requires j < |slots| && k < |slots| && slots[j].userAddress != 0
    ensures slots[j].userAddress == slots[k].userAddress && j != k ==>
              || (EmptyAtEnd(slots[j], page, below) && slots[k].internalAddress == slots[k].userAddress)
              || (EmptyAtEnd(slots[k], page, below) && slots[j].internalAddress == slots[j].userAddress)
  {
    UserAddressCovered(slots[j], page, below);
    if slots[k].userAddress != 0 {
      UserAddressCovered(slots[k], page, below);
    }
    assert j != k && InUse(slots[j]) && InUse(slots[k]) ==> Apart(slots[j], slots[k]);
  }

  lemma LiveAddressNonzero(slots: seq<Slot>, mapped: set<int>, page: int, below: bool, j: nat)
    requires page > 0 && Tiling(slots, mapped, page) && Layouts(slots, page, below)
    requires j < |slots| && slots[j].mode.Allocated?
    ensures slots[j].userAddress > 0
  {
    assert WellShaped(slots[j], page);
  }

  /** Live buffers are disjoint, lie in mapped memory, and no byte of one lies in another's dead page. */
  lemma LiveBuffersDisjoint(slots: seq<Slot>, mapped: set<int>, page: int, below: bool, x: (int, int), y: (int, int))
    requires page > 0 && Tiling(slots, mapped, page) && Layouts(slots, page, below)
    requires x in Live(slots) && y in Live(slots) && x != y
    ensures x.0 != y.0 && (x.0 + x.1 <= y.0 || y.0 + y.1 <= x.0)
    ensures forall p :: x.0 <= p < x.0 + x.1 ==> p in mapped
    ensures if below then y.0 <= x.0 - page || x.0 + x.1 <= y.0
            else y.0 + y.1 <= x.0 || x.0 + x.1 + page <= y.0
  {
    var j: nat :| j < |slots| && slots[j].mode.Allocated? && x == (slots[j].userAddress, slots[j].userSize);
    var k: nat :| k < |slots| && slots[k].mode.Allocated? && y == (slots[k].userAddress, slots[k].userSize);
    assert j != k;
    LiveAddressNonzero(slots, mapped, page, below, j);
    BufferAddressUnique(slots, mapped, page, below, j, k);
    assert WellShaped(slots[j], page) && WellShaped(slots[k], page);
    assert Apart(slots[j], slots[k]);
    forall p | x.0 <= p < x.0 + x.1
      ensures p in mapped
    {
      assert Covers(slots[j], p);
      assert Covered(slots, p);
    }
  }

  // ---------------------------------------------------------------- what each byte of the arena is

  /** A byte of memory in a slot of some mode. */
  ghost predicate Holds(slots: seq<Slot>, mode: Mode, p: int) {
    exists k :: 0 <= k < |slots| && slots[k].mode == mode && Covers(slots[k], p)
  }

  /** The bytes from one address to another take a mode, and all others keep theirs. */
  ghost predicate Becomes(before: seq<Slot>, after: seq<Slot>, start: int, end: int, mode: Mode) {
    forall m, p :: Holds(after, m, p) <==> if start <= p < end then m == mode else Holds(before, m, p)
  }

  /** No byte is described twice. */
  lemma OneMode(slots: seq<Slot>, mapped: set<int>, page: int, m: Mode, n: Mode, p: int)
    requires page > 0 && Tiling(slots, mapped, page) && Holds(slots, m, p) && Holds(slots, n, p)
    ensures m == n
  {
    var j :| 0 <= j < |slots| && slots[j].mode == m && Covers(slots[j], p);
    var k :| 0 <= k < |slots| && slots[k].mode == n && Covers(slots[k], p);
    assert j != k ==> Apart(slots[j], slots[k]);
  }

  /** Once one slot has all the range and the other slots are as they were or wiped, but for what lay in the range. */
  lemma RangeBecomes(before: seq<Slot>, after: seq<Slot>, mapped: set<int>, page: int, s: nat, start: int, end: int)
    requires page > 0 && Tiling(after, mapped, page) && |after| == |before| && s < |after| && InUse(after[s])
    requires after[s].internalAddress == start && End(after[s]) == end
    requires forall j, p :: 0 <= j < |before| && Covers(before[j], p) && !(start <= p < end) ==>
               Holds(after, before[j].mode, p)
    requires forall j, p :: 0 <= j < |after| && j != s && Covers(after[j], p) ==> Holds(before, after[j].mode, p)
    ensures Becomes(before, after, start, end, after[s].mode)
  {
    forall m, p
      ensures Holds(after, m, p) <==> if start <= p < end then m == after[s].mode else Holds(before, m, p)
    {
      if start <= p < end {
        assert Covers(after[s], p);
        assert Holds(after, after[s].mode, p);
        if Holds(after, m, p) {
          OneMode(after, mapped, page, m, after[s].mode, p);
        }
      } else {
        if Holds(after, m, p) {
          var j :| 0 <= j < |after| && after[j].mode == m && Covers(after[j], p);
        }
        if Holds(before, m, p) {
          var j :| 0 <= j < |before| && before[j].mode == m && Covers(before[j], p);
        }
      }
    }
  }

  /** Memory newly obtained is free, and nothing else changes. */
  lemma CreateBecomes(slots: seq<Slot>, mapped: set<int>, page: int, k: nat, a: int, size: int)
    requires page > 0 && Tiling(slots, mapped, page) && k < |slots| && !InUse(slots[k])
    requires a > 0 && size > 0 && a % page == 0 && size % page == 0
    requires Range(a, size) !! mapped
    ensures Becomes(slots, slots[k := Slot(0, a, 0, size, Free)], a, a + size, Free)
    ensures forall m, p :: a <= p < a + size ==> !Holds(slots, m, p)
  {
    var after := slots[k := Slot(0, a, 0, size, Free)];
    CreateKeeps(slots, mapped, page, k, a, size);
    forall j, p | 0 <= j < |slots| && Covers(slots[j], p)
      ensures Holds(after, slots[j].mode, p)
    {
      assert after[j] == slots[j];
    }
    RangeBecomes(slots, after, mapped + Range(a, size), page, k, a, a + size);
    forall m, p | a <= p < a + size
      ensures !Holds(slots, m, p)
    {
      assert Within(p, a, size) && p in Range(a, size);
      assert Holds(slots, m, p) ==> Covered(slots, p);
    }
  }

  /** Wiped slots describe nothing. */
  lemma AppendBecomes(slots: seq<Slot>, n: nat)
    ensures forall m, p :: Holds(slots + seq(n, i => EMPTY), m, p) <==> Holds(slots, m, p)
  {
    var after := slots + seq(n, i => EMPTY);
    forall m, p
      ensures Holds(after, m, p) <==> Holds(slots, m, p)
    {
      if Holds(slots, m, p) {
        var j :| 0 <= j < |slots| && slots[j].mode == m && Covers(slots[j], p);
        assert after[j] == slots[j];
      }
      if Holds(after, m, p) {
        var j :| 0 <= j < |after| && after[j].mode == m && Covers(after[j], p);
        assert after[j] == slots[j];
      }
    }
  }

  ghost predicate NoneProtected(slots: seq<Slot>) { forall k :: 0 <= k < |slots| ==> !slots[k].mode.Protected? }

  /** Every byte of a buffer is freed memory that may not be allocated again. */
  ghost predicate Dead(slots: seq<Slot>, x: (int, int)) {
    forall p :: x.0 <= p < x.0 + x.1 ==> Holds(slots, Protected, p)
  }

  /** From one slot array to a later one: protected memory is still protected, and so is that of every buffer no longer
      live. */
  ghost predicate Buried(before: seq<Slot>, after: seq<Slot>) {
    && (forall p :: Holds(before, Protected, p) ==> Holds(after, Protected, p))
    && forall x :: x in Live(before) && x !in Live(after) ==> Dead(after, x)
  }

  lemma BuriedTwice(first: seq<Slot>, second: seq<Slot>, third: seq<Slot>)
    requires Buried(first, second) && Buried(second, third)
    ensures Buried(first, third)
  {
    hide Holds, Live;
    forall x | x in Live(first) && x !in Live(third)
      ensures Dead(third, x)
    {
      assert x !in Live(second) ==> Dead(second, x);
    }
  }

  lemma BuriedSame(slots: seq<Slot>)
    ensures Buried(slots, slots)
  {
  }

  lemma StaysDead(before: seq<Slot>, after: seq<Slot>, x: (int, int))
    requires Buried(before, after) && Dead(before, x)
    ensures Dead(after, x)
  {
    hide Holds, Live;
  }

  /** Only memory that was not protected has been given a use, and no buffer is gone. */
  lemma UseBuries(before: seq<Slot>, after: seq<Slot>, start: int, end: int, mode: Mode)
    requires Becomes(before, after, start, end, mode) && Live(before) <= Live(after)
    requires forall p :: start <= p < end ==> !Holds(before, Protected, p)
    ensures Buried(before, after)
  {
    hide Holds, Live;
  }

  /** A live buffer lies in allocated memory. */
  lemma LiveIsAllocated(slots: seq<Slot>, page: int, below: bool, x: (int, int), p: int)
    requires page > 0 && Layouts(slots, page, below) && x in Live(slots) && x.0 <= p < x.0 + x.1
    ensures Holds(slots, Allocated, p)
  {
    var j: nat :| j < |slots| && slots[j].mode.Allocated? && x == (slots[j].userAddress, slots[j].userSize);
    assert UserLayout(slots[j], page, below);
    assert Covers(slots[j], p);
  }

  /** So none overlaps a dead one. */
  lemma DeadIsNotLive(slots: seq<Slot>, mapped: set<int>, page: int, below: bool, x: (int, int), y: (int, int), p: int)
    requires page > 0 && Tiling(slots, mapped, page) && Layouts(slots, page, below)
    requires Dead(slots, x) && y in Live(slots) && x.0 <= p < x.0 + x.1
    ensures !(y.0 <= p < y.0 + y.1)
  {
    if y.0 <= p < y.0 + y.1 {
      LiveIsAllocated(slots, page, below, y, p);
      OneMode(slots, mapped, page, Allocated, Protected, p);
    }
  }
}
