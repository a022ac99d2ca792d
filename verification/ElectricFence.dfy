/** Electric Fence's allocator (ntpdist/ElectricFence/efence.c): best fit with splitting and coalescing over a slot
    array that is itself allocated from the memory it manages and grows by calling the allocator from inside the
    allocator.  Page protection is not modelled; memory comes from a kernel that only has to hand out fresh pages. */
module ElectricFence {
  import opened BufferMemory
  import opened Common
  import opened SlotArena

  /** EF_Abort and internalError end the program. */
  datatype Outcome = Ok(address: int) | Abort | InternalError

  /** What memalign's scan comes to: a free slot and an unused one, or internalError. */
  datatype Space = NoSlot | Space(full: nat, empty: nat)

  const MEMORY_CREATION_SIZE := 1048576

  function RoundUp(n: int, unit: int): int
    requires unit > 0
  {
    if n % unit != 0 then n + unit - n % unit else n
  }

  lemma RoundUpIsMultiple(n: int, unit: int)
    requires unit > 0
    ensures RoundUp(n, unit) % unit == 0 && n <= RoundUp(n, unit) < n + unit
  {
    var q := n / unit;
    assert n == q * unit + n % unit;
    if n % unit != 0 {
      assert RoundUp(n, unit) == (q + 1) * unit;
      MultipleIsZero(q + 1, unit);
    }
  }

  lemma DividesThrough(a: int, page: int, unit: int)
    requires page > 0 && unit > 0 && a % page == 0 && page % unit == 0
    ensures a % unit == 0
  {
    var k, m := a / page, page / unit;
    assert a == k * page && page == m * unit;
    assert a == (k * m) * unit;
    MultipleIsZero(k * m, unit);
  }

  /** Page_Create: page-aligned addresses above zero, in memory not mapped yet. */
  ghost predicate HonestKernel(pageCreate: (set<int>, int) -> int, page: int)
    requires page > 0
  {
    forall mapped: set<int>, size: int :: size > 0 && size % page == 0 ==>
      && pageCreate(mapped, size) > 0 && pageCreate(mapped, size) % page == 0
      && Range(pageCreate(mapped, size), size) !! mapped
  }

  /** An address above everything mapped. */
  ghost function Ceiling(mapped: set<int>): (c: int)
    ensures c > 0 && forall p :: p in mapped ==> p < c
  {
    if !exists x :: x in mapped then 1
    else
      var x: int :| x in mapped;
      var c := Ceiling(mapped - {x});
      assert forall p :: p in mapped ==> p == x || p in mapped - {x};
      if x < c then c else x + 1
  }

  /** Such kernels exist. */
  lemma HonestKernelExists(page: int)
    requires page > 0
    ensures exists kernel: (set<int>, int) -> int :: HonestKernel(kernel, page)
  {
    var kernel := (mapped: set<int>, size: int) => Ceiling(mapped) * page;
    forall mapped: set<int>, size: int | size > 0 && size % page == 0
      ensures kernel(mapped, size) > 0 && kernel(mapped, size) % page == 0
      ensures Range(kernel(mapped, size), size) !! mapped
    {
      AboveIsClear(mapped, page, Ceiling(mapped), size);
    }
    assert HonestKernel(kernel, page);
  }

  lemma AboveIsClear(mapped: set<int>, page: int, c: int, size: int)
    requires page > 0 && c > 0 && forall p :: p in mapped ==> p < c
    ensures c * page > 0 && c * page % page == 0 && Range(c * page, size) !! mapped
  {
    MultipleIsZero(c, page);
    AtLeast(c, page);
    assert forall p :: p in Range(c * page, size) ==> p >= c * page;
  }

  lemma AtLeast(c: int, page: int)
    requires page > 0 && c > 0
    ensures c * page >= c
  {
  }

  /** A free slot that could hold a buffer. */
  predicate Fits(s: Slot, need: int) { s.mode.Free? && s.internalSize >= need }

  ghost predicate SomeFit(slots: seq<Slot>, need: int) {
    exists k :: 0 <= k < |slots| && Fits(slots[k], need)
  }

  predicate Unused(slots: seq<Slot>, k: nat) { k < |slots| && slots[k].mode.NotInUse? }

  /** No smaller slot among the first n fits. */
  ghost predicate BestFit(slots: seq<Slot>, k: nat, n: nat, need: int) {
    && k < |slots| && n <= |slots| && Fits(slots[k], need)
    && forall j :: 0 <= j < n && Fits(slots[j], need) ==> slots[k].internalSize <= slots[j].internalSize
  }

  /** The first among the smallest free slots that are large enough. */
  ghost predicate FirstBest(slots: seq<Slot>, k: nat, need: int) {
    && BestFit(slots, k, |slots|, need)
    && forall j :: 0 <= j < k && Fits(slots[j], need) ==> slots[j].internalSize > slots[k].internalSize
  }

  ghost predicate FirstUnused(slots: seq<Slot>, e: nat) {
    Unused(slots, e) && forall j: nat :: j < e ==> !Unused(slots, j)
  }

  lemma FirstBestUnique(slots: seq<Slot>, j: nat, k: nat, need: int)
    requires FirstBest(slots, j, need) && FirstBest(slots, k, need)
    ensures j == k
  {
  }

  /** The memory asked of the system when nothing fits. */
  function Chunk(need: int, page: int): int
    requires page > 0
  {
    RoundUp(if MEMORY_CREATION_SIZE < need then need else MEMORY_CREATION_SIZE, page)
  }

  /** The address given out for `size` bytes in `need` bytes of memory. */
  function AddressIn(start: int, need: int, size: int, page: int, below: bool): int {
    if !below then start + (need - page) - size else start + page
  }

  lemma {:induction false} UnusedAreCounted(slots: seq<Slot>, j: nat, k: nat)
    requires Unused(slots, j) && Unused(slots, k)
    ensures CountUnused(slots) >= (if j == k then 1 else 2)
  {
    var n := |slots| - 1;
    if j < n && k < n {
      UnusedAreCounted(slots[..n], j, k);
    } else if j < n {
      UnusedAreCounted(slots[..n], j, j);
    } else if k < n {
      UnusedAreCounted(slots[..n], k, k);
    }
  }

  /** The best fit in so many words: the first of the smallest free slots that are large enough; and memory is asked of
      the system exactly if there is none. */
  lemma BestFitExactly(slots: seq<Slot>, k: nat, need: int, mapped: set<int>, page: int,
                       kernel: (set<int>, int) -> int)
    requires page > 0 && HonestKernel(kernel, page)
    ensures FirstBest(slots, k, need)
       <==> && k < |slots| && slots[k].mode == Free && slots[k].internalSize >= need
            && forall j: nat :: j < |slots| && slots[j].mode == Free && slots[j].internalSize >= need ==>
                 slots[k].internalSize < slots[j].internalSize
                 || (slots[k].internalSize == slots[j].internalSize && k <= j)
    ensures SuppliedMemory(slots, mapped, need, page, kernel) == mapped
       <==> exists j: nat :: j < |slots| && slots[j].mode == Free && slots[j].internalSize >= need
  {
    var chunk := Chunk(need, page);
    RoundUpIsMultiple(if MEMORY_CREATION_SIZE < need then need else MEMORY_CREATION_SIZE, page);
    assert Within(kernel(mapped, chunk), kernel(mapped, chunk), chunk);
    assert kernel(mapped, chunk) in Range(kernel(mapped, chunk), chunk);
    if SomeFit(slots, need) {
      var j: nat :| j < |slots| && Fits(slots[j], need);
      assert slots[j].mode == Free && slots[j].internalSize >= need;
    }
    if j: nat :| j < |slots| && slots[j].mode == Free && slots[j].internalSize >= need {
      assert Fits(slots[j], need);
    }
  }

  // ---------------------------------------------------------------- giving a free slot to a buffer

  /** The front of free slot f becomes a buffer; a surplus goes to the unused slot e. */
  function Carve(slots: seq<Slot>, f: nat, e: nat, need: int, mode: Mode, userAddress: int, userSize: int): seq<Slot>
    requires f < |slots| && e < |slots|
  {
    var marked := slots[f := slots[f].(mode := mode)];
    var split := if slots[f].internalSize > need then SplitSlot(marked, f, e, need) else marked;
    split[f := split[f].(userAddress := userAddress, userSize := userSize)]
  }

  lemma CarveKeeps(slots: seq<Slot>, mapped: set<int>, page: int, below: bool, f: nat, e: nat, need: int, mode: Mode,
                   userAddress: int, userSize: int)
    requires page > 0 && Tiling(slots, mapped, page) && Layouts(slots, page, below)
    requires f < |slots| && Fits(slots[f], need) && Unused(slots, e) && need > 0 && need % page == 0
    requires mode.Allocated? || (mode.InternalUse? && userSize > 0)
    requires LiveLayout(Slot(userAddress, slots[f].internalAddress, userSize, need, mode), page, below)
    ensures var after := Carve(slots, f, e, need, mode, userAddress, userSize);
            && Tiling(after, mapped, page) && Layouts(after, page, below)
            && CountUnused(after) == CountUnused(slots) - (if slots[f].internalSize > need then 1 else 0)
            && after[f] == Slot(userAddress, slots[f].internalAddress, userSize, need, mode)
            && (forall j :: 0 <= j < |slots| && j != f && j != e ==> after[j] == slots[j])
            && |after| == |slots| && after[e].mode != InternalUse
            && Live(after) == Live(slots) + (if mode.Allocated? then {(userAddress, userSize)} else {})
  {
    hide Tiling, CountUnused, Live;
    var marked := slots[f := slots[f].(mode := mode)];
    RelabelKeeps(slots, mapped, page, f, slots[f].(mode := mode));
    var split := if slots[f].internalSize > need then SplitSlot(marked, f, e, need) else marked;
    if slots[f].internalSize > need {
      SplitKeeps(marked, mapped, page, f, e, need);
    }
    var after := split[f := split[f].(userAddress := userAddress, userSize := userSize)];
    RelabelKeeps(split, mapped, page, f, after[f]);
    CarveLive(slots, after, f, e);
    assert Layouts(after, page, below) by {
      hide LiveLayout;
      assert forall j :: 0 <= j < |slots| && j != f && j != e ==> after[j] == slots[j];
    }
  }

  /** What carving a buffer out of free memory means for the allocator: all of the above, its list still in place, and
      an address no live buffer had, nor the list, if it is for the list's successor. */
  lemma Placed(slots: seq<Slot>, mapped: set<int>, page: int, below: bool, f: nat, e: nat, need: int, mode: Mode,
               address: int, size: int, list: nat)
    requires page > 0 && Tiling(slots, mapped, page) && Layouts(slots, page, below)
    requires f < |slots| && Fits(slots[f], need) && Unused(slots, e) && need > 0 && need % page == 0
    requires mode.Allocated? || (mode.InternalUse? && size > 0)
    requires address != 0 && LiveLayout(Slot(address, slots[f].internalAddress, size, need, mode), page, below)
    requires list < |slots| && slots[list].mode.InternalUse? && slots[list].userAddress != 0
    ensures var after := Carve(slots, f, e, need, mode, address, size);
            && Tiling(after, mapped, page) && Layouts(after, page, below)
            && CountUnused(after) == CountUnused(slots) - (if slots[f].internalSize > need then 1 else 0)
            && after[f] == Slot(address, slots[f].internalAddress, size, need, mode)
            && after[list] == slots[list]
            && Live(after) == Live(slots) + (if mode.Allocated? then {(address, size)} else {})
    ensures Buried(slots, Carve(slots, f, e, need, mode, address, size))
    ensures NoneProtected(slots) ==> NoneProtected(Carve(slots, f, e, need, mode, address, size))
    ensures mode.InternalUse? ==> address != slots[list].userAddress
    ensures forall x :: x in Live(slots) ==> x.0 != address
  {
    hide Tiling, Layouts, CountUnused, LiveLayout, Holds, Buried, Becomes, Carve, NoneProtected;
    CarveKeeps(slots, mapped, page, below, f, e, need, mode, address, size);
    CarveBecomes(slots, mapped, page, below, f, e, need, mode, address, size);
    CarveNoneProtected(slots, f, e, need, mode, address, size);
    var after := Carve(slots, f, e, need, mode, address, size);
    if mode.InternalUse? {
      UserAddressUnique(after, mapped, page, below, f, list);
    }
    NewBufferIsNew(slots, after, mapped, page, below, f, e);
  }

  /** Of all the bytes of the arena, exactly the buffer's own change hands: they were free and are now in use. */
  lemma CarveBecomes(slots: seq<Slot>, mapped: set<int>, page: int, below: bool, f: nat, e: nat, need: int, mode: Mode,
                     userAddress: int, userSize: int)
    requires page > 0 && Tiling(slots, mapped, page) && Layouts(slots, page, below)
    requires f < |slots| && Fits(slots[f], need) && Unused(slots, e) && need > 0 && need % page == 0
    requires mode.Allocated? || (mode.InternalUse? && userSize > 0)
    requires LiveLayout(Slot(userAddress, slots[f].internalAddress, userSize, need, mode), page, below)
    ensures var start := slots[f].internalAddress;
            && Becomes(slots, Carve(slots, f, e, need, mode, userAddress, userSize), start, start + need, mode)
            && (forall p :: start <= p < start + need ==> Holds(slots, Free, p))
            && Buried(slots, Carve(slots, f, e, need, mode, userAddress, userSize))
  {
    hide Tiling, Layouts, Live, LiveLayout, CountUnused, Holds, Becomes, Buried;
    CarveKeeps(slots, mapped, page, below, f, e, need, mode, userAddress, userSize);
    UnusedIsEmpty(slots, mapped, page, e);
    CarveShape(slots, f, e, need, mode, userAddress, userSize);
    hide Carve;
    var after := Carve(slots, f, e, need, mode, userAddress, userSize);
    var start := slots[f].internalAddress;
    CarveHandsOver(slots, after, f, e, need);
    RangeBecomes(slots, after, mapped, page, f, start, start + need);
    FreeIsFree(slots, mapped, page, f, need);
    UseBuries(slots, after, start, start + need, mode);
  }

  lemma FreeIsFree(slots: seq<Slot>, mapped: set<int>, page: int, f: nat, need: int)
    requires page > 0 && Tiling(slots, mapped, page) && f < |slots| && Fits(slots[f], need)
    ensures forall p :: slots[f].internalAddress <= p < slots[f].internalAddress + need ==>
              Holds(slots, Free, p) && !Holds(slots, Protected, p)
  {
    forall p | slots[f].internalAddress <= p < slots[f].internalAddress + need
      ensures Holds(slots, Free, p) && !Holds(slots, Protected, p)
    {
      assert Covers(slots[f], p);
      if Holds(slots, Protected, p) {
        OneMode(slots, mapped, page, Free, Protected, p);
      }
    }
  }

  lemma CarveShape(slots: seq<Slot>, f: nat, e: nat, need: int, mode: Mode, userAddress: int, userSize: int)
    requires f < |slots| && e < |slots| && f != e && slots[e] == EMPTY
    ensures var after := Carve(slots, f, e, need, mode, userAddress, userSize);
            && |after| == |slots| && after[f].internalAddress == slots[f].internalAddress
            && after[e] == if slots[f].internalSize > need
                           then Slot(0, slots[f].internalAddress + need, 0, slots[f].internalSize - need, Free)
                           else slots[e]
  {
  }

  lemma CarveHandsOver(slots: seq<Slot>, after: seq<Slot>, f: nat, e: nat, need: int)
    requires |after| == |slots| && f < |slots| && e < |slots| && f != e && Fits(slots[f], need) && need > 0
    requires !InUse(slots[e]) && InUse(after[f]) && End(after[f]) == slots[f].internalAddress + need
    requires if slots[f].internalSize > need
             then after[e] == Slot(0, slots[f].internalAddress + need, 0, slots[f].internalSize - need, Free)
             else after[e] == slots[e]
    requires forall j :: 0 <= j < |slots| && j != f && j != e ==> after[j] == slots[j]
    ensures forall j, p :: 0 <= j < |slots| && Covers(slots[j], p)
                           && !(slots[f].internalAddress <= p < slots[f].internalAddress + need) ==>
                             Holds(after, slots[j].mode, p)
    ensures forall j, p :: 0 <= j < |after| && j != f && Covers(after[j], p) ==> Holds(slots, after[j].mode, p)
  {
    forall j, p | 0 <= j < |slots| && Covers(slots[j], p)
                  && !(slots[f].internalAddress <= p < slots[f].internalAddress + need)
      ensures Holds(after, slots[j].mode, p)
    {
      var i := if j == f then e else j;
      assert after[i].mode == slots[j].mode && Covers(after[i], p);
    }
    forall j, p | 0 <= j < |after| && j != f && Covers(after[j], p)
      ensures Holds(slots, after[j].mode, p)
    {
      var i := if j == e then f else j;
      assert slots[i].mode == after[j].mode && Covers(slots[i], p);
    }
  }

  lemma CarveNoneProtected(slots: seq<Slot>, f: nat, e: nat, need: int, mode: Mode, address: int, size: int)
    requires f < |slots| && e < |slots| && !mode.Protected?
    ensures NoneProtected(slots) ==> NoneProtected(Carve(slots, f, e, need, mode, address, size))
  {
  }

  lemma CarveLive(slots: seq<Slot>, after: seq<Slot>, f: nat, e: nat)
    requires |after| == |slots| && f < |slots| && e < |slots| && f != e
    requires !slots[f].mode.Allocated? && !slots[e].mode.Allocated? && !after[e].mode.Allocated?
    requires forall j :: 0 <= j < |slots| && j != f && j != e ==> after[j] == slots[j]
    ensures Live(after)
            == Live(slots) + (if after[f].mode.Allocated? then {(after[f].userAddress, after[f].userSize)} else {})
  {
    forall x
      ensures x in Live(after) <==>
              x in Live(slots) || (after[f].mode.Allocated? && x == (after[f].userAddress, after[f].userSize))
    {
      if x in Live(slots) {
        var j: nat :| j < |slots| && slots[j].mode.Allocated? && x == (slots[j].userAddress, slots[j].userSize);
        assert after[j] == slots[j];
      }
      if x in Live(after) {
        var j: nat :| j < |after| && after[j].mode.Allocated? && x == (after[j].userAddress, after[j].userSize);
        assert j != f ==> after[j] == slots[j];
      }
    }
  }

  // ---------------------------------------------------------------- taking a buffer back

  /** Join slot k to the free slot p that ends where it starts. */
  function JoinPrevious(slots: seq<Slot>, p: nat, k: nat, protect: bool): seq<Slot>
    requires p < |slots| && k < |slots|
  {
    var m := MergeSlots(slots, p, k);
    m[p := m[p].(mode := if protect then Protected else m[p].mode)]
  }

  /** Mark slot k free and join it with free memory just before it; and the slot that then holds it. */
  function Joined(slots: seq<Slot>, k: nat, previous: Option<nat>, protect: bool): (joined: seq<Slot>)
    requires k < |slots| && (previous.Some? ==> previous.value < |slots|)
    ensures |joined| == |slots|
  {
    var marked := slots[k := slots[k].(mode := if protect then Protected else Free)];
    if previous.Some? && IsFree(slots[previous.value]) then JoinPrevious(marked, previous.value, k, protect) else marked
  }

  function JoinedAt(slots: seq<Slot>, k: nat, previous: Option<nat>): (s: nat)
    requires k < |slots| && (previous.Some? ==> previous.value < |slots|)
    ensures s < |slots|
  {
    if previous.Some? && IsFree(slots[previous.value]) then previous.value else k
  }

  /** Join slot s with free memory just behind it. */
  function AbsorbNext(slots: seq<Slot>, s: nat, next: Option<nat>): seq<Slot>
    requires s < |slots| && (next.Some? ==> next.value < |slots|)
  {
    var whole := if next.Some? && IsFree(slots[next.value]) then MergeSlots(slots, s, next.value) else slots;
    whole[s := whole[s].(userAddress := whole[s].internalAddress, userSize := whole[s].internalSize)]
  }

  /** Free the k-th slot's memory, coalescing with free memory just before and just after it. */
  function Coalesce(slots: seq<Slot>, k: nat, previous: Option<nat>, next: Option<nat>, protect: bool): seq<Slot>
    requires k < |slots| && (previous.Some? ==> previous.value < |slots|) && (next.Some? ==> next.value < |slots|)
  {
    AbsorbNext(Joined(slots, k, previous, protect), JoinedAt(slots, k, previous), next)
  }

  lemma JoinedElsewhere(slots: seq<Slot>, k: nat, previous: Option<nat>, protect: bool)
    requires k < |slots| && (previous.Some? ==> previous.value < |slots| && previous.value != k)
    ensures var joined, s := Joined(slots, k, previous, protect), JoinedAt(slots, k, previous);
            && |joined| == |slots| && s < |slots| && (s == k || (previous.Some? && s == previous.value))
            && forall j :: 0 <= j < |slots| && j != k && Some(j) != previous ==> joined[j] == slots[j]
  {
  }

  predicate IsFree(s: Slot) { s.mode.Free? || s.mode.Protected? }

  /** How many of the neighbours are free, and so wiped by coalescing. */
  function FreeAround(slots: seq<Slot>, previous: Option<nat>, next: Option<nat>): nat
    requires (previous.Some? ==> previous.value < |slots|) && (next.Some? ==> next.value < |slots|)
  {
    (if previous.Some? && IsFree(slots[previous.value]) then 1 else 0)
    + (if next.Some? && IsFree(slots[next.value]) then 1 else 0)
  }

  /** The neighbours the two lookups find: the slots that end where this one starts and start where it ends. */
  ghost predicate Neighbours(slots: seq<Slot>, k: nat, previous: Option<nat>, next: Option<nat>) {
    && k < |slots|
    && (previous.Some? ==> previous.value < |slots| && End(slots[previous.value]) == slots[k].internalAddress)
    && (next.Some? ==> next.value < |slots| && slots[next.value].internalAddress == End(slots[k]))
  }

  lemma NeighboursDiffer(slots: seq<Slot>, mapped: set<int>, page: int, k: nat, previous: Option<nat>,
                         next: Option<nat>)
    requires page > 0 && Tiling(slots, mapped, page) && Neighbours(slots, k, previous, next) && InUse(slots[k])
    ensures previous.Some? ==> previous.value != k && InUse(slots[previous.value])
    ensures next.Some? ==> next.value != k && InUse(slots[next.value])
    ensures previous.Some? && next.Some? ==> previous.value != next.value
  {
    assert WellShaped(slots[k], page);
    if previous.Some? {
      assert WellShaped(slots[previous.value], page);
    }
    if next.Some? {
      assert WellShaped(slots[next.value], page);
    }
  }

  /** A freed or absorbed slot against what it was. */
  predicate KeptWipedOrFree(s: Slot, after: Slot) {
    after == s || after == EMPTY || (IsFree(after) && after.userAddress == after.internalAddress)
  }

  lemma CoalesceShape(slots: seq<Slot>, k: nat, previous: Option<nat>, next: Option<nat>, protect: bool)
    requires k < |slots| && (slots[k].mode.Allocated? || slots[k].mode.InternalUse?)
    requires previous.Some? ==> previous.value < |slots| && previous.value != k
    requires next.Some? ==> next.value < |slots| && next.value != k
    requires previous.Some? && next.Some? ==> previous.value != next.value
    ensures var after := Coalesce(slots, k, previous, next, protect);
            && |after| == |slots|
            && (forall j :: 0 <= j < |slots| ==> KeptWipedOrFree(slots[j], after[j]))
            && !after[k].mode.Allocated? && !after[k].mode.InternalUse?
            && (forall j :: 0 <= j < |slots| && j != k && !IsFree(slots[j]) ==> after[j] == slots[j])
  {
    var joined, s := Joined(slots, k, previous, protect), JoinedAt(slots, k, previous);
    JoinedShape(slots, k, previous, protect);
    hide Joined, JoinedAt, AbsorbNext;
    assert next.Some? ==> next.value != s && joined[next.value] == slots[next.value];
    AbsorbsNext(joined, s, next);
  }

  lemma JoinedShape(slots: seq<Slot>, k: nat, previous: Option<nat>, protect: bool)
    requires k < |slots| && (slots[k].mode.Allocated? || slots[k].mode.InternalUse?)
    requires previous.Some? ==> previous.value < |slots| && previous.value != k
    ensures var joined, s := Joined(slots, k, previous, protect), JoinedAt(slots, k, previous);
            && (s == k || (previous == Some(s) && joined[k] == EMPTY && IsFree(slots[s])))
            && IsFree(joined[s])
            && forall j :: 0 <= j < |slots| && j != k && j != s ==> joined[j] == slots[j]
  {
  }

  lemma CoalesceTiling(slots: seq<Slot>, mapped: set<int>, page: int, k: nat,
                       previous: Option<nat>, next: Option<nat>, protect: bool)
    requires page > 0 && Tiling(slots, mapped, page) && Neighbours(slots, k, previous, next) && InUse(slots[k])
    requires previous.Some? ==> previous.value != k && InUse(slots[previous.value])
    requires next.Some? ==> next.value != k && InUse(slots[next.value])
    requires previous.Some? && next.Some? ==> previous.value != next.value
    ensures var after := Coalesce(slots, k, previous, next, protect);
            && Tiling(after, mapped, page)
            && CountUnused(after) == CountUnused(slots) + FreeAround(slots, previous, next)
  {
    hide Tiling, CountUnused, Live;
    var marked := slots[k := slots[k].(mode := if protect then Protected else Free)];
    RelabelKeeps(slots, mapped, page, k, marked[k]);
    var join := previous.Some? && IsFree(marked[previous.value]);
    var joined := if join then JoinPrevious(marked, previous.value, k, protect) else marked;
    var s := if join then previous.value else k;
    if join {
      MergeKeeps(marked, mapped, page, s, k);
      RelabelKeeps(MergeSlots(marked, s, k), mapped, page, s, joined[s]);
    }
    var whole := if next.Some? && IsFree(joined[next.value]) then MergeSlots(joined, s, next.value) else joined;
    if next.Some? && IsFree(joined[next.value]) {
      MergeKeeps(joined, mapped, page, s, next.value);
    }
    RelabelKeeps(whole, mapped, page, s,
                 whole[s].(userAddress := whole[s].internalAddress, userSize := whole[s].internalSize));
  }

  /** Freeing a buffer keeps the tiling, counts exactly the slots that coalescing wipes, and touches no other buffer. */
  lemma CoalesceKeeps(slots: seq<Slot>, mapped: set<int>, page: int, below: bool, k: nat,
                      previous: Option<nat>, next: Option<nat>, protect: bool)
    requires page > 0 && Tiling(slots, mapped, page) && Layouts(slots, page, below)
    requires Neighbours(slots, k, previous, next) && (slots[k].mode.Allocated? || slots[k].mode.InternalUse?)
    ensures var after := Coalesce(slots, k, previous, next, protect);
            && |after| == |slots| && Tiling(after, mapped, page) && Layouts(after, page, below)
            && CountUnused(after) == CountUnused(slots) + FreeAround(slots, previous, next)
            && !after[k].mode.Allocated? && !after[k].mode.InternalUse?
            && (forall j :: 0 <= j < |slots| && j != k && !IsFree(slots[j]) ==> after[j] == slots[j])
            && (forall j :: 0 <= j < |slots| && after[j].mode.Allocated? ==> after[j] == slots[j])
  {
    NeighboursDiffer(slots, mapped, page, k, previous, next);
    CoalesceTiling(slots, mapped, page, k, previous, next, protect);
    CoalesceShape(slots, k, previous, next, protect);
    hide Coalesce, Tiling, CountUnused, Layouts, KeptWipedOrFree, Neighbours;
    KeptKeepsLayouts(slots, Coalesce(slots, k, previous, next, protect), page, below);
  }

  lemma KeptKeepsLayouts(slots: seq<Slot>, after: seq<Slot>, page: int, below: bool)
    requires |after| == |slots| && Layouts(slots, page, below)
    requires forall j :: 0 <= j < |slots| ==> KeptWipedOrFree(slots[j], after[j])
    ensures Layouts(after, page, below)
    ensures forall j :: 0 <= j < |slots| && after[j].mode.Allocated? ==> after[j] == slots[j]
  {
  }

  /** The live buffers but for the one at an address. */
  ghost function Except(live: set<(int, int)>, address: int): set<(int, int)> {
    set x | x in live && x.0 != address
  }

  /** Once a buffer's slot is no longer allocated and the other buffers are untouched, exactly that buffer is gone. */
  lemma LiveWithout(slots: seq<Slot>, after: seq<Slot>, mapped: set<int>, page: int, below: bool, k: nat)
    requires page > 0 && Tiling(slots, mapped, page) && Layouts(slots, page, below) && |after| == |slots| && k < |slots|
    requires slots[k].mode.Allocated? && !after[k].mode.Allocated?
    requires forall j :: 0 <= j < |slots| && j != k && slots[j].mode.Allocated? ==> after[j] == slots[j]
    requires forall j :: 0 <= j < |slots| && after[j].mode.Allocated? ==> after[j] == slots[j]
    ensures Live(after) == Except(Live(slots), slots[k].userAddress)
  {
    forall x
      ensures x in Live(after) <==> x in Live(slots) && x.0 != slots[k].userAddress
    {
      assert UserLayout(slots[k], page, below);
      if x in Live(after) {
        var j: nat :| j < |after| && after[j].mode.Allocated? && x == (after[j].userAddress, after[j].userSize);
        assert slots[j].mode.Allocated? && x in Live(slots) && UserLayout(slots[j], page, below);
        BufferAddressUnique(slots, mapped, page, below, k, j);
      }
      if x in Live(slots) && x.0 != slots[k].userAddress {
        var j: nat :| j < |slots| && slots[j].mode.Allocated? && x == (slots[j].userAddress, slots[j].userSize);
        assert after[j] == slots[j];
      }
    }
  }

  /** What freeing a slot means for the allocator: all of the above, exactly that buffer gone, if it was one, and the
      list still in place. */
  lemma Released(slots: seq<Slot>, mapped: set<int>, page: int, below: bool, k: nat,
                 previous: Option<nat>, next: Option<nat>, protect: bool, list: nat)
    requires page > 0 && Tiling(slots, mapped, page) && Layouts(slots, page, below)
    requires Neighbours(slots, k, previous, next) && (slots[k].mode.Allocated? || slots[k].mode.InternalUse?)
    requires list < |slots| && list != k && slots[list].mode.InternalUse?
    ensures var after := Coalesce(slots, k, previous, next, protect);
            && |after| == |slots| && Tiling(after, mapped, page) && Layouts(after, page, below)
            && CountUnused(after) == CountUnused(slots) + FreeAround(slots, previous, next)
            && after[list] == slots[list]
            && Live(after)
               == (if slots[k].mode.Allocated? then Except(Live(slots), slots[k].userAddress) else Live(slots))
  {
    CoalesceKeeps(slots, mapped, page, below, k, previous, next, protect);
    hide Tiling, Layouts, CountUnused, Live, Coalesce;
    if slots[k].mode.Allocated? {
      LiveWithout(slots, Coalesce(slots, k, previous, next, protect), mapped, page, below, k);
    } else {
      LiveUnchanged(slots, Coalesce(slots, k, previous, next, protect));
    }
  }

  // ---------------------------------------------------------------- what becomes of freed memory

  /** The memory freed with a slot: its own, and that of the free slots right before and behind it. */
  function RunStart(slots: seq<Slot>, k: nat, previous: Option<nat>): int
    requires k < |slots| && (previous.Some? ==> previous.value < |slots|)
  {
    if previous.Some? && IsFree(slots[previous.value]) then slots[previous.value].internalAddress
    else slots[k].internalAddress
  }

  function RunEnd(slots: seq<Slot>, k: nat, next: Option<nat>): int
    requires k < |slots| && (next.Some? ==> next.value < |slots|)
  {
    if next.Some? && IsFree(slots[next.value]) then End(slots[next.value]) else End(slots[k])
  }

  /** What freed memory is from now on. */
  function FreedMode(protect: bool): Mode { if protect then Protected else Free }

  /** One slot has the whole run, those it absorbed are wiped, and the others are as they were. */
  lemma CoalesceIsRun(slots: seq<Slot>, k: nat, previous: Option<nat>, next: Option<nat>, protect: bool)
    requires Neighbours(slots, k, previous, next) && (!protect ==> NoneProtected(slots))
    requires previous.Some? ==> previous.value != k
    requires next.Some? ==> next.value != k
    requires previous.Some? && next.Some? ==> previous.value != next.value
    ensures var after, s := Coalesce(slots, k, previous, next, protect), JoinedAt(slots, k, previous);
            && |after| == |slots|
            && after[s].mode == FreedMode(protect) && after[s].internalAddress == RunStart(slots, k, previous)
            && End(after[s]) == RunEnd(slots, k, next) && Absorbed(slots, s, k, previous, next)
            && forall j :: 0 <= j < |slots| && j != s ==>
                 after[j] == slots[j] || (after[j] == EMPTY && Absorbed(slots, j, k, previous, next))
  {
    hide Joined, JoinedAt, NoneProtected, AbsorbNext, RunStart, FreedMode;
    JoinedIsRun(slots, k, previous, protect);
    var joined, s := Joined(slots, k, previous, protect), JoinedAt(slots, k, previous);
    assert next.Some? ==> next.value != s && joined[next.value] == slots[next.value];
    AbsorbsNext(joined, s, next);
    forall j | 0 <= j < |slots| && j != s
      ensures var t := AbsorbNext(joined, s, next)[j];
              t == slots[j] || (t == EMPTY && Absorbed(slots, j, k, previous, next))
    {
      if j != k && Some(j) != next {
        assert joined[j] == slots[j];
      }
    }
  }

  lemma AbsorbsNext(slots: seq<Slot>, s: nat, next: Option<nat>)
    requires s < |slots| && (next.Some? ==> next.value < |slots| && next.value != s)
    ensures var after, absorbs := AbsorbNext(slots, s, next), next.Some? && IsFree(slots[next.value]);
            && |after| == |slots| && after[s].mode == slots[s].mode
            && after[s].userAddress == after[s].internalAddress == slots[s].internalAddress
            && End(after[s]) == End(slots[s]) + (if absorbs then slots[next.value].internalSize else 0)
            && forall j :: 0 <= j < |slots| && j != s ==>
                             after[j] == if absorbs && Some(j) == next then EMPTY else slots[j]
  {
  }

  /** A slot whose memory is freed along with slot k, or k itself. */
  predicate Absorbed(slots: seq<Slot>, j: nat, k: nat, previous: Option<nat>, next: Option<nat>)
    requires j < |slots|
  {
    j == k || ((Some(j) == previous || Some(j) == next) && IsFree(slots[j]))
  }

  lemma JoinedIsRun(slots: seq<Slot>, k: nat, previous: Option<nat>, protect: bool)
    requires Neighbours(slots, k, previous, None) && (!protect ==> NoneProtected(slots))
    requires previous.Some? ==> previous.value != k
    ensures var joined, s := Joined(slots, k, previous, protect), JoinedAt(slots, k, previous);
            && joined[s].mode == FreedMode(protect) && joined[s].internalAddress == RunStart(slots, k, previous)
            && End(joined[s]) == End(slots[k]) && (s == k || (Some(s) == previous && IsFree(slots[s])))
            && forall j :: 0 <= j < |slots| && j != s ==> joined[j] == slots[j] || (joined[j] == EMPTY && j == k)
  {
  }

  lemma AbsorbedInRun(slots: seq<Slot>, mapped: set<int>, page: int, k: nat, previous: Option<nat>, next: Option<nat>)
    requires page > 0 && Tiling(slots, mapped, page) && Neighbours(slots, k, previous, next) && InUse(slots[k])
    requires previous.Some? ==> InUse(slots[previous.value])
    requires next.Some? ==> InUse(slots[next.value])
    ensures forall j :: 0 <= j < |slots| && Absorbed(slots, j, k, previous, next) ==>
              RunStart(slots, k, previous) <= slots[j].internalAddress && End(slots[j]) <= RunEnd(slots, k, next)
  {
    assert WellShaped(slots[k], page);
    assert previous.Some? ==> WellShaped(slots[previous.value], page);
    assert next.Some? ==> WellShaped(slots[next.value], page);
  }

  /** Freeing: of all the bytes of the arena, exactly those of the run change, and all of them are protected, or all
      free. */
  lemma CoalesceBecomes(slots: seq<Slot>, mapped: set<int>, page: int, k: nat, previous: Option<nat>,
                        next: Option<nat>, protect: bool)
    requires page > 0 && Tiling(slots, mapped, page) && Neighbours(slots, k, previous, next)
    requires slots[k].mode.Allocated? || slots[k].mode.InternalUse?
    requires !protect ==> NoneProtected(slots)
    ensures var after := Coalesce(slots, k, previous, next, protect);
            && Becomes(slots, after, RunStart(slots, k, previous), RunEnd(slots, k, next), FreedMode(protect))
  {
    hide Coalesce, JoinedAt, CountUnused, Tiling, RunStart, RunEnd, NoneProtected;
    NeighboursDiffer(slots, mapped, page, k, previous, next);
    CoalesceTiling(slots, mapped, page, k, previous, next, protect);
    CoalesceIsRun(slots, k, previous, next, protect);
    AbsorbedInRun(slots, mapped, page, k, previous, next);
    hide Absorbed;
    var after, s := Coalesce(slots, k, previous, next, protect), JoinedAt(slots, k, previous);
    var start, end := RunStart(slots, k, previous), RunEnd(slots, k, next);
    forall j, p | 0 <= j < |slots| && Covers(slots[j], p) && !(start <= p < end)
      ensures Holds(after, slots[j].mode, p)
    {
      assert after[j] == slots[j];
    }
    forall j, p | 0 <= j < |after| && j != s && Covers(after[j], p)
      ensures Holds(slots, after[j].mode, p)
    {
      assert after[j] == slots[j];
    }
    RangeBecomes(slots, after, mapped, page, s, start, end);
  }

  // ---------------------------------------------------------------- which slot an address finds

  /** The first slot with a user address. */
  ghost predicate FirstAt(slots: seq<Slot>, k: nat, address: int) {
    && k < |slots| && slots[k].userAddress == address
    && forall j :: 0 <= j < k ==> slots[j].userAddress != address
  }

  /** Something that is not a buffer comes before the buffer at an address. */
  ghost predicate Shadowed(slots: seq<Slot>, address: int) {
    exists j, k :: 0 <= j < k < |slots| && Hides(slots[j], slots[k], address)
  }

  predicate Hides(s: Slot, t: Slot, address: int) {
    s.userAddress == address == t.userAddress && !s.mode.Allocated? && t.mode.Allocated?
  }

  /** The slot found for an address is a buffer's exactly when a buffer is live there and nothing shadows it. */
  lemma FirstDecides(slots: seq<Slot>, mapped: set<int>, page: int, below: bool, k: nat, address: int)
    requires page > 0 && Tiling(slots, mapped, page) && Layouts(slots, page, below) && FirstAt(slots, k, address)
    ensures slots[k].mode.Allocated? <==> IsLive(Live(slots), address) && !Shadowed(slots, address)
  {
    forall j: nat | j < |slots| && slots[j].mode.Allocated? && slots[j].userAddress == address
      ensures slots[k].mode.Allocated? ==> j == k
    {
      assert UserLayout(slots[j], page, below) && UserLayout(slots[k], page, below);
      if slots[k].mode.Allocated? {
        BufferAddressUnique(slots, mapped, page, below, j, k);
      }
    }
    if slots[k].mode.Allocated? {
      assert (address, slots[k].userSize) in Live(slots);
    } else if x :| x in Live(slots) && x.0 == address {
      var j: nat :| j < |slots| && slots[j].mode.Allocated? && x == (slots[j].userAddress, slots[j].userSize);
      assert k < j && Hides(slots[k], slots[j], address);
    }
  }

  /** Only an empty buffer protected below can be shadowed. */
  lemma OnlyEmptyIsShadowed(slots: seq<Slot>, mapped: set<int>, page: int, below: bool, address: int)
    requires page > 0 && Tiling(slots, mapped, page) && Layouts(slots, page, below) && address != 0
    ensures Shadowed(slots, address) ==> below && (address, 0) in Live(slots)
  {
    if j, k :| 0 <= j < k < |slots| && Hides(slots[j], slots[k], address) {
      UserAddressUnique(slots, mapped, page, below, j, k);
      assert WellShaped(slots[k], page) && UserLayout(slots[k], page, below);
      UserAddressCovered(slots[k], page, below);
      assert (slots[k].userAddress, slots[k].userSize) in Live(slots);
    }
  }

  /** The allocator's list is what its own address finds. */
  lemma ListIsFirst(slots: seq<Slot>, mapped: set<int>, page: int, below: bool, list: nat)
    requires page > 0 && Tiling(slots, mapped, page) && Layouts(slots, page, below) && list < |slots|
    requires slots[list].mode.InternalUse? && slots[list].userAddress != 0
    requires list == 0 || LiveLayout(slots[list], page, below)
    ensures FirstAt(slots, list, slots[list].userAddress)
  {
    forall j: nat | j < list
      ensures slots[j].userAddress != slots[list].userAddress
    {
      assert UserLayout(slots[j], page, below);
      UserAddressUnique(slots, mapped, page, below, list, j);
      if EmptyAtEnd(slots[j], page, below) {
        BufferAddressUnique(slots, mapped, page, below, j, list);
      }
    }
  }

  /** No live buffer reaches into the slot array. */
  lemma ListApart(slots: seq<Slot>, mapped: set<int>, page: int, below: bool, list: nat, x: (int, int))
    requires page > 0 && Tiling(slots, mapped, page) && Layouts(slots, page, below) && list < |slots|
    requires slots[list].mode.InternalUse? && x in Live(slots)
    ensures x.0 + x.1 <= slots[list].userAddress || slots[list].userAddress + slots[list].userSize <= x.0
  {
    var j: nat :| j < |slots| && slots[j].mode.Allocated? && x == (slots[j].userAddress, slots[j].userSize);
    assert WellShaped(slots[j], page) && WellShaped(slots[list], page);
    assert UserLayout(slots[j], page, below) && UserLayout(slots[list], page, below);
    assert Apart(slots[j], slots[list]);
  }

  /** Freeing the slot an address finds: its memory, with some free memory next to it, takes a mode; the other bytes
      are as they were. */
  ghost predicate FreesRun(before: seq<Slot>, after: seq<Slot>, address: int, mode: Mode) {
    forall k: nat :: FirstAt(before, k, address) ==>
      exists start, end :: IsRun(before, before[k], start, end) && Becomes(before, after, start, end, mode)
  }

  /** A slot's memory with free memory before and behind it, if there is any. */
  ghost predicate IsRun(slots: seq<Slot>, s: Slot, start: int, end: int) {
    && start <= s.internalAddress && End(s) <= end
    && (forall p :: start <= p < end && !Covers(s, p) ==> FreeAt(slots, p))
    && (FreeAt(slots, s.internalAddress - 1) ==> start < s.internalAddress)
    && (FreeAt(slots, End(s)) ==> End(s) < end)
  }

  ghost predicate FreeAt(slots: seq<Slot>, p: int) { Holds(slots, Free, p) || Holds(slots, Protected, p) }

  lemma RunIsRun(slots: seq<Slot>, mapped: set<int>, page: int, k: nat, previous: Option<nat>, next: Option<nat>)
    requires page > 0 && Tiling(slots, mapped, page) && Neighbours(slots, k, previous, next) && InUse(slots[k])
    requires FirstEnding(slots, previous, slots[k].internalAddress) && FirstStarting(slots, next, End(slots[k]))
    ensures IsRun(slots, slots[k], RunStart(slots, k, previous), RunEnd(slots, k, next))
  {
    NeighboursDiffer(slots, mapped, page, k, previous, next);
    assert previous.Some? ==> WellShaped(slots[previous.value], page);
    assert next.Some? ==> WellShaped(slots[next.value], page);
    forall p | RunStart(slots, k, previous) <= p < RunEnd(slots, k, next) && !Covers(slots[k], p)
      ensures FreeAt(slots, p)
    {
      assert Covers(slots[if p < slots[k].internalAddress then previous.value else next.value], p);
    }
    if FreeAt(slots, slots[k].internalAddress - 1) {
      FreeBefore(slots, mapped, page, k, previous);
    }
    if FreeAt(slots, End(slots[k])) {
      FreeBehind(slots, mapped, page, k, next);
    }
  }

  lemma PositiveOrWiped(slots: seq<Slot>, mapped: set<int>, page: int, j: nat)
    requires page > 0 && Tiling(slots, mapped, page) && j < |slots|
    ensures if InUse(slots[j]) then slots[j].internalAddress > 0 && slots[j].internalSize > 0 else slots[j] == EMPTY
  {
    assert WellShaped(slots[j], page);
  }

  lemma TwoApart(slots: seq<Slot>, mapped: set<int>, page: int, i: nat, j: nat)
    requires page > 0 && Tiling(slots, mapped, page) && i < |slots| && j < |slots|
    requires InUse(slots[i]) && InUse(slots[j])
    ensures i == j || Apart(slots[i], slots[j])
  {
  }

  lemma FreeSlotAt(slots: seq<Slot>, p: int) returns (j: nat)
    requires FreeAt(slots, p)
    ensures j < |slots| && IsFree(slots[j]) && InUse(slots[j]) && slots[j].internalAddress <= p < End(slots[j])
  {
    j :| j < |slots| && IsFree(slots[j]) && Covers(slots[j], p);
    assert IsFree(slots[j]) && Covers(slots[j], p);
  }

  /** The lookups miss no free memory next to a slot. */
  lemma FreeBefore(slots: seq<Slot>, mapped: set<int>, page: int, k: nat, previous: Option<nat>)
    requires page > 0 && Tiling(slots, mapped, page) && k < |slots| && InUse(slots[k])
    requires FirstEnding(slots, previous, slots[k].internalAddress)
    requires FreeAt(slots, slots[k].internalAddress - 1)
    ensures previous.Some? && IsFree(slots[previous.value]) && slots[previous.value].internalSize > 0
  {
    hide Tiling, FreeAt, IsFree;
    var j := FreeSlotAt(slots, slots[k].internalAddress - 1);
    PositiveOrWiped(slots, mapped, page, k);
    TwoApart(slots, mapped, page, j, k);
    assert End(slots[j]) == slots[k].internalAddress;
    PositiveOrWiped(slots, mapped, page, previous.value);
    TwoApart(slots, mapped, page, previous.value, j);
  }

  lemma FreeBehind(slots: seq<Slot>, mapped: set<int>, page: int, k: nat, next: Option<nat>)
    requires page > 0 && Tiling(slots, mapped, page) && k < |slots| && InUse(slots[k])
    requires FirstStarting(slots, next, End(slots[k])) && FreeAt(slots, End(slots[k]))
    ensures next.Some? && IsFree(slots[next.value]) && slots[next.value].internalSize > 0
  {
    hide Tiling, FreeAt, IsFree;
    var j := FreeSlotAt(slots, End(slots[k]));
    PositiveOrWiped(slots, mapped, page, k);
    PositiveOrWiped(slots, mapped, page, j);
    TwoApart(slots, mapped, page, j, k);
    assert slots[j].internalAddress == End(slots[k]);
    PositiveOrWiped(slots, mapped, page, next.value);
    TwoApart(slots, mapped, page, next.value, j);
  }

  lemma FreedNoneProtected(slots: seq<Slot>, k: nat, previous: Option<nat>, next: Option<nat>, protect: bool)
    requires k < |slots| && (previous.Some? ==> previous.value < |slots|) && (next.Some? ==> next.value < |slots|)
    requires !protect ==> NoneProtected(slots)
    ensures !protect ==> NoneProtected(Coalesce(slots, k, previous, next, protect))
  {
    if !protect {
      hide IsFree;
      assert NoneProtected(Joined(slots, k, previous, false));
    }
  }

  /** What freeing means for the bytes: the run changes as a whole, and if freed memory is protected, all of it and of
      the buffer stays so. */
  lemma FreeBuries(slots: seq<Slot>, mapped: set<int>, page: int, below: bool, k: nat, previous: Option<nat>,
                   next: Option<nat>, protect: bool)
    requires page > 0 && Tiling(slots, mapped, page) && Layouts(slots, page, below)
    requires Neighbours(slots, k, previous, next) && (slots[k].mode.Allocated? || slots[k].mode.InternalUse?)
    requires FirstEnding(slots, previous, slots[k].internalAddress) && FirstStarting(slots, next, End(slots[k]))
    requires !protect ==> NoneProtected(slots)
    requires var after := Coalesce(slots, k, previous, next, protect);
             Live(after)
             == if slots[k].mode.Allocated? then Except(Live(slots), slots[k].userAddress) else Live(slots)
    ensures var after := Coalesce(slots, k, previous, next, protect);
            && (FirstAt(slots, k, slots[k].userAddress) ==>
                  FreesRun(slots, after, slots[k].userAddress, if protect then Protected else Free))
            && (protect ==> Buried(slots, after))
  {
    CoalesceBecomes(slots, mapped, page, k, previous, next, protect);
    RunIsRun(slots, mapped, page, k, previous, next);
    assert RunStart(slots, k, previous) <= slots[k].internalAddress && End(slots[k]) <= RunEnd(slots, k, next);
    hide Coalesce, Tiling, Layouts, Neighbours, RunStart, RunEnd, Live, Holds, IsRun, Except, Becomes;
    if protect {
      RunBuries(slots, Coalesce(slots, k, previous, next, protect), mapped, page, below, k,
                RunStart(slots, k, previous), RunEnd(slots, k, next));
    }
  }

  lemma RunBuries(slots: seq<Slot>, after: seq<Slot>, mapped: set<int>, page: int, below: bool, k: nat, start: int,
                  end: int)
    requires page > 0 && Tiling(slots, mapped, page) && Layouts(slots, page, below) && k < |slots|
    requires start <= slots[k].internalAddress && End(slots[k]) <= end && Becomes(slots, after, start, end, Protected)
    requires Live(after)
             == if slots[k].mode.Allocated? then Except(Live(slots), slots[k].userAddress) else Live(slots)
    ensures Buried(slots, after)
  {
    if slots[k].mode.Allocated? {
      assert LiveLayout(slots[k], page, below) by { assert UserLayout(slots[k], page, below); }
      SizeOfLive(slots, mapped, page, below, k);
    }
    hide Tiling, Layouts, Live, Holds;
    forall x | x in Live(slots) && x !in Live(after)
      ensures Dead(after, x)
    {
      assert x == (slots[k].userAddress, slots[k].userSize);
    }
  }

  // ---------------------------------------------------------------- allocation and release as functions of the slots

  /** The slots a buffer is carved from: those found, or with fresh memory in the first unused one if nothing fits. */
  ghost function Supplied(slots: seq<Slot>, mapped: set<int>, need: int, page: int,
                          kernel: (set<int>, int) -> int): seq<Slot>
    requires page > 0
  {
    if SomeFit(slots, need) || !exists e: nat :: FirstUnused(slots, e) then slots
    else
      var e: nat :| FirstUnused(slots, e);
      slots[e := Slot(0, kernel(mapped, Chunk(need, page)), 0, Chunk(need, page), Free)]
  }

  ghost function SuppliedMemory(slots: seq<Slot>, mapped: set<int>, need: int, page: int,
                                kernel: (set<int>, int) -> int): set<int>
    requires page > 0
  {
    if SomeFit(slots, need) then mapped
    else mapped + Range(kernel(mapped, Chunk(need, page)), Chunk(need, page))
  }

  /** Not enough unused slots: one is needed for the surplus, and one for fresh memory if nothing fits. */
  ghost predicate TooFew(slots: seq<Slot>, need: int) {
    CountUnused(slots) <= if SomeFit(slots, need) then 0 else 1
  }

  ghost predicate NextUnused(slots: seq<Slot>, e: nat, second: nat) {
    e < second && Unused(slots, second) && forall j: nat :: e < j < second ==> !Unused(slots, j)
  }

  /** Fresh memory goes to the first unused slot, which is then the best fit, and the surplus to the next unused one. */
  lemma SuppliedFresh(slots: seq<Slot>, mapped: set<int>, need: int, page: int, kernel: (set<int>, int) -> int, e: nat,
                      second: nat)
    requires page > 0 && !SomeFit(slots, need) && FirstUnused(slots, e) && NextUnused(slots, e, second)
    ensures var after := Supplied(slots, mapped, need, page, kernel);
            && after == slots[e := Slot(0, kernel(mapped, Chunk(need, page)), 0, Chunk(need, page), Free)]
            && FirstBest(after, e, need) && FirstUnused(after, second)
  {
    var created := Slot(0, kernel(mapped, Chunk(need, page)), 0, Chunk(need, page), Free);
    assert forall j: nat :: FirstUnused(slots, j) ==> j == e;
    RoundUpIsMultiple(if MEMORY_CREATION_SIZE < need then need else MEMORY_CREATION_SIZE, page);
    assert Fits(created, need);
    var after := slots[e := created];
    assert forall j: nat :: j < |slots| && j != e ==> !Fits(slots[j], need) && after[j] == slots[j];
    assert forall j: nat :: j < |slots| && j != e ==> (Unused(after, j) <==> Unused(slots, j));
    assert BestFit(after, e, |after|, need);
  }

  /** The address the best fit gives a buffer. */
  ghost predicate PlacesAt(slots: seq<Slot>, need: int, size: int, page: int, below: bool, address: int) {
    exists f: nat ::
      FirstBest(slots, f, need) && address == AddressIn(slots[f].internalAddress, need, size, page, below)
  }

  /** It is determined. */
  lemma PlaceUnique(slots: seq<Slot>, need: int, size: int, page: int, below: bool, x: int, y: int)
    requires PlacesAt(slots, need, size, page, below, x) && PlacesAt(slots, need, size, page, below, y)
    ensures x == y
  {
    var f: nat :| FirstBest(slots, f, need) && x == AddressIn(slots[f].internalAddress, need, size, page, below);
    var g: nat :| FirstBest(slots, g, need) && y == AddressIn(slots[g].internalAddress, need, size, page, below);
    FirstBestUnique(slots, f, g, need);
  }

  /** The slots after a buffer was carved out of the best fit. */
  ghost predicate CarvedFrom(before: seq<Slot>, after: seq<Slot>, need: int, mode: Mode, address: int, size: int) {
    exists f: nat, e: nat ::
      FirstBest(before, f, need) && FirstUnused(before, e) && after == Carve(before, f, e, need, mode, address, size)
  }

  /** They are determined. */
  lemma CarvedIs(before: seq<Slot>, after: seq<Slot>, need: int, mode: Mode, address: int, size: int, f: nat, e: nat)
    requires CarvedFrom(before, after, need, mode, address, size)
    requires FirstBest(before, f, need) && FirstUnused(before, e)
    ensures after == Carve(before, f, e, need, mode, address, size)
  {
    hide Carve;
    var f', e' :| FirstBest(before, f', need) && FirstUnused(before, e')
                  && after == Carve(before, f', e', need, mode, address, size);
    FirstBestUnique(before, f, f', need);
    FirstUnusedUnique(before, e, e');
  }

  /** As functions: the slots carved from, and the slots a buffer is freed in. */
  ghost function Carved(slots: seq<Slot>, need: int, mode: Mode, size: int, page: int, below: bool): seq<Slot> {
    if !exists f: nat, e: nat :: FirstBest(slots, f, need) && FirstUnused(slots, e) then slots
    else
      var f: nat, e: nat :| FirstBest(slots, f, need) && FirstUnused(slots, e);
      Carve(slots, f, e, need, mode, AddressIn(slots[f].internalAddress, need, size, page, below), size)
  }

  lemma CarvedFunction(before: seq<Slot>, after: seq<Slot>, need: int, mode: Mode, address: int, size: int, page: int,
                       below: bool)
    requires CarvedFrom(before, after, need, mode, address, size) && PlacesAt(before, need, size, page, below, address)
    ensures after == Carved(before, need, mode, size, page, below)
  {
    hide Carve;
    var f: nat, e: nat :| FirstBest(before, f, need) && FirstUnused(before, e)
                          && after == Carve(before, f, e, need, mode, address, size);
    assert forall g: nat :: FirstBest(before, g, need) ==> g == f;
    assert forall d: nat :: FirstUnused(before, d) ==> d == e;
  }


  lemma FirstUnusedUnique(slots: seq<Slot>, j: nat, k: nat)
    requires FirstUnused(slots, j) && FirstUnused(slots, k)
    ensures j == k
  {
  }

  ghost predicate FirstEnding(slots: seq<Slot>, found: Option<nat>, address: int) {
    match found
    case Some(k) => k < |slots| && End(slots[k]) == address && forall j :: 0 <= j < k ==> End(slots[j]) != address
    case None => forall j :: 0 <= j < |slots| ==> End(slots[j]) != address
  }

  ghost predicate FirstStarting(slots: seq<Slot>, found: Option<nat>, address: int) {
    match found
    case Some(k) =>
      && k < |slots| && slots[k].internalAddress == address
      && forall j :: 0 <= j < k ==> slots[j].internalAddress != address
    case None => forall j :: 0 <= j < |slots| ==> slots[j].internalAddress != address
  }

  /** The slots after the buffer found at an address was freed. */
  ghost predicate FreedFrom(before: seq<Slot>, after: seq<Slot>, address: int, protect: bool) {
    exists k: nat, previous: Option<nat>, next: Option<nat> ::
      FreedAt(before, after, address, protect, k, previous, next)
  }

  ghost predicate FreedAt(before: seq<Slot>, after: seq<Slot>, address: int, protect: bool, k: nat,
                          previous: Option<nat>, next: Option<nat>)
  {
    && FirstAt(before, k, address)
    && FirstEnding(before, previous, before[k].internalAddress) && FirstStarting(before, next, End(before[k]))
    && after == Coalesce(before, k, previous, next, protect)
  }

  lemma FreedIs(before: seq<Slot>, after: seq<Slot>, address: int, protect: bool, k: nat, previous: Option<nat>,
                next: Option<nat>)
    requires FreedFrom(before, after, address, protect) && FirstAt(before, k, address)
    requires FirstEnding(before, previous, before[k].internalAddress) && FirstStarting(before, next, End(before[k]))
    ensures after == Coalesce(before, k, previous, next, protect)
  {
    hide Coalesce;
    var k', previous', next' :| FreedAt(before, after, address, protect, k', previous', next');
    assert k == k';
    assert previous == previous' && next == next';
  }

  ghost function Freed(slots: seq<Slot>, address: int, protect: bool): seq<Slot> {
    if !exists after :: FreedFrom(slots, after, address, protect) then slots
    else
      var after :| FreedFrom(slots, after, address, protect);
      after
  }

  lemma FreedFunction(before: seq<Slot>, after: seq<Slot>, address: int, protect: bool)
    requires FreedFrom(before, after, address, protect)
    ensures after == Freed(before, address, protect)
  {
    var k, previous, next :| FreedAt(before, after, address, protect, k, previous, next);
    hide Coalesce, FreedFrom;
    forall other | FreedFrom(before, other, address, protect)
      ensures other == after
    {
      FreedIs(before, other, address, protect, k, previous, next);
    }
  }

  ghost predicate IsLive(live: set<(int, int)>, address: int) { exists x :: x in live && x.0 == address }

  ghost predicate NoneEmpty(live: set<(int, int)>) { forall x :: x in live ==> x.1 > 0 }

  lemma NoneEmptyWithout(live: set<(int, int)>, address: int)
    ensures NoneEmpty(live) ==> NoneEmpty(Except(live, address))
  {
  }

  /** The live buffers but for the one at an address, if that is not null. */
  ghost function Without(live: set<(int, int)>, address: int): set<(int, int)> {
    if address == 0 then live else Except(live, address)
  }

  lemma LiveAfterMove(live: set<(int, int)>, oldBuffer: int, entry: (int, int))
    ensures IsLive(live + {entry}, oldBuffer) <==> IsLive(live, oldBuffer) || entry.0 == oldBuffer
    ensures entry.0 != oldBuffer ==> Except(live + {entry}, oldBuffer) == Except(live, oldBuffer) + {entry}
    ensures entry.0 == oldBuffer && !IsLive(live, oldBuffer) ==> Except(live + {entry}, oldBuffer) == live
  {
    assert entry in live + {entry};
    assert forall x :: x in live + {entry} ==> x in live || x == entry;
  }

  lemma SizesAfterMove(live: set<(int, int)>, oldBuffer: int, entry: (int, int))
    requires forall x :: x in live ==> x.0 != entry.0
    ensures entry.0 == oldBuffer ==> !IsLive(live, oldBuffer)
    ensures forall size :: (oldBuffer, size) in live ==> (oldBuffer, size) in live + {entry} && entry.0 != oldBuffer
  {
  }

  /** A buffer that has just joined the live ones overlaps none of them. */
  lemma NewBufferApart(slots: seq<Slot>, mapped: set<int>, page: int, below: bool, live: set<(int, int)>, address: int,
                       size: int)
    requires page > 0 && Tiling(slots, mapped, page) && Layouts(slots, page, below)
    requires Live(slots) == live + {(address, size)} && forall x :: x in live ==> x.0 != address
    ensures forall x :: x in live ==> x.0 + x.1 <= address || address + size <= x.0
  {
    hide Tiling, Layouts, Live;
    forall x | x in live
      ensures x.0 + x.1 <= address || address + size <= x.0
    {
      assert (address, size) in Live(slots);
      LiveBuffersDisjoint(slots, mapped, page, below, x, (address, size));
    }
  }

  lemma SizeOfLive(slots: seq<Slot>, mapped: set<int>, page: int, below: bool, k: nat)
    requires page > 0 && Tiling(slots, mapped, page) && Layouts(slots, page, below)
    requires k < |slots| && slots[k].mode.Allocated?
    ensures slots[k].userSize >= 0
    ensures forall size :: (slots[k].userAddress, size) in Live(slots) ==> size == slots[k].userSize
  {
    assert UserLayout(slots[k], page, below);
    forall size | (slots[k].userAddress, size) in Live(slots)
      ensures size == slots[k].userSize
    {
      var j: nat :| j < |slots| && slots[j].mode.Allocated?
                    && (slots[k].userAddress, size) == (slots[j].userAddress, slots[j].userSize);
      assert UserLayout(slots[j], page, below) && UserLayout(slots[k], page, below);
      BufferAddressUnique(slots, mapped, page, below, k, j);
    }
  }

  class Fence {
    const bytesPerPage: int
    const slotSize: int
    const defaultAlignment: int
    const protectFree: bool
    const protectBelow: bool
    const allowMalloc0: bool
    const pageCreate: (set<int>, int) -> int

    var slots: seq<Slot>
    var allocationList: int
    var allocationListSize: int
    var unUsedSlots: int
    var internalUse: bool
    /** Memory obtained from the system so far, and what the bytes of buffers hold. */
    var mapped: set<int>
    var mem: Memory

    /** At least four slots fit in a page. */
    ghost predicate Config() {
      bytesPerPage > 0 && slotSize > 0 && bytesPerPage / slotSize >= 4 && HonestKernel(pageCreate, bytesPerPage)
    }

    /** initialize() books two slots even when a page is so large that only one is used. */
    function Overbooked(): int {
      if bytesPerPage < MEMORY_CREATION_SIZE then 0 else 1
    }

    /** The slot array lives in the k-th slot, a buffer like any other once it has moved out of its first page. */
    ghost predicate IsList(k: int)
      reads `slots, `allocationList, `allocationListSize
    {
      && 0 <= k < |slots| && slots[k].mode.InternalUse?
      && slots[k].userAddress == allocationList && slots[k].userSize >= allocationListSize
      && (k == 0 || LiveLayout(slots[k], bytesPerPage, protectBelow))
    }

    ghost predicate Ready()
      reads `slots, `allocationList, `allocationListSize, `unUsedSlots, `mapped
    {
      && Config() && allocationList > 0 && allocationListSize % bytesPerPage == 0 && allocationListSize > 0
      && Tiling(slots, mapped, bytesPerPage) && Layouts(slots, bytesPerPage, protectBelow)
      && unUsedSlots + Overbooked() == CountUnused(slots)
      && ArrayFits(|slots|, allocationListSize)
      && (!allowMalloc0 ==> NoneEmpty(Live(slots))) && (!protectFree ==> NoneProtected(slots))
      && exists k :: IsList(k)
    }

    /** So many slots fit in a buffer. */
    predicate ArrayFits(count: nat, size: int) { count * slotSize <= size }

    /** The slot array is out of reach of every live buffer. */
    lemma SlotArrayApart(x: (int, int))
      requires Ready() && x in Live(slots)
      ensures x.0 + x.1 <= allocationList || allocationList + |slots| * slotSize <= x.0
    {
      var list :| IsList(list);
      ListApart(slots, mapped, bytesPerPage, protectBelow, list, x);
    }

    /** Between calls: either nothing has happened yet, or the arena is consistent with two slots in reserve. */
    ghost predicate Valid()
      reads `slots, `allocationList, `allocationListSize, `unUsedSlots, `mapped, `internalUse
    {
      && Config() && !internalUse
      && (if allocationList == 0 then slots == [] && mapped == {} else Ready() && unUsedSlots >= 2)
    }

    constructor (page: int, slotBytes: int, alignment: int, protectFree: bool, protectBelow: bool, allowMalloc0: bool,
                 kernel: (set<int>, int) -> int)
      requires page > 0 && slotBytes > 0 && page / slotBytes >= 4 && HonestKernel(kernel, page)
      ensures Valid() && allocationList == 0 && Live(slots) == {}
      ensures bytesPerPage == page && slotSize == slotBytes && defaultAlignment == alignment && pageCreate == kernel
      ensures this.protectFree == protectFree && this.protectBelow == protectBelow && this.allowMalloc0 == allowMalloc0
    {
      bytesPerPage, slotSize, defaultAlignment := page, slotBytes, alignment;
      this.protectFree, this.protectBelow, this.allowMalloc0 := protectFree, protectBelow, allowMalloc0;
      pageCreate := kernel;
      slots, allocationList, allocationListSize, unUsedSlots, internalUse := [], 0, 0, 0, false;
      mapped := {};
      mem := map[];
    }

    // ---------------------------------------------------------------- lookups

    method SlotForUserAddress(address: int) returns (found: Option<nat>)
      ensures found.Some? ==> FirstAt(slots, found.value, address)
      ensures found.None? ==> forall j :: 0 <= j < |slots| ==> slots[j].userAddress != address
    {
      for i := 0 to |slots|
        invariant forall j :: 0 <= j < i ==> slots[j].userAddress != address
      {
        if slots[i].userAddress == address {
          return Some(i);
        }
      }
      return None;
    }

    method SlotForInternalAddress(address: int) returns (found: Option<nat>)
      ensures FirstStarting(slots, found, address)
    {
      for i := 0 to |slots|
        invariant forall j :: 0 <= j < i ==> slots[j].internalAddress != address
      {
        if slots[i].internalAddress == address {
          return Some(i);
        }
      }
      return None;
    }

    method SlotForInternalAddressPreviousTo(address: int) returns (found: Option<nat>)
      ensures FirstEnding(slots, found, address)
    {
      for i := 0 to |slots|
        invariant forall j :: 0 <= j < i ==> End(slots[j]) != address
      {
        if slots[i].internalAddress + slots[i].internalSize == address {
          return Some(i);
        }
      }
      return None;
    }

    method FindNeighbours(k: nat) returns (previous: Option<nat>, next: Option<nat>)
      requires k < |slots|
      ensures FirstEnding(slots, previous, slots[k].internalAddress) && FirstStarting(slots, next, End(slots[k]))
      ensures Neighbours(slots, k, previous, next)
    {
      previous := SlotForInternalAddressPreviousTo(slots[k].internalAddress);
      next := SlotForInternalAddress(slots[k].internalAddress + slots[k].internalSize);
    }

    /** The scan of memalign: the first of the smallest free slots that are large enough, and the first two unused
        slots, as far as they are needed. */
    method FindSlots(need: int) returns (full: Option<nat>, empty0: Option<nat>, empty1: Option<nat>)
      ensures if full.Some? then FirstBest(slots, full.value, need) else !SomeFit(slots, need)
      ensures empty0.Some? ==> FirstUnused(slots, empty0.value)
      ensures empty1.Some? ==> empty0.Some? && NextUnused(slots, empty0.value, empty1.value)
      ensures empty0.None? <==> CountUnused(slots) == 0
      ensures full.None? ==> (empty1.None? <==> CountUnused(slots) <= 1)
    {
      hide CountUnused;
      full, empty0, empty1 := None, None, None;
      var i := 0;
      assert CountUnused(slots[..i]) == 0 by { NoneUnused(slots[..i]); }
      while i < |slots|
        invariant 0 <= i <= |slots|
        invariant full.Some? ==> full.value < i && BestFit(slots, full.value, i, need)
        invariant full.Some? ==> forall j :: 0 <= j < full.value && Fits(slots[j], need) ==>
                                   slots[j].internalSize > slots[full.value].internalSize
        invariant full.None? ==> forall j :: 0 <= j < i ==> !Fits(slots[j], need)
        invariant empty0.Some? ==> empty0.value < i && FirstUnused(slots, empty0.value)
        invariant empty0.None? ==> forall j: nat :: j < i ==> !Unused(slots, j)
        invariant empty1.Some? ==> empty0.Some? && empty1.value < i && NextUnused(slots, empty0.value, empty1.value)
        invariant empty0.Some? && empty1.None? ==> forall j: nat :: empty0.value < j < i ==> !Unused(slots, j)
        invariant empty0.None? ==> CountUnused(slots[..i]) == 0
        invariant empty1.None? ==> CountUnused(slots[..i]) <= 1
      {
        CountOneMore(slots, i);
        if slots[i].mode.Free? && slots[i].internalSize >= need {
          if full.None? || slots[i].internalSize < slots[full.value].internalSize {
            full := Some(i);
            if slots[i].internalSize == need && empty0.Some? {
              break;
            }
          }
        } else if slots[i].mode.NotInUse? {
          if empty0.None? {
            empty0 := Some(i);
          } else if empty1.None? {
            empty1 := Some(i);
          } else if full.Some? && slots[full.value].internalSize == need {
            break;
          }
        }
        i := i + 1;
      }
      if empty0.Some? {
        UnusedAreCounted(slots, empty0.value, if empty1.Some? then empty1.value else empty0.value);
      }
      assert i == |slots| ==> slots[..i] == slots;
    }

    // ---------------------------------------------------------------- memory from the system

    method PageCreate(size: int) returns (a: int)
      requires Config() && size > 0 && size % bytesPerPage == 0
      modifies this`mapped
      ensures a > 0 && a % bytesPerPage == 0
      ensures a == pageCreate(old(mapped), size) && Range(a, size) !! old(mapped)
      ensures mapped == old(mapped) + Range(a, size)
    {
      a := pageCreate(mapped, size);
      mapped := mapped + Range(a, size);
    }

    /** What a call to the allocator finds: before the first one, what initialize() sets up. */
    ghost function FoundSlots(): seq<Slot>
      requires Config()
      reads `slots, `allocationList
    {
      if allocationList != 0 then slots
      else
        var size := Chunk(bytesPerPage, bytesPerPage);
        InitialSlots(bytesPerPage / slotSize, bytesPerPage, pageCreate({}, size), size)
    }

    ghost function FoundMemory(): set<int>
      requires Config()
      reads `mapped, `allocationList
    {
      if allocationList != 0 then mapped
      else
        var size := Chunk(bytesPerPage, bytesPerPage);
        Range(pageCreate({}, size), size)
    }

    ghost function FoundUnused(): int
      requires Config()
      reads `unUsedSlots, `allocationList
    {
      if allocationList != 0 then unUsedSlots else bytesPerPage / slotSize - 2
    }

    ghost function FoundList(): int
      requires Config()
      reads `allocationList
    {
      if allocationList != 0 then allocationList else pageCreate({}, Chunk(bytesPerPage, bytesPerPage))
    }

    ghost function FoundListSize(): int
      reads `allocationListSize, `allocationList
    {
      if allocationList != 0 then allocationListSize else bytesPerPage
    }

    /** The slots once the slot array has moved to a bigger buffer: that buffer carved out, the new slots added, the old
        buffer freed; and the memory. */
    ghost function GrownSlots(before: seq<Slot>, memory: set<int>, list: int, listSize: int): seq<Slot>
      requires Config()
    {
      var size := Rounded(defaultAlignment, listSize + bytesPerPage);
      var supplied := Supplied(before, memory, Needed(size), bytesPerPage, pageCreate);
      var carved := Carved(supplied, Needed(size), InternalUse, size, bytesPerPage, protectBelow);
      Freed(carved + seq(bytesPerPage / slotSize, i => EMPTY), list, protectFree)
    }

    ghost function GrownMemory(before: seq<Slot>, memory: set<int>, listSize: int): set<int>
      requires Config()
    {
      var size := Rounded(defaultAlignment, listSize + bytesPerPage);
      SuppliedMemory(before, memory, Needed(size), bytesPerPage, pageCreate)
    }

    /** What memalign carves from: the slots there are, or if fewer than seven are unused, those once the array has
        grown. */
    ghost function BaseSlots(before: seq<Slot>, memory: set<int>, unused: int, list: int, listSize: int): seq<Slot>
      requires Config()
    {
      if unused < 7 then GrownSlots(before, memory, list, listSize) else before
    }

    ghost function BaseMemory(before: seq<Slot>, memory: set<int>, unused: int, listSize: int): set<int>
      requires Config()
    {
      if unused < 7 then GrownMemory(before, memory, listSize) else memory
    }

    /** There are enough unused slots for memalign not to grow the slot array first. */
    ghost predicate Roomy()
      requires Config()
      reads `unUsedSlots, `allocationList
    {
      FoundUnused() >= 7
    }

    /** The slots and the memory a call carves a buffer from, as a function of the state before it. */
    ghost function Stocked(need: int): seq<Slot>
      requires Config()
      reads `slots, `mapped, `allocationList, `allocationListSize, `unUsedSlots
    {
      Supplied(BaseSlots(FoundSlots(), FoundMemory(), FoundUnused(), FoundList(), FoundListSize()),
               BaseMemory(FoundSlots(), FoundMemory(), FoundUnused(), FoundListSize()), need, bytesPerPage, pageCreate)
    }

    ghost function StockedMemory(need: int): set<int>
      requires Config()
      reads `slots, `mapped, `allocationList, `allocationListSize, `unUsedSlots
    {
      SuppliedMemory(BaseSlots(FoundSlots(), FoundMemory(), FoundUnused(), FoundList(), FoundListSize()),
                     BaseMemory(FoundSlots(), FoundMemory(), FoundUnused(), FoundListSize()), need, bytesPerPage,
                     pageCreate)
    }

    /** The first memory: a page for the slot array, the rest free.  The count of unused slots is exact just when the
        rest is not empty, that is for pages under a megabyte. */
    method Initialize()
      requires Valid() && allocationList == 0
      modifies this
      ensures Valid() && allocationList != 0 && Live(slots) == {} && mem == old(mem)
      ensures slots == old(FoundSlots()) && mapped == old(FoundMemory()) && unUsedSlots == old(FoundUnused())
      ensures allocationList == old(FoundList()) && allocationListSize == old(FoundListSize())
      ensures Buried(old(slots), slots)
      ensures unUsedSlots == CountUnused(slots) <==> bytesPerPage < MEMORY_CREATION_SIZE
    {
      hide Tiling, CountUnused, HonestKernel;
      var page := bytesPerPage;
      var size := MEMORY_CREATION_SIZE;
      var slotCount := page / slotSize;
      allocationListSize := page;
      if allocationListSize > size {
        size := allocationListSize;
      }
      RoundUpIsMultiple(size, page);
      size := RoundUp(size, page);
      InitialSizes(page, size);
      allocationList := PageCreate(size);
      slots := seq(slotCount, i => EMPTY);
      slots := slots[0 := Slot(allocationList, allocationList, allocationListSize, allocationListSize, InternalUse)];
      if size > allocationListSize {
        var start := allocationList + allocationListSize;
        slots := slots[1 := Slot(start, start, size - allocationListSize, size - allocationListSize, Free)];
      }
      unUsedSlots := slotCount - 2;
      InitialArena(slotCount, page, protectBelow, allocationList, size);
      QuotientFits(page, slotSize);
      hide Layouts, Live, NoneProtected, Buried;
      NothingBuried(slots);
      assert mapped == Range(allocationList, size);
      assert IsList(0);
    }

    // ---------------------------------------------------------------- allocation

    /** The size a buffer really gets. */
    function Rounded(alignment: int, userSize: int): int {
      if !protectBelow && alignment > 1 then RoundUp(userSize, alignment) else userSize
    }

    /** The memory it takes, with its dead page. */
    function Needed(size: int): int
      requires bytesPerPage > 0
    {
      RoundUp(size + bytesPerPage, bytesPerPage)
    }

    /** Find or create a free slot for `need` bytes, and an unused slot for what is left over; or call internalError. */
    method FindSpace(need: int) returns (space: Space)
      requires Ready() && need > 0 && need % bytesPerPage == 0
      modifies this`slots, this`unUsedSlots, this`mapped
      ensures space.NoSlot? <==> TooFew(old(slots), need)
      ensures space.NoSlot? ==> slots == old(slots) && unUsedSlots == old(unUsedSlots) && mapped == old(mapped)
      ensures space.Space? ==> Ready() && unUsedSlots + 1 >= old(unUsedSlots) && |slots| == |old(slots)|
      ensures space.Space? ==> slots == Supplied(old(slots), old(mapped), need, bytesPerPage, pageCreate)
      ensures space.Space? ==> mapped == SuppliedMemory(old(slots), old(mapped), need, bytesPerPage, pageCreate)
      ensures space.Space? ==> FirstBest(slots, space.full, need) && FirstUnused(slots, space.empty)
      ensures Live(slots) == old(Live(slots)) && old(mapped) <= mapped && Buried(old(slots), slots)
    {
      hide Tiling, CountUnused, HonestKernel, Layouts, Live, FirstBest, FirstUnused, NextUnused, SomeFit, Supplied;
      hide ArrayFits, Buried, NoneProtected;
      BuriedSame(slots);
      var full, empty0, empty1 := FindSlots(need);
      if empty0.None? {
        return NoSlot;
      }
      if full.Some? {
        FitIsSupplied(slots, mapped, need, bytesPerPage, pageCreate, full.value);
        return Space(full.value, empty0.value);
      }
      if empty1.None? {
        return NoSlot;
      }
      var chunk := MEMORY_CREATION_SIZE;
      if chunk < need {
        chunk := need;
      }
      chunk := RoundUp(chunk, bytesPerPage);
      SuppliedFresh(slots, mapped, need, bytesPerPage, pageCreate, empty0.value, empty1.value);
      CreateMemory(empty0.value, chunk, need);
      space := Space(empty0.value, empty1.value);
    }

    /** Fresh memory takes an unused slot. */
    method CreateMemory(f: nat, chunk: int, ghost need: int)
      requires Ready() && FirstUnused(slots, f) && need > 0 && chunk == Chunk(need, bytesPerPage)
      modifies this`slots, this`unUsedSlots, this`mapped
      ensures Ready() && unUsedSlots == old(unUsedSlots) - 1 && |slots| == |old(slots)|
      ensures slots == old(slots)[f := Slot(0, pageCreate(old(mapped), chunk), 0, chunk, Free)]
      ensures mapped == old(mapped) + Range(pageCreate(old(mapped), chunk), chunk)
      ensures Live(slots) == old(Live(slots)) && Buried(old(slots), slots)
    {
      hide Tiling, CountUnused, HonestKernel, Layouts, Live, ArrayFits, Buried, Becomes, Holds;
      ghost var list :| IsList(list);
      RoundUpIsMultiple(if MEMORY_CREATION_SIZE < need then need else MEMORY_CREATION_SIZE, bytesPerPage);
      assert slots[f] == EMPTY by { UnusedIsEmpty(slots, mapped, bytesPerPage, f); }
      var a := PageCreate(chunk);
      CreateKeeps(slots, old(mapped), bytesPerPage, f, a, chunk);
      CountUpdate(slots, f, Slot(0, a, 0, chunk, Free));
      CreateLayouts(slots, bytesPerPage, protectBelow, f, a, chunk);
      CreateBecomes(slots, old(mapped), bytesPerPage, f, a, chunk);
      UseBuries(slots, slots[f := Slot(0, a, 0, chunk, Free)], a, a + chunk, Free);
      slots := slots[f := slots[f].(internalAddress := a, internalSize := chunk, mode := Free)];
      unUsedSlots := unUsedSlots - 1;
      assert IsList(list);
    }

    /** A slot handed out for `size` bytes, laid out against its dead page. */
    predicate IsBuffer(s: Slot, address: int, size: int, need: int)
      requires bytesPerPage > 0
      reads `internalUse
    {
      && s.userAddress == address && s.userSize == size && s.internalSize == need
      && s.mode == (if internalUse then InternalUse else Allocated)
      && s.internalAddress % bytesPerPage == 0 && LiveLayout(s, bytesPerPage, protectBelow)
    }

    /** The statements that mark a slot, split off its surplus and record the user's address. */
    method CarveSlot(f: nat, e: nat, need: int, mode: Mode, address: int, size: int)
      requires f < |slots| && Fits(slots[f], need) && Unused(slots, e)
      modifies this`slots, this`unUsedSlots
      ensures slots == Carve(old(slots), f, e, need, mode, address, size)
      ensures unUsedSlots == old(unUsedSlots) - (if old(slots)[f].internalSize > need then 1 else 0)
    {
      slots := slots[f := slots[f].(mode := mode)];
      if slots[f].internalSize > need {
        slots := slots[e := slots[e].(internalSize := slots[f].internalSize - need,
                                      internalAddress := slots[f].internalAddress + need, mode := Free)];
        slots := slots[f := slots[f].(internalSize := need)];
        unUsedSlots := unUsedSlots - 1;
      }
      slots := slots[f := slots[f].(userAddress := address, userSize := size)];
    }

    /** Take space for a buffer of `size` bytes: mark the slot, split off the surplus, compute the user's address. */
    method Place(size: int, need: int) returns (r: Outcome)
      requires Ready() && 0 <= size <= need - bytesPerPage && need % bytesPerPage == 0
      requires internalUse || !allowMalloc0 ==> size > 0
      modifies this`slots, this`unUsedSlots, this`mapped
      ensures !r.Abort? && (r.InternalError? <==> TooFew(old(slots), need))
      ensures r.Ok? ==> Ready() && |slots| == |old(slots)| && old(mapped) <= mapped
      ensures r.Ok? ==> unUsedSlots >= old(unUsedSlots) - 2
      ensures r.Ok? ==> r.address > 0 && (internalUse ==> r.address != allocationList)
      ensures r.Ok? ==> Live(slots) == old(Live(slots)) + (if internalUse then {} else {(r.address, size)})
      ensures r.Ok? ==> forall x :: x in old(Live(slots)) ==> x.0 != r.address
      ensures r.Ok? ==> exists k :: 0 <= k < |slots| && IsBuffer(slots[k], r.address, size, need)
      ensures r.Ok? ==> PlacedIn(Supplied(old(slots), old(mapped), need, bytesPerPage, pageCreate),
                                 r.address, size, need)
      ensures r.Ok? ==> mapped == SuppliedMemory(old(slots), old(mapped), need, bytesPerPage, pageCreate)
      ensures r.Ok? ==> Buried(old(slots), slots)
    {
      hide HonestKernel, Layouts, Live, CountUnused, IsBuffer, FirstUnused, SomeFit, Supplied, ArrayFits;
      hide Buried, NoneProtected, TooFew, SuppliedMemory, IsList, NoneEmpty;
      var space := FindSpace(need);
      if space.NoSlot? {
        return InternalError;
      }
      var f, e := space.full, space.empty;
      assert Unused(slots, e) by { FirstUnusedIsUnused(slots, e); }
      var mode := if internalUse then InternalUse else Allocated;
      var start := slots[f].internalAddress;
      assert start > 0 && start % bytesPerPage == 0 by { UsedIsShaped(slots, mapped, bytesPerPage, f); }
      hide Tiling;
      var address := if !protectBelow then start + (need - bytesPerPage) - size else start + bytesPerPage;
      ghost var supplied := slots;
      hide Carve, Unused, Fits;
      Occupy(f, e, need, mode, address, size);
      BuriedTwice(old(slots), supplied, slots);
      assert IsBuffer(slots[f], address, size, need);
      r := Ok(address);
    }

    /** The buffer was carved out of the best fit among the given slots, at the address that fit determines. */
    ghost predicate PlacedIn(before: seq<Slot>, address: int, size: int, need: int)
      reads `slots, `internalUse
    {
      && CarvedFrom(before, slots, need, if internalUse then InternalUse else Allocated, address, size)
      && PlacesAt(before, need, size, bytesPerPage, protectBelow, address)
    }

    /** A free slot with room becomes the buffer. */
    method Occupy(f: nat, e: nat, need: int, mode: Mode, address: int, size: int)
      requires Ready() && f < |slots| && Fits(slots[f], need) && Unused(slots, e)
      requires need > 0 && need % bytesPerPage == 0
      requires mode == (if internalUse then InternalUse else Allocated) && (internalUse || !allowMalloc0 ==> size > 0)
      requires address > 0 && slots[f].internalAddress % bytesPerPage == 0
      requires LiveLayout(Slot(address, slots[f].internalAddress, size, need, mode), bytesPerPage, protectBelow)
      modifies this`slots, this`unUsedSlots
      ensures Ready() && unUsedSlots >= old(unUsedSlots) - 1
      ensures slots == Carve(old(slots), f, e, need, mode, address, size)
      ensures |slots| == |old(slots)| && (internalUse ==> address != allocationList)
      ensures Live(slots) == old(Live(slots)) + (if internalUse then {} else {(address, size)})
      ensures forall x :: x in old(Live(slots)) ==> x.0 != address
      ensures IsBuffer(slots[f], address, size, need) && Buried(old(slots), slots)
    {
      hide Tiling, Layouts, Live, CountUnused, HonestKernel, ArrayFits, Buried, NoneProtected;
      ghost var list :| IsList(list);
      Placed(slots, mapped, bytesPerPage, protectBelow, f, e, need, mode, address, size, list);
      hide Carve, SplitSlot, Fits, Unused, LiveLayout;
      CarveSlot(f, e, need, mode, address, size);
      assert IsList(list);
    }

    /** A slot that can take over the slot array. */
    ghost predicate CanHoldList(k: int, address: int, size: int)
      reads `slots
    {
      && 0 <= k < |slots| && slots[k].mode.InternalUse? && slots[k].userAddress == address && slots[k].userSize >= size
      && LiveLayout(slots[k], bytesPerPage, protectBelow)
    }

    /** Allocation: the failure exit is the zero size and nothing else, internalError is never reached, and the new
        buffer joins the live ones with all invariants kept, even when the slot array had to grow first.  The slots
        afterwards, and so the address, are a function of those before.  Called from inside the allocator it takes
        memory for the slot array instead. */
    method Memalign(alignment: int, userSize: int) returns (r: Outcome)
      requires userSize >= 0
      requires if internalUse then Ready() && unUsedSlots >= 2 && userSize > 0 else Valid()
      modifies this
      decreases if internalUse then 0 else 2, 1
      ensures r != InternalError
      ensures r.Abort? <==> userSize == 0 && !allowMalloc0
      ensures internalUse == old(internalUse) && mem == old(mem)
      ensures !internalUse ==> Valid() && (old(allocationList) != 0 ==> allocationList != 0)
      ensures r.Abort? ==> Live(slots) == old(Live(slots))
      ensures r.Ok? ==> Ready() && r.address > 0 && old(mapped) <= mapped
      ensures r.Ok? && !internalUse ==> Live(slots) == old(Live(slots)) + {(r.address, Rounded(alignment, userSize))}
      ensures r.Ok? && !internalUse ==> forall x :: x in old(Live(slots)) ==> x.0 != r.address
      ensures r.Ok? && !internalUse && old(Roomy()) ==> unUsedSlots >= old(FoundUnused()) - 2
      ensures r.Ok? && !internalUse && bytesPerPage / slotSize >= 7 ==> unUsedSlots >= 5
      ensures r.Ok? && !internalUse && old(allocationList) != 0 ==>
                |slots| == old(|slots|) + (if old(unUsedSlots) < 7 then bytesPerPage / slotSize else 0)
      ensures r.Ok? && !internalUse ==> Took(old(Stocked(Needed(Rounded(alignment, userSize)))),
                                             old(StockedMemory(Needed(Rounded(alignment, userSize)))),
                                             r.address, Rounded(alignment, userSize))
      ensures r.Ok? && internalUse ==>
                var size := Rounded(alignment, userSize);
                && PlacedIn(Supplied(old(slots), old(mapped), Needed(size), bytesPerPage, pageCreate),
                            r.address, size, Needed(size))
                && mapped == SuppliedMemory(old(slots), old(mapped), Needed(size), bytesPerPage, pageCreate)
      ensures r.Ok? && !protectBelow && alignment > 1 && bytesPerPage % alignment == 0 ==> r.address % alignment == 0
      ensures internalUse ==>
                Live(slots) == old(Live(slots)) && unUsedSlots >= old(unUsedSlots) - 2 && |slots| == |old(slots)|
      ensures internalUse ==> allocationList == old(allocationList) && allocationListSize == old(allocationListSize)
      ensures internalUse && r.Ok? ==> r.address != allocationList
      ensures internalUse && r.Ok? ==> exists k :: CanHoldList(k, r.address, userSize)
      ensures protectFree ==> Buried(old(slots), slots)
    {
      hide Tiling, Layouts, Live, CountUnused, HonestKernel, LiveLayout, Supplied, SuppliedMemory, NoneEmpty;
      hide FoundSlots, FoundMemory, PlacedIn, GrownSlots, GrownMemory, ArrayFits, Buried, NoneProtected;
      BuriedSame(slots);
      assert allocationList == 0 ==> Live(slots) == {} by { NoneLive([]); }
      if allocationList == 0 {
        Initialize();
      }
      FoundAgain();
      if userSize == 0 && !allowMalloc0 {
        return Abort;
      }
      var size := Rounded(alignment, userSize);
      var need := Needed(size);
      SizesAdd(size, need, alignment, userSize);
      assert FoundSlots() == old(FoundSlots()) && FoundMemory() == old(FoundMemory());
      ghost var found := slots;
      r := PlaceOrGrow(size, need);
      if protectFree {
        BuriedTwice(old(slots), found, slots);
      }
      ghost var k :| 0 <= k < |slots| && IsBuffer(slots[k], r.address, size, need);
      assert internalUse ==> CanHoldList(k, r.address, userSize);
      if !protectBelow && alignment > 1 && bytesPerPage % alignment == 0 {
        LiveAddress(slots[k], bytesPerPage, need, size, alignment, userSize);
      }
    }

    /** The rest of memalign: grow the slot array if it is nearly full, then take the space. */
    method PlaceOrGrow(size: int, need: int) returns (r: Outcome)
      requires Ready() && unUsedSlots >= 2 && 0 <= size <= need - bytesPerPage && need % bytesPerPage == 0
      requires internalUse || !allowMalloc0 ==> size > 0
      modifies this
      decreases if internalUse then 0 else 2, 0
      ensures r.Ok? && Ready() && internalUse == old(internalUse) && mem == old(mem) && old(mapped) <= mapped
      ensures r.address > 0 && (!internalUse ==> unUsedSlots >= 2 && allocationList != 0)
      ensures Live(slots) == old(Live(slots)) + (if internalUse then {} else {(r.address, size)})
      ensures forall x :: x in old(Live(slots)) ==> x.0 != r.address
      ensures exists k :: 0 <= k < |slots| && IsBuffer(slots[k], r.address, size, need)
      ensures internalUse ==>
                unUsedSlots >= old(unUsedSlots) - 2 && |slots| == |old(slots)| && r.address != allocationList
      ensures internalUse ==> allocationList == old(allocationList) && allocationListSize == old(allocationListSize)
      ensures old(unUsedSlots) >= 7 ==> unUsedSlots >= old(unUsedSlots) - 2
      ensures !internalUse && bytesPerPage / slotSize >= 7 ==> unUsedSlots >= 5
      ensures |slots| == old(|slots|) + (if !internalUse && old(unUsedSlots) < 7 then bytesPerPage / slotSize else 0)
      ensures var unused := if internalUse then 7 else old(unUsedSlots);
              var base := BaseSlots(old(slots), old(mapped), unused, old(allocationList), old(allocationListSize));
              var memory := BaseMemory(old(slots), old(mapped), unused, old(allocationListSize));
              && PlacedIn(Supplied(base, memory, need, bytesPerPage, pageCreate), r.address, size, need)
              && mapped == SuppliedMemory(base, memory, need, bytesPerPage, pageCreate)
      ensures protectFree ==> Buried(old(slots), slots)
    {
      hide Tiling, Layouts, Live, CountUnused, HonestKernel, LiveLayout, Supplied, SuppliedMemory, PlacedIn, IsBuffer;
      hide SomeFit, NoneEmpty, GrownSlots, GrownMemory, ArrayFits, Buried, NoneProtected;
      BuriedSame(slots);
      if !internalUse && unUsedSlots < 7 {
        AllocateMoreSlots();
      }
      ghost var grown := slots;
      EnoughSlots(slots, need);
      r := Place(size, need);
      if protectFree {
        BuriedTwice(old(slots), grown, slots);
      }
    }

    /** After the call: the slots and the memory are those given with the buffer carved out. */
    ghost predicate Took(before: seq<Slot>, memory: set<int>, address: int, size: int)
      requires bytesPerPage > 0
      reads `slots, `mapped, `internalUse
    {
      PlacedIn(before, address, size, Needed(size)) && mapped == memory
    }

    lemma TookCarves(before: seq<Slot>, memory: set<int>, address: int, size: int)
      requires bytesPerPage > 0 && !internalUse && Took(before, memory, address, size)
      ensures CarvedFrom(before, slots, Needed(size), Allocated, address, size)
    {
    }

    lemma FoundAgain()
      requires Config() && allocationList != 0
      ensures FoundSlots() == slots && FoundMemory() == mapped && FoundUnused() == unUsedSlots
      ensures FoundList() == allocationList && FoundListSize() == allocationListSize
    {
    }

    lemma EnoughSlots(slots: seq<Slot>, need: int)
      ensures CountUnused(slots) >= 2 ==> !TooFew(slots, need)
    {
    }

    lemma SizesAdd(size: int, need: int, alignment: int, userSize: int)
      requires Config() && userSize >= 0 && size == Rounded(alignment, userSize)
      requires need == RoundUp(size + bytesPerPage, bytesPerPage)
      ensures 0 <= userSize <= size && (userSize > 0 ==> size > 0)
      ensures size + bytesPerPage <= need && need % bytesPerPage == 0
    {
      RoundUpIsMultiple(size + bytesPerPage, bytesPerPage);
      if alignment > 1 {
        RoundUpIsMultiple(userSize, alignment);
      }
    }

    /** The slots move to a bigger array, with wiped slots behind them; the old array is now an ordinary internal
        buffer, and the slot its address finds. */
    method AdoptList(newAllocation: int, newSize: int)
      requires Ready() && newSize == allocationListSize + bytesPerPage
      requires newAllocation > 0 && newAllocation != allocationList
      requires exists k :: CanHoldList(k, newAllocation, newSize)
      modifies this`slots, this`allocationList, this`allocationListSize, this`unUsedSlots
      ensures Ready() && allocationList == newAllocation && Live(slots) == old(Live(slots))
      ensures allocationListSize == newSize
      ensures slots == old(slots) + seq(bytesPerPage / slotSize, i => EMPTY)
      ensures unUsedSlots == old(unUsedSlots) + bytesPerPage / slotSize
      ensures exists k: nat :: FirstAt(slots, k, old(allocationList)) && slots[k].mode.InternalUse?
      ensures Buried(old(slots), slots)
    {
      hide Tiling, Layouts, Live, CountUnused, HonestKernel, LiveLayout, Buried;
      AppendBuries(slots, bytesPerPage / slotSize);
      ghost var list: nat :| IsList(list);
      ghost var k :| CanHoldList(k, newAllocation, newSize);
      var more := bytesPerPage / slotSize;
      AppendKeeps(slots, mapped, bytesPerPage, more);
      ModuloSums(allocationListSize, bytesPerPage, bytesPerPage);
      ListGrows(|slots|, more, bytesPerPage, slotSize, allocationListSize);
      slots := slots + seq(more, i => EMPTY);
      ListIsFirst(slots, mapped, bytesPerPage, protectBelow, list);
      allocationList, allocationListSize := newAllocation, newSize;
      unUsedSlots := unUsedSlots + more;
      assert IsList(k);
      assert FirstAt(slots, list, old(allocationList)) && slots[list].mode.InternalUse?;
    }

    lemma GrownIs(before: seq<Slot>, memory: set<int>, list: int, listSize: int, placed: seq<Slot>, address: int,
                  after: seq<Slot>)
      requires Config()
      requires var size := Rounded(defaultAlignment, listSize + bytesPerPage);
               var supplied := Supplied(before, memory, Needed(size), bytesPerPage, pageCreate);
               && CarvedFrom(supplied, placed, Needed(size), InternalUse, address, size)
               && PlacesAt(supplied, Needed(size), size, bytesPerPage, protectBelow, address)
      requires FreedFrom(placed + seq(bytesPerPage / slotSize, i => EMPTY), after, list, protectFree)
      ensures after == GrownSlots(before, memory, list, listSize)
    {
      hide Supplied, CarvedFrom, PlacesAt, FreedFrom, Carved, Freed, HonestKernel;
      var size := Rounded(defaultAlignment, listSize + bytesPerPage);
      var supplied := Supplied(before, memory, Needed(size), bytesPerPage, pageCreate);
      CarvedFunction(supplied, placed, Needed(size), InternalUse, address, size, bytesPerPage, protectBelow);
      FreedFunction(placed + seq(bytesPerPage / slotSize, i => EMPTY), after, list, protectFree);
    }

    /** Grow the slot array from inside the allocator: a bigger array is allocated, the slots copied, the old array
        freed. */
    method AllocateMoreSlots()
      requires Ready() && !internalUse && unUsedSlots >= 2
      modifies this
      decreases 1, 0
      ensures Ready() && !internalUse && allocationList != 0 && mem == old(mem)
      ensures unUsedSlots >= bytesPerPage / slotSize && old(mapped) <= mapped
      ensures |slots| == old(|slots|) + bytesPerPage / slotSize
      ensures allocationListSize == old(allocationListSize) + bytesPerPage
      ensures Live(slots) == old(Live(slots))
      ensures slots == GrownSlots(old(slots), old(mapped), old(allocationList), old(allocationListSize))
      ensures mapped == GrownMemory(old(slots), old(mapped), old(allocationListSize))
      ensures protectFree ==> Buried(old(slots), slots)
    {
      var newSize := allocationListSize + bytesPerPage;
      var oldAllocation := allocationList;
      hide Tiling, Layouts, Live, CountUnused, HonestKernel, FirstAt, NoneEmpty, LiveLayout, CanHoldList, Took, Stocked;
      hide StockedMemory, FoundUnused, Roomy, Rounded, Needed, RoundUp, FreedFrom, Shadowed, IsLive, Except, ArrayFits;
      hide Supplied, SuppliedMemory, CarvedFrom, PlacesAt, GrownSlots, Buried, NoneProtected, FreesRun;
      ghost var before, memory, listSize := slots, mapped, allocationListSize;
      internalUse := true;
      var r := Memalign(defaultAlignment, newSize);
      ghost var placed := slots;
      AdoptList(r.address, newSize);
      ghost var adopted := slots;
      var freed := FreeBuffer(oldAllocation);
      if protectFree {
        BuriedTwice(before, placed, adopted);
        BuriedTwice(before, adopted, slots);
      }
      GrownIs(before, memory, oldAllocation, listSize, placed, r.address, slots);
      internalUse := false;
    }

    // ---------------------------------------------------------------- release

    /** Freeing: it succeeds exactly on null and on live buffers no other slot hides, after which exactly that buffer is
        no longer live and the slots are a function of those before; on anything else the program is stopped with
        nothing changed.  Only an empty buffer protected below can be hidden. */
    method FreeBuffer(address: int) returns (r: Outcome)
      requires if internalUse
               then Ready() && address != allocationList && address > 0
                    && exists k: nat :: FirstAt(slots, k, address) && slots[k].mode.InternalUse?
               else Valid()
      modifies this`slots, this`unUsedSlots
      decreases 0, 0
      ensures r != InternalError
      ensures !internalUse ==> Valid()
      ensures internalUse ==> Ready() && r.Ok? && Live(slots) == old(Live(slots))
      ensures !internalUse ==>
                (r.Ok? <==> address == 0 || (IsLive(old(Live(slots)), address) && !Shadowed(old(slots), address)))
      ensures !internalUse && address != 0 && Shadowed(old(slots), address) ==>
                protectBelow && allowMalloc0 && (address, 0) in old(Live(slots))
      ensures !internalUse && r.Ok? && address != 0 ==> Live(slots) == Except(old(Live(slots)), address)
      ensures r.Ok? && address != 0 ==> FreedFrom(old(slots), slots, address, protectFree)
      ensures r.Abort? || address == 0 ==> slots == old(slots) && unUsedSlots == old(unUsedSlots)
      ensures unUsedSlots >= old(unUsedSlots)
      ensures |slots| == old(|slots|)
      ensures r.Ok? && address != 0 ==>
                FreesRun(old(slots), slots, address, if protectFree then Protected else Free)
      ensures protectFree ==> Buried(old(slots), slots)
    {
      hide Tiling, Layouts, Live, CountUnused, HonestKernel, Neighbours, FirstEnding, FirstStarting, LiveLayout;
      hide FreedAt, Except, NoneEmpty, Shadowed, IsLive, ArrayFits, Buried, NoneProtected, FreesRun;
      BuriedSame(slots);
      if address == 0 {
        return Ok(0);
      }
      if allocationList == 0 {
        NoBuffers(address);
        return Abort;
      }
      WhoIsShadowed(address);
      var found := SlotForUserAddress(address);
      if found.None? {
        NotLive(slots, address);
        return Abort;
      }
      var k := found.value;
      FirstDecides(slots, mapped, bytesPerPage, protectBelow, k, address);
      if !slots[k].mode.Allocated? && !(internalUse && slots[k].mode.InternalUse?) {
        return Abort;
      }
      var previous, next := FindNeighbours(k);
      ghost var before := slots;
      Release(k, previous, next);
      FreeBuries(before, mapped, bytesPerPage, protectBelow, k, previous, next, protectFree);
      FreedHow(before, slots, address, protectFree, k, previous, next);
      r := Ok(0);
    }

    lemma WhoIsShadowed(address: int)
      requires Ready() && address != 0
      ensures Shadowed(slots, address) ==> protectBelow && allowMalloc0 && (address, 0) in Live(slots)
    {
      hide Tiling, Layouts, Live, CountUnused, HonestKernel, Shadowed;
      OnlyEmptyIsShadowed(slots, mapped, bytesPerPage, protectBelow, address);
    }

    /** The statements that mark a slot free and join it with free memory before it. */
    method JoinBefore(k: nat, previous: Option<nat>) returns (s: nat)
      requires k < |slots| && (previous.Some? ==> previous.value < |slots| && previous.value != k)
      modifies this`slots, this`unUsedSlots
      ensures slots == Joined(old(slots), k, previous, protectFree) && s == JoinedAt(old(slots), k, previous)
      ensures unUsedSlots == old(unUsedSlots) + (if previous.Some? && IsFree(old(slots)[previous.value]) then 1 else 0)
    {
      slots := slots[k := slots[k].(mode := if protectFree then Protected else Free)];
      s := k;
      if previous.Some? && IsFree(slots[previous.value]) {
        var p := previous.value;
        slots := slots[p := slots[p].(internalSize := slots[p].internalSize + slots[k].internalSize)];
        slots := slots[k := EMPTY];
        if protectFree {
          slots := slots[p := slots[p].(mode := Protected)];
        }
        s := p;
        unUsedSlots := unUsedSlots + 1;
      }
    }

    /** And with free memory behind it. */
    method JoinNeighbours(k: nat, previous: Option<nat>, next: Option<nat>)
      requires k < |slots|
      requires previous.Some? ==> previous.value < |slots| && previous.value != k
      requires next.Some? ==> next.value < |slots| && next.value != k
      requires previous.Some? && next.Some? ==> previous.value != next.value
      modifies this`slots, this`unUsedSlots
      ensures slots == Coalesce(old(slots), k, previous, next, protectFree)
      ensures unUsedSlots == old(unUsedSlots) + FreeAround(old(slots), previous, next)
    {
      JoinedElsewhere(slots, k, previous, protectFree);
      var s := JoinBefore(k, previous);
      hide Joined, JoinedAt;
      if next.Some? && IsFree(slots[next.value]) {
        var n := next.value;
        slots := slots[s := slots[s].(internalSize := slots[s].internalSize + slots[n].internalSize)];
        slots := slots[n := EMPTY];
        unUsedSlots := unUsedSlots + 1;
      }
      slots := slots[s := slots[s].(userAddress := slots[s].internalAddress, userSize := slots[s].internalSize)];
    }

    /** Mark the k-th slot free and join it with free memory on either side. */
    method Release(k: nat, previous: Option<nat>, next: Option<nat>)
      requires Ready() && k < |slots| && slots[k].userAddress != 0 && !IsList(k)
      requires Neighbours(slots, k, previous, next)
      requires slots[k].mode.Allocated? || slots[k].mode.InternalUse?
      modifies this`slots, this`unUsedSlots
      ensures Ready() && unUsedSlots >= old(unUsedSlots) && |slots| == old(|slots|)
      ensures slots == Coalesce(old(slots), k, previous, next, protectFree)
      ensures Live(slots) == if old(slots)[k].mode.Allocated? then Except(old(Live(slots)), old(slots)[k].userAddress)
                             else old(Live(slots))
    {
      ghost var list :| IsList(list);
      assert InUse(slots[k]);
      hide Tiling, Layouts, CountUnused, Live, Coalesce, HonestKernel, Neighbours, IsFree, LiveLayout, NoneEmpty;
      hide Except, ArrayFits, FreeAround, NoneProtected;
      NoneEmptyWithout(Live(slots), slots[k].userAddress);
      NeighboursDiffer(slots, mapped, bytesPerPage, k, previous, next);
      Released(slots, mapped, bytesPerPage, protectBelow, k, previous, next, protectFree, list);
      FreedNoneProtected(slots, k, previous, next, protectFree);
      ghost var n := |slots|;
      JoinNeighbours(k, previous, next);
      assert |slots| == n && IsList(list);
    }

    // ---------------------------------------------------------------- the other entry points

    method Malloc(size: int) returns (r: Outcome)
      requires Valid() && size >= 0
      modifies this
      ensures r != InternalError && Valid() && mem == old(mem)
      ensures r.Abort? <==> size == 0 && !allowMalloc0
      ensures r.Abort? ==> Live(slots) == old(Live(slots))
      ensures r.Ok? ==> r.address > 0 && allocationList != 0
      ensures r.Ok? ==> Live(slots) == old(Live(slots)) + {(r.address, Rounded(defaultAlignment, size))}
      ensures r.Ok? ==> forall x :: x in old(Live(slots)) ==> x.0 != r.address
      ensures r.Ok? && old(Roomy()) ==> unUsedSlots >= old(FoundUnused()) - 2
      ensures r.Ok? ==> Took(old(Stocked(Needed(Rounded(defaultAlignment, size)))),
                             old(StockedMemory(Needed(Rounded(defaultAlignment, size)))),
                             r.address, Rounded(defaultAlignment, size))
      ensures protectFree ==> Buried(old(slots), slots)
    {
      hide Tiling, Layouts, CountUnused, HonestKernel, FoundSlots, FoundMemory, Took, ArrayFits, Buried, NoneProtected;
      BuriedSame(slots);
      ghost var live := Live(slots);
      if allocationList == 0 {
        assert Live(slots) == {};
        Initialize();
      }
      FoundAgain();
      assert Live(slots) == live;
      hide Live;
      ghost var found := slots;
      r := Memalign(defaultAlignment, size);
      if protectFree {
        BuriedTwice(old(slots), found, slots);
      }
    }

    /** memcpy between memory that does not overlap. */
    method Copy(to: int, from: int, size: nat)
      modifies this`mem
      ensures mem == Copied(old(mem), to, from, size)
    {
      var was := mem;
      for i := 0 to size
        invariant mem == Copied(was, to, from, i)
      {
        mem := mem[to + i := Byte(was, from + i)];
      }
    }

    /** memset to zero. */
    method Clear(to: int, size: nat)
      modifies this`mem
      ensures mem == Cleared(old(mem), to, size)
    {
      for i := 0 to size
        invariant mem == Cleared(old(mem), to, i)
      {
        mem := mem[to + i := 0];
      }
    }

    /** A new buffer holds only zeros, and no other live buffer's contents change. */
    method Calloc(nelem: int, elsize: int) returns (r: Outcome)
      requires Valid() && nelem >= 0 && elsize >= 0
      modifies this
      ensures r != InternalError && Valid()
      ensures r.Abort? <==> nelem * elsize == 0 && !allowMalloc0
      ensures r.Ok? ==> Live(slots) == old(Live(slots)) + {(r.address, Rounded(defaultAlignment, nelem * elsize))}
      ensures r.Ok? ==> forall p :: InBuffer((r.address, nelem * elsize), p) ==> Byte(mem, p) == 0
      ensures Untouched(old(Live(slots)), 0, old(mem), mem)
      ensures protectFree ==> Buried(old(slots), slots)
    {
      var size := nelem * elsize;
      hide Tiling, Layouts, CountUnused, HonestKernel, Live, Untouched, Byte, ArrayFits, Buried, NoneProtected;
      ghost var live := Live(slots);
      UntouchedIfSame(live, 0, mem);
      r := Malloc(size);
      if r.Abort? {
        return;
      }
      RoundedCovers(size);
      NewBufferApart(slots, mapped, bytesPerPage, protectBelow, live, r.address, Rounded(defaultAlignment, size));
      ClearDone(live, mem, r.address, size, Rounded(defaultAlignment, size));
      Clear(r.address, size);
    }

    /** Of a live buffer, or of nothing, realloc makes a buffer with the old contents as far as they fit and zeros
        behind them, frees the old buffer and disturbs no other.  An address that is not a live buffer stops the
        program, unless the new buffer is put at that very address: then realloc frees the buffer it returns.
        `placed` is where malloc put the new buffer, and `between` are the slots it left; both, and so whether an
        address that is not live survives, are decided by the slots before the call. */
    method Realloc(oldBuffer: int, newSize: int) returns (r: Outcome, ghost placed: int, ghost between: seq<Slot>)
      requires Valid() && newSize >= 0
      modifies this
      ensures r != InternalError && Valid()
      ensures newSize == 0 && !allowMalloc0 ==> r.Abort? && Live(slots) == old(Live(slots))
      ensures newSize > 0 || allowMalloc0 ==> placed > 0 && forall x :: x in old(Live(slots)) ==> x.0 != placed
      ensures newSize > 0 || allowMalloc0 ==>
                (r.Ok? <==> oldBuffer == 0
                            || ((IsLive(old(Live(slots)), oldBuffer) || placed == oldBuffer)
                                && !Shadowed(between, oldBuffer)))
      ensures newSize > 0 || allowMalloc0 ==>
                Live(between) == old(Live(slots)) + {(placed, Rounded(defaultAlignment, newSize))}
      ensures newSize > 0 || allowMalloc0 ==>
                CarvedFrom(old(Stocked(Needed(Rounded(defaultAlignment, newSize)))), between,
                           Needed(Rounded(defaultAlignment, newSize)), Allocated, placed,
                           Rounded(defaultAlignment, newSize))
      ensures oldBuffer != 0 && (newSize > 0 || allowMalloc0) && Shadowed(between, oldBuffer) ==>
                protectBelow && allowMalloc0 && (oldBuffer, 0) in Live(between)
      ensures newSize > 0 || (allowMalloc0 && !protectBelow) ==>
                oldBuffer != 0 && !IsLive(old(Live(slots)), oldBuffer) ==>
                (r.Ok? <==> Lands(old(Stocked(Needed(Rounded(defaultAlignment, newSize)))), newSize, oldBuffer))
      ensures r.Ok? ==> r.address == placed
      ensures r.Ok? ==>
                Live(slots) == Without(old(Live(slots)) + {(placed, Rounded(defaultAlignment, newSize))}, oldBuffer)
      ensures r.Ok? && placed == oldBuffer ==> Live(slots) == old(Live(slots))
      ensures r.Ok? ==> if oldBuffer == 0 then slots == between else FreedFrom(between, slots, oldBuffer, protectFree)
      ensures oldBuffer == 0 ==> mem == old(mem)
      ensures forall size :: (oldBuffer, size) in old(Live(slots)) && oldBuffer != 0 && r.Ok? ==>
                Moved(old(mem), mem, oldBuffer, size, r.address, newSize)
      ensures Untouched(old(Live(slots)), oldBuffer, old(mem), mem)
      ensures protectFree ==> Buried(old(slots), slots)
    {
      hide Buried, NoneProtected;
      hide Tiling, Layouts, CountUnused, HonestKernel, Live, Untouched, Moved, FirstAt, Shadowed, IsLive, FreedFrom;
      hide Except, NoneEmpty, Took, Stocked, StockedMemory, FoundUnused, LiveLayout, PlacesAt, Lands, ArrayFits;
      hide CarvedFrom;
      ghost var live, whole := Live(slots), Rounded(defaultAlignment, newSize);
      ghost var stocked, memory := Stocked(Needed(whole)), StockedMemory(Needed(whole));
      UntouchedIfSame(live, oldBuffer, mem);
      r := Malloc(newSize);
      placed, between := if r.Ok? then r.address else 0, slots;
      if r.Ok? {
        TookCarves(stocked, memory, placed, whole);
      }
      if r.Abort? || oldBuffer == 0 {
        return;
      }
      RoundedCovers(newSize);
      NewBufferApart(slots, mapped, bytesPerPage, protectBelow, live, placed, whole);
      WhoIsShadowed(oldBuffer);
      LiveAfterMove(live, oldBuffer, (placed, whole));
      SizesAfterMove(live, oldBuffer, (placed, whole));
      if !IsLive(live, oldBuffer) {
        LandsExactly(stocked, memory, placed, newSize, oldBuffer, live);
      }
      r := Replace(r.address, newSize, oldBuffer, live, whole);
      if protectFree {
        BuriedTwice(old(slots), between, slots);
      }
    }

    /** The address malloc gives a buffer of a size, when the slots it carves from are these. */
    ghost predicate Lands(slots: seq<Slot>, size: int, address: int)
      requires bytesPerPage > 0
    {
      var given := Rounded(defaultAlignment, size);
      PlacesAt(slots, Needed(given), given, bytesPerPage, protectBelow, address)
    }

    /** The rest of realloc: find the old buffer's slot, move its contents and free it. */
    method Replace(newBuffer: int, newSize: int, oldBuffer: int, ghost live: set<(int, int)>, ghost whole: int)
      returns (r: Outcome)
      requires Valid() && allocationList != 0 && 0 <= newSize <= whole && oldBuffer != 0
      requires forall x :: x in live ==> x.0 + x.1 <= newBuffer || newBuffer + whole <= x.0
      modifies `slots, `unUsedSlots, `mem
      ensures r != InternalError && Valid()
      ensures r.Ok? <==> IsLive(old(Live(slots)), oldBuffer) && !Shadowed(old(slots), oldBuffer)
      ensures r.Ok? ==> r.address == newBuffer && Live(slots) == Except(old(Live(slots)), oldBuffer)
      ensures r.Ok? ==> FreedFrom(old(slots), slots, oldBuffer, protectFree)
      ensures r.Ok? ==> forall size :: (oldBuffer, size) in old(Live(slots)) ==>
                          Moved(old(mem), mem, oldBuffer, size, newBuffer, newSize)
      ensures Untouched(live, oldBuffer, old(mem), mem)
      ensures protectFree ==> Buried(old(slots), slots)
    {
      hide Tiling, Layouts, CountUnused, HonestKernel, Live, Untouched, Moved, Shadowed, FreedFrom, IsLive, FirstAt;
      hide NoneEmpty, Except, LiveLayout, ArrayFits, Buried, NoneProtected;
      BuriedSame(slots);
      UntouchedIfSame(live, oldBuffer, mem);
      var found := SlotForUserAddress(oldBuffer);
      if found.None? {
        NotLive(slots, oldBuffer);
        return Abort;
      }
      var k := found.value;
      FirstDecides(slots, mapped, bytesPerPage, protectBelow, k, oldBuffer);
      if slots[k].mode.Allocated? {
        SizeOfLive(slots, mapped, bytesPerPage, protectBelow, k);
      }
      assert slots[k].userAddress == oldBuffer by { FirstIsThere(slots, k, oldBuffer); }
      r := MoveAndFree(newBuffer, newSize, oldBuffer, slots[k].userSize, live, whole);
    }

    method MoveAndFree(newBuffer: int, newSize: int, oldBuffer: int, oldSize: int, ghost live: set<(int, int)>,
                       ghost whole: int)
      returns (r: Outcome)
      requires Valid() && 0 <= newSize <= whole && oldBuffer != 0
      requires IsLive(Live(slots), oldBuffer) && !Shadowed(slots, oldBuffer) ==> oldSize >= 0
      requires forall x :: x in live ==> x.0 + x.1 <= newBuffer || newBuffer + whole <= x.0
      modifies `slots, `unUsedSlots, `mem
      ensures r != InternalError && Valid()
      ensures r.Ok? <==> IsLive(old(Live(slots)), oldBuffer) && !Shadowed(old(slots), oldBuffer)
      ensures r.Ok? ==> r.address == newBuffer && Live(slots) == Except(old(Live(slots)), oldBuffer)
      ensures r.Ok? ==> FreedFrom(old(slots), slots, oldBuffer, protectFree)
      ensures r.Ok? ==> Moved(old(mem), mem, oldBuffer, oldSize, newBuffer, newSize)
      ensures Untouched(live, oldBuffer, old(mem), mem)
      ensures protectFree ==> Buried(old(slots), slots)
    {
      hide Tiling, Layouts, CountUnused, HonestKernel, Live, Untouched, Moved, Copied, Cleared, Shadowed, FreedFrom;
      hide IsLive, NoneEmpty, Except, ArrayFits, Buried, NoneProtected, FreesRun;
      MoveDone(live, mem, oldBuffer, oldSize, newBuffer, newSize, whole);
      var size := oldSize;
      if newSize < size {
        size := newSize;
      }
      if size > 0 {
        Copy(newBuffer, oldBuffer, size);
      }
      assert mem == Kept(old(mem), oldBuffer, oldSize, newBuffer, newSize);
      r := FreeBuffer(oldBuffer);
      if r.Abort? {
        return;
      }
      if size < newSize {
        Clear(newBuffer + size, newSize - size);
      }
      assert mem == Reallocated(old(mem), oldBuffer, oldSize, newBuffer, newSize);
      r := Ok(newBuffer);
    }

    /** With the new buffer placed from known slots, an address that was not live is the new buffer's just when it is
        the place those slots determine, and is then found, unless the new buffer is an empty one protected below. */
    lemma LandsExactly(stocked: seq<Slot>, memory: set<int>, placed: int, newSize: int, oldBuffer: int,
                       live: set<(int, int)>)
      requires Ready() && !internalUse && newSize >= 0 && oldBuffer != 0 && !IsLive(live, oldBuffer)
      requires Took(stocked, memory, placed, Rounded(defaultAlignment, newSize))
      requires Live(slots) == live + {(placed, Rounded(defaultAlignment, newSize))}
      ensures Lands(stocked, newSize, oldBuffer) <==> placed == oldBuffer
      ensures (newSize > 0 || !protectBelow) && placed == oldBuffer ==> !Shadowed(slots, oldBuffer)
    {
      hide Tiling, Layouts, CountUnused, HonestKernel, Live, Shadowed, CarvedFrom, PlacesAt, NoneEmpty;
      var size := Rounded(defaultAlignment, newSize);
      RoundedCovers(newSize);
      if Lands(stocked, newSize, oldBuffer) {
        PlaceUnique(stocked, Needed(size), size, bytesPerPage, protectBelow, placed, oldBuffer);
      }
      OnlyEmptyIsShadowed(slots, mapped, bytesPerPage, protectBelow, oldBuffer);
      assert (oldBuffer, 0) !in live by {
        assert (oldBuffer, 0) in live ==> IsLive(live, oldBuffer);
      }
    }

    /** The sizes are the least that will do: the next multiple of the alignment, and whole pages with one to spare. */
    lemma SizesAreTight(alignment: int, size: int)
      requires Config() && size >= 0
      ensures if !protectBelow && alignment > 1
              then Rounded(alignment, size) % alignment == 0 && size <= Rounded(alignment, size) < size + alignment
              else Rounded(alignment, size) == size
      ensures Needed(size) % bytesPerPage == 0 && size + bytesPerPage <= Needed(size) < size + 2 * bytesPerPage
      ensures Chunk(Needed(size), bytesPerPage) % bytesPerPage == 0
      ensures Chunk(Needed(size), bytesPerPage) >= Needed(size) && Chunk(Needed(size), bytesPerPage) >= 1048576
      ensures Chunk(Needed(size), bytesPerPage) - bytesPerPage < Needed(size)
              || Chunk(Needed(size), bytesPerPage) - bytesPerPage < 1048576
    {
      if alignment > 1 {
        RoundUpIsMultiple(size, alignment);
      }
      RoundUpIsMultiple(size + bytesPerPage, bytesPerPage);
      RoundUpIsMultiple(if Needed(size) < 1048576 then 1048576 else Needed(size), bytesPerPage);
    }

    lemma RoundedCovers(size: int)
      requires Config() && size >= 0
      ensures size <= Rounded(defaultAlignment, size)
    {
      if defaultAlignment > 1 {
        RoundUpIsMultiple(size, defaultAlignment);
      }
    }
  }

  // ---------------------------------------------------------------- facts the methods use

  lemma QuotientFits(size: int, unit: int)
    requires unit > 0
    ensures (size / unit) * unit <= size
  {
  }

  /** A page more holds a page's worth of slots more. */
  lemma ListGrows(count: int, more: int, page: int, slotSize: int, size: int)
    requires slotSize > 0 && more == page / slotSize && count * slotSize <= size
    ensures (count + more) * slotSize <= size + page
  {
    QuotientFits(page, slotSize);
  }

  lemma AppendBuries(slots: seq<Slot>, n: nat)
    ensures Buried(slots, slots + seq(n, i => EMPTY))
    ensures NoneProtected(slots) ==> NoneProtected(slots + seq(n, i => EMPTY))
  {
    AppendBecomes(slots, n);
    AppendLive(slots, slots + seq(n, i => EMPTY));
    hide Holds, Live;
  }

  lemma CountOneMore(slots: seq<Slot>, i: nat)
    requires i < |slots|
    ensures CountUnused(slots[..i + 1]) == CountUnused(slots[..i]) + (if InUse(slots[i]) then 0 else 1)
  {
    assert slots[..i + 1][..i] == slots[..i];
  }

  lemma NoneUnused(slots: seq<Slot>)
    requires slots == []
    ensures CountUnused(slots) == 0
  {
  }

  lemma FirstIsThere(slots: seq<Slot>, k: nat, address: int)
    requires FirstAt(slots, k, address)
    ensures k < |slots| && slots[k].userAddress == address
  {
  }

  lemma FirstUnusedIsUnused(slots: seq<Slot>, e: nat)
    requires FirstUnused(slots, e)
    ensures Unused(slots, e)
  {
  }

  lemma FitIsSupplied(slots: seq<Slot>, mapped: set<int>, need: int, page: int, kernel: (set<int>, int) -> int, f: nat)
    requires page > 0 && FirstBest(slots, f, need)
    ensures SomeFit(slots, need) && Supplied(slots, mapped, need, page, kernel) == slots
  {
  }

  lemma NoBuffers(address: int)
    ensures !IsLive(Live([]), address) && !Shadowed([], address)
  {
  }

  lemma FreedHow(before: seq<Slot>, after: seq<Slot>, address: int, protect: bool, k: nat, previous: Option<nat>,
                 next: Option<nat>)
    requires FirstAt(before, k, address) && Neighbours(before, k, previous, next)
    requires FirstEnding(before, previous, before[k].internalAddress) && FirstStarting(before, next, End(before[k]))
    requires after == Coalesce(before, k, previous, next, protect)
    ensures FreedAt(before, after, address, protect, k, previous, next)
  {
  }

  lemma InitialSizes(page: int, size: int)
    requires page > 0
    requires size == RoundUp(if page > MEMORY_CREATION_SIZE then page else MEMORY_CREATION_SIZE, page)
    ensures size % page == 0 && size >= page
    ensures size > page <==> page < MEMORY_CREATION_SIZE
  {
    RoundUpIsMultiple(if page > MEMORY_CREATION_SIZE then page else MEMORY_CREATION_SIZE, page);
    if page >= MEMORY_CREATION_SIZE {
      assert page % page == 0;
    }
  }

  /** The arena initialize() leaves: the slot array's page, and a free rest unless pages are huge. */
  function InitialSlots(n: nat, page: int, a: int, size: int): seq<Slot>
    requires n >= 2
  {
    var list := seq(n, i => EMPTY)[0 := Slot(a, a, page, page, InternalUse)];
    if size > page then list[1 := Slot(a + page, a + page, size - page, size - page, Free)] else list
  }

  lemma InitialArena(n: nat, page: int, below: bool, a: int, size: int)
    requires n >= 2 && page > 0 && a > 0 && a % page == 0 && size % page == 0 && size >= page
    ensures var slots := InitialSlots(n, page, a, size);
            && |slots| == n && slots[0] == Slot(a, a, page, page, InternalUse)
            && Tiling(slots, Range(a, size), page) && Layouts(slots, page, below) && Live(slots) == {}
            && NoneProtected(slots)
            && CountUnused(slots) == (if size > page then n - 2 else n - 1)
  {
    hide Tiling, CountUnused, Live;
    var wiped := seq(n, i => EMPTY);
    WipedTiling(n, page);
    CreateKeeps(wiped, {}, page, 0, a, size);
    assert {} + Range(a, size) == Range(a, size);
    var one := wiped[0 := Slot(0, a, 0, size, Free)];
    CountUpdate(wiped, 0, one[0]);
    var list := Slot(a, a, page, page, InternalUse);
    if size > page {
      SplitKeeps(one, Range(a, size), page, 0, 1, page);
      var two := SplitSlot(one, 0, 1, page);
      var rest := two[1].(userAddress := two[1].internalAddress, userSize := two[1].internalSize);
      RelabelKeeps(two, Range(a, size), page, 1, rest);
      RelabelKeeps(two[1 := rest], Range(a, size), page, 0, list);
      assert two[1 := rest][0 := list] == InitialSlots(n, page, a, size);
    } else {
      RelabelKeeps(one, Range(a, size), page, 0, list);
      assert one[0 := list] == InitialSlots(n, page, a, size);
    }
    NoneLive(InitialSlots(n, page, a, size));
  }

  lemma NothingBuried(slots: seq<Slot>)
    ensures Buried([], slots)
  {
  }

  lemma WipedTiling(n: nat, page: int)
    requires page > 0
    ensures Tiling(seq(n, i => EMPTY), {}, page) && CountUnused(seq(n, i => EMPTY)) == n
  {
    CountAppendEmpty([], n);
    assert [] + seq(n, i => EMPTY) == seq(n, i => EMPTY);
  }

  lemma NoneLive(slots: seq<Slot>)
    requires forall j :: 0 <= j < |slots| ==> !slots[j].mode.Allocated?
    ensures Live(slots) == {}
  {
  }

  lemma UnusedIsEmpty(slots: seq<Slot>, mapped: set<int>, page: int, k: nat)
    requires page > 0 && Tiling(slots, mapped, page) && Unused(slots, k)
    ensures slots[k] == EMPTY
  {
    assert WellShaped(slots[k], page);
  }

  lemma UsedIsShaped(slots: seq<Slot>, mapped: set<int>, page: int, k: nat)
    requires page > 0 && Tiling(slots, mapped, page) && k < |slots| && InUse(slots[k])
    ensures WellShaped(slots[k], page)
  {
  }

  lemma CreateLayouts(slots: seq<Slot>, page: int, below: bool, k: nat, a: int, size: int)
    requires Layouts(slots, page, below) && k < |slots|
    ensures Layouts(slots[k := Slot(0, a, 0, size, Free)], page, below)
    ensures NoneProtected(slots) ==> NoneProtected(slots[k := Slot(0, a, 0, size, Free)])
  {
  }

  lemma NewBufferIsNew(before: seq<Slot>, after: seq<Slot>, mapped: set<int>, page: int, below: bool, f: nat, e: nat)
    requires page > 0 && Tiling(after, mapped, page) && Layouts(after, page, below) && |after| == |before|
    requires f < |before| && e < |before| && !before[f].mode.Allocated? && !before[e].mode.Allocated?
    requires forall j :: 0 <= j < |before| && j != f && j != e ==> after[j] == before[j]
    requires InUse(after[f]) && LiveLayout(after[f], page, below)
    ensures forall x :: x in Live(before) ==> x.0 != after[f].userAddress
  {
    forall x | x in Live(before)
      ensures x.0 != after[f].userAddress
    {
      var j: nat :| j < |before| && before[j].mode.Allocated? && x == (before[j].userAddress, before[j].userSize);
      assert after[j] == before[j];
      assert UserLayout(after[j], page, below);
      BufferAddressUnique(after, mapped, page, below, f, j);
    }
  }

  /** Above its live pages a buffer's address is aligned as asked, if the alignment divides the page size. */
  lemma LiveAddress(s: Slot, page: int, need: int, size: int, alignment: int, userSize: int)
    requires page > 0 && alignment > 1 && page % alignment == 0 && need % page == 0
    requires size == RoundUp(userSize, alignment) && s.userSize == size
    requires s.internalSize == need && s.internalAddress % page == 0 && LiveLayout(s, page, false)
    ensures s.userAddress % alignment == 0
  {
    Aligned(s.internalAddress, need, size, page, alignment, userSize);
  }

  lemma Aligned(start: int, need: int, size: int, page: int, alignment: int, userSize: int)
    requires page > 0 && alignment > 1 && page % alignment == 0 && start % page == 0 && need % page == 0
    requires size == RoundUp(userSize, alignment)
    ensures (start + (need - page) - size) % alignment == 0
  {
    DividesThrough(start, page, alignment);
    DividesThrough(need, page, alignment);
    RoundUpIsMultiple(userSize, alignment);
    ModuloDifference(need, page, alignment);
    ModuloSums(start, need - page, alignment);
    ModuloDifference(start + (need - page), size, alignment);
  }

  lemma NotLive(slots: seq<Slot>, address: int)
    requires forall j :: 0 <= j < |slots| ==> slots[j].userAddress != address
    ensures !IsLive(Live(slots), address)
  {
  }
}
