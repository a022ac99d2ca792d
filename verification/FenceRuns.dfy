/** Two whole runs of Electric Fence (ntpdist/ElectricFence/efence.c): realloc of a freed buffer, which succeeds and
    returns memory that is free, and an empty buffer that is live but cannot be freed. */
module FenceRuns {
  import opened BufferMemory
  import opened Common
  import opened ElectricFence
  import opened SlotArena

  // ---------------------------------------------------------------- one step from known slots

  /** The slots begin with these, and the others are unused. */
  ghost predicate Starts(slots: seq<Slot>, first: seq<Slot>) {
    && first <= slots
    && forall k :: |first| <= k < |slots| ==> slots[k] == EMPTY
  }

  ghost predicate AllInUse(first: seq<Slot>) { forall k :: 0 <= k < |first| ==> InUse(first[k]) }

  /** Those slots after a buffer was carved out of the f-th, its surplus going to the first unused slot. */
  function CarvedPrefix(first: seq<Slot>, f: nat, need: int, address: int, size: int): seq<Slot>
    requires f < |first|
  {
    var s := first[f];
    var rest :=
      if s.internalSize > need then [Slot(0, s.internalAddress + need, 0, s.internalSize - need, Free)] else [];
    first[f := Slot(address, s.internalAddress, size, need, Allocated)] + rest
  }

  lemma PrefixDecides(slots: seq<Slot>, first: seq<Slot>, f: nat, need: int)
    requires Starts(slots, first) && AllInUse(first) && |first| < |slots| && FirstBest(first, f, need)
    ensures FirstBest(slots, f, need) && FirstUnused(slots, |first|)
  {
  }

  lemma CarveStep(slots: seq<Slot>, after: seq<Slot>, first: seq<Slot>, f: nat, need: int, address: int, size: int)
    requires Starts(slots, first) && AllInUse(first) && |first| < |slots| && FirstBest(first, f, need)
    requires CarvedFrom(slots, after, need, Allocated, address, size)
    ensures Starts(after, CarvedPrefix(first, f, need, address, size))
  {
    PrefixDecides(slots, first, f, need);
    CarvedIs(slots, after, need, Allocated, address, size, f, |first|);
  }

  /** malloc when the first of the smallest slots that fit is known. */
  method MallocFrom(fence: Fence, size: int, ghost first: seq<Slot>, ghost f: nat) returns (r: Outcome)
    requires fence.Valid() && fence.Roomy() && size >= 0 && (size == 0 ==> fence.allowMalloc0)
    requires Starts(fence.FoundSlots(), first) && AllInUse(first) && |first| < |fence.FoundSlots()|
    requires FirstBest(first, f, fence.Needed(fence.Rounded(fence.defaultAlignment, size)))
    modifies fence
    ensures fence.Valid() && fence.allocationList != 0 && r.Ok? && r.address > 0
    ensures var given := fence.Rounded(fence.defaultAlignment, size);
            && r.address == AddressIn(first[f].internalAddress, fence.Needed(given), given, fence.bytesPerPage,
                                      fence.protectBelow)
            && Starts(fence.slots, CarvedPrefix(first, f, fence.Needed(given), r.address, given))
            && Live(fence.slots) == old(Live(fence.slots)) + {(r.address, given)}
    ensures fence.unUsedSlots >= old(fence.FoundUnused()) - 2 && |fence.slots| == old(|fence.FoundSlots()|)
  {
    hide Tiling, Layouts, CountUnused, HonestKernel, Live, FirstBest, FirstUnused, Starts, CarvedPrefix, AddressIn;
    hide RoundUp, Supplied, SuppliedMemory, SomeFit, CarvedFrom, PlacesAt, NoneEmpty, AllInUse, LiveLayout;
    hide InitialSlots;
    ghost var found, memory := fence.FoundSlots(), fence.FoundMemory();
    ghost var given := fence.Rounded(fence.defaultAlignment, size);
    PrefixDecides(found, first, f, fence.Needed(given));
    FitIsSupplied(found, memory, fence.Needed(given), fence.bytesPerPage, fence.pageCreate, f);
    r := fence.Malloc(size);
    CarveStep(found, fence.slots, first, f, fence.Needed(given), r.address, given);
    SameLength(found, fence.slots, fence.Needed(given), Allocated, r.address, given);
    PrefixPlaces(found, first, f, fence.Needed(given), given, fence.bytesPerPage, fence.protectBelow, r.address);
  }

  lemma SameLength(before: seq<Slot>, after: seq<Slot>, need: int, mode: Mode, address: int, size: int)
    requires CarvedFrom(before, after, need, mode, address, size)
    ensures |after| == |before|
  {
  }

  lemma PrefixPlaces(slots: seq<Slot>, first: seq<Slot>, f: nat, need: int, size: int, page: int, below: bool,
                     address: int)
    requires Starts(slots, first) && FirstBest(first, f, need) && FirstBest(slots, f, need)
    ensures PlacesAt(slots, need, size, page, below, address) <==>
            address == AddressIn(first[f].internalAddress, need, size, page, below)
  {
    var start := slots[f].internalAddress;
    assert PlacesAt(slots, need, size, page, below, AddressIn(start, need, size, page, below));
    if PlacesAt(slots, need, size, page, below, address) {
      PlaceUnique(slots, need, size, page, below, address, AddressIn(start, need, size, page, below));
    }
  }

  lemma FreeStep(slots: seq<Slot>, after: seq<Slot>, first: seq<Slot>, address: int, protect: bool, k: nat,
                 previous: Option<nat>, next: Option<nat>)
    requires Starts(slots, first) && FirstAt(first, k, address)
    requires FirstEnding(first, previous, first[k].internalAddress) && FirstStarting(first, next, End(first[k]))
    requires first[k].internalAddress > 0 && first[k].internalSize > 0 && FreedFrom(slots, after, address, protect)
    ensures Starts(after, Coalesce(first, k, previous, next, protect))
  {
    assert FirstAt(slots, k, address);
    NeighboursInPrefix(slots, first, first[k].internalAddress, End(first[k]), previous, next);
    hide Coalesce, FreedFrom;
    FreedIs(slots, after, address, protect, k, previous, next);
    hide *;
    CoalescePrefix(slots, first, k, previous, next, protect);
  }

  lemma NeighboursInPrefix(slots: seq<Slot>, first: seq<Slot>, start: int, end: int, previous: Option<nat>,
                           next: Option<nat>)
    requires Starts(slots, first) && start > 0 && end > 0
    requires FirstEnding(first, previous, start) && FirstStarting(first, next, end)
    ensures FirstEnding(slots, previous, start) && FirstStarting(slots, next, end)
  {
  }

  lemma UpdateStarts(slots: seq<Slot>, first: seq<Slot>, k: nat, s: Slot)
    requires Starts(slots, first) && k < |first|
    ensures Starts(slots[k := s], first[k := s])
  {
  }

  lemma MergeStarts(slots: seq<Slot>, first: seq<Slot>, p: nat, q: nat)
    requires Starts(slots, first) && p < |first| && q < |first|
    ensures Starts(MergeSlots(slots, p, q), MergeSlots(first, p, q))
  {
  }

  lemma JoinStarts(slots: seq<Slot>, first: seq<Slot>, k: nat, previous: Option<nat>, protect: bool)
    requires Starts(slots, first) && k < |first| && (previous.Some? ==> previous.value < |first|)
    ensures JoinedAt(first, k, previous) == JoinedAt(slots, k, previous) < |first|
    ensures Starts(Joined(slots, k, previous, protect), Joined(first, k, previous, protect))
  {
  }

  lemma CoalescePrefix(slots: seq<Slot>, first: seq<Slot>, k: nat, previous: Option<nat>, next: Option<nat>,
                       protect: bool)
    requires Starts(slots, first) && k < |first|
    requires (previous.Some? ==> previous.value < |first|) && (next.Some? ==> next.value < |first|)
    ensures Starts(Coalesce(slots, k, previous, next, protect), Coalesce(first, k, previous, next, protect))
  {
    JoinStarts(slots, first, k, previous, protect);
    var all, some := Joined(slots, k, previous, protect), Joined(first, k, previous, protect);
    var s := JoinedAt(first, k, previous);
    hide Joined, JoinedAt;
    if next.Some? && IsFree(some[next.value]) {
      MergeStarts(all, some, s, next.value);
      all, some := MergeSlots(all, s, next.value), MergeSlots(some, s, next.value);
    }
    UpdateStarts(all, some, s, some[s].(userAddress := some[s].internalAddress, userSize := some[s].internalSize));
  }

  /** free of the k-th slot's buffer when its neighbours are known. */
  method FreeFrom(fence: Fence, address: int, ghost first: seq<Slot>, ghost k: nat, ghost previous: Option<nat>,
                  ghost next: Option<nat>) returns (r: Outcome)
    requires fence.Valid() && fence.allocationList != 0 && Starts(fence.slots, first) && address != 0
    requires FirstAt(first, k, address) && first[k].mode.Allocated?
    requires first[k].internalAddress > 0 && first[k].internalSize > 0
    requires FirstEnding(first, previous, first[k].internalAddress) && FirstStarting(first, next, End(first[k]))
    modifies fence`slots, fence`unUsedSlots
    ensures fence.Valid() && r.Ok? && Starts(fence.slots, Coalesce(first, k, previous, next, fence.protectFree))
    ensures Live(fence.slots) == Except(old(Live(fence.slots)), address)
    ensures fence.unUsedSlots >= old(fence.unUsedSlots) && |fence.slots| == old(|fence.slots|)
  {
    hide Tiling, Layouts, CountUnused, HonestKernel, Live, Shadowed, IsLive, FreedFrom, FirstEnding, FirstStarting;
    hide Except, Coalesce;
    FirstDecides(fence.slots, fence.mapped, fence.bytesPerPage, fence.protectBelow, k, address);
    ghost var before := fence.slots;
    r := fence.FreeBuffer(address);
    FreeStep(before, fence.slots, first, address, fence.protectFree, k, previous, next);
    FreedLength(before, fence.slots, address, fence.protectFree);
  }

  lemma FreedLength(before: seq<Slot>, after: seq<Slot>, address: int, protect: bool)
    requires FreedFrom(before, after, address, protect)
    ensures |after| == |before|
  {
  }

  /** The slots a fresh allocator begins with. */
  function FreshPrefix(a: int, page: int, size: int): seq<Slot> {
    [Slot(a, a, page, page, InternalUse), Slot(a + page, a + page, size - page, size - page, Free)]
  }

  lemma FreshStarts(n: nat, page: int, a: int, size: int)
    requires n >= 2 && size > page
    ensures Starts(InitialSlots(n, page, a, size), FreshPrefix(a, page, size)) && |InitialSlots(n, page, a, size)| == n
  {
  }

  // ---------------------------------------------------------------- realloc of a freed buffer

  function Reserved(page: int, alignment: int, below: bool, size: int): int
    requires page > 0
  {
    RoundUp((if !below && alignment > 1 then RoundUp(size, alignment) else size) + page, page)
  }

  /** Carving the only free memory and freeing the buffer again gives back the slots there were. */
  lemma CarveThenFree(a: int, page: int, size: int, need: int, address: int, given: int)
    requires a > 0 && page > 0 && page < need <= size - page && given >= 0 && address > a
    ensures var carved := CarvedPrefix(FreshPrefix(a, page, size), 1, need, address, given);
            var next := if size - page > need then Some(2) else None;
            && FirstAt(carved, 1, address) && carved[1] == Slot(address, a + page, given, need, Allocated)
            && FirstEnding(carved, Some(0), a + page) && FirstStarting(carved, next, a + page + need)
            && forall slots :: Starts(slots, Coalesce(carved, 1, Some(0), next, false)) ==>
                                 Starts(slots, FreshPrefix(a, page, size))
  {
    var carved := CarvedPrefix(FreshPrefix(a, page, size), 1, need, address, given);
    var next := if size - page > need then Some(2) else None;
    var freed := Coalesce(carved, 1, Some(0), next, false);
    assert freed == FreshPrefix(a, page, size) + (if size - page > need then [EMPTY] else []);
    forall slots | Starts(slots, freed)
      ensures Starts(slots, FreshPrefix(a, page, size))
    {
      assert forall k :: 2 <= k < |freed| ==> slots[k] == freed[k];
    }
  }

  lemma FreshAddress(a: int, page: int, size: int, need: int, given: int, below: bool)
    requires page > 0 && 0 <= given <= need - page
    ensures |FreshPrefix(a, page, size)| == 2 && FreshPrefix(a, page, size)[1].internalAddress == a + page
    ensures AddressIn(a + page, need, given, page, below) > a
  {
  }

  lemma FreshIsBest(a: int, page: int, size: int, need: int)
    requires need <= size - page
    ensures FirstBest(FreshPrefix(a, page, size), 1, need) && AllInUse(FreshPrefix(a, page, size))
  {
  }

  /** malloc, free, realloc of the freed address: realloc does not stop the program but returns that very address, and
      the buffer it returns is not live.  So for every configuration that does not protect freed memory. */
  method FreedBufferComesBack(page: int, slotBytes: int, alignment: int, protectBelow: bool, allowMalloc0: bool,
                              kernel: (set<int>, int) -> int, size: int)
    returns (fence: Fence, p: Outcome, q: Outcome)
    requires 0 < page < MEMORY_CREATION_SIZE && slotBytes > 0 && page / slotBytes >= 11 && HonestKernel(kernel, page)
    requires size > 0 && page + Reserved(page, alignment, protectBelow, size) <= Chunk(page, page)
    ensures p.Ok? && q == p && Live(fence.slots) == {}
  {
    hide Tiling, Layouts, CountUnused, HonestKernel, Live, Starts, CarvedPrefix, Coalesce, FirstBest, FirstAt;
    hide FirstEnding, FirstStarting, AllInUse, InitialSlots, RoundUp, Chunk, AddressIn, FreshPrefix, Except;
    fence := new Fence(page, slotBytes, alignment, false, protectBelow, allowMalloc0, kernel);
    ghost var chunk := Chunk(page, page);
    ghost var a := kernel({}, chunk);
    ghost var initial := FreshPrefix(a, page, chunk);
    ghost var given := fence.Rounded(alignment, size);
    ghost var need := fence.Needed(given);
    FreshSizes(kernel, page);
    NeededIsMore(page, alignment, protectBelow, size);
    FreshStarts(page / slotBytes, page, a, chunk);
    FreshIsBest(a, page, chunk, need);
    FreshAddress(a, page, chunk, need, given, protectBelow);
    p := MallocFrom(fence, size, initial, 1);
    CarveThenFree(a, page, chunk, need, p.address, given);
    var freed := FreeFrom(fence, p.address, CarvedPrefix(initial, 1, need, p.address, given), 1, Some(0),
                          if chunk - page > need then Some(2) else None);
    assert Live(fence.slots) == {} by { OnlyOneLive((p.address, given)); }
    q := ReallocFrom(fence, p.address, size, initial, 1);
  }

  lemma OnlyOneLive(entry: (int, int))
    ensures Except({} + {entry}, entry.0) == {}
  {
  }

  lemma FreshSizes(kernel: (set<int>, int) -> int, page: int)
    requires 0 < page < MEMORY_CREATION_SIZE && HonestKernel(kernel, page)
    ensures kernel({}, Chunk(page, page)) > 0 && Chunk(page, page) > page
  {
    RoundUpIsMultiple(MEMORY_CREATION_SIZE, page);
  }

  lemma NeededIsMore(page: int, alignment: int, below: bool, size: int)
    requires page > 0 && size > 0
    ensures var given := if !below && alignment > 1 then RoundUp(size, alignment) else size;
            given >= size && Reserved(page, alignment, below, size) >= given + page
  {
    var given := if !below && alignment > 1 then RoundUp(size, alignment) else size;
    if !below && alignment > 1 {
      RoundUpIsMultiple(size, alignment);
    }
    RoundUpIsMultiple(given + page, page);
  }

  /** realloc of an address that is not live but is where malloc will put the new buffer. */
  method ReallocFrom(fence: Fence, address: int, size: int, ghost first: seq<Slot>, ghost f: nat) returns (r: Outcome)
    requires fence.Valid() && fence.allocationList != 0 && fence.Roomy() && size > 0 && address != 0
    requires Starts(fence.slots, first) && AllInUse(first) && |first| < |fence.slots| && Live(fence.slots) == {}
    requires FirstBest(first, f, fence.Needed(fence.Rounded(fence.defaultAlignment, size)))
    requires var given := fence.Rounded(fence.defaultAlignment, size);
             address == AddressIn(first[f].internalAddress, fence.Needed(given), given, fence.bytesPerPage,
                                  fence.protectBelow)
    modifies fence
    ensures r == Ok(address) && Live(fence.slots) == {}
  {
    hide Tiling, Layouts, CountUnused, HonestKernel, Live, Starts, FirstBest, AllInUse, InitialSlots, Shadowed;
    hide FreedFrom, SomeFit, Supplied, PlacesAt, AddressIn, NoneEmpty, LiveLayout;
    ghost var given := fence.Rounded(fence.defaultAlignment, size);
    ghost var found, need := fence.slots, fence.Needed(given);
    PrefixDecides(found, first, f, need);
    FitIsSupplied(found, fence.mapped, need, fence.bytesPerPage, fence.pageCreate, f);
    PrefixPlaces(found, first, f, need, given, fence.bytesPerPage, fence.protectBelow, address);
    ghost var placed, between;
    r, placed, between := fence.Realloc(address, size);
  }

  // ---------------------------------------------------------------- freed memory that is protected

  /** With freed memory protected, freeing the only buffer protects all the memory there is, but for the slot array's
      own page: also what was never handed out. */
  lemma CarveThenProtect(a: int, page: int, size: int, need: int, address: int, given: int)
    requires a > 0 && page > 0 && page < need <= size - page && given >= 0 && address > a
    ensures var carved := CarvedPrefix(FreshPrefix(a, page, size), 1, need, address, given);
            var next := if size - page > need then Some(2) else None;
            && FirstAt(carved, 1, address) && carved[1] == Slot(address, a + page, given, need, Allocated)
            && FirstEnding(carved, Some(0), a + page) && FirstStarting(carved, next, a + page + need)
            && forall slots, p ::
                 Starts(slots, Coalesce(carved, 1, Some(0), next, true)) && a + page <= p < a + size ==>
                   Holds(slots, Protected, p)
  {
    var carved := CarvedPrefix(FreshPrefix(a, page, size), 1, need, address, given);
    var next := if size - page > need then Some(2) else None;
    var freed := Coalesce(carved, 1, Some(0), next, true);
    assert freed[1] == Slot(a + page, a + page, size - page, size - page, Protected);
    forall slots, p | Starts(slots, freed) && a + page <= p < a + size
      ensures Holds(slots, Protected, p)
    {
      assert slots[1] == freed[1] && Covers(slots[1], p);
    }
  }

  lemma ProtectedIsNotGiven(slots: seq<Slot>, mapped: set<int>, page: int, below: bool, x: (int, int), start: int,
                            end: int)
    requires page > 0 && Tiling(slots, mapped, page) && Layouts(slots, page, below) && x in Live(slots)
    requires forall p :: start <= p < end ==> Holds(slots, Protected, p)
    ensures forall p :: InBuffer(x, p) ==> !(start <= p < end)
  {
    hide Tiling, Layouts, Live, Holds;
    forall p | InBuffer(x, p)
      ensures !(start <= p < end)
    {
      LiveIsAllocated(slots, page, below, x, p);
      if start <= p < end {
        OneMode(slots, mapped, page, Allocated, Protected, p);
      }
    }
  }

  lemma StillProtected(before: seq<Slot>, after: seq<Slot>, start: int, end: int)
    requires Buried(before, after) && forall p :: start <= p < end ==> Holds(before, Protected, p)
    ensures forall p :: start <= p < end ==> Holds(after, Protected, p)
  {
    hide Holds;
  }

  lemma FreshInside(a: int, page: int, size: int, need: int, given: int, below: bool)
    requires page > 0 && 0 <= given <= need - page && need <= size - page
    ensures var address := AddressIn(a + page, need, given, page, below);
            a + page <= address && address + given <= a + size
  {
  }

  /** malloc and free in a new allocator that protects freed memory. */
  method MallocThenFree(page: int, slotBytes: int, alignment: int, protectBelow: bool, allowMalloc0: bool,
                        kernel: (set<int>, int) -> int, size: int)
    returns (fence: Fence, p: Outcome)
    requires 0 < page < MEMORY_CREATION_SIZE && slotBytes > 0 && page / slotBytes >= 11 && HonestKernel(kernel, page)
    requires size > 0 && page + Reserved(page, alignment, protectBelow, size) <= Chunk(page, page)
    ensures fresh(fence) && fence.Valid() && fence.protectFree && p.Ok?
    ensures fence.bytesPerPage == page && fence.protectBelow == protectBelow && fence.defaultAlignment == alignment
    ensures var a := kernel({}, Chunk(page, page));
            && a + page <= p.address && p.address + size <= a + Chunk(page, page)
            && forall b :: a + page <= b < a + Chunk(page, page) ==> Holds(fence.slots, Protected, b)
  {
    hide Tiling, Layouts, CountUnused, HonestKernel, Live, Starts, CarvedPrefix, Coalesce, FirstBest, FirstAt;
    hide FirstEnding, FirstStarting, AllInUse, InitialSlots, RoundUp, Chunk, AddressIn, FreshPrefix, Except, Holds;
    fence := new Fence(page, slotBytes, alignment, true, protectBelow, allowMalloc0, kernel);
    ghost var chunk := Chunk(page, page);
    ghost var a := kernel({}, chunk);
    ghost var initial := FreshPrefix(a, page, chunk);
    ghost var given := fence.Rounded(alignment, size);
    ghost var need := fence.Needed(given);
    FreshSizes(kernel, page);
    NeededIsMore(page, alignment, protectBelow, size);
    FreshStarts(page / slotBytes, page, a, chunk);
    FreshIsBest(a, page, chunk, need);
    FreshAddress(a, page, chunk, need, given, protectBelow);
    FreshInside(a, page, chunk, need, given, protectBelow);
    p := MallocFrom(fence, size, initial, 1);
    CarveThenProtect(a, page, chunk, need, p.address, given);
    var freed := FreeFrom(fence, p.address, CarvedPrefix(initial, 1, need, p.address, given), 1, Some(0),
                          if chunk - page > need then Some(2) else None);
  }

  /** malloc, free, malloc with freed memory protected: one free uses up the whole first arena, and the second buffer
      has no byte of it. */
  method OneFreeUsesUpTheArena(page: int, slotBytes: int, alignment: int, protectBelow: bool, allowMalloc0: bool,
                               kernel: (set<int>, int) -> int, size: int)
    returns (fence: Fence, p: Outcome, q: Outcome)
    requires 0 < page < MEMORY_CREATION_SIZE && slotBytes > 0 && page / slotBytes >= 11 && HonestKernel(kernel, page)
    requires size > 0 && page + Reserved(page, alignment, protectBelow, size) <= Chunk(page, page)
    ensures p.Ok? && q.Ok? && q != p
    ensures var a := kernel({}, Chunk(page, page));
            && a + page <= p.address && p.address + size <= a + Chunk(page, page)
            && (forall b :: a + page <= b < a + Chunk(page, page) ==> Holds(fence.slots, Protected, b))
            && forall b :: InBuffer((q.address, size), b) ==> !(a + page <= b < a + Chunk(page, page))
  {
    hide Tiling, Layouts, CountUnused, HonestKernel, Live, RoundUp, Chunk, Holds, Buried, NoneProtected, FirstBest;
    hide SuppliedMemory, Supplied, CarvedFrom, PlacesAt, NoneEmpty;
    fence, p := MallocThenFree(page, slotBytes, alignment, protectBelow, allowMalloc0, kernel, size);
    ghost var before := fence.slots;
    ghost var a, chunk := kernel({}, Chunk(page, page)), Chunk(page, page);
    q := fence.Malloc(size);
    ghost var given := fence.Rounded(alignment, size);
    NeededIsMore(page, alignment, protectBelow, size);
    StillProtected(before, fence.slots, a + page, a + chunk);
    ProtectedIsNotGiven(fence.slots, fence.mapped, page, protectBelow, (q.address, given), a + page, a + chunk);
    forall b | InBuffer((q.address, size), b)
      ensures !(a + page <= b < a + chunk)
    {
      assert InBuffer((q.address, given), b);
    }
    assert InBuffer((q.address, size), q.address);
  }

  /** A program's calls to the allocator. */
  datatype Call =
    | Memalign(alignment: int, size: nat)
    | Malloc(size: nat)
    | Calloc(nelem: nat, elsize: nat)
    | FreeBuffer(address: int)
    | Realloc(address: int, size: nat)

  /** What a call answers and makes of the live buffers, if it does not stop the program. */
  ghost predicate Answers(fence: Fence, call: Call, before: set<(int, int)>, r: Outcome, after: set<(int, int)>)
    requires r.Ok?
  {
    match call
    case Memalign(alignment, size) => after == before + {(r.address, fence.Rounded(alignment, size))}
    case Malloc(size) => after == before + {(r.address, fence.Rounded(fence.defaultAlignment, size))}
    case Calloc(nelem, elsize) =>
      after == before + {(r.address, fence.Rounded(fence.defaultAlignment, nelem * elsize))}
    case FreeBuffer(address) => after == Without(before, address) && (address == 0 || IsLive(before, address))
    case Realloc(address, size) =>
      after == Without(before + {(r.address, fence.Rounded(fence.defaultAlignment, size))}, address)
  }

  method Perform(fence: Fence, call: Call) returns (r: Outcome)
    requires fence.Valid()
    modifies fence
    ensures fence.Valid() && (fence.protectFree ==> Buried(old(fence.slots), fence.slots))
    ensures r.Ok? ==> Answers(fence, call, old(Live(fence.slots)), r, Live(fence.slots))
  {
    hide Tiling, Layouts, CountUnused, HonestKernel, Live, Buried, NoneProtected, Except, RoundUp;
    match call
    case Memalign(alignment, size) => r := fence.Memalign(alignment, size);
    case Malloc(size) => r := fence.Malloc(size);
    case Calloc(nelem, elsize) => r := fence.Calloc(nelem, elsize);
    case FreeBuffer(address) => r := fence.FreeBuffer(address);
    case Realloc(address, size) =>
      ghost var placed, between;
      r, placed, between := fence.Realloc(address, size);
  }

  ghost predicate Overlap(x: (int, int), y: (int, int)) { exists p :: InBuffer(x, p) && InBuffer(y, p) }

  /** In a history of the live buffers, the i-th call took this one. */
  ghost predicate Gone(lives: seq<set<(int, int)>>, i: int, x: (int, int)) {
    0 <= i < |lives| - 1 && x in lives[i] && x !in lives[i + 1]
  }

  /** Once a buffer is gone, no later one has a byte of it. */
  ghost predicate NeverReused(lives: seq<set<(int, int)>>) {
    forall i, j, x, y :: Gone(lives, i, x) && i < j < |lives| && y in lives[j] ==> !Overlap(x, y)
  }

  /** The buffers gone so far are dead. */
  ghost predicate GoneAreDead(lives: seq<set<(int, int)>>, slots: seq<Slot>) {
    forall i, x :: Gone(lives, i, x) ==> Dead(slots, x)
  }

  /** Any run whatever of a program, up to the call that stops it: with freed memory protected, no buffer ever has a
      byte that was part of a buffer freed before. */
  method Run(fence: Fence, calls: seq<Call>) returns (results: seq<Outcome>, ghost lives: seq<set<(int, int)>>)
    requires fence.Valid()
    modifies fence
    ensures fence.Valid() && |results| <= |calls| && |lives| == |results| + 1
    ensures lives[0] == old(Live(fence.slots)) && lives[|results|] == Live(fence.slots)
    ensures forall i :: 0 <= i < |results| && results[i].Ok? ==>
              Answers(fence, calls[i], lives[i], results[i], lives[i + 1])
    ensures if |results| == |calls| then forall i :: 0 <= i < |calls| - 1 ==> results[i].Ok?
            else |results| > 0 && !results[|results| - 1].Ok?
    ensures fence.protectFree ==> NeverReused(lives)
  {
    hide Tiling, Layouts, CountUnused, HonestKernel, Live, Buried, NoneProtected, Answers, NeverReused, GoneAreDead;
    results, lives := [], [Live(fence.slots)];
    NothingGone(lives, fence.slots);
    for i := 0 to |calls|
      invariant fence.Valid() && |results| == i && |lives| == i + 1
      invariant lives[0] == old(Live(fence.slots)) && lives[i] == Live(fence.slots)
      invariant forall j :: 0 <= j < i ==>
                  results[j].Ok? && Answers(fence, calls[j], lives[j], results[j], lives[j + 1])
      invariant fence.protectFree ==> NeverReused(lives) && GoneAreDead(lives, fence.slots)
    {
      ghost var before, was := fence.slots, lives;
      var r := Perform(fence, calls[i]);
      results, lives := results + [r], lives + [Live(fence.slots)];
      if fence.protectFree {
        Arena(fence);
        OneMoreCall(was, before, fence.slots, fence.mapped, fence.bytesPerPage, fence.protectBelow);
      }
      if !r.Ok? {
        return;
      }
    }
  }

  lemma Arena(fence: Fence)
    requires fence.Valid()
    ensures Tiling(fence.slots, fence.mapped, fence.bytesPerPage)
    ensures Layouts(fence.slots, fence.bytesPerPage, fence.protectBelow)
  {
  }

  lemma NothingGone(lives: seq<set<(int, int)>>, slots: seq<Slot>)
    requires |lives| == 1
    ensures NeverReused(lives) && GoneAreDead(lives, slots)
  {
  }

  /** A call keeps both. */
  lemma OneMoreCall(lives: seq<set<(int, int)>>, before: seq<Slot>, after: seq<Slot>, mapped: set<int>, page: int,
                    below: bool)
    requires |lives| > 0 && lives[|lives| - 1] == Live(before)
    requires NeverReused(lives) && GoneAreDead(lives, before) && Buried(before, after)
    requires page > 0 && Tiling(after, mapped, page) && Layouts(after, page, below)
    ensures NeverReused(lives + [Live(after)]) && GoneAreDead(lives + [Live(after)], after)
  {
    hide Tiling, Layouts, Live;
    var all, n := lives + [Live(after)], |lives|;
    forall i, x | Gone(all, i, x)
      ensures Dead(after, x)
    {
      if i < n - 1 {
        assert Gone(lives, i, x);
        StaysDead(before, after, x);
      }
    }
    hide Buried, Dead;
    forall i, j, x, y | Gone(all, i, x) && i < j < |all| && y in all[j]
      ensures !Overlap(x, y)
    {
      if j < n {
        assert Gone(lives, i, x);
      } else {
        NoOverlap(after, mapped, page, below, x, y);
      }
    }
  }

  lemma NoOverlap(slots: seq<Slot>, mapped: set<int>, page: int, below: bool, x: (int, int), y: (int, int))
    requires page > 0 && Tiling(slots, mapped, page) && Layouts(slots, page, below)
    requires Dead(slots, x) && y in Live(slots)
    ensures !Overlap(x, y)
  {
    hide Tiling, Layouts, Live, Dead;
    if p :| InBuffer(x, p) && InBuffer(y, p) {
      DeadIsNotLive(slots, mapped, page, below, x, y, p);
    }
  }

  // ---------------------------------------------------------------- an empty buffer that cannot be freed

  const PAGE := 4096

  /** The slots in use after so many calls of the run below, with the memory starting at `a`. */
  function Stage(a: int, calls: nat): seq<Slot> {
    var list := Slot(a, a, PAGE, PAGE, InternalUse);
    var x := Slot(a + 2 * PAGE, a + PAGE, 1, 2 * PAGE, Allocated);
    var y := Slot(a + 4 * PAGE, a + 3 * PAGE, 0, PAGE, Allocated);
    var w := Slot(a + 2 * PAGE, a + PAGE, 0, PAGE, Allocated);
    var z := Slot(a + 3 * PAGE, a + 2 * PAGE, 0, PAGE, Allocated);
    var rest := Slot(0, a + 4 * PAGE, 0, 252 * PAGE, Free);
    match calls
    case 0 => [list, Slot(a + PAGE, a + PAGE, 255 * PAGE, 255 * PAGE, Free)]
    case 1 => [list, x, Slot(0, a + 3 * PAGE, 0, 253 * PAGE, Free)]
    case 2 => [list, x, y, rest]
    case 3 => [list, Slot(a + PAGE, a + PAGE, 2 * PAGE, 2 * PAGE, Free), y, rest]
    case 4 => [list, w, y, rest, Slot(0, a + 2 * PAGE, 0, PAGE, Free)]
    case 5 => [list, w, y, rest, z]
    case _ => [list, w, Slot(a + 3 * PAGE, a + 3 * PAGE, 253 * PAGE, 253 * PAGE, Free), EMPTY, z]
  }

  lemma FirstStages(a: int)
    requires a > 0
    ensures FirstBest(Stage(a, 0), 1, 2 * PAGE)
    ensures CarvedPrefix(Stage(a, 0), 1, 2 * PAGE, a + 2 * PAGE, 1) == Stage(a, 1)
    ensures FirstBest(Stage(a, 1), 2, PAGE) && CarvedPrefix(Stage(a, 1), 2, PAGE, a + 4 * PAGE, 0) == Stage(a, 2)
    ensures FirstAt(Stage(a, 2), 1, a + 2 * PAGE) && Coalesce(Stage(a, 2), 1, Some(0), Some(2), false) == Stage(a, 3)
    ensures FirstEnding(Stage(a, 2), Some(0), a + PAGE) && FirstStarting(Stage(a, 2), Some(2), a + 3 * PAGE)
    ensures Stage(a, 0)[1].internalAddress == a + PAGE && Stage(a, 1)[2].internalAddress == a + 3 * PAGE
    ensures Stage(a, 2)[1] == Slot(a + 2 * PAGE, a + PAGE, 1, 2 * PAGE, Allocated)
  {
  }

  lemma LastStages(a: int)
    requires a > 0
    ensures FirstBest(Stage(a, 3), 1, PAGE) && CarvedPrefix(Stage(a, 3), 1, PAGE, a + 2 * PAGE, 0) == Stage(a, 4)
    ensures FirstBest(Stage(a, 4), 4, PAGE) && CarvedPrefix(Stage(a, 4), 4, PAGE, a + 3 * PAGE, 0) == Stage(a, 5)
    ensures FirstAt(Stage(a, 5), 2, a + 4 * PAGE) && Coalesce(Stage(a, 5), 2, Some(4), Some(3), false) == Stage(a, 6)
    ensures FirstEnding(Stage(a, 5), Some(4), a + 3 * PAGE) && FirstStarting(Stage(a, 5), Some(3), a + 4 * PAGE)
    ensures Stage(a, 3)[1].internalAddress == a + PAGE && Stage(a, 4)[4].internalAddress == a + 2 * PAGE
    ensures Stage(a, 5)[2] == Slot(a + 4 * PAGE, a + 3 * PAGE, 0, PAGE, Allocated)
  {
  }

  lemma StagesInUse(a: int, calls: nat)
    requires calls < 6
    ensures AllInUse(Stage(a, calls)) && 2 <= |Stage(a, calls)| <= 5 && (calls > 0 ==> |Stage(a, calls)| >= 3)
    ensures calls >= 4 ==> |Stage(a, calls)| == 5
  {
  }

  /** In the end the empty buffer's address first finds free memory. */
  lemma LastIsShadowed(slots: seq<Slot>, a: int)
    requires Starts(slots, Stage(a, 6))
    ensures Shadowed(slots, a + 3 * PAGE) && (a + 3 * PAGE, 0) in Live(slots)
  {
    assert Hides(slots[2], slots[4], a + 3 * PAGE);
    assert slots[4].mode.Allocated?;
  }

  /** The first three calls: malloc of one byte, malloc of none, and the one byte freed. */
  method EmptyRunBegins(alignment: int, kernel: (set<int>, int) -> int) returns (fence: Fence, y: Outcome)
    requires HonestKernel(kernel, PAGE)
    ensures fresh(fence) && fence.Valid() && fence.allocationList != 0
    ensures fence.bytesPerPage == PAGE && fence.protectBelow && fence.allowMalloc0 && !fence.protectFree
    ensures var a := kernel({}, Chunk(PAGE, PAGE));
            a > 0 && y == Ok(a + 4 * PAGE) && Starts(fence.slots, Stage(a, 3))
    ensures |fence.slots| == 64 && fence.unUsedSlots >= 58
  {
    hide Tiling, Layouts, CountUnused, HonestKernel, Live, Starts, CarvedPrefix, Coalesce, FirstBest, FirstAt;
    hide FirstEnding, FirstStarting, AllInUse, InitialSlots, Except;
    fence := new Fence(PAGE, 64, alignment, false, true, true, kernel);
    ghost var a := kernel({}, Chunk(PAGE, PAGE));
    FreshSizes(kernel, PAGE);
    FreshStarts(64, PAGE, a, Chunk(PAGE, PAGE));
    assert FreshPrefix(a, PAGE, Chunk(PAGE, PAGE)) == Stage(a, 0);
    FirstStages(a);
    StagesInUse(a, 0);
    StagesInUse(a, 1);
    hide Stage;
    var x := MallocFrom(fence, 1, Stage(a, 0), 1);
    y := MallocFrom(fence, 0, Stage(a, 1), 2);
    var freed := FreeFrom(fence, x.address, Stage(a, 2), 1, Some(0), Some(2));
  }

  /** With empty buffers allowed and pages protected below, six calls lead to a live empty buffer that cannot be freed:
      freeing it stops the program. */
  method EmptyBufferCannotBeFreed(alignment: int, kernel: (set<int>, int) -> int)
    returns (fence: Fence, z: Outcome, r: Outcome)
    requires HonestKernel(kernel, PAGE)
    ensures z.Ok? && (z.address, 0) in Live(fence.slots) && r.Abort?
  {
    hide Tiling, Layouts, CountUnused, HonestKernel, Live, Starts, CarvedPrefix, Coalesce, FirstBest, FirstAt;
    hide FirstEnding, FirstStarting, AllInUse, InitialSlots, Shadowed, FreedFrom, Except;
    ghost var a := kernel({}, Chunk(PAGE, PAGE));
    var y;
    fence, y := EmptyRunBegins(alignment, kernel);
    LastStages(a);
    StagesInUse(a, 3);
    StagesInUse(a, 4);
    hide Stage;
    var w := MallocFrom(fence, 0, Stage(a, 3), 1);
    z := MallocFrom(fence, 0, Stage(a, 4), 4);
    r := FreeFrom(fence, y.address, Stage(a, 5), 2, Some(4), Some(3));
    LastIsShadowed(fence.slots, a);
    r := fence.FreeBuffer(z.address);
  }
}
