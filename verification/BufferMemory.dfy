/** The bytes of the buffers Electric Fence hands out, and what memcpy and memset make of them. */
module BufferMemory {
  /** Bytes never written read as zero. */
  type Memory = map<int, int>

  function Byte(m: Memory, p: int): int { if p in m then m[p] else 0 }

  function Copied(m: Memory, to: int, from: int, size: nat): Memory {
    if size == 0 then m else Copied(m, to, from, size - 1)[to + size - 1 := Byte(m, from + size - 1)]
  }

  function Cleared(m: Memory, to: int, size: nat): Memory {
    if size == 0 then m else Cleared(m, to, size - 1)[to + size - 1 := 0]
  }

  lemma {:induction false} CopiedAt(m: Memory, to: int, from: int, size: nat, p: int)
    ensures Byte(Copied(m, to, from, size), p) == if to <= p < to + size then Byte(m, from + (p - to)) else Byte(m, p)
  {
    if size > 0 {
      CopiedAt(m, to, from, size - 1, p);
    }
  }

  lemma {:induction false} ClearedAt(m: Memory, to: int, size: nat, p: int)
    ensures Byte(Cleared(m, to, size), p) == if to <= p < to + size then 0 else Byte(m, p)
  {
    if size > 0 {
      ClearedAt(m, to, size - 1, p);
    }
  }

  predicate InBuffer(x: (int, int), p: int) { x.0 <= p < x.0 + x.1 }

  /** No byte of the live buffers changes, except perhaps in the one at `except`. */
  ghost predicate Untouched(live: set<(int, int)>, except: int, before: Memory, after: Memory) {
    forall x, p :: x in live && x.0 != except && InBuffer(x, p) ==> Byte(after, p) == Byte(before, p)
  }

  /** The new buffer holds the old one's contents as far as both reach, and zeros behind them. */
  ghost predicate Moved(before: Memory, after: Memory, oldBuffer: int, size: int, newBuffer: int, newSize: int) {
    forall p :: InBuffer((newBuffer, newSize), p) ==> MovedByte(before, after, oldBuffer, size, newBuffer, p)
  }

  predicate MovedByte(before: Memory, after: Memory, oldBuffer: int, size: int, newBuffer: int, p: int) {
    Byte(after, p) == if p - newBuffer < size then Byte(before, oldBuffer + (p - newBuffer)) else 0
  }

  /** What realloc does to memory before and after it frees the old buffer. */
  function Kept(m: Memory, oldBuffer: int, size: int, newBuffer: int, newSize: int): Memory {
    var kept := if newSize < size then newSize else size;
    if kept > 0 then Copied(m, newBuffer, oldBuffer, kept) else m
  }

  function Reallocated(m: Memory, oldBuffer: int, size: int, newBuffer: int, newSize: int): Memory {
    var kept := if newSize < size then newSize else size;
    var copied := Kept(m, oldBuffer, size, newBuffer, newSize);
    if kept < newSize then Cleared(copied, newBuffer + kept, newSize - kept) else copied
  }

  lemma KeptAt(m: Memory, oldBuffer: int, size: int, newBuffer: int, newSize: int, p: int)
    ensures Byte(Kept(m, oldBuffer, size, newBuffer, newSize), p)
            == if newBuffer <= p < newBuffer + newSize && p < newBuffer + size then Byte(m, oldBuffer + (p - newBuffer))
               else Byte(m, p)
  {
    var kept := if newSize < size then newSize else size;
    if kept > 0 {
      CopiedAt(m, newBuffer, oldBuffer, kept, p);
    }
  }

  lemma ReallocatedAt(m: Memory, oldBuffer: int, size: int, newBuffer: int, newSize: int, p: int)
    requires size >= 0 && newSize >= 0
    ensures Byte(Reallocated(m, oldBuffer, size, newBuffer, newSize), p)
            == if newBuffer <= p < newBuffer + newSize
               then (if p - newBuffer < size then Byte(m, oldBuffer + (p - newBuffer)) else 0)
               else Byte(m, p)
  {
    hide Kept;
    KeptAt(m, oldBuffer, size, newBuffer, newSize, p);
    if size < newSize {
      ClearedAt(Kept(m, oldBuffer, size, newBuffer, newSize), newBuffer + size, newSize - size, p);
    }
  }

  /** Moving into memory apart from all live buffers moves the contents and touches no other buffer. */
  lemma MoveDone(live: set<(int, int)>, m: Memory, oldBuffer: int, size: int, newBuffer: int, newSize: int, whole: int)
    requires 0 <= newSize <= whole
    requires forall x :: x in live ==> x.0 + x.1 <= newBuffer || newBuffer + whole <= x.0
    ensures Untouched(live, oldBuffer, m, Kept(m, oldBuffer, size, newBuffer, newSize))
    ensures size >= 0 ==>
              && Untouched(live, oldBuffer, m, Reallocated(m, oldBuffer, size, newBuffer, newSize))
              && Moved(m, Reallocated(m, oldBuffer, size, newBuffer, newSize), oldBuffer, size, newBuffer, newSize)
  {
    var kept := Kept(m, oldBuffer, size, newBuffer, newSize);
    var after := Reallocated(m, oldBuffer, size, newBuffer, newSize);
    hide Kept, Reallocated, Byte;
    forall x, p | x in live && x.0 != oldBuffer && InBuffer(x, p)
      ensures Byte(kept, p) == Byte(m, p) && (size >= 0 ==> Byte(after, p) == Byte(m, p))
    {
      assert x.0 + x.1 <= newBuffer || newBuffer + whole <= x.0;
      KeptAt(m, oldBuffer, size, newBuffer, newSize, p);
      if size >= 0 {
        ReallocatedAt(m, oldBuffer, size, newBuffer, newSize, p);
      }
    }
    if size >= 0 {
      forall p | InBuffer((newBuffer, newSize), p)
        ensures MovedByte(m, after, oldBuffer, size, newBuffer, p)
      {
        ReallocatedAt(m, oldBuffer, size, newBuffer, newSize, p);
      }
    }
  }

  /** Clearing memory apart from all live buffers clears it and touches none. */
  lemma ClearDone(live: set<(int, int)>, m: Memory, to: int, size: nat, whole: int)
    requires size <= whole && forall x :: x in live ==> x.0 + x.1 <= to || to + whole <= x.0
    ensures Untouched(live, 0, m, Cleared(m, to, size))
    ensures forall p :: InBuffer((to, size), p) ==> Byte(Cleared(m, to, size), p) == 0
  {
    hide Byte, Cleared;
    forall p: int
      ensures InBuffer((to, size), p) ==> Byte(Cleared(m, to, size), p) == 0
    {
      ClearedAt(m, to, size, p);
    }
    forall x, p | x in live && x.0 != 0 && InBuffer(x, p)
      ensures Byte(Cleared(m, to, size), p) == Byte(m, p)
    {
      assert x.0 + x.1 <= to || to + whole <= x.0;
      ClearedAt(m, to, size, p);
    }
  }

  lemma UntouchedIfSame(live: set<(int, int)>, except: int, m: Memory)
    ensures Untouched(live, except, m, m)
  {
  }
}
