/**
 * block_pool<N>, the backing pool that dynamic_pool and size_based_pool
 * use: a block of memory cut into equal slots of N bytes.  Only its
 * MemoryPool contract is known, so it is modelled as a value: the slots in
 * use, handed out lowest address first.
 */
module BlockPools {
  import opened MemoryPool

  datatype BlockPool = BlockPool(start: Address, slot: nat, count: nat, used: set<Address>)
  {
    /** The address of slot i. */
    function SlotAt(i: nat): Address
    {
      start + Times(i, slot)
    }

    /** The bytes the slots span. */
    function Span(): Range
    {
      Range(start, start + Times(count, slot))
    }

    /** Every slot in use is one of the pool's slots. */
    ghost predicate Valid()
    {
      start != Null && slot > 0 && forall a :: a in used ==> IsSlot(start, slot, count, a)
    }

    /** The first slot from i on that is not in use, or `count`. */
    function FirstFree(i: nat): (r: nat)
      requires i <= count
      ensures i <= r <= count
      ensures r < count ==> SlotAt(r) !in used
      ensures forall j :: i <= j < r ==> SlotAt(j) in used
      decreases count - i
    {
      if i == count || SlotAt(i) !in used then i else FirstFree(i + 1)
    }

    /** Whether alloc(size) succeeds: a request that fits a slot, and a
        free slot. */
    predicate CanServe(size: nat)
    {
      0 < size <= slot && FirstFree(0) < count
    }

    /** alloc(): the lowest free slot, or NULL. */
    function Alloc(size: nat): (r: (BlockPool, Address))
      requires Valid()
      ensures r.1 == Null <==> !CanServe(size)
      ensures r.1 == Null ==> r.0 == this
      ensures r.1 != Null ==> r.1 == SlotAt(FirstFree(0)) && r.1 !in used && Span().Contains(r.1)
      ensures r.1 != Null ==> r.0 == this.(used := used + {r.1}) && r.0.Valid()
    {
      if CanServe(size) then
        var p := SlotAt(FirstFree(0));
        SlotInSpan(this, FirstFree(0));
        (this.(used := used + {p}), p)
      else (this, Null)
    }

    /** realloc(): a slot in use keeps its place for any non-zero size that
        fits a slot; anything else is NULL. */
    function Realloc(ptr: Address, newSize: nat): (p: Address)
      ensures p != Null <==> ptr in used && ptr != Null && 0 < newSize <= slot
      ensures p != Null ==> p == ptr
    {
      if ptr in used && ptr != Null && 0 < newSize <= slot then ptr else Null
    }

    /** free(): the slot is no longer in use. */
    function Free(ptr: Address): (b: BlockPool)
      requires Valid()
      ensures b.Valid() && b.used == used - {ptr}
      ensures b.start == start && b.slot == slot && b.count == count
    {
      this.(used := used - {ptr})
    }

    /** in_use(): some slot is in use. */
    predicate InUse()
    {
      used != {}
    }

    /** alloc_size(): the slot size for a slot in use, zero otherwise. */
    function AllocSize(ptr: Address): (n: nat)
      ensures n != 0 <==> ptr in used && slot != 0
      ensures n != 0 ==> n == slot
    {
      if ptr in used then slot else 0
    }
  }

  /** `a` is the address of one of `count` slots of `slot` bytes from
      `start`. */
  ghost predicate IsSlot(start: Address, slot: nat, count: nat, a: Address)
  {
    exists i :: 0 <= i < count && a == start + Times(i, slot)
  }

  /** An empty pool over `count` slots from `start`. */
  function NewBlockPool(start: Address, slot: nat, count: nat): (b: BlockPool)
    requires start != Null && slot > 0
    ensures b.Valid() && !b.InUse() && b.start == start && b.slot == slot && b.count == count
    ensures count > 0 ==> b.CanServe(slot)
  {
    BlockPool(start, slot, count, {})
  }

  /** Slot i of a pool lies within its span. */
  lemma SlotInSpan(b: BlockPool, i: nat)
    requires b.slot > 0 && i < b.count
    ensures b.Span().Contains(b.SlotAt(i))
  {
    SlotBelow(i, b.count, b.slot);
  }

  /** Slot i ends no later than slot n starts. */
  lemma {:induction false} SlotBelow(i: nat, n: nat, k: nat)
    requires i < n
    ensures Times(i, k) + k <= Times(n, k)
  {
    if n > i + 1 {
      SlotBelow(i, n - 1, k);
    }
  }

  /** Every slot in use lies within the pool's span. */
  lemma UsedInSpan(b: BlockPool, p: Address)
    requires b.Valid() && p in b.used
    ensures b.Span().Contains(p)
  {
    var i :| 0 <= i < b.count && p == b.start + Times(i, b.slot);
    SlotInSpan(b, i);
  }
}
