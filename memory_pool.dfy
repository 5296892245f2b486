/**
 * The MemoryPool contract shared by every pool (fhtagn/memory/memory_pool.h)
 * and heap_pool, the pool that wraps the C heap.
 *
 * Addresses are natural numbers and 0 plays NULL.  What malloc() and
 * realloc() return is not computed here: the address the heap hands out is
 * a parameter of the operations that call it, NULL when the heap is out of
 * memory.
 */
module MemoryPool {

  type Address = nat

  /** The NULL pointer. */
  const Null: Address := 0

  /** n * k, as n additions of k.  Block and slot sizes are stated with it
      so that the products of two unknowns they involve stay out of the
      arithmetic of every proof that does not need them; TimesIsProduct
      connects the two where a proof does. */
  function Times(n: nat, k: nat): nat
  {
    if n == 0 then 0 else Times(n - 1, k) + k
  }

  lemma {:induction false} TimesIsProduct(n: nat, k: nat)
    ensures Times(n, k) == n * k
  {
    if n > 0 {
      TimesIsProduct(n - 1, k);
    }
  }

  /** A half-open address range [start, end), as dynamic_pool keys its
      backing pools. */
  datatype Range = Range(start: Address, end: Address)
  {
    predicate Contains(p: Address)
    {
      start <= p < end
    }

    predicate DisjointFrom(other: Range)
    {
      end <= other.start || other.end <= start
    }
  }

  /** Disjoint ranges never both contain a pointer. */
  lemma DisjointRangesOwnApart(a: Range, b: Range, p: Address)
    requires a.DisjointFrom(b)
    ensures !(a.Contains(p) && b.Contains(p))
  {
  }

  /**
   * heap_pool: every block it handed out and has not freed yet, with the
   * size it was asked for.
   */
  class HeapPool {
    var live: map<Address, nat>

    ghost predicate Valid()
      reads this
    {
      Null !in live
    }

    constructor ()
      ensures Valid() && live == map[]
    {
      live := map[];
    }

    /** alloc(): NULL for a size of zero or when the heap has no memory
        (`granted` is what malloc returned); otherwise the new block. */
    method Alloc(size: nat, granted: Address) returns (p: Address)
      requires Valid() && granted !in live
      modifies this
      ensures Valid()
      ensures p == Null <==> size == 0 || granted == Null
      ensures p != Null ==> p == granted && live == old(live)[p := size]
      ensures p == Null ==> live == old(live)
    {
      if size == 0 || granted == Null {
        p := Null;
      } else {
        p := granted;
        live := live[p := size];
      }
    }

    /** realloc(): NULL for a new size of zero or when the heap cannot move
        the block (`granted` is what realloc returned; it may be `ptr`
        itself), and then `ptr` stays valid; otherwise `ptr` is replaced by
        the returned block. */
    method Realloc(ptr: Address, newSize: nat, granted: Address) returns (p: Address)
      requires Valid() && ptr in live
      requires granted !in live || granted == ptr
      modifies this
      ensures Valid()
      ensures p == Null <==> newSize == 0 || granted == Null
      ensures p == Null ==> live == old(live)
      ensures p != Null ==> p == granted && live == (old(live) - {ptr})[p := newSize]
    {
      if newSize == 0 || granted == Null {
        p := Null;
      } else {
        p := granted;
        live := (live - {ptr})[p := newSize];
      }
    }

    /** free(): a no-op for NULL. */
    method Free(ptr: Address)
      requires Valid() && (ptr == Null || ptr in live)
      modifies this
      ensures Valid()
      ensures live == old(live) - {ptr}
    {
      if ptr != Null {
        live := live - {ptr};
      }
    }

    /** in_use(): the heap cannot tell, so it always claims to be in use. */
    function InUse(): (r: bool)
      ensures r
    {
      true
    }

    /** alloc_size(): the heap does not divulge block sizes, so the answer
        is the one for an unknown pointer. */
    function AllocSize(ptr: Address): (r: nat)
      reads this
      ensures ptr !in live ==> r == 0
      ensures r == 0
    {
      0
    }
  }
}
