/**
 * dynamic_pool: a growing set of block_pool instances, each over one block
 * of the heap and keyed by that block's address range.  Allocation tries
 * the pools already there and adds a pool when none of them can serve;
 * freeing the last allocation of a pool drops it.
 *
 * Where the heap places a new block is not computed: it is the `newBlock`
 * parameter of the operations that may create a pool, NULL when the heap
 * is out of memory.
 */
module DynamicPools {
  import opened MemoryPool
  import opened BlockPools

  /** The allocations of all pools together. */
  function LiveOf(pools: map<Range, BlockPool>): set<Address>
  {
    set r, p | r in pools && p in pools[r].used :: p
  }

  /** Every pool is a valid pool of `slots` slots of `slot` bytes at the
      start of its key, and the slots fit the key's range. */
  ghost predicate Keyed(pools: map<Range, BlockPool>, slot: nat, slots: nat, blockSize: nat)
  {
    forall r :: r in pools ==>
      pools[r].Valid() && pools[r].start == r.start && pools[r].slot == slot &&
      pools[r].count == slots && r.end == r.start + blockSize && Times(slots, slot) <= blockSize
  }

  /** Keys never overlap. */
  ghost predicate Apart(pools: map<Range, BlockPool>)
  {
    forall r, r' :: r in pools && r' in pools && r != r' ==> r.DisjointFrom(r')
  }

  /** A pool's allocations lie within its key. */
  lemma UsedInKey(pools: map<Range, BlockPool>, slot: nat, slots: nat, blockSize: nat, r: Range, p: Address)
    requires Keyed(pools, slot, slots, blockSize) && r in pools && p in pools[r].used
    ensures r.Contains(p)
  {
    UsedInSpan(pools[r], p);
  }

  /** Every live pointer lies within the key of a pool, and is not NULL. */
  lemma LiveInKey(pools: map<Range, BlockPool>, slot: nat, slots: nat, blockSize: nat, p: Address)
    requires Keyed(pools, slot, slots, blockSize) && p in LiveOf(pools)
    ensures p != Null && exists r :: r in pools && r.Contains(p)
  {
    var r :| r in pools && p in pools[r].used;
    UsedInKey(pools, slot, slots, blockSize, r, p);
  }

  /** A pointer outside every key is not live. */
  lemma OutsideNotLive(pools: map<Range, BlockPool>, slot: nat, slots: nat, blockSize: nat, p: Address)
    requires Keyed(pools, slot, slots, blockSize)
    requires forall r :: r in pools ==> !r.Contains(p)
    ensures p !in LiveOf(pools)
  {
    if p in LiveOf(pools) {
      LiveInKey(pools, slot, slots, blockSize, p);
    }
  }

  /** A pointer inside one key that its pool does not hold is held by no
      pool. */
  lemma NotLiveElsewhere(pools: map<Range, BlockPool>, slot: nat, slots: nat, blockSize: nat, r: Range, p: Address)
    requires Keyed(pools, slot, slots, blockSize) && Apart(pools)
    requires r in pools && r.Contains(p) && p !in pools[r].used
    ensures p !in LiveOf(pools)
  {
    if p in LiveOf(pools) {
      var r' :| r' in pools && p in pools[r'].used;
      UsedInKey(pools, slot, slots, blockSize, r', p);
      DisjointRangesOwnApart(r, r', p);
    }
  }

  /** Replacing one pool changes the allocations of that pool only. */
  lemma LiveUpdate(pools: map<Range, BlockPool>, slot: nat, slots: nat, blockSize: nat, r: Range, b: BlockPool)
    requires Keyed(pools, slot, slots, blockSize) && Apart(pools) && r in pools
    ensures LiveOf(pools[r := b]) == LiveOf(pools) - pools[r].used + b.used
  {
    forall p | p in LiveOf(pools) - pools[r].used
      ensures p in LiveOf(pools[r := b])
    {
      var r' :| r' in pools && p in pools[r'].used;
      assert r' != r && r' in pools[r := b] && p in pools[r := b][r'].used;
    }
    forall p | p in b.used
      ensures p in LiveOf(pools[r := b])
    {
      assert r in pools[r := b] && p in pools[r := b][r].used;
    }
    forall p | p in LiveOf(pools[r := b]) && p !in b.used
      ensures p in LiveOf(pools) - pools[r].used
    {
      var r' :| r' in pools[r := b] && p in pools[r := b][r'].used;
      assert r' != r && r' in pools;
      if p in pools[r].used {
        UsedInKey(pools, slot, slots, blockSize, r, p);
        UsedInKey(pools, slot, slots, blockSize, r', p);
        DisjointRangesOwnApart(r, r', p);
      }
    }
  }

  /** A new pool adds its allocations. */
  lemma LiveAdd(pools: map<Range, BlockPool>, r: Range, b: BlockPool)
    requires r !in pools
    ensures LiveOf(pools[r := b]) == LiveOf(pools) + b.used
  {
    forall p | p in LiveOf(pools)
      ensures p in LiveOf(pools[r := b])
    {
      var r' :| r' in pools && p in pools[r'].used;
      assert r' != r && r' in pools[r := b] && p in pools[r := b][r'].used;
    }
    forall p | p in b.used
      ensures p in LiveOf(pools[r := b])
    {
      assert r in pools[r := b] && p in pools[r := b][r].used;
    }
  }

  /** Dropping an unused pool changes no allocation. */
  lemma LiveDrop(pools: map<Range, BlockPool>, r: Range)
    requires r in pools && pools[r].used == {}
    ensures LiveOf(pools - {r}) == LiveOf(pools)
  {
    forall p | p in LiveOf(pools)
      ensures p in LiveOf(pools - {r})
    {
      var r' :| r' in pools && p in pools[r'].used;
      assert r' != r && r' in pools - {r} && p in (pools - {r})[r'].used;
    }
  }

  /** No pool below key r can serve `size`. */
  ghost predicate NoneLower(pools: map<Range, BlockPool>, r: Range, size: nat)
  {
    forall r' :: r' in pools && r'.start < r.start ==> !pools[r'].CanServe(size)
  }

  /** Among finitely many ranges one starts lowest. */
  lemma {:induction false} LowestStart(s: set<Range>) returns (r: Range)
    requires s != {}
    ensures r in s && forall r' :: r' in s ==> r.start <= r'.start
  {
    var x :| x in s;
    if s == {x} {
      return x;
    }
    var y := LowestStart(s - {x});
    r := if x.start < y.start then x else y;
  }

  class DynamicPool {
    /** The slot size of the backing block_pool. */
    const objectSize: nat
    /** MEMORY_BLOCK_SIZE: the bytes of one backing block. */
    const blockSize: nat
    /** The slots a backing pool holds. */
    const slots: nat
    /** m_pool_map: each backing pool under the range of its block. */
    var pools: map<Range, BlockPool>

    ghost predicate Valid()
      reads this
    {
      0 < objectSize <= blockSize && 0 < slots && Times(slots, objectSize) <= blockSize && Keyed(pools, objectSize, slots, blockSize) && Apart(pools)
    }

    /** Every pointer allocated and not freed yet. */
    function Live(): set<Address>
      reads this
    {
      LiveOf(pools)
    }

    /** The key of a block at `start`. */
    function KeyFor(start: Address): Range
    {
      Range(start, start + blockSize)
    }

    constructor (objectSize: nat, blockSize: nat, slots: nat)
      requires 0 < objectSize && 0 < slots && Times(slots, objectSize) <= blockSize
      ensures Valid() && pools == map[]
      ensures this.objectSize == objectSize && this.blockSize == blockSize && this.slots == slots
    {
      this.objectSize := objectSize;
      this.blockSize := blockSize;
      this.slots := slots;
      pools := map[];
      SlotBelow(0, slots, objectSize);
    }

    /** find_pool(): the one pool whose key contains `ptr`. */
    method FindPool(ptr: Address) returns (found: bool, r: Range)
      requires Valid()
      ensures found <==> exists r' :: r' in pools && r'.Contains(ptr)
      ensures found ==> r in pools && r.Contains(ptr)
      ensures found ==> forall r' :: r' in pools && r'.Contains(ptr) ==> r' == r
    {
      var rest := pools.Keys;
      while rest != {}
        invariant rest <= pools.Keys
        invariant forall r' :: r' in pools && r' !in rest ==> !r'.Contains(ptr)
        decreases |rest|
      {
        var k :| k in rest;
        if k.Contains(ptr) {
          forall r' | r' in pools && r'.Contains(ptr)
            ensures r' == k
          {
            if r' != k {
              DisjointRangesOwnApart(r', k, ptr);
            }
          }
          return true, k;
        }
        rest := rest - {k};
      }
      return false, Range(Null, Null);
    }

    /** The pool alloc() asks first: the lowest-addressed pool that can
        serve `size`, if any. */
    method FirstServing(size: nat) returns (found: bool, r: Range)
      requires Valid()
      ensures found ==> r in pools && pools[r].CanServe(size)
      ensures found ==> NoneLower(pools, r, size)
      ensures !found ==> forall r' :: r' in pools ==> !pools[r'].CanServe(size)
    {
      var rest := pools.Keys;
      while rest != {}
        invariant rest <= pools.Keys
        invariant forall k :: k in pools && k !in rest ==> !pools[k].CanServe(size)
        invariant forall k, k' :: k in pools && k !in rest && k' in rest ==> k.start <= k'.start
        decreases |rest|
      {
        ghost var lowest := LowestStart(rest);
        var k :| k in rest && forall k' :: k' in rest ==> k.start <= k'.start;
        if pools[k].CanServe(size) {
          return true, k;
        }
        rest := rest - {k};
      }
      return false, Range(Null, Null);
    }

    /** Allocates from pool r, which can serve `size`; no other pool
        changes. */
    method AllocFrom(r: Range, size: nat) returns (q: Address)
      requires Valid() && r in pools && pools[r].CanServe(size)
      modifies this
      ensures Valid()
      ensures q != Null && r.Contains(q) && q !in old(Live()) && Live() == old(Live()) + {q}
      ensures pools == old(pools)[r := old(pools)[r].Alloc(size).0]
    {
      var (b, p) := pools[r].Alloc(size);
      UsedInSpan(b, p);
      NotLiveElsewhere(pools, objectSize, slots, blockSize, r, p);
      LiveUpdate(pools, objectSize, slots, blockSize, r, b);
      pools := pools[r := b];
      q := p;
    }

    /** Registers an empty pool over the new block at `newBlock`. */
    method AddPool(newBlock: Address) returns (key: Range)
      requires Valid() && newBlock != Null
      requires forall r :: r in pools ==> r.DisjointFrom(KeyFor(newBlock))
      modifies this
      ensures Valid() && Live() == old(Live())
      ensures key == KeyFor(newBlock) && key !in old(pools)
      ensures pools == old(pools)[key := NewBlockPool(newBlock, objectSize, slots)]
    {
      key := KeyFor(newBlock);
      var b := NewBlockPool(newBlock, objectSize, slots);
      assert !key.DisjointFrom(key);
      LiveAdd(pools, key, b);
      pools := pools[key := b];
    }

    /**
     * alloc(): NULL for a size of zero or above one block.  Otherwise the
     * pools are tried from the lowest address up, and the first that can
     * serve does; when none can, a pool over a new block at `newBlock` is
     * added and asked.  A size no slot holds therefore leaves a new, empty
     * pool behind.
     */
    method Alloc(size: nat, newBlock: Address) returns (p: Address)
      requires Valid()
      requires newBlock != Null ==> forall r :: r in pools ==> r.DisjointFrom(KeyFor(newBlock))
      modifies this
      ensures Valid()
      ensures p == Null ==> Live() == old(Live())
      ensures p != Null ==> 0 < size <= objectSize && p !in old(Live()) && Live() == old(Live()) + {p}
      ensures p != Null ==>
                exists r :: r in pools && r.Contains(p) && pools == old(pools)[r := pools[r]] && NoneLower(old(pools), r, size)
      ensures p == Null ==> forall r :: r in old(pools) ==> r in pools && pools[r] == old(pools)[r]
      ensures pools.Keys <= old(pools).Keys + {KeyFor(newBlock)}
      ensures newBlock == Null ==> pools.Keys == old(pools).Keys
      ensures size == 0 || size > blockSize ==> p == Null && pools == old(pools)
      ensures (exists r :: r in old(pools) && old(pools)[r].CanServe(size)) ==> p != Null && pools.Keys == old(pools).Keys
      ensures 0 < size <= objectSize && newBlock != Null ==> p != Null
      ensures objectSize < size <= blockSize && newBlock != Null ==>
                p == Null && pools == old(pools)[KeyFor(newBlock) := NewBlockPool(newBlock, objectSize, slots)]
    {
      if size == 0 || size > blockSize {
        return Null;
      }
      var found, r := FirstServing(size);
      if found {
        p := AllocFrom(r, size);
        assert r in pools && r.Contains(p) && pools == old(pools)[r := pools[r]];
        return;
      }
      if newBlock == Null {
        return Null;
      }
      var key := AddPool(newBlock);
      if pools[key].CanServe(size) {
        p := AllocFrom(key, size);
        assert key in pools && key.Contains(p) && pools == old(pools)[key := pools[key]];
      } else {
        p := Null;
      }
    }

    /** free(): a no-op for NULL; otherwise the pointer's pool frees it and
        is dropped once it holds nothing.  `ok` is false for a pointer no
        pool holds, and nothing changes. */
    method Free(ptr: Address) returns (ok: bool)
      requires Valid()
      modifies this
      ensures Valid()
      ensures ok <==> ptr == Null || ptr in old(Live())
      ensures Live() == old(Live()) - {ptr}
      ensures !ok || ptr == Null ==> pools == old(pools)
      ensures pools.Keys <= old(pools).Keys
      ensures forall r :: r in old(pools) && !r.Contains(ptr) ==> r in pools && pools[r] == old(pools)[r]
      ensures ok && ptr != Null ==> forall r :: r in old(pools) && r.Contains(ptr) ==>
                (r in pools <==> old(pools)[r].Free(ptr).InUse()) &&
                (r in pools ==> pools[r] == old(pools)[r].Free(ptr))
    {
      if ptr == Null {
        if ptr in Live() {
          var r' :| r' in pools && ptr in pools[r'].used;
          UsedInKey(pools, objectSize, slots, blockSize, r', ptr);
        }
        return true;
      }
      var found, r := FindPool(ptr);
      if ptr in Live() {
        var r' :| r' in pools && ptr in pools[r'].used;
        UsedInKey(pools, objectSize, slots, blockSize, r', ptr);
      }
      if !found || ptr !in pools[r].used {
        if found {
          NotLiveElsewhere(pools, objectSize, slots, blockSize, r, ptr);
        }
        return false;
      }
      var b := pools[r].Free(ptr);
      LiveUpdate(pools, objectSize, slots, blockSize, r, b);
      if b.InUse() {
        pools := pools[r := b];
      } else {
        LiveDrop(pools[r := b], r);
        assert pools[r := b] - {r} == pools - {r};
        pools := pools - {r};
      }
      return true;
    }

    /**
     * realloc(): the pointer's pool first resizes in place, which it does
     * for any non-zero size that fits a slot.  Failing that, the block moves
     * to what alloc() hands out elsewhere; but alloc() serves only sizes a
     * slot holds, so the move never succeeds, and for a size above a slot
     * but within one block it leaves a new, empty pool behind.  A block
     * therefore never moves: the result is the pointer itself or NULL.
     */
    method Realloc(ptr: Address, newSize: nat, newBlock: Address) returns (ok: bool, p: Address)
      requires Valid()
      requires newBlock != Null ==> forall r :: r in pools ==> r.DisjointFrom(KeyFor(newBlock))
      modifies this
      ensures Valid() && Live() == old(Live())
      ensures ok <==> ptr in old(Live())
      ensures p != Null <==> ok && 0 < newSize <= objectSize
      ensures p != Null ==> p == ptr
      ensures ok && objectSize < newSize <= blockSize && newBlock != Null ==>
                pools == old(pools)[KeyFor(newBlock) := NewBlockPool(newBlock, objectSize, slots)]
      ensures !(ok && objectSize < newSize <= blockSize && newBlock != Null) ==> pools == old(pools)
    {
      var found, r := FindPool(ptr);
      if ptr in Live() {
        var r' :| r' in pools && ptr in pools[r'].used;
        UsedInKey(pools, objectSize, slots, blockSize, r', ptr);
      }
      if !found || ptr !in pools[r].used {
        if found {
          NotLiveElsewhere(pools, objectSize, slots, blockSize, r, ptr);
        }
        return false, Null;
      }
      ok := true;
      p := pools[r].Realloc(ptr, newSize);
      if p == Null {
        // the move: alloc(new_size) elsewhere, refused for any size the
        // slot did not hold
        p := Alloc(newSize, newBlock);
        if newBlock == Null {
          assert pools == old(pools);
        }
      }
    }

    /** in_use(): some pool holds an allocation. */
    method InUse() returns (busy: bool)
      requires Valid()
      ensures busy <==> Live() != {}
    {
      var rest := pools.Keys;
      while rest != {}
        invariant rest <= pools.Keys
        invariant forall r :: r in pools && r !in rest ==> pools[r].used == {}
        decreases |rest|
      {
        var k :| k in rest;
        if pools[k].InUse() {
          var p :| p in pools[k].used;
          assert p in Live();
          return true;
        }
        rest := rest - {k};
      }
      return false;
    }

    /** alloc_size(): the slot size for a live pointer, zero otherwise. */
    method AllocSize(ptr: Address) returns (n: nat)
      requires Valid()
      ensures ptr in Live() ==> n == objectSize
      ensures ptr !in Live() ==> n == 0
    {
      var found, r := FindPool(ptr);
      if ptr in Live() {
        var r' :| r' in pools && ptr in pools[r'].used;
        UsedInKey(pools, objectSize, slots, blockSize, r', ptr);
      }
      if !found {
        return 0;
      }
      if ptr !in pools[r].used {
        NotLiveElsewhere(pools, objectSize, slots, blockSize, r, ptr);
      }
      n := pools[r].AllocSize(ptr);
    }
  }
}
