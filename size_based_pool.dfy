/**
 * size_based_pool: one dynamic_pool of block_pool per size class, the
 * classes doubling from a minimum to a maximum object size; larger requests
 * go to the heap.  A map from pointer to owner sends free and realloc to the
 * pool that handed the pointer out.
 *
 * What the heap returns and where new backing blocks are placed are
 * parameters, as for the pools below.
 */
module SizeBasedPools {
  import opened MemoryPool
  import opened BlockPools
  import opened DynamicPools

  /* ---------- size classes ---------- */

  /** The size classes from c on: c, 2c, 4c, ... while at most `max`. */
  function Classes(c: nat, max: nat): (cs: set<nat>)
    requires c > 0
    ensures forall k :: k in cs ==> c <= k <= max
    ensures c in cs <==> c <= max
    decreases max + 1 - c
  {
    if c > max then {} else {c} + Classes(2 * c, max)
  }

  /** pool_size(): the smallest class from c on that holds `size`, or 0
      when `size` is above them all. */
  function PoolSize(size: nat, c: nat, max: nat): (r: nat)
    requires c > 0
    ensures r != 0 ==> r in Classes(c, max) && size <= r
    ensures r != 0 ==> forall k :: k in Classes(c, max) && size <= k ==> r <= k
    ensures r == 0 <==> forall k :: k in Classes(c, max) ==> k < size
    decreases max + 1 - c
  {
    if c > max then 0
    else if size <= c then c
    else PoolSize(size, 2 * c, max)
  }

  /** Every class but the first is twice a class, and twice a class is a
      class while it is at most `max`. */
  lemma {:induction false} ClassesDouble(c: nat, max: nat, k: nat)
    requires c > 0 && k in Classes(c, max)
    ensures k != c ==> k % 2 == 0 && k / 2 in Classes(c, max)
    ensures 2 * k <= max ==> 2 * k in Classes(c, max)
    decreases max + 1 - c
  {
    if k != c {
      ClassesDouble(2 * c, max, k);
    } else if 2 * k <= max {
      assert 2 * k in Classes(2 * c, max);
    }
  }

  /** With the default bounds the classes are the powers of two up to 256. */
  lemma DefaultClasses()
    ensures Classes(1, 256) == {1, 2, 4, 8, 16, 32, 64, 128, 256}
  {
  }

  /** Objects of size 5 come from the pool for 8; objects of size 8 too. */
  lemma DefaultRounding()
    ensures PoolSize(5, 1, 256) == 8 && PoolSize(8, 1, 256) == 8
    ensures PoolSize(256, 1, 256) == 256 && PoolSize(257, 1, 256) == 0
  {
  }

  lemma MulMono(a: nat, b: nat, k: nat)
    requires a <= b
    ensures a * k <= b * k
  {
  }

  /* ---------- the pools ---------- */

  /** virtual_pool<N>: forwards every call to its dynamic_pool of
      block_pool<N>. */
  class VirtualPool {
    const pool: DynamicPool

    constructor (objectSize: nat, blockSize: nat, slots: nat)
      requires 0 < objectSize && 0 < slots && Times(slots, objectSize) <= blockSize
      ensures fresh(pool) && pool.Valid() && pool.pools == map[]
      ensures pool.objectSize == objectSize && pool.blockSize == blockSize && pool.slots == slots
    {
      pool := new DynamicPool(objectSize, blockSize, slots);
    }

    method Alloc(size: nat, newBlock: Address) returns (p: Address)
      requires pool.Valid()
      requires newBlock != Null ==> forall r :: r in pool.pools ==> r.DisjointFrom(pool.KeyFor(newBlock))
      modifies pool
      ensures pool.Valid()
      ensures p == Null ==> pool.Live() == old(pool.Live())
      ensures p != Null ==> 0 < size <= pool.objectSize && p !in old(pool.Live()) && pool.Live() == old(pool.Live()) + {p}
      ensures p != Null ==>
                exists r :: r in pool.pools && r.Contains(p) && pool.pools == old(pool.pools)[r := pool.pools[r]] &&
                  NoneLower(old(pool.pools), r, size)
      ensures p == Null ==> forall r :: r in old(pool.pools) ==> r in pool.pools && pool.pools[r] == old(pool.pools)[r]
      ensures pool.pools.Keys <= old(pool.pools).Keys + {pool.KeyFor(newBlock)}
      ensures newBlock == Null ==> pool.pools.Keys == old(pool.pools).Keys
      ensures size == 0 || size > pool.blockSize ==> p == Null && pool.pools == old(pool.pools)
      ensures (exists r :: r in old(pool.pools) && old(pool.pools)[r].CanServe(size)) ==>
                p != Null && pool.pools.Keys == old(pool.pools).Keys
      ensures 0 < size <= pool.objectSize && newBlock != Null ==> p != Null
      ensures pool.objectSize < size <= pool.blockSize && newBlock != Null ==>
                p == Null && pool.pools == old(pool.pools)[pool.KeyFor(newBlock) := NewBlockPool(newBlock, pool.objectSize, pool.slots)]
    {
      p := pool.Alloc(size, newBlock);
    }

    method Realloc(ptr: Address, newSize: nat, newBlock: Address) returns (ok: bool, p: Address)
      requires pool.Valid()
      requires newBlock != Null ==> forall r :: r in pool.pools ==> r.DisjointFrom(pool.KeyFor(newBlock))
      modifies pool
      ensures pool.Valid() && pool.Live() == old(pool.Live())
      ensures ok <==> ptr in old(pool.Live())
      ensures p != Null <==> ok && 0 < newSize <= pool.objectSize
      ensures p != Null ==> p == ptr
      ensures ok && pool.objectSize < newSize <= pool.blockSize && newBlock != Null ==>
                pool.pools == old(pool.pools)[pool.KeyFor(newBlock) := NewBlockPool(newBlock, pool.objectSize, pool.slots)]
      ensures !(ok && pool.objectSize < newSize <= pool.blockSize && newBlock != Null) ==> pool.pools == old(pool.pools)
    {
      ok, p := pool.Realloc(ptr, newSize, newBlock);
    }

    method Free(ptr: Address) returns (ok: bool)
      requires pool.Valid()
      modifies pool
      ensures pool.Valid()
      ensures ok <==> ptr == Null || ptr in old(pool.Live())
      ensures pool.Live() == old(pool.Live()) - {ptr}
      ensures !ok || ptr == Null ==> pool.pools == old(pool.pools)
      ensures pool.pools.Keys <= old(pool.pools).Keys
      ensures forall r :: r in old(pool.pools) && !r.Contains(ptr) ==> r in pool.pools && pool.pools[r] == old(pool.pools)[r]
      ensures ok && ptr != Null ==> forall r :: r in old(pool.pools) && r.Contains(ptr) ==>
                (r in pool.pools <==> old(pool.pools)[r].Free(ptr).InUse()) &&
                (r in pool.pools ==> pool.pools[r] == old(pool.pools)[r].Free(ptr))
    {
      ok := pool.Free(ptr);
    }

    method InUse() returns (busy: bool)
      requires pool.Valid()
      ensures busy <==> pool.Live() != {}
    {
      busy := pool.InUse();
    }

    method AllocSize(ptr: Address) returns (n: nat)
      requires pool.Valid()
      ensures ptr in pool.Live() ==> n == pool.objectSize
      ensures ptr !in pool.Live() ==> n == 0
    {
      n := pool.AllocSize(ptr);
    }
  }

  /** Who handed a pointer out: the heap, or the pool of one size class. */
  datatype Owner = Heap | Class(size: nat)

  /** The bytes in a backing block of class c: `perPool` objects. */
  function BlockOf(c: nat, perPool: nat): nat
  {
    Times(c, perPool)
  }

  /** The pool of class c holds objects of c bytes in blocks of `perPool`
      objects, `slots` of them to a block. */
  predicate ClassSized(pool: DynamicPool, c: nat, perPool: nat, slots: nat)
  {
    pool.objectSize == c && pool.blockSize == BlockOf(c, perPool) && pool.slots == slots &&
    0 < c <= BlockOf(c, perPool) && 0 < slots && Times(slots, c) <= BlockOf(c, perPool)
  }

  /** There is a pool for each class and no other, each configured for its
      class, and no two classes share one. */
  ghost predicate ClassesKeyed(classes: map<nat, VirtualPool>, minSize: nat, maxSize: nat, perPool: nat, slots: nat)
    requires minSize > 0
  {
    (forall k {:trigger k in Classes(minSize, maxSize)} :: k in Classes(minSize, maxSize) <==> k in classes) &&
    (forall c :: c in classes ==> ClassSized(classes[c].pool, c, perPool, slots))
  }

  /** Each class's backing pools are well formed for its class. */
  ghost predicate PoolsValid(pm: map<nat, map<Range, BlockPool>>, perPool: nat, slots: nat)
  {
    forall c {:trigger ClassPools(pm[c], c, perPool, slots)} :: c in pm ==> ClassPools(pm[c], c, perPool, slots)
  }

  /** The backing pools of class c are well formed. */
  ghost predicate ClassPools(ps: map<Range, BlockPool>, c: nat, perPool: nat, slots: nat)
  {
    Keyed(ps, c, slots, BlockOf(c, perPool)) && Apart(ps)
  }

  /** Backing blocks of different classes never overlap. */
  ghost predicate ClassesApart(pm: map<nat, map<Range, BlockPool>>)
  {
    forall c, c', r, r' :: c in pm && c' in pm && c != c' && r in pm[c] && r' in pm[c'] ==> r.DisjointFrom(r')
  }

  /** No backing block holds p. */
  ghost predicate OutsideAll(pm: map<nat, map<Range, BlockPool>>, p: Address)
  {
    forall c, r :: c in pm && r in pm[c] ==> !r.Contains(p)
  }

  /** No backing block meets range `area`. */
  ghost predicate ApartFromAll(pm: map<nat, map<Range, BlockPool>>, area: Range)
  {
    forall c, r :: c in pm && r in pm[c] ==> r.DisjointFrom(area)
  }

  /** No heap block lies in a backing block. */
  ghost predicate HeapOutside(pm: map<nat, map<Range, BlockPool>>, heapLive: map<Address, nat>)
  {
    forall p :: p in heapLive ==> OutsideAll(pm, p)
  }

  /** The pointers each class's pools have handed out. */
  function LivesOf(pm: map<nat, map<Range, BlockPool>>): map<nat, set<Address>>
  {
    map c | c in pm :: LiveOf(pm[c])
  }

  /** The owner map records exactly the live pointers, each with the
      allocator that holds it. */
  ghost predicate OwnedBy(lives: map<nat, set<Address>>, owners: map<Address, Owner>, heapLive: map<Address, nat>)
  {
    (forall p :: p in heapLive <==> p in owners && owners[p] == Heap) &&
    (forall p :: p in owners && owners[p].Class? ==> owners[p].size in lives && p in lives[owners[p].size]) &&
    (forall c, p :: c in lives && p in lives[c] ==> p in owners && owners[p] == Class(c))
  }

  /** What size_based_pool keeps true of its pools, its heap and its owner
      map. */
  ghost predicate Inv(pm: map<nat, map<Range, BlockPool>>, owners: map<Address, Owner>, heapLive: map<Address, nat>, perPool: nat, slots: nat)
  {
    PoolsValid(pm, perPool, slots) && ClassesApart(pm) && HeapOutside(pm, heapLive) && OwnedBy(LivesOf(pm), owners, heapLive)
  }

  /** A pointer outside every backing block no class pool holds. */
  lemma NotInClasses(pm: map<nat, map<Range, BlockPool>>, perPool: nat, slots: nat, p: Address)
    requires PoolsValid(pm, perPool, slots) && OutsideAll(pm, p)
    ensures forall c :: c in pm ==> p !in LiveOf(pm[c])
  {
    forall c | c in pm
      ensures p !in LiveOf(pm[c])
    {
      assert ClassPools(pm[c], c, perPool, slots);
      OutsideNotLive(pm[c], c, slots, BlockOf(c, perPool), p);
    }
  }

  /** A heap block outside every backing block joins the owner map as the
      heap's. */
  lemma HeapAdded(pm: map<nat, map<Range, BlockPool>>, owners: map<Address, Owner>, heapLive: map<Address, nat>, perPool: nat, slots: nat, p: Address, n: nat)
    requires Inv(pm, owners, heapLive, perPool, slots)
    requires p !in heapLive && OutsideAll(pm, p)
    ensures p !in owners
    ensures Inv(pm, owners[p := Heap], heapLive[p := n], perPool, slots)
  {
    NotInClasses(pm, perPool, slots, p);
    OwnedHeapAdded(LivesOf(pm), owners, heapLive, p, n);
  }

  lemma OwnedHeapAdded(lives: map<nat, set<Address>>, owners: map<Address, Owner>, heapLive: map<Address, nat>, p: Address, n: nat)
    requires OwnedBy(lives, owners, heapLive)
    requires p !in heapLive && forall c :: c in lives ==> p !in lives[c]
    ensures p !in owners && OwnedBy(lives, owners[p := Heap], heapLive[p := n])
  {
  }

  /** A heap block given back leaves the owner map. */
  lemma HeapDropped(pm: map<nat, map<Range, BlockPool>>, owners: map<Address, Owner>, heapLive: map<Address, nat>, perPool: nat, slots: nat, p: Address)
    requires Inv(pm, owners, heapLive, perPool, slots)
    requires p in owners && owners[p] == Heap
    ensures p in heapLive
    ensures Inv(pm, owners - {p}, heapLive - {p}, perPool, slots)
  {
    OwnedHeapDropped(LivesOf(pm), owners, heapLive, p);
  }

  lemma OwnedHeapDropped(lives: map<nat, set<Address>>, owners: map<Address, Owner>, heapLive: map<Address, nat>, p: Address)
    requires OwnedBy(lives, owners, heapLive) && p in owners && owners[p] == Heap
    ensures p in heapLive && OwnedBy(lives, owners - {p}, heapLive - {p})
  {
  }

  lemma OwnedClassChanged(lives: map<nat, set<Address>>, owners: map<Address, Owner>, heapLive: map<Address, nat>, c: nat, live: set<Address>, p: Address)
    requires OwnedBy(lives, owners, heapLive) && c in lives
    requires p == Null ==> live == lives[c]
    requires p != Null ==> p !in heapLive && (forall c' :: c' in lives ==> p !in lives[c']) && live == lives[c] + {p}
    ensures p != Null ==> p !in owners
    ensures OwnedBy(lives[c := live], if p == Null then owners else owners[p := Class(c)], heapLive)
  {
  }

  lemma OwnedClassDropped(lives: map<nat, set<Address>>, owners: map<Address, Owner>, heapLive: map<Address, nat>, c: nat, live: set<Address>, p: Address)
    requires OwnedBy(lives, owners, heapLive) && p in owners && owners[p] == Class(c)
    requires c in lives && live == lives[c] - {p}
    ensures OwnedBy(lives[c := live], owners - {p}, heapLive)
  {
  }

  /** Class c keeping some of its blocks and gaining at most `area`, which
      meets no other block and no heap block, keeps blocks apart and heap
      blocks outside. */
  lemma KeysChanged(pm: map<nat, map<Range, BlockPool>>, heapLive: map<Address, nat>, c: nat, area: Range, ps: map<Range, BlockPool>)
    requires ClassesApart(pm) && HeapOutside(pm, heapLive) && c in pm
    requires ps.Keys <= pm[c].Keys || (ps.Keys <= pm[c].Keys + {area} && ApartFromAll(pm, area) && forall q :: q in heapLive ==> !area.Contains(q))
    ensures ClassesApart(pm[c := ps]) && HeapOutside(pm[c := ps], heapLive)
  {
    var pm' := pm[c := ps];
    forall c1: nat, c2: nat, r1: Range, r2: Range | c1 in pm' && c2 in pm' && c1 != c2 && r1 in pm'[c1] && r2 in pm'[c2]
      ensures r1.DisjointFrom(r2)
    {
      if c1 == c && r1 !in pm[c] {
        assert r2 in pm[c2] && r2.DisjointFrom(area);
      } else if c2 == c && r2 !in pm[c] {
        assert r1 in pm[c1] && r1.DisjointFrom(area);
      } else {
        assert r1 in pm[c1] && r2 in pm[c2];
      }
    }
    forall q: Address, c1: nat, r: Range | q in heapLive && c1 in pm' && r in pm'[c1]
      ensures !r.Contains(q)
    {
      assert OutsideAll(pm, q);
      if c1 == c && r !in pm[c] {
        assert r == area;
      }
    }
  }

  /** A pointer in a block of class c, which is old or is `area`, is held
      by no other class and not by the heap. */
  lemma HeldByNoOther(pm: map<nat, map<Range, BlockPool>>, heapLive: map<Address, nat>, perPool: nat, slots: nat,
                      c: nat, area: Range, r: Range, p: Address)
    requires PoolsValid(pm, perPool, slots) && ClassesApart(pm) && HeapOutside(pm, heapLive) && c in pm
    requires r in pm[c] || (r == area && ApartFromAll(pm, area) && forall q :: q in heapLive ==> !area.Contains(q))
    requires r.Contains(p)
    ensures p !in heapLive && forall c' :: c' in pm && c' != c ==> p !in LiveOf(pm[c'])
  {
    forall c' | c' in pm && c' != c
      ensures p !in LiveOf(pm[c'])
    {
      forall r' | r' in pm[c']
        ensures !r'.Contains(p)
      {
        if r !in pm[c] {
          assert r'.DisjointFrom(area);
        }
        DisjointRangesOwnApart(r, r', p);
      }
      assert ClassPools(pm[c'], c', perPool, slots);
      OutsideNotLive(pm[c'], c', slots, BlockOf(c', perPool), p);
    }
    assert p in heapLive ==> OutsideAll(pm, p);
  }

  /** Replacing one class's pools replaces just that class's live set. */
  lemma LivesOfUpdate(pm: map<nat, map<Range, BlockPool>>, c: nat, ps: map<Range, BlockPool>)
    requires c in pm
    ensures LivesOf(pm[c := ps]) == LivesOf(pm)[c := LiveOf(ps)]
  {
  }

  /** Replacing one class's pools with well-formed ones keeps every class's
      pools well formed. */
  lemma PoolsReplaced(pm: map<nat, map<Range, BlockPool>>, perPool: nat, slots: nat, c: nat, ps: map<Range, BlockPool>)
    requires PoolsValid(pm, perPool, slots) && Keyed(ps, c, slots, BlockOf(c, perPool)) && Apart(ps)
    ensures PoolsValid(pm[c := ps], perPool, slots)
  {
  }

  /** Class c's pools become `ps`, holding at most one new block `area`
      that meets no other block and no heap block, and possibly one more
      pointer p that the class hands out: the invariant carries over with
      p recorded as c's. */
  lemma ClassAllocated(pm: map<nat, map<Range, BlockPool>>, owners: map<Address, Owner>, heapLive: map<Address, nat>, perPool: nat, slots: nat,
                       c: nat, area: Range, ps: map<Range, BlockPool>, p: Address)
    requires Inv(pm, owners, heapLive, perPool, slots) && c in pm
    requires Keyed(ps, c, slots, BlockOf(c, perPool)) && Apart(ps)
    requires ps.Keys <= pm[c].Keys || (ps.Keys <= pm[c].Keys + {area} && ApartFromAll(pm, area) && forall q :: q in heapLive ==> !area.Contains(q))
    requires p == Null ==> LiveOf(ps) == LiveOf(pm[c])
    requires p != Null ==> p !in LiveOf(pm[c]) && LiveOf(ps) == LiveOf(pm[c]) + {p}
    ensures p != Null ==> p !in owners
    ensures Inv(pm[c := ps], if p == Null then owners else owners[p := Class(c)], heapLive, perPool, slots)
  {
    PoolsReplaced(pm, perPool, slots, c, ps);
    KeysChanged(pm, heapLive, c, area, ps);
    if p != Null {
      LiveInKey(ps, c, slots, BlockOf(c, perPool), p);
      var r :| r in ps && r.Contains(p);
      HeldByNoOther(pm, heapLive, perPool, slots, c, area, r, p);
    }
    LivesOfUpdate(pm, c, ps);
    OwnedClassChanged(LivesOf(pm), owners, heapLive, c, LiveOf(ps), p);
  }

  /** Class c gives back p, which it holds, and keeps a subset of its
      blocks: the invariant carries over without p. */
  lemma ClassFreed(pm: map<nat, map<Range, BlockPool>>, owners: map<Address, Owner>, heapLive: map<Address, nat>, perPool: nat, slots: nat,
                   c: nat, ps: map<Range, BlockPool>, p: Address)
    requires Keyed(ps, c, slots, BlockOf(c, perPool)) && Apart(ps)
    requires c in pm && ps.Keys <= pm[c].Keys && LiveOf(ps) == LiveOf(pm[c]) - {p}
    requires p in owners && owners[p] == Class(c)
    requires Inv(pm, owners, heapLive, perPool, slots)
    ensures Inv(pm[c := ps], owners - {p}, heapLive, perPool, slots)
  {
    PoolsReplaced(pm, perPool, slots, c, ps);
    KeysChanged(pm, heapLive, c, Range(0, 0), ps);
    LivesOfUpdate(pm, c, ps);
    OwnedClassDropped(LivesOf(pm), owners, heapLive, c, LiveOf(ps), p);
  }

  /** With every class's pools empty and nothing handed out, the invariant
      holds. */
  lemma EmptyInv(pm: map<nat, map<Range, BlockPool>>, perPool: nat, slots: nat)
    requires forall c :: c in pm ==> pm[c] == map[]
    ensures Inv(pm, map[], map[], perPool, slots)
  {
    forall c | c in pm
      ensures LiveOf(pm[c]) == {}
    {
    }
  }

  /** Some class holds a live pointer exactly when the owner map records a
      pointer as some class's. */
  lemma ClassesBusy(lives: map<nat, set<Address>>, owners: map<Address, Owner>, heapLive: map<Address, nat>)
    requires OwnedBy(lives, owners, heapLive)
    ensures (exists c :: c in lives && lives[c] != {}) <==> exists p :: p in owners && owners[p].Class?
  {
    if exists c :: c in lives && lives[c] != {} {
      var c :| c in lives && lives[c] != {};
      var p :| p in lives[c];
      assert p in owners && owners[p].Class?;
    }
    if exists p :: p in owners && owners[p].Class? {
      var p :| p in owners && owners[p].Class?;
      assert p in lives[owners[p].size];
    }
  }

  /** The pools of size_based_pool(), built class by class from the
      smallest up, with their (empty) backing blocks and the objects made. */
  method NewClasses(minSize: nat, maxSize: nat, perPool: nat, slots: nat)
    returns (classes: map<nat, VirtualPool>, ghost pm: map<nat, map<Range, BlockPool>>, ghost made: set<object>)
    requires 0 < minSize && 0 < slots <= perPool
    ensures ClassesKeyed(classes, minSize, maxSize, perPool, slots)
    ensures fresh(made) && pm.Keys == classes.Keys
    ensures forall c :: c in classes ==> classes[c].pool in made && classes[c].pool.pools == map[] && pm[c] == map[]
    ensures Inv(pm, map[], map[], perPool, slots)
  {
    classes, pm, made := map[], map[], {};
    var c := minSize;
    while c <= maxSize
      invariant 0 < c && Classes(minSize, maxSize) == classes.Keys + Classes(c, maxSize)
      invariant forall k :: k in classes ==> k < c
      invariant forall k :: k in classes ==> ClassSized(classes[k].pool, k, perPool, slots)
      invariant fresh(made) && pm.Keys == classes.Keys
      invariant forall k :: k in classes ==> classes[k].pool in made && classes[k].pool.pools == map[] && pm[k] == map[]
      decreases maxSize + 1 - c
    {
      MulMono(slots, perPool, c);
      MulMono(1, perPool, c);
      TimesIsProduct(slots, c);
      TimesIsProduct(c, perPool);
      var vp := new VirtualPool(c, BlockOf(c, perPool), slots);
      classes, pm, made := classes[c := vp], pm[c := map[]], made + {vp.pool};
      c := 2 * c;
    }
    EmptyInv(pm, perPool, slots);
  }

  /** The classes are configured, the recorded backing blocks are those of
      the classes, and the invariant holds. */
  ghost predicate Sound(classes: map<nat, VirtualPool>, backing: map<nat, map<Range, BlockPool>>, owners: map<Address, Owner>,
                        heapLive: map<Address, nat>, minSize: nat, maxSize: nat, perPool: nat, slots: nat)
  {
    0 < minSize && 0 < slots <= perPool &&
    ClassesKeyed(classes, minSize, maxSize, perPool, slots) &&
    backing.Keys == classes.Keys && Null !in owners &&
    Inv(backing, owners, heapLive, perPool, slots)
  }

  /** size_based_pool: the pools of the size classes, the heap for larger
      requests, and the owner of every pointer handed out. */
  class SizeBasedPool {
    /** OBJECTS_PER_POOL, MIN_OBJECT_SIZE, MAX_OBJECT_SIZE. */
    const objectsPerPool: nat
    const minSize: nat
    const maxSize: nat
    /** The slots block_pool fits into a block of `objectsPerPool` objects. */
    const slotsPerPool: nat
    /** m_pool_map: the pool of each size class. */
    const classes: map<nat, VirtualPool>
    /** m_heap */
    const heap: HeapPool
    /** m_pointer_size_map: the owner of each pointer handed out. */
    var owners: map<Address, Owner>
    /** The backing blocks of each class's pool. */
    ghost var backing: map<nat, map<Range, BlockPool>>
    /** The objects the pool owns besides itself: the heap and the pool of
        every class. */
    ghost const Repr: set<object>

    ghost predicate Valid()
      reads this, Repr
    {
      heap in Repr && heap.Valid() &&
      Sound(classes, backing, owners, heap.live, minSize, maxSize, objectsPerPool, slotsPerPool) &&
      (forall c :: c in classes ==> classes[c].pool in Repr) &&
      (forall c :: c in classes ==> classes[c].pool.pools == backing[c])
    }

    /** Where a new backing block may go: no backing block and no heap
        block meets it. */
    ghost predicate Unused(area: Range)
      reads this, heap
    {
      ApartFromAll(backing, area) && forall p :: p in heap.live ==> !area.Contains(p)
    }

    /** Where the heap may place a block: inside no backing block. */
    ghost predicate OutsidePools(p: Address)
      reads this
    {
      OutsideAll(backing, p)
    }

    /** The bytes of a backing block for requests of `size`. */
    function BlockBytes(size: nat): nat
    {
      if minSize > 0 then BlockOf(PoolSize(size, minSize, maxSize), objectsPerPool) else 0
    }

    /** Class c's pool is ready for use. */
    lemma ClassReady(c: nat)
      requires Valid() && c in classes
      ensures c in backing && classes[c].pool.pools == backing[c]
      ensures classes[c].pool.Valid() && ClassSized(classes[c].pool, c, objectsPerPool, slotsPerPool)
    {
      assert ClassPools(backing[c], c, objectsPerPool, slotsPerPool);
    }

    /** size_based_pool(): the heap, and one empty pool for every size
        class. */
    constructor (objectsPerPool: nat, minSize: nat, maxSize: nat, slotsPerPool: nat)
      requires 0 < minSize && 0 < slotsPerPool <= objectsPerPool
      ensures Valid() && owners == map[] && heap.live == map[]
      ensures classes.Keys == Classes(minSize, maxSize)
      ensures forall c :: c in backing ==> backing[c] == map[]
      ensures this.objectsPerPool == objectsPerPool && this.minSize == minSize && this.maxSize == maxSize
      ensures this.slotsPerPool == slotsPerPool
    {
      this.objectsPerPool := objectsPerPool;
      this.minSize := minSize;
      this.maxSize := maxSize;
      this.slotsPerPool := slotsPerPool;
      heap := new HeapPool();
      var pools;
      ghost var pm, made;
      pools, pm, made := NewClasses(minSize, maxSize, objectsPerPool, slotsPerPool);
      classes := pools;
      backing := pm;
      owners := map[];
      Repr := {heap} + made;
    }

    /**
     * alloc(): above the largest size the heap serves the request (`granted`
     * is what it returns); otherwise the pool of the smallest class that
     * holds `size` does, placing a new backing block at `newBlock` if it
     * needs one.  The new pointer is recorded with its owner.
     */
    method Alloc(size: nat, granted: Address, newBlock: Address) returns (p: Address)
      requires Valid()
      requires size > maxSize && granted != Null ==> granted !in heap.live && OutsidePools(granted)
      requires size <= maxSize && newBlock != Null ==> Unused(Range(newBlock, newBlock + BlockBytes(size)))
      modifies this, Repr
      ensures Valid()
      ensures p == Null ==> owners == old(owners)
      ensures p != Null ==> p !in old(owners)
      ensures p != Null && size > maxSize ==> owners == old(owners)[p := Heap]
      ensures p != Null && size <= maxSize ==> owners == old(owners)[p := Class(PoolSize(size, minSize, maxSize))]
      ensures size == 0 ==> p == Null
      ensures size > maxSize ==> (p == Null <==> granted == Null) && (p != Null ==> p == granted)
      ensures size > maxSize ==> backing == old(backing)
      ensures 0 < size <= maxSize && PoolSize(size, minSize, maxSize) != 0 && newBlock != Null ==> p != Null
      ensures size <= maxSize && PoolSize(size, minSize, maxSize) == 0 ==> p == Null && backing == old(backing)
      ensures size > maxSize ==> heap.live == if p == Null then old(heap.live) else old(heap.live)[p := size]
      ensures size <= maxSize ==> heap.live == old(heap.live)
      ensures size <= maxSize && PoolSize(size, minSize, maxSize) != 0 ==>
                var c := PoolSize(size, minSize, maxSize);
                c in old(backing) && backing == old(backing)[c := backing[c]] &&
                LiveOf(backing[c]) == LiveOf(old(backing)[c]) + (if p == Null then {} else {p}) &&
                backing[c].Keys <= old(backing)[c].Keys + {Range(newBlock, newBlock + BlockBytes(size))}
    {
      if size > maxSize {
        AllocFromHeap(size, granted);
        return granted;
      }
      var c := PoolSize(size, minSize, maxSize);
      if c == 0 {
        return Null;
      }
      ghost var area := Range(newBlock, newBlock + BlockBytes(size));
      assert area == Range(newBlock, newBlock + BlockOf(c, objectsPerPool));
      p := AllocFromClass(c, size, newBlock);
    }

    /** The heap half of alloc(). */
    method AllocFromHeap(size: nat, granted: Address)
      requires Valid() && size > maxSize
      requires granted != Null ==> granted !in heap.live && OutsidePools(granted)
      modifies this, heap
      ensures Valid() && backing == old(backing)
      ensures granted == Null ==> owners == old(owners)
      ensures granted != Null ==> granted !in old(owners) && owners == old(owners)[granted := Heap]
      ensures heap.live == if granted == Null then old(heap.live) else old(heap.live)[granted := size]
    {
      if granted != Null {
        HeapAdded(backing, owners, heap.live, objectsPerPool, slotsPerPool, granted, size);
      }
      var p := heap.Alloc(size, granted);
      if p != Null {
        owners := owners[p := Heap];
      }
    }

    /** The size-class half of alloc(): class c's pool serves `size`. */
    method AllocFromClass(c: nat, size: nat, newBlock: Address) returns (p: Address)
      requires Valid() && c in classes
      requires newBlock != Null ==> Unused(Range(newBlock, newBlock + BlockOf(c, objectsPerPool)))
      modifies this, classes[c].pool
      ensures Valid()
      ensures p == Null ==> owners == old(owners)
      ensures p != Null ==> p !in old(owners) && owners == old(owners)[p := Class(c)]
      ensures size == 0 ==> p == Null
      ensures 0 < size <= c && newBlock != Null ==> p != Null
      ensures heap.live == old(heap.live)
      ensures c in old(backing) && backing == old(backing)[c := backing[c]]
      ensures LiveOf(backing[c]) == LiveOf(old(backing)[c]) + (if p == Null then {} else {p})
      ensures backing[c].Keys <= old(backing)[c].Keys + {Range(newBlock, newBlock + BlockOf(c, objectsPerPool))}
    {
      ClassReady(c);
      p := Serve(c, size, newBlock);
      Record(c, classes[c].pool.pools, if p == Null then owners else owners[p := Class(c)]);
    }

    /** Class c's pool serves `size`; the owner map and the recorded
        backing blocks are left for Record to bring up to date. */
    method Serve(c: nat, size: nat, newBlock: Address) returns (p: Address)
      requires Valid() && c in classes
      requires newBlock != Null ==> Unused(Range(newBlock, newBlock + BlockOf(c, objectsPerPool)))
      modifies classes[c].pool
      ensures unchanged(this, heap) && heap.Valid()
      ensures Sound(classes, backing[c := classes[c].pool.pools], if p == Null then owners else owners[p := Class(c)],
                    heap.live, minSize, maxSize, objectsPerPool, slotsPerPool)
      ensures forall k :: k in classes && k != c ==> classes[k].pool.pools == backing[k]
      ensures p != Null ==> p !in owners
      ensures size == 0 ==> p == Null
      ensures 0 < size <= c && newBlock != Null ==> p != Null
      ensures LiveOf(classes[c].pool.pools) == LiveOf(backing[c]) + (if p == Null then {} else {p})
      ensures classes[c].pool.pools.Keys <= backing[c].Keys + {Range(newBlock, newBlock + BlockOf(c, objectsPerPool))}
    {
      var vp := classes[c];
      ClassReady(c);
      ghost var area := Range(newBlock, newBlock + BlockOf(c, objectsPerPool));
      assert newBlock != Null ==> vp.pool.KeyFor(newBlock) == area;
      p := vp.Alloc(size, newBlock);
      forall k | k in classes && k != c
        ensures classes[k].pool.pools == backing[k]
      {
        assert classes[k].pool.objectSize != vp.pool.objectSize;
      }
      ClassAllocated(backing, owners, heap.live, objectsPerPool, slotsPerPool, c, area, vp.pool.pools, p);
    }

    /** Records that class c's backing pools are now `ps` and that the
        owner map is now `owned`. */
    method Record(c: nat, ghost ps: map<Range, BlockPool>, owned: map<Address, Owner>)
      requires c in classes && heap in Repr && heap.Valid()
      requires Sound(classes, backing[c := ps], owned, heap.live, minSize, maxSize, objectsPerPool, slotsPerPool)
      requires forall k :: k in classes ==> classes[k].pool in Repr
      requires classes[c].pool.pools == ps
      requires forall k :: k in classes && k != c ==> classes[k].pool.pools == backing[k]
      modifies this
      ensures Valid()
      ensures backing == old(backing)[c := ps] && owners == owned
    {
      backing := backing[c := ps];
      owners := owned;
    }

    /**
     * realloc(): the allocator recorded for ptr resizes it.  The heap may
     * move the block (`granted` is what it returns) and the record follows
     * it; a class pool resizes within its class or refuses, and a refused
     * size that fits one of its blocks leaves a new, empty backing block at
     * `newBlock` behind.  A pointer no pool handed out is refused (`ok` is
     * false) and nothing changes.
     */
    method Realloc(ptr: Address, newSize: nat, granted: Address, newBlock: Address) returns (ok: bool, p: Address)
      requires Valid()
      requires ptr in owners && owners[ptr] == Heap && granted != Null ==>
                 (granted !in heap.live || granted == ptr) && OutsidePools(granted)
      requires ptr in owners && owners[ptr].Class? && newBlock != Null ==>
                 Unused(Range(newBlock, newBlock + BlockOf(owners[ptr].size, objectsPerPool)))
      modifies this, Repr
      ensures Valid()
      ensures ok <==> ptr in old(owners)
      ensures !ok ==> p == Null && owners == old(owners) && heap.live == old(heap.live) && backing == old(backing)
      ensures ok && old(owners)[ptr] == Heap ==>
                (p == Null <==> newSize == 0 || granted == Null) && backing == old(backing) &&
                (p == Null ==> owners == old(owners) && heap.live == old(heap.live)) &&
                (p != Null ==> p == granted && owners == (old(owners) - {ptr})[p := Heap] &&
                               heap.live == (old(heap.live) - {ptr})[p := newSize])
      ensures ok && old(owners)[ptr].Class? ==>
                var c := old(owners)[ptr].size;
                (p != Null <==> 0 < newSize <= c) && (p != Null ==> p == ptr) &&
                owners == old(owners) && heap.live == old(heap.live) && c in old(backing) &&
                (c < newSize <= BlockOf(c, objectsPerPool) && newBlock != Null ==>
                   backing == old(backing)[c := old(backing)[c][Range(newBlock, newBlock + BlockOf(c, objectsPerPool)) :=
                                                                NewBlockPool(newBlock, c, slotsPerPool)]]) &&
                (!(c < newSize <= BlockOf(c, objectsPerPool) && newBlock != Null) ==> backing == old(backing))
    {
      if ptr !in owners {
        return false, Null;
      }
      ok := true;
      match owners[ptr] {
        case Heap =>
          p := ReallocFromHeap(ptr, newSize, granted);
        case Class(c) =>
          assert c in LivesOf(backing);
          p := ReallocInClass(c, ptr, newSize, newBlock);
      }
    }

    /** The heap half of realloc(). */
    method ReallocFromHeap(ptr: Address, newSize: nat, granted: Address) returns (p: Address)
      requires Valid() && ptr in owners && owners[ptr] == Heap
      requires granted != Null ==> (granted !in heap.live || granted == ptr) && OutsidePools(granted)
      modifies this, heap
      ensures Valid() && backing == old(backing)
      ensures p == Null <==> newSize == 0 || granted == Null
      ensures p == Null ==> owners == old(owners) && heap.live == old(heap.live)
      ensures p != Null ==> p == granted && owners == (old(owners) - {ptr})[p := Heap]
      ensures p != Null ==> heap.live == (old(heap.live) - {ptr})[p := newSize]
    {
      HeapDropped(backing, owners, heap.live, objectsPerPool, slotsPerPool, ptr);
      if newSize != 0 && granted != Null {
        HeapAdded(backing, owners - {ptr}, heap.live - {ptr}, objectsPerPool, slotsPerPool, granted, newSize);
      }
      p := heap.Realloc(ptr, newSize, granted);
      if p != Null {
        owners := (owners - {ptr})[p := Heap];
      }
    }

    /** The size-class half of realloc(): class c's pool resizes ptr in
        place or refuses; the owner map and the heap do not change. */
    method ReallocInClass(c: nat, ptr: Address, newSize: nat, newBlock: Address) returns (p: Address)
      requires Valid() && c in classes && ptr in owners && owners[ptr] == Class(c)
      requires newBlock != Null ==> Unused(Range(newBlock, newBlock + BlockOf(c, objectsPerPool)))
      modifies this, classes[c].pool
      ensures Valid() && owners == old(owners) && heap.live == old(heap.live)
      ensures p != Null <==> 0 < newSize <= c
      ensures p != Null ==> p == ptr
      ensures c in old(backing)
      ensures c < newSize <= BlockOf(c, objectsPerPool) && newBlock != Null ==>
                backing == old(backing)[c := old(backing)[c][Range(newBlock, newBlock + BlockOf(c, objectsPerPool)) :=
                                                             NewBlockPool(newBlock, c, slotsPerPool)]]
      ensures !(c < newSize <= BlockOf(c, objectsPerPool) && newBlock != Null) ==> backing == old(backing)
    {
      ClassReady(c);
      ghost var area := Range(newBlock, newBlock + BlockOf(c, objectsPerPool));
      ghost var grown := c < newSize <= BlockOf(c, objectsPerPool) && newBlock != Null;
      ghost var ps := if grown then backing[c][area := NewBlockPool(newBlock, c, slotsPerPool)] else backing[c];
      p := Resize(c, ptr, newSize, newBlock);
      assert classes[c].pool.pools == ps;
      Record(c, ps, owners);
    }

    /** Class c's pool resizes ptr in place or refuses; a refused size that
        fits a block adds an empty backing block at `newBlock`.  The
        recorded backing blocks are left for Record to bring up to date. */
    method Resize(c: nat, ptr: Address, newSize: nat, newBlock: Address) returns (p: Address)
      requires Valid() && c in classes && ptr in owners && owners[ptr] == Class(c)
      requires newBlock != Null ==> Unused(Range(newBlock, newBlock + BlockOf(c, objectsPerPool)))
      modifies classes[c].pool
      ensures unchanged(this, heap) && heap.Valid()
      ensures Sound(classes, backing[c := classes[c].pool.pools], owners, heap.live, minSize, maxSize, objectsPerPool, slotsPerPool)
      ensures forall k :: k in classes && k != c ==> classes[k].pool.pools == backing[k]
      ensures p != Null <==> 0 < newSize <= c
      ensures p != Null ==> p == ptr
      ensures c < newSize <= BlockOf(c, objectsPerPool) && newBlock != Null ==>
                classes[c].pool.pools == backing[c][Range(newBlock, newBlock + BlockOf(c, objectsPerPool)) :=
                                                    NewBlockPool(newBlock, c, slotsPerPool)]
      ensures !(c < newSize <= BlockOf(c, objectsPerPool) && newBlock != Null) ==> classes[c].pool.pools == backing[c]
    {
      var vp := classes[c];
      ClassReady(c);
      ghost var area := Range(newBlock, newBlock + BlockOf(c, objectsPerPool));
      assert newBlock != Null ==> vp.pool.KeyFor(newBlock) == area;
      var _, q := vp.Realloc(ptr, newSize, newBlock);
      p := q;
      forall k | k in classes && k != c
        ensures classes[k].pool.pools == backing[k]
      {
        assert classes[k].pool.objectSize != vp.pool.objectSize;
      }
      ClassAllocated(backing, owners, heap.live, objectsPerPool, slotsPerPool, c, area, vp.pool.pools, Null);
    }

    /**
     * free(): NULL is a no-op; a pointer no pool handed out is refused (`ok`
     * is false) and nothing changes; otherwise the allocator recorded for
     * the pointer takes it back and the record goes.
     */
    method Free(ptr: Address) returns (ok: bool)
      requires Valid()
      modifies this, Repr
      ensures Valid()
      ensures ok <==> ptr == Null || ptr in old(owners)
      ensures owners == old(owners) - {ptr}
      ensures ptr !in old(owners) ==> backing == old(backing) && heap.live == old(heap.live)
      ensures ptr in old(owners) && old(owners)[ptr] == Heap ==> backing == old(backing) && heap.live == old(heap.live) - {ptr}
      ensures ptr in old(owners) && old(owners)[ptr].Class? ==>
                var c := old(owners)[ptr].size;
                c in old(backing) && heap.live == old(heap.live) && backing == old(backing)[c := backing[c]] &&
                LiveOf(backing[c]) == LiveOf(old(backing)[c]) - {ptr}
    {
      if ptr !in owners {
        return ptr == Null;
      }
      match owners[ptr] {
        case Heap =>
          FreeFromHeap(ptr);
        case Class(c) =>
          assert c in LivesOf(backing);
          FreeFromClass(c, ptr);
      }
      ok := true;
    }

    /** The heap half of free(). */
    method FreeFromHeap(ptr: Address)
      requires Valid() && ptr in owners && owners[ptr] == Heap
      modifies this, heap
      ensures Valid() && backing == old(backing)
      ensures owners == old(owners) - {ptr} && heap.live == old(heap.live) - {ptr}
    {
      HeapDropped(backing, owners, heap.live, objectsPerPool, slotsPerPool, ptr);
      heap.Free(ptr);
      owners := owners - {ptr};
    }

    /** The size-class half of free(): class c's pool takes ptr back. */
    method FreeFromClass(c: nat, ptr: Address)
      requires Valid() && c in classes && ptr in owners && owners[ptr] == Class(c)
      modifies this, classes[c].pool
      ensures Valid() && heap.live == old(heap.live)
      ensures c in old(backing) && backing == old(backing)[c := backing[c]]
      ensures owners == old(owners) - {ptr} && LiveOf(backing[c]) == LiveOf(old(backing)[c]) - {ptr}
    {
      Release(c, ptr);
      Record(c, classes[c].pool.pools, owners - {ptr});
    }

    /** Class c's pool takes back ptr, which it handed out; the owner map
        and the recorded backing blocks are left for Record to bring up to
        date. */
    method Release(c: nat, ptr: Address)
      requires Valid() && c in classes && ptr in owners && owners[ptr] == Class(c)
      modifies classes[c].pool
      ensures unchanged(this, heap) && heap.Valid()
      ensures Sound(classes, backing[c := classes[c].pool.pools], owners - {ptr}, heap.live, minSize, maxSize, objectsPerPool, slotsPerPool)
      ensures forall k :: k in classes && k != c ==> classes[k].pool.pools == backing[k]
      ensures LiveOf(classes[c].pool.pools) == LiveOf(backing[c]) - {ptr}
    {
      var vp := classes[c];
      ClassReady(c);
      var _ := vp.Free(ptr);
      forall k | k in classes && k != c
        ensures classes[k].pool.pools == backing[k]
      {
        assert classes[k].pool.objectSize != vp.pool.objectSize;
      }
      ClassFreed(backing, owners, heap.live, objectsPerPool, slotsPerPool, c, vp.pool.pools, ptr);
    }

    /** Whether some class pool holds a live pointer: exactly when the owner
        map records a pointer of some class. */
    method ClassesInUse() returns (busy: bool)
      requires Valid()
      ensures busy <==> exists p :: p in owners && owners[p].Class?
    {
      ClassesBusy(LivesOf(backing), owners, heap.live);
      var rest := classes.Keys;
      busy := false;
      while rest != {}
        invariant rest <= classes.Keys
        invariant forall k :: k in classes && k !in rest ==> LiveOf(backing[k]) == {}
        decreases |rest|
      {
        var c :| c in rest;
        ClassReady(c);
        busy := classes[c].InUse();
        if busy {
          assert c in LivesOf(backing) && LivesOf(backing)[c] != {};
          return;
        }
        rest := rest - {c};
      }
      assert forall k :: k in LivesOf(backing) ==> LivesOf(backing)[k] == {};
    }

    /** in_use(): some class pool or the heap is in use; as the heap always
        claims to be, so does the whole pool. */
    method InUse() returns (busy: bool)
      requires Valid()
      ensures busy
    {
      var classesBusy := ClassesInUse();
      busy := classesBusy || heap.InUse();
    }

    /** alloc_size(): the class a pointer was served from, or 0 for a heap
        pointer (the heap does not divulge sizes) and for a pointer no pool
        handed out. */
    method AllocSize(ptr: Address) returns (n: nat)
      requires Valid()
      ensures ptr in owners && owners[ptr].Class? ==> n == owners[ptr].size
      ensures !(ptr in owners && owners[ptr].Class?) ==> n == 0
    {
      if ptr !in owners {
        return 0;
      }
      match owners[ptr] {
        case Heap =>
          n := heap.AllocSize(ptr);
        case Class(c) =>
          assert c in LivesOf(backing);
          ClassReady(c);
          n := classes[c].AllocSize(ptr);
      }
    }
  }
}
