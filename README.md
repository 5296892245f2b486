# fhtagn: memory pools, text transcoding and byte order, in Dafny

This project models three parts of the C++ library fhtagn and proves what
their headers promise.

- **Memory pools** (`fhtagn/memory/`). All pools share one five-operation
  contract: alloc, realloc, free, in_use and alloc_size.
  - `heap_pool` wraps the C heap. `HeapPool` records the live blocks and
    their sizes.
  - `fixed_pool` cuts one borrowed block into segments. Each segment is a
    header followed by its payload. `FixedPool` keeps the headers as a
    sequence in address order. Allocation is first-fit and splits a
    segment when the remainder can hold another header and one block.
    Freeing marks the segment FREE and merges free neighbours. Proved
    throughout:
    - the full sizes of the segments add up to the block;
    - no two free segments are ever side by side;
    - the live payloads are exactly what was handed out and not freed.
  - `block_pool`, the equal-slot backing pool, is not among the headers.
    `BlockPool` is a value that hands out its lowest free slot.
  - `dynamic_pool` keeps backing pools in a map keyed by the address range
    of each pool's block:
    - the keys are disjoint;
    - `find_pool` finds the unique range that contains a pointer;
    - allocation asks the pools in key order, and adds a pool only when
      none of them can serve;
    - freeing the last allocation of a pool removes that pool.
  - `size_based_pool` rounds a request up to the smallest doubling size
    class. Each class has its own `dynamic_pool`, reached through a
    `virtual_pool`. Larger requests go to the heap. An owner map records,
    for every live pointer, whether a class or the heap handed it out. The
    invariant says this map agrees exactly with the live pointers of the
    class pools and of the heap.
- **Transcoding** (`fhtagn/text/`).
  - The byte-at-a-time decoders are ASCII, ISO-8859-x, UTF-8, UTF-16 and
    UTF-32, the last two with byte-order-mark detection. Each is a value
    state machine (`DecState`, `AppendStep`). The `Decoder` class, whose
    fields and arrays are the structs' members, is proved to follow that
    machine step by step.
  - The per-character encoders are modelled the same way: `Encoding` says
    which characters each one accepts and which bytes it writes for them,
    and `Encoder` writes exactly those bytes.
  - The `decode` and `encode` drivers are loops over a decoder or encoder
    object. Each is proved equal to a recursive specification. The replace
    and stop policies, the flush at the end and the bound on the output
    are lemmas about that specification.
  - Round-trip lemmas characterise exactly which characters survive
    encoding followed by decoding, for each encoding.
- **Byte order** (`fhtagn/byteorder.h`). Words are bit vectors. Every
  conversion is stated through the bytes a word occupies in big- or
  little-endian order.

Fixed choices of the model:

- The host is little endian.
- `char` is signed, so the single-byte encoders' empty signal `-1` is the
  byte 0xFF.
- `sizeof(segment)` is 24, as with a 64-bit `size_t`.
- Addresses are natural numbers, and 0 is NULL.
- fixed_pool throws, and dynamic_pool and size_based_pool leave the
  behaviour open, when free, realloc or alloc_size gets a pointer the pool
  does not own. Their models return an explicit "not owned" result
  instead. `HeapPool` instead requires a pointer it handed out, as the C
  heap does.

Some quirks of the sources are modelled as written and proved as lemmas:

- the UTF-8 decoder refuses U+007F as a leading byte;
- the UTF-16 decoder's strict lower bounds make 0xD800 and 0xDC00 ordinary
  words, so U+10000 decodes as two characters;
- an ISO-8859 character stored as the byte 0xFF is written as nothing,
  because 0xFF is the encoder's empty signal.

## Model

| member | source | states |
|---|---|---|
| ByteOrder.FromCode | fhtagn/byteorder.h:74-79 | the enumerator whose integer code is the argument (-1 UNKNOWN, 0 BIG, 1 LITTLE) |
| ByteOrder.ToString | fhtagn/byteorder.h:138-147 | always two letters; "--" exactly for UNKNOWN, "BE" exactly for BIG, "LE" for every other code |
| ByteOrder.ToStringInjective | fhtagn/byteorder.h:138-147 | the three enumerators get three different names |
| ByteOrder.OppositeInvolution | fhtagn/byteorder.h:157-166 | opposite() is an involution, changes exactly the known orders and keeps UNKNOWN |
| ByteOrder.Swap16 | fhtagn/byteorder.h:172-176 | the big-endian bytes of the result are the little-endian bytes of the argument and the other way round |
| ByteOrder.Swap32 | fhtagn/byteorder.h:183-189 | the 32-bit swap reverses the four bytes in the same sense |
| ByteOrder.Swap64AsWrittenLosesBytes | fhtagn/byteorder.h:196-207 | the 64-bit swap as written maps 0x0000_0000_00ff_0000 to 0, which is not the byte reversal |
| ByteOrder.Swap64AsWrittenInvolutionIff | fhtagn/byteorder.h:196-207 | the swap as written is its own inverse on x exactly when bytes 2 to 5 of x are zero |
| ByteOrder.Swap64 | fhtagn/byteorder.h:196-207 | the corrected 64-bit swap reverses the eight bytes |
| ByteOrder.Swap | fhtagn/byteorder.h:172-212 | swap() keeps the width and exchanges big- and little-endian bytes, with the corrected 64-bit swap; for 16 and 32 bits as written |
| ByteOrder.SwapInvolution | fhtagn/byteorder.h:172-212 | swap(swap(x)) == x for every width, with the corrected 64-bit swap |
| ByteOrder.SwapAsWritten | fhtagn/byteorder.h:172-212 | swap() as written keeps the width and is the byte reversal on 16 and 32 bits |
| ByteOrder.SwapAsWrittenAgrees | fhtagn/byteorder.h:196-207 | swap() as written reverses the bytes exactly on 16- and 32-bit words and on 64-bit words whose bytes 2 and 3 are zero |
| ByteOrder.BytesDetermineWord | fhtagn/byteorder.h:172-212 | two words of one width with the same bytes in a known order are equal |
| ByteOrder.Hton | fhtagn/byteorder.h:234-275 | on a host of either order, hton() leaves in memory the big-endian (network) bytes of the value, with the corrected 64-bit swap |
| ByteOrder.Ntoh | fhtagn/byteorder.h:234-275 | ntoh() reads host memory holding network order back as the value, with the corrected 64-bit swap |
| ByteOrder.NtohHtonRoundTrip | fhtagn/byteorder.h:234-275 | ntoh and hton undo each other on either host, with the corrected 64-bit swap |
| ByteOrder.ConvertAsWritten | fhtagn/byteorder.h:234-275 | hton()/ntoh() as written equal the corrected ones exactly on the big-endian host, on 16 and 32 bits, and on 64-bit words whose bytes 2 and 3 are zero |
| ByteOrder.ConvertAsWrittenRoundTrip | fhtagn/byteorder.h:234-275 | as written, ntoh undoes hton exactly on the big-endian host, on 16 and 32 bits, and on 64-bit words whose bytes 2 to 5 are zero |
| ByteOrder.ToHost | fhtagn/byteorder.h:283-297 | the result's bytes in the given order are the argument's bytes in host memory, with the corrected 64-bit swap; only BIG and LITTLE index the decision table |
| ByteOrder.FromHost | fhtagn/byteorder.h:305-319 | the result's bytes in host memory are the argument's bytes in the given order, with the corrected 64-bit swap |
| ByteOrder.HostRoundTrip | fhtagn/byteorder.h:283-319 | to_host and from_host are inverse to each other for a fixed order, for every width, with the corrected 64-bit swap |
| ByteOrder.HostAsWritten | fhtagn/byteorder.h:283-319 | to_host()/from_host() as written equal the corrected ones exactly for the host's own order, on 16 and 32 bits, and on 64-bit words whose bytes 2 and 3 are zero |
| ByteOrder.HostAsWrittenRoundTrip | fhtagn/byteorder.h:283-319 | as written, to_host undoes from_host exactly for the host's own order, on 16 and 32 bits, and on 64-bit words whose bytes 2 to 5 are zero |
| ByteOrder.HostRoundTrip16 | fhtagn/byteorder.h:283-319 | to_host(from_host(x, e), e) == x on 16-bit values |
| ByteOrder.HostRoundTrip32 | fhtagn/byteorder.h:283-319 | to_host(from_host(x, e), e) == x on 32-bit values |
| ByteOrder.ToHostExample | test/misc_test.cpp:197-209 | on a little-endian host, to_host(1234, BIG) == 53764 and to_host(1234, LITTLE) == 1234 |
| MemoryPool.HeapPool.constructor | fhtagn/memory/memory_pool.h:103-104 | a new heap pool has no live blocks |
| MemoryPool.HeapPool.Alloc | fhtagn/memory/memory_pool.h:105-111 | NULL exactly for size 0 or when malloc fails; otherwise the new block is live with its size and nothing else changes |
| MemoryPool.HeapPool.Realloc | fhtagn/memory/memory_pool.h:113-123 | NULL exactly for size 0 or when realloc fails, and then the old block stays live unchanged; otherwise the returned block replaces it |
| MemoryPool.HeapPool.Free | fhtagn/memory/memory_pool.h:125-129 | the block is no longer live; free(NULL) changes nothing |
| MemoryPool.HeapPool.InUse | fhtagn/memory/memory_pool.h:131-140 | always true |
| MemoryPool.HeapPool.AllocSize | fhtagn/memory/memory_pool.h:142-151 | always 0, the answer the contract gives when the system does not divulge the size |
| BlockPools.BlockPool.Alloc | fhtagn/memory/dynamic_pool.h:70-75 | NULL exactly when the size is 0, does not fit a slot or no slot is free; otherwise the lowest free slot, inside the pool's range, now in use |
| BlockPools.BlockPool.Realloc | fhtagn/memory/dynamic_pool.h:70-75 | a slot in use keeps its place for a non-zero size that fits a slot; any other request is NULL |
| BlockPools.BlockPool.Free | fhtagn/memory/memory_pool.h:125-129 | the slot is no longer in use and the pool keeps its shape |
| BlockPools.BlockPool.AllocSize | fhtagn/memory/memory_pool.h:142-151 | the slot size for a slot in use, 0 otherwise |
| BlockPools.NewBlockPool | fhtagn/memory/size_based_pool.h:63-66 | a new backing pool is well formed, not in use and can serve a slot-sized request |
| FixedPools.NewSegment | fhtagn/memory/fixed_pool.h:123-128 | segment(n) is FREE and its full size is n, so its payload is n minus the header |
| FixedPools.AdjustSize | fhtagn/memory/fixed_pool.h:67-70 | a size rounded up to the nearest whole number of alignment blocks |
| FixedPools.HeaderSize | fhtagn/memory/fixed_pool.h:135-138 | header_size() is the header rounded up to whole blocks |
| FixedPools.FirstFit | fhtagn/memory/fixed_pool.h:148-152 | the first free segment with enough payload, and no earlier one has it; the length of the chain when none does |
| FixedPools.LiveConcat | fhtagn/memory/fixed_pool.h:130-133 | the allocations of two chains side by side are those of the first plus those of the second, placed after the first's full size |
| FixedPools.EmptyIsOneSegment | fhtagn/memory/fixed_pool.h:160-163 | a chain with no adjacent free segments and no allocation is one free segment over the whole block |
| FixedPools.LongChainAllocates | fhtagn/memory/fixed_pool.h:160-163 | a chain of two or more segments without adjacent free ones has an allocated segment |
| FixedPools.FixedPool.constructor | fhtagn/memory/fixed_pool.h:89-95 | one free segment spanning the whole block and no allocations |
| FixedPools.FixedPool.FindSegmentFor | fhtagn/memory/fixed_pool.h:154-158 | found exactly when the pointer is the payload of an allocated segment, and then that segment's index |
| FixedPools.FixedPool.FindFree | fhtagn/memory/fixed_pool.h:148-152 | the scan of the segment chain stops at the first-fit segment |
| FixedPools.Carve | fhtagn/memory/fixed_pool.h:148-152 | what replaces a free segment given a request: an allocated segment of at least the request, followed by a free remainder exactly when the segment splits, and then the allocated part is exactly the request; the full size is preserved |
| FixedPools.AlignedPayloads | fhtagn/memory/fixed_pool.h:67-70 | when the block start, the header and every segment size are whole alignment blocks, every live payload starts on a block boundary |
| FixedPools.FixedPool.AllocateSegment | fhtagn/memory/fixed_pool.h:148-152 | free segment k is replaced by its carving: allocated with exactly the request and a free remainder when it splits, allocated whole otherwise; only that payload becomes live; the chain invariants hold |
| FixedPools.FixedPool.DefragmentFreeList | fhtagn/memory/fixed_pool.h:160-163 | afterwards no two adjacent segments are free, and the allocations are unchanged |
| FixedPools.FixedPool.Release | fhtagn/memory/fixed_pool.h:102 | an allocated segment is freed and merged with its free neighbours; only that allocation disappears |
| FixedPools.FixedPool.Alloc | fhtagn/memory/fixed_pool.h:100 | NULL exactly for size 0 or when no free segment fits the aligned size; otherwise the payload of the first-fit segment, newly live with at least the requested size, and that segment is carved as `Carve` says; nothing else changes |
| FixedPools.FixedPool.Free | fhtagn/memory/fixed_pool.h:102 | the allocation disappears; free(NULL) and a foreign pointer change nothing, and a foreign pointer is reported |
| FixedPools.FixedPool.Shrink | fhtagn/memory/fixed_pool.h:101 | an allocation resized in place to a smaller size keeps at least that size |
| FixedPools.FixedPool.Grow | fhtagn/memory/fixed_pool.h:101 | an allocation grows in place by absorbing the free neighbour after it |
| FixedPools.FixedPool.Realloc | fhtagn/memory/fixed_pool.h:101 | a pointer the pool does not hold is reported; on success the block (moved or not) holds at least the new size and replaces the old one; NULL leaves the pool unchanged and happens only for size 0 or when neither the block nor any free segment fits |
| FixedPools.FixedPool.InUse | fhtagn/memory/fixed_pool.h:63-65 | true exactly when some allocation is live |
| FixedPools.FixedPool.AllocSize | fhtagn/memory/fixed_pool.h:104 | the payload size of a live allocation, 0 for a pointer the pool does not hold |
| FixedPools.Scenario | fhtagn/memory/fixed_pool.h:160-163 | a 1024-byte pool serves 100 bytes, refuses 2000, and after the free is out of use and one free segment again |
| FixedPools.Coalesce | fhtagn/memory/fixed_pool.h:160-163 | in a 1024-byte pool, allocations of 100 and 200 bytes both succeed at different addresses, and freeing them in either order leaves one free segment over the block |
| DynamicPools.LiveUpdate | fhtagn/memory/dynamic_pool.h:106-115 | changing one backing pool changes the live pointers of the whole map only by that pool's change |
| DynamicPools.DynamicPool.constructor | fhtagn/memory/dynamic_pool.h:77-83 | a new dynamic pool has no backing pools |
| DynamicPools.DynamicPool.FindPool | fhtagn/memory/dynamic_pool.h:106-110 | found exactly when some key range contains the pointer, and then the unique such range |
| DynamicPools.DynamicPool.AllocFrom | fhtagn/memory/dynamic_pool.h:112-115 | the chosen pool hands out a fresh pointer inside its range; only that pool changes |
| DynamicPools.DynamicPool.FirstServing | fhtagn/memory/dynamic_pool.h:59-61 | the lowest-keyed pool that can serve the size, or none when no pool can |
| DynamicPools.DynamicPool.AddPool | fhtagn/memory/dynamic_pool.h:59-61 | a new empty pool over the new block, under its own disjoint key; live pointers unchanged |
| DynamicPools.DynamicPool.Alloc | fhtagn/memory/dynamic_pool.h:59-68 | served by the lowest-keyed pool that can serve; a new pool only when none can; NULL for size 0 or above the block size; the other pools untouched |
| DynamicPools.DynamicPool.Free | fhtagn/memory/dynamic_pool.h:63-64 | the owning pool frees the pointer and is dropped exactly when it is no longer in use; other pools untouched; foreign pointers reported |
| DynamicPools.DynamicPool.Realloc | fhtagn/memory/dynamic_pool.h:70-75 | a live pointer stays in place for a non-zero size that fits its slot; any other size is NULL, the live pointers are unchanged, and a size above a slot but within one block leaves a new, empty backing pool behind, exactly as the caveat warns; a foreign pointer is reported |
| DynamicPools.DynamicPool.InUse | fhtagn/memory/dynamic_pool.h:97 | true exactly when some pointer is live |
| DynamicPools.DynamicPool.AllocSize | fhtagn/memory/dynamic_pool.h:98 | the object size for a live pointer, 0 otherwise |
| SizeBasedPools.Classes | fhtagn/memory/size_based_pool.h:55-58 | every class lies between the minimum and the maximum, and the minimum is a class exactly when it does not exceed the maximum |
| SizeBasedPools.ClassesDouble | fhtagn/memory/size_based_pool.h:55-58 | every class but the first is twice a class, and twice a class is a class while it is at most the maximum |
| SizeBasedPools.DefaultClasses | fhtagn/memory/size_based_pool.h:80-84 | with the defaults the classes are 1, 2, 4, ..., 256 |
| SizeBasedPools.PoolSize | fhtagn/memory/size_based_pool.h:162 | the smallest class that holds the size, or 0 when no class does |
| SizeBasedPools.DefaultRounding | fhtagn/memory/size_based_pool.h:59-61 | with the defaults 5 and 8 go to class 8, 256 to 256, and 257 to no class |
| SizeBasedPools.VirtualPool.constructor | fhtagn/memory/size_based_pool.h:142-145 | m_pool is an empty dynamic pool with the class's object and block sizes |
| SizeBasedPools.VirtualPool.Alloc | fhtagn/memory/size_based_pool.h:117-120 | alloc() forwards to m_pool and keeps every promise of DynamicPool.Alloc: lowest-keyed serving pool, a new pool only when none can serve, NULL for 0 or above a block |
| SizeBasedPools.VirtualPool.Realloc | fhtagn/memory/size_based_pool.h:122-125 | realloc() forwards to m_pool and keeps every promise of DynamicPool.Realloc, the new empty pool for a refused size included |
| SizeBasedPools.VirtualPool.Free | fhtagn/memory/size_based_pool.h:127-130 | free() forwards to m_pool and keeps every promise of DynamicPool.Free: only the owning pool changes and it is dropped once empty |
| SizeBasedPools.VirtualPool.InUse | fhtagn/memory/size_based_pool.h:132-135 | in_use() forwards to m_pool |
| SizeBasedPools.VirtualPool.AllocSize | fhtagn/memory/size_based_pool.h:137-140 | alloc_size() forwards to m_pool |
| SizeBasedPools.NewClasses | fhtagn/memory/size_based_pool.h:153-160 | one empty virtual pool per class under the class's key, each with blocks of class times objects-per-pool bytes |
| SizeBasedPools.ClassesBusy | fhtagn/memory/size_based_pool.h:151 | some class pool holds a live pointer exactly when the owner map records a class-owned pointer |
| SizeBasedPools.SizeBasedPool.constructor | fhtagn/memory/size_based_pool.h:91 | one empty pool per class, an empty owner map and an empty heap |
| SizeBasedPools.SizeBasedPool.Alloc | fhtagn/memory/size_based_pool.h:93 | sizes above the maximum go to the heap, which gains exactly that block, and leave the class pools alone; others go to their rounded class, whose live pointers gain exactly the result, while the heap and every other class are untouched; a size no class holds gets NULL and changes nothing; a success is recorded under its owner |
| SizeBasedPools.SizeBasedPool.AllocFromHeap | fhtagn/memory/size_based_pool.h:68-69 | the heap's block is live in the heap and recorded as heap-owned; the class pools are untouched |
| SizeBasedPools.SizeBasedPool.AllocFromClass | fhtagn/memory/size_based_pool.h:59-61 | class c's pool serves the size, gaining exactly the new pointer and at most the new block; the pointer is recorded under class c; the heap and the other classes are untouched |
| SizeBasedPools.SizeBasedPool.Realloc | fhtagn/memory/size_based_pool.h:94 | dispatches on the recorded owner: the heap may move the block and the record and the heap's live map follow it; a class resizes within its class or refuses, adding a new empty backing block for a refused size that fits one; a foreign pointer is refused and nothing changes |
| SizeBasedPools.SizeBasedPool.ReallocFromHeap | fhtagn/memory/size_based_pool.h:94 | the heap's realloc; on success the record and the heap's live map move to the returned block |
| SizeBasedPools.SizeBasedPool.ReallocInClass | fhtagn/memory/size_based_pool.h:122-125 | the class pool keeps the pointer for a non-zero size within the class and refuses otherwise; a refused size that fits a block adds exactly one empty backing block to that class; the owners, the heap and the other classes are untouched |
| SizeBasedPools.SizeBasedPool.Resize | fhtagn/memory/size_based_pool.h:122-125 | the class pool's realloc keeps the size-based invariant, with the class's backing blocks changed only by the new empty block |
| SizeBasedPools.SizeBasedPool.Free | fhtagn/memory/size_based_pool.h:95 | the record is removed and exactly the recorded owner frees the pointer; a foreign pointer changes nothing |
| SizeBasedPools.SizeBasedPool.FreeFromHeap | fhtagn/memory/size_based_pool.h:95 | the heap frees the block and the record goes |
| SizeBasedPools.SizeBasedPool.FreeFromClass | fhtagn/memory/size_based_pool.h:127-130 | class c's pool frees the pointer, the other classes and the heap are untouched, and the record goes |
| SizeBasedPools.SizeBasedPool.ClassesInUse | fhtagn/memory/size_based_pool.h:132-135 | some class pool is in use exactly when a class-owned pointer is recorded |
| SizeBasedPools.SizeBasedPool.InUse | fhtagn/memory/size_based_pool.h:96 | always true, because the heap always claims to be in use |
| SizeBasedPools.SizeBasedPool.AllocSize | fhtagn/memory/size_based_pool.h:97 | the class size for a class-owned pointer, 0 for a heap-owned or foreign one |
| TextTypes.TableOffset | fhtagn/text/decoders.h:152-156 | each part's slice of the mapping table starts at a multiple of 96 and lies inside the table |
| TextTypes.TableOffsetInjective | fhtagn/text/decoders.h:152-156 | the slices of different parts do not overlap |
| Decoders.InitState | fhtagn/text/transcoding.h:159-173 | a freshly constructed decoder can take a byte and holds no character |
| Decoders.ResetState | fhtagn/text/transcoding.h:167-173 | after reset() no character is held |
| Decoders.StepUtf8 | fhtagn/text/decoders.h:211-229 | a UTF-8 step keeps the buffer well formed, and an accepted one keeps the size at most four |
| Decoders.StepUtf16 | fhtagn/text/decoders.h:312-381 | a UTF-16 step keeps the decoder well formed |
| Decoders.StepUtf32 | fhtagn/text/decoders.h:450-491 | a UTF-32 step keeps the decoder well formed and refuses a byte once four are held |
| Decoders.AppendStep | fhtagn/text/transcoding.h:175-182 | append() keeps every decoder well formed, an accepted byte leaves a ready decoder ready, and a full decoder refuses the byte unchanged |
| Decoders.ResetThenAppend | fhtagn/text/transcoding.h:167-182 | reset() empties the decoder, and append() on a full one returns false without change |
| Decoders.AsciiDecoderAccepts | fhtagn/text/decoders.h:60-90 | the ASCII decoder accepts exactly 0 to 127 and yields the byte |
| Decoders.IsoDecoderAccepts | fhtagn/text/decoders.h:109-158 | an ISO-8859 decoder refuses exactly 128 to 159; part 1 and bytes up to 127 yield the byte, others the part's table entry |
| Decoders.Utf8LeadClasses | fhtagn/text/decoders.h:232-250 | the leading bytes accepted and the sequence length each announces |
| Decoders.Utf8RefusesDel | fhtagn/text/decoders.h:234-237 | the leading byte 0x7F is refused |
| Decoders.Utf8ValueBits | fhtagn/text/decoders.h:268-282 | each further byte multiplies the value by 64 and adds its low six bits |
| Decoders.Utf8EuroSign | fhtagn/text/decoders.h:268-282 | E2 82 AC is accepted byte by byte, full only after the third, and yields U+20AC |
| Decoders.Utf16ByteOrderMark | fhtagn/text/decoders.h:331-354 | with unknown order, FF FE selects little and FE FF big endian without a character; any other first word is refused |
| Decoders.Utf16GClef | fhtagn/text/decoders.h:356-399 | the little-endian bytes 34 D8 1E DD decode to U+1D11E |
| Decoders.Utf16StrictBounds | fhtagn/text/decoders.h:359-378 | 0xD800 and 0xDC00 are taken as single words, not as surrogates |
| Decoders.Utf32FullAfterFour | fhtagn/text/decoders.h:450-497 | with a known order, four bytes are accepted and the decoder is full after exactly the fourth |
| Decoders.Utf32Gathers | fhtagn/text/decoders.h:456-461 | the four bytes land in the buffer in memory order |
| Decoders.Utf32MarkValues | fhtagn/text/decoders.h:463-487 | the two mark values are read from exactly 00 00 FE FF and FF FE 00 00 |
| Decoders.Utf32ByteOrderMark | fhtagn/text/decoders.h:463-487 | with unknown order, FF FE 00 00 selects little and 00 00 FE FF big endian without a character; any other first word is refused |
| Decoders.Utf8Sequence | fhtagn/text/decoders.h:268-282 | the to_utf32 loop over the buffer computes the accumulated value |
| Decoders.Decoder.constructor | fhtagn/text/transcoding.h:159-162 | a new decoder object is in its initial state |
| Decoders.Decoder.HaveFullSequence | fhtagn/text/transcoding.h:189-193 | true exactly when the state holds a full character |
| Decoders.Decoder.Reset | fhtagn/text/transcoding.h:167-173 | the fields are reset as each struct's reset() does |
| Decoders.Decoder.Append | fhtagn/text/transcoding.h:175-182 | the object takes the step of the state machine, for every kind |
| Decoders.Decoder.AppendSingle | fhtagn/text/decoders.h:109-121 | append() of the ASCII and ISO-8859 decoders |
| Decoders.Decoder.IsValidLeadingOctetM | fhtagn/text/decoders.h:232-250 | returns whether the byte may lead, and sets m_size to the length it announces |
| Decoders.Decoder.AppendUtf8 | fhtagn/text/decoders.h:211-229 | append() of the UTF-8 decoder |
| Decoders.Decoder.AppendUtf16 | fhtagn/text/decoders.h:312-381 | append() of the UTF-16 decoder |
| Decoders.Decoder.AppendHighByte | fhtagn/text/decoders.h:328-381 | the second byte of a word completes it and judges it |
| Decoders.Decoder.TakeOrderMark | fhtagn/text/decoders.h:331-354 | the first word of a decoder of unknown order is judged as a byte-order mark |
| Decoders.Decoder.TakeWord | fhtagn/text/decoders.h:356-380 | a word in host order is judged as a leading or second word |
| Decoders.Decoder.AppendUtf32 | fhtagn/text/decoders.h:450-491 | append() of the UTF-32 decoder |
| Decoders.Decoder.ToUtf32 | fhtagn/text/transcoding.h:195-199 | to_utf32() yields the character of the full state |
| Decoders.Decoder.IsoToUtf32 | fhtagn/text/decoders.h:139-159 | the ISO-8859 lookup through the part's table offset |
| Decoders.Decoder.Utf8ToUtf32 | fhtagn/text/decoders.h:268-282 | the UTF-8 accumulation over the buffer |
| Decoders.Decoder.Utf16ToUtf32 | fhtagn/text/decoders.h:390-399 | a pair combines into a supplementary code point, a single word is its own value |
| Encoders.SingleOutput | fhtagn/text/encoders.h:117-127 | begin() to end() of a single-byte encoder is empty exactly for the empty signal, else the byte |
| Encoders.Truncate | fhtagn/text/encoders.h:136 | static_cast<char> keeps the low eight bits: the value is its higher bits followed by the byte, and a value below 256 is kept |
| Encoders.RawEncoding | fhtagn/text/encoders.h:84-93 | the raw encoder accepts exactly 0 to 255, as one equal byte |
| Encoders.AsciiEncoding | fhtagn/text/encoders.h:129-141 | the ASCII encoder accepts exactly 0 to 127, as one equal byte |
| Encoders.FirstIndex | fhtagn/text/encoders.h:202-207 | the first index of the character in the slice, or none exactly when it is absent |
| Encoders.IsoEncoding | fhtagn/text/encoders.h:179-213 | an ISO-8859 encoder accepts exactly the characters its byte search finds |
| Encoders.Utf8Octets | fhtagn/text/encoders.h:279-308 | the UTF-8 bytes of a character, as many as its length class says |
| Encoders.Utf8Encoding | fhtagn/text/encoders.h:273-291 | the UTF-8 encoder accepts exactly the characters below 0x110000, in one to four bytes |
| Encoders.Utf16Units | fhtagn/text/encoders.h:346-378 | words exist exactly for characters up to U+10FFFF outside (0xD800, 0xDFFF]: one word, the character itself, up to U+FFFF and two above |
| Encoders.WordBytes | fhtagn/text/encoders.h:336-344 | two bytes per buffered word |
| Encoders.Utf16Encoding | fhtagn/text/encoders.h:346-378 | the UTF-16 encoder accepts exactly the characters that have words |
| Encoders.Utf32Encoding | fhtagn/text/encoders.h:433-437 | the UTF-32 encoder accepts every value, in four bytes |
| Encoders.WordBytesFromHost | fhtagn/text/encoders.h:356-374 | words stored through from_host() read back in memory as the words' bytes in the chosen order |
| Encoders.Encoder.constructor | fhtagn/text/encoders.h:64-69 | a new encoder shows no bytes (the UTF-32 encoder four zero bytes) |
| Encoders.Encoder.Encode | fhtagn/text/transcoding.h:308-314 | encode() succeeds exactly for the characters the encoding accepts and then shows their bytes; a refusal empties a single-byte encoder and leaves UTF-8 and UTF-16 showing the previous bytes |
| Encoders.Encoder.EncodeRaw | fhtagn/text/encoders.h:84-93 | encode() of raw_encoder: the flag is raised exactly for 0 to 255 |
| Encoders.Encoder.EncodeAscii | fhtagn/text/encoders.h:129-141 | encode() of ascii_encoder |
| Encoders.Encoder.EncodeIso | fhtagn/text/encoders.h:179-213 | encode() of the ISO-8859 encoder: the search loop finds the first matching slot |
| Encoders.Encoder.EncodeUtf8 | fhtagn/text/encoders.h:273-310 | the fall-through writes leave the UTF-8 bytes of the character in the buffer |
| Encoders.Encoder.EncodeUtf16 | fhtagn/text/encoders.h:346-378 | the words, through from_host(), and the end offset after them |
| Encoders.Encoder.EncodeUtf32 | fhtagn/text/encoders.h:433-437 | the buffer holds from_host() of the character |
| Transcoding.PrependCharsTwice | fhtagn/text/transcoding.h:247 | output written in two turns is written in one |
| Transcoding.Flush | fhtagn/text/transcoding.h:268-271 | at the end a full decoder yields one character and an incomplete one nothing |
| Transcoding.TurnOf | fhtagn/text/transcoding.h:244-265 | one loop turn leaves a decoder that can take the next byte |
| Transcoding.DecodeFrom | fhtagn/text/transcoding.h:242-273 | the returned position lies between the start and the end of the input |
| Transcoding.DecodeByte | fhtagn/text/transcoding.h:244-265 | one turn of the decode() loop on the decoder object matches the specification |
| Transcoding.Decode | fhtagn/text/transcoding.h:233-274 | decode() on a fresh decoder writes and returns what the specification says |
| Transcoding.FlushDecoder | fhtagn/text/transcoding.h:268-271 | the final flush matches the specification |
| Transcoding.DecodeReplaceReachesEnd | fhtagn/text/transcoding.h:255-259 | with replacement characters decode() always returns the end of the input |
| Transcoding.DecodeStopIsFirstReplacement | fhtagn/text/transcoding.h:251-264 | without replacement, decode() writes a prefix of the output with replacement; they agree when it reaches the end, and otherwise the other run has 0xFFFD right where it stopped |
| Transcoding.DecodeOutputBound | fhtagn/text/transcoding.h:243-271 | decode() writes at most one character per byte read, plus one pending |
| Transcoding.DecodeRunBound | fhtagn/text/transcoding.h:233-274 | never more characters than input bytes; with replacement the whole input is read |
| Transcoding.DecodeDropsIncomplete | fhtagn/text/transcoding.h:268-271 | an incomplete sequence at the end is dropped, a complete one flushed |
| Transcoding.EncodeFrom | fhtagn/text/transcoding.h:366-388 | the returned position lies between the start and the end of the input |
| Transcoding.PrependBytesTwice | fhtagn/text/transcoding.h:384 | bytes written in two turns are written in one |
| Transcoding.CopyOutput | fhtagn/text/transcoding.h:380-385 | the copy loop copies exactly begin() to end() |
| Transcoding.EncodeChar | fhtagn/text/transcoding.h:368-385 | one turn of the encode() loop on the encoder object matches the specification |
| Transcoding.Encode | fhtagn/text/transcoding.h:357-389 | encode() on a fresh encoder writes and returns what the specification says |
| Transcoding.EncodedBytesAppend | fhtagn/text/transcoding.h:380-385 | the bytes of a concatenation are the concatenation of the bytes |
| Transcoding.EncodeStopsAtFirstRefusal | fhtagn/text/transcoding.h:368-371 | without replacement, encode() stops at the first refused character and has written exactly the bytes of those before it |
| Transcoding.Cleaned | fhtagn/text/transcoding.h:372-377 | the characters encode() goes on to write under replacement: every one is accepted by the encoder, and there are no more of them than input characters |
| Transcoding.EncodeWithReplacement | fhtagn/text/transcoding.h:372-388 | with replacement, encode() reads the whole input and writes the bytes of the cleaned characters |
| Transcoding.EncodeRunResult | fhtagn/text/transcoding.h:357-389 | encode() as a whole, with and without replacement |
| RoundTrips.FeedAppend | fhtagn/text/transcoding.h:251 | feeding two runs of bytes is feeding their concatenation |
| RoundTrips.DecodeFeeds | fhtagn/text/transcoding.h:243-265 | decode() passes accepted bytes to the decoder without output |
| RoundTrips.FlushFirst | fhtagn/text/transcoding.h:244-249 | a full decoder writes its character before the next byte and starts again from reset |
| RoundTrips.DecodeChunksFrom | fhtagn/text/transcoding.h:242-273 | bytes made of chunks, each taking the decoder from rest to one character, decode to those characters |
| RoundTrips.EncodedChunks | fhtagn/text/transcoding.h:380-385 | encode() writes the concatenation of the characters' encodings |
| RoundTrips.CleanedKeeps | fhtagn/text/transcoding.h:368-377 | an input the encoder accepts throughout is kept as it is |
| RoundTrips.RoundTrip | fhtagn/text/transcoding.h:233-389 | characters that round-trip one by one are encoded in full and decoded back unchanged |
| RoundTrips.AsciiRoundTrips | fhtagn/text/encoders.h:129-141 | ASCII round-trips exactly 0 to 127 |
| RoundTrips.IsoSliceByteDecodes | fhtagn/text/encoders.h:196-204 | the byte found in a part's slice decodes back to the character |
| RoundTrips.IsoByteDecodes | fhtagn/text/encoders.h:179-213 | every byte an ISO-8859 encoder finds decodes back to the character |
| RoundTrips.IsoRoundTrips | fhtagn/text/encoders.h:179-213 | an ISO-8859 part round-trips a character exactly when it has a byte other than 0xFF |
| RoundTrips.IsoLosesByteFF | fhtagn/text/encoders.h:167-172 | ISO-8859-1 finds byte 0xFF for U+00FF, but begin() == end(), so encode() writes nothing |
| RoundTrips.IsoLosesLastSlot | fhtagn/text/encoders.h:202-211 | in the other parts, a character found only in the last slot (byte 0xFF) is likewise written as nothing |
| RoundTrips.Utf32RoundTrips | fhtagn/text/encoders.h:433-437 | UTF-32 with a known order round-trips every value |
| RoundTrips.Utf16SingleDecodes | fhtagn/text/encoders.h:356-360 | one word written in a known order decodes to that word |
| RoundTrips.Utf16PairFeeds | fhtagn/text/decoders.h:356-380 | a surrogate pair is taken exactly when both words pass the strict bounds |
| RoundTrips.SurrogateBits | fhtagn/text/encoders.h:370-374 | the words of a pair recombine to the character; the lead passes the bound exactly from U+10400 and the trail exactly when the low ten bits are not zero |
| RoundTrips.Utf16RoundTrips | fhtagn/text/encoders.h:346-378 | UTF-16 round-trips exactly the characters up to U+FFFF outside (0xD800, 0xDFFF], and those from U+10400 to U+10FFFF whose low ten bits are not all zero |
| RoundTrips.FirstPairEncoding | fhtagn/text/encoders.h:370-376 | U+10000 is written as 00 D8 00 DC |
| RoundTrips.Utf16SplitsFirstPair | fhtagn/text/decoders.h:359-378 | those bytes decode as the two characters 0xD800 and 0xDC00 |
| RoundTrips.Utf8Feeds | fhtagn/text/decoders.h:211-229 | the encoder's bytes fill the UTF-8 decoder to exactly the length they announce |
| RoundTrips.Utf8Accumulates | fhtagn/text/decoders.h:268-282 | the accumulation of the encoder's bytes is the character |
| RoundTrips.Utf8RoundTrips | fhtagn/text/encoders.h:273-310 | UTF-8 round-trips exactly the characters below 0x110000 except U+007F |

## Left out

- The bodies in `fhtagn/memory/detail/*.tcc` are not part of this model. The pools follow what the headers declare and their comments promise. Where those are silent, the model chooses:
  - allocation is first-fit;
  - a segment is split when the remainder holds a header and one block;
  - realloc shrinks in place, grows into a free right neighbour, or moves;
  - dynamic_pool asks its pools in key order;
  - size_based_pool answers NULL for a size at or below the maximum that no class holds (with a maximum that is not a doubling of the minimum, e.g. minimum 3 and maximum 10 leave sizes 7 to 10 without a class).
- Block contents are not modelled, so realloc's copy of the old contents is left out.
- Locking is left out: the `mutex_t` members and `fake_mutex`. Every operation is atomic and sequential.
- fixed_pool's `adoption_policyT` is left out: whether the pool frees its borrowed block on destruction.
- Where the heap or malloc places memory is not modelled. The address the heap returns, or NULL, is a parameter of the operations that call it.
- `block_pool` is not part of this model. It is an abstract pool of equal slots, and the number of slots per backing block is a parameter.
- `fhtagn/meta/for.h` is left out. Only `multi_double`'s doubling is modelled, as the class rule.
- SizeBasedPools.SizeBasedPool.constructor creates the pool of every class up front, through `pool_creator`, rather than on first use. The difference shows only in memory held, which is not modelled.
- SizeBasedPools.SizeBasedPool.Realloc lets a class pointer grow only within its class; the class pool refuses a larger size. The .tcc body that could move the block to another class is not part of this model.
- MemoryPool.HeapPool.Realloc and MemoryPool.HeapPool.Free require a pointer the heap handed out (or NULL, for free), as the C library does; realloc(NULL, n) acting as malloc is not modelled.
- MemoryPool.HeapPool.AllocSize always answers 0: the model takes the system that does not divulge block sizes, which the contract at fhtagn/memory/memory_pool.h:142-148 allows; a system that does is not modelled.
- FixedPools.FixedPool.Alloc does not promise that payloads start on a block boundary. The payload follows the 24-byte header, as `full_size()` implies, and the placement code is not part of this model. `AlignedPayloads` proves the alignment for a layout whose header and segment sizes are whole blocks, which holds when the block size divides 24 and the pool's size less one header is whole blocks; the pool itself does not carry that as an invariant.
- Block and slot sizes are stated through `Times` (n additions of k) instead of `n * k`. `TimesIsProduct` connects the two.
- The contents of `iso8859_mapping` are not modelled. The table is a parameter of 1344 entries (14 parts of 96), and every lemma holds for any table.
- `transcoder_base` is not part of this model. The drivers take the replacement flag and the replacement character as parameters.
- `universal_encoder`, `fhtagn/text/encoders.cpp` and `fhtagn/text/detail/universal.h` are left out. They only dispatch at run time to the encoders modelled here.
- Decoders.Decoder.Append requires `AppendSafe`: a UTF-8 decoder holding a 5- or 6-byte length is not offered a byte once it has four buffered.
  - The source keeps such a length after refusing the lead byte, so further continuation bytes would be written past `m_buffer[4]`.
  - After a refusal decode() either resets, when it writes a replacement character, or returns at once (fhtagn/text/transcoding.h:251-264), so the drivers never reach that state.
- ByteOrder.Swap, ByteOrder.SwapInvolution, ByteOrder.Hton, ByteOrder.Ntoh, ByteOrder.NtohHtonRoundTrip, ByteOrder.ToHost, ByteOrder.FromHost and ByteOrder.HostRoundTrip use the corrected 64-bit swap (`Swap64`), so on 64-bit words they state the evidently intended conversions, not the written ones. The written conversions are `SwapAsWritten`, `ConvertAsWritten` and `HostAsWritten`; they round-trip only when bytes 2 to 5 are zero (`ConvertAsWrittenRoundTrip`, `HostAsWrittenRoundTrip`).
- Integer widths are not modelled: `size_t`, `uint8_t` counters and pointer arithmetic are unbounded naturals. Byte order works on exact 16-, 32- and 64-bit vectors.
- The host is fixed as little endian, with a signed `char`. The big-endian host branches of `to_host`/`from_host` and `convert<FHTAGN_BIG_ENDIAN>` are covered only through `Hton`/`Ntoh` with an explicit order.

## Findings

| source | as written | input that shows it | evidently intended | confidence | as-written member | corrected member |
|---|---|---|---|---|---|---|
| fhtagn/byteorder.h:202-203 | the terms for bytes 3 and 2 shift right by 8 and 24 | 0x0000_0000_00ff_0000 swaps to 0 instead of 0x0000_ff00_0000_0000 | shift left by 8 and 24, so that all eight bytes are reversed | not executed | ByteOrder.Swap64AsWrittenLosesBytes | ByteOrder.Swap64 |
