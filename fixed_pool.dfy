/**
 * fixed_pool (fhtagn/memory/fixed_pool.h): a pool that subdivides one
 * borrowed block of memory into segments, each a header followed by its
 * payload.  The headers lie one after the other in the block, so the pool's
 * segment chain is modelled as the sequence of headers in address order;
 * segment k starts where the full sizes of segments 0 to k - 1 end.
 */
module FixedPools {
  import opened MemoryPool

  /* ---------- segment headers ---------- */

  /** sizeof(segment) with a 64-bit size_t: the payload size, the status
      char padded to eight bytes, and the union of the next-link and the
      LAST_SEGMENT marker. */
  const SegmentBytes: nat := 24

  /** A segment's status: FREE or ALLOCATED, nothing else. */
  datatype Status = Free | Allocated

  /** One segment header.  Its next-link is its successor in the pool's
      sequence; the last segment of the sequence is the one that carries
      LAST_SEGMENT. */
  datatype Segment = Segment(size: nat, status: Status)
  {
    /** full_size(): payload plus header. */
    function FullSize(): nat
    {
      size + SegmentBytes
    }
  }

  /** segment(n): a free segment spanning n bytes, header included. */
  function NewSegment(n: nat): (s: Segment)
    requires n >= SegmentBytes
    ensures s.status == Free && s.FullSize() == n
  {
    Segment(n - SegmentBytes, Free)
  }

  /** A whole number of blocks. */
  ghost predicate WholeBlocks(n: nat, block: nat)
  {
    exists m: nat :: n == m * block
  }

  /** block_alignment::adjust_size(): `n` rounded up to whole blocks. */
  function AdjustSize(n: nat, block: nat): (r: nat)
    requires block > 0
    ensures WholeBlocks(r, block) && n <= r < n + block
  {
    var q := n / block;
    assert n == q * block + n % block;
    if n % block == 0 then
      assert n == q * block;
      n
    else
      assert (q + 1) * block == q * block + block;
      (q + 1) * block
  }

  /** header_size(): the header rounded up to whole blocks. */
  function HeaderSize(block: nat): (r: nat)
    requires block > 0
    ensures WholeBlocks(r, block) && SegmentBytes <= r < SegmentBytes + block
  {
    AdjustSize(SegmentBytes, block)
  }

  /** Whether a free segment is large enough to be split: what is left after
      `need` bytes still holds a header and one block of payload. */
  predicate Splits(seg: Segment, need: nat, block: nat)
    requires block > 0
  {
    seg.size >= need + HeaderSize(block) + block
  }

  /** What allocate_segment() puts in place of a free segment given `need`
      bytes: the segment allocated, followed by a free remainder when the
      segment splits. */
  function Carve(seg: Segment, need: nat, block: nat): (r: seq<Segment>)
    requires block > 0 && seg.size >= need
    ensures |r| == 1 || |r| == 2
    ensures r[0].status == Allocated && r[0].size >= need
    ensures |r| == 2 <==> Splits(seg, need, block)
    ensures |r| == 2 ==> r[0].size == need && r[1].status == Free && r[1].size >= HeaderSize(block) + block - SegmentBytes
    ensures |r| == 1 ==> r[0].size == seg.size
    ensures r[0].FullSize() + (if |r| == 2 then r[1].FullSize() else 0) == seg.FullSize()
  {
    if Splits(seg, need, block) then [Segment(need, Allocated), Segment(seg.size - need - SegmentBytes, Free)]
    else [Segment(seg.size, Allocated)]
  }

  /* ---------- the chain of segments ---------- */

  /** The bytes the segments span, headers included. */
  function FullSum(s: seq<Segment>): nat
  {
    if s == [] then 0 else s[0].FullSize() + FullSum(s[1..])
  }

  /** The allocated payloads of segments laid out from address `at`, each
      with its size. */
  function Live(s: seq<Segment>, at: Address): map<Address, nat>
  {
    if s == [] then map[]
    else
      var rest := Live(s[1..], at + s[0].FullSize());
      if s[0].status == Allocated then rest[at + SegmentBytes := s[0].size] else rest
  }

  /** The payload address of segment k of segments laid out from `at`. */
  function PayloadAt(s: seq<Segment>, at: Address, k: nat): Address
    requires k <= |s|
  {
    at + FullSum(s[..k]) + SegmentBytes
  }

  /** No two neighbouring segments are both free. */
  predicate NoAdjacentFree(s: seq<Segment>)
  {
    forall i :: 0 <= i < |s| - 1 ==> s[i].status == Allocated || s[i + 1].status == Allocated
  }

  /** s with the n segments from k on replaced by `mid`. */
  function Replace(s: seq<Segment>, k: nat, n: nat, mid: seq<Segment>): (r: seq<Segment>)
    requires k + n <= |s|
    ensures |r| == |s| - n + |mid|
  {
    s[..k] + mid + s[k + n..]
  }

  lemma {:induction false} FullSumConcat(a: seq<Segment>, b: seq<Segment>)
    ensures FullSum(a + b) == FullSum(a) + FullSum(b)
  {
    if a == [] {
      assert a + b == b;
    } else {
      assert (a + b)[0] == a[0];
      assert (a + b)[1..] == a[1..] + b;
      FullSumConcat(a[1..], b);
    }
  }

  /** Every live payload lies inside the span of the segments. */
  lemma {:induction false} LiveKeys(s: seq<Segment>, at: Address)
    ensures forall p :: p in Live(s, at) ==> at + SegmentBytes <= p <= at + FullSum(s)
  {
    if s != [] {
      LiveKeys(s[1..], at + s[0].FullSize());
    }
  }

  /** The live payloads of two runs of segments, one after the other, are
      those of each run. */
  lemma {:induction false} LiveConcat(a: seq<Segment>, b: seq<Segment>, at: Address)
    ensures Live(a + b, at) == Live(a, at) + Live(b, at + FullSum(a))
  {
    if a == [] {
      assert a + b == b;
    } else {
      var next := at + a[0].FullSize();
      assert (a + b)[0] == a[0];
      assert (a + b)[1..] == a[1..] + b;
      LiveConcat(a[1..], b, next);
      LiveKeys(b, next + FullSum(a[1..]));
      var left: map<Address, nat>, right: map<Address, nat> := Live(a[1..], next), Live(b, next + FullSum(a[1..]));
      if a[0].status == Allocated {
        var x: Address := at + SegmentBytes;
        assert x !in right;
        assert (left + right)[x := a[0].size] == left[x := a[0].size] + right;
      }
    }
  }

  /** Replacing a run of segments by one of the same full size changes the
      live payloads of that run only. */
  lemma ReplaceLive(s: seq<Segment>, k: nat, n: nat, mid: seq<Segment>, at: Address)
    requires k + n <= |s| && FullSum(mid) == FullSum(s[k..k + n])
    ensures FullSum(Replace(s, k, n, mid)) == FullSum(s)
    ensures Live(Replace(s, k, n, mid), at)
         == (Live(s, at) - Live(s[k..k + n], at + FullSum(s[..k])).Keys) + Live(mid, at + FullSum(s[..k]))
  {
    var pre, old_mid, post := s[..k], s[k..k + n], s[k + n..];
    var a1 := at + FullSum(pre);
    var a2 := a1 + FullSum(mid);
    assert s == pre + old_mid + post;
    FullSumConcat(pre, old_mid);
    FullSumConcat(pre + old_mid, post);
    FullSumConcat(pre, mid);
    FullSumConcat(pre + mid, post);
    LiveConcat(pre, old_mid, at);
    LiveConcat(pre + old_mid, post, at);
    LiveConcat(pre, mid, at);
    LiveConcat(pre + mid, post, at);
    LiveKeys(pre, at);
    LiveKeys(old_mid, a1);
    LiveKeys(mid, a1);
    LiveKeys(post, a2);
    var P: map<Address, nat>, M: map<Address, nat> := Live(pre, at), Live(old_mid, a1);
    var M': map<Address, nat>, Q: map<Address, nat> := Live(mid, a1), Live(post, a2);
    assert Replace(s, k, n, mid) == pre + mid + post;
    assert Live(s, at) == P + M + Q;
    assert Live(Replace(s, k, n, mid), at) == P + M' + Q;
    MapSplice(P, M, M', Q, a1, a2);
  }

  /** Maps over three consecutive address ranges: exchanging the middle one
      is removing its keys and adding the new ones. */
  lemma MapSplice(P: map<Address, nat>, M: map<Address, nat>, M': map<Address, nat>, Q: map<Address, nat>,
                  a1: Address, a2: Address)
    requires forall p :: p in P ==> p <= a1
    requires forall p :: p in M ==> a1 < p <= a2
    requires forall p :: p in M' ==> a1 < p <= a2
    requires forall p :: p in Q ==> a2 < p
    ensures P + M' + Q == (P + M + Q - M.Keys) + M'
  {
  }

  lemma FullSumOne(x: Segment)
    ensures FullSum([x]) == x.FullSize()
  {
    assert [x][1..] == [];
  }

  lemma LiveOne(x: Segment, at: Address)
    ensures Live([x], at) == if x.status == Allocated then map[at + SegmentBytes := x.size] else map[]
  {
    assert [x][1..] == [];
  }

  lemma LiveTwo(x: Segment, y: Segment, at: Address)
    ensures FullSum([x, y]) == x.FullSize() + y.FullSize()
    ensures Live([x, y], at) == Live([x], at) + Live([y], at + x.FullSize())
  {
    assert [x] + [y] == [x, y];
    FullSumConcat([x], [y]);
    FullSumOne(x);
    FullSumOne(y);
    LiveConcat([x], [y], at);
  }

  /** The payload of segment k is live exactly when the segment is
      allocated, with the segment's size. */
  lemma LiveAt(s: seq<Segment>, at: Address, k: nat)
    requires k < |s|
    ensures PayloadAt(s, at, k) in Live(s, at) <==> s[k].status == Allocated
    ensures s[k].status == Allocated ==> Live(s, at)[PayloadAt(s, at, k)] == s[k].size
  {
    var pre, rest := s[..k], s[k..];
    var a1 := at + FullSum(pre);
    assert s == pre + rest;
    assert rest == [s[k]] + s[k + 1..];
    LiveConcat(pre, rest, at);
    LiveConcat([s[k]], s[k + 1..], a1);
    FullSumOne(s[k]);
    LiveOne(s[k], a1);
    LiveKeys(pre, at);
    LiveKeys(s[k + 1..], a1 + s[k].FullSize());
  }

  /** Every live payload is the payload of an allocated segment. */
  lemma {:induction false} LivePayloads(s: seq<Segment>, at: Address, p: Address)
    requires p in Live(s, at)
    ensures exists k :: 0 <= k < |s| && s[k].status == Allocated && PayloadAt(s, at, k) == p
  {
    if s[0].status == Allocated && p == at + SegmentBytes {
      assert s[..0] == [];
      assert PayloadAt(s, at, 0) == p;
    } else {
      var next := at + s[0].FullSize();
      LivePayloads(s[1..], next, p);
      var j :| 0 <= j < |s| - 1 && s[1..][j].status == Allocated && PayloadAt(s[1..], next, j) == p;
      assert s[..j + 1] == [s[0]] + s[1..][..j];
      FullSumConcat([s[0]], s[1..][..j]);
      FullSumOne(s[0]);
      assert PayloadAt(s, at, j + 1) == p;
    }
  }

  /** Segments all free hold no live payload. */
  lemma {:induction false} LiveNone(s: seq<Segment>, at: Address)
    ensures Live(s, at) == map[] <==> forall k :: 0 <= k < |s| ==> s[k].status == Free
  {
    if s != [] {
      LiveNone(s[1..], at + s[0].FullSize());
      assert forall k :: 1 <= k < |s| ==> s[k] == s[1..][k - 1];
      if s[0].status == Allocated {
        assert at + SegmentBytes in Live(s, at);
      }
    }
  }

  /** The payload address of segment k depends on the segments before it
      only. */
  lemma PayloadKept(s: seq<Segment>, t: seq<Segment>, at: Address, k: nat)
    requires k <= |s| && k <= |t| && s[..k] == t[..k]
    ensures PayloadAt(s, at, k) == PayloadAt(t, at, k)
  {
  }

  /** Setting the status of segment k: its payload becomes live or stops
      being live; nothing else changes. */
  lemma MarkLive(s: seq<Segment>, at: Address, k: nat, st: Status)
    requires k < |s|
    ensures FullSum(Replace(s, k, 1, [Segment(s[k].size, st)])) == FullSum(s)
    ensures PayloadAt(Replace(s, k, 1, [Segment(s[k].size, st)]), at, k) == PayloadAt(s, at, k)
    ensures Live(Replace(s, k, 1, [Segment(s[k].size, st)]), at)
         == if st == Allocated then Live(s, at)[PayloadAt(s, at, k) := s[k].size]
            else Live(s, at) - {PayloadAt(s, at, k)}
  {
    var x := Segment(s[k].size, st);
    var a1 := at + FullSum(s[..k]);
    assert s[k..k + 1] == [s[k]];
    FullSumOne(s[k]);
    FullSumOne(x);
    ReplaceLive(s, k, 1, [x], at);
    LiveOne(s[k], a1);
    LiveOne(x, a1);
    LiveAt(s, at, k);
    PayloadKept(s, Replace(s, k, 1, [x]), at, k);
  }

  /** Splitting segment k into an allocated segment of `need` bytes and a
      free remainder: the payload, live or not before, is live with `need`
      bytes; nothing else changes. */
  lemma SplitLive(s: seq<Segment>, at: Address, k: nat, need: nat)
    requires k < |s| && s[k].size >= need + SegmentBytes
    ensures var mid := [Segment(need, Allocated), Segment(s[k].size - need - SegmentBytes, Free)];
            FullSum(Replace(s, k, 1, mid)) == FullSum(s) &&
            PayloadAt(Replace(s, k, 1, mid), at, k) == PayloadAt(s, at, k) &&
            Live(Replace(s, k, 1, mid), at) == Live(s, at)[PayloadAt(s, at, k) := need]
  {
    var x, y := Segment(need, Allocated), Segment(s[k].size - need - SegmentBytes, Free);
    var a1 := at + FullSum(s[..k]);
    assert s[k..k + 1] == [s[k]];
    FullSumOne(s[k]);
    LiveTwo(x, y, a1);
    LiveOne(x, a1);
    LiveOne(y, a1 + x.FullSize());
    ReplaceLive(s, k, 1, [x, y], at);
    LiveOne(s[k], a1);
    PayloadKept(s, Replace(s, k, 1, [x, y]), at, k);
  }

  /** One segment spanning two neighbours, header of the second included. */
  function Merged(x: Segment, y: Segment, st: Status): (m: Segment)
    ensures m.FullSize() == x.FullSize() + y.FullSize() && m.status == st
  {
    Segment(x.size + SegmentBytes + y.size, st)
  }

  /** Merging segment k with the free segment after it into one segment of
      status `st`: a free pair stays without live payload, an allocated
      segment keeps its payload address with the merged size. */
  lemma MergeLive(s: seq<Segment>, at: Address, k: nat, st: Status)
    requires k + 1 < |s| && s[k + 1].status == Free && (st == Free ==> s[k].status == Free)
    ensures FullSum(Replace(s, k, 2, [Merged(s[k], s[k + 1], st)])) == FullSum(s)
    ensures PayloadAt(Replace(s, k, 2, [Merged(s[k], s[k + 1], st)]), at, k) == PayloadAt(s, at, k)
    ensures Live(Replace(s, k, 2, [Merged(s[k], s[k + 1], st)]), at)
         == if st == Allocated then Live(s, at)[PayloadAt(s, at, k) := Merged(s[k], s[k + 1], st).size]
            else Live(s, at)
  {
    var m := Merged(s[k], s[k + 1], st);
    var a1 := at + FullSum(s[..k]);
    assert s[k..k + 2] == [s[k], s[k + 1]];
    LiveTwo(s[k], s[k + 1], a1);
    LiveOne(s[k], a1);
    LiveOne(s[k + 1], a1 + s[k].FullSize());
    FullSumOne(m);
    ReplaceLive(s, k, 2, [m], at);
    LiveOne(m, a1);
    LiveAt(s, at, k);
    PayloadKept(s, Replace(s, k, 2, [m]), at, k);
  }

  /** Replacing a run of segments keeps neighbouring free segments apart
      when the new run does and its ends do not meet a free neighbour. */
  lemma NoAdjacentFreeReplace(s: seq<Segment>, k: nat, n: nat, mid: seq<Segment>)
    requires k + n <= |s| && NoAdjacentFree(s) && NoAdjacentFree(mid) && mid != []
    requires k > 0 && mid[0].status == Free ==> s[k - 1].status == Allocated
    requires k + n < |s| && mid[|mid| - 1].status == Free ==> s[k + n].status == Allocated
    ensures NoAdjacentFree(Replace(s, k, n, mid))
  {
    var t := Replace(s, k, n, mid);
    var e := k + |mid|;
    forall i | 0 <= i < |t| - 1
      ensures t[i].status == Allocated || t[i + 1].status == Allocated
    {
      if i + 1 < k {
        assert t[i] == s[i] && t[i + 1] == s[i + 1];
      } else if i + 1 == k {
        assert t[i] == s[k - 1] && t[i + 1] == mid[0];
      } else if i + 1 < e {
        assert t[i] == mid[i - k] && t[i + 1] == mid[i + 1 - k];
      } else if i + 1 == e {
        assert t[i] == mid[|mid| - 1] && t[i + 1] == s[k + n];
      } else {
        assert t[i] == s[i - |mid| + n] && t[i + 1] == s[i + 1 - |mid| + n];
      }
    }
  }

  /** With free segments never side by side, a chain of two or more holds
      an allocated segment. */
  lemma LongChainAllocates(s: seq<Segment>)
    requires NoAdjacentFree(s)
    ensures |s| > 1 ==> exists k :: 0 <= k < |s| && s[k].status == Allocated
  {
    if |s| > 1 {
      assert s[0].status == Allocated || s[1].status == Allocated;
    }
  }

  /** Every segment lies within the span of the chain. */
  lemma SegmentWithin(s: seq<Segment>, k: nat)
    requires k < |s|
    ensures s[k].FullSize() <= FullSum(s)
  {
    assert s == s[..k] + [s[k]] + s[k + 1..];
    FullSumConcat(s[..k] + [s[k]], s[k + 1..]);
    FullSumConcat(s[..k], [s[k]]);
    FullSumOne(s[k]);
  }

  /** Sums of whole blocks are whole blocks. */
  lemma WholeSum(a: nat, b: nat, block: nat)
    requires WholeBlocks(a, block) && WholeBlocks(b, block)
    ensures WholeBlocks(a + b, block)
  {
    var ma: nat :| a == ma * block;
    var mb: nat :| b == mb * block;
    assert a + b == (ma + mb) * block;
  }

  /** The alignment promise of the pool: when the block starts on a block
      boundary, the header is a whole number of blocks and so is every
      segment's payload, each payload starts on a block boundary. */
  lemma {:induction false} AlignedPayloads(s: seq<Segment>, at: Address, block: nat)
    requires WholeBlocks(SegmentBytes, block) && WholeBlocks(at, block)
    requires forall i :: 0 <= i < |s| ==> WholeBlocks(s[i].size, block)
    ensures forall p :: p in Live(s, at) ==> WholeBlocks(p, block)
  {
    if s != [] {
      WholeSum(at, SegmentBytes, block);
      WholeSum(at + SegmentBytes, s[0].size, block);
      assert at + s[0].FullSize() == at + SegmentBytes + s[0].size;
      AlignedPayloads(s[1..], at + s[0].FullSize(), block);
    }
  }

  /** Once nothing is live, a chain without neighbouring free segments is
      the single free segment it started as. */
  lemma EmptyIsOneSegment(s: seq<Segment>, at: Address)
    requires s != [] && NoAdjacentFree(s) && Live(s, at) == map[]
    ensures s == [NewSegment(FullSum(s))]
  {
    LiveNone(s, at);
    LongChainAllocates(s);
    FullSumOne(s[0]);
    assert s == [s[0]];
  }

  /** The first-fit choice: the first free segment with at least `need`
      bytes of payload, or |s| when there is none. */
  function FirstFit(s: seq<Segment>, need: nat): (r: nat)
    ensures r <= |s|
    ensures r < |s| ==> s[r].status == Free && s[r].size >= need
    ensures forall j :: 0 <= j < r ==> !(s[j].status == Free && s[j].size >= need)
  {
    if s == [] then 0
    else if s[0].status == Free && s[0].size >= need then 0
    else 1 + FirstFit(s[1..], need)
  }

  /* ---------- the pool ---------- */

  /**
   * fixed_pool over the block of `size` bytes at `memblock`, with memory
   * handed out in whole blocks of `block` bytes.
   */
  class FixedPool {
    const memblock: Address
    const size: nat
    const block: nat
    var segments: seq<Segment>

    /** The segments cover the block exactly. */
    ghost predicate Shaped()
      reads this
    {
      memblock != Null && block > 0 && segments != [] && FullSum(segments) == size
    }

    /** ...and no two free segments are left side by side. */
    ghost predicate Valid()
      reads this
    {
      Shaped() && NoAdjacentFree(segments)
    }

    /** The payloads handed out and not freed yet, with their sizes. */
    function Allocations(): map<Address, nat>
      reads this
    {
      Live(segments, memblock)
    }

    /** fixed_pool(memblock, size): one free segment spanning the block. */
    constructor (memblock: Address, size: nat, block: nat)
      requires memblock != Null && size >= SegmentBytes && block > 0
      ensures Valid()
      ensures this.memblock == memblock && this.size == size && this.block == block
      ensures segments == [NewSegment(size)] && Allocations() == map[]
    {
      this.memblock := memblock;
      this.size := size;
      this.block := block;
      segments := [NewSegment(size)];
      new;
      FullSumOne(NewSegment(size));
      LiveOne(NewSegment(size), memblock);
    }

    /** find_segment_for(): the allocated segment whose payload is `ptr`;
        `found` is false where the pool throws. */
    method FindSegmentFor(ptr: Address) returns (found: bool, k: nat)
      requires Shaped()
      ensures found <==> ptr in Allocations()
      ensures found ==> k < |segments| && segments[k].status == Allocated
      ensures found ==> PayloadAt(segments, memblock, k) == ptr && Allocations()[ptr] == segments[k].size
    {
      k := 0;
      var addr := memblock;
      while k < |segments|
        invariant k <= |segments| && addr == memblock + FullSum(segments[..k])
        invariant forall j :: 0 <= j < k ==>
                    !(segments[j].status == Allocated && PayloadAt(segments, memblock, j) == ptr)
      {
        if segments[k].status == Allocated && addr + SegmentBytes == ptr {
          found := true;
          LiveAt(segments, memblock, k);
          return;
        }
        assert segments[..k + 1] == segments[..k] + [segments[k]];
        FullSumConcat(segments[..k], [segments[k]]);
        FullSumOne(segments[k]);
        addr := addr + segments[k].FullSize();
        k := k + 1;
      }
      found := false;
      if ptr in Allocations() {
        LivePayloads(segments, memblock, ptr);
      }
    }

    /** The first-fit search of allocate_segment(). */
    method FindFree(need: nat) returns (k: nat)
      ensures k == FirstFit(segments, need)
    {
      k := 0;
      while k < |segments| && !(segments[k].status == Status.Free && segments[k].size >= need)
        invariant k <= |segments|
        invariant forall j :: 0 <= j < k ==> !(segments[j].status == Status.Free && segments[j].size >= need)
      {
        k := k + 1;
      }
    }

    /** The rest of allocate_segment(): free segment k becomes allocated,
        split when it is large enough that the remainder still holds a
        header and a block of payload. */
    method AllocateSegment(k: nat, need: nat) returns (granted: nat)
      requires Valid() && k < |segments| && segments[k].status == Status.Free && segments[k].size >= need
      modifies this
      ensures Valid()
      ensures granted >= need
      ensures PayloadAt(old(segments), memblock, k) !in old(Allocations())
      ensures Allocations() == old(Allocations())[PayloadAt(old(segments), memblock, k) := granted]
      ensures segments == Replace(old(segments), k, 1, Carve(old(segments)[k], need, block))
      ensures granted == Carve(old(segments)[k], need, block)[0].size
    {
      var s := segments;
      var mid := Carve(s[k], need, block);
      LiveAt(s, memblock, k);
      if Splits(s[k], need, block) {
        SplitLive(s, memblock, k, need);
      } else {
        MarkLive(s, memblock, k, Allocated);
      }
      NoAdjacentFreeReplace(s, k, 1, mid);
      segments := Replace(s, k, 1, mid);
      granted := mid[0].size;
    }

    /** defragment_free_list(): merges every run of free neighbours into
        one free segment. */
    method DefragmentFreeList()
      requires Shaped()
      modifies this
      ensures Valid()
      ensures Allocations() == old(Allocations())
    {
      var i := 0;
      while i + 1 < |segments|
        invariant Shaped() && i < |segments|
        invariant Allocations() == old(Allocations())
        invariant forall j :: 0 <= j < i ==>
                    segments[j].status == Allocated || segments[j + 1].status == Allocated
        decreases |segments| - i
      {
        var s := segments;
        if s[i].status == Status.Free && s[i + 1].status == Status.Free {
          MergeLive(s, memblock, i, Status.Free);
          segments := Replace(s, i, 2, [Merged(s[i], s[i + 1], Status.Free)]);
          assert forall j :: 0 <= j < i ==> segments[j] == s[j];
          assert segments[i].status == Status.Free;
        } else {
          i := i + 1;
        }
      }
    }

    /** Marks allocated segment k free and defragments. */
    method Release(k: nat)
      requires Valid() && k < |segments| && segments[k].status == Allocated
      modifies this
      ensures Valid()
      ensures Allocations() == old(Allocations()) - {PayloadAt(old(segments), memblock, k)}
    {
      var s := segments;
      MarkLive(s, memblock, k, Status.Free);
      segments := Replace(s, k, 1, [Segment(s[k].size, Status.Free)]);
      DefragmentFreeList();
    }

    /** alloc(): NULL for a size of zero or when no free segment holds the
        size rounded up to whole blocks (the pool never grows); otherwise the
        payload of the first free segment that does, which becomes live with
        at least `size` bytes. */
    method Alloc(size: nat) returns (p: Address)
      requires Valid()
      modifies this
      ensures Valid()
      ensures p == Null <==> size == 0 || FirstFit(old(segments), AdjustSize(size, block)) == |old(segments)|
      ensures p == Null ==> segments == old(segments)
      ensures p != Null ==> p == PayloadAt(old(segments), memblock, FirstFit(old(segments), AdjustSize(size, block)))
      ensures p != Null ==> p !in old(Allocations()) && p in Allocations() && Allocations()[p] >= size
      ensures p != Null ==> Allocations() == old(Allocations())[p := Allocations()[p]]
      ensures p != Null ==>
                var k := FirstFit(old(segments), AdjustSize(size, block));
                segments == Replace(old(segments), k, 1, Carve(old(segments)[k], AdjustSize(size, block), block))
    {
      if size == 0 {
        return Null;
      }
      var need := AdjustSize(size, block);
      var k := FindFree(need);
      if k == |segments| {
        return Null;
      }
      p := PayloadAt(segments, memblock, k);
      var granted := AllocateSegment(k, need);
    }

    /** free(): a no-op for NULL; otherwise the segment holding `ptr` turns
        free and merges with free neighbours.  `ok` is false where the pool
        throws, for a pointer it did not hand out, and nothing changes. */
    method Free(ptr: Address) returns (ok: bool)
      requires Valid()
      modifies this
      ensures Valid()
      ensures ok <==> ptr == Null || ptr in old(Allocations())
      ensures Allocations() == old(Allocations()) - {ptr}
      ensures !ok || ptr == Null ==> segments == old(segments)
    {
      if ptr == Null {
        LiveKeys(segments, memblock);
        return true;
      }
      var k;
      ok, k := FindSegmentFor(ptr);
      if ok {
        Release(k);
      }
    }

    /** Resizes allocated segment k in place to `need` bytes, splitting off
        a free remainder when it is large enough. */
    method Shrink(k: nat, need: nat) returns (granted: nat)
      requires Valid() && k < |segments| && segments[k].status == Allocated && need <= segments[k].size
      modifies this
      ensures Valid()
      ensures granted >= need
      ensures Allocations() == old(Allocations())[PayloadAt(old(segments), memblock, k) := granted]
    {
      var s := segments;
      LiveAt(s, memblock, k);
      if Splits(s[k], need, block) {
        SplitLive(s, memblock, k, need);
        segments := Replace(s, k, 1, [Segment(need, Allocated), Segment(s[k].size - need - SegmentBytes, Status.Free)]);
        DefragmentFreeList();
        granted := need;
      } else {
        granted := s[k].size;
        assert Allocations() == old(Allocations())[PayloadAt(s, memblock, k) := granted];
      }
    }

    /** Grows allocated segment k into the free segment after it, then
        splits off what `need` leaves over when it is large enough. */
    method Grow(k: nat, need: nat) returns (granted: nat)
      requires Valid() && k + 1 < |segments| && segments[k].status == Allocated
      requires segments[k + 1].status == Status.Free && Merged(segments[k], segments[k + 1], Allocated).size >= need
      modifies this
      ensures Valid()
      ensures granted >= need
      ensures Allocations() == old(Allocations())[PayloadAt(old(segments), memblock, k) := granted]
    {
      var s := segments;
      var m := Merged(s[k], s[k + 1], Allocated);
      MergeLive(s, memblock, k, Allocated);
      var t := Replace(s, k, 2, [m]);
      segments := t;
      granted := m.size;
      if Splits(m, need, block) {
        SplitLive(t, memblock, k, need);
        segments := Replace(t, k, 1, [Segment(need, Allocated), Segment(m.size - need - SegmentBytes, Status.Free)]);
        granted := need;
      }
      DefragmentFreeList();
    }

    /** realloc(): NULL for a new size of zero, for a pointer the pool did
        not hand out (`ok` false, where the pool throws) and when no room is
        left, and then nothing changes.  Otherwise the block is resized in
        place when its segment holds the rounded-up size (splitting off the
        rest), or grows into a free neighbour when that is enough; failing
        both it moves to a newly allocated segment and the old one is freed. */
    method Realloc(ptr: Address, newSize: nat) returns (ok: bool, p: Address)
      requires Valid()
      modifies this
      ensures Valid()
      ensures ok <==> ptr in old(Allocations())
      ensures p == Null ==> segments == old(segments)
      ensures p != Null ==> ok && newSize > 0
      ensures ok && newSize > 0 && p == Null ==>
                old(Allocations())[ptr] < AdjustSize(newSize, block) &&
                FirstFit(old(segments), AdjustSize(newSize, block)) == |old(segments)|
      ensures p != Null ==> (p == ptr || p !in old(Allocations())) && p in Allocations() && Allocations()[p] >= newSize
      ensures p != Null ==> Allocations() == (old(Allocations()) - {ptr})[p := Allocations()[p]]
    {
      var k;
      ok, k := FindSegmentFor(ptr);
      if !ok || newSize == 0 {
        return ok, Null;
      }
      var need := AdjustSize(newSize, block);
      var s := segments;
      if need <= s[k].size {
        var granted := Shrink(k, need);
        return ok, ptr;
      }
      if k + 1 < |s| && s[k + 1].status == Status.Free && Merged(s[k], s[k + 1], Allocated).size >= need {
        var granted := Grow(k, need);
        return ok, ptr;
      }
      // move: allocate elsewhere, then free the old segment
      p := Alloc(newSize);
      if p != Null {
        var found, j := FindSegmentFor(ptr);
        Release(j);
      }
    }

    /** in_use(): whether some segment is allocated. */
    method InUse() returns (r: bool)
      requires Shaped()
      ensures r <==> Allocations() != map[]
    {
      LiveNone(segments, memblock);
      var k := 0;
      while k < |segments|
        invariant k <= |segments|
        invariant forall j :: 0 <= j < k ==> segments[j].status == Status.Free
      {
        if segments[k].status == Allocated {
          return true;
        }
        k := k + 1;
      }
      return false;
    }

    /** alloc_size(): the payload size of the segment holding `ptr`; `ok` is
        false where the pool throws, and the size is then zero, the answer
        the MemoryPool contract gives for a pointer a pool does not hold. */
    method AllocSize(ptr: Address) returns (ok: bool, n: nat)
      requires Shaped()
      ensures ok <==> ptr in Allocations()
      ensures ok ==> n == Allocations()[ptr]
      ensures !ok ==> n == 0
    {
      n := 0;
      var k;
      ok, k := FindSegmentFor(ptr);
      if ok {
        n := segments[k].size;
      }
    }
  }

  /**
   * A pool over 1024 bytes: a first allocation of 100 bytes succeeds, one of
   * 2000 bytes cannot, and once the first is freed the pool is out of use
   * and back to a single free segment spanning the block.
   */
  method Scenario() returns (p1: Address, p2: Address, busy: bool, after: seq<Segment>)
    ensures p1 != Null && p2 == Null && !busy
    ensures after == [Segment(1024 - SegmentBytes, Free)]
  {
    var pool := new FixedPool(4096, 1024, 8);
    p1 := pool.Alloc(100);
    ghost var one := pool.Allocations();
    assert one.Keys == {p1};
    forall k | 0 <= k < |pool.segments|
      ensures pool.segments[k].size < AdjustSize(2000, 8)
    {
      SegmentWithin(pool.segments, k);
    }
    p2 := pool.Alloc(2000);
    var ok := pool.Free(p1);
    assert pool.Allocations().Keys == {};
    busy := pool.InUse();
    after := pool.segments;
    EmptyIsOneSegment(after, pool.memblock);
  }

  /**
   * Two allocations freed in either order leave no fragmentation behind:
   * the pool is back to a single free segment spanning the block.
   */
  method Coalesce(freeFirstFirst: bool) returns (p1: Address, p2: Address, after: seq<Segment>)
    ensures p1 != Null && p2 != Null && p1 != p2
    ensures after == [Segment(1024 - SegmentBytes, Free)]
  {
    var pool := new FixedPool(4096, 1024, 8);
    p1 := pool.Alloc(100);
    assert pool.segments == [Segment(104, Allocated), Segment(872, Free)];
    p2 := pool.Alloc(200);
    ghost var both := pool.Allocations();
    assert both.Keys <= {p1, p2};
    var ok1, ok2;
    if freeFirstFirst {
      ok1 := pool.Free(p1);
      ok2 := pool.Free(p2);
    } else {
      ok2 := pool.Free(p2);
      ok1 := pool.Free(p1);
    }
    assert pool.Allocations().Keys == {};
    after := pool.segments;
    EmptyIsOneSegment(after, pool.memblock);
  }
}
