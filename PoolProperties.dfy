/** What the pooled allocator promises, stated over the specification
    functions of `PoolAlloc` (each one is what the corresponding method of
    `DefaultAlloc` is proved to do). */
module PoolProperties {
  import opened SizeClass
  import opened SystemAlloc
  import opened PoolAlloc

  /** A request over 128 bytes goes straight to `malloc_alloc` and leaves
      every free list, the arena and `heap_size` as they were
      (alloc.h:149-151). */
  lemma AllocateLargeBypassesPool(p: Pool, n: nat)
    requires PoolValid(p) && n > MaxBytes
    ensures var (p', r) := AllocateSpec(p, n);
      && p'.lists == p.lists && p'.startFree == p.startFree && p'.endFree == p.endFree
      && p'.heapSize == p.heapSize
      && (p'.sys, r) == MallocAllocate(p.sys, n)
  {
  }

  /** Likewise a release of over 128 bytes goes to `malloc_alloc::deallocate`
      (alloc.h:168-171). */
  lemma DeallocateLargeBypassesPool(p: Pool, q: int, n: nat)
    requires PoolValid(p) && q > 0 && n > MaxBytes
    ensures var p' := DeallocateSpec(p, q, n);
      && p'.lists == p.lists && p'.startFree == p.startFree && p'.endFree == p.endFree
      && p'.heapSize == p.heapSize && p'.sys == SystemFree(p.sys, n)
  {
  }

  /** A small request served from a non-empty list pops its head; no other
      list, nor the arena, changes (alloc.h:152-159). */
  lemma AllocatePopsHead(p: Pool, n: nat)
    requires PoolValid(p) && 1 <= n <= MaxBytes && p.lists[FreeListIndex(n)] != []
    ensures var i := FreeListIndex(n);
      var (p', r) := AllocateSpec(p, n);
      && r == Ptr(p.lists[i][0])
      && p'.lists[i] == p.lists[i][1..]
      && (forall k | 0 <= k < NFreeLists && k != i :: p'.lists[k] == p.lists[k])
      && p'.startFree == p.startFree && p'.endFree == p.endFree
      && p'.heapSize == p.heapSize && p'.sys == p.sys
  {
  }

  /** A small release pushes the block on the head of its class's list
      (alloc.h:172-174). */
  lemma DeallocatePushesHead(p: Pool, q: int, n: nat)
    requires PoolValid(p) && q > 0 && 1 <= n <= MaxBytes
    ensures var i := FreeListIndex(n);
      var p' := DeallocateSpec(p, q, n);
      && p'.lists[i] == [q] + p.lists[i]
      && (forall k | 0 <= k < NFreeLists && k != i :: p'.lists[k] == p.lists[k])
      && p'.startFree == p.startFree && p'.endFree == p.endFree
      && p'.heapSize == p.heapSize && p'.sys == p.sys
  {
  }

  /** Free lists are last-in first-out: releasing a small block and asking
      again for the same size gives back that block, and the allocator is
      exactly as it was before the release. */
  lemma DeallocateThenAllocate(p: Pool, q: int, n: nat)
    requires PoolValid(p) && q > 0 && 1 <= n <= MaxBytes
    ensures AllocateSpec(DeallocateSpec(p, q, n), n) == (p, Ptr(q))
  {
    var i := FreeListIndex(n);
    var p1 := DeallocateSpec(p, q, n);
    assert p1.lists[i] == [q] + p.lists[i];
    assert p1.lists[i := p1.lists[i][1..]] == p.lists;
  }

  /** The other direction: a block handed out from a non-empty free list
      and released again with the same size leaves the allocator as it was. */
  lemma AllocateThenDeallocate(p: Pool, n: nat)
    requires PoolValid(p) && 1 <= n <= MaxBytes && p.lists[FreeListIndex(n)] != []
    ensures var (p1, r) := AllocateSpec(p, n);
      r.Ptr? && r.addr > 0 && DeallocateSpec(p1, r.addr, n) == p
  {
    var i := FreeListIndex(n);
    assert [p.lists[i][0]] + p.lists[i][1..] == p.lists[i];
    assert p.lists[i := p.lists[i][1..]][i := p.lists[i]] == p.lists;
  }

  /** First branch of `chunk_alloc` (alloc.h:216-220): enough room for the
      whole batch. The old arena start is returned, the arena shrinks by
      exactly `size * nobjs` and `nobjs` is kept. */
  lemma ChunkFullBatch(p: Pool, size: nat, nobjs: nat)
    requires PoolValid(p) && size % Align == 0 && Align <= size <= MaxBytes && nobjs >= 1
    requires BytesLeft(p) >= size * nobjs
    ensures ChunkAllocSpec(p, size, nobjs) == Chunk(p.(startFree := p.startFree + size * nobjs), Ptr(p.startFree), nobjs)
  {
  }

  /** Second branch (alloc.h:221-227): room for at least one block but not
      all of them. `nobjs` drops to the number of whole blocks that fit,
      which is at least one and less than asked for. */
  lemma ChunkPartialBatch(p: Pool, size: nat, nobjs: nat)
    requires PoolValid(p) && size % Align == 0 && Align <= size <= MaxBytes && nobjs >= 1
    requires size <= BytesLeft(p) < size * nobjs
    ensures var c := ChunkAllocSpec(p, size, nobjs);
      && c.out == Ptr(p.startFree)
      && c.nobjs == BytesLeft(p) / size && 1 <= c.nobjs < nobjs
      && c.pool == p.(startFree := p.startFree + size * c.nobjs)
      && BytesLeft(c.pool) < size
  {
    PartialBatch(BytesLeft(p), size, nobjs);
    var n := BytesLeft(p) / size;
    assert BytesLeft(p) == size * n + BytesLeft(p) % size;
  }

  /** Growth when the system can supply memory (alloc.h:228-239, 260-266),
      as written: the leftover is salvaged, `bytes_to_get` is computed from
      the batch and `heap_size`, and the system is asked TWICE for it, once
      by `std::malloc` at line 239, whose block is then overwritten and lost,
      and once by `malloc_alloc::allocate` at line 262. Only the second block
      becomes the arena and only one of them is counted in `heap_size`. The
      retry then takes the whole batch from the new arena. */
  lemma ChunkGrowthFromSystem(p: Pool, size: nat, nobjs: nat)
    requires PoolValid(p) && size % Align == 0 && Align <= size <= MaxBytes && nobjs >= 1
    requires BytesLeft(p) < size
    requires 2 * BytesToGet(size * nobjs, p.heapSize) <= p.sys.avail
    ensures var b := BytesToGet(size * nobjs, p.heapSize);
      var c := ChunkAllocSpec(p, size, nobjs);
      && c.out == Ptr(p.sys.top + b) && c.nobjs == nobjs
      && c.pool.lists == Salvage(p).lists
      && c.pool.heapSize == p.heapSize + b
      && c.pool.startFree == p.sys.top + b + size * nobjs
      && c.pool.endFree == p.sys.top + 2 * b
      // two blocks of b bytes were taken from the system; the first one,
      // [p.sys.top, p.sys.top + b), is neither the arena nor on a free list
      && c.pool.sys.top == p.sys.top + 2 * b
      && c.pool.sys.avail == p.sys.avail - 2 * b
  {
    var total := size * nobjs;
    MulAligned(size, nobjs);
    MulMono(size, 1, nobjs);
    var b := BytesToGet(total, p.heapSize);
    var q := Salvage(p);
    var g := Grow(p, size, total);
    assert g == Retry(Pool(q.lists, p.sys.top + b, p.sys.top + 2 * b, p.heapSize + b, g.pool.sys));
  }

  /** Because of the double request, growth fails when the system has at
      least `bytes_to_get` bytes but fewer than twice that, even though one
      request would have been enough. */
  lemma ChunkGrowthNeedsTwice(p: Pool, size: nat, nobjs: nat)
    requires PoolValid(p) && size % Align == 0 && Align <= size <= MaxBytes && nobjs >= 1
    requires BytesLeft(p) < size
    requires BytesToGet(size * nobjs, p.heapSize) <= p.sys.avail < 2 * BytesToGet(size * nobjs, p.heapSize)
    ensures ChunkAllocSpec(p, size, nobjs).out == OomOutcome(p.sys)
  {
    var total := size * nobjs;
    MulAligned(size, nobjs);
    MulMono(size, 1, nobjs);
    assert Grow(p, size, total).Failed?;
  }

  /** Lines 240-257 of `chunk_alloc` on their own: when the system refuses,
      the first non-empty list of a class at least as large as `size` gives
      up its head block, which becomes the whole arena. */
  lemma GrowFromLargerClass(p: Pool, size: nat, total: nat)
    requires PoolValid(p) && size % Align == 0 && Align <= size <= MaxBytes
    requires total >= size && total % Align == 0
    requires BytesLeft(p) < size
    requires p.sys.avail < BytesToGet(total, p.heapSize)
    requires FirstNonEmpty(p.lists, FreeListIndex(size)) < NFreeLists
    ensures var j := FirstNonEmpty(p.lists, FreeListIndex(size));
      var blk := p.lists[j][0];
      && size <= ClassSize(j)
      && Grow(p, size, total)
         == Retry(Pool(Salvage(p).lists[j := p.lists[j][1..]], blk, blk + ClassSize(j), p.heapSize, p.sys))
  {
    var q := Salvage(p);
    var j := FirstNonEmpty(p.lists, FreeListIndex(size));
    // the salvaged leftover goes to a class smaller than `size`
    assert BytesLeft(p) > 0 ==> FreeListIndex(BytesLeft(p)) < FreeListIndex(size);
    assert forall k | FreeListIndex(size) <= k < NFreeLists :: q.lists[k] == p.lists[k];
    FirstNonEmptySame(q.lists, p.lists, FreeListIndex(size));
    ReplaceFromLargerClass(q, size, BytesToGet(total, p.heapSize));
  }

  /** `Replace` when the system refuses and a class at least as large as
      `size` has a free block: that block becomes the arena. */
  lemma ReplaceFromLargerClass(q: Pool, size: nat, bytesToGet: nat)
    requires PoolValid(q) && size % Align == 0 && Align <= size <= MaxBytes
    requires bytesToGet >= size && bytesToGet % Align == 0
    requires q.sys.avail < bytesToGet
    requires FirstNonEmpty(q.lists, FreeListIndex(size)) < NFreeLists
    ensures var j := FirstNonEmpty(q.lists, FreeListIndex(size));
      && size <= ClassSize(j)
      && Replace(q, size, bytesToGet)
         == Retry(Pool(q.lists[j := q.lists[j][1..]], q.lists[j][0], q.lists[j][0] + ClassSize(j), q.heapSize, q.sys))
  {
    var j := FirstNonEmpty(q.lists, FreeListIndex(size));
    assert ClassSize(j) >= ClassSize(FreeListIndex(size)) == size;
  }

  /** Growth when the system refuses, through the retry: at least one block
      is carved from the borrowed block, and exactly as many as fit in it
      when the whole batch does not (alloc.h:240-257, then 216-227). */
  lemma ChunkGrowthFromLargerClass(p: Pool, size: nat, nobjs: nat)
    requires PoolValid(p) && size % Align == 0 && Align <= size <= MaxBytes && nobjs >= 1
    requires BytesLeft(p) < size
    requires p.sys.avail < BytesToGet(size * nobjs, p.heapSize)
    requires FirstNonEmpty(p.lists, FreeListIndex(size)) < NFreeLists
    ensures var j := FirstNonEmpty(p.lists, FreeListIndex(size));
      var c := ChunkAllocSpec(p, size, nobjs);
      && c.out == Ptr(p.lists[j][0])
      && c.nobjs == (if ClassSize(j) >= size * nobjs then nobjs else ClassSize(j) / size)
      && 1 <= c.nobjs <= nobjs
      && c.pool.lists == Salvage(p).lists[j := p.lists[j][1..]]
      && c.pool.endFree == p.lists[j][0] + ClassSize(j)
      && c.pool.heapSize == p.heapSize && c.pool.sys == p.sys
  {
    var total := size * nobjs;
    MulAligned(size, nobjs);
    MulMono(size, 1, nobjs);
    var j := FirstNonEmpty(p.lists, FreeListIndex(size));
    GrowFromLargerClass(p, size, total);
    var arena := Grow(p, size, total).pool;
    ChunkRetries(p, size, nobjs);
    assert BytesLeft(arena) == ClassSize(j);
    if ClassSize(j) >= total {
      ChunkFullBatch(arena, size, nobjs);
    } else {
      ChunkPartialBatch(arena, size, nobjs);
    }
  }

  /** When the arena is too small, `chunk_alloc` grows it and, if that
      worked, calls itself again on the grown arena (alloc.h:228-266). */
  lemma ChunkRetries(p: Pool, size: nat, nobjs: nat)
    requires PoolValid(p) && size % Align == 0 && Align <= size <= MaxBytes && nobjs >= 1
    requires BytesLeft(p) < size
    ensures size * nobjs >= size && (size * nobjs) % Align == 0
    ensures var g := Grow(p, size, size * nobjs);
      ChunkAllocSpec(p, size, nobjs)
      == if g.Retry? then ChunkAllocSpec(g.pool, size, nobjs) else Chunk(g.pool, g.out, nobjs)
  {
    MulAligned(size, nobjs);
    MulMono(size, 1, nobjs);
  }

  /** The scan depends only on the lists it looks at. */
  lemma {:induction false} FirstNonEmptySame(a: seq<seq<int>>, b: seq<seq<int>>, from: nat)
    requires |a| == |b| == NFreeLists && from <= NFreeLists
    requires forall k | from <= k < NFreeLists :: a[k] == b[k]
    ensures FirstNonEmpty(a, from) == FirstNonEmpty(b, from)
    decreases NFreeLists - from
  {
    if from < NFreeLists && a[from] == [] {
      FirstNonEmptySame(a, b, from + 1);
    }
  }

  /** When neither the system nor any free list of a large enough class can
      supply memory, `chunk_alloc` ends in `oom_malloc` (alloc.h:259-263). */
  lemma ChunkExhausted(p: Pool, size: nat, nobjs: nat)
    requires PoolValid(p) && size % Align == 0 && Align <= size <= MaxBytes && nobjs >= 1
    requires BytesLeft(p) < size
    requires p.sys.avail < BytesToGet(size * nobjs, p.heapSize)
    requires forall k | FreeListIndex(size) <= k < NFreeLists :: p.lists[k] == []
    ensures ChunkAllocSpec(p, size, nobjs).out == OomOutcome(p.sys)
  {
    var total := size * nobjs;
    MulAligned(size, nobjs);
    MulMono(size, 1, nobjs);
    var q := Salvage(p);
    assert BytesLeft(p) > 0 ==> FreeListIndex(BytesLeft(p)) < FreeListIndex(size);
    assert forall k | FreeListIndex(size) <= k < NFreeLists :: q.lists[k] == [];
    assert FirstNonEmpty(q.lists, FreeListIndex(size)) == NFreeLists;
  }

  /** `refill` (alloc.h:183-206): a batch of one is handed out and no list
      is touched beyond what `chunk_alloc` did; a larger batch hands out its
      first block and the list of class `n` becomes the rest of the batch,
      in address order, ending the list. */
  lemma RefillThreadsBatch(p: Pool, n: nat)
    requires PoolValid(p) && n % Align == 0 && Align <= n <= MaxBytes
    ensures var c := ChunkAllocSpec(p, n, BatchSize);
      var (p', r) := RefillSpec(p, n);
      && r == c.out
      && (r.Ptr? && c.nobjs == 1 ==> p' == c.pool)
      && (r.Ptr? && c.nobjs > 1 ==>
            && p'.lists[FreeListIndex(n)] == Batch(r.addr, n, c.nobjs)
            && |p'.lists[FreeListIndex(n)]| == c.nobjs - 1
            && (forall k | 0 <= k < NFreeLists && k != FreeListIndex(n) :: p'.lists[k] == c.pool.lists[k])
            && p'.startFree == c.pool.startFree && p'.endFree == c.pool.endFree)
  {
  }

  /** The blocks of a batch lie end to end inside the carved region and are
      pairwise distinct: the region `[chunk, chunk + count * n)` is cut into
      `count` blocks of `n` bytes, the first handed out, the others listed. */
  lemma BatchWithinRegion(chunk: int, n: nat, count: nat)
    requires count >= 1 && n >= 1
    ensures var b := Batch(chunk, n, count);
      && (forall k | 0 <= k < |b| :: chunk + n <= b[k] && b[k] + n <= chunk + count * n)
      && (forall k, l | 0 <= k < l < |b| :: b[k] + n <= b[l])
  {
    var b := Batch(chunk, n, count);
    forall k | 0 <= k < |b|
      ensures chunk + n <= b[k] && b[k] + n <= chunk + count * n
    {
      BlockEnd(chunk, n, k + 1);
      MulMono(n, 1, k + 1);
      MulMono(n, k + 2, count);
    }
    forall k, l | 0 <= k < l < |b|
      ensures b[k] + n <= b[l]
    {
      BlockEnd(chunk, n, k + 1);
      MulMono(n, k + 2, l + 1);
    }
  }

  /** Block `k` of a region of `n`-byte blocks ends where block `k + 1`
      starts. */
  lemma BlockEnd(chunk: int, n: nat, k: nat)
    ensures chunk + k * n + n == chunk + (k + 1) * n
  {
  }

  /** The first `allocate(8)` of a program (alloc.h:143-268 end to end):
      `chunk_alloc` finds an empty arena, asks for
      `2 * 160 + ROUND_UP(0 >> 4) = 320` bytes, sets `heap_size` to 320,
      retries and carves 20 blocks of 8 bytes; `refill` returns the first
      and links the other 19 into list 0; 160 bytes remain in the arena.
      The arena is the SECOND 320-byte block the system handed out. */
  lemma FirstAllocate8(base: int, supply: nat)
    requires base > 0 && supply >= 640
    ensures var (p, r) := AllocateSpec(InitialPool(InitialSys(base, supply)), 8);
      && r == Ptr(base + 320)
      && p.heapSize == 320
      && p.lists[0] == Batch(base + 320, 8, 20) && |p.lists[0]| == 19
      && (forall i | 1 <= i < NFreeLists :: p.lists[i] == [])
      && p.startFree == base + 480 && BytesLeft(p) == 160
      && p.sys.top == base + 640
  {
    var p0 := InitialPool(InitialSys(base, supply));
    assert FreeListIndex(8) == 0 && RoundUp(8) == 8;
    assert BytesToGet(160, 0) == 320;
    var g := Grow(p0, 8, 160);
    assert Salvage(p0) == p0;
    assert g == Retry(Pool(p0.lists, base + 320, base + 640, 320, Sys(base + 640, supply - 640, 0)));
    assert ChunkAllocSpec(p0, 8, 20) == ChunkAllocSpec(g.pool, 8, 20);
    ChunkFullBatch(g.pool, 8, 20);
  }
}
