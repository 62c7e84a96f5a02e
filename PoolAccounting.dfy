/** Byte accounting of the pooled allocator, and what a run of small
    requests does to it.

    Every byte that `chunk_alloc` obtains through `malloc_alloc::allocate`
    is added to `heap_size` (alloc.h:262-264). From then on it is in one of
    three places: in a block on a free list, in the arena
    `[start_free, end_free)`, or in a small block the program holds. Each
    operation moves bytes between these places and creates none, so the
    small blocks the program holds never add up to more than `heap_size`.
    (The block that `std::malloc` returns at line 239 is dropped: it is
    neither counted in `heap_size` nor held anywhere; see
    `PoolProperties.ChunkGrowthFromSystem`.) */
module PoolAccounting {
  import opened SizeClass
  import opened SystemAlloc
  import opened PoolAlloc
  import opened PoolProperties

  /** The bytes in the blocks on the free lists; list `i` holds blocks of
      `ClassSize(i)` bytes. */
  function ListBytes(lists: seq<seq<int>>): nat
    requires |lists| == NFreeLists
  {
    BytesFrom(lists, 0)
  }

  /** The bytes in the blocks of lists `i` to 15. */
  function BytesFrom(lists: seq<seq<int>>, i: nat): nat
    requires i <= |lists| <= NFreeLists
    decreases |lists| - i
  {
    if i == |lists| then 0 else |lists[i]| * ClassSize(i) + BytesFrom(lists, i + 1)
  }

  /** The bytes the allocator holds itself: its free lists and its arena. */
  function Held(p: Pool): int
    requires |p.lists| == NFreeLists
  {
    ListBytes(p.lists) + BytesLeft(p)
  }

  /** Replacing free list `j` by `l` changes the listed bytes by the
      difference in block count, times the class size. */
  lemma ListBytesUpdate(lists: seq<seq<int>>, j: nat, l: seq<int>)
    requires |lists| == NFreeLists && j < NFreeLists
    ensures ListBytes(lists[j := l]) + |lists[j]| * ClassSize(j) == ListBytes(lists) + |l| * ClassSize(j)
  {
    BytesFromUpdate(lists, j, l, 0);
  }

  lemma {:induction false} BytesFromUpdate(lists: seq<seq<int>>, j: nat, l: seq<int>, i: nat)
    requires |lists| == NFreeLists && i <= j < NFreeLists
    ensures BytesFrom(lists[j := l], i) + |lists[j]| * ClassSize(j) == BytesFrom(lists, i) + |l| * ClassSize(j)
    decreases NFreeLists - i
  {
    if i == j {
      BytesFromAbove(lists, j, l, i + 1);
    } else {
      BytesFromUpdate(lists, j, l, i + 1);
    }
  }

  /** Lists above `j` are not affected by replacing list `j`. */
  lemma {:induction false} BytesFromAbove(lists: seq<seq<int>>, j: nat, l: seq<int>, i: nat)
    requires |lists| == NFreeLists && j < i <= NFreeLists
    ensures BytesFrom(lists[j := l], i) == BytesFrom(lists, i)
    decreases NFreeLists - i
  {
    if i < NFreeLists {
      BytesFromAbove(lists, j, l, i + 1);
    }
  }

  /** Unlinking the head of list `j` takes one block of its class. */
  lemma ListBytesPop(lists: seq<seq<int>>, j: nat)
    requires |lists| == NFreeLists && j < NFreeLists && lists[j] != []
    ensures ListBytes(lists[j := lists[j][1..]]) + ClassSize(j) == ListBytes(lists)
  {
    ListBytesUpdate(lists, j, lists[j][1..]);
    var c, k := ClassSize(j), |lists[j]|;
    assert k * c == (k - 1) * c + c;
  }

  /** Pushing a block on list `j` adds one block of its class. */
  lemma ListBytesPush(lists: seq<seq<int>>, j: nat, q: int)
    requires |lists| == NFreeLists && j < NFreeLists
    ensures ListBytes(lists[j := [q] + lists[j]]) == ListBytes(lists) + ClassSize(j)
  {
    ListBytesUpdate(lists, j, [q] + lists[j]);
    var c, k := ClassSize(j), |lists[j]|;
    assert (k + 1) * c == k * c + c;
  }

  /** Salvaging lists the leftover; until the arena is replaced, those
      bytes are counted twice. */
  lemma SalvageHeld(p: Pool)
    requires PoolValid(p) && BytesLeft(p) < MaxBytes
    ensures ListBytes(Salvage(p).lists) == ListBytes(p.lists) + BytesLeft(p)
  {
    if BytesLeft(p) > 0 {
      ListBytesPush(p.lists, FreeListIndex(BytesLeft(p)), p.startFree);
    }
  }

  /** Replacing the arena (alloc.h:238-265): a block taken from a larger
      class moves from its list to the arena, and a block from
      `malloc_alloc` becomes the arena and is added to `heap_size`; after a
      failure the arena is empty. An empty list of the requested class
      stays empty. */
  lemma ReplaceHeld(q: Pool, size: nat, bytesToGet: nat)
    requires PoolValid(q) && size % Align == 0 && Align <= size <= MaxBytes
    requires bytesToGet >= size && bytesToGet % Align == 0
    ensures var g := Replace(q, size, bytesToGet);
      && Held(g.pool) == ListBytes(q.lists) + g.pool.heapSize - q.heapSize
      && g.pool.heapSize >= q.heapSize
      && (q.lists[FreeListIndex(size)] == [] ==> g.pool.lists[FreeListIndex(size)] == [])
  {
    var (sys1, got) := SystemMalloc(q.sys, bytesToGet);
    var j := FirstNonEmpty(q.lists, FreeListIndex(size));
    if got == 0 && j < NFreeLists {
      ListBytesPop(q.lists, j);
    }
  }

  /** Growth (alloc.h:228-265) adds to what the allocator holds exactly
      what it adds to `heap_size`. */
  lemma GrowHeld(p: Pool, size: nat, total: nat)
    requires PoolValid(p) && size % Align == 0 && Align <= size <= MaxBytes
    requires total >= size && total % Align == 0
    requires BytesLeft(p) < size
    ensures var g := Grow(p, size, total);
      && Held(g.pool) == Held(p) + g.pool.heapSize - p.heapSize
      && g.pool.heapSize >= p.heapSize
      && (p.lists[FreeListIndex(size)] == [] ==> g.pool.lists[FreeListIndex(size)] == [])
  {
    SalvageHeld(p);
    // the leftover goes to a class smaller than `size`
    assert BytesLeft(p) > 0 ==> FreeListIndex(BytesLeft(p)) < FreeListIndex(size);
    ReplaceHeld(Salvage(p), size, BytesToGet(total, p.heapSize));
  }

  /** `chunk_alloc` (alloc.h:209-268) hands out `size * nobjs'` bytes and
      holds that much less, apart from what growth added to `heap_size`. */
  lemma ChunkHeld(p: Pool, size: nat, nobjs: nat)
    requires PoolValid(p) && size % Align == 0 && Align <= size <= MaxBytes && nobjs >= 1
    ensures var c := ChunkAllocSpec(p, size, nobjs);
      && Held(c.pool) + (if c.out.Ptr? then size * c.nobjs else 0) == Held(p) + c.pool.heapSize - p.heapSize
      && c.pool.heapSize >= p.heapSize
      && (p.lists[FreeListIndex(size)] == [] ==> c.pool.lists[FreeListIndex(size)] == [])
    decreases if BytesLeft(p) >= size then 0 else 1
  {
    if BytesLeft(p) < size {
      ChunkRetries(p, size, nobjs);
      GrowHeld(p, size, size * nobjs);
      var g := Grow(p, size, size * nobjs);
      if g.Retry? {
        ChunkHeld(g.pool, size, nobjs);
      }
    } else if BytesLeft(p) < size * nobjs {
      ChunkPartialBatch(p, size, nobjs);
    } else {
      ChunkFullBatch(p, size, nobjs);
    }
  }

  /** `refill(n)` (alloc.h:177-207), called on an empty list as `allocate`
      does: of the batch, one block is handed out and the rest are listed. */
  lemma RefillHeld(p: Pool, n: nat)
    requires PoolValid(p) && n % Align == 0 && Align <= n <= MaxBytes
    requires p.lists[FreeListIndex(n)] == []
    ensures Held(RefillSpec(p, n).0) + (if RefillSpec(p, n).1.Ptr? then n else 0)
            == Held(p) + RefillSpec(p, n).0.heapSize - p.heapSize
    ensures RefillSpec(p, n).0.heapSize >= p.heapSize
  {
    var c := ChunkAllocSpec(p, n, BatchSize);
    ChunkHeld(p, n, BatchSize);
    IndexOfRoundedSize(n);
    ListedHeld(c, n, Held(p), p.heapSize);
  }

  /** The bytes held after listing the chunk (alloc.h:189-206), given the
      bytes held after carving it. */
  lemma ListedHeld(c: Chunk, n: nat, held: int, heap: int)
    requires PoolValid(c.pool) && Align <= n <= MaxBytes
    requires c.out.Ptr? ==> c.nobjs >= 1 && c.out.addr > 0
    requires ClassSize(FreeListIndex(n)) == n && c.pool.lists[FreeListIndex(n)] == []
    requires Held(c.pool) + (if c.out.Ptr? then n * c.nobjs else 0) == held + c.pool.heapSize - heap
    ensures Held(ListChunk(c, n).0) + (if ListChunk(c, n).1.Ptr? then n else 0)
            == held + ListChunk(c, n).0.heapSize - heap
  {
    if c.out.Ptr? && c.nobjs != 1 {
      BatchListed(c.pool, ListChunk(c, n).0, FreeListIndex(n), c.out.addr, n, c.nobjs);
    }
  }

  /** Listing a batch of `count` blocks, less the one handed out, on the
      empty list of their class. */
  lemma BatchListed(q: Pool, q': Pool, i: nat, chunk: int, n: nat, count: nat)
    requires |q.lists| == NFreeLists && i < NFreeLists && q.lists[i] == [] && ClassSize(i) == n && count >= 1
    requires q' == q.(lists := q.lists[i := Batch(chunk, n, count)])
    ensures Held(q') + n == Held(q) + n * count
  {
    ListBytesUpdate(q.lists, i, Batch(chunk, n, count));
    assert (count - 1) * n + n == n * count;
  }

  /** A small `allocate(n)` (alloc.h:152-159) hands out `ROUND_UP(n)`
      bytes, which the allocator then no longer holds. */
  lemma AllocateHeld(p: Pool, n: nat)
    requires PoolValid(p) && 1 <= n <= MaxBytes
    ensures var (p', r) := AllocateSpec(p, n);
      && Held(p') + (if r.Ptr? then RoundUp(n) else 0) == Held(p) + p'.heapSize - p.heapSize
      && p'.heapSize >= p.heapSize
  {
    var i := FreeListIndex(n);
    IndexOfRoundedSize(n);
    if p.lists[i] == [] {
      RefillHeld(p, RoundUp(n));
    } else {
      ListBytesPop(p.lists, i);
    }
  }

  /** A small `deallocate(q, n)` (alloc.h:172-174) gives the allocator
      `ROUND_UP(n)` more bytes. */
  lemma DeallocateHeld(p: Pool, q: int, n: nat)
    requires PoolValid(p) && q > 0 && 1 <= n <= MaxBytes
    ensures var p' := DeallocateSpec(p, q, n);
      Held(p') == Held(p) + RoundUp(n) && p'.heapSize == p.heapSize
  {
    IndexOfRoundedSize(n);
    ListBytesPush(p.lists, FreeListIndex(n), q);
  }

  /** The accounting invariant: the bytes counted in `heap_size` are those
      on the free lists, in the arena, and in the `outstanding` bytes of
      small blocks the program holds. */
  ghost predicate Accounted(p: Pool, outstanding: nat)
    requires |p.lists| == NFreeLists
  {
    Held(p) + outstanding == p.heapSize
  }

  /** At program start nothing is held, listed or counted. */
  lemma InitialAccounted(s: Sys)
    requires SysValid(s)
    ensures Accounted(InitialPool(s), 0)
  {
    EmptyListsHoldNothing(InitialPool(s).lists, 0);
  }

  lemma {:induction false} EmptyListsHoldNothing(lists: seq<seq<int>>, i: nat)
    requires |lists| == NFreeLists && i <= NFreeLists
    requires forall k | 0 <= k < NFreeLists :: lists[k] == []
    ensures BytesFrom(lists, i) == 0
    decreases NFreeLists - i
  {
    if i < NFreeLists {
      EmptyListsHoldNothing(lists, i + 1);
    }
  }

  /** `allocate(n)` keeps the invariant: a small block handed out moves its
      rounded size to the program's side; a large request does not touch the
      pool. */
  lemma AllocateKeepsAccounted(p: Pool, n: nat, outstanding: nat)
    requires PoolValid(p) && n > 0 && Accounted(p, outstanding)
    ensures var (p', r) := AllocateSpec(p, n);
      Accounted(p', if r.Ptr? && n <= MaxBytes then outstanding + RoundUp(n) else outstanding)
  {
    if n <= MaxBytes {
      AllocateHeld(p, n);
    } else {
      AllocateLargeBypassesPool(p, n);
    }
  }

  /** `deallocate(q, n)` keeps the invariant when the program gives back a
      small block it holds: its rounded size returns to the allocator. */
  lemma DeallocateKeepsAccounted(p: Pool, q: int, n: nat, outstanding: nat)
    requires PoolValid(p) && q > 0 && n > 0 && Accounted(p, outstanding)
    requires n <= MaxBytes ==> RoundUp(n) <= outstanding
    ensures Accounted(DeallocateSpec(p, q, n), if n <= MaxBytes then outstanding - RoundUp(n) else outstanding)
  {
    if n <= MaxBytes {
      DeallocateHeld(p, q, n);
    } else {
      DeallocateLargeBypassesPool(p, q, n);
    }
  }

  /** What the invariant promises: the small blocks the program holds never
      add up to more than `heap_size`. */
  lemma VendedWithinHeap(p: Pool, outstanding: nat)
    requires PoolValid(p) && Accounted(p, outstanding)
    ensures outstanding <= p.heapSize
  {
    assert BytesLeft(p) >= 0;
  }

  // ---------------------------------------------------------------------
  // Runs of requests

  /** `k` successive calls of `allocate(n)`: the final state and the
      results, in call order. */
  function AllocateRepeated(p: Pool, n: nat, k: nat): (r: (Pool, seq<Outcome>))
    requires PoolValid(p) && n > 0
    ensures PoolValid(r.0) && |r.1| == k
    decreases k
  {
    if k == 0 then (p, [])
    else
      var first := AllocateSpec(p, n);
      var rest := AllocateRepeated(first.0, n, k - 1);
      (rest.0, [first.1] + rest.1)
  }

  /** `deallocate(q, n)` for each `q` of `qs`, in order. */
  function DeallocateRepeated(p: Pool, qs: seq<int>, n: nat): (r: Pool)
    requires PoolValid(p) && n > 0
    requires forall k | 0 <= k < |qs| :: qs[k] > 0
    ensures PoolValid(r)
    decreases |qs|
  {
    if qs == [] then p
    else DeallocateRepeated(DeallocateSpec(p, qs[0], n), qs[1..], n)
  }

  /** A run of `a + b` calls is a run of `a` calls followed by `b` more. */
  lemma {:induction false} AllocateRepeatedSplit(p: Pool, n: nat, a: nat, b: nat)
    requires PoolValid(p) && n > 0
    ensures var mid := AllocateRepeated(p, n, a);
      var rest := AllocateRepeated(mid.0, n, b);
      AllocateRepeated(p, n, a + b) == (rest.0, mid.1 + rest.1)
    decreases a
  {
    if a == 0 {
      assert [] + AllocateRepeated(p, n, b).1 == AllocateRepeated(p, n, b).1;
    } else {
      var first := AllocateSpec(p, n);
      AllocateRepeatedSplit(first.0, n, a - 1, b);
      var mid := AllocateRepeated(first.0, n, a - 1);
      var rest := AllocateRepeated(mid.0, n, b);
      assert [first.1] + (mid.1 + rest.1) == ([first.1] + mid.1) + rest.1;
    }
  }

  /** `k` small requests on a list of at least `k` blocks hand out its
      first `k` blocks, in order, and leave the rest of the list; nothing
      else changes. */
  lemma {:induction false} AllocatePopsRepeated(p: Pool, n: nat, k: nat)
    requires PoolValid(p) && 1 <= n <= MaxBytes && k <= |p.lists[FreeListIndex(n)]|
    ensures var i := FreeListIndex(n);
      var (q, r) := AllocateRepeated(p, n, k);
      && q == p.(lists := p.lists[i := p.lists[i][k..]])
      && forall j | 0 <= j < k :: r[j] == Ptr(p.lists[i][j])
    decreases k
  {
    var i := FreeListIndex(n);
    if k == 0 {
      assert p.lists[i := p.lists[i][0..]] == p.lists;
    } else {
      var p1 := p.(lists := p.lists[i := p.lists[i][1..]]);
      assert AllocateSpec(p, n) == (p1, Ptr(p.lists[i][0]));
      AllocatePopsRepeated(p1, n, k - 1);
      assert p1.lists[i][k - 1..] == p.lists[i][k..];
      assert p1.lists[i := p1.lists[i][k - 1..]] == p.lists[i := p.lists[i][k..]];
    }
  }

  /** Small releases of one size push each block in turn on the same list:
      the list grows by one block per release and the last block released
      is its head; nothing else changes. */
  lemma {:induction false} DeallocatePushesRepeated(p: Pool, qs: seq<int>, n: nat)
    requires PoolValid(p) && 1 <= n <= MaxBytes
    requires forall k | 0 <= k < |qs| :: qs[k] > 0
    ensures var i := FreeListIndex(n);
      var r := DeallocateRepeated(p, qs, n);
      && |r.lists[i]| == |p.lists[i]| + |qs|
      && (qs != [] ==> r.lists[i][0] == qs[|qs| - 1])
      && (forall k | 0 <= k < NFreeLists && k != i :: r.lists[k] == p.lists[k])
      && r.startFree == p.startFree && r.endFree == p.endFree && r.heapSize == p.heapSize
    decreases |qs|
  {
    if qs != [] {
      var p1 := DeallocateSpec(p, qs[0], n);
      DeallocatePushesHead(p, qs[0], n);
      DeallocatePushesRepeated(p1, qs[1..], n);
    }
  }

  /** A small request on an empty list while the arena holds a whole batch:
      `refill` carves 20 blocks off the arena without growing it, hands out
      the first and lists the other 19. */
  lemma AllocateFromArena(p: Pool, n: nat)
    requires PoolValid(p) && 1 <= n <= MaxBytes && p.lists[FreeListIndex(n)] == []
    requires BytesLeft(p) >= RoundUp(n) * BatchSize
    ensures var i := FreeListIndex(n);
      AllocateSpec(p, n)
      == (p.(startFree := p.startFree + RoundUp(n) * BatchSize,
             lists := p.lists[i := Batch(p.startFree, RoundUp(n), BatchSize)]),
          Ptr(p.startFree))
  {
    IndexOfRoundedSize(n);
    ChunkFullBatch(p, RoundUp(n), BatchSize);
  }

  /** Twenty-five `allocate(8)` calls from program start, taken as the
      first twenty and then five more (`AllocateRepeatedSplit` joins them):
      the first twenty blocks are the batch carved from the first growth,
      and the next five come from a second batch carved from the 160 bytes
      left in the arena, without growing again, so `heap_size` stays 320.
      The 25 blocks lie end to end, 15 blocks remain on list 0 and the arena
      is used up. */
  lemma TwentyFiveAllocate8(base: int, supply: nat)
    requires base > 0 && supply >= 640
    ensures var p0 := InitialPool(InitialSys(base, supply));
      var p20 := AllocateRepeated(p0, 8, 20).0;
      && TwentyShape(p20, AllocateRepeated(p0, 8, 20).1, base + 320)
      && FiveShape(p20, AllocateRepeated(p20, 8, 5).0, AllocateRepeated(p20, 8, 5).1, base + 480)
  {
    FirstTwentyAllocate8(base, supply);
    var p20 := AllocateRepeated(InitialPool(InitialSys(base, supply)), 8, 20).0;
    NextFiveAllocate8(p20, base + 480);
  }

  /** What 20 calls of `allocate(8)` leave, for a first block at `start`:
      the blocks handed out lie end to end, every list is empty, and the
      arena holds the next 160 bytes; `heap_size` is 320. */
  ghost predicate TwentyShape(p: Pool, r: seq<Outcome>, start: int) {
    && |r| == 20 && |p.lists| == NFreeLists
    && (forall k | 0 <= k < 20 :: r[k] == Ptr(start + 8 * k))
    && (forall i | 0 <= i < NFreeLists :: p.lists[i] == [])
    && p.heapSize == 320 && p.startFree == start + 160 && BytesLeft(p) == 160
  }

  /** What 5 calls of `allocate(8)` from `p` leave in `q`, for a first block
      at `start`: the blocks lie end to end, 15 blocks remain on list 0, the
      other lists are empty, the arena is used up and `heap_size` is as
      before. */
  ghost predicate FiveShape(p: Pool, q: Pool, r: seq<Outcome>, start: int) {
    && |r| == 5 && |q.lists| == NFreeLists
    && (forall k | 0 <= k < 5 :: r[k] == Ptr(start + 8 * k))
    && |q.lists[0]| == 15 && (forall i | 1 <= i < NFreeLists :: q.lists[i] == [])
    && q.heapSize == p.heapSize && BytesLeft(q) == 0
  }

  /** The first twenty `allocate(8)` calls of a program: one growth, one
      batch of 20 blocks handed out in address order, and 160 bytes left in
      the arena with list 0 empty again. */
  lemma FirstTwentyAllocate8(base: int, supply: nat)
    requires base > 0 && supply >= 640
    ensures var p0 := InitialPool(InitialSys(base, supply));
      TwentyShape(AllocateRepeated(p0, 8, 20).0, AllocateRepeated(p0, 8, 20).1, base + 320)
  {
    var p0 := InitialPool(InitialSys(base, supply));
    FirstAllocate8(base, supply);
    var (p1, o1) := AllocateSpec(p0, 8);
    assert FreeListIndex(8) == 0;
    AllocatePopsRepeated(p1, 8, 19);
    var (p2, r2) := AllocateRepeated(p1, 8, 19);
    assert AllocateRepeated(p0, 8, 20) == (p2, [o1] + r2);
    forall k | 1 <= k < 20
      ensures ([o1] + r2)[k] == Ptr(base + 320 + 8 * k)
    {
      assert ([o1] + r2)[k] == r2[k - 1] == Ptr(p1.lists[0][k - 1]);
    }
  }

  /** Five more `allocate(8)` calls on an empty list 0 and an arena of 160
      bytes at `start`: a batch of 20 is carved from the arena, its first
      five blocks are handed out in address order, and 15 stay listed. */
  lemma NextFiveAllocate8(p: Pool, start: int)
    requires PoolValid(p) && (forall i | 0 <= i < NFreeLists :: p.lists[i] == [])
    requires p.startFree == start && BytesLeft(p) == 160
    ensures FiveShape(p, AllocateRepeated(p, 8, 5).0, AllocateRepeated(p, 8, 5).1, start)
  {
    assert FreeListIndex(8) == 0 && RoundUp(8) == 8;
    AllocateFromArena(p, 8);
    var (p3, o3) := AllocateSpec(p, 8);
    AllocatePopsRepeated(p3, 8, 4);
    var (p4, r4) := AllocateRepeated(p3, 8, 4);
    assert AllocateRepeated(p, 8, 5) == (p4, [o3] + r4);
    forall k | 1 <= k < 5
      ensures ([o3] + r4)[k] == Ptr(start + 8 * k)
    {
      assert ([o3] + r4)[k] == r4[k - 1] == Ptr(p3.lists[0][k - 1]);
    }
  }

  /** Releasing those 25 blocks again puts all of them on list 0, which
      then holds 40 blocks, the last one released first; `heap_size` is
      unchanged. */
  lemma TwentyFiveReleased8(base: int, supply: nat)
    requires base > 0 && supply >= 640
    ensures var p20 := AllocateRepeated(InitialPool(InitialSys(base, supply)), 8, 20).0;
      var p25 := AllocateRepeated(p20, 8, 5).0;
      var q := DeallocateRepeated(p25, seq(25, k => base + 320 + 8 * k), 8);
      |q.lists[0]| == 40 && q.heapSize == 320 && q.lists[0][0] == base + 320 + 8 * 24
  {
    TwentyFiveAllocate8(base, supply);
    var p20 := AllocateRepeated(InitialPool(InitialSys(base, supply)), 8, 20).0;
    var p25 := AllocateRepeated(p20, 8, 5).0;
    assert FreeListIndex(8) == 0;
    DeallocatePushesRepeated(p25, seq(25, k => base + 320 + 8 * k), 8);
  }
}
