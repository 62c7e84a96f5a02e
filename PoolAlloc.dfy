/** The second-level allocator `__default_alloc_template` (alloc.h:87-268):
    16 free lists of fixed-size blocks, refilled in batches carved from a
    bump-pointer arena `[startFree, endFree)`, which grows by asking
    `malloc_alloc` for more memory.

    The free lists are sequences of block addresses, head first: the link
    that the source stores inside each free block (`free_list_link`) is the
    order of the sequence. The functions below are the specification of
    each operation on the whole allocator state; the class `DefaultAlloc`
    at the end is the imperative version, with the same static fields, and
    each of its methods is proved to do what its function says. */
module PoolAlloc {
  import opened SizeClass
  import opened SystemAlloc

  /** `int nobjs = 20` in `refill`: the batch size asked for. */
  const BatchSize: nat := 20

  /** The allocator's static state: `free_list[16]`, `start_free`,
      `end_free`, `heap_size`, and the first-level allocator behind it. */
  datatype Pool = Pool(lists: seq<seq<int>>, startFree: int, endFree: int, heapSize: nat, sys: Sys)

  /** What holds of the state between calls. */
  ghost predicate PoolValid(p: Pool) {
    && |p.lists| == NFreeLists
    && SysValid(p.sys)
    && p.startFree <= p.endFree
    // every arena is a whole number of 8-byte units
    && (p.endFree - p.startFree) % Align == 0
    && (p.startFree < p.endFree ==> p.startFree > 0)
    && NonNull(p.lists)
  }

  /** A free list never holds the null pointer. */
  ghost predicate NonNull(lists: seq<seq<int>>) {
    forall i, k | 0 <= i < |lists| && 0 <= k < |lists[i]| :: lists[i][k] > 0
  }

  /** Replacing one free list by a list of non-null blocks keeps `NonNull`. */
  lemma NonNullUpdate(lists: seq<seq<int>>, j: nat, l: seq<int>)
    requires NonNull(lists) && j < |lists|
    requires forall k | 0 <= k < |l| :: l[k] > 0
    ensures NonNull(lists[j := l])
  {
  }

  /** The state of a program that has not allocated anything yet
      (alloc.h:127-141), over a given system allocator. */
  function InitialPool(s: Sys): (p: Pool)
    requires SysValid(s)
    ensures PoolValid(p) && p.heapSize == 0 && p.startFree == p.endFree == 0
    ensures forall i | 0 <= i < NFreeLists :: p.lists[i] == []
  {
    Pool(seq(NFreeLists, _ => []), 0, 0, 0, s)
  }

  function BytesLeft(p: Pool): int {
    p.endFree - p.startFree
  }

  /** `bytes_to_get = 2 * total_bytes + ROUND_UP(heap_size >> 4)` */
  function BytesToGet(total: nat, heapSize: nat): (b: nat)
    ensures b >= 2 * total
    ensures total % Align == 0 ==> b % Align == 0
  {
    var r := RoundUp(heapSize / 16);
    DoubledSumAligned(total, r);
    2 * total + r
  }

  /** `2 * x + y` is a multiple of 8 when `x` and `y` are. */
  lemma DoubledSumAligned(x: nat, y: nat)
    requires y % Align == 0
    ensures x % Align == 0 ==> (2 * x + y) % Align == 0
  {
    if x % Align == 0 {
      var k, l := x / Align, y / Align;
      assert 2 * x + y == Align * (2 * k + l);
    }
  }

  /** Lines 232-236: a leftover smaller than one block is pushed onto the
      free list whose class is the leftover's own size. */
  function Salvage(p: Pool): (q: Pool)
    requires PoolValid(p) && BytesLeft(p) < MaxBytes
    ensures PoolValid(q)
    ensures q.startFree == p.startFree && q.endFree == p.endFree
    ensures q.heapSize == p.heapSize && q.sys == p.sys
    ensures BytesLeft(p) == 0 ==> q.lists == p.lists
    ensures BytesLeft(p) > 0 ==>
      && ClassSize(FreeListIndex(BytesLeft(p))) == BytesLeft(p)
      && q.lists == p.lists[FreeListIndex(BytesLeft(p)) := [p.startFree] + p.lists[FreeListIndex(BytesLeft(p))]]
  {
    var left := BytesLeft(p);
    if left > 0 then
      var i := FreeListIndex(left);
      p.(lists := p.lists[i := [p.startFree] + p.lists[i]])
    else p
  }

  /** The first class at or after `from` whose free list is not empty, or
      `NFreeLists` when there is none: the scan of lines 247-257. */
  function FirstNonEmpty(lists: seq<seq<int>>, from: nat): (j: nat)
    requires |lists| == NFreeLists && from <= NFreeLists
    ensures from <= j <= NFreeLists
    ensures j < NFreeLists ==> lists[j] != []
    ensures forall k | from <= k < j :: lists[k] == []
    decreases NFreeLists - from
  {
    if from == NFreeLists || lists[from] != [] then from
    else FirstNonEmpty(lists, from + 1)
  }

  /** Carving `k` bytes (a whole number of 8-byte units) off the arena
      keeps the state valid. */
  lemma BumpValid(p: Pool, k: nat)
    requires PoolValid(p) && k % Align == 0 && k <= BytesLeft(p)
    ensures PoolValid(p.(startFree := p.startFree + k))
  {
  }

  /** A non-null arena of a whole number of 8-byte units makes a valid state. */
  lemma ArenaValid(lists: seq<seq<int>>, start: int, len: nat, heapSize: nat, sys: Sys)
    requires |lists| == NFreeLists && NonNull(lists) && SysValid(sys)
    requires start > 0 && len % Align == 0
    ensures PoolValid(Pool(lists, start, start + len, heapSize, sys))
  {
  }

  /** Multiples of 8 stay multiples of 8 under multiplication. */
  lemma MulAligned(size: nat, n: nat)
    requires size % Align == 0
    ensures (size * n) % Align == 0
  {
    var k := size / Align;
    assert size * n == Align * (k * n);
  }

  lemma MulMono(a: nat, b: nat, c: nat)
    requires b <= c
    ensures a * b <= a * c
  {
  }

  /** What the partial-batch branch relies on: `bytes_left / size` whole
      blocks fit, there is at least one, and fewer than asked for. */
  lemma PartialBatch(left: nat, size: nat, nobjs: nat)
    requires Align <= size <= left < size * nobjs
    ensures 1 <= left / size < nobjs
    ensures size * (left / size) <= left
  {
    var n := left / size;
    assert size * n + left % size == left;
    if n >= nobjs {
      MulMono(size, nobjs, n);
      assert false;
    }
  }

  /** How the arena is replaced when it cannot supply one block
      (alloc.h:228-266), short of the retry. `total` is `size * nobjs`. */
  datatype Growth =
    | Retry(pool: Pool)
    | Failed(pool: Pool, out: Outcome)

  /** Lines 230-265 of `chunk_alloc`: salvage the leftover, ask the system
      for `bytes_to_get` bytes, and if it refuses take one block of the first
      non-empty class of at least `size` bytes as the new arena; when there is
      none, or when `std::malloc` succeeded (its block is then dropped), ask
      `malloc_alloc::allocate` for the same amount and add it to `heap_size`. */
  function Grow(p: Pool, size: nat, total: nat): (g: Growth)
    requires PoolValid(p) && size % Align == 0 && Align <= size <= MaxBytes
    requires total >= size && total % Align == 0
    requires BytesLeft(p) < size
    ensures PoolValid(g.pool)
    ensures g.Retry? ==> BytesLeft(g.pool) >= size
    ensures g.Failed? ==> !g.out.Ptr?
  {
    Replace(Salvage(p), size, BytesToGet(total, p.heapSize))
  }

  /** Making the first block of free list `j` the new arena keeps the
      state valid; the arena then holds exactly one block of class `j`. */
  lemma TakeBlockValid(q: Pool, j: nat, sys: Sys)
    requires PoolValid(q) && SysValid(sys) && j < NFreeLists && q.lists[j] != []
    ensures PoolValid(Pool(q.lists[j := q.lists[j][1..]], q.lists[j][0], q.lists[j][0] + ClassSize(j), q.heapSize, sys))
    ensures BytesLeft(Pool(q.lists[j := q.lists[j][1..]], q.lists[j][0], q.lists[j][0] + ClassSize(j), q.heapSize, sys)) == ClassSize(j)
  {
    NonNullUpdate(q.lists, j, q.lists[j][1..]);
    ArenaValid(q.lists[j := q.lists[j][1..]], q.lists[j][0], ClassSize(j), q.heapSize, sys);
  }

  /** Lines 238-265: with the leftover salvaged, ask the system for
      `bytesToGet` bytes and replace the arena. */
  function Replace(q: Pool, size: nat, bytesToGet: nat): (g: Growth)
    requires PoolValid(q) && size % Align == 0 && Align <= size <= MaxBytes
    requires bytesToGet >= size && bytesToGet % Align == 0
    ensures PoolValid(g.pool)
    ensures g.Retry? ==> BytesLeft(g.pool) >= size
    ensures g.Failed? ==> !g.out.Ptr?
  {
    var (sys1, got) := SystemMalloc(q.sys, bytesToGet);
    var j := FirstNonEmpty(q.lists, FreeListIndex(size));
    if got == 0 && j < NFreeLists then
      assert ClassSize(j) >= ClassSize(FreeListIndex(size)) == size;
      TakeBlockValid(q, j, sys1);
      Retry(Pool(q.lists[j := q.lists[j][1..]], q.lists[j][0], q.lists[j][0] + ClassSize(j), q.heapSize, sys1))
    else
      var (sys2, o) := MallocAllocate(sys1, bytesToGet);
      if o.Ptr? then
        ArenaValid(q.lists, o.addr, bytesToGet, q.heapSize + bytesToGet, sys2);
        Retry(Pool(q.lists, o.addr, o.addr + bytesToGet, q.heapSize + bytesToGet, sys2))
      else
        Failed(Pool(q.lists, 0, 0, q.heapSize, sys2), o)
  }

  /** The result of `chunk_alloc`: the new state, the returned pointer and
      the final value of the in/out count `nobjs`. */
  datatype Chunk = Chunk(pool: Pool, out: Outcome, nobjs: nat)

  /** `chunk_alloc(size, nobjs)` (alloc.h:209-268), with its retry after
      growth. `size` is always a rounded-up class size. */
  function ChunkAllocSpec(p: Pool, size: nat, nobjs: nat): (c: Chunk)
    requires PoolValid(p) && size % Align == 0 && Align <= size <= MaxBytes && nobjs >= 1
    ensures PoolValid(c.pool)
    ensures c.out.Ptr? ==> 1 <= c.nobjs <= nobjs && c.out.addr > 0
    // the returned blocks are carved off the arena right below its new start
    ensures c.out.Ptr? ==> c.pool.startFree == c.out.addr + size * c.nobjs
    decreases if BytesLeft(p) >= size then 0 else 1
  {
    var total := size * nobjs;
    var left := BytesLeft(p);
    if left >= total then
      MulAligned(size, nobjs);
      BumpValid(p, total);
      Chunk(p.(startFree := p.startFree + total), Ptr(p.startFree), nobjs)
    else if left >= size then
      PartialBatch(left, size, nobjs);
      var n := left / size;
      MulAligned(size, n);
      BumpValid(p, size * n);
      Chunk(p.(startFree := p.startFree + size * n), Ptr(p.startFree), n)
    else
      MulAligned(size, nobjs);
      MulMono(size, 1, nobjs);
      match Grow(p, size, total)
      case Retry(q) => ChunkAllocSpec(q, size, nobjs)
      case Failed(q, o) => Chunk(q, o, nobjs)
  }

  /** The batch that `refill` threads into a free list: the blocks
      `chunk + n, chunk + 2n, ..., chunk + (count - 1) n`, in that order. */
  function Batch(chunk: int, n: nat, count: nat): (b: seq<int>)
    requires count >= 1
    ensures |b| == count - 1
    ensures forall k | 0 <= k < |b| :: b[k] == chunk + (k + 1) * n
  {
    seq(count - 1, k => chunk + (k + 1) * n)
  }

  /** What `refill` does with the chunk it obtained (alloc.h:189-206): of
      more than one block, the first goes out and the rest become the list
      of class `n`. */
  function ListChunk(c: Chunk, n: nat): (r: (Pool, Outcome))
    requires PoolValid(c.pool) && Align <= n <= MaxBytes
    requires c.out.Ptr? ==> c.nobjs >= 1 && c.out.addr > 0
    ensures PoolValid(r.0)
    ensures r.1 == c.out
  {
    if !c.out.Ptr? || c.nobjs == 1 then (c.pool, c.out)
    else
      BatchPositive(c.out.addr, n, c.nobjs);
      (c.pool.(lists := c.pool.lists[FreeListIndex(n) := Batch(c.out.addr, n, c.nobjs)]), c.out)
  }

  /** `refill(n)` (alloc.h:177-207): the new state and the block returned. */
  function RefillSpec(p: Pool, n: nat): (r: (Pool, Outcome))
    requires PoolValid(p) && n % Align == 0 && Align <= n <= MaxBytes
    ensures PoolValid(r.0)
  {
    ListChunk(ChunkAllocSpec(p, n, BatchSize), n)
  }

  lemma BatchPositive(chunk: int, n: nat, count: nat)
    requires chunk > 0 && count >= 1
    ensures forall k | 0 <= k < |Batch(chunk, n, count)| :: Batch(chunk, n, count)[k] > 0
  {
  }

  /** The first block after the returned one starts a batch of two. */
  lemma BatchStart(chunk: int, n: nat)
    ensures Batch(chunk, n, 2) == [chunk + n]
  {
    assert Batch(chunk, n, 2)[0] == chunk + (0 + 1) * n;
  }

  /** Linking one more block of `n` bytes at the end of a batch. */
  lemma BatchGrows(chunk: int, n: nat, count: nat)
    requires count >= 1
    ensures Batch(chunk, n, count + 1) == Batch(chunk, n, count) + [chunk + count * n]
  {
  }

  /** `allocate(n)` (alloc.h:143-160). The source asserts `n > 0`. */
  function AllocateSpec(p: Pool, n: nat): (r: (Pool, Outcome))
    requires PoolValid(p) && n > 0
    ensures PoolValid(r.0)
    ensures r.1.Ptr? ==> r.1.addr > 0
  {
    if n > MaxBytes then
      var (s, o) := MallocAllocate(p.sys, n);
      (p.(sys := s), o)
    else
      var i := FreeListIndex(n);
      if p.lists[i] == [] then
        IndexOfRoundedSize(n);
        var r := RefillSpec(p, RoundUp(n));
        RefillOutPositive(p, RoundUp(n));
        r
      else
        (p.(lists := p.lists[i := p.lists[i][1..]]), Ptr(p.lists[i][0]))
  }

  lemma RefillOutPositive(p: Pool, n: nat)
    requires PoolValid(p) && n % Align == 0 && Align <= n <= MaxBytes
    ensures RefillSpec(p, n).1.Ptr? ==> RefillSpec(p, n).1.addr > 0
  {
  }

  /** `deallocate(q, n)` (alloc.h:162-175). The caller must pass the `n` it
      allocated with, and a non-null block. */
  function DeallocateSpec(p: Pool, q: int, n: nat): (r: Pool)
    requires PoolValid(p) && q > 0 && n > 0
    ensures PoolValid(r)
  {
    if n > MaxBytes then p.(sys := SystemFree(p.sys, n))
    else
      var i := FreeListIndex(n);
      p.(lists := p.lists[i := [q] + p.lists[i]])
  }

  // ---------------------------------------------------------------------
  // Imperative model: the allocator's static fields and its member functions

  class DefaultAlloc {
    /** `free_list[__NFREELISTS]` */
    const freeList: array<seq<int>>
    /** `start_free`, `end_free`: the arena */
    var startFree: int
    var endFree: int
    var heapSize: nat
    /** the `malloc_alloc` behind the pool */
    const malloc: MallocAlloc

    ghost function State(): Pool
      reads this, freeList, malloc
    {
      Pool(freeList[..], startFree, endFree, heapSize, malloc.State())
    }

    ghost predicate Valid()
      reads this, freeList, malloc
    {
      freeList.Length == NFreeLists && PoolValid(State())
    }

    /** The zero-initialised statics (alloc.h:127-141). */
    constructor (m: MallocAlloc)
      requires m.Valid()
      ensures Valid() && fresh(freeList) && malloc == m
      ensures State() == InitialPool(old(m.State()))
    {
      freeList := new seq<int>[NFreeLists](_ => []);
      startFree, endFree, heapSize := 0, 0, 0;
      malloc := m;
      new;
      assert freeList[..] == seq(NFreeLists, _ => []);
    }

    /** `allocate(n)` (alloc.h:143-160) */
    method Allocate(n: nat) returns (r: Outcome)
      requires Valid() && n > 0
      modifies this, freeList, malloc
      ensures (State(), r) == AllocateSpec(old(State()), n)
      ensures Valid()
    {
      if n > MaxBytes {
        r := malloc.Allocate(n);
        return;
      }
      var myFreeList := FreeListIndex(n);
      var result := freeList[myFreeList];
      if result == [] {
        IndexOfRoundedSize(n);
        r := Refill(RoundUp(n));
        return;
      }
      freeList[myFreeList] := result[1..];
      r := Ptr(result[0]);
    }

    /** `deallocate(q, n)` (alloc.h:162-175) */
    method Deallocate(q: int, n: nat)
      requires Valid() && q > 0 && n > 0
      modifies this, freeList, malloc
      ensures State() == DeallocateSpec(old(State()), q, n)
      ensures Valid()
    {
      if n > MaxBytes {
        malloc.Deallocate(q, n);
        return;
      }
      var myFreeList := FreeListIndex(n);
      freeList[myFreeList] := [q] + freeList[myFreeList];
    }

    /** `refill(n)` (alloc.h:177-207): the first block of the chunk is
        returned and the rest of the batch becomes the list of class `n`. */
    method Refill(n: nat) returns (r: Outcome)
      requires Valid() && n % Align == 0 && Align <= n <= MaxBytes
      modifies this, freeList, malloc
      ensures (State(), r) == RefillSpec(old(State()), n)
      ensures Valid()
    {
      var chunk, nobjs := ChunkAlloc(n, BatchSize);
      if !chunk.Ptr? || nobjs == 1 {
        return chunk;
      }
      LinkBatch(chunk.addr, n, nobjs);
      // the last block's link is left null: the list ends there
      r := chunk;
    }

    /** Lines 191-205 of `refill`: the blocks after the first one are
        threaded, in address order, into the free list of class `n`, which
        was empty and is overwritten. */
    method LinkBatch(chunk: int, n: nat, nobjs: nat)
      requires freeList.Length == NFreeLists && Align <= n <= MaxBytes && nobjs >= 2
      modifies freeList
      ensures freeList[..] == old(freeList[..])[FreeListIndex(n) := Batch(chunk, n, nobjs)]
    {
      ghost var lists := freeList[..];
      var myFreeList := FreeListIndex(n);
      var nextObj := chunk + n;
      freeList[myFreeList] := [nextObj];
      BatchStart(chunk, n);
      var i := 1;
      while nobjs - 1 != i
        invariant 1 <= i <= nobjs - 1
        invariant nextObj == chunk + i * n
        invariant freeList[myFreeList] == Batch(chunk, n, i + 1)
        invariant freeList[..] == lists[myFreeList := Batch(chunk, n, i + 1)]
        decreases nobjs - 1 - i
      {
        // current_obj = next_obj; next_obj += n; current_obj->free_list_link = next_obj
        assert (i + 1) * n == i * n + n;
        BatchGrows(chunk, n, i + 1);
        nextObj := nextObj + n;
        freeList[myFreeList] := freeList[myFreeList] + [nextObj];
        i := i + 1;
      }
    }

    /** `chunk_alloc` (alloc.h:209-268): recursive as in the source; the
        recursion is at most one level deep, since after a successful growth
        the arena holds at least `size` bytes. */
    method ChunkAlloc(size: nat, nobjs: nat) returns (r: Outcome, got: nat)
      requires Valid() && size % Align == 0 && Align <= size <= MaxBytes && nobjs >= 1
      modifies this, freeList, malloc
      ensures Valid()
      ensures Chunk(State(), r, got) == ChunkAllocSpec(old(State()), size, nobjs)
      decreases if endFree - startFree >= size then 0 else 1
    {
      ghost var s0 := State();
      var totalBytes := size * nobjs;
      var bytesLeft := endFree - startFree;
      if bytesLeft >= totalBytes {
        MulAligned(size, nobjs);
        BumpValid(s0, totalBytes);
        r, got := Ptr(startFree), nobjs;
        startFree := startFree + totalBytes;
        assert State() == s0.(startFree := s0.startFree + totalBytes);
      } else if bytesLeft >= size {
        PartialBatch(bytesLeft, size, nobjs);
        got := bytesLeft / size;
        totalBytes := size * got;
        MulAligned(size, got);
        BumpValid(s0, totalBytes);
        r := Ptr(startFree);
        startFree := startFree + totalBytes;
        assert State() == s0.(startFree := s0.startFree + totalBytes);
      } else {
        MulAligned(size, nobjs);
        MulMono(size, 1, nobjs);
        var retry, o := GrowArena(size, totalBytes);
        if !retry {
          r, got := o, nobjs;
          return;
        }
        r, got := ChunkAlloc(size, nobjs);
      }
    }

    /** Lines 230-265 of `chunk_alloc`, up to the recursive retry: `retry`
        is false when the source would not come back (out of memory). */
    method GrowArena(size: nat, totalBytes: nat) returns (retry: bool, o: Outcome)
      requires Valid() && size % Align == 0 && Align <= size <= MaxBytes
      requires totalBytes >= size && totalBytes % Align == 0
      requires endFree - startFree < size
      modifies this, freeList, malloc
      ensures Grow(old(State()), size, totalBytes) == if retry then Retry(State()) else Failed(State(), o)
      ensures Valid()
    {
      ghost var s0 := State();
      var bytesToGet := BytesToGet(totalBytes, heapSize);
      SalvageLeftover();
      assert State() == Salvage(s0);
      retry, o := ReplaceArena(size, bytesToGet);
    }

    /** Lines 232-236: push a leftover too small for one block onto its
        own class's free list. */
    method SalvageLeftover()
      requires Valid() && endFree - startFree < MaxBytes
      modifies freeList
      ensures State() == Salvage(old(State()))
      ensures Valid()
    {
      var bytesLeft := endFree - startFree;
      if bytesLeft > 0 {
        var i := FreeListIndex(bytesLeft);
        freeList[i] := [startFree] + freeList[i];
      }
    }

    /** Lines 238-265 of `chunk_alloc`, up to the recursive retry. */
    method ReplaceArena(size: nat, bytesToGet: nat) returns (retry: bool, o: Outcome)
      requires Valid() && size % Align == 0 && Align <= size <= MaxBytes
      requires bytesToGet >= size && bytesToGet % Align == 0
      modifies this, freeList, malloc
      ensures Replace(old(State()), size, bytesToGet) == if retry then Retry(State()) else Failed(State(), o)
      ensures Valid()
    {
      var p := malloc.SystemMallocCall(bytesToGet);
      startFree := p;
      if p == 0 {
        var found := ScanFreeLists(size);
        if found {
          retry, o := true, Ptr(startFree);
          return;
        }
      }
      endFree := 0;
      o := malloc.Allocate(bytesToGet);
      if !o.Ptr? {
        // the source never comes back from here: it exits or keeps calling the handler
        startFree := 0;
        retry := false;
        return;
      }
      startFree := o.addr;
      heapSize := heapSize + bytesToGet;
      endFree := startFree + bytesToGet;
      retry := true;
    }

    /** Lines 246-257 of `chunk_alloc`: look for a free block of class
        `size` or larger and, on finding one, unlink it and make it the arena. */
    method ScanFreeLists(size: nat) returns (found: bool)
      requires freeList.Length == NFreeLists && size % Align == 0 && Align <= size <= MaxBytes
      modifies this`startFree, this`endFree, freeList
      ensures var j := FirstNonEmpty(old(freeList[..]), FreeListIndex(size));
        && found == (j < NFreeLists)
        && (found ==> && freeList[..] == old(freeList[..])[j := old(freeList[j])[1..]]
                      && startFree == old(freeList[j])[0] && endFree == startFree + ClassSize(j))
        && (!found ==> freeList[..] == old(freeList[..]) && startFree == old(startFree) && endFree == old(endFree))
    {
      ghost var lists := freeList[..];
      var i := size;
      // the class of `i`
      ghost var c: nat := FreeListIndex(size);
      while i <= MaxBytes
        invariant FreeListIndex(size) <= c <= NFreeLists && i == (c + 1) * Align
        invariant freeList[..] == lists
        invariant startFree == old(startFree) && endFree == old(endFree)
        invariant FirstNonEmpty(lists, FreeListIndex(size)) >= c
      {
        var idx := FreeListIndex(i);
        assert idx == c;
        if freeList[idx] != [] {
          assert FirstNonEmpty(lists, FreeListIndex(size)) == idx;
          var p := freeList[idx][0];
          freeList[idx] := freeList[idx][1..];
          startFree := p;
          endFree := startFree + i;
          return true;
        }
        i, c := i + Align, c + 1;
      }
      return false;
    }
  }
}
