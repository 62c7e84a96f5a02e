/** `simple_alloc<T, Alloc>` (allocator.h:13-27): the typed front end the
    containers use. It turns a count of `T` objects into a byte count and
    forwards to `Alloc`, which is `malloc_alloc` when `__USE_MALLOC` is
    defined and the pooled allocator otherwise (allocator.h:6-11). `sizeof(T)`
    is the parameter `elemSize`. */
module SimpleAlloc {
  import opened SizeClass
  import opened SystemAlloc
  import opened PoolAlloc

  /** The compile-time choice of `alloc` (allocator.h:6-11). */
  datatype Backend = UseMalloc | UseDefault

  /** The bytes asked of `Alloc` for `n` objects; nothing is asked when
      `n == 0`. */
  datatype Request = NoRequest | Bytes(count: nat)

  function RequestFor(elemSize: nat, n: nat): (q: Request)
    requires elemSize >= 1
    ensures q == NoRequest <==> n == 0
    ensures q.Bytes? ==> q.count == n * elemSize && q.count >= elemSize && q.count >= n
  {
    if n == 0 then NoRequest
    else
      MulMono(n, 1, elemSize);
      MulMono(elemSize, 1, n);
      Bytes(n * elemSize)
  }

  /** `Alloc::allocate(bytes)` under either configuration, on the whole
      allocator state (the system allocator is `p.sys` in both). */
  function AllocBytes(b: Backend, p: Pool, bytes: nat): (r: (Pool, Outcome))
    requires PoolValid(p) && bytes > 0
    ensures PoolValid(r.0)
    ensures r.1.Ptr? ==> r.1.addr > 0
    ensures b == UseMalloc ==> r.0 == p.(sys := r.0.sys) && (r.0.sys, r.1) == MallocAllocate(p.sys, bytes)
  {
    match b
    case UseMalloc =>
      var (s, o) := MallocAllocate(p.sys, bytes);
      (p.(sys := s), o)
    case UseDefault => AllocateSpec(p, bytes)
  }

  /** `Alloc::deallocate(q, bytes)` under either configuration. */
  function DeallocBytes(b: Backend, p: Pool, q: int, bytes: nat): (r: Pool)
    requires PoolValid(p) && q > 0 && bytes > 0
    ensures PoolValid(r)
    ensures b == UseMalloc ==> r == p.(sys := SystemFree(p.sys, bytes))
  {
    match b
    case UseMalloc => p.(sys := SystemFree(p.sys, bytes))
    case UseDefault => DeallocateSpec(p, q, bytes)
  }

  /** `simple_alloc::allocate(n)` (allocator.h:17-19): null for no objects,
      otherwise `n * sizeof(T)` bytes from `Alloc`. */
  function AllocateN(b: Backend, p: Pool, elemSize: nat, n: nat): (r: (Pool, Outcome))
    requires PoolValid(p) && elemSize >= 1
    ensures PoolValid(r.0)
    ensures n == 0 ==> r == (p, Ptr(0))
    ensures n > 0 ==> r == AllocBytes(b, p, n * elemSize) && (r.1.Ptr? ==> r.1.addr > 0)
  {
    match RequestFor(elemSize, n)
    case NoRequest => (p, Ptr(0))
    case Bytes(k) => AllocBytes(b, p, k)
  }

  /** `simple_alloc::allocate()` (allocator.h:20-22): one object, which is
      `allocate(1)`. */
  function AllocateOne(b: Backend, p: Pool, elemSize: nat): (r: (Pool, Outcome))
    requires PoolValid(p) && elemSize >= 1
    ensures PoolValid(r.0)
    ensures r.1.Ptr? ==> r.1.addr > 0
    ensures r == AllocateN(b, p, elemSize, 1)
  {
    AllocBytes(b, p, elemSize)
  }

  /** `simple_alloc::deallocate(p, n)` (allocator.h:23-25): a release of no
      objects does nothing, whatever the pointer. */
  function DeallocateN(b: Backend, p: Pool, q: int, elemSize: nat, n: nat): (r: Pool)
    requires PoolValid(p) && elemSize >= 1 && (n > 0 ==> q > 0)
    ensures PoolValid(r)
    ensures n == 0 ==> r == p
    ensures n > 0 ==> r == DeallocBytes(b, p, q, n * elemSize)
  {
    match RequestFor(elemSize, n)
    case NoRequest => p
    case Bytes(k) => DeallocBytes(b, p, q, k)
  }

  /** `simple_alloc::deallocate(p)` (allocator.h:26): one object, which is
      `deallocate(p, 1)`. */
  function DeallocateOne(b: Backend, p: Pool, q: int, elemSize: nat): (r: Pool)
    requires PoolValid(p) && elemSize >= 1 && q > 0
    ensures PoolValid(r)
    ensures r == DeallocateN(b, p, q, elemSize, 1)
  {
    DeallocBytes(b, p, q, elemSize)
  }

  /** With the pooled allocator, `n` objects of `sizeof(T)` bytes come from
      the free list of class `FREELIST_INDEX(n * sizeof(T))` when that is at
      most 128 bytes, and from `malloc_alloc` otherwise. */
  lemma DefaultRoutesBySize(p: Pool, elemSize: nat, n: nat)
    requires PoolValid(p) && elemSize >= 1 && n >= 1
    ensures n * elemSize >= 1
    ensures var r := AllocateN(UseDefault, p, elemSize, n);
      && (n * elemSize > MaxBytes ==>
            r.0 == p.(sys := r.0.sys) && (r.0.sys, r.1) == MallocAllocate(p.sys, n * elemSize))
      && (n * elemSize <= MaxBytes && p.lists[FreeListIndex(n * elemSize)] != [] ==>
            r.1 == Ptr(p.lists[FreeListIndex(n * elemSize)][0]))
  {
    MulMono(n, 1, elemSize);
  }

  /** A container that releases a buffer with the count it allocated it with
      gives the pooled allocator back exactly the block it took, on the list
      it came from: allocating again returns that buffer and leaves the
      allocator as it was. */
  lemma DeallocateThenAllocateN(p: Pool, q: int, elemSize: nat, n: nat)
    requires PoolValid(p) && elemSize >= 1 && q > 0 && 1 <= n * elemSize <= MaxBytes
    ensures AllocateN(UseDefault, DeallocateN(UseDefault, p, q, elemSize, n), elemSize, n) == (p, Ptr(q))
  {
    assert n >= 1;
    var p1 := DeallocateSpec(p, q, n * elemSize);
    var i := FreeListIndex(n * elemSize);
    assert p1.lists[i] == [q] + p.lists[i];
    assert p1.lists[i := p1.lists[i][1..]] == p.lists;
  }

  /** Under `__USE_MALLOC`, allocation takes the next `n * sizeof(T)` bytes
      of the system, and releasing them returns them. */
  lemma MallocBackendRoundTrip(p: Pool, elemSize: nat, n: nat)
    requires PoolValid(p) && elemSize >= 1 && n >= 1 && n * elemSize <= p.sys.avail
    ensures var (p1, r) := AllocateN(UseMalloc, p, elemSize, n);
      && r == Ptr(p.sys.top)
      && p1.sys.top == p.sys.top + n * elemSize
      && DeallocateN(UseMalloc, p1, r.addr, elemSize, n).sys.avail == p.sys.avail
  {
    MulMono(n, 1, elemSize);
  }

  /** The forwarding functions as methods on the pooled allocator object. */
  method Allocate(a: DefaultAlloc, elemSize: nat, n: nat) returns (r: Outcome)
    requires a.Valid() && elemSize >= 1
    modifies a, a.freeList, a.malloc
    ensures a.Valid()
    ensures (a.State(), r) == AllocateN(UseDefault, old(a.State()), elemSize, n)
  {
    if n == 0 {
      return Ptr(0);
    }
    MulMono(n, 1, elemSize);
    r := a.Allocate(n * elemSize);
  }

  method Deallocate(a: DefaultAlloc, q: int, elemSize: nat, n: nat)
    requires a.Valid() && elemSize >= 1 && (n > 0 ==> q > 0)
    modifies a, a.freeList, a.malloc
    ensures a.Valid()
    ensures a.State() == DeallocateN(UseDefault, old(a.State()), q, elemSize, n)
  {
    if n != 0 {
      MulMono(n, 1, elemSize);
      a.Deallocate(q, n * elemSize);
    }
  }
}
