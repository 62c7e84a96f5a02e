# TinySTL allocator and containers, modelled in Dafny

This project models the core of TinySTL, a small re-implementation of the
SGI STL. It covers five parts:

- The two-level allocator. `__malloc_alloc_template` (`malloc_alloc`) is a
  thin layer over the system allocator with a swappable out-of-memory
  handler. `__default_alloc_template` is the pooled allocator: 16 free lists
  of 8- to 128-byte blocks, refilled in batches of 20 that are carved from a
  bump-pointer arena `[start_free, end_free)`. When the arena runs dry it
  grows: the leftover is salvaged, the system is asked for more, and when the
  system refuses a block of a larger class is borrowed.
- `simple_alloc`, the typed front end that turns counts of objects into byte
  counts.
- `uninitialized_fill_n` and `uninitialized_copy`, each with its POD path,
  its non-POD path, and the `char` and `wchar_t` overloads of the copy.
- `vector<T>`: a buffer with the cursors `start`, `finish` and
  `end_of_storage`.
- `list<T>`: a circular doubly linked list with a sentinel node, with
  `transfer`, the three `splice`s, `merge`, `reverse`, `remove`, `unique`,
  and a quicksort that swaps values through `partition`.

Each stateful part is a class whose fields are the source's fields:

- `PoolAlloc.DefaultAlloc` has the 16-slot `freeList` array, `startFree`,
  `endFree` and `heapSize`.
- `SystemAlloc.MallocAlloc` has the handler.
- `Vectors.Vector` has the buffer array and `finish`.
- `Lists.ListStore` has the `next`, `prev` and `data` fields of every node.

Each method is proved against a specification function of the old state:
`AllocateSpec`, `RefillSpec`, `ChunkAllocSpec`, `Inserted`, `MergeNodes`,
`PartitionValues` and so on. The properties the source promises are then
proved as lemmas about those functions.

The model is built on these conventions:

- Addresses are integers, and 0 is the null pointer.
- A free list is the sequence of its block addresses, head first. The
  `free_list_link` stored inside each free block is the order of that
  sequence.
- The system allocator is a supply of fresh addresses. `top` is the next
  address it hands out and `avail` is how many more bytes it can give.
- A list node is a number, and a list is named by its sentinel. An iterator
  is the node it points at. A ghost position beside it says which element
  that is.
- List elements are `int`s, compared with `==` and `<`.

`chunk_alloc` is modelled as written where the system has memory. The
`std::malloc` at alloc.h:239 succeeds, but control still falls through to
`malloc_alloc::allocate` at line 262. So the system is asked twice for
`bytes_to_get` bytes, the first block is lost, and `heap_size` counts only
one of the two. `PoolProperties.ChunkGrowthFromSystem` and
`PoolProperties.ChunkGrowthNeedsTwice` state the consequences.

`PoolAccounting` keeps the pool's books. The bytes counted in `heap_size`
are on the free lists, in the arena, or in small blocks the program holds.
That last amount is a ghost count, `outstanding`, because the allocator
itself does not record it. `allocate` and `deallocate` keep the sum equal to
`heap_size`, so the program never holds more than `heap_size` bytes of small
blocks. The first block from `std::malloc`, which is lost, is in none of
these places and is not counted in `heap_size`.

## Model

| member | source | states |
|---|---|---|
| SizeClass.RoundUp | includes/alloc.h:91-93 | `ROUND_UP(n)` is a multiple of 8 in `[n, n + 8)` |
| SizeClass.RoundUpIsLeast | includes/alloc.h:91-93 | `ROUND_UP(n)` is at most every multiple of 8 that is at least `n`, so it is the least one |
| SizeClass.FreeListIndex | includes/alloc.h:106-108 | `FREELIST_INDEX(n) = ROUND_UP(n)/8 - 1`, which is below 16 for `n <= 128` |
| SizeClass.ClassSize | includes/alloc.h:83-103 | the block size of list `i` is a multiple of 8 in `[8, 128]` whose index is `i` |
| SizeClass.IndexOfRoundedSize | includes/alloc.h:106-108 | a rounded-up size names the same class (as `allocate` relies on at line 155), and that class holds blocks of exactly the rounded size |
| SizeClass.IndexBounds | includes/alloc.h:83-108 | sizes 1 and 8 map to list 0 and 128 maps to list 15 |
| SizeClass.IndexMonotonic | includes/alloc.h:106-108 | a larger request never maps to a smaller class |
| SystemAlloc.InitialSys | includes/alloc.h:46-47 | at program start no out-of-memory handler is installed |
| SystemAlloc.SystemMalloc | includes/alloc.h:27 | `std::malloc` returns null exactly when the system cannot supply `n` bytes; otherwise it returns the next fresh region |
| SystemAlloc.SystemFree | includes/alloc.h:31 | `std::free` gives the bytes back to the system |
| SystemAlloc.OomOutcome | includes/alloc.h:54-62 | `oom_malloc` exits exactly when no handler is installed, and never yields a pointer in the model |
| SystemAlloc.MallocAllocate | includes/alloc.h:26-30 | `malloc_alloc::allocate` returns the fresh region when the system has room, and otherwise goes on as `oom_malloc` does with the state unchanged |
| SystemAlloc.SetMallocHandler | includes/alloc.h:39-43 | `set_malloc_handler(f)` installs `f` and returns the handler installed before |
| SystemAlloc.SetHandlerRestore | includes/alloc.h:39-43 | re-installing the returned handler restores the state exactly |
| SystemAlloc.SuccessiveMallocsDisjoint | includes/alloc.h:27 | two successful system requests return disjoint regions |
| SystemAlloc.MallocAlloc.constructor | includes/alloc.h:46-47 | the object starts in `InitialSys`, with a null handler |
| SystemAlloc.MallocAlloc.SystemMallocCall | includes/alloc.h:27 | the call updates the state and returns the pointer as `SystemMalloc` says |
| SystemAlloc.MallocAlloc.Allocate | includes/alloc.h:26-30 | the call does what `MallocAllocate` says |
| SystemAlloc.MallocAlloc.Deallocate | includes/alloc.h:31 | the call does what `SystemFree` says |
| SystemAlloc.MallocAlloc.SetHandler | includes/alloc.h:39-43 | the new handler and the returned old one are as `SetMallocHandler` says |
| PoolAlloc.InitialPool | includes/alloc.h:127-141 | the zero-initialised statics: all 16 lists empty, a null arena, and `heap_size` 0 |
| PoolAlloc.BytesToGet | includes/alloc.h:230 | `bytes_to_get` is at least twice the batch and stays a multiple of 8 |
| PoolAlloc.Salvage | includes/alloc.h:232-236 | a leftover `0 < bytes_left` is pushed on the list whose class size equals `bytes_left` exactly; an empty leftover changes nothing |
| PoolAlloc.FirstNonEmpty | includes/alloc.h:247-257 | the scan finds the first non-empty list at or after the starting class, and every list it passed is empty |
| PoolAlloc.PartialBatch | includes/alloc.h:221-224 | in the partial branch `bytes_left / size` blocks fit, at least one and fewer than asked for |
| PoolAlloc.Grow | includes/alloc.h:228-265 | growth leaves a valid state; when it can retry, the arena holds at least one block; when it cannot, no pointer comes out |
| PoolAlloc.Replace | includes/alloc.h:238-265 | the same facts for the part after the salvage |
| PoolAlloc.ChunkAllocSpec | includes/alloc.h:209-268 | a pointer result is non-null and has `1 <= nobjs' <= nobjs`; the blocks lie right below the new arena start |
| PoolAlloc.Batch | includes/alloc.h:193-205 | the batch threaded by `refill` is `chunk + n, chunk + 2n, ..., chunk + (count-1)n`, in order |
| PoolAlloc.RefillSpec | includes/alloc.h:177-207 | `refill` keeps the allocator state valid |
| PoolAlloc.RefillOutPositive | includes/alloc.h:177-207 | a pointer from `refill` is non-null |
| PoolAlloc.AllocateSpec | includes/alloc.h:143-160 | `allocate` keeps the state valid, and any pointer it returns is non-null |
| PoolAlloc.DeallocateSpec | includes/alloc.h:162-175 | `deallocate` keeps the state valid |
| PoolAlloc.DefaultAlloc.constructor | includes/alloc.h:127-141 | the object starts in `InitialPool` |
| PoolAlloc.DefaultAlloc.Allocate | includes/alloc.h:143-160 | the method leaves the state and the result `AllocateSpec` gives, and keeps the pool valid |
| PoolAlloc.DefaultAlloc.Deallocate | includes/alloc.h:162-175 | the method leaves the state `DeallocateSpec` gives |
| PoolAlloc.DefaultAlloc.Refill | includes/alloc.h:177-207 | the method leaves the state and the result `RefillSpec` gives |
| PoolAlloc.DefaultAlloc.LinkBatch | includes/alloc.h:191-205 | the link-threading loop makes list `FREELIST_INDEX(n)` exactly `Batch(chunk, n, nobjs)` and changes no other list |
| PoolAlloc.DefaultAlloc.ChunkAlloc | includes/alloc.h:209-268 | the recursive method gives the state, the pointer and the final `nobjs` that `ChunkAllocSpec` gives |
| PoolAlloc.DefaultAlloc.GrowArena | includes/alloc.h:228-265 | salvage and regrowth produce the retry state or the failure that `Grow` gives |
| PoolAlloc.DefaultAlloc.SalvageLeftover | includes/alloc.h:232-236 | the push of the leftover gives the state `Salvage` gives |
| PoolAlloc.DefaultAlloc.ReplaceArena | includes/alloc.h:238-265 | the system request, the scan and the `malloc_alloc` fallback give what `Replace` gives |
| PoolAlloc.DefaultAlloc.ScanFreeLists | includes/alloc.h:246-257 | the scan loop finds exactly the list `FirstNonEmpty` names, unlinks its head, and makes that block the arena `[p, p + ClassSize(j))`; when there is none, nothing changes |
| PoolProperties.AllocateLargeBypassesPool | includes/alloc.h:149-151 | a request over 128 bytes goes to `malloc_alloc` and leaves every free list, the arena and `heap_size` unchanged |
| PoolProperties.DeallocateLargeBypassesPool | includes/alloc.h:168-171 | a release over 128 bytes goes to `malloc_alloc::deallocate`, and nothing else changes |
| PoolProperties.AllocatePopsHead | includes/alloc.h:152-159 | a small request on a non-empty list returns its head and pops it; other lists and the arena are untouched |
| PoolProperties.DeallocatePushesHead | includes/alloc.h:172-174 | a small release pushes the block on the head of its list; nothing else changes |
| PoolProperties.DeallocateThenAllocate | includes/alloc.h:152-174 | `deallocate(p, n)` then `allocate(n)` returns `p` and restores the state |
| PoolProperties.AllocateThenDeallocate | includes/alloc.h:152-174 | a block popped and released again with the same size restores the state |
| PoolProperties.ChunkFullBatch | includes/alloc.h:216-220 | with room for the batch, the old `start_free` is returned, the arena start advances by `size * nobjs`, and `nobjs` is kept |
| PoolProperties.ChunkPartialBatch | includes/alloc.h:221-227 | with room for some blocks, `nobjs` becomes `bytes_left / size` (at least 1, fewer than asked) and the arena keeps less than one block |
| PoolProperties.ChunkGrowthFromSystem | includes/alloc.h:228-266 | as written, growth from the system salvages the leftover, takes two blocks of `bytes_to_get` (losing the first), adds `bytes_to_get` to `heap_size` once, and the retry returns the full batch |
| PoolProperties.ChunkGrowthNeedsTwice | includes/alloc.h:239-262 | because of the double request, growth ends out of memory when the system holds `bytes_to_get` but less than twice that |
| PoolProperties.ReplaceFromLargerClass | includes/alloc.h:239-257 | once `std::malloc` has failed, the head block of the first non-empty list of class at least `size` is unlinked and spans the new arena, which then holds at least `size` bytes |
| PoolProperties.GrowFromLargerClass | includes/alloc.h:240-257 | when the system refuses, the head of the first non-empty list of class at least `size` becomes the whole arena |
| PoolProperties.ChunkGrowthFromLargerClass | includes/alloc.h:216-257 | through the retry, the borrowed block yields the whole batch or as many blocks as fit, always at least one |
| PoolProperties.ChunkRetries | includes/alloc.h:228-266 | after a successful growth `chunk_alloc` is exactly itself on the grown state; after a failure it returns the failure |
| PoolProperties.ChunkExhausted | includes/alloc.h:240-263 | with no system memory and no block of a large enough class, `chunk_alloc` ends in `oom_malloc` |
| PoolProperties.RefillThreadsBatch | includes/alloc.h:183-206 | a batch of one changes no list; a larger batch returns its first block, and list `FREELIST_INDEX(n)` becomes the rest in address order, ending there |
| PoolProperties.BatchWithinRegion | includes/alloc.h:193-205 | the listed blocks lie end to end inside the carved region, pairwise apart |
| PoolProperties.FirstAllocate8 | includes/alloc.h:143-268 | from the zero state the first `allocate(8)` gets 320 bytes, sets `heap_size` to 320, returns one block, links 19 into list 0 and leaves 160 bytes in the arena |
| PoolAccounting.ListBytesUpdate | includes/alloc.h:101-103 | replacing one free list changes the bytes held on the lists by the change in its block count times its class size |
| PoolAccounting.SalvageHeld | includes/alloc.h:232-236 | salvaging puts exactly the leftover's bytes on the lists |
| PoolAccounting.ReplaceHeld | includes/alloc.h:238-265 | replacing the arena adds to the lists and arena exactly what it adds to `heap_size` (a borrowed block only moves, a `malloc_alloc` block is counted once); an empty list of the requested class stays empty |
| PoolAccounting.GrowHeld | includes/alloc.h:228-265 | growth, salvage included, adds to what the allocator holds exactly what it adds to `heap_size` |
| PoolAccounting.ChunkHeld | includes/alloc.h:209-268 | `chunk_alloc` holds `size * nobjs'` bytes less after handing them out, apart from what growth counted in `heap_size`; `heap_size` never shrinks |
| PoolAccounting.RefillHeld | includes/alloc.h:177-207 | on an empty list, `refill(n)` leaves the allocator holding `n` bytes less, apart from growth: one block goes out and the rest of the batch is listed |
| PoolAccounting.ListedHeld | includes/alloc.h:189-206 | once the chunk is carved (`ListChunk`), handing one block out and listing the other `nobjs - 1` on the empty list of size `n` moves `n * (nobjs - 1)` bytes onto the free lists, so the bytes held drop by exactly the `n` handed out |
| PoolAccounting.AllocateHeld | includes/alloc.h:152-159 | a small `allocate(n)` that returns a block leaves the allocator holding `ROUND_UP(n)` bytes less, apart from growth; on failure nothing leaves |
| PoolAccounting.DeallocateHeld | includes/alloc.h:172-174 | a small `deallocate(p, n)` gives the allocator `ROUND_UP(n)` bytes more and does not touch `heap_size` |
| PoolAccounting.InitialAccounted | includes/alloc.h:127-141 | at program start the lists, the arena, `heap_size` and the program's blocks all come to 0 |
| PoolAccounting.AllocateKeepsAccounted | includes/alloc.h:143-160 | `allocate` keeps `lists + arena + outstanding == heap_size`, moving `ROUND_UP(n)` bytes to the program for a small block |
| PoolAccounting.DeallocateKeepsAccounted | includes/alloc.h:162-175 | `deallocate` of a small block the program holds keeps the same equation, moving `ROUND_UP(n)` bytes back |
| PoolAccounting.VendedWithinHeap | includes/alloc.h:262-264 | under the equation, the small blocks the program holds never add up to more than `heap_size` |
| PoolAccounting.AllocateRepeatedSplit | includes/alloc.h:143-160 | `a + b` successive `allocate(n)` calls are `a` calls followed by `b` calls from the state they leave |
| PoolAccounting.AllocatePopsRepeated | includes/alloc.h:152-159 | `k` requests on a list of at least `k` blocks hand out its first `k` blocks in order and change nothing else |
| PoolAccounting.DeallocatePushesRepeated | includes/alloc.h:172-174 | each small release adds one block to the same list, the last released on top, and nothing else changes |
| PoolAccounting.AllocateFromArena | includes/alloc.h:154-157 | on an empty list with a whole batch in the arena, `allocate` carves 20 blocks without growing, returns the first and lists the other 19 |
| PoolAccounting.FirstTwentyAllocate8 | includes/alloc.h:143-268 | the first 20 `allocate(8)` calls of a program return one batch end to end, from one growth; all lists are then empty, 160 bytes remain in the arena and `heap_size` is 320 |
| PoolAccounting.NextFiveAllocate8 | includes/alloc.h:152-219 | 5 more calls carve a second batch from those 160 bytes, return its first 5 blocks end to end, leave 15 on list 0 and an empty arena, and keep `heap_size` |
| PoolAccounting.TwentyFiveAllocate8 | includes/alloc.h:143-268 | 25 `allocate(8)` calls from program start: 20 from the first batch, 5 from a second carved without growing, all end to end; 15 blocks stay on list 0 |
| PoolAccounting.TwentyFiveReleased8 | includes/alloc.h:162-175 | releasing those 25 blocks leaves 40 on list 0, the last released first, with `heap_size` still 320 |
| SimpleAlloc.RequestFor | includes/allocator.h:17-19 | no bytes are requested exactly when `n == 0`; otherwise `n * sizeof(T)` bytes are |
| SimpleAlloc.AllocBytes | includes/allocator.h:6-11 | under `__USE_MALLOC` the request goes to `malloc_alloc` only |
| SimpleAlloc.DeallocBytes | includes/allocator.h:6-11 | under `__USE_MALLOC` the release goes to `std::free` only |
| SimpleAlloc.AllocateN | includes/allocator.h:17-19 | `allocate(0)` is null with no call; otherwise it is `Alloc::allocate(n * sizeof(T))` |
| SimpleAlloc.AllocateOne | includes/allocator.h:17-22 | `allocate()` is `allocate(1)`: the same state and pointer as the counted form with a count of one, so it asks for exactly `sizeof(T)` bytes |
| SimpleAlloc.DeallocateN | includes/allocator.h:23-25 | `deallocate(p, 0)` does nothing; otherwise it releases `n * sizeof(T)` bytes |
| SimpleAlloc.DeallocateOne | includes/allocator.h:23-26 | `deallocate(p)` is `deallocate(p, 1)`: the same state as the counted form with a count of one, so it releases exactly `sizeof(T)` bytes |
| SimpleAlloc.DefaultRoutesBySize | includes/allocator.h:10-19 | with the pool, `n` objects come from list `FREELIST_INDEX(n * sizeof(T))` up to 128 bytes, and from `malloc_alloc` above |
| SimpleAlloc.DeallocateThenAllocateN | includes/allocator.h:17-25 | the release uses the same byte count as the allocation, so releasing and allocating again gives the same buffer back and restores the pool |
| SimpleAlloc.MallocBackendRoundTrip | includes/allocator.h:6-25 | under `__USE_MALLOC`, allocation takes the next `n * sizeof(T)` system bytes and the release returns them |
| SimpleAlloc.Allocate | includes/allocator.h:17-19 | on the pooled allocator object, the method does what `AllocateN` says |
| SimpleAlloc.Deallocate | includes/allocator.h:23-25 | on the pooled allocator object, the method does what `DeallocateN` says |
| StdAlgorithms.Fill | includes/vector.h:162 | `std::fill` writes `x` into exactly `[first, last)` |
| StdAlgorithms.FillN | includes/uninitialized.h:34 | `std::fill_n` writes `x` into exactly `n` slots and returns `first + n` |
| StdAlgorithms.Copy | includes/uninitialized.h:74 | `std::copy` writes the source range at `result`, also when overlapping as the standard allows, and returns its end |
| StdAlgorithms.CopyBackward | includes/vector.h:117 | `std::copy_backward` writes the source range to end at `d_last`, also when overlapping as the standard allows |
| StdAlgorithms.Memmove | includes/uninitialized.h:92 | `memmove` writes the source bytes at `result`, whatever the overlap |
| Uninitialized.UninitializedFillN | includes/uninitialized.h:17-28 | `n` copies of `x` from `first`, other slots untouched; returns `first + n`, on either path |
| Uninitialized.FillNPod | includes/uninitialized.h:30-35 | the POD path gives the same contents and result |
| Uninitialized.FillNConstruct | includes/uninitialized.h:37-46 | the construct loop gives the same contents and result |
| Uninitialized.UninitializedCopy | includes/uninitialized.h:54-67 | `result[k] = first[k]` for `k < last - first`, other slots untouched; returns `result + (last - first)`, on either path |
| Uninitialized.CopyPod | includes/uninitialized.h:69-75 | the POD path gives the same contents and result |
| Uninitialized.CopyConstruct | includes/uninitialized.h:77-88 | the construct loop gives the same contents and result |
| Uninitialized.UninitializedCopyChars | includes/uninitialized.h:90-94 | the `char` overload copies `last - first` characters and returns `result + (last - first)` |
| Uninitialized.WideCount | includes/uninitialized.h:98 | a byte count covers this many whole wide characters |
| Uninitialized.WideByteCount | includes/uninitialized.h:98 | `sizeof(wchar_t) * (last - first)` bytes are exactly `last - first` wide characters |
| Uninitialized.UninitializedCopyWide | includes/uninitialized.h:96-100 | the `wchar_t` overload copies `last - first` wide characters and returns `result + (last - first)` |
| VectorSpec.Inserted | includes/vector.h:148-194 | the inserted sequence is the prefix, the new elements, then the suffix |
| VectorSpec.Erased | includes/vector.h:78-90 | the erased sequence is the prefix before `first`, then everything from `last` |
| VectorSpec.Resized | includes/vector.h:92-97 | `resize` keeps the first `min(old, new)` elements, and new slots hold `x` |
| VectorSpec.DoubledCapacity | includes/vector.h:120-123 | a full buffer doubles, or becomes 1 when empty; either way there is room for one more element |
| VectorSpec.GrownCapacity | includes/vector.h:172-173 | the growth path allocates `old_size + max(old_size, n)` slots |
| VectorSpec.EraseUndoesInsert | includes/vector.h:78-194 | erasing the inserted range gives the original back |
| VectorSpec.InsertAtEndAppends | includes/vector.h:65-72 | inserting at the end appends |
| VectorSpec.PushGrowthAgreesWithInsert | includes/vector.h:123-173 | `push_back` grows a full buffer as `insert(end(), 1, x)` would |
| VectorSpec.ResizeLaws | includes/vector.h:92-97 | resizing to the current size changes nothing, and shrinking then growing keeps the common prefix |
| VectorSpec.AuxShiftInserts | includes/vector.h:113-118 | copying the last element into the spare slot, moving the rest of the tail up by one and storing `x` at `pos` gives the sequence with `x` inserted at `pos` |
| VectorSpec.ShiftBranchInserts | includes/vector.h:157-162 | the corrected `elems_after > n` steps produce the inserted sequence |
| VectorSpec.FillBranchInserts | includes/vector.h:163-169 | the `elems_after <= n` steps produce the inserted sequence |
| VectorSpec.ReallocInserts | includes/vector.h:171-193 | the growth steps produce the inserted sequence in the new buffer |
| VectorSpec.InsertShiftAsWritten | includes/vector.h:157-162 | as written, the branch leaves size `size + n + elems_after`, and its first `size + n` slots hold the prefix, `elems_after` copies of `x` and only the last `n` old elements |
| VectorSpec.InsertShiftAsWrittenSize | includes/vector.h:157-162 | as written, the size left always exceeds the intended one by more than `n` |
| VectorSpec.InsertShiftAsWrittenExample | includes/vector.h:157-162 | `[1, 2, 3]` with capacity 8 and `insert(begin(), 1, 0)` gives size 7 and `[0, 0, 0, 3]` where `[0, 1, 2, 3]` is intended |
| Vectors.Vector.Size | includes/vector.h:45 | `size()` is the number of elements |
| Vectors.Vector.Capacity | includes/vector.h:46-48 | `capacity()` is at least `size()` |
| Vectors.Vector.Empty | includes/vector.h:49 | `empty()` holds exactly when there are no elements |
| Vectors.Vector.constructor | includes/vector.h:52 | a new vector has no elements and no capacity |
| Vectors.Vector.Filled | includes/vector.h:31-56 | `vector(n, value)` holds `n` copies of `value` with capacity exactly `n` |
| Vectors.Vector.PushBack | includes/vector.h:65-72 | `x` is appended; with room the buffer and capacity stay, otherwise capacity doubles (1 when empty) |
| Vectors.Vector.PopBack | includes/vector.h:73-76 | the last element is dropped in the same buffer |
| Vectors.Vector.Erase | includes/vector.h:78-83 | exactly element `pos` is removed, later ones shift down, `pos` is returned and the buffer stays |
| Vectors.Vector.EraseRange | includes/vector.h:85-90 | `[first, last)` is removed, `first` is returned and the buffer stays |
| Vectors.Vector.Clear | includes/vector.h:100 | no elements remain and the buffer stays |
| Vectors.Vector.Resize | includes/vector.h:92-97 | the elements become `Resized(old, new_size, x)`; growth past capacity uses `insert`'s capacity rule |
| Vectors.Vector.InsertAux | includes/vector.h:111-146 | `x` is inserted at `pos`; with room the buffer stays, otherwise capacity doubles |
| Vectors.Vector.InsertAuxInPlace | includes/vector.h:113-118 | the in-place steps insert `x` at `pos` in the same buffer |
| Vectors.Vector.InsertAuxRealloc | includes/vector.h:119-145 | the reallocation holds the prefix, `x` and the tail, with doubled capacity |
| Vectors.Vector.Insert | includes/vector.h:148-194 | `n` copies of `x` are inserted at `pos` (nothing for `n == 0`); with room the buffer stays, otherwise capacity is `old_size + max(old_size, n)` |
| Vectors.Vector.InsertInPlace | includes/vector.h:153-170 | with room for `n`, the insertion happens in the same buffer |
| Vectors.Vector.ShiftTail | includes/vector.h:157-162 | the corrected `elems_after > n` branch inserts exactly `n` copies in place |
| Vectors.Vector.FillTail | includes/vector.h:163-169 | the `elems_after <= n` branch inserts exactly `n` copies in place |
| Vectors.Vector.InsertRealloc | includes/vector.h:171-193 | the growth path inserts the copies into a buffer of `old_size + max(old_size, n)` |
| ListLinks.TransferLinks | includes/list.h:243-253 | `transfer` adds and drops no node, and changes no link when `pos == last` |
| ListLinks.TransferLinksEffect | includes/list.h:243-253 | when the three nodes and their predecessors are distinct, the writes splice `[first, last)` before `pos`, and every other pointer is kept |
| ListLinks.TransferAcross | includes/list.h:243-253 | moving `[a, b)` of one list before position `p` of another keeps both lists well formed, with the range inserted and removed, in order |
| ListLinks.TransferWithin | includes/list.h:243-253 | moving a range within one list, with `pos` outside it, keeps the list well formed with the range moved |
| ListEdits.Step | includes/list.h:36-47 | `++it` and `--it` move to the next and previous positions of the list |
| ListEdits.Walk | includes/list.h:36-47 | walking a list, the node at position `p` is the sentinel only at `end()`, `++` leads to position `p + 1` (from `end()` to `begin()`), and `--` to `p - 1` |
| ListEdits.EmptyLinks | includes/list.h:79 | the sentinel points to itself exactly when the list is empty |
| ListEdits.InsertLinks | includes/list.h:102-109 | the four writes of `insert` leave a well-formed list with the new node at position `p` |
| ListEdits.EraseLinks | includes/list.h:114-121 | the two writes of `erase` leave a well-formed list without the element at `p` |
| ListEdits.ClearLinks | includes/list.h:129-138 | once the nodes are given back and the sentinel points to itself, the list is well formed and empty |
| ListEdits.TransferStore | includes/list.h:243-253 | `transfer` keeps every list of the store well formed |
| ListEdits.SpliceOneGuard | includes/list.h:175-182 | `pos == i` or `pos == ++i` is exactly when the one-element splice would change nothing |
| ListEdits.MergeTailAsWrittenCorrupts | includes/list.h:205-207 | as written, merging an empty list into an empty list breaks the target list: no sequence of elements describes it afterwards |
| ListSpec.RemoveNodes | includes/list.h:140-151 | no node kept by `remove(v)` holds `v` |
| ListSpec.RemoveCounts | includes/list.h:140-151 | after `remove(v)` no value is `v`, and every other value occurs as often as before |
| ListSpec.RemoveKeepsNodes | includes/list.h:140-151 | `remove` only drops nodes |
| ListSpec.RemoveNoop | includes/list.h:140-151 | a list without `v` is unchanged by `remove(v)` |
| ListSpec.RemoveIdempotent | includes/list.h:140-151 | a second `remove(v)` changes nothing |
| ListSpec.UniqueNodes | includes/list.h:153-168 | `unique` keeps something from a non-empty list, ending with the last value |
| ListSpec.UniqueKeepsNodes | includes/list.h:153-168 | `unique` only drops nodes and keeps the first |
| ListSpec.UniqueAdjacent | includes/list.h:153-168 | afterwards no two neighbours hold equal values |
| ListSpec.UniqueSameValues | includes/list.h:153-168 | every value that occurred still occurs, and none is added |
| ListSpec.UniqueNoop | includes/list.h:153-168 | a list without equal neighbours is unchanged |
| ListSpec.UniqueIdempotent | includes/list.h:153-168 | a second `unique` changes nothing |
| ListSpec.UniqueSorted | includes/list.h:153-168 | on a sorted list `unique` leaves each value once, strictly increasing |
| ListSpec.MergeNodesPermutes | includes/list.h:191-208 | merging loses and invents no node |
| ListSpec.MergeValues | includes/list.h:191-208 | the merged values are the values of both lists together |
| ListSpec.MergeHead | includes/list.h:196-203 | the first merged node is one of the two heads |
| ListSpec.MergeSorted | includes/list.h:191-208 | merging two ascending lists gives an ascending list |
| ListSpec.Reversed | includes/list.h:210-219 | reversal keeps the length |
| ListSpec.ReversedAt | includes/list.h:210-219 | position `k` of the reversal holds what position `n - 1 - k` held |
| ListSpec.ReversedTwice | includes/list.h:210-219 | reversing twice gives the list back |
| ListSpec.ReversedValues | includes/list.h:210-219 | the values of the reversed nodes are the reversed values, and no node is lost |
| ListSpec.PartitionValues | includes/list.h:255-269 | `partition` keeps the length and returns a position inside `[a, b)` |
| ListSpec.LomutoPartitions | includes/list.h:260-268 | the loop, from any state it can reach, ends with `[a, b)` rearranged, the pivot at `m`, smaller values before it and the rest after it |
| ListSpec.PartitionCorrect | includes/list.h:255-269 | `partition` rearranges `[a, b)` so the old last value sits at `m`, all values before it are smaller, and none after it is |
| ListSpec.QuicksortCorrect | includes/list.h:221-227 | partitioning and then sorting both sides leaves `[a, b)` ascending and a rearrangement of the original |
| ListSpec.ShortSorted | includes/list.h:222 | a range of at most one element is already sorted |
| ListSpec.PartitionStep | includes/list.h:260-265 | one comparison and swap extends one of the two runs and keeps the values of the range |
| ListSpec.PartitionEnd | includes/list.h:266-268 | the final swap puts the pivot between the two runs |
| ListSpec.QuicksortStep | includes/list.h:221-227 | two sorted sides around a pivot placed by `partition` make a sorted range |
| Lists.ListStore.NewList | includes/list.h:237-241 | a new sentinel, linked to itself both ways, is a new empty list, and no other list changes |
| Lists.ListStore.Empty | includes/list.h:79 | `empty()` holds exactly when the list has no elements |
| Lists.ListStore.Front | includes/list.h:85 | `front()` is the first value |
| Lists.ListStore.Back | includes/list.h:86 | `back()` is the last value |
| Lists.ListStore.Insert | includes/list.h:102-109 | a new node holding `x` is at position `p`, just before `pos`; it is returned and every other element keeps its place |
| Lists.ListStore.PushFront | includes/list.h:111 | `x` becomes the first element |
| Lists.ListStore.PushBack | includes/list.h:112 | `x` becomes the last element |
| Lists.ListStore.Erase | includes/list.h:114-121 | exactly the element at `p` is removed, its node is given back, and its successor is returned |
| Lists.ListStore.PopFront | includes/list.h:123 | the first element is removed |
| Lists.ListStore.PopBack | includes/list.h:124-127 | the last element is removed |
| Lists.ListStore.Clear | includes/list.h:129-138 | the list becomes empty, all its nodes are given back, and the sentinel points to itself |
| Lists.ListStore.Transfer | includes/list.h:243-253 | the links are `TransferLinks`; `[a, b)` is moved, in order, before `pos`, into the other list or within the same one, and nothing is lost or duplicated |
| Lists.ListStore.SpliceList | includes/list.h:170-173 | all of `x` is inserted before `pos` and `x` is left empty |
| Lists.ListStore.SpliceOne | includes/list.h:175-182 | element `i` is moved before `pos`, unless `pos` is `i` or the one after it |
| Lists.ListStore.SpliceRange | includes/list.h:184-189 | `[first, last)` is moved, in order, before `pos`; nothing happens for an empty range |
| Lists.ListStore.RemoveVisit | includes/list.h:143-149 | one visit erases `first` exactly when it holds `value` and moves on to the next original element |
| Lists.ListStore.Remove | includes/list.h:140-151 | the list becomes `RemoveNodes`: every element equal to `value` is erased, and the rest keep their order |
| Lists.ListStore.UniqueVisit | includes/list.h:159-166 | one visit erases `next` exactly when its value equals that of the last kept element |
| Lists.ListStore.Unique | includes/list.h:153-168 | the list becomes `UniqueNodes`: of every run of equal values only the first stays |
| Lists.ListStore.MergeTurn | includes/list.h:196-203 | one turn moves the head of `x` before `first1` when it is smaller, and otherwise passes `first1`; the merged prefix grows by the node `MergeNodes` takes next |
| Lists.ListStore.MergeTail | includes/list.h:205-207 | with the corrected guard, the rest of `x` completes the merge and `x` is empty |
| Lists.ListStore.Merge | includes/list.h:191-208 | with the corrected guard, the list becomes `MergeNodes` of both lists and `x` is empty |
| Lists.ListStore.ReverseTurn | includes/list.h:214-218 | one turn moves the next original element to the front, which reverses one more element |
| Lists.ListStore.Reverse | includes/list.h:210-219 | the list becomes its reversal; fewer than two elements are left alone |
| Lists.ListStore.PartitionVisit | includes/list.h:260-265 | one visit swaps values exactly as `Lomuto` does, touching only values in `[a, b)` and no link |
| Lists.ListStore.SwapData | includes/list.h:263-267 | `std::swap` of two nodes' values exchanges exactly those two values and leaves every link and list as it was |
| Lists.ListStore.PivotPlace | includes/list.h:266-268 | the final swap gives the values and pivot position `Lomuto` gives; the pivot's node is returned |
| Lists.ListStore.Partition | includes/list.h:255-269 | the values become `PartitionValues` and the pivot's node is returned; no link changes and no value outside `[a, b)` changes |
| Lists.ListStore.Sort | includes/list.h:221-227 | `[a, b)` becomes ascending and a rearrangement of its values; links and values outside the range are unchanged |

## Left out

- `std::malloc` and `std::free` are foreign calls. They are modelled as a supply of fresh addresses (`top`, `avail`) that fails when `avail` is too small, and they never reuse freed memory.
- The handler-retry loop of `oom_malloc` (alloc.h:54-62) is a possibly endless loop through foreign code. `OomOutcome` summarises it as `Exit` (no handler) or `HandlerLoop` (a handler is installed), and the model does not retry.
- `__THROW_BAD_ALLOC` prints and calls `exit(1)`. That is I/O and process termination; the model returns `Exit`.
- `reallocate` and `oom_realloc` are left out. The pool's `reallocate` is declared but never defined.
- The `threads` template parameter and the `volatile` qualifiers are left out, because no concurrency is implemented.
- `construct.h` is not part of this model. Constructing an element is writing it, and destroying it is a no-op.
- `uninitialized_fill` and its aux functions (uninitialized.h:102-132) are left out: their `Size` parameter cannot be deduced, so they cannot be called as written.
- The exception rollback of `vector` (vector.h:127-137, 177-186) is left out, because the model has no exceptions.
- `_traversal` in `vector` and `list` only prints to the console.
- `vector::front`, `back`, `at`, `operator[]`, `begin` and `end` only read a slot or an index.
- The vector's element type must have a default value (`T(0)`): Dafny arrays need one to be created. Raw memory past `finish` is modelled as holding such values.
- `vector::deallocate` and the destructor are left out. A new buffer is a fresh array, so the memory a vector takes from `simple_alloc` is not tied to the pool model.
- `Uninitialized.UninitializedCopyWide`: `wchar_t` is a 32-bit code unit, and `memmove` is modelled on whole characters rather than on bytes.
- `list::size()` uses `distance` from a header that is not shown; it is the length of the element sequence.
- `__list_iterator`'s post-decrement returns `*this` instead of the saved copy (list.h:49-53). No list operation uses it, so it is left out.
- List nodes never return to the pool: `get_node` appends a fresh node number, and `put_node` only marks the node as given back (owner -1).
- List elements are `int`, compared with `==` and `<`.
- `Lists.ListStore.Merge` requires `x` to be another list, so `x.merge(x)` is not modelled. In the source a list merged with itself can loop forever. On the sorted list `[1, 1, 2]`, `first1` advances to the `2` while `first2` stays on the first `1`. After that, the loop of list.h:196-204 moves the two `1` nodes in front of the `2` in turn, and `first2` never reaches `last2`.
- `PoolAlloc.DeallocateSpec` and `PoolAlloc.DefaultAlloc.Deallocate` require a non-null block, as do the pool-level `deallocate` members built on them. The source also accepts `deallocate(0, n)` with `n > 128`, which goes to `free(0)` and does nothing (alloc.h:168-170). No caller in this model passes null: `vector` frees its buffer only `if (start)` (vector.h:29), and list nodes are never null.
- `Lists.ListStore.Partition` requires a non-empty range. Its only caller, `sort`, calls it on two or more elements.
- The model's sizes, counts and addresses are unbounded integers, so no computation wraps round as `size_t` does: `n * sizeof(T)` in `simple_alloc` (allocator.h:18, 24), `bytes_to_get` and `heap_size += bytes_to_get` in `chunk_alloc` (alloc.h:230, 264), and the new capacities `2 * old_size` and `old_size + max(old_size, n)` of `vector` (vector.h:123, 173). Counts are `nat`, so the `vector(int n, const T&)` and `vector(long long n, const T&)` constructors (vector.h:54-55) are modelled only for `n >= 0`; a negative `n` converts to a huge `size_t` in the source.
- `explicit vector(size_type n)` (vector.h:56) and the one-argument `resize(n)` (vector.h:99) are `Vectors.Vector.Filled` and `Vectors.Vector.Resize` with `T()` as the value, and have no members of their own.
- The tests (`includes/tests`, `test.h`, `rtest.h`) are a console harness with random inputs.

## Findings

| source | as written | input that shows it | evidently intended | confidence | as-written member | corrected member |
|---|---|---|---|---|---|---|
| includes/list.h:205 | the tail transfer of `merge` runs when `first1 != first2`; the two iterators point into different lists, so it runs even when `x` is used up, as `transfer(end(), x.end(), x.end())` | merge an empty list into an empty list: the sentinel of `*this` ends up pointing at the sentinel of `x`, and no sequence of elements describes `*this` | guard the transfer with `first2 != last2` | not executed | ListEdits.MergeTailAsWrittenCorrupts | Lists.ListStore.Merge |
| includes/vector.h:157-162 | with `elems_after > n`, `copy_backward` moves the whole tail, `finish` advances by `n + elems_after`, and `fill` covers `[pos, old_finish)`; the defect is latent, because `insert(pos, n, x)` is `protected` (vector.h:26) and its only caller, `resize` (vector.h:96), passes `end()`, so `elems_after` is 0 and only the other two branches run; a derived class can reach it | a derived class calling `insert(begin(), 1, 0)` on `[1, 2, 3]` with capacity 8 gets size 7, starting `[0, 0, 0, 3]` | move `[pos, old_finish - n)`, advance `finish` by `n`, and fill `[pos, pos + n)` | not executed | VectorSpec.InsertShiftAsWrittenExample | Vectors.Vector.ShiftTail |
