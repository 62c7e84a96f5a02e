/** Size-class arithmetic of the pooled allocator: every small request is
    served from one of 16 classes of 8, 16, ..., 128 bytes. */
module SizeClass {

  /** `__ALIGN`: every size class is a multiple of this many bytes. */
  const Align: nat := 8
  /** `__MAX_BYTES`: requests above this bypass the free lists. */
  const MaxBytes: nat := 128
  /** `__NFREELISTS`: the number of free lists (one per size class). */
  const NFreeLists: nat := 16

  /** `ROUND_UP`: `(bytes + 7) & ~7`. For a non-negative number, clearing the
      low three bits is the same as subtracting the remainder modulo 8. */
  function RoundUp(bytes: nat): (r: nat)
    ensures r % Align == 0
    ensures bytes <= r < bytes + Align
  {
    (bytes + Align - 1) - (bytes + Align - 1) % Align
  }

  /** `ROUND_UP(bytes)` is the LEAST multiple of 8 that is at least `bytes`. */
  lemma RoundUpIsLeast(bytes: nat, m: nat)
    requires m % Align == 0 && bytes <= m
    ensures RoundUp(bytes) <= m
  {
  }

  /** `FREELIST_INDEX`: `(bytes + 7) / 8 - 1`. Never called with 0 (the
      source would wrap round to the largest `size_t`). */
  function FreeListIndex(bytes: nat): (r: nat)
    requires bytes >= 1
    ensures r == RoundUp(bytes) / Align - 1
    ensures (r + 1) * Align == RoundUp(bytes)
    ensures bytes <= MaxBytes ==> r < NFreeLists
  {
    (bytes + Align - 1) / Align - 1
  }

  /** The size of the blocks held by free list `i`. */
  function ClassSize(i: nat): (r: nat)
    requires i < NFreeLists
    ensures r % Align == 0 && Align <= r <= MaxBytes
    ensures FreeListIndex(r) == i
  {
    (i + 1) * Align
  }

  /** A size that is already a multiple of 8 names its class exactly:
      the class of a rounded size holds blocks of exactly that size. */
  lemma {:induction false} IndexOfRoundedSize(bytes: nat)
    requires 1 <= bytes <= MaxBytes
    ensures FreeListIndex(RoundUp(bytes)) == FreeListIndex(bytes)
    ensures ClassSize(FreeListIndex(bytes)) == RoundUp(bytes)
  {
  }

  /** The bounds of the table: the smallest class is 0 and the largest 15. */
  lemma IndexBounds()
    ensures FreeListIndex(1) == 0 && FreeListIndex(Align) == 0
    ensures FreeListIndex(MaxBytes) == NFreeLists - 1
  {
  }

  /** `FREELIST_INDEX` never decreases as the request grows. */
  lemma IndexMonotonic(a: nat, b: nat)
    requires 1 <= a <= b
    ensures FreeListIndex(a) <= FreeListIndex(b)
  {
  }
}
