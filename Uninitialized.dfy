/** Construction into raw memory (uninitialized.h:13-100). Each function
    dispatches on whether the element type is plain old data: a POD type
    goes to the standard algorithm, anything else to a loop that
    copy-constructs one element at a time. The model has no constructors
    with side effects, so constructing an element in a slot is writing it
    there; `isPod` stands for `_type_traits<T>::is_POD_type`, a property of
    the element type. Both paths are proved to leave the same contents. */
module Uninitialized {
  import opened Ranges
  import opened StdAlgorithms

  /** `uninitialized_fill_n(first, n, x)` (uninitialized.h:17-28): `n` copies
      of `x` from `first`; returns `first + n`. */
  method UninitializedFillN<T>(a: array<T>, first: nat, n: nat, x: T, isPod: bool) returns (r: nat)
    requires first + n <= a.Length
    modifies a
    ensures r == first + n
    ensures a[..] == Overwrite(old(a[..]), first, Repeat(x, n))
  {
    if isPod {
      r := FillNPod(a, first, n, x);
    } else {
      r := FillNConstruct(a, first, n, x);
    }
  }

  /** The POD path (uninitialized.h:30-35): `std::fill_n`. */
  method FillNPod<T>(a: array<T>, first: nat, n: nat, x: T) returns (r: nat)
    requires first + n <= a.Length
    modifies a
    ensures r == first + n
    ensures a[..] == Overwrite(old(a[..]), first, Repeat(x, n))
  {
    r := FillN(a, first, n, x);
  }

  /** The non-POD path (uninitialized.h:37-46): construct `x` in each slot,
      counting `n` down while `cur` advances. */
  method FillNConstruct<T>(a: array<T>, first: nat, n: nat, x: T) returns (r: nat)
    requires first + n <= a.Length
    modifies a
    ensures r == first + n
    ensures a[..] == Overwrite(old(a[..]), first, Repeat(x, n))
  {
    var cur: nat, left: nat := first, n;
    while left > 0
      invariant first <= cur && cur + left == first + n
      invariant a[..] == Overwrite(old(a[..]), first, Repeat(x, cur - first))
    {
      OverwriteSnoc(old(a[..]), first, Repeat(x, cur - first), x);
      assert Repeat(x, cur - first) + [x] == Repeat(x, cur + 1 - first);
      a[cur] := x;
      left, cur := left - 1, cur + 1;
    }
    r := cur;
  }

  /** `uninitialized_copy(first, last, result)` (uninitialized.h:54-67): the
      elements of `[first, last)` constructed into `[result, result +
      (last - first))`; returns the end of the destination range. The
      destination is raw memory, so it cannot overlap the live source. */
  method UninitializedCopy<T>(src: array<T>, first: nat, last: nat, dst: array<T>, result: nat, isPod: bool)
    returns (r: nat)
    requires first <= last <= src.Length && result + (last - first) <= dst.Length
    requires src == dst ==> result + (last - first) <= first || last <= result
    modifies dst
    ensures r == result + (last - first)
    ensures dst[..] == Overwrite(old(dst[..]), result, old(src[first..last]))
  {
    if isPod {
      r := CopyPod(src, first, last, dst, result);
    } else {
      r := CopyConstruct(src, first, last, dst, result);
    }
  }

  /** The POD path (uninitialized.h:69-75): `std::copy`. */
  method CopyPod<T>(src: array<T>, first: nat, last: nat, dst: array<T>, result: nat) returns (r: nat)
    requires first <= last <= src.Length && result + (last - first) <= dst.Length
    requires src == dst ==> result + (last - first) <= first || last <= result
    modifies dst
    ensures r == result + (last - first)
    ensures dst[..] == Overwrite(old(dst[..]), result, old(src[first..last]))
  {
    r := Copy(src, first, last, dst, result);
  }

  /** The non-POD path (uninitialized.h:77-88): construct a copy of each
      source element, advancing `first` and `cur` together. */
  method CopyConstruct<T>(src: array<T>, first: nat, last: nat, dst: array<T>, result: nat) returns (r: nat)
    requires first <= last <= src.Length && result + (last - first) <= dst.Length
    requires src == dst ==> result + (last - first) <= first || last <= result
    modifies dst
    ensures r == result + (last - first)
    ensures dst[..] == Overwrite(old(dst[..]), result, old(src[first..last]))
  {
    ghost var orig := src[..];
    var from, cur := first, result;
    while from != last
      invariant first <= from <= last && cur == result + (from - first)
      invariant dst[..] == Overwrite(old(dst[..]), result, orig[first..from])
      invariant forall j | first <= j < last :: src[j] == orig[j]
    {
      var v := src[from];
      OverwriteSnoc(old(dst[..]), result, orig[first..from], v);
      SliceExtendBack(orig, first, from);
      dst[cur] := v;
      from, cur := from + 1, cur + 1;
    }
    r := cur;
  }

  /** `uninitialized_copy` for `char` (uninitialized.h:90-94):
      `memmove(result, first, last - first)`, one byte per character. */
  method UninitializedCopyChars(src: array<char>, first: nat, last: nat, dst: array<char>, result: nat)
    returns (r: nat)
    requires first <= last <= src.Length && result + (last - first) <= dst.Length
    modifies dst
    ensures r == result + (last - first)
    ensures dst[..] == Overwrite(old(dst[..]), result, old(src[first..last]))
  {
    Memmove(src, first, dst, result, last - first);
    r := result + (last - first);
  }

  /** A `wchar_t`: a 32-bit code unit. */
  newtype WChar = x: int | 0 <= x < 0x1_0000_0000

  /** `sizeof(wchar_t)` */
  const WCharSize: nat := 4

  /** The number of whole wide characters in a `memmove` of `bytes` bytes. */
  function WideCount(bytes: nat): (n: nat)
    ensures n * WCharSize <= bytes < (n + 1) * WCharSize
  {
    bytes / WCharSize
  }

  /** `memmove(result, first, sizeof(wchar_t) * (last - first))` moves exactly
      `last - first` wide characters. */
  lemma WideByteCount(count: nat)
    ensures WideCount(WCharSize * count) == count
  {
  }

  /** `uninitialized_copy` for `wchar_t` (uninitialized.h:96-100): `memmove`
      of `sizeof(wchar_t) * (last - first)` bytes, which is `last - first`
      wide characters. */
  method UninitializedCopyWide(src: array<WChar>, first: nat, last: nat, dst: array<WChar>, result: nat)
    returns (r: nat)
    requires first <= last <= src.Length && result + (last - first) <= dst.Length
    modifies dst
    ensures r == result + (last - first)
    ensures dst[..] == Overwrite(old(dst[..]), result, old(src[first..last]))
  {
    var bytes := WCharSize * (last - first);
    WideByteCount(last - first);
    Memmove(src, first, dst, result, WideCount(bytes));
    r := result + (last - first);
  }
}
