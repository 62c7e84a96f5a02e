/** The standard algorithms the containers and the uninitialized-memory
    functions delegate to (`std::fill`, `std::fill_n`, `std::copy`,
    `std::copy_backward` from `<algorithm>`, and `memmove`), on a buffer
    modelled as an array with iterators as indices. Each is specified by
    what it leaves in the destination; `std::copy` and `std::copy_backward`
    are allowed the overlaps the standard allows them, which is how the
    vector uses them to shift its own elements. */
module StdAlgorithms {
  import opened Ranges

  /** `std::fill(first, last, x)` */
  method Fill<T>(a: array<T>, first: nat, last: nat, x: T)
    requires first <= last <= a.Length
    modifies a
    ensures a[..] == Overwrite(old(a[..]), first, Repeat(x, last - first))
  {
    forall k | first <= k < last {
      a[k] := x;
    }
  }

  /** `std::fill_n(first, n, x)`: returns the end of the filled range. */
  method FillN<T>(a: array<T>, first: nat, n: nat, x: T) returns (r: nat)
    requires first + n <= a.Length
    modifies a
    ensures r == first + n
    ensures a[..] == Overwrite(old(a[..]), first, Repeat(x, n))
  {
    forall k | first <= k < first + n {
      a[k] := x;
    }
    r := first + n;
  }

  /** `std::copy(first, last, result)`: a forward copy, so the destination
      may overlap the source as long as it does not start inside it. */
  method Copy<T>(src: array<T>, first: nat, last: nat, dst: array<T>, result: nat) returns (r: nat)
    requires first <= last <= src.Length && result + (last - first) <= dst.Length
    requires src == dst ==> result <= first || last <= result
    modifies dst
    ensures r == result + (last - first)
    ensures dst[..] == Overwrite(old(dst[..]), result, old(src[first..last]))
  {
    ghost var orig := src[..];
    var i := 0;
    while first + i != last
      invariant 0 <= i <= last - first
      invariant dst[..] == Overwrite(old(dst[..]), result, orig[first..first + i])
      // the part of the source still to be read has not been written over
      invariant forall j | first + i <= j < last :: src[j] == orig[j]
    {
      var v := src[first + i];
      ForwardStep(old(dst[..]), orig, dst[..], first, i, result);
      dst[result + i] := v;
      i := i + 1;
    }
    r := result + i;
  }

  /** `std::copy_backward(first, last, d_last)`: a backward copy ending at
      `d_last`, so the destination may overlap the source as long as
      `d_last` is not inside `(first, last]`. Returns the start of the
      written range. */
  method CopyBackward<T>(src: array<T>, first: nat, last: nat, dst: array<T>, dLast: nat) returns (r: nat)
    requires first <= last <= src.Length && last - first <= dLast <= dst.Length
    requires src == dst ==> dLast <= first || last < dLast
    modifies dst
    ensures r == dLast - (last - first)
    ensures dst[..] == Overwrite(old(dst[..]), r, old(src[first..last]))
  {
    ghost var orig := src[..];
    ghost var d0 := dst[..];
    var from, to := last, dLast;
    while from != first
      invariant first <= from <= last && to == dLast - (last - from)
      invariant dst[..] == Overwrite(d0, to, orig[from..last])
      invariant forall j | first <= j < from :: src[j] == orig[j]
    {
      var from', to' := from - 1, to - 1;
      var v := src[from'];
      BackwardStep(d0, orig, dst[..], from, last, to);
      dst[to'] := v;
      from, to := from', to';
    }
    r := to;
  }

  /** One step of `Copy`: writing the next source element just after the
      written range extends it by one. */
  lemma ForwardStep<T>(d0: seq<T>, orig: seq<T>, cur: seq<T>, first: nat, i: nat, result: nat)
    requires first + i < |orig| && result + i < |d0|
    requires cur == Overwrite(d0, result, orig[first..first + i])
    ensures cur[result + i := orig[first + i]] == Overwrite(d0, result, orig[first..first + i + 1])
  {
    OverwriteSnoc(d0, result, orig[first..first + i], orig[first + i]);
    SliceExtendBack(orig, first, first + i);
  }

  /** One step of `CopyBackward`: writing the source element before
      `from` just before the written range extends it by one. */
  lemma BackwardStep<T>(d0: seq<T>, orig: seq<T>, cur: seq<T>, from: nat, last: nat, to: nat)
    requires 1 <= from <= last <= |orig| && 1 <= to && to + (last - from) <= |d0|
    requires cur == Overwrite(d0, to, orig[from..last])
    ensures cur[to - 1 := orig[from - 1]] == Overwrite(d0, to - 1, orig[from - 1..last])
  {
    OverwriteCons(d0, to, orig[from..last], orig[from - 1]);
    SliceExtendFront(orig, from, last);
  }

  /** `memmove(result, first, count)`: the source is read as if into a
      temporary first, so any overlap is allowed. */
  method Memmove<T>(src: array<T>, first: nat, dst: array<T>, result: nat, count: nat)
    requires first + count <= src.Length && result + count <= dst.Length
    modifies dst
    ensures dst[..] == Overwrite(old(dst[..]), result, old(src[first..first + count]))
  {
    var tmp := src[first..first + count];
    forall k | 0 <= k < count {
      dst[result + k] := tmp[k];
    }
  }
}
