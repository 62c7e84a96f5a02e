/** `vector<T>` (vector.h:10-194): a buffer with three cursors. The buffer
    `[start, end_of_storage)` is the array `storage`, `start` is its index
    0, and `finish` is an index into it. The elements are `storage[..finish]`
    and the rest of the buffer is raw memory. `isPod` stands for
    `_type_traits<T>::is_POD_type`, which picks the path the uninitialized
    algorithms take. Every operation is proved to produce the element
    sequence `VectorSpec` gives for it. */
module Vectors {
  import opened Ranges
  import opened StdAlgorithms
  import opened Uninitialized
  import opened VectorSpec

  class Vector<T(0)> {
    /** `[start, end_of_storage)` */
    var storage: array<T>
    /** `finish - start` */
    var finish: nat
    const isPod: bool

    ghost predicate Valid()
      reads this
    {
      finish <= storage.Length
    }

    /** The elements `[start, finish)`. */
    ghost function Elements(): seq<T>
      reads this, storage
      requires Valid()
    {
      storage[..finish]
    }

    /** `size()` (vector.h:45) */
    function Size(): (n: nat)
      reads this, storage
      requires Valid()
      ensures n == |Elements()|
    {
      finish
    }

    /** `capacity()` (vector.h:46-48) */
    function Capacity(): (c: nat)
      reads this
      requires Valid()
      ensures c >= Size()
    {
      storage.Length
    }

    /** `empty()` (vector.h:49) */
    function Empty(): (b: bool)
      reads this, storage
      requires Valid()
      ensures b <==> Elements() == []
    {
      finish == 0
    }

    /** `vector()` (vector.h:52): all three cursors null. */
    constructor (isPod: bool)
      ensures Valid() && Elements() == [] && Capacity() == 0 && this.isPod == isPod
    {
      storage := new T[0];
      finish := 0;
      this.isPod := isPod;
    }

    /** `vector(n, value)` through `fill_initialize` and `allocate_and_fill`
        (vector.h:31-40, 53-56): a buffer of exactly `n` slots, all `value`. */
    constructor Filled(n: nat, value: T, isPod: bool)
      ensures Valid() && Elements() == Repeat(value, n) && Capacity() == n
      ensures this.isPod == isPod
    {
      var result := new T[n];
      var end := UninitializedFillN(result, 0, n, value, isPod);
      storage := result;
      finish := end;
      this.isPod := isPod;
      new;
      assert storage[..] == storage[..finish];
    }

    /** `push_back(x)` (vector.h:65-72) */
    method PushBack(x: T)
      requires Valid()
      modifies this, storage
      ensures Valid() && Elements() == old(Elements()) + [x]
      ensures old(Size()) < old(Capacity()) ==> storage == old(storage)
      ensures Capacity() == if old(Size()) < old(Capacity()) then old(Capacity()) else DoubledCapacity(old(Size()))
    {
      if finish != storage.Length {
        storage[finish] := x;
        finish := finish + 1;
      } else {
        InsertAux(finish, x);
        InsertAtEndAppends(old(Elements()), [x]);
      }
    }

    /** `pop_back()` (vector.h:73-76): undefined on an empty vector. */
    method PopBack()
      requires Valid() && Size() > 0
      modifies this
      ensures Valid() && Elements() == old(Elements())[..old(Size()) - 1]
      ensures storage == old(storage)
    {
      finish := finish - 1;
    }

    /** `erase(pos)` (vector.h:78-83): the later elements move down by one;
        returns `pos`. */
    method Erase(pos: nat) returns (r: nat)
      requires Valid() && pos < Size()
      modifies this, storage
      ensures Valid() && r == pos
      ensures Elements() == Erased(old(Elements()), pos, pos + 1)
      ensures storage == old(storage)
    {
      ghost var b := storage[..];
      if pos + 1 != finish {
        var _ := Copy(storage, pos + 1, finish, storage, pos);
      }
      finish := finish - 1;
      assert Elements() == Erased(b[..old(finish)], pos, pos + 1);
      r := pos;
    }

    /** `erase(first, last)` (vector.h:85-90): returns `first`. */
    method EraseRange(first: nat, last: nat) returns (r: nat)
      requires Valid() && first <= last <= Size()
      modifies this, storage
      ensures Valid() && r == first
      ensures Elements() == Erased(old(Elements()), first, last)
      ensures storage == old(storage)
    {
      ghost var b := storage[..];
      var i := Copy(storage, last, finish, storage, first);
      finish := finish - (last - first);
      assert Elements() == Erased(b[..old(finish)], first, last);
      r := first;
    }

    /** `clear()` (vector.h:100) */
    method Clear()
      requires Valid()
      modifies this, storage
      ensures Valid() && Elements() == [] && storage == old(storage)
    {
      var _ := EraseRange(0, finish);
    }

    /** `resize(new_size, x)` (vector.h:92-97) */
    method Resize(newSize: nat, x: T)
      requires Valid()
      modifies this, storage
      ensures Valid() && Elements() == Resized(old(Elements()), newSize, x)
      ensures old(Capacity()) >= newSize ==> storage == old(storage)
      ensures old(Capacity()) < newSize ==> Capacity() == GrownCapacity(old(Size()), newSize - old(Size()))
    {
      if newSize < finish {
        var _ := EraseRange(newSize, finish);
      } else {
        Insert(finish, newSize - finish, x);
      }
    }

    /** `insert_aux(pos, x)` (vector.h:111-146). With spare room, the slot
        before `finish` is read, so the source needs `pos` to be before the
        end there; the only caller, `push_back`, reaches it only when the
        buffer is full. */
    method InsertAux(pos: nat, x: T)
      requires Valid() && pos <= Size()
      requires Size() < Capacity() ==> pos < Size()
      modifies this, storage
      ensures Valid() && Elements() == Inserted(old(Elements()), pos, [x])
      ensures old(Size()) < old(Capacity()) ==> storage == old(storage)
      ensures Capacity() == if old(Size()) < old(Capacity()) then old(Capacity()) else DoubledCapacity(old(Size()))
    {
      if finish != storage.Length {
        InsertAuxInPlace(pos, x);
      } else {
        InsertAuxRealloc(pos, x);
      }
    }

    /** Lines 113-118 of `insert_aux`: the last element is copied into the
        raw slot at `finish`, the rest of the tail moves up by one, and `x`
        is stored at `pos`. */
    method InsertAuxInPlace(pos: nat, x: T)
      requires Valid() && pos < Size() < Capacity()
      modifies this, storage
      ensures Valid() && Elements() == Inserted(old(Elements()), pos, [x])
      ensures storage == old(storage)
    {
      ghost var b := storage[..];
      ghost var size := finish;
      storage[finish] := storage[finish - 1];
      finish := finish + 1;
      ghost var b1 := storage[..];
      assert b1 == b[size := b[size - 1]];
      var xCopy := x;
      var _ := CopyBackward(storage, pos, finish - 2, storage, finish - 1);
      assert storage[..] == Overwrite(b1, pos + 1, b1[pos..size - 1]);
      storage[pos] := xCopy;
      AuxShiftInserts(b, size, pos, x);
    }

    /** Lines 119-145 of `insert_aux`: a buffer of twice the size (1 when
        empty) holding the prefix, `x` and the tail. */
    method InsertAuxRealloc(pos: nat, x: T)
      requires Valid() && pos <= Size() == Capacity()
      modifies this
      ensures Valid() && Elements() == Inserted(old(Elements()), pos, [x])
      ensures Capacity() == DoubledCapacity(old(Size()))
    {
      ghost var b := storage[..];
      var oldSize := finish;
      var len := if oldSize != 0 then 2 * oldSize else 1;
      var newStart := new T[len];
      ghost var nb := newStart[..];
      var newFinish := UninitializedCopy(storage, 0, pos, newStart, 0, isPod);
      ghost var c1 := newStart[..];
      assert c1 == Overwrite(nb, 0, b[0..pos]);
      newStart[newFinish] := x;
      ghost var c2 := newStart[..];
      assert c2 == Overwrite(c1, pos, [x]);
      newFinish := newFinish + 1;
      newFinish := UninitializedCopy(storage, pos, finish, newStart, newFinish, isPod);
      assert newStart[..] == Overwrite(c2, pos + |[x]|, b[pos..oldSize]);
      ReallocInserts(b, oldSize, nb, pos, [x]);
      assert newStart[..][..oldSize + 1] == Inserted(b[..oldSize], pos, [x]);
      storage := newStart;
      finish := newFinish;
    }

    /** `insert(pos, n, x)` (vector.h:148-194), with the `elems_after > n`
        branch corrected (see `VectorSpec.InsertShiftAsWritten` for the
        lines as written). */
    method Insert(pos: nat, n: nat, x: T)
      requires Valid() && pos <= Size()
      modifies this, storage
      ensures Valid() && Elements() == Inserted(old(Elements()), pos, Repeat(x, n))
      ensures old(Capacity()) - old(Size()) >= n ==> storage == old(storage)
      ensures old(Capacity()) - old(Size()) < n ==> Capacity() == GrownCapacity(old(Size()), n)
    {
      if n == 0 {
        assert Repeat(x, 0) == [];
        return;
      }
      if storage.Length - finish >= n {
        InsertInPlace(pos, n, x);
      } else {
        InsertRealloc(pos, n, x);
      }
    }

    /** Lines 153-170 of `insert`: there is room for `n` more. */
    method InsertInPlace(pos: nat, n: nat, x: T)
      requires Valid() && pos <= Size() && 1 <= n <= Capacity() - Size()
      modifies this, storage
      ensures Valid() && Elements() == Inserted(old(Elements()), pos, Repeat(x, n))
      ensures storage == old(storage)
    {
      var xCopy := x;
      var elemsAfter := finish - pos;
      if elemsAfter > n {
        ShiftTail(pos, n, xCopy);
      } else {
        FillTail(pos, n, xCopy);
      }
    }

    /** Lines 157-162 of `insert`, corrected: the last `n` elements go into
        raw memory past the end, `[pos, old_finish - n)` moves up by `n`,
        and `[pos, pos + n)` is filled. */
    method ShiftTail(pos: nat, n: nat, x: T)
      requires Valid() && 1 <= n && pos + n < Size() && n <= Capacity() - Size()
      modifies this, storage
      ensures Valid() && Elements() == Inserted(old(Elements()), pos, Repeat(x, n))
      ensures storage == old(storage)
    {
      ghost var b := storage[..];
      var oldFinish := finish;
      var _ := UninitializedCopy(storage, finish - n, finish, storage, finish, isPod);
      ghost var b1 := storage[..];
      assert b1 == Overwrite(b, oldFinish, b[oldFinish - n..oldFinish]);
      finish := finish + n;
      var _ := CopyBackward(storage, pos, oldFinish - n, storage, oldFinish);
      ghost var b2 := storage[..];
      assert b2 == Overwrite(b1, pos + n, b1[pos..oldFinish - n]);
      Fill(storage, pos, pos + n, x);
      assert storage[..] == Overwrite(b2, pos, Repeat(x, n));
      ShiftBranchInserts(b, oldFinish, pos, n, x);
    }

    /** Lines 163-169 of `insert`: the copies of `x` that fall past the end
        are constructed first, the tail is copied after them, and the old
        tail's slots are filled. */
    method FillTail(pos: nat, n: nat, x: T)
      requires Valid() && pos <= Size() && Size() - pos <= n <= Capacity() - Size()
      modifies this, storage
      ensures Valid() && Elements() == Inserted(old(Elements()), pos, Repeat(x, n))
      ensures storage == old(storage)
    {
      var a := storage;
      ghost var b := a[..];
      var elemsAfter := finish - pos;
      var oldFinish := finish;
      var _ := UninitializedFillN(a, finish, n - elemsAfter, x, isPod);
      ghost var b1 := a[..];
      finish := finish + (n - elemsAfter);
      var _ := UninitializedCopy(a, pos, oldFinish, a, finish, isPod);
      ghost var b2 := a[..];
      finish := finish + elemsAfter;
      Fill(a, pos, oldFinish, x);
      FillBranchInserts(b, oldFinish, pos, n, x, b1, b2, a[..]);
    }

    /** Lines 171-193 of `insert`: a new buffer of
        `old_size + max(old_size, n)` slots. */
    method InsertRealloc(pos: nat, n: nat, x: T)
      requires Valid() && pos <= Size() && n > Capacity() - Size()
      modifies this
      ensures Valid() && Elements() == Inserted(old(Elements()), pos, Repeat(x, n))
      ensures Capacity() == GrownCapacity(old(Size()), n)
    {
      ghost var b := storage[..];
      var oldSize := finish;
      var len := oldSize + if oldSize >= n then oldSize else n;
      assert len == GrownCapacity(oldSize, n);
      var newStart := new T[len];
      ghost var nb := newStart[..];
      var newFinish := UninitializedCopy(storage, 0, pos, newStart, 0, isPod);
      ghost var c1 := newStart[..];
      assert c1 == Overwrite(nb, 0, b[0..pos]);
      newFinish := UninitializedFillN(newStart, newFinish, n, x, isPod);
      ghost var c2 := newStart[..];
      assert c2 == Overwrite(c1, pos, Repeat(x, n));
      newFinish := UninitializedCopy(storage, pos, finish, newStart, newFinish, isPod);
      assert newStart[..] == Overwrite(c2, pos + |Repeat(x, n)|, b[pos..oldSize]);
      ReallocInserts(b, oldSize, nb, pos, Repeat(x, n));
      assert newStart[..][..oldSize + n] == Inserted(b[..oldSize], pos, Repeat(x, n));
      storage := newStart;
      finish := newFinish;
    }
  }
}
