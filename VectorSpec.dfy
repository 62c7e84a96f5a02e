/** What the vector's operations do to its element sequence and its
    capacity, as functions on sequences, with the laws relating them. The
    class in `Vectors` is proved to follow these. */
module VectorSpec {
  import opened Ranges

  /** `s` with `t` inserted before position `pos`. */
  function Inserted<T>(s: seq<T>, pos: nat, t: seq<T>): (r: seq<T>)
    requires pos <= |s|
    ensures |r| == |s| + |t|
    ensures r[..pos] == s[..pos] && r[pos..pos + |t|] == t && r[pos + |t|..] == s[pos..]
  {
    s[..pos] + t + s[pos..]
  }

  /** `s` without the elements at positions `[first, last)`. */
  function Erased<T>(s: seq<T>, first: nat, last: nat): (r: seq<T>)
    requires first <= last <= |s|
    ensures |r| == |s| - (last - first)
    ensures r[..first] == s[..first] && r[first..] == s[last..]
  {
    s[..first] + s[last..]
  }

  /** `resize(newSize, x)` on the element sequence (vector.h:92-97). */
  function Resized<T>(s: seq<T>, newSize: nat, x: T): (r: seq<T>)
    ensures |r| == newSize
    ensures newSize <= |s| ==> r == s[..newSize]
    ensures newSize >= |s| ==> r[..|s|] == s && r[|s|..] == Repeat(x, newSize - |s|)
  {
    if newSize < |s| then Erased(s, newSize, |s|) else Inserted(s, |s|, Repeat(x, newSize - |s|))
  }

  /** The capacity `insert_aux` reallocates to when the buffer is full
      (vector.h:123): double, or 1 for an empty vector. */
  function DoubledCapacity(size: nat): (c: nat)
    ensures c > size
    ensures size > 0 ==> c == 2 * size
    ensures size == 0 ==> c == 1
  {
    if size != 0 then 2 * size else 1
  }

  /** The capacity `insert(pos, n, x)` reallocates to (vector.h:173). */
  function GrownCapacity(size: nat, n: nat): (c: nat)
    ensures c >= size + n && c >= 2 * size
    ensures c == size + n || c == 2 * size
  {
    size + if size >= n then size else n
  }

  /** Inserting `n` elements and erasing the same positions gives the
      original back. */
  lemma EraseUndoesInsert<T>(s: seq<T>, pos: nat, t: seq<T>)
    requires pos <= |s|
    ensures Erased(Inserted(s, pos, t), pos, pos + |t|) == s
  {
    var r := Inserted(s, pos, t);
    assert r[..pos] + r[pos + |t|..] == s[..pos] + s[pos..];
  }

  /** Inserting at the end appends, which is what `push_back` does when it
      reallocates through `insert_aux(end(), x)`. */
  lemma InsertAtEndAppends<T>(s: seq<T>, t: seq<T>)
    ensures Inserted(s, |s|, t) == s + t
  {
  }

  /** `push_back` grows a full buffer exactly as `insert(end(), 1, x)` would,
      except that an empty vector gets capacity 1 either way. */
  lemma PushGrowthAgreesWithInsert(size: nat)
    ensures DoubledCapacity(size) == GrownCapacity(size, 1)
  {
  }

  /** Resizing to the current size changes nothing; shrinking and growing
      again keeps the common prefix. */
  lemma ResizeLaws<T>(s: seq<T>, m: nat, x: T)
    ensures Resized(s, |s|, x) == s
    ensures m <= |s| ==> Resized(Resized(s, m, x), |s|, x)[..m] == s[..m]
  {
    if m <= |s| {
      var r := Resized(s, m, x);
      assert Resized(r, |s|, x)[..|r|] == r;
    }
  }

  // Three ways of building the result of `insert(pos, n, x)`, each
  // described by the writes the source makes, in order.

  /** The element at index `k` of `Inserted(s, pos, t)`. */
  lemma InsertedAt<T>(s: seq<T>, pos: nat, t: seq<T>, k: nat)
    requires pos <= |s| && k < |s| + |t|
    ensures Inserted(s, pos, t)[k] == if k < pos then s[k] else if k < pos + |t| then t[k - pos] else s[k - |t|]
  {
  }

  /** `insert_aux` with spare room (vector.h:113-118): the last element is
      copied into the raw slot at the end, `[pos, size - 1)` moves up by
      one and `x` is stored at `pos`. */
  lemma AuxShiftInserts<T>(b: seq<T>, size: nat, pos: nat, x: T)
    requires pos < size < |b|
    ensures var b1 := b[size := b[size - 1]];
      var b2 := Overwrite(b1, pos + 1, b1[pos..size - 1]);
      b2[pos := x][..size + 1] == Inserted(b[..size], pos, [x])
  {
    forall k | 0 <= k < size + 1
      ensures var b1 := b[size := b[size - 1]];
      var b2 := Overwrite(b1, pos + 1, b1[pos..size - 1]);
      b2[pos := x][k] == Inserted(b[..size], pos, [x])[k]
    {
      if k <= pos {
        AuxShiftLow(b, size, pos, x, k);
      } else {
        AuxShiftHigh(b, size, pos, x, k);
      }
    }
  }

  lemma AuxShiftLow<T>(b: seq<T>, size: nat, pos: nat, x: T, k: nat)
    requires pos < size < |b| && k <= pos
    ensures var b1 := b[size := b[size - 1]];
      var b2 := Overwrite(b1, pos + 1, b1[pos..size - 1]);
      b2[pos := x][k] == Inserted(b[..size], pos, [x])[k]
  {
    InsertedAt(b[..size], pos, [x], k);
  }

  lemma AuxShiftHigh<T>(b: seq<T>, size: nat, pos: nat, x: T, k: nat)
    requires pos < size < |b| && pos < k <= size
    ensures var b1 := b[size := b[size - 1]];
      var b2 := Overwrite(b1, pos + 1, b1[pos..size - 1]);
      b2[pos := x][k] == Inserted(b[..size], pos, [x])[k]
  {
    var b1 := b[size := b[size - 1]];
    var b2 := Overwrite(b1, pos + 1, b1[pos..size - 1]);
    InsertedAt(b[..size], pos, [x], k);
    if k == size {
      assert b2[k] == b1[k] == b[k - 1];
    } else {
      assert b2[k] == b1[pos..size - 1][k - (pos + 1)] == b1[k - 1] == b[k - 1];
    }
  }

  /** The in-place branch for `elems_after > n` as it should be (the
      standard library's version): the last `n` elements are copied into
      raw memory past the end, the rest of the tail is moved back by `n`,
      and the `n` slots at `pos` are filled. */
  lemma ShiftBranchInserts<T>(b: seq<T>, size: nat, pos: nat, n: nat, x: T)
    requires pos + n < size && size + n <= |b|
    ensures var b1 := Overwrite(b, size, b[size - n..size]);
      var b2 := Overwrite(b1, pos + n, b1[pos..size - n]);
      var b3 := Overwrite(b2, pos, Repeat(x, n));
      b3[..size + n] == Inserted(b[..size], pos, Repeat(x, n))
  {
    var b1 := Overwrite(b, size, b[size - n..size]);
    var b2 := Overwrite(b1, pos + n, b1[pos..size - n]);
    var b3 := Overwrite(b2, pos, Repeat(x, n));
    var want := Inserted(b[..size], pos, Repeat(x, n));
    forall k | 0 <= k < size + n
      ensures b3[k] == want[k]
    {
      if k < pos {
      } else if k < pos + n {
        assert b3[k] == x == Repeat(x, n)[k - pos];
      } else if k < size {
        assert b3[k] == b2[k] == b1[k - n] == b[k - n];
      } else {
        assert b3[k] == b2[k] == b1[k] == b[k - n];
      }
    }
  }

  /** The in-place branch for `elems_after <= n` (vector.h:163-169): the
      copies of `x` that land in raw memory are constructed first, then the
      tail is copied after them, then the old tail's slots are filled. */
  lemma FillBranchInserts<T>(b: seq<T>, size: nat, pos: nat, n: nat, x: T, b1: seq<T>, b2: seq<T>, b3: seq<T>)
    requires pos <= size && size - pos <= n && size + n <= |b|
    requires b1 == Overwrite(b, size, Repeat(x, n - (size - pos)))
    requires b2 == Overwrite(b1, size + (n - (size - pos)), b1[pos..size])
    requires b3 == Overwrite(b2, pos, Repeat(x, size - pos))
    ensures b3[..size + n] == Inserted(b[..size], pos, Repeat(x, n))
  {
    forall k | 0 <= k < size + n
      ensures b3[k] == Inserted(b[..size], pos, Repeat(x, n))[k]
    {
      FillBranchAt(b, size, pos, n, x, k);
    }
  }

  /** One slot of `FillBranchInserts`. */
  lemma FillBranchAt<T>(b: seq<T>, size: nat, pos: nat, n: nat, x: T, k: nat)
    requires pos <= size && size - pos <= n && size + n <= |b| && k < size + n
    ensures var after := size - pos;
      var b1 := Overwrite(b, size, Repeat(x, n - after));
      var b2 := Overwrite(b1, size + (n - after), b1[pos..size]);
      var b3 := Overwrite(b2, pos, Repeat(x, after));
      b3[k] == Inserted(b[..size], pos, Repeat(x, n))[k]
  {
    if k < size {
      FillBranchLow(b, size, pos, n, x, k);
    } else {
      FillBranchHigh(b, size, pos, n, x, k);
    }
  }

  /** A slot below the old size: the prefix, or one of the copies of `x`
      written over the old tail. */
  lemma FillBranchLow<T>(b: seq<T>, size: nat, pos: nat, n: nat, x: T, k: nat)
    requires pos <= size && size - pos <= n && size + n <= |b| && k < size
    ensures var after := size - pos;
      var b1 := Overwrite(b, size, Repeat(x, n - after));
      var b2 := Overwrite(b1, size + (n - after), b1[pos..size]);
      var b3 := Overwrite(b2, pos, Repeat(x, after));
      b3[k] == Inserted(b[..size], pos, Repeat(x, n))[k]
  {
    var after := size - pos;
    var b1 := Overwrite(b, size, Repeat(x, n - after));
    var b2 := Overwrite(b1, size + (n - after), b1[pos..size]);
    var b3 := Overwrite(b2, pos, Repeat(x, after));
    InsertedAt(b[..size], pos, Repeat(x, n), k);
    if k < pos {
      assert b3[k] == b2[k] == b1[k] == b[k];
    } else {
      assert b3[k] == Repeat(x, after)[k - pos] == x;
    }
  }

  /** A slot at or past the old size: one of the copies of `x` written
      into raw memory, or the moved tail. */
  lemma FillBranchHigh<T>(b: seq<T>, size: nat, pos: nat, n: nat, x: T, k: nat)
    requires pos <= size && size - pos <= n && size + n <= |b| && size <= k < size + n
    ensures var after := size - pos;
      var b1 := Overwrite(b, size, Repeat(x, n - after));
      var b2 := Overwrite(b1, size + (n - after), b1[pos..size]);
      var b3 := Overwrite(b2, pos, Repeat(x, after));
      b3[k] == Inserted(b[..size], pos, Repeat(x, n))[k]
  {
    if k < size + (n - (size - pos)) {
      FillBranchRaw(b, size, pos, n, x, k);
    } else {
      FillBranchMoved(b, size, pos, n, x, k);
    }
  }

  lemma FillBranchRaw<T>(b: seq<T>, size: nat, pos: nat, n: nat, x: T, k: nat)
    requires pos <= size && size - pos <= n && size + n <= |b| && size <= k < size + (n - (size - pos))
    ensures var after := size - pos;
      var b1 := Overwrite(b, size, Repeat(x, n - after));
      var b2 := Overwrite(b1, size + (n - after), b1[pos..size]);
      var b3 := Overwrite(b2, pos, Repeat(x, after));
      b3[k] == Inserted(b[..size], pos, Repeat(x, n))[k]
  {
    var after := size - pos;
    var b1 := Overwrite(b, size, Repeat(x, n - after));
    var b2 := Overwrite(b1, size + (n - after), b1[pos..size]);
    var b3 := Overwrite(b2, pos, Repeat(x, after));
    InsertedAt(b[..size], pos, Repeat(x, n), k);
    assert b1[k] == Repeat(x, n - after)[k - size] == x;
    assert b3[k] == b2[k] == b1[k];
  }

  lemma FillBranchMoved<T>(b: seq<T>, size: nat, pos: nat, n: nat, x: T, k: nat)
    requires pos <= size && size - pos <= n && size + n <= |b| && size + (n - (size - pos)) <= k < size + n
    ensures var after := size - pos;
      var b1 := Overwrite(b, size, Repeat(x, n - after));
      var b2 := Overwrite(b1, size + (n - after), b1[pos..size]);
      var b3 := Overwrite(b2, pos, Repeat(x, after));
      b3[k] == Inserted(b[..size], pos, Repeat(x, n))[k]
  {
    var after := size - pos;
    var b1 := Overwrite(b, size, Repeat(x, n - after));
    var b2 := Overwrite(b1, size + (n - after), b1[pos..size]);
    var b3 := Overwrite(b2, pos, Repeat(x, after));
    InsertedAt(b[..size], pos, Repeat(x, n), k);
    assert b2[k] == b1[pos..size][k - (size + (n - after))] == b1[k - n];
    assert b3[k] == b2[k] && b1[k - n] == b[k - n];
  }

  /** The reallocating branch (vector.h:171-193): prefix, `n` copies of `x`,
      suffix, written one after the other into a fresh buffer. */
  lemma ReallocInserts<T>(b: seq<T>, size: nat, nb: seq<T>, pos: nat, t: seq<T>)
    requires pos <= size <= |b| && size + |t| <= |nb|
    ensures var c1 := Overwrite(nb, 0, b[0..pos]);
      var c2 := Overwrite(c1, pos, t);
      var c3 := Overwrite(c2, pos + |t|, b[pos..size]);
      c3[..size + |t|] == Inserted(b[..size], pos, t)
  {
    var c1 := Overwrite(nb, 0, b[0..pos]);
    OverwriteAdjacent(nb, 0, b[0..pos], t);
    OverwriteAdjacent(nb, 0, b[0..pos] + t, b[pos..size]);
    var whole := b[0..pos] + t + b[pos..size];
    OverwriteSlices(nb, 0, whole);
    assert whole == Inserted(b[..size], pos, t);
  }

  // The `elems_after > n` branch of `insert` as written (vector.h:157-162).

  /** What lines 157-162 leave in the buffer and where they leave `finish`:
      the copy backward moves the whole tail `[pos, old_finish)` (not
      `[pos, old_finish - n)`) to end at the new finish, `finish` is then
      advanced by `elems_after` more, and `[pos, old_finish)` (not
      `[pos, pos + n)`) is filled. The size comes out as
      `size + n + elems_after` and the first `size + n` slots hold the
      prefix, `elems_after` copies of `x` and only the last `n` elements of
      the old tail. */
  function InsertShiftAsWritten<T>(b: seq<T>, size: nat, pos: nat, n: nat, x: T): (r: (seq<T>, nat))
    requires pos + n < size && size + n <= |b|
    ensures |r.0| == |b|
    ensures r.1 == size + n + (size - pos)
    ensures r.0[..size + n] == b[..pos] + Repeat(x, size - pos) + b[size - n..size]
  {
    var b1 := Overwrite(b, size, b[size - n..size]);
    var b2 := Overwrite(b1, pos + n, b1[pos..size]);
    var b3 := Overwrite(b2, pos, Repeat(x, size - pos));
    assert b3[..size + n] == b[..pos] + Repeat(x, size - pos) + b[size - n..size] by {
      var want := b[..pos] + Repeat(x, size - pos) + b[size - n..size];
      forall k | 0 <= k < size + n
        ensures b3[k] == want[k]
      {
        if k < pos {
          assert want[k] == b[k];
          assert b3[k] == b2[k] == b1[k] == b[k];
        } else if k < size {
          assert want[k] == Repeat(x, size - pos)[k - pos];
          assert b3[pos + (k - pos)] == x;
        } else {
          assert want[k] == b[size - n..size][k - size];
          assert b2[pos + n + (k - n - pos)] == b1[pos..size][k - n - pos];
          assert b3[k] == b2[k] == b1[k - n] == b[k - n];
        }
      }
    }
    (b3, size + n + (size - pos))
  }

  /** Whenever the branch is taken, the size it leaves is wrong: it exceeds
      the intended `size + n` by `elems_after`, which is more than `n`. */
  lemma InsertShiftAsWrittenSize<T>(b: seq<T>, size: nat, pos: nat, n: nat, x: T)
    requires pos + n < size && size + n <= |b|
    ensures InsertShiftAsWritten(b, size, pos, n, x).1 > |Inserted(b[..size], pos, Repeat(x, n))| + n
  {
  }

  /** The concrete case: `[1, 2, 3]` with capacity 8, `insert(begin(), 1, 0)`.
      The intended result is `[0, 1, 2, 3]`; as written the size becomes 7
      and the first four elements are `[0, 0, 0, 3]`. */
  lemma InsertShiftAsWrittenExample()
    ensures var b := [1, 2, 3, 0, 0, 0, 0, 0];
      var (b', size') := InsertShiftAsWritten(b, 3, 0, 1, 0);
      && Inserted(b[..3], 0, [0]) == [0, 1, 2, 3]
      && size' == 7
      && b'[..4] == [0, 0, 0, 3]
  {
    var b := [1, 2, 3, 0, 0, 0, 0, 0];
    assert b[..0] + Repeat(0, 3) + b[2..3] == [0, 0, 0, 3];
  }
}
