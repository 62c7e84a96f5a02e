/** What the algorithms of `list<T>` (list.h:140-227) compute, stated on
    the sequence of nodes a list holds and on the values in those nodes.
    `data[n]` is the value of node `n`; the element type is `int`, compared
    with `==` and `<` as the source compares `T`. */
module ListSpec {

  /** The value node `n` holds (0 for a number outside the store). */
  function Value(data: seq<int>, n: int): int {
    if 0 <= n < |data| then data[n] else 0
  }

  /** The values of the nodes `ns`, in order. */
  function Values(data: seq<int>, ns: seq<int>): (vs: seq<int>)
    ensures |vs| == |ns|
  {
    seq(|ns|, k requires 0 <= k < |ns| => Value(data, ns[k]))
  }

  lemma ValuesConcat(data: seq<int>, a: seq<int>, b: seq<int>)
    ensures Values(data, a + b) == Values(data, a) + Values(data, b)
  {
    assert forall k | 0 <= k < |a + b| :: Values(data, a + b)[k] == (Values(data, a) + Values(data, b))[k];
  }

  ghost predicate Sorted(xs: seq<int>) {
    forall i, j | 0 <= i < j < |xs| :: xs[i] <= xs[j]
  }

  ghost predicate StrictlyIncreasing(xs: seq<int>) {
    forall i, j | 0 <= i < j < |xs| :: xs[i] < xs[j]
  }

  // remove (list.h:140-151)

  /** The nodes `remove(v)` keeps: those whose value is not `v`, in their
      order. */
  function RemoveNodes(data: seq<int>, ns: seq<int>, v: int): (r: seq<int>)
    ensures forall k | 0 <= k < |r| :: Value(data, r[k]) != v
  {
    if ns == [] then []
    else
      var last := ns[|ns| - 1];
      RemoveNodes(data, ns[..|ns| - 1], v) + (if Value(data, last) == v then [] else [last])
  }

  /** After `remove(v)` no value is `v` and every other value occurs as
      often as before. */
  lemma {:induction false} RemoveCounts(data: seq<int>, ns: seq<int>, v: int)
    ensures forall y ::
      multiset(Values(data, RemoveNodes(data, ns, v)))[y] ==
      (if y == v then 0 else multiset(Values(data, ns))[y])
  {
    if ns != [] {
      var init, last := ns[..|ns| - 1], ns[|ns| - 1];
      var tail := if Value(data, last) == v then [] else [last];
      RemoveCounts(data, init, v);
      assert ns == init + [last];
      ValuesConcat(data, init, [last]);
      ValuesConcat(data, RemoveNodes(data, init, v), tail);
    }
  }

  /** `remove(v)` only drops nodes. */
  lemma {:induction false} RemoveKeepsNodes(data: seq<int>, ns: seq<int>, v: int)
    ensures multiset(RemoveNodes(data, ns, v)) <= multiset(ns)
  {
    if ns != [] {
      RemoveKeepsNodes(data, ns[..|ns| - 1], v);
      assert ns == ns[..|ns| - 1] + [ns[|ns| - 1]];
    }
  }

  /** A list without the value `v` loses nothing to `remove(v)`; so a second
      `remove(v)` changes nothing. */
  lemma {:induction false} RemoveNoop(data: seq<int>, ns: seq<int>, v: int)
    requires forall k | 0 <= k < |ns| :: Value(data, ns[k]) != v
    ensures RemoveNodes(data, ns, v) == ns
  {
    if ns != [] {
      RemoveNoop(data, ns[..|ns| - 1], v);
      assert ns == ns[..|ns| - 1] + [ns[|ns| - 1]];
    }
  }

  lemma RemoveIdempotent(data: seq<int>, ns: seq<int>, v: int)
    ensures RemoveNodes(data, RemoveNodes(data, ns, v), v) == RemoveNodes(data, ns, v)
  {
    RemoveNoop(data, RemoveNodes(data, ns, v), v);
  }

  // unique (list.h:153-168)

  /** The nodes `unique()` keeps: the first of every run of equal
      consecutive values. */
  function UniqueNodes(data: seq<int>, ns: seq<int>): (r: seq<int>)
    ensures |ns| > 0 ==> |r| > 0
    ensures |ns| > 0 ==> Value(data, r[|r| - 1]) == Value(data, ns[|ns| - 1])
  {
    if |ns| <= 1 then ns
    else
      var init, last := ns[..|ns| - 1], ns[|ns| - 1];
      UniqueNodes(data, init) + (if Value(data, last) == Value(data, init[|init| - 1]) then [] else [last])
  }

  /** `unique()` only drops nodes, and keeps the first. */
  lemma {:induction false} UniqueKeepsNodes(data: seq<int>, ns: seq<int>)
    ensures multiset(UniqueNodes(data, ns)) <= multiset(ns)
    ensures |ns| > 0 ==> UniqueNodes(data, ns)[0] == ns[0]
  {
    if |ns| > 1 {
      UniqueKeepsNodes(data, ns[..|ns| - 1]);
      assert ns == ns[..|ns| - 1] + [ns[|ns| - 1]];
    }
  }

  ghost predicate NoAdjacentDuplicates(xs: seq<int>) {
    forall k | 0 < k < |xs| :: xs[k - 1] != xs[k]
  }

  /** The values of `init + [last]`: those of `init`, then `last`'s. */
  lemma ValuesSnoc(data: seq<int>, init: seq<int>, last: int)
    ensures Values(data, init + [last]) == Values(data, init) + [Value(data, last)]
  {
    ValuesConcat(data, init, [last]);
  }

  /** After `unique()` no two neighbours hold the same value. */
  lemma {:induction false} UniqueAdjacent(data: seq<int>, ns: seq<int>)
    ensures NoAdjacentDuplicates(Values(data, UniqueNodes(data, ns)))
  {
    if |ns| > 1 {
      var init, last := ns[..|ns| - 1], ns[|ns| - 1];
      var u := UniqueNodes(data, init);
      UniqueAdjacent(data, init);
      if Value(data, last) != Value(data, init[|init| - 1]) {
        assert UniqueNodes(data, ns) == u + [last];
        ValuesSnoc(data, u, last);
        var vu := Values(data, u);
        assert vu[|vu| - 1] == Value(data, u[|u| - 1]);
        assert forall k | 0 < k < |vu| :: vu[k - 1] != vu[k];
      } else {
        assert UniqueNodes(data, ns) == u;
      }
    }
  }

  /** `a` and `b` hold the same values, each perhaps a different number of
      times. */
  ghost predicate SameElements(a: seq<int>, b: seq<int>) {
    forall y :: y in a <==> y in b
  }

  /** `unique()` keeps every value that occurs, and adds none. */
  lemma {:induction false} UniqueSameValues(data: seq<int>, ns: seq<int>)
    ensures SameElements(Values(data, UniqueNodes(data, ns)), Values(data, ns))
  {
    if |ns| > 1 {
      var init, last := ns[..|ns| - 1], ns[|ns| - 1];
      var u := UniqueNodes(data, init);
      var vi, x := Values(data, init), Value(data, last);
      UniqueSameValues(data, init);
      assert ns == init + [last];
      ValuesSnoc(data, init, last);
      var drop := x == Value(data, init[|init| - 1]);
      if drop {
        assert UniqueNodes(data, ns) == u;
        assert vi[|vi| - 1] == x;
      } else {
        assert UniqueNodes(data, ns) == u + [last];
        ValuesSnoc(data, u, last);
      }
      SameValuesStep(Values(data, ns), vi, Values(data, u), Values(data, UniqueNodes(data, ns)), x, drop);
    }
  }

  /** One step of `unique()`: the last value is dropped only when the
      values before it already hold it. */
  lemma SameValuesStep(vn: seq<int>, vi: seq<int>, vu: seq<int>, vr: seq<int>, x: int, drop: bool)
    requires vn == vi + [x] && SameElements(vu, vi)
    requires drop ==> vr == vu && x in vi
    requires !drop ==> vr == vu + [x]
    ensures SameElements(vr, vn)
  {
  }

  /** A list without equal neighbours is left as it is; so a second
      `unique()` changes nothing. */
  lemma {:induction false} UniqueNoop(data: seq<int>, ns: seq<int>)
    requires NoAdjacentDuplicates(Values(data, ns))
    ensures UniqueNodes(data, ns) == ns
  {
    if |ns| > 1 {
      var init, last := ns[..|ns| - 1], ns[|ns| - 1];
      assert Values(data, init) == Values(data, ns)[..|ns| - 1];
      UniqueNoop(data, init);
      assert Values(data, ns)[|ns| - 2] != Values(data, ns)[|ns| - 1];
      assert ns == init + [last];
    }
  }

  lemma UniqueIdempotent(data: seq<int>, ns: seq<int>)
    ensures UniqueNodes(data, UniqueNodes(data, ns)) == UniqueNodes(data, ns)
  {
    UniqueAdjacent(data, ns);
    UniqueNoop(data, UniqueNodes(data, ns));
  }

  /** On a sorted list `unique()` leaves every value once, in increasing
      order. */
  lemma {:induction false} UniqueSorted(data: seq<int>, ns: seq<int>)
    requires Sorted(Values(data, ns))
    ensures StrictlyIncreasing(Values(data, UniqueNodes(data, ns)))
  {
    if |ns| > 1 {
      var init, last := ns[..|ns| - 1], ns[|ns| - 1];
      var u := UniqueNodes(data, init);
      assert ns == init + [last];
      ValuesSnoc(data, init, last);
      var vi := Values(data, init);
      SortedPrefix(vi, Value(data, last));
      UniqueSorted(data, init);
      if Value(data, last) != Value(data, init[|init| - 1]) {
        assert UniqueNodes(data, ns) == u + [last];
        ValuesSnoc(data, u, last);
        var vu := Values(data, u);
        assert vi[|vi| - 1] == Value(data, init[|init| - 1]) <= Value(data, last);
        assert vu[|vu| - 1] == Value(data, u[|u| - 1]);
        StrictSnoc(vu, Value(data, last));
      } else {
        assert UniqueNodes(data, ns) == u;
      }
    }
  }

  lemma SortedPrefix(xs: seq<int>, x: int)
    requires Sorted(xs + [x])
    ensures Sorted(xs) && (xs != [] ==> xs[|xs| - 1] <= x)
  {
    forall i, j | 0 <= i < j < |xs| ensures xs[i] <= xs[j] {
      assert (xs + [x])[i] <= (xs + [x])[j];
    }
    if xs != [] {
      assert (xs + [x])[|xs| - 1] <= (xs + [x])[|xs|];
    }
  }

  lemma StrictSnoc(xs: seq<int>, x: int)
    requires StrictlyIncreasing(xs) && (xs != [] ==> xs[|xs| - 1] < x)
    ensures StrictlyIncreasing(xs + [x])
  {
    forall i, j | 0 <= i < j < |xs| + 1 ensures (xs + [x])[i] < (xs + [x])[j] {
      if j == |xs| && i < |xs| - 1 {
        assert xs[i] < xs[|xs| - 1];
      }
    }
  }

  // merge (list.h:191-208)

  /** The nodes of `xs` and `ys` merged as `merge` does: take the head of
      `ys` when its value is smaller than the head of `xs`, else the head of
      `xs`; when one side runs out, the rest of the other follows. */
  function MergeNodes(data: seq<int>, xs: seq<int>, ys: seq<int>): (r: seq<int>)
    decreases |xs| + |ys|
  {
    if xs == [] then ys
    else if ys == [] then xs
    else if Value(data, ys[0]) < Value(data, xs[0]) then [ys[0]] + MergeNodes(data, xs, ys[1..])
    else [xs[0]] + MergeNodes(data, xs[1..], ys)
  }

  /** Merging loses and invents no node. */
  lemma {:induction false} MergeNodesPermutes(data: seq<int>, xs: seq<int>, ys: seq<int>)
    ensures multiset(MergeNodes(data, xs, ys)) == multiset(xs) + multiset(ys)
    decreases |xs| + |ys|
  {
    if xs != [] && ys != [] {
      if Value(data, ys[0]) < Value(data, xs[0]) {
        MergeNodesPermutes(data, xs, ys[1..]);
        assert ys == [ys[0]] + ys[1..];
        assert multiset(ys) == multiset([ys[0]]) + multiset(ys[1..]);
        assert MergeNodes(data, xs, ys) == [ys[0]] + MergeNodes(data, xs, ys[1..]);
      } else {
        MergeNodesPermutes(data, xs[1..], ys);
        assert xs == [xs[0]] + xs[1..];
        assert multiset(xs) == multiset([xs[0]]) + multiset(xs[1..]);
        assert MergeNodes(data, xs, ys) == [xs[0]] + MergeNodes(data, xs[1..], ys);
      }
    }
  }

  /** The merged values are the values of both lists together. */
  lemma {:induction false} MergeValues(data: seq<int>, xs: seq<int>, ys: seq<int>)
    ensures multiset(Values(data, MergeNodes(data, xs, ys))) == multiset(Values(data, xs)) + multiset(Values(data, ys))
    decreases |xs| + |ys|
  {
    if xs != [] && ys != [] {
      if Value(data, ys[0]) < Value(data, xs[0]) {
        MergeValues(data, xs, ys[1..]);
        assert ys == [ys[0]] + ys[1..];
        ValuesConcat(data, [ys[0]], ys[1..]);
        ValuesConcat(data, [ys[0]], MergeNodes(data, xs, ys[1..]));
      } else {
        MergeValues(data, xs[1..], ys);
        assert xs == [xs[0]] + xs[1..];
        ValuesConcat(data, [xs[0]], xs[1..]);
        ValuesConcat(data, [xs[0]], MergeNodes(data, xs[1..], ys));
      }
    }
  }

  /** The first merged value is one of the two heads. */
  lemma MergeHead(data: seq<int>, xs: seq<int>, ys: seq<int>)
    requires xs != [] || ys != []
    ensures var r := MergeNodes(data, xs, ys);
      |r| > 0 && ((xs != [] && r[0] == xs[0]) || (ys != [] && r[0] == ys[0]))
  {
  }

  /** Merging two sorted lists gives a sorted list. */
  lemma {:induction false} MergeSorted(data: seq<int>, xs: seq<int>, ys: seq<int>)
    requires Sorted(Values(data, xs)) && Sorted(Values(data, ys))
    ensures Sorted(Values(data, MergeNodes(data, xs, ys)))
    decreases |xs| + |ys|
  {
    if xs != [] && ys != [] {
      SortedHead(data, xs);
      SortedHead(data, ys);
      if Value(data, ys[0]) < Value(data, xs[0]) {
        MergeSorted(data, xs, ys[1..]);
        MergeConsSorted(data, ys[0], xs, ys[1..]);
      } else {
        MergeSorted(data, xs[1..], ys);
        MergeConsSorted(data, xs[0], xs[1..], ys);
      }
    }
  }

  /** A sorted list's head is at most its second value, and its tail is
      sorted. */
  lemma SortedHead(data: seq<int>, ns: seq<int>)
    requires Sorted(Values(data, ns)) && ns != []
    ensures |ns| > 1 ==> Value(data, ns[0]) <= Value(data, ns[1])
    ensures Sorted(Values(data, ns[1..]))
  {
    var vs := Values(data, ns);
    assert Values(data, ns[1..]) == vs[1..];
    if |ns| > 1 {
      assert vs[0] <= vs[1];
    }
  }

  /** A value no larger than both heads can go in front of a sorted merge. */
  lemma MergeConsSorted(data: seq<int>, x: int, xs: seq<int>, ys: seq<int>)
    requires Sorted(Values(data, MergeNodes(data, xs, ys)))
    requires xs != [] ==> Value(data, x) <= Value(data, xs[0])
    requires ys != [] ==> Value(data, x) <= Value(data, ys[0])
    ensures Sorted(Values(data, [x] + MergeNodes(data, xs, ys)))
  {
    var m := MergeNodes(data, xs, ys);
    if m != [] {
      MergeHead(data, xs, ys);
      assert Values(data, m)[0] == Value(data, m[0]);
    }
    SortedCons(Value(data, x), Values(data, m));
    ValuesConcat(data, [x], m);
    assert Values(data, [x]) == [Value(data, x)];
  }

  lemma SortedCons(x: int, xs: seq<int>)
    requires Sorted(xs) && (xs != [] ==> x <= xs[0])
    ensures Sorted([x] + xs)
  {
  }

  // reverse (list.h:210-219)

  /** The nodes in the opposite order: each step of `reverse` moves the next
      node to the front. */
  function Reversed(ns: seq<int>): (r: seq<int>)
    ensures |r| == |ns|
  {
    if ns == [] then [] else [ns[|ns| - 1]] + Reversed(ns[..|ns| - 1])
  }

  /** Position `k` of the reversal holds what position `|ns| - 1 - k` held. */
  lemma {:induction false} ReversedAt(ns: seq<int>)
    ensures forall k | 0 <= k < |ns| :: Reversed(ns)[k] == ns[|ns| - 1 - k]
  {
    if ns != [] {
      ReversedAt(ns[..|ns| - 1]);
    }
  }

  /** Reversing twice gives the list back. */
  lemma ReversedTwice(ns: seq<int>)
    ensures Reversed(Reversed(ns)) == ns
  {
    ReversedAt(ns);
    ReversedAt(Reversed(ns));
  }

  /** The values of the reversed nodes are the reversed values, and no node
      is lost. */
  lemma ReversedValues(data: seq<int>, ns: seq<int>)
    ensures Values(data, Reversed(ns)) == Reversed(Values(data, ns))
    ensures multiset(Reversed(ns)) == multiset(ns)
  {
    ReversedAt(ns);
    ReversedAt(Values(data, ns));
    ReversedMultiset(ns);
  }

  lemma {:induction false} ReversedMultiset(ns: seq<int>)
    ensures multiset(Reversed(ns)) == multiset(ns)
  {
    if ns != [] {
      ReversedMultiset(ns[..|ns| - 1]);
      assert ns == ns[..|ns| - 1] + [ns[|ns| - 1]];
    }
  }

  // partition and sort (list.h:221-227, 255-269)

  /** `vs'` is `vs` with the values at positions `[a, b)` rearranged and
      the rest as it was. */
  ghost predicate PermutedWithin(vs: seq<int>, vs': seq<int>, a: nat, b: nat) {
    && a <= b <= |vs| && |vs'| == |vs|
    && (forall k | 0 <= k < |vs| && !(a <= k < b) :: vs'[k] == vs[k])
    && multiset(vs') == multiset(vs)
  }

  /** The values of `[a, b)` themselves are rearranged. */
  lemma PermutedSlice(vs: seq<int>, vs': seq<int>, a: nat, b: nat)
    requires PermutedWithin(vs, vs', a, b)
    ensures multiset(vs'[a..b]) == multiset(vs[a..b])
  {
    assert vs'[..a] == vs[..a];
    assert vs'[b..] == vs[b..];
    assert vs == vs[..a] + vs[a..b] + vs[b..];
    assert vs' == vs'[..a] + vs'[a..b] + vs'[b..];
    calc {
      multiset(vs'[a..b]);
      multiset(vs') - multiset(vs'[..a]) - multiset(vs'[b..]);
      multiset(vs) - multiset(vs[..a]) - multiset(vs[b..]);
      multiset(vs[a..b]);
    }
  }

  lemma PermutedWithinTrans(v0: seq<int>, v1: seq<int>, v2: seq<int>, a: nat, b: nat)
    requires PermutedWithin(v0, v1, a, b) && PermutedWithin(v1, v2, a, b)
    ensures PermutedWithin(v0, v2, a, b)
  {
  }

  /** A rearrangement of `[a, b)` is one of any wider range. */
  lemma PermutedWithinWiden(v0: seq<int>, v1: seq<int>, a: nat, b: nat, a': nat, b': nat)
    requires PermutedWithin(v0, v1, a, b) && a' <= a && b <= b' <= |v0|
    ensures PermutedWithin(v0, v1, a', b')
  {
  }

  /** Exchanging the values at positions `x` and `y` of `[a, b)` is a
      rearrangement of `[a, b)`. */
  lemma SwapPermutes(vs: seq<int>, a: nat, b: nat, x: nat, y: nat)
    requires a <= x < b && a <= y < b && b <= |vs|
    ensures PermutedWithin(vs, vs[x := vs[y]][y := vs[x]], a, b)
  {
    var vs' := vs[x := vs[y]][y := vs[x]];
    assert multiset(vs[x := vs[y]]) == multiset(vs) - multiset{vs[x]} + multiset{vs[y]};
  }

  /** Writing `v` into the node at position `x`, which occurs in `ns` only
      there, changes only value `x`. */
  lemma ValuesUpdate(data: seq<int>, ns: seq<int>, x: nat, v: int)
    requires x < |ns| && 0 <= ns[x] < |data|
    requires forall k | 0 <= k < |ns| && k != x :: ns[k] != ns[x]
    ensures Values(data[ns[x] := v], ns) == Values(data, ns)[x := v]
  {
  }

  /** `std::swap` on the values of the nodes at positions `x` and `y`. */
  lemma ValuesSwap(data: seq<int>, ns: seq<int>, x: nat, y: nat)
    requires x < |ns| && y < |ns| && 0 <= ns[x] < |data| && 0 <= ns[y] < |data|
    requires forall i, j | 0 <= i < j < |ns| :: ns[i] != ns[j]
    ensures var vs := Values(data, ns);
      Values(data[ns[x] := data[ns[y]]][ns[y] := data[ns[x]]], ns) == vs[x := vs[y]][y := vs[x]]
  {
    ValuesUpdate(data, ns, x, data[ns[y]]);
    ValuesUpdate(data[ns[x] := data[ns[y]]], ns, y, data[ns[x]]);
  }

  /** The loop of `partition` (list.h:260-268) on values, from the state
      where the pivot is the last value `vs[b - 1]`, the next value below it
      goes to position `i` and position `j` is to be compared next: values
      below the pivot are swapped to `i`, and at the pivot itself the pivot
      is swapped to `i`. The result is the values and the pivot's new
      position. */
  function Lomuto(vs: seq<int>, b: nat, i: nat, j: nat): (seq<int>, nat)
    requires i <= j < b <= |vs|
    decreases b - j
  {
    if j == b - 1 then (vs[i := vs[b - 1]][b - 1 := vs[i]], i)
    else if vs[j] < vs[b - 1] then Lomuto(vs[j := vs[i]][i := vs[j]], b, i + 1, j + 1)
    else Lomuto(vs, b, i, j + 1)
  }

  /** `partition` on the values `[a, b)` of `vs`. */
  function PartitionValues(vs: seq<int>, a: nat, b: nat): (r: (seq<int>, nat))
    requires a < b <= |vs|
    ensures |r.0| == |vs| && a <= r.1 < b
  {
    LomutoBounds(vs, b, a, a);
    Lomuto(vs, b, a, a)
  }

  lemma {:induction false} LomutoBounds(vs: seq<int>, b: nat, i: nat, j: nat)
    requires i <= j < b <= |vs|
    ensures |Lomuto(vs, b, i, j).0| == |vs| && i <= Lomuto(vs, b, i, j).1 < b
    decreases b - j
  {
    if j < b - 1 {
      if vs[j] < vs[b - 1] {
        LomutoBounds(vs[j := vs[i]][i := vs[j]], b, i + 1, j + 1);
      } else {
        LomutoBounds(vs, b, i, j + 1);
      }
    }
  }

  /** The loop of `partition` keeps the values of `[a, b)` as they were,
      rearranged, and ends with the values below the pivot before it and
      the others after it. `vs0` holds the values before the loop. */
  lemma {:induction false} LomutoPartitions(vs0: seq<int>, vs: seq<int>, a: nat, b: nat, i: nat, j: nat)
    requires a <= i <= j < b <= |vs0|
    requires PermutedWithin(vs0, vs, a, b - 1)
    requires forall k | a <= k < i :: vs[k] < vs0[b - 1]
    requires forall k | i <= k < j :: vs0[b - 1] <= vs[k]
    ensures var (r, m) := Lomuto(vs, b, i, j);
      && a <= m < b && PermutedWithin(vs0, r, a, b) && r[m] == vs0[b - 1]
      && (forall k | a <= k < m :: r[k] < r[m])
      && (forall k | m < k < b :: r[m] <= r[k])
    decreases b - j
  {
    if j == b - 1 {
      PartitionEnd(vs0, vs, a, b, i);
    } else {
      var vs', i' := PartitionStep(vs0, vs, a, b, i, j);
      LomutoPartitions(vs0, vs', a, b, i', j + 1);
    }
  }

  /** What `partition` promises: the values of `[a, b)` are rearranged so
      that the last one, the pivot, ends at position `m`, every value
      before it is below it and none after it is. */
  lemma PartitionCorrect(vs: seq<int>, a: nat, b: nat)
    requires a < b <= |vs|
    ensures var (r, m) := PartitionValues(vs, a, b);
      && PermutedWithin(vs, r, a, b) && r[m] == vs[b - 1]
      && (forall k | a <= k < m :: r[k] < r[m])
      && (forall k | m < k < b :: r[m] <= r[k])
  {
    LomutoPartitions(vs, vs, a, b, a, a);
  }

  /** `sort(first, last)` (list.h:221-227) on values: partitioning
      `[a, b)` around its last value, then sorting both sides, sorts `[a, b)`
      and only rearranges it. */
  lemma QuicksortCorrect(v0: seq<int>, v1: seq<int>, v2: seq<int>, v3: seq<int>, a: nat, m: nat, b: nat)
    requires a < b <= |v0| && (v1, m) == PartitionValues(v0, a, b)
    requires PermutedWithin(v1, v2, a, m) && Sorted(v2[a..m])
    requires PermutedWithin(v2, v3, m + 1, b) && Sorted(v3[m + 1..b])
    ensures PermutedWithin(v0, v3, a, b) && Sorted(v3[a..b])
  {
    PartitionCorrect(v0, a, b);
    QuicksortStep(v1, v2, v3, a, m, b);
    PermutedWithinTrans(v0, v1, v3, a, b);
  }

  /** A range of at most one value is sorted and is its own rearrangement. */
  lemma ShortSorted(vs: seq<int>, a: nat, b: nat)
    requires a <= b <= |vs| && b - a <= 1
    ensures PermutedWithin(vs, vs, a, b) && Sorted(vs[a..b])
  {
  }

  /** One step of the loop of `partition` (list.h:260-265) on values:
      `[a, i)` holds values below the pivot `vs0[b - 1]` and `[i, j)` the
      others. A value at `j` below the pivot is swapped to `i`, which extends
      the first run; any other value extends the second. The loop goes on
      from the state returned. */
  lemma PartitionStep(vs0: seq<int>, vs: seq<int>, a: nat, b: nat, i: nat, j: nat)
    returns (vs': seq<int>, i': nat)
    requires a <= i <= j < b - 1 && b <= |vs0|
    requires PermutedWithin(vs0, vs, a, b - 1)
    requires forall k | a <= k < i :: vs[k] < vs0[b - 1]
    requires forall k | i <= k < j :: vs0[b - 1] <= vs[k]
    ensures vs[j] < vs0[b - 1] ==> vs' == vs[j := vs[i]][i := vs[j]] && i' == i + 1
    ensures !(vs[j] < vs0[b - 1]) ==> vs' == vs && i' == i
    ensures a <= i' <= j + 1 < b
    ensures PermutedWithin(vs0, vs', a, b - 1)
    ensures forall k | a <= k < i' :: vs'[k] < vs0[b - 1]
    ensures forall k | i' <= k < j + 1 :: vs0[b - 1] <= vs'[k]
    ensures Lomuto(vs', b, i', j + 1) == Lomuto(vs, b, i, j)
  {
    assert vs[b - 1] == vs0[b - 1];
    if vs[j] < vs0[b - 1] {
      vs', i' := vs[j := vs[i]][i := vs[j]], i + 1;
      SwapRuns(vs0[b - 1], vs, a, i, j);
      SwapPermutes(vs, a, b - 1, j, i);
      assert vs[i := vs[j]][j := vs[i]] == vs' by {
        if i == j { assert vs' == vs; }
      }
      PermutedWithinTrans(vs0, vs, vs', a, b - 1);
    } else {
      vs', i' := vs, i;
    }
  }

  /** Swapping a value below `pivot` at `j` with the first value of the
      second run, at `i`, moves the boundary between the runs up by one. */
  lemma SwapRuns(pivot: int, vs: seq<int>, a: nat, i: nat, j: nat)
    requires a <= i <= j < |vs| && vs[j] < pivot
    requires forall k | a <= k < i :: vs[k] < pivot
    requires forall k | i <= k < j :: pivot <= vs[k]
    ensures var vs' := vs[j := vs[i]][i := vs[j]];
      && (forall k | a <= k < i + 1 :: vs'[k] < pivot)
      && (forall k | i + 1 <= k < j + 1 :: pivot <= vs'[k])
  {
    var vs' := vs[j := vs[i]][i := vs[j]];
    forall k | a <= k < i + 1 ensures vs'[k] < pivot {
      if k < i { assert vs'[k] == vs[k]; } else { assert vs'[k] == vs[j]; }
    }
    forall k | i + 1 <= k < j + 1 ensures pivot <= vs'[k] {
      if k < j { assert vs'[k] == vs[k]; } else { assert vs'[k] == vs[i]; }
    }
  }

  /** The end of `partition` (list.h:266-268) on values: once the loop has
      reached the pivot at `b - 1`, with the values below it in `[a, m)`,
      swapping it to `m` leaves the values below it before it and the others
      after it. */
  lemma PartitionEnd(vs0: seq<int>, vs: seq<int>, a: nat, b: nat, m: nat)
    requires a <= m < b <= |vs0|
    requires PermutedWithin(vs0, vs, a, b - 1)
    requires forall k | a <= k < m :: vs[k] < vs0[b - 1]
    requires forall k | m <= k < b - 1 :: vs0[b - 1] <= vs[k]
    ensures var vs' := vs[m := vs[b - 1]][b - 1 := vs[m]];
      && PermutedWithin(vs0, vs', a, b) && vs'[m] == vs0[b - 1]
      && (forall k | a <= k < m :: vs'[k] < vs'[m])
      && (forall k | m < k < b :: vs'[m] <= vs'[k])
  {
    var vs' := vs[m := vs[b - 1]][b - 1 := vs[m]];
    assert vs[b - 1] == vs0[b - 1];
    PivotRuns(vs, a, m, b);
    PermutedWithinWiden(vs0, vs, a, b - 1, a, b);
    SwapPermutes(vs, a, b, m, b - 1);
    PermutedWithinTrans(vs0, vs, vs', a, b);
  }

  /** Swapping the pivot at `b - 1` with the first value of the second run,
      at `m`, puts it between the two runs. */
  lemma PivotRuns(vs: seq<int>, a: nat, m: nat, b: nat)
    requires a <= m < b <= |vs|
    requires forall k | a <= k < m :: vs[k] < vs[b - 1]
    requires forall k | m <= k < b - 1 :: vs[b - 1] <= vs[k]
    ensures var vs' := vs[m := vs[b - 1]][b - 1 := vs[m]];
      && vs'[m] == vs[b - 1]
      && (forall k | a <= k < m :: vs'[k] < vs'[m])
      && (forall k | m < k < b :: vs'[m] <= vs'[k])
  {
    var vs' := vs[m := vs[b - 1]][b - 1 := vs[m]];
    assert vs'[m] == vs[b - 1];
    forall k | a <= k < m ensures vs'[k] < vs'[m] {
      assert vs'[k] == vs[k];
    }
    forall k | m < k < b ensures vs'[m] <= vs'[k] {
      if k < b - 1 { assert vs'[k] == vs[k]; } else { assert vs'[k] == vs[m]; }
    }
  }

  /** A node of `ns[a..m]` is a node of `ns[a..b]` when `m <= b`. */
  lemma InSubRange(ns: seq<int>, a: nat, m: nat, b: nat)
    requires a <= m <= b <= |ns|
    ensures forall n | n in ns[a..m] :: n in ns[a..b]
    ensures forall n | n in ns[m..b] :: n in ns[a..b]
  {
    forall n | n in ns[a..m] ensures n in ns[a..b] {
      var k :| 0 <= k < m - a && ns[a..m][k] == n;
      assert ns[a..b][k] == n;
    }
    forall n | n in ns[m..b] ensures n in ns[a..b] {
      var k :| 0 <= k < b - m && ns[m..b][k] == n;
      assert ns[a..b][k + m - a] == n;
    }
  }

  /** A rearrangement keeps an upper bound of its values. */
  lemma PermutedBelow(xs: seq<int>, ys: seq<int>, hi: int)
    requires multiset(xs) == multiset(ys) && forall k | 0 <= k < |xs| :: xs[k] < hi
    ensures forall k | 0 <= k < |ys| :: ys[k] < hi
  {
    forall k | 0 <= k < |ys| ensures ys[k] < hi {
      assert ys[k] in multiset(xs);
    }
  }

  /** A rearrangement keeps a lower bound of its values. */
  lemma PermutedAbove(xs: seq<int>, ys: seq<int>, lo: int)
    requires multiset(xs) == multiset(ys) && forall k | 0 <= k < |xs| :: lo <= xs[k]
    ensures forall k | 0 <= k < |ys| :: lo <= ys[k]
  {
    forall k | 0 <= k < |ys| ensures lo <= ys[k] {
      assert ys[k] in multiset(xs);
    }
  }

  /** Two sorted runs around a value that is above the first run and not
      above the second make one sorted run. */
  lemma SortedAround(vs: seq<int>, a: nat, m: nat, b: nat)
    requires a <= m < b <= |vs|
    requires Sorted(vs[a..m]) && Sorted(vs[m + 1..b])
    requires forall k | a <= k < m :: vs[k] < vs[m]
    requires forall k | m < k < b :: vs[m] <= vs[k]
    ensures Sorted(vs[a..b])
  {
    forall i, j | a <= i < j < b ensures vs[i] <= vs[j] {
      if j < m {
        assert vs[a..m][i - a] <= vs[a..m][j - a];
      } else if i > m {
        assert vs[m + 1..b][i - m - 1] <= vs[m + 1..b][j - m - 1];
      }
    }
    assert forall i | 0 <= i < b - a :: vs[a..b][i] == vs[a + i];
  }

  /** After `partition` has put the values below the pivot before it and
      the rest after it, sorting both sides sorts `[a, b)`. */
  lemma QuicksortStep(v1: seq<int>, v2: seq<int>, v3: seq<int>, a: nat, m: nat, b: nat)
    requires a <= m < b <= |v1|
    requires forall k | a <= k < m :: v1[k] < v1[m]
    requires forall k | m < k < b :: v1[m] <= v1[k]
    requires PermutedWithin(v1, v2, a, m) && Sorted(v2[a..m])
    requires PermutedWithin(v2, v3, m + 1, b) && Sorted(v3[m + 1..b])
    ensures PermutedWithin(v1, v3, a, b) && Sorted(v3[a..b])
  {
    PermutedWithinWiden(v1, v2, a, m, a, b);
    PermutedWithinWiden(v2, v3, m + 1, b, a, b);
    var pv := v1[m];
    assert v3[a..m] == v2[a..m];
    assert v3[m] == v2[m] == pv;
    assert v2[m + 1..b] == v1[m + 1..b];
    PermutedSlice(v1, v2, a, m);
    PermutedSlice(v2, v3, m + 1, b);
    var lo, hi := v1[a..m], v2[m + 1..b];
    assert forall k | 0 <= k < |lo| :: lo[k] == v1[a + k];
    PermutedBelow(lo, v3[a..m], pv);
    assert forall k | a <= k < m :: v3[k] == v3[a..m][k - a];
    assert forall k | 0 <= k < |hi| :: hi[k] == v1[m + 1 + k];
    PermutedAbove(hi, v3[m + 1..b], pv);
    assert forall k | m < k < b :: v3[k] == v3[m + 1..b][k - m - 1];
    SortedAround(v3, a, m, b);
  }
}
