/** The links of `list<T>`'s nodes (list.h:11-17) and what `transfer`
    (list.h:243-253) does to them.

    Nodes are numbered; `nxt[n]` and `prv[n]` are node `n`'s `next` and
    `prev` pointers. A list is its sentinel node `s` (the field `node`) with
    the sequence `ns` of its element nodes: the circle
    `s, ns[0], ..., ns[|ns| - 1], s` is linked both ways. Every node also
    has a ghost owner: the sentinel of the list it belongs to, or -1 for a
    node that has been given back. */
module ListLinks {

  datatype Links = Links(nxt: seq<int>, prv: seq<int>)

  /** Consecutive nodes of `c` are linked forwards and backwards. */
  ghost predicate Chained(h: Links, c: seq<int>) {
    && (forall k | 0 <= k < |c| - 1 :: 0 <= c[k] < |h.nxt| && h.nxt[c[k]] == c[k + 1])
    && (forall k | 1 <= k < |c| :: 0 <= c[k] < |h.prv| && h.prv[c[k]] == c[k - 1])
  }

  ghost predicate Distinct(c: seq<int>) {
    forall i, j | 0 <= i < j < |c| :: c[i] != c[j]
  }

  /** The circle of list `s`: the sentinel, then the elements. */
  function Circle(s: int, ns: seq<int>): (c: seq<int>)
    ensures |c| == |ns| + 1 && c[0] == s && c[1..] == ns
  {
    [s] + ns
  }

  /** `s` is a well-formed list with elements `ns`. */
  ghost predicate ListOk(h: Links, owner: seq<int>, s: int, ns: seq<int>) {
    && |h.prv| == |h.nxt| && |owner| == |h.nxt|
    && 0 <= s < |h.nxt| && owner[s] == s
    && (forall k | 0 <= k < |ns| :: 0 <= ns[k] < |h.nxt| && owner[ns[k]] == s)
    && Distinct(Circle(s, ns))
    && Chained(h, Circle(s, ns) + [s])
  }

  /** The nodes an iterator into list `s` may point at: the elements, then
      `end()`, which is the sentinel. */
  function Position(s: int, ns: seq<int>, p: nat): int
    requires p <= |ns|
  {
    if p < |ns| then ns[p] else s
  }

  /** Position `p` is entry `p + 1` of the closed circle. */
  lemma PositionInCircle(s: int, ns: seq<int>, p: nat)
    requires p <= |ns|
    ensures Position(s, ns, p) == (Circle(s, ns) + [s])[p + 1]
  {
  }

  // General facts about chains

  lemma ChainSlice(h: Links, c: seq<int>, i: nat, j: nat)
    requires Chained(h, c) && i <= j <= |c|
    ensures Chained(h, c[i..j])
  {
    var d := c[i..j];
    forall k | 0 <= k < |d| - 1
      ensures 0 <= d[k] < |h.nxt| && h.nxt[d[k]] == d[k + 1]
    {
      assert d[k] == c[i + k] && d[k + 1] == c[i + k + 1];
    }
    forall k | 1 <= k < |d|
      ensures 0 <= d[k] < |h.prv| && h.prv[d[k]] == d[k - 1]
    {
      assert d[k] == c[i + k] && d[k - 1] == c[i + k - 1];
    }
  }

  lemma ChainConcat(h: Links, a: seq<int>, b: seq<int>)
    requires Chained(h, a) && Chained(h, b) && |a| >= 1 && |b| >= 1
    requires 0 <= a[|a| - 1] < |h.nxt| && 0 <= b[0] < |h.prv|
    requires h.nxt[a[|a| - 1]] == b[0] && h.prv[b[0]] == a[|a| - 1]
    ensures Chained(h, a + b)
  {
    var c := a + b;
    forall k | 0 <= k < |c| - 1
      ensures 0 <= c[k] < |h.nxt| && h.nxt[c[k]] == c[k + 1]
    {
      if k < |a| - 1 {
        assert c[k] == a[k] && c[k + 1] == a[k + 1];
      } else if k == |a| - 1 {
        assert c[k] == a[|a| - 1] && c[k + 1] == b[0];
      } else {
        assert c[k] == b[k - |a|] && c[k + 1] == b[k - |a| + 1];
      }
    }
    forall k | 1 <= k < |c|
      ensures 0 <= c[k] < |h.prv| && h.prv[c[k]] == c[k - 1]
    {
      if k < |a| {
        assert c[k] == a[k] && c[k - 1] == a[k - 1];
      } else if k == |a| {
        assert c[k] == b[0] && c[k - 1] == a[|a| - 1];
      } else {
        assert c[k] == b[k - |a|] && c[k - 1] == b[k - |a| - 1];
      }
    }
  }

  /** A piece `[i, j)` of the circle `d + [d[0]]` stays linked under new
      links that keep the `next` pointer of every node but those at the
      indices `xs` and the `prev` pointer of every node but those at the
      indices `ys`, as long as the piece does not need the changed pointers:
      it may end at an index of `xs` and start at an index of `ys`. Index
      `|d|` of the circle is the sentinel again, index 0. */
  lemma KeepSegment(h: Links, h': Links, d: seq<int>, i: nat, j: nat,
                    x1: int, x2: int, x3: int, y1: int, y2: int, y3: int)
    requires |d| >= 1 && Chained(h, d + [d[0]])
    requires |h'.nxt| == |h.nxt| && |h'.prv| == |h.prv|
    requires forall k | 0 <= k < |d| :: 0 <= d[k] < |h.nxt| && d[k] < |h.prv|
    requires i < j <= |d| + 1
    requires forall k | 0 <= k < |d| && k != x1 && k != x2 && k != x3 :: h'.nxt[d[k]] == h.nxt[d[k]]
    requires forall k | 0 <= k < |d| && k != y1 && k != y2 && k != y3 :: h'.prv[d[k]] == h.prv[d[k]]
    // the piece needs no changed `next` pointer but perhaps its last node's
    requires !(i <= x1 < j - 1) && !(i <= x2 < j - 1) && !(i <= x3 < j - 1)
    // the piece needs no changed `prev` pointer but perhaps its first node's
    requires !(i < y1 < j) && !(i < y2 < j) && !(i < y3 < j)
    requires i < |d| < j ==> y1 != 0 && y2 != 0 && y3 != 0
    ensures Chained(h', (d + [d[0]])[i..j])
  {
    var c := d + [d[0]];
    var s := c[i..j];
    forall k | 0 <= k < |s| - 1
      ensures 0 <= s[k] < |h'.nxt| && h'.nxt[s[k]] == s[k + 1]
    {
      var a := i + k;
      assert s[k] == c[a] == d[a] && s[k + 1] == c[a + 1];
      assert h.nxt[c[a]] == c[a + 1];
    }
    forall k | 1 <= k < |s|
      ensures 0 <= s[k] < |h'.prv| && h'.prv[s[k]] == s[k - 1]
    {
      var a := i + k;
      assert s[k] == c[a] && s[k - 1] == c[a - 1];
      assert h.prv[c[a]] == c[a - 1];
      if a == |d| {
        assert c[a] == c[|c| - 1] == d[0];
      } else {
        assert c[a] == d[a];
      }
    }
  }

  /** If a list is well formed and no node it owns changes its links or
      owner, it is still well formed. */
  lemma ListOkFrame(h: Links, owner: seq<int>, h': Links, owner': seq<int>, s: int, ns: seq<int>)
    requires ListOk(h, owner, s, ns)
    requires |h'.prv| == |h'.nxt| == |owner'| >= |h.nxt|
    requires forall n | 0 <= n < |h.nxt| && owner[n] == s ::
      h'.nxt[n] == h.nxt[n] && h'.prv[n] == h.prv[n] && owner'[n] == owner[n]
    ensures ListOk(h', owner', s, ns)
  {
    var c := Circle(s, ns) + [s];
    forall k | 0 <= k < |c|
      ensures 0 <= c[k] < |h.nxt| && owner[c[k]] == s
    {
      if 1 <= k <= |ns| {
        assert c[k] == ns[k - 1];
      }
    }
  }

  // Distinct and separate pieces

  /** Every node of `c` is in the store and owned by `s`. */
  ghost predicate Owned(owner: seq<int>, c: seq<int>, s: int) {
    forall k | 0 <= k < |c| :: 0 <= c[k] < |owner| && owner[c[k]] == s
  }

  /** No node is in both `x` and `y`. */
  ghost predicate Separate(x: seq<int>, y: seq<int>) {
    forall i, j | 0 <= i < |x| && 0 <= j < |y| :: x[i] != y[j]
  }

  lemma CircleOwned(h: Links, owner: seq<int>, s: int, ns: seq<int>)
    requires ListOk(h, owner, s, ns)
    ensures Owned(owner, Circle(s, ns), s)
  {
    var c := Circle(s, ns);
    forall k | 0 <= k < |c| ensures 0 <= c[k] < |owner| && owner[c[k]] == s {
      if k > 0 { assert c[k] == ns[k - 1]; }
    }
  }

  lemma ListOkIntro(h: Links, owner: seq<int>, s: int, ns: seq<int>)
    requires |h.prv| == |h.nxt| && |owner| == |h.nxt|
    requires Owned(owner, Circle(s, ns), s) && Distinct(Circle(s, ns))
    requires Chained(h, Circle(s, ns) + [s])
    ensures ListOk(h, owner, s, ns)
  {
    var c := Circle(s, ns);
    assert c[0] == s;
    forall k | 0 <= k < |ns| ensures 0 <= ns[k] < |h.nxt| && owner[ns[k]] == s {
      assert c[k + 1] == ns[k];
    }
  }

  lemma OwnedSeparate(owner: seq<int>, x: seq<int>, s: int, y: seq<int>, t: int)
    requires Owned(owner, x, s) && Owned(owner, y, t) && s != t
    ensures Separate(x, y)
  {
  }

  lemma OwnedConcat(owner: seq<int>, x: seq<int>, y: seq<int>, s: int)
    requires Owned(owner, x, s) && Owned(owner, y, s)
    ensures Owned(owner, x + y, s)
  {
    forall k | 0 <= k < |x + y| ensures 0 <= (x + y)[k] < |owner| && owner[(x + y)[k]] == s {
      if k >= |x| { assert (x + y)[k] == y[k - |x|]; }
    }
  }

  lemma OwnedSlice(owner: seq<int>, x: seq<int>, s: int, i: nat, j: nat)
    requires Owned(owner, x, s) && i <= j <= |x|
    ensures Owned(owner, x[i..j], s)
  {
    forall k | 0 <= k < j - i ensures 0 <= x[i..j][k] < |owner| && owner[x[i..j][k]] == s {
      assert x[i..j][k] == x[i + k];
    }
  }

  /** Two disjoint index ranges of a distinct sequence hold distinct nodes. */
  lemma DistinctRanges(x: seq<int>, i1: nat, j1: nat, i2: nat, j2: nat)
    requires Distinct(x) && i1 <= j1 <= |x| && i2 <= j2 <= |x|
    requires j1 <= i2 || j2 <= i1
    ensures Distinct(x[i1..j1]) && Separate(x[i1..j1], x[i2..j2])
  {
    forall u, v | 0 <= u < v < j1 - i1 ensures x[i1..j1][u] != x[i1..j1][v] {
      assert x[i1..j1][u] == x[i1 + u] && x[i1..j1][v] == x[i1 + v];
    }
    forall u, v | 0 <= u < j1 - i1 && 0 <= v < j2 - i2 ensures x[i1..j1][u] != x[i2..j2][v] {
      assert x[i1..j1][u] == x[i1 + u] && x[i2..j2][v] == x[i2 + v];
    }
  }

  lemma DistinctJoin(x: seq<int>, y: seq<int>)
    requires Distinct(x) && Distinct(y) && Separate(x, y)
    ensures Distinct(x + y)
  {
    forall i, j | 0 <= i < j < |x + y| ensures (x + y)[i] != (x + y)[j] {
      if j < |x| {
        assert (x + y)[i] == x[i] && (x + y)[j] == x[j];
      } else if i < |x| {
        assert (x + y)[i] == x[i] && (x + y)[j] == y[j - |x|];
      } else {
        assert (x + y)[i] == y[i - |x|] && (x + y)[j] == y[j - |x|];
      }
    }
  }

  lemma SeparateConcat(x: seq<int>, y: seq<int>, z: seq<int>)
    requires Separate(x, z) && Separate(y, z)
    ensures Separate(x + y, z)
  {
    forall i, j | 0 <= i < |x + y| && 0 <= j < |z| ensures (x + y)[i] != z[j] {
      if i >= |x| { assert (x + y)[i] == y[i - |x|]; }
    }
  }

  lemma SeparateFlip(x: seq<int>, y: seq<int>)
    requires Separate(x, y)
    ensures Separate(y, x)
  {
  }

  /** Swapping two adjacent pieces of a distinct sequence keeps it
      distinct. */
  lemma DistinctSwapMiddle(x: seq<int>, i: nat, j: nat, k: nat)
    requires Distinct(x) && i <= j <= k <= |x|
    ensures Distinct(x[..i] + x[j..k] + x[i..j] + x[k..])
  {
    DistinctRanges(x, 0, i, j, k);
    DistinctRanges(x, j, k, i, j);
    DistinctRanges(x, i, j, k, |x|);
    DistinctRanges(x, 0, i, i, j);
    DistinctRanges(x, 0, i, k, |x|);
    DistinctRanges(x, j, k, k, |x|);
    assert x[0..i] == x[..i] && x[k..|x|] == x[k..];
    DistinctJoin(x[..i], x[j..k]);
    SeparateConcat(x[..i], x[j..k], x[i..j]);
    DistinctJoin(x[..i] + x[j..k], x[i..j]);
    SeparateConcat(x[..i], x[j..k], x[k..]);
    SeparateConcat(x[..i] + x[j..k], x[i..j], x[k..]);
    DistinctJoin(x[..i] + x[j..k] + x[i..j], x[k..]);
  }

  // `transfer` as written

  /** The three nodes and their predecessors exist, so the writes of
      `transfer` are defined. For nodes of well-formed lists this always
      holds. */
  predicate Linkable(h: Links, pos: int, first: int, last: int) {
    && |h.prv| == |h.nxt|
    && 0 <= pos < |h.nxt| && 0 <= first < |h.nxt| && 0 <= last < |h.nxt|
    && 0 <= h.prv[pos] < |h.nxt| && 0 <= h.prv[first] < |h.nxt| && 0 <= h.prv[last] < |h.nxt|
  }

  /** `transfer(pos, first, last)` (list.h:243-253): the three `next`
      writes, then the three `prev` writes, in the source's order, each
      reading the links as they are at that point. Nothing changes when
      `pos == last`. */
  function TransferLinks(h: Links, pos: int, first: int, last: int): (r: Links)
    ensures |r.nxt| == |h.nxt| && |r.prv| == |h.prv|
    ensures pos == last ==> r == h
  {
    if pos == last || !Linkable(h, pos, first, last) then h
    else
      var n1 := h.nxt[h.prv[last] := pos];
      var n2 := n1[h.prv[first] := last];
      var n3 := n2[h.prv[pos] := first];
      var temp := h.prv[pos];
      var p1 := h.prv[pos := h.prv[last]];
      var p2 := p1[last := p1[first]];
      var p3 := p2[first := temp];
      Links(n3, p3)
  }

  /** `h'` is `h` with `[first, last)` cut out and spliced in before `pos`:
      the six pointers at the three joints are the new ones and every other
      pointer is as before. */
  ghost predicate Relinked(h: Links, h': Links, pos: int, first: int, last: int) {
    && Linkable(h, pos, first, last)
    && |h'.nxt| == |h.nxt| && |h'.prv| == |h.nxt|
    && h'.nxt[h.prv[last]] == pos && h'.prv[pos] == h.prv[last]
    && h'.nxt[h.prv[first]] == last && h'.prv[last] == h.prv[first]
    && h'.nxt[h.prv[pos]] == first && h'.prv[first] == h.prv[pos]
    && (forall n | 0 <= n < |h.nxt| && n != h.prv[last] && n != h.prv[first] && n != h.prv[pos] ::
          h'.nxt[n] == h.nxt[n])
    && (forall n | 0 <= n < |h.nxt| && n != pos && n != last && n != first :: h'.prv[n] == h.prv[n])
  }

  /** When the three nodes and their three predecessors are distinct, the
      writes of `transfer` do not interfere with each other: the result is
      the intended relinking. */
  lemma TransferLinksEffect(h: Links, pos: int, first: int, last: int)
    requires Linkable(h, pos, first, last)
    requires pos != first && pos != last && first != last
    requires h.prv[pos] != h.prv[first] && h.prv[pos] != h.prv[last] && h.prv[first] != h.prv[last]
    ensures Relinked(h, TransferLinks(h, pos, first, last), pos, first, last)
  {
  }

  /** Owners after moving the nodes `r` into list `s`. */
  function Reown(owner: seq<int>, r: seq<int>, s: int): (o: seq<int>)
    ensures |o| == |owner|
    ensures forall n | 0 <= n < |owner| :: o[n] == if n in r then s else owner[n]
  {
    seq(|owner|, n requires 0 <= n < |owner| => if n in r then s else owner[n])
  }

  lemma ReownOwned(owner: seq<int>, r: seq<int>, s: int, x: seq<int>, t: int)
    requires Owned(owner, x, t) && Separate(x, r)
    ensures Owned(Reown(owner, r, s), x, t)
  {
    forall k | 0 <= k < |x| ensures x[k] !in r {
      assert forall j | 0 <= j < |r| :: r[j] != x[k];
    }
  }

  lemma ReownMoved(owner: seq<int>, r: seq<int>, s: int, t: int)
    requires Owned(owner, r, t)
    ensures Owned(Reown(owner, r, s), r, s)
  {
  }

  /** The index in `Circle(s, ns)` of the node at position `p`. */
  function CircleIndex(ns: seq<int>, p: nat): nat {
    if p == |ns| then 0 else p + 1
  }

  // Which pointers of a circle survive a `transfer`: each lemma below
  // names the circle indices whose `next` (or `prev`) pointer may change.

  lemma TargetNxtKept(h: Links, h': Links, owner: seq<int>, l: int, ls: seq<int>, p: nat, first: int, last: int)
    requires ListOk(h, owner, l, ls) && p <= |ls|
    requires Relinked(h, h', Position(l, ls, p), first, last)
    requires owner[h.prv[first]] != l && owner[h.prv[last]] != l
    ensures var dl := Circle(l, ls);
      forall k | 0 <= k < |dl| && k != p :: h'.nxt[dl[k]] == h.nxt[dl[k]]
  {
    var dl := Circle(l, ls);
    CircleOwned(h, owner, l, ls);
    PositionInCircle(l, ls, p);
    assert h.prv[Position(l, ls, p)] == (dl + [l])[p] == dl[p];
    forall k | 0 <= k < |dl| && k != p ensures h'.nxt[dl[k]] == h.nxt[dl[k]] {
      assert dl[k] != dl[p] && owner[dl[k]] == l;
    }
  }

  lemma TargetPrvKept(h: Links, h': Links, owner: seq<int>, l: int, ls: seq<int>, p: nat, first: int, last: int)
    requires ListOk(h, owner, l, ls) && p <= |ls|
    requires Relinked(h, h', Position(l, ls, p), first, last)
    requires owner[first] != l && owner[last] != l
    ensures var dl := Circle(l, ls);
      forall k | 0 <= k < |dl| && k != CircleIndex(ls, p) :: h'.prv[dl[k]] == h.prv[dl[k]]
  {
    var dl := Circle(l, ls);
    CircleOwned(h, owner, l, ls);
    var y := CircleIndex(ls, p);
    assert Position(l, ls, p) == dl[y];
    forall k | 0 <= k < |dl| && k != y ensures h'.prv[dl[k]] == h.prv[dl[k]] {
      assert dl[k] != dl[y] && owner[dl[k]] == l;
    }
  }

  lemma SourceNxtKept(h: Links, h': Links, owner: seq<int>, m: int, ms: seq<int>, a: nat, b: nat, pos: int)
    requires ListOk(h, owner, m, ms) && a < b <= |ms|
    requires Relinked(h, h', pos, Position(m, ms, a), Position(m, ms, b))
    requires owner[h.prv[pos]] != m
    ensures var dm := Circle(m, ms);
      forall k | 0 <= k < |dm| && k != a && k != b :: h'.nxt[dm[k]] == h.nxt[dm[k]]
  {
    var dm := Circle(m, ms);
    CircleOwned(h, owner, m, ms);
    assert Position(m, ms, a) == (dm + [m])[a + 1] && Position(m, ms, b) == (dm + [m])[b + 1];
    assert (dm + [m])[a] == dm[a] && (dm + [m])[b] == dm[b];
    assert h.prv[Position(m, ms, a)] == dm[a] && h.prv[Position(m, ms, b)] == dm[b];
    forall k | 0 <= k < |dm| && k != a && k != b ensures h'.nxt[dm[k]] == h.nxt[dm[k]] {
      assert dm[k] != dm[a] && dm[k] != dm[b] && owner[dm[k]] == m;
    }
  }

  lemma SourcePrvKept(h: Links, h': Links, owner: seq<int>, m: int, ms: seq<int>, a: nat, b: nat, pos: int)
    requires ListOk(h, owner, m, ms) && a < b <= |ms|
    requires Relinked(h, h', pos, Position(m, ms, a), Position(m, ms, b))
    requires owner[pos] != m
    ensures var dm := Circle(m, ms);
      forall k | 0 <= k < |dm| && k != a + 1 && k != CircleIndex(ms, b) :: h'.prv[dm[k]] == h.prv[dm[k]]
  {
    var dm := Circle(m, ms);
    CircleOwned(h, owner, m, ms);
    var yb := CircleIndex(ms, b);
    assert Position(m, ms, a) == dm[a + 1] && Position(m, ms, b) == dm[yb];
    forall k | 0 <= k < |dm| && k != a + 1 && k != yb ensures h'.prv[dm[k]] == h.prv[dm[k]] {
      assert dm[k] != dm[a + 1] && dm[k] != dm[yb] && owner[dm[k]] == m;
    }
  }

  lemma CircleInRange(h: Links, owner: seq<int>, s: int, ns: seq<int>)
    requires ListOk(h, owner, s, ns)
    ensures var d := Circle(s, ns);
      forall k | 0 <= k < |d| :: 0 <= d[k] < |h.nxt| && d[k] < |h.prv|
  {
    CircleOwned(h, owner, s, ns);
  }

  /** The two pieces of `l`'s circle on either side of `pos` stay linked
      when the nodes cut and their predecessors belong to another list. */
  lemma TargetPiecesKept(h: Links, h': Links, owner: seq<int>, l: int, ls: seq<int>, p: nat,
                         first: int, last: int)
    requires ListOk(h, owner, l, ls) && p <= |ls|
    requires Relinked(h, h', Position(l, ls, p), first, last)
    requires owner[first] != l && owner[last] != l
    requires owner[h.prv[first]] != l && owner[h.prv[last]] != l
    ensures var cl := Circle(l, ls) + [l];
      Chained(h', cl[..p + 1]) && Chained(h', cl[p + 1..])
  {
    var cl := Circle(l, ls) + [l];
    TargetPieceKept(h, h', owner, l, ls, p, first, last, 0, p + 1);
    TargetPieceKept(h, h', owner, l, ls, p, first, last, p + 1, |Circle(l, ls)| + 1);
    assert cl[0..p + 1] == cl[..p + 1] && cl[p + 1..|Circle(l, ls)| + 1] == cl[p + 1..];
  }

  /** One of the two pieces of `TargetPiecesKept`, `[i, j)` of the closed
      circle. */
  lemma TargetPieceKept(h: Links, h': Links, owner: seq<int>, l: int, ls: seq<int>, p: nat,
                        first: int, last: int, i: nat, j: nat)
    requires ListOk(h, owner, l, ls) && p <= |ls|
    requires Relinked(h, h', Position(l, ls, p), first, last)
    requires owner[first] != l && owner[last] != l
    requires owner[h.prv[first]] != l && owner[h.prv[last]] != l
    requires (i, j) == (0, p + 1) || (i, j) == (p + 1, |Circle(l, ls)| + 1)
    ensures Chained(h', (Circle(l, ls) + [l])[i..j])
  {
    var dl := Circle(l, ls);
    TargetNxtKept(h, h', owner, l, ls, p, first, last);
    TargetPrvKept(h, h', owner, l, ls, p, first, last);
    CircleInRange(h, owner, l, ls);
    var y := CircleIndex(ls, p);
    assert dl + [dl[0]] == dl + [l];
    KeepSegment(h, h', dl, i, j, p, p, p, y, y, y);
  }

  /** The cut range `ms[a..b]` stays linked inside when `pos` and its
      predecessor belong to another list. */
  lemma RangeKept(h: Links, h': Links, owner: seq<int>, m: int, ms: seq<int>, a: nat, b: nat, pos: int)
    requires ListOk(h, owner, m, ms) && a < b <= |ms|
    requires Relinked(h, h', pos, Position(m, ms, a), Position(m, ms, b))
    requires owner[pos] != m && owner[h.prv[pos]] != m
    ensures Chained(h', ms[a..b])
  {
    RangeSegmentKept(h, h', owner, m, ms, a, b, pos);
    CircleSlice(m, ms, a, b);
  }

  /** `RangeKept` on the closed circle, where the range is `[a + 1, b + 1)`. */
  lemma RangeSegmentKept(h: Links, h': Links, owner: seq<int>, m: int, ms: seq<int>, a: nat, b: nat, pos: int)
    requires ListOk(h, owner, m, ms) && a < b <= |ms|
    requires Relinked(h, h', pos, Position(m, ms, a), Position(m, ms, b))
    requires owner[pos] != m && owner[h.prv[pos]] != m
    ensures Chained(h', (Circle(m, ms) + [Circle(m, ms)[0]])[a + 1..b + 1])
  {
    SourceNxtKept(h, h', owner, m, ms, a, b, pos);
    SourcePrvKept(h, h', owner, m, ms, a, b, pos);
    CircleInRange(h, owner, m, ms);
    RangePointersKept(h, h', Circle(m, ms), a, b, CircleIndex(ms, b));
  }

  /** The pieces of a circle `d` between a `next` pointer changed at `a`
      and one changed at `b`, whose `prev` pointers change only at `a + 1`
      and `yb`, stays linked. */
  lemma RangePointersKept(h: Links, h': Links, d: seq<int>, a: nat, b: nat, yb: nat)
    requires |d| >= 1 && Chained(h, d + [d[0]])
    requires |h'.nxt| == |h.nxt| && |h'.prv| == |h.prv|
    requires forall k | 0 <= k < |d| :: 0 <= d[k] < |h.nxt| && d[k] < |h.prv|
    requires a < b < |d| && yb == (if b + 1 == |d| then 0 else b + 1)
    requires forall k | 0 <= k < |d| && k != a && k != b :: h'.nxt[d[k]] == h.nxt[d[k]]
    requires forall k | 0 <= k < |d| && k != a + 1 && k != yb :: h'.prv[d[k]] == h.prv[d[k]]
    ensures Chained(h', (d + [d[0]])[a + 1..b + 1])
  {
    KeepSegment(h, h', d, a + 1, b + 1, a, b, b, a + 1, yb, yb);
  }

  /** The elements `ms[a..b]` sit at indices `a + 1` to `b` of the circle. */
  lemma CircleSlice(m: int, ms: seq<int>, a: nat, b: nat)
    requires a < b <= |ms|
    ensures var dm := Circle(m, ms); (dm + [dm[0]])[a + 1..b + 1] == ms[a..b]
  {
    var dm := Circle(m, ms);
    assert (dm + [dm[0]])[a + 1..b + 1] == dm[a + 1..b + 1] == dm[1..][a..b];
  }

  /** The circle of `m` is linked again once `ms[a..b]` has been cut out. */
  lemma SourceRelinked(h: Links, h': Links, owner: seq<int>, m: int, ms: seq<int>, a: nat, b: nat, pos: int)
    requires ListOk(h, owner, m, ms) && a < b <= |ms|
    requires Relinked(h, h', pos, Position(m, ms, a), Position(m, ms, b))
    requires owner[pos] != m && owner[h.prv[pos]] != m
    ensures Chained(h', Circle(m, ms[..a] + ms[b..]) + [m])
  {
    SourceNxtKept(h, h', owner, m, ms, a, b, pos);
    SourcePrvKept(h, h', owner, m, ms, a, b, pos);
    CircleInRange(h, owner, m, ms);
    SourceJoint(h, h', m, ms, a, b, pos);
    CutChained(h, h', m, ms, a, b);
  }

  /** Cutting `ms[a..b]` out of the circle of `m`, given which of its
      pointers survive and the new joint. */
  lemma CutChained(h: Links, h': Links, m: int, ms: seq<int>, a: nat, b: nat)
    requires a < b <= |ms|
    requires |h'.nxt| == |h.nxt| && |h'.prv| == |h.prv|
    requires Chained(h, Circle(m, ms) + [m])
    requires var dm := Circle(m, ms);
      && (forall k | 0 <= k < |dm| :: 0 <= dm[k] < |h.nxt| && dm[k] < |h.prv|)
      && (forall k | 0 <= k < |dm| && k != a && k != b :: h'.nxt[dm[k]] == h.nxt[dm[k]])
      && (forall k | 0 <= k < |dm| && k != a + 1 && k != CircleIndex(ms, b) :: h'.prv[dm[k]] == h.prv[dm[k]])
    requires var cm := Circle(m, ms) + [m];
      h'.nxt[cm[a]] == cm[b + 1] && h'.prv[cm[b + 1]] == cm[a]
    ensures Chained(h', Circle(m, ms[..a] + ms[b..]) + [m])
  {
    var cm := Circle(m, ms) + [m];
    CutPiece(h, h', m, ms, a, b, 0, a + 1);
    CutPiece(h, h', m, ms, a, b, b + 1, |Circle(m, ms) + [m]|);
    assert cm[0..a + 1] == cm[..a + 1] && cm[b + 1..|cm|] == cm[b + 1..];
    assert cm[..a + 1][a] == cm[a] == Circle(m, ms)[a] && cm[b + 1..][0] == cm[b + 1];
    ChainConcat(h', cm[..a + 1], cm[b + 1..]);
    CutCircle(m, ms, a, b);
  }

  /** One of the two pieces kept by `CutChained`, `[lo, hi)` of the closed
      circle. */
  lemma CutPiece(h: Links, h': Links, m: int, ms: seq<int>, a: nat, b: nat, lo: nat, hi: nat)
    requires a < b <= |ms|
    requires |h'.nxt| == |h.nxt| && |h'.prv| == |h.prv|
    requires Chained(h, Circle(m, ms) + [m])
    requires var dm := Circle(m, ms);
      && (forall k | 0 <= k < |dm| :: 0 <= dm[k] < |h.nxt| && dm[k] < |h.prv|)
      && (forall k | 0 <= k < |dm| && k != a && k != b :: h'.nxt[dm[k]] == h.nxt[dm[k]])
      && (forall k | 0 <= k < |dm| && k != a + 1 && k != CircleIndex(ms, b) :: h'.prv[dm[k]] == h.prv[dm[k]])
    requires (lo, hi) == (0, a + 1) || (lo, hi) == (b + 1, |Circle(m, ms) + [m]|)
    ensures Chained(h', (Circle(m, ms) + [m])[lo..hi])
  {
    var dm := Circle(m, ms);
    var yb := CircleIndex(ms, b);
    assert dm + [dm[0]] == Circle(m, ms) + [m];
    KeepSegment(h, h', dm, lo, hi, a, b, b, a + 1, yb, yb);
  }

  /** The new joint of the source list: the node before `first` now leads
      to `last`. */
  lemma SourceJoint(h: Links, h': Links, m: int, ms: seq<int>, a: nat, b: nat, pos: int)
    requires a < b <= |ms| && Chained(h, Circle(m, ms) + [m])
    requires Relinked(h, h', pos, Position(m, ms, a), Position(m, ms, b))
    ensures var cm := Circle(m, ms) + [m];
      h'.nxt[cm[a]] == cm[b + 1] && h'.prv[cm[b + 1]] == cm[a]
  {
    var cm := Circle(m, ms) + [m];
    assert Position(m, ms, a) == cm[a + 1] && h.prv[cm[a + 1]] == cm[a];
  }

  lemma CutCircle(m: int, ms: seq<int>, a: nat, b: nat)
    requires a <= b <= |ms|
    ensures var cm := Circle(m, ms) + [m];
      cm[..a + 1] + cm[b + 1..] == Circle(m, ms[..a] + ms[b..]) + [m]
  {
    var cm := Circle(m, ms) + [m];
    assert cm[..a + 1] == [m] + ms[..a];
    assert cm[b + 1..] == ms[b..] + [m];
  }

  lemma InsertCircle(l: int, ls: seq<int>, p: nat, r: seq<int>)
    requires p <= |ls|
    ensures var cl := Circle(l, ls) + [l];
      cl[..p + 1] + r + cl[p + 1..] == Circle(l, ls[..p] + r + ls[p..]) + [l]
  {
    var cl := Circle(l, ls) + [l];
    assert cl[..p + 1] == [l] + ls[..p];
    assert cl[p + 1..] == ls[p..] + [l];
  }

  /** The circle of `l` is linked once `ms[a..b]` has been spliced in
      before its position `p`. */
  lemma TargetRelinked(h: Links, h': Links, owner: seq<int>, l: int, ls: seq<int>, p: nat,
                       m: int, ms: seq<int>, a: nat, b: nat)
    requires ListOk(h, owner, l, ls) && ListOk(h, owner, m, ms) && l != m
    requires p <= |ls| && a < b <= |ms|
    requires Relinked(h, h', Position(l, ls, p), Position(m, ms, a), Position(m, ms, b))
    requires var pos, first, last := Position(l, ls, p), Position(m, ms, a), Position(m, ms, b);
      && owner[pos] == l && owner[h.prv[pos]] == l
      && owner[first] == m && owner[h.prv[first]] == m && owner[last] == m && owner[h.prv[last]] == m
    ensures Chained(h', Circle(l, ls[..p] + ms[a..b] + ls[p..]) + [l])
  {
    var pos, first, last := Position(l, ls, p), Position(m, ms, a), Position(m, ms, b);
    TargetPiecesKept(h, h', owner, l, ls, p, first, last);
    RangeKept(h, h', owner, m, ms, a, b, pos);
    TargetJoints(h, h', l, ls, p, m, ms, a, b);
    var cl := Circle(l, ls) + [l];
    var r := ms[a..b];
    ChainConcat(h', cl[..p + 1], r);
    ChainConcat(h', cl[..p + 1] + r, cl[p + 1..]);
    InsertCircle(l, ls, p, r);
  }

  /** The two new joints of the target list: before `pos` comes the range,
      and after the range comes `pos`. */
  lemma TargetJoints(h: Links, h': Links, l: int, ls: seq<int>, p: nat, m: int, ms: seq<int>, a: nat, b: nat)
    requires p <= |ls| && a < b <= |ms|
    requires Chained(h, Circle(l, ls) + [l]) && Chained(h, Circle(m, ms) + [m])
    requires forall k | 0 <= k < |ms| :: 0 <= ms[k] < |h.nxt|
    requires Relinked(h, h', Position(l, ls, p), Position(m, ms, a), Position(m, ms, b))
    ensures var cl, r := Circle(l, ls) + [l], ms[a..b];
      && h'.nxt[cl[p]] == r[0] && h'.prv[r[0]] == cl[p]
      && h'.nxt[r[|r| - 1]] == cl[p + 1] && h'.prv[cl[p + 1]] == r[|r| - 1]
  {
    var cl, cm := Circle(l, ls) + [l], Circle(m, ms) + [m];
    assert Position(l, ls, p) == cl[p + 1] && h.prv[cl[p + 1]] == cl[p];
    assert Position(m, ms, b) == cm[b + 1] && h.prv[cm[b + 1]] == cm[b];
    assert ms[a..b][0] == Position(m, ms, a) && ms[a..b][b - a - 1] == cm[b];
  }

  /** The nodes of `l` after the splice are distinct and all owned by `l`. */
  lemma TargetOwnership(owner: seq<int>, l: int, ls: seq<int>, p: nat,
                        m: int, ms: seq<int>, a: nat, b: nat)
    requires Owned(owner, Circle(l, ls), l) && Distinct(Circle(l, ls))
    requires Owned(owner, Circle(m, ms), m) && Distinct(Circle(m, ms)) && l != m
    requires p <= |ls| && a < b <= |ms|
    ensures var c := Circle(l, ls[..p] + ms[a..b] + ls[p..]);
      Owned(Reown(owner, ms[a..b], l), c, l) && Distinct(c)
  {
    var dl, dm := Circle(l, ls), Circle(m, ms);
    var r := ms[a..b];
    assert dm[a + 1..b + 1] == r;
    InsertedCircle(l, ls, p, r);
    OwnedSlice(owner, dm, m, a + 1, b + 1);
    DistinctRanges(dm, a + 1, b + 1, 0, 0);
    InsertedOwned(owner, dl, l, r, m, p + 1);
    InsertedDistinct(owner, dl, l, r, m, p + 1);
  }

  /** The circle of `ls` with `r` put in at position `p`. */
  lemma InsertedCircle(l: int, ls: seq<int>, p: nat, r: seq<int>)
    requires p <= |ls|
    ensures var dl := Circle(l, ls);
      dl[..p + 1] + r + dl[p + 1..] == Circle(l, ls[..p] + r + ls[p..])
  {
    var dl := Circle(l, ls);
    assert dl == [l] + ls;
    assert dl[..p + 1] == [l] + ls[..p];
    assert dl[p + 1..] == ls[p..];
  }

  /** Nodes `r` of list `m` moved into the circle `dl` of list `l` at `q`
      are owned by `l` there, as is the rest of `dl`. */
  lemma InsertedOwned(owner: seq<int>, dl: seq<int>, l: int, r: seq<int>, m: int, q: nat)
    requires Owned(owner, dl, l) && Owned(owner, r, m) && l != m && q <= |dl|
    ensures Owned(Reown(owner, r, l), dl[..q] + r + dl[q..], l)
  {
    var owner' := Reown(owner, r, l);
    assert dl[0..q] == dl[..q] && dl[q..|dl|] == dl[q..];
    OwnedSlice(owner, dl, l, 0, q);
    OwnedSlice(owner, dl, l, q, |dl|);
    OwnedSeparate(owner, dl[..q], l, r, m);
    OwnedSeparate(owner, dl[q..], l, r, m);
    ReownOwned(owner, r, l, dl[..q], l);
    ReownOwned(owner, r, l, dl[q..], l);
    ReownMoved(owner, r, l, m);
    OwnedConcat(owner', dl[..q], r, l);
    OwnedConcat(owner', dl[..q] + r, dl[q..], l);
  }

  /** The same insertion has no node twice. */
  lemma InsertedDistinct(owner: seq<int>, dl: seq<int>, l: int, r: seq<int>, m: int, q: nat)
    requires Owned(owner, dl, l) && Owned(owner, r, m) && l != m && q <= |dl|
    requires Distinct(dl) && Distinct(r)
    ensures Distinct(dl[..q] + r + dl[q..])
  {
    assert dl[0..q] == dl[..q] && dl[q..|dl|] == dl[q..];
    OwnedSlice(owner, dl, l, 0, q);
    OwnedSlice(owner, dl, l, q, |dl|);
    OwnedSeparate(owner, dl[..q], l, r, m);
    OwnedSeparate(owner, r, m, dl[q..], l);
    DistinctRanges(dl, 0, q, q, |dl|);
    DistinctRanges(dl, q, |dl|, 0, 0);
    DistinctJoin(dl[..q], r);
    SeparateConcat(dl[..q], r, dl[q..]);
    DistinctJoin(dl[..q] + r, dl[q..]);
  }

  /** The nodes left in `m` after the cut are distinct and still owned by
      `m`. */
  lemma SourceOwnership(owner: seq<int>, l: int, m: int, ms: seq<int>, a: nat, b: nat)
    requires Owned(owner, Circle(m, ms), m) && Distinct(Circle(m, ms)) && a < b <= |ms|
    ensures var c := Circle(m, ms[..a] + ms[b..]);
      Owned(Reown(owner, ms[a..b], l), c, m) && Distinct(c)
  {
    CutOwned(owner, Circle(m, ms), m, l, a + 1, b + 1);
    CutRenamed(owner, l, m, ms, a, b);
  }

  /** `CutOwned` on the circle of `ms`, restated for the list left. */
  lemma CutRenamed(owner: seq<int>, l: int, m: int, ms: seq<int>, a: nat, b: nat)
    requires a < b <= |ms|
    requires var dm := Circle(m, ms);
      Owned(Reown(owner, dm[a + 1..b + 1], l), dm[..a + 1] + dm[b + 1..], m) && Distinct(dm[..a + 1] + dm[b + 1..])
    ensures var c := Circle(m, ms[..a] + ms[b..]);
      Owned(Reown(owner, ms[a..b], l), c, m) && Distinct(c)
  {
    CutOpenCircle(m, ms, a, b);
  }

  /** The open circle of `ms` without `ms[a..b]`, and the part cut out. */
  lemma CutOpenCircle(m: int, ms: seq<int>, a: nat, b: nat)
    requires a <= b <= |ms|
    ensures Circle(m, ms)[..a + 1] + Circle(m, ms)[b + 1..] == Circle(m, ms[..a] + ms[b..])
    ensures Circle(m, ms)[a + 1..b + 1] == ms[a..b]
  {
    var dm := Circle(m, ms);
    assert dm == [m] + ms;
    assert dm[..a + 1] == [m] + ms[..a];
    assert dm[b + 1..] == ms[b..];
    assert dm[a + 1..b + 1] == ms[a..b];
  }

  /** Cutting `dm[i..j]` out of a circle of list `m` and giving those nodes
      to `l` leaves the rest owned by `m` and without repeats. */
  lemma CutOwned(owner: seq<int>, dm: seq<int>, m: int, l: int, i: nat, j: nat)
    requires Owned(owner, dm, m) && Distinct(dm) && i <= j <= |dm|
    ensures Owned(Reown(owner, dm[i..j], l), dm[..i] + dm[j..], m) && Distinct(dm[..i] + dm[j..])
  {
    var r := dm[i..j];
    var owner' := Reown(owner, r, l);
    assert dm[0..i] == dm[..i] && dm[j..|dm|] == dm[j..];
    OwnedSlice(owner, dm, m, 0, i);
    OwnedSlice(owner, dm, m, j, |dm|);
    DistinctRanges(dm, 0, i, i, j);
    DistinctRanges(dm, j, |dm|, i, j);
    DistinctRanges(dm, 0, i, j, |dm|);
    ReownOwned(owner, r, l, dm[..i], m);
    ReownOwned(owner, r, l, dm[j..], m);
    OwnedConcat(owner', dm[..i], dm[j..], m);
    DistinctJoin(dm[..i], dm[j..]);
  }

  /** In the across case the six nodes `transfer` touches are pairwise
      distinct where it matters, so its writes do the intended relinking. */
  lemma AcrossRelinked(h: Links, owner: seq<int>, l: int, ls: seq<int>, p: nat,
                       m: int, ms: seq<int>, a: nat, b: nat)
    requires ListOk(h, owner, l, ls) && ListOk(h, owner, m, ms) && l != m
    requires p <= |ls| && a < b <= |ms|
    ensures var pos, first, last := Position(l, ls, p), Position(m, ms, a), Position(m, ms, b);
      && Relinked(h, TransferLinks(h, pos, first, last), pos, first, last)
      && owner[pos] == l && owner[h.prv[pos]] == l
      && owner[first] == m && owner[h.prv[first]] == m && owner[last] == m && owner[h.prv[last]] == m
  {
    var pos, first, last := Position(l, ls, p), Position(m, ms, a), Position(m, ms, b);
    var dl, dm := Circle(l, ls), Circle(m, ms);
    var cl, cm := dl + [l], dm + [m];
    CircleOwned(h, owner, l, ls);
    CircleOwned(h, owner, m, ms);
    assert pos == cl[p + 1] && h.prv[pos] == cl[p] == dl[p];
    assert pos == dl[CircleIndex(ls, p)];
    assert first == cm[a + 1] == dm[a + 1] && h.prv[first] == cm[a] == dm[a];
    assert last == cm[b + 1] && h.prv[last] == cm[b] == dm[b];
    assert last == dm[CircleIndex(ms, b)];
    TransferLinksEffect(h, pos, first, last);
  }

  /** Moving `[first, last)` of list `m` before `pos` of another list `l`
      (list.h:243-253): `l` gains the range at `pos`'s place, `m` loses it,
      order kept, and only nodes of `l` and `m` have new links. */
  lemma TransferAcross(h: Links, owner: seq<int>, l: int, ls: seq<int>, p: nat,
                       m: int, ms: seq<int>, a: nat, b: nat)
    requires ListOk(h, owner, l, ls) && ListOk(h, owner, m, ms) && l != m
    requires p <= |ls| && a < b <= |ms|
    ensures var pos, first, last := Position(l, ls, p), Position(m, ms, a), Position(m, ms, b);
      var h' := TransferLinks(h, pos, first, last);
      var owner' := Reown(owner, ms[a..b], l);
      && ListOk(h', owner', l, ls[..p] + ms[a..b] + ls[p..])
      && ListOk(h', owner', m, ms[..a] + ms[b..])
      && (forall n | 0 <= n < |h.nxt| && owner[n] != l && owner[n] != m ::
            h'.nxt[n] == h.nxt[n] && h'.prv[n] == h.prv[n] && owner'[n] == owner[n])
  {
    var pos, first, last := Position(l, ls, p), Position(m, ms, a), Position(m, ms, b);
    var h' := TransferLinks(h, pos, first, last);
    var owner' := Reown(owner, ms[a..b], l);
    AcrossRelinked(h, owner, l, ls, p, m, ms, a, b);
    TargetRelinked(h, h', owner, l, ls, p, m, ms, a, b);
    SourceRelinked(h, h', owner, m, ms, a, b, pos);
    CircleOwned(h, owner, l, ls);
    CircleOwned(h, owner, m, ms);
    TargetOwnership(owner, l, ls, p, m, ms, a, b);
    SourceOwnership(owner, l, m, ms, a, b);
    ListOkIntro(h', owner', l, ls[..p] + ms[a..b] + ls[p..]);
    ListOkIntro(h', owner', m, ms[..a] + ms[b..]);
    forall n | 0 <= n < |h.nxt| && owner[n] != l && owner[n] != m
      ensures h'.nxt[n] == h.nxt[n] && h'.prv[n] == h.prv[n] && owner'[n] == owner[n]
    {
      assert n !in ms[a..b] by {
        forall k | 0 <= k < b - a ensures ms[a..b][k] != n {
          assert ms[a..b][k] == Circle(m, ms)[a + k + 1];
        }
      }
    }
  }

  // Moving a range within one list

  /** `ns` with the adjacent pieces `ns[i..j]` and `ns[j..k]` swapped. */
  function Swapped(ns: seq<int>, i: nat, j: nat, k: nat): (r: seq<int>)
    requires i <= j <= k <= |ns|
    ensures |r| == |ns|
  {
    ns[..i] + ns[j..k] + ns[i..j] + ns[k..]
  }

  /** `ls` after `transfer` moves `ls[a..b]` before position `p` of the
      same list: to the front of `ls[p..a]` when `p < a`, behind `ls[b..p]`
      when `p > b`; moving it before `last` (`p == b`) changes nothing. */
  function Moved(ls: seq<int>, p: nat, a: nat, b: nat): (r: seq<int>)
    requires a <= b <= |ls| && p <= |ls| && !(a <= p < b)
    ensures |r| == |ls|
  {
    if p < a then Swapped(ls, p, a, b)
    else if p > b then Swapped(ls, a, b, p)
    else ls
  }

  /** Moving an empty range changes nothing. */
  lemma MovedNothing(ls: seq<int>, p: nat, a: nat)
    requires a <= |ls| && p <= |ls|
    ensures Moved(ls, p, a, a) == ls
  {
    if p < a {
      assert ls[..p] + ls[a..a] + ls[p..a] + ls[a..] == ls[..p] + ls[p..a] + ls[a..] == ls;
    } else if p > a {
      assert ls[..a] + ls[a..p] + ls[a..a] + ls[p..] == ls[..a] + ls[a..p] + ls[p..] == ls;
    }
  }

  lemma SwappedCircle(l: int, ls: seq<int>, i: nat, j: nat, k: nat)
    requires 1 <= i <= j <= k <= |ls| + 1
    ensures var cl := Circle(l, ls) + [l];
      cl[..i] + cl[j..k] + cl[i..j] + cl[k..] == Circle(l, Swapped(ls, i - 1, j - 1, k - 1)) + [l]
    ensures var dl := Circle(l, ls);
      dl[..i] + dl[j..k] + dl[i..j] + dl[k..] == Circle(l, Swapped(ls, i - 1, j - 1, k - 1))
  {
    var dl := Circle(l, ls);
    var cl := dl + [l];
    var sw := Swapped(ls, i - 1, j - 1, k - 1);
    SwappedOpen(l, ls, i, j, k);
    assert cl[..i] == dl[..i] && cl[j..k] == dl[j..k] && cl[i..j] == dl[i..j];
    assert cl[k..] == dl[k..] + [l];
    calc {
      cl[..i] + cl[j..k] + cl[i..j] + cl[k..];
      dl[..i] + dl[j..k] + dl[i..j] + (dl[k..] + [l]);
      (dl[..i] + dl[j..k] + dl[i..j] + dl[k..]) + [l];
      Circle(l, sw) + [l];
    }
  }

  /** The open circle's version of `SwappedCircle`. */
  lemma SwappedOpen(l: int, ls: seq<int>, i: nat, j: nat, k: nat)
    requires 1 <= i <= j <= k <= |ls| + 1
    ensures var dl := Circle(l, ls);
      dl[..i] + dl[j..k] + dl[i..j] + dl[k..] == Circle(l, Swapped(ls, i - 1, j - 1, k - 1))
  {
    var dl := Circle(l, ls);
    assert dl == [l] + ls;
    assert dl[..i] == [l] + ls[..i - 1];
    assert dl[j..k] == ls[j - 1..k - 1];
    assert dl[i..j] == ls[i - 1..j - 1];
    assert dl[k..] == ls[k - 1..];
    calc {
      dl[..i] + dl[j..k] + dl[i..j] + dl[k..];
      ([l] + ls[..i - 1]) + ls[j - 1..k - 1] + ls[i - 1..j - 1] + ls[k - 1..];
      [l] + (ls[..i - 1] + ls[j - 1..k - 1] + ls[i - 1..j - 1] + ls[k - 1..]);
      [l] + Swapped(ls, i - 1, j - 1, k - 1);
    }
  }

  /** One of the four pieces `[0, i)`, `[j, k)`, `[i, j)`, `[k, |ls| + 2)`
      of the circle stays linked when only the pointers at its ends
      change. */
  lemma RotatePiece(h: Links, h': Links, l: int, ls: seq<int>, i: nat, j: nat, k: nat, lo: nat, hi: nat)
    requires 1 <= i < j < k <= |ls| + 1
    requires |h'.nxt| == |h.nxt| && |h'.prv| == |h.prv|
    requires Chained(h, Circle(l, ls) + [l])
    requires var dl := Circle(l, ls);
      && (forall t | 0 <= t < |dl| :: 0 <= dl[t] < |h.nxt| && dl[t] < |h.prv|)
      && (forall t | 0 <= t < |dl| && t != i - 1 && t != j - 1 && t != k - 1 :: h'.nxt[dl[t]] == h.nxt[dl[t]])
      && (forall t | 0 <= t < |dl| && t != i && t != j && t != (if k == |dl| then 0 else k) ::
            h'.prv[dl[t]] == h.prv[dl[t]])
    requires (lo, hi) in {(0, i), (j, k), (i, j), (k, |Circle(l, ls) + [l]|)}
    ensures Chained(h', (Circle(l, ls) + [l])[lo..hi])
  {
    var dl := Circle(l, ls);
    var yk := if k == |dl| then 0 else k;
    assert dl + [dl[0]] == Circle(l, ls) + [l];
    KeepSegment(h, h', dl, lo, hi, i - 1, j - 1, k - 1, i, j, yk);
  }

  /** The cycle with pieces `[i, j)` and `[j, k)` swapped is linked, given
      which pointers survive and the three new joints. */
  lemma RotateChained(h: Links, h': Links, l: int, ls: seq<int>, i: nat, j: nat, k: nat)
    requires 1 <= i < j < k <= |ls| + 1
    requires |h'.nxt| == |h.nxt| && |h'.prv| == |h.prv|
    requires Chained(h, Circle(l, ls) + [l])
    requires var dl := Circle(l, ls);
      && (forall t | 0 <= t < |dl| :: 0 <= dl[t] < |h.nxt| && dl[t] < |h.prv|)
      && (forall t | 0 <= t < |dl| && t != i - 1 && t != j - 1 && t != k - 1 :: h'.nxt[dl[t]] == h.nxt[dl[t]])
      && (forall t | 0 <= t < |dl| && t != i && t != j && t != (if k == |dl| then 0 else k) ::
            h'.prv[dl[t]] == h.prv[dl[t]])
    requires var cl := Circle(l, ls) + [l];
      && h'.nxt[cl[i - 1]] == cl[j] && h'.prv[cl[j]] == cl[i - 1]
      && h'.nxt[cl[k - 1]] == cl[i] && h'.prv[cl[i]] == cl[k - 1]
      && h'.nxt[cl[j - 1]] == cl[k] && h'.prv[cl[k]] == cl[j - 1]
    ensures var cl := Circle(l, ls) + [l];
      Chained(h', cl[..i] + cl[j..k] + cl[i..j] + cl[k..])
  {
    RotatePiece(h, h', l, ls, i, j, k, 0, i);
    RotatePiece(h, h', l, ls, i, j, k, j, k);
    RotatePiece(h, h', l, ls, i, j, k, i, j);
    RotatePiece(h, h', l, ls, i, j, k, k, |Circle(l, ls) + [l]|);
    ClosedInRange(h, h', l, ls);
    RotateJoin(h', Circle(l, ls) + [l], i, j, k);
  }

  /** The closed circle lies within the store after links are rewritten
      in place. */
  lemma ClosedInRange(h: Links, h': Links, l: int, ls: seq<int>)
    requires |h'.nxt| == |h.nxt| && |h'.prv| == |h.prv|
    requires var dl := Circle(l, ls); forall t | 0 <= t < |dl| :: 0 <= dl[t] < |h.nxt| && dl[t] < |h.prv|
    ensures var cl := Circle(l, ls) + [l]; forall t | 0 <= t < |cl| :: 0 <= cl[t] < |h'.nxt| && cl[t] < |h'.prv|
  {
    var dl := Circle(l, ls);
    assert dl[0] == l;
  }

  lemma RotateJoin(h': Links, cl: seq<int>, i: nat, j: nat, k: nat)
    requires 1 <= i < j < k < |cl|
    requires Chained(h', cl[0..i]) && Chained(h', cl[j..k]) && Chained(h', cl[i..j]) && Chained(h', cl[k..|cl|])
    requires forall t | 0 <= t < |cl| :: 0 <= cl[t] < |h'.nxt| && cl[t] < |h'.prv|
    requires h'.nxt[cl[i - 1]] == cl[j] && h'.prv[cl[j]] == cl[i - 1]
    requires h'.nxt[cl[k - 1]] == cl[i] && h'.prv[cl[i]] == cl[k - 1]
    requires h'.nxt[cl[j - 1]] == cl[k] && h'.prv[cl[k]] == cl[j - 1]
    ensures Chained(h', cl[..i] + cl[j..k] + cl[i..j] + cl[k..])
  {
    assert cl[0..i] == cl[..i] && cl[k..|cl|] == cl[k..];
    assert cl[..i][i - 1] == cl[i - 1] && cl[j..k][0] == cl[j];
    ChainConcat(h', cl[..i], cl[j..k]);
    var left := cl[..i] + cl[j..k];
    assert left[|left| - 1] == cl[k - 1] && cl[i..j][0] == cl[i];
    ChainConcat(h', left, cl[i..j]);
    assert (left + cl[i..j])[|left + cl[i..j]| - 1] == cl[j - 1] && cl[k..][0] == cl[k];
    ChainConcat(h', left + cl[i..j], cl[k..]);
  }

  /** Which pointers of the circle survive when only the nodes at circle
      indices `i - 1`, `j - 1`, `k - 1` get new `next` pointers and those at
      `i`, `j`, `k` new `prev` pointers. */
  lemma WithinFrames(h: Links, h': Links, owner: seq<int>, l: int, ls: seq<int>, i: nat, j: nat, k: nat)
    requires ListOk(h, owner, l, ls) && 1 <= i < j < k <= |ls| + 1
    requires |h'.nxt| == |h.nxt| && |h'.prv| == |h.prv|
    requires var cl := Circle(l, ls) + [l];
      && (forall n | 0 <= n < |h.nxt| && n != cl[i - 1] && n != cl[j - 1] && n != cl[k - 1] ::
            h'.nxt[n] == h.nxt[n])
      && (forall n | 0 <= n < |h.nxt| && n != cl[i] && n != cl[j] && n != cl[k] :: h'.prv[n] == h.prv[n])
    ensures var dl := Circle(l, ls);
      && (forall t | 0 <= t < |dl| :: 0 <= dl[t] < |h.nxt| && dl[t] < |h.prv|)
      && (forall t | 0 <= t < |dl| && t != i - 1 && t != j - 1 && t != k - 1 :: h'.nxt[dl[t]] == h.nxt[dl[t]])
      && (forall t | 0 <= t < |dl| && t != i && t != j && t != (if k == |dl| then 0 else k) ::
            h'.prv[dl[t]] == h.prv[dl[t]])
  {
    var dl := Circle(l, ls);
    var cl := dl + [l];
    CircleInRange(h, owner, l, ls);
    var yk := if k == |dl| then 0 else k;
    assert cl[i - 1] == dl[i - 1] && cl[j - 1] == dl[j - 1] && cl[k - 1] == dl[k - 1];
    assert cl[i] == dl[i] && cl[j] == dl[j] && cl[k] == dl[yk];
    forall t | 0 <= t < |dl| && t != i - 1 && t != j - 1 && t != k - 1
      ensures h'.nxt[dl[t]] == h.nxt[dl[t]]
    {
      assert dl[t] != dl[i - 1] && dl[t] != dl[j - 1] && dl[t] != dl[k - 1];
    }
    forall t | 0 <= t < |dl| && t != i && t != j && t != yk
      ensures h'.prv[dl[t]] == h.prv[dl[t]]
    {
      assert dl[t] != dl[i] && dl[t] != dl[j] && dl[t] != dl[yk];
    }
  }

  /** The nodes of the list after the swap are its old nodes: distinct and
      owned by it. */
  lemma SwappedOwnership(h: Links, owner: seq<int>, l: int, ls: seq<int>, i: nat, j: nat, k: nat)
    requires ListOk(h, owner, l, ls) && 1 <= i <= j <= k <= |ls| + 1
    ensures var c := Circle(l, Swapped(ls, i - 1, j - 1, k - 1));
      Owned(owner, c, l) && Distinct(c)
  {
    var dl := Circle(l, ls);
    CircleOwned(h, owner, l, ls);
    DistinctSwapMiddle(dl, i, j, k);
    assert dl[0..i] == dl[..i] && dl[k..|dl|] == dl[k..];
    OwnedSlice(owner, dl, l, 0, i);
    OwnedSlice(owner, dl, l, j, k);
    OwnedSlice(owner, dl, l, i, j);
    OwnedSlice(owner, dl, l, k, |dl|);
    OwnedConcat(owner, dl[..i], dl[j..k], l);
    OwnedConcat(owner, dl[..i] + dl[j..k], dl[i..j], l);
    OwnedConcat(owner, dl[..i] + dl[j..k] + dl[i..j], dl[k..], l);
    SwappedCircle(l, ls, i, j, k);
  }

  /** Moving `ls[a..b]` before position `p` of the same list `l`
      (list.h:243-253) gives `Moved(ls, p, a, b)`, and no node of another
      list changes. */
  lemma TransferWithin(h: Links, owner: seq<int>, l: int, ls: seq<int>, p: nat, a: nat, b: nat)
    requires ListOk(h, owner, l, ls)
    requires p <= |ls| && a < b <= |ls| && !(a <= p < b)
    ensures var pos, first, last := Position(l, ls, p), Position(l, ls, a), Position(l, ls, b);
      var h' := TransferLinks(h, pos, first, last);
      && ListOk(h', owner, l, Moved(ls, p, a, b))
      && (forall n | 0 <= n < |h.nxt| && owner[n] != l :: h'.nxt[n] == h.nxt[n] && h'.prv[n] == h.prv[n])
  {
    var pos, first, last := Position(l, ls, p), Position(l, ls, a), Position(l, ls, b);
    if p == b {
      assert Moved(ls, p, a, b) == ls;
    } else {
      var i, j, k := if p < a then p + 1 else a + 1, if p < a then a + 1 else b + 1, if p < a then b + 1 else p + 1;
      WithinSteps(h, owner, l, ls, p, a, b, i, j, k);
    }
  }

  lemma WithinSteps(h: Links, owner: seq<int>, l: int, ls: seq<int>, p: nat, a: nat, b: nat,
                    i: nat, j: nat, k: nat)
    requires ListOk(h, owner, l, ls)
    requires p <= |ls| && a < b <= |ls| && (p < a || b < p)
    requires i == (if p < a then p + 1 else a + 1)
    requires j == (if p < a then a + 1 else b + 1)
    requires k == (if p < a then b + 1 else p + 1)
    ensures var pos, first, last := Position(l, ls, p), Position(l, ls, a), Position(l, ls, b);
      var h' := TransferLinks(h, pos, first, last);
      && ListOk(h', owner, l, Moved(ls, p, a, b))
      && (forall n | 0 <= n < |h.nxt| && owner[n] != l :: h'.nxt[n] == h.nxt[n] && h'.prv[n] == h.prv[n])
  {
    var pos, first, last := Position(l, ls, p), Position(l, ls, a), Position(l, ls, b);
    var h' := TransferLinks(h, pos, first, last);
    WithinRelinked(h, owner, l, ls, p, a, b, i, j, k);
    WithinChain(h, h', owner, l, ls, i, j, k);
    MovedSwapped(ls, p, a, b, i, j, k);
    WithinOthers(h, h', owner, l, ls, i, j, k);
  }

  lemma MovedSwapped(ls: seq<int>, p: nat, a: nat, b: nat, i: nat, j: nat, k: nat)
    requires p <= |ls| && a < b <= |ls| && (p < a || b < p)
    requires i == (if p < a then p + 1 else a + 1)
    requires j == (if p < a then a + 1 else b + 1)
    requires k == (if p < a then b + 1 else p + 1)
    ensures Moved(ls, p, a, b) == Swapped(ls, i - 1, j - 1, k - 1)
  {
    var i', j', k' := i - 1, j - 1, k - 1;
    if p < a {
      assert i' == p && j' == a && k' == b;
      assert Moved(ls, p, a, b) == Swapped(ls, i', j', k');
    } else {
      assert i' == a && j' == b && k' == p;
      assert Moved(ls, p, a, b) == Swapped(ls, i', j', k');
    }
  }

  lemma WithinChain(h: Links, h': Links, owner: seq<int>, l: int, ls: seq<int>, i: nat, j: nat, k: nat)
    requires ListOk(h, owner, l, ls) && 1 <= i < j < k <= |ls| + 1
    requires |h'.nxt| == |h.nxt| && |h'.prv| == |h.prv|
    requires var cl := Circle(l, ls) + [l];
      && (forall n | 0 <= n < |h.nxt| && n != cl[i - 1] && n != cl[j - 1] && n != cl[k - 1] ::
            h'.nxt[n] == h.nxt[n])
      && (forall n | 0 <= n < |h.nxt| && n != cl[i] && n != cl[j] && n != cl[k] :: h'.prv[n] == h.prv[n])
      && h'.nxt[cl[i - 1]] == cl[j] && h'.prv[cl[j]] == cl[i - 1]
      && h'.nxt[cl[k - 1]] == cl[i] && h'.prv[cl[i]] == cl[k - 1]
      && h'.nxt[cl[j - 1]] == cl[k] && h'.prv[cl[k]] == cl[j - 1]
    ensures ListOk(h', owner, l, Swapped(ls, i - 1, j - 1, k - 1))
  {
    WithinFrames(h, h', owner, l, ls, i, j, k);
    RotateChained(h, h', l, ls, i, j, k);
    SwappedCircle(l, ls, i, j, k);
    SwappedOwnership(h, owner, l, ls, i, j, k);
    ListOkIntro(h', owner, l, Swapped(ls, i - 1, j - 1, k - 1));
  }

  /** Nodes of other lists are not among the six `transfer` touches. */
  lemma WithinOthers(h: Links, h': Links, owner: seq<int>, l: int, ls: seq<int>, i: nat, j: nat, k: nat)
    requires ListOk(h, owner, l, ls) && 1 <= i < j < k <= |ls| + 1
    requires |h'.nxt| == |h.nxt| && |h'.prv| == |h.prv|
    requires var cl := Circle(l, ls) + [l];
      && (forall n | 0 <= n < |h.nxt| && n != cl[i - 1] && n != cl[j - 1] && n != cl[k - 1] ::
            h'.nxt[n] == h.nxt[n])
      && (forall n | 0 <= n < |h.nxt| && n != cl[i] && n != cl[j] && n != cl[k] :: h'.prv[n] == h.prv[n])
    ensures forall n | 0 <= n < |h.nxt| && owner[n] != l :: h'.nxt[n] == h.nxt[n] && h'.prv[n] == h.prv[n]
  {
    var dl := Circle(l, ls);
    var cl := dl + [l];
    CircleOwned(h, owner, l, ls);
    assert cl[i - 1] == dl[i - 1] && cl[j - 1] == dl[j - 1] && cl[k - 1] == dl[k - 1];
    assert cl[i] == dl[i] && cl[j] == dl[j];
    assert cl[k] == dl[if k == |dl| then 0 else k];
  }

  /** In the same-list case the six nodes `transfer` touches are where the
      swap needs them, and the writes do not interfere. */
  lemma WithinRelinked(h: Links, owner: seq<int>, l: int, ls: seq<int>, p: nat, a: nat, b: nat,
                       i: nat, j: nat, k: nat)
    requires ListOk(h, owner, l, ls)
    requires p <= |ls| && a < b <= |ls| && (p < a || b < p)
    requires i == (if p < a then p + 1 else a + 1)
    requires j == (if p < a then a + 1 else b + 1)
    requires k == (if p < a then b + 1 else p + 1)
    ensures var pos, first, last := Position(l, ls, p), Position(l, ls, a), Position(l, ls, b);
      var h' := TransferLinks(h, pos, first, last);
      var cl := Circle(l, ls) + [l];
      && |h'.nxt| == |h.nxt| && |h'.prv| == |h.prv|
      && (forall n | 0 <= n < |h.nxt| && n != cl[i - 1] && n != cl[j - 1] && n != cl[k - 1] ::
            h'.nxt[n] == h.nxt[n])
      && (forall n | 0 <= n < |h.nxt| && n != cl[i] && n != cl[j] && n != cl[k] :: h'.prv[n] == h.prv[n])
      && h'.nxt[cl[i - 1]] == cl[j] && h'.prv[cl[j]] == cl[i - 1]
      && h'.nxt[cl[k - 1]] == cl[i] && h'.prv[cl[i]] == cl[k - 1]
      && h'.nxt[cl[j - 1]] == cl[k] && h'.prv[cl[k]] == cl[j - 1]
  {
    var pos, first, last := Position(l, ls, p), Position(l, ls, a), Position(l, ls, b);
    var dl := Circle(l, ls);
    var cl := dl + [l];
    CircleInRange(h, owner, l, ls);
    assert pos == cl[p + 1] && first == cl[a + 1] && last == cl[b + 1];
    assert h.prv[pos] == cl[p] && h.prv[first] == cl[a] && h.prv[last] == cl[b];
    assert cl[p] == dl[p] && cl[a] == dl[a] && cl[b] == dl[b];
    assert first == dl[a + 1];
    assert pos == dl[CircleIndex(ls, p)] && last == dl[CircleIndex(ls, b)];
    TransferLinksEffect(h, pos, first, last);
  }
}
