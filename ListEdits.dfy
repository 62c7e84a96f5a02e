/** Walking, inserting, erasing and clearing the nodes of `list<T>`
    (list.h:36-47, 102-138) on the links, and the invariant of a whole
    store of lists. */
module ListEdits {
  import opened ListLinks

  /** Every list of the store is well formed. */
  ghost predicate StoreOk(h: Links, owner: seq<int>, lists: map<int, seq<int>>) {
    && |h.prv| == |h.nxt| && |owner| == |h.nxt|
    && forall s {:trigger ListOk(h, owner, s, lists[s])} | s in lists :: ListOk(h, owner, s, lists[s])
  }

  /** Lists other than `s1` and `s2` stay well formed when the nodes they
      own keep their links and owner; the store may have grown. */
  lemma OthersOk(h: Links, owner: seq<int>, lists: map<int, seq<int>>, h': Links, owner': seq<int>,
                 s1: int, s2: int)
    requires StoreOk(h, owner, lists)
    requires |h'.prv| == |h'.nxt| == |owner'| >= |h.nxt|
    requires forall n | 0 <= n < |h.nxt| && owner[n] != s1 && owner[n] != s2 ::
      h'.nxt[n] == h.nxt[n] && h'.prv[n] == h.prv[n] && owner'[n] == owner[n]
    ensures forall t | t in lists && t != s1 && t != s2 :: ListOk(h', owner', t, lists[t])
  {
    forall t | t in lists && t != s1 && t != s2 ensures ListOk(h', owner', t, lists[t]) {
      ListOkFrame(h, owner, h', owner', t, lists[t]);
    }
  }

  /** The store is well formed again once list `s` is, and every other list
      kept its nodes. */
  lemma StoreUpdate(h: Links, owner: seq<int>, lists: map<int, seq<int>>, h': Links, owner': seq<int>,
                    s: int, ns: seq<int>)
    requires StoreOk(h, owner, lists)
    requires |h'.prv| == |h'.nxt| == |owner'| >= |h.nxt|
    requires forall n | 0 <= n < |h.nxt| && owner[n] != s ::
      h'.nxt[n] == h.nxt[n] && h'.prv[n] == h.prv[n] && owner'[n] == owner[n]
    requires ListOk(h', owner', s, ns)
    ensures StoreOk(h', owner', lists[s := ns])
  {
    OthersOk(h, owner, lists, h', owner', s, s);
  }

  /** The store is well formed again once lists `s` and `t` are, and every
      other list kept its nodes. */
  lemma StoreUpdate2(h: Links, owner: seq<int>, lists: map<int, seq<int>>, h': Links, owner': seq<int>,
                     s: int, ns: seq<int>, t: int, nt: seq<int>)
    requires StoreOk(h, owner, lists)
    requires |h'.prv| == |h'.nxt| == |owner'| >= |h.nxt|
    requires forall n | 0 <= n < |h.nxt| && owner[n] != s && owner[n] != t ::
      h'.nxt[n] == h.nxt[n] && h'.prv[n] == h.prv[n] && owner'[n] == owner[n]
    requires ListOk(h', owner', s, ns) && ListOk(h', owner', t, nt)
    ensures StoreOk(h', owner', lists[s := ns][t := nt])
  {
    OthersOk(h, owner, lists, h', owner', s, t);
  }

  /** A number past the end of the store is the sentinel of no list. */
  lemma FreshSentinel(h: Links, owner: seq<int>, lists: map<int, seq<int>>)
    requires StoreOk(h, owner, lists)
    ensures |h.nxt| !in lists
  {
    forall t | t in lists ensures t != |h.nxt| {
      assert ListOk(h, owner, t, lists[t]);
    }
  }

  /** Appending a node to the store (`get_node`, list.h:89) changes no list. */
  lemma GrowOk(h: Links, owner: seq<int>, lists: map<int, seq<int>>, x: int, y: int, o: int)
    requires StoreOk(h, owner, lists)
    ensures StoreOk(Links(h.nxt + [x], h.prv + [y]), owner + [o], lists)
  {
    forall t | t in lists ensures t != -1 {
      assert ListOk(h, owner, t, lists[t]);
    }
    OthersOk(h, owner, lists, Links(h.nxt + [x], h.prv + [y]), owner + [o], -1, -1);
  }

  /** A node appended to the store belongs to no list yet. */
  lemma FreshNotIn(h: Links, owner: seq<int>, s: int, ns: seq<int>)
    requires ListOk(h, owner, s, ns)
    ensures |h.nxt| !in Circle(s, ns)
  {
    CircleInRange(h, owner, s, ns);
  }

  // Iterators

  /** `++it` and `--it` (list.h:36-47): the node after position `p` is at
      position `p + 1`, the node after `end()` is `begin()`, and backwards. */
  lemma Step(h: Links, owner: seq<int>, s: int, ns: seq<int>, p: nat)
    requires ListOk(h, owner, s, ns) && p <= |ns|
    ensures 0 <= Position(s, ns, p) < |h.nxt| && owner[Position(s, ns, p)] == s
    ensures 0 <= h.nxt[Position(s, ns, p)] < |h.nxt| && 0 <= h.prv[Position(s, ns, p)] < |h.nxt|
    ensures p < |ns| ==> h.nxt[Position(s, ns, p)] == Position(s, ns, p + 1)
    ensures p == |ns| ==> h.nxt[s] == Position(s, ns, 0)
    ensures 0 < p ==> h.prv[Position(s, ns, p)] == Position(s, ns, p - 1)
    ensures h.prv[Position(s, ns, 0)] == s
  {
    var c := Circle(s, ns) + [s];
    CircleOwned(h, owner, s, ns);
    assert c[0] == s && c[|c| - 1] == s;
    assert c[p + 1] == Position(s, ns, p) && c[1] == Position(s, ns, 0);
    if p < |ns| {
      assert c[p + 2] == Position(s, ns, p + 1);
    }
    if 0 < p {
      assert c[p] == Position(s, ns, p - 1);
    }
  }

  /** Two iterators into a list are equal exactly when their positions
      are. */
  lemma PositionsDiffer(h: Links, owner: seq<int>, s: int, ns: seq<int>, p: nat, q: nat)
    requires ListOk(h, owner, s, ns) && p <= |ns| && q <= |ns|
    ensures Position(s, ns, p) == Position(s, ns, q) <==> p == q
  {
    var d := Circle(s, ns);
    assert Position(s, ns, p) == d[CircleIndex(ns, p)];
    assert Position(s, ns, q) == d[CircleIndex(ns, q)];
  }

  /** The element nodes of a list are distinct, in the store, owned by it,
      and none is its sentinel. */
  lemma ElementsDistinct(h: Links, owner: seq<int>, s: int, ns: seq<int>)
    requires ListOk(h, owner, s, ns)
    ensures Distinct(ns) && s !in ns
    ensures forall k | 0 <= k < |ns| :: 0 <= ns[k] < |h.nxt| && owner[ns[k]] == s
  {
    var c := Circle(s, ns);
    forall i, j | 0 <= i < j < |ns| ensures ns[i] != ns[j] {
      assert c[i + 1] == ns[i] && c[j + 1] == ns[j];
    }
    forall k | 0 <= k < |ns| ensures ns[k] != s {
      assert c[k + 1] == ns[k] && c[0] == s;
    }
  }

  /** `empty()` (list.h:79): the sentinel leads to itself exactly when the
      list has no elements. */
  lemma EmptyLinks(h: Links, owner: seq<int>, s: int, ns: seq<int>)
    requires ListOk(h, owner, s, ns)
    ensures 0 <= s < |h.nxt| && (h.nxt[s] == s <==> ns == [])
  {
    Step(h, owner, s, ns, |ns|);
    PositionsDiffer(h, owner, s, ns, 0, |ns|);
  }

  // Insert

  /** The circle of `s` with node `n` put in at position `p` has no node
      twice and is owned by `s`. */
  lemma InsertDistinct(owner: seq<int>, s: int, ls: seq<int>, p: nat, n: int)
    requires Owned(owner, Circle(s, ls), s) && Distinct(Circle(s, ls)) && p <= |ls|
    requires 0 <= n < |owner| && owner[n] == s && n !in Circle(s, ls)
    ensures Owned(owner, Circle(s, ls[..p] + [n] + ls[p..]), s)
    ensures Distinct(Circle(s, ls[..p] + [n] + ls[p..]))
  {
    InsertOwned(owner, s, ls, p, n);
    InsertApart(s, ls, p, n);
  }

  /** Ownership half of `InsertDistinct`. */
  lemma InsertOwned(owner: seq<int>, s: int, ls: seq<int>, p: nat, n: int)
    requires Owned(owner, Circle(s, ls), s) && p <= |ls|
    requires 0 <= n < |owner| && owner[n] == s
    ensures Owned(owner, Circle(s, ls[..p] + [n] + ls[p..]), s)
  {
    var d := Circle(s, ls);
    var e := Circle(s, ls[..p] + [n] + ls[p..]);
    assert e == d[..p + 1] + [n] + d[p + 1..];
    forall k | 0 <= k < |e| ensures 0 <= e[k] < |owner| && owner[e[k]] == s {
      if k < p + 1 { assert e[k] == d[k]; } else if k > p + 1 { assert e[k] == d[k - 1]; }
    }
  }

  /** Distinctness half of `InsertDistinct`. */
  lemma InsertApart(s: int, ls: seq<int>, p: nat, n: int)
    requires Distinct(Circle(s, ls)) && p <= |ls| && n !in Circle(s, ls)
    ensures Distinct(Circle(s, ls[..p] + [n] + ls[p..]))
  {
    var d := Circle(s, ls);
    var e := Circle(s, ls[..p] + [n] + ls[p..]);
    assert e == d[..p + 1] + [n] + d[p + 1..];
    forall i, j | 0 <= i < j < |e| ensures e[i] != e[j] {
      var i' := if i <= p then i else i - 1;
      var j' := if j <= p then j else j - 1;
      if i != p + 1 && j != p + 1 {
        assert e[i] == d[i'] && e[j] == d[j'];
      } else if i == p + 1 {
        assert e[j] == d[j'];
      } else {
        assert e[i] == d[i'];
      }
    }
  }

  /** `d` is the circle of the list whose sentinel is `s`: linked back
      round to `s`, without repeats, and within the store. */
  ghost predicate CircleAt(h: Links, s: int, d: seq<int>) {
    && |d| >= 1 && d[0] == s && Chained(h, d + [s]) && Distinct(d)
    && forall k | 0 <= k < |d| :: 0 <= d[k] < |h.nxt| && d[k] < |h.prv|
  }

  /** A piece `[i, j)` of the circle `d + [s]`, where `d[0] == s`, stays linked when only
      the `next` pointer of `d[x]` and the `prev` pointer of `d[y]` are
      rewritten, and the piece needs neither. */
  lemma KeepAround(h: Links, h': Links, s: int, d: seq<int>, i: nat, j: nat, x: nat, y: nat, u: int, v: int)
    requires CircleAt(h, s, d)
    requires x < |d| && y < |d| && i < j <= |d| + 1
    requires h'.nxt == h.nxt[d[x] := u] && h'.prv == h.prv[d[y] := v]
    requires !(i <= x < j - 1) && !(i < y < j) && (i < |d| < j ==> y != 0)
    ensures Chained(h', (d + [s])[i..j])
  {
    forall k | 0 <= k < |d| && k != x ensures h'.nxt[d[k]] == h.nxt[d[k]] {
      assert d[k] != d[x];
    }
    forall k | 0 <= k < |d| && k != y ensures h'.prv[d[k]] == h.prv[d[k]] {
      assert d[k] != d[y];
    }
    KeepSegment(h, h', d, i, j, x, x, x, y, y, y);
  }

  /** The links of `s` after `insert` (list.h:104-107) has made the
      predecessor of `pos` and `pos` itself point at the new node `n`,
      which already points at both. */
  lemma InsertChained(h: Links, h': Links, s: int, ls: seq<int>, p: nat, n: int)
    requires CircleAt(h, s, Circle(s, ls)) && p <= |ls|
    requires 0 <= n < |h.nxt| && n < |h.prv| && n !in Circle(s, ls)
    requires var cl := Circle(s, ls) + [s];
      && h.nxt[n] == cl[p + 1] && h.prv[n] == cl[p]
      && h'.nxt == h.nxt[cl[p] := n] && h'.prv == h.prv[cl[p + 1] := n]
    ensures Chained(h', Circle(s, ls[..p] + [n] + ls[p..]) + [s])
  {
    InsertAround(h, h', s, Circle(s, ls), p, n);
    InsertedPieces(h', s, ls, p, n);
  }

  /** The circle `d` stays linked once the node `n`, already pointing at
      `d[p]` and its successor, is put between them. */
  lemma InsertAround(h: Links, h': Links, s: int, d: seq<int>, p: nat, n: int)
    requires CircleAt(h, s, d)
    requires p < |d| && 0 <= n < |h.nxt| && n < |h.prv| && n !in d
    requires var c := d + [s];
      && h.nxt[n] == c[p + 1] && h.prv[n] == c[p]
      && h'.nxt == h.nxt[c[p] := n] && h'.prv == h.prv[c[p + 1] := n]
    ensures var c := d + [s]; Chained(h', c[0..p + 1] + [n] + c[p + 1..|d| + 1])
  {
    var c := d + [s];
    InsertKept(h, h', s, d, p, n, 0, p + 1);
    InsertKept(h, h', s, d, p, n, p + 1, |d| + 1);
    InsertEnds(h, h', s, d, p, n);
    JoinThrough(h', c[0..p + 1], c[p + 1..|d| + 1], n);
  }

  /** The piece `[i, j)` of the circle on one side of the new node `n`
      keeps its links. */
  lemma InsertKept(h: Links, h': Links, s: int, d: seq<int>, p: nat, n: int, i: nat, j: nat)
    requires CircleAt(h, s, d)
    requires p < |d| && 0 <= n < |h.nxt| && n < |h.prv| && n !in d
    requires var c := d + [s];
      && h.nxt[n] == c[p + 1] && h.prv[n] == c[p]
      && h'.nxt == h.nxt[c[p] := n] && h'.prv == h.prv[c[p + 1] := n]
    requires (i, j) == (0, p + 1) || (i, j) == (p + 1, |d| + 1)
    ensures Chained(h', (d + [s])[i..j])
  {
    var c := d + [s];
    var y := if p + 1 == |d| then 0 else p + 1;
    assert c[p + 1] == d[y] && c[p] == d[p];
    KeepAround(h, h', s, d, i, j, p, y, n, n);
  }

  /** The ends of the two pieces and the new node `n` point at each
      other. */
  lemma InsertEnds(h: Links, h': Links, s: int, d: seq<int>, p: nat, n: int)
    requires |d| >= 1 && d[0] == s
    requires forall k | 0 <= k < |d| :: 0 <= d[k] < |h.nxt| && d[k] < |h.prv|
    requires |h'.nxt| == |h.nxt| && |h'.prv| == |h.prv|
    requires p < |d| && 0 <= n < |h.nxt| && n < |h.prv| && n !in d
    requires var c := d + [s];
      && h.nxt[n] == c[p + 1] && h.prv[n] == c[p]
      && h'.nxt == h.nxt[c[p] := n] && h'.prv == h.prv[c[p + 1] := n]
    ensures var c := d + [s]; var left, right := c[0..p + 1], c[p + 1..|d| + 1];
      && |left| >= 1 && |right| >= 1
      && 0 <= left[|left| - 1] < |h'.nxt| && 0 <= right[0] < |h'.prv|
      && 0 <= n < |h'.nxt| && n < |h'.prv|
      && h'.nxt[left[|left| - 1]] == n && h'.prv[n] == left[|left| - 1]
      && h'.nxt[n] == right[0] && h'.prv[right[0]] == n
  {
    var c := d + [s];
    var y := if p + 1 == |d| then 0 else p + 1;
    assert c[p + 1] == d[y] && c[p] == d[p];
    assert n != d[p] && n != d[y];
    var left, right := c[0..p + 1], c[p + 1..|d| + 1];
    assert left[|left| - 1] == c[p] && right[0] == c[p + 1];
  }

  /** `left` and `right` are linked, and the node `n` is linked between
      them. */
  ghost predicate JoinsThrough(h: Links, left: seq<int>, right: seq<int>, n: int) {
    && |left| >= 1 && |right| >= 1 && Chained(h, left) && Chained(h, right)
    && 0 <= left[|left| - 1] < |h.nxt| && 0 <= right[0] < |h.prv|
    && 0 <= n < |h.nxt| && n < |h.prv|
    && h.nxt[left[|left| - 1]] == n && h.prv[n] == left[|left| - 1]
    && h.nxt[n] == right[0] && h.prv[right[0]] == n
  }

  lemma JoinThrough(h: Links, left: seq<int>, right: seq<int>, n: int)
    requires JoinsThrough(h, left, right, n)
    ensures Chained(h, left + [n] + right)
  {
    ChainConcat(h, left, [n]);
    ChainConcat(h, left + [n], right);
  }

  /** The pieces joined by `InsertAround` form the circle of the list
      with `n` inserted at position `p`. */
  lemma InsertedPieces(h: Links, s: int, ls: seq<int>, p: nat, n: int)
    requires p <= |ls|
    requires Chained(h, (Circle(s, ls) + [s])[0..p + 1] + [n] + (Circle(s, ls) + [s])[p + 1..|Circle(s, ls)| + 1])
    ensures Chained(h, Circle(s, ls[..p] + [n] + ls[p..]) + [s])
  {
    var c := Circle(s, ls) + [s];
    assert c[0..p + 1] == [s] + ls[..p];
    assert c[p + 1..|ls| + 2] == ls[p..] + [s];
    assert c[0..p + 1] + [n] + c[p + 1..|ls| + 2] == Circle(s, ls[..p] + [n] + ls[p..]) + [s];
  }

  /** `insert(pos, x)` (list.h:102-109) with the new node `n` already
      pointing at `pos` and its predecessor: the list gains `n` at position
      `p`. The two nodes written belong to `s`. */
  lemma InsertLinks(h: Links, owner: seq<int>, s: int, ls: seq<int>, p: nat, n: int)
    requires ListOk(h, owner, s, ls) && p <= |ls|
    requires 0 <= n < |h.nxt| && owner[n] == s && n !in Circle(s, ls)
    requires h.nxt[n] == Position(s, ls, p) && h.prv[n] == h.prv[Position(s, ls, p)]
    ensures var pos := Position(s, ls, p);
      && 0 <= pos < |h.prv| && 0 <= h.prv[pos] < |h.nxt|
      && owner[pos] == s && owner[h.prv[pos]] == s
      && ListOk(Links(h.nxt[h.prv[pos] := n], h.prv[pos := n]), owner, s, ls[..p] + [n] + ls[p..])
  {
    var pos := Position(s, ls, p);
    var cl := Circle(s, ls) + [s];
    CircleOwned(h, owner, s, ls);
    Step(h, owner, s, ls, p);
    assert cl[p + 1] == pos && h.prv[pos] == cl[p];
    assert cl[p] == Circle(s, ls)[p];
    var h' := Links(h.nxt[h.prv[pos] := n], h.prv[pos := n]);
    assert n != cl[p] && n != cl[p + 1] by { assert cl[p] == Circle(s, ls)[p]; }
    CircleInRange(h, owner, s, ls);
    InsertChained(h, h', s, ls, p, n);
    InsertDistinct(owner, s, ls, p, n);
    ListOkIntro(h', owner, s, ls[..p] + [n] + ls[p..]);
  }

  // Erase

  /** The circle of `s` without the element at position `p` has no node
      twice and is owned by `s`, even once that element is given back. */
  lemma EraseDistinct(owner: seq<int>, s: int, ls: seq<int>, p: nat)
    requires Owned(owner, Circle(s, ls), s) && Distinct(Circle(s, ls)) && p < |ls|
    ensures Owned(owner[ls[p] := -1], Circle(s, ls[..p] + ls[p + 1..]), s)
    ensures Distinct(Circle(s, ls[..p] + ls[p + 1..]))
  {
    EraseOwned(owner, s, ls, p);
    EraseApart(s, ls, p);
  }

  /** The circle after erasing position `p` skips entry `p + 1` of the old
      one. */
  lemma ErasedEntries(s: int, ls: seq<int>, p: nat)
    requires p < |ls|
    ensures ls[p] == Circle(s, ls)[p + 1]
    ensures var d, e := Circle(s, ls), Circle(s, ls[..p] + ls[p + 1..]);
      |e| + 1 == |d| && forall k | 0 <= k < |e| :: e[k] == d[if k <= p then k else k + 1]
  {
    var d := Circle(s, ls);
    var e := Circle(s, ls[..p] + ls[p + 1..]);
    assert e == d[..p + 1] + d[p + 2..];
  }

  /** Ownership half of `EraseDistinct`. */
  lemma EraseOwned(owner: seq<int>, s: int, ls: seq<int>, p: nat)
    requires Owned(owner, Circle(s, ls), s) && Distinct(Circle(s, ls)) && p < |ls|
    ensures Owned(owner[ls[p] := -1], Circle(s, ls[..p] + ls[p + 1..]), s)
  {
    var d := Circle(s, ls);
    var e := Circle(s, ls[..p] + ls[p + 1..]);
    ErasedEntries(s, ls, p);
    forall k | 0 <= k < |e| ensures 0 <= e[k] < |owner| && owner[ls[p] := -1][e[k]] == s {
      var k' := if k <= p then k else k + 1;
      assert e[k] == d[k'] && d[k'] != d[p + 1];
    }
  }

  /** Distinctness half of `EraseDistinct`. */
  lemma EraseApart(s: int, ls: seq<int>, p: nat)
    requires Distinct(Circle(s, ls)) && p < |ls|
    ensures Distinct(Circle(s, ls[..p] + ls[p + 1..]))
  {
    var d := Circle(s, ls);
    var e := Circle(s, ls[..p] + ls[p + 1..]);
    ErasedEntries(s, ls, p);
    forall i, j | 0 <= i < j < |e| ensures e[i] != e[j] {
      assert e[i] == d[if i <= p then i else i + 1] && e[j] == d[if j <= p then j else j + 1];
    }
  }

  /** The links of `s` after `erase` (list.h:115-118) has made the
      neighbours of the element at position `p` point at each other. */
  lemma EraseChained(h: Links, h': Links, s: int, ls: seq<int>, p: nat)
    requires CircleAt(h, s, Circle(s, ls)) && p < |ls|
    requires var cl := Circle(s, ls) + [s];
      && h'.nxt == h.nxt[cl[p] := cl[p + 2]] && h'.prv == h.prv[cl[p + 2] := cl[p]]
    ensures Chained(h', Circle(s, ls[..p] + ls[p + 1..]) + [s])
  {
    EraseAround(h, h', s, Circle(s, ls), p);
    ErasedPieces(h', s, ls, p);
  }

  /** The circle `d` stays linked once `d[p]` and the node after
      `d[p + 1]` point at each other. */
  lemma EraseAround(h: Links, h': Links, s: int, d: seq<int>, p: nat)
    requires CircleAt(h, s, d)
    requires p + 1 < |d|
    requires var c := d + [s];
      h'.nxt == h.nxt[c[p] := c[p + 2]] && h'.prv == h.prv[c[p + 2] := c[p]]
    ensures var c := d + [s]; Chained(h', c[0..p + 1] + c[p + 2..|d| + 1])
  {
    var c := d + [s];
    EraseKept(h, h', s, d, p, 0, p + 1);
    EraseKept(h, h', s, d, p, p + 2, |d| + 1);
    EraseEnds(h, h', s, d, p);
    ChainConcat(h', c[0..p + 1], c[p + 2..|d| + 1]);
  }

  /** The piece `[i, j)` of the circle on one side of the erased node
      keeps its links. */
  lemma EraseKept(h: Links, h': Links, s: int, d: seq<int>, p: nat, i: nat, j: nat)
    requires CircleAt(h, s, d)
    requires p + 1 < |d|
    requires var c := d + [s];
      h'.nxt == h.nxt[c[p] := c[p + 2]] && h'.prv == h.prv[c[p + 2] := c[p]]
    requires (i, j) == (0, p + 1) || (i, j) == (p + 2, |d| + 1)
    ensures Chained(h', (d + [s])[i..j])
  {
    var c := d + [s];
    var y := if p + 2 == |d| then 0 else p + 2;
    assert c[p + 2] == d[y] && c[p] == d[p];
    KeepAround(h, h', s, d, i, j, p, y, c[p + 2], c[p]);
  }

  /** The ends of the two pieces around the erased node point at each
      other. */
  lemma EraseEnds(h: Links, h': Links, s: int, d: seq<int>, p: nat)
    requires |d| >= 1 && d[0] == s
    requires forall k | 0 <= k < |d| :: 0 <= d[k] < |h.nxt| && d[k] < |h.prv|
    requires |h'.nxt| == |h.nxt| && |h'.prv| == |h.prv|
    requires p + 1 < |d|
    requires var c := d + [s];
      h'.nxt == h.nxt[c[p] := c[p + 2]] && h'.prv == h.prv[c[p + 2] := c[p]]
    ensures var c := d + [s]; var left, right := c[0..p + 1], c[p + 2..|d| + 1];
      && |left| >= 1 && |right| >= 1
      && 0 <= left[|left| - 1] < |h'.nxt| && 0 <= right[0] < |h'.prv|
      && h'.nxt[left[|left| - 1]] == right[0] && h'.prv[right[0]] == left[|left| - 1]
  {
    var c := d + [s];
    var y := if p + 2 == |d| then 0 else p + 2;
    assert c[p + 2] == d[y] && c[p] == d[p];
    var left, right := c[0..p + 1], c[p + 2..|d| + 1];
    assert left[|left| - 1] == c[p] && right[0] == c[p + 2];
  }

  /** The pieces joined by `EraseAround` form the circle of the list
      without its element at position `p`. */
  lemma ErasedPieces(h: Links, s: int, ls: seq<int>, p: nat)
    requires p < |ls|
    requires Chained(h, (Circle(s, ls) + [s])[0..p + 1] + (Circle(s, ls) + [s])[p + 2..|Circle(s, ls)| + 1])
    ensures Chained(h, Circle(s, ls[..p] + ls[p + 1..]) + [s])
  {
    var c := Circle(s, ls) + [s];
    assert c[0..p + 1] == [s] + ls[..p];
    assert c[p + 2..|ls| + 2] == ls[p + 1..] + [s];
    assert c[0..p + 1] + c[p + 2..|ls| + 2] == Circle(s, ls[..p] + ls[p + 1..]) + [s];
  }

  /** `erase(pos)` (list.h:114-121) on the element at position `p`: the
      list loses it, the node is given back (owner -1), and the returned
      iterator is the node that followed it, now at position `p`. The three
      nodes written belong to `s`. */
  lemma EraseLinks(h: Links, owner: seq<int>, s: int, ls: seq<int>, p: nat)
    requires ListOk(h, owner, s, ls) && p < |ls|
    ensures var pos := ls[p];
      && 0 <= pos < |h.nxt| && 0 <= h.prv[pos] < |h.nxt| && 0 <= h.nxt[pos] < |h.nxt|
      && owner[pos] == s && owner[h.prv[pos]] == s && owner[h.nxt[pos]] == s
      && h.nxt[pos] == Position(s, ls[..p] + ls[p + 1..], p)
      && ListOk(Links(h.nxt[h.prv[pos] := h.nxt[pos]], h.prv[h.nxt[pos] := h.prv[pos]]),
                owner[pos := -1], s, ls[..p] + ls[p + 1..])
  {
    var pos := ls[p];
    var cl := Circle(s, ls) + [s];
    var rest := ls[..p] + ls[p + 1..];
    CircleOwned(h, owner, s, ls);
    Step(h, owner, s, ls, p);
    Step(h, owner, s, ls, p + 1);
    assert cl[p + 1] == pos && cl[p + 2] == Position(s, ls, p + 1) && h.prv[pos] == cl[p];
    assert Position(s, ls, p + 1) == Position(s, rest, p) by {
      if p + 1 < |ls| { assert rest[p] == ls[p + 1]; }
    }
    var h' := Links(h.nxt[h.prv[pos] := h.nxt[pos]], h.prv[h.nxt[pos] := h.prv[pos]]);
    CircleInRange(h, owner, s, ls);
    EraseChained(h, h', s, ls, p);
    EraseDistinct(owner, s, ls, p);
    ListOkIntro(h', owner[pos := -1], s, rest);
  }

  // Clear

  /** Giving back the nodes of `ns` one by one. */
  lemma ReownSnoc(owner: seq<int>, ns: seq<int>, i: nat)
    requires i < |ns| && 0 <= ns[i] < |owner|
    ensures Reown(owner, ns[..i + 1], -1) == Reown(owner, ns[..i], -1)[ns[i] := -1]
  {
    assert ns[..i + 1] == ns[..i] + [ns[i]];
  }

  /** `clear()` (list.h:129-138): once every element node has been given
      back and the sentinel points at itself, the list is empty and no other
      node changed. */
  lemma ClearLinks(h: Links, owner: seq<int>, s: int, ls: seq<int>)
    requires ListOk(h, owner, s, ls)
    ensures var owner' := Reown(owner, ls, -1);
      && ListOk(Links(h.nxt[s := s], h.prv[s := s]), owner', s, [])
      && forall n | 0 <= n < |owner| && owner[n] != s :: owner'[n] == owner[n]
  {
    var owner' := Reown(owner, ls, -1);
    assert s !in ls by {
      forall k | 0 <= k < |ls| ensures ls[k] != s {
        assert Circle(s, ls)[k + 1] == ls[k];
      }
    }
    assert owner'[s] == s;
    forall n | 0 <= n < |owner| && owner[n] != s ensures owner'[n] == owner[n] {
      assert n !in ls;
    }
  }

  /** `transfer` on a store: cutting positions `[a, b)` out of list `t`
      and linking them in before position `p` of list `s` leaves every list
      well formed, with the moved nodes now owned by `s`. */
  lemma TransferStore(h: Links, owner: seq<int>, lists: map<int, seq<int>>, s: int, p: nat, t: int, a: nat, b: nat)
    requires StoreOk(h, owner, lists) && s in lists && t in lists
    requires p <= |lists[s]| && a < b <= |lists[t]|
    requires s == t ==> !(a <= p < b)
    ensures var pos, first, last := Position(s, lists[s], p), Position(t, lists[t], a), Position(t, lists[t], b);
      && Linkable(h, pos, first, last)
      && (s != t ==> StoreOk(TransferLinks(h, pos, first, last), Reown(owner, lists[t][a..b], s),
                             lists[s := lists[s][..p] + lists[t][a..b] + lists[s][p..]][t := lists[t][..a] + lists[t][b..]]))
      && (s == t ==> StoreOk(TransferLinks(h, pos, first, last), owner, lists[s := Moved(lists[s], p, a, b)]))
  {
    var ls, lt := lists[s], lists[t];
    var pos, first, last := Position(s, ls, p), Position(t, lt, a), Position(t, lt, b);
    Step(h, owner, s, ls, p);
    Step(h, owner, t, lt, a);
    Step(h, owner, t, lt, b);
    var h' := TransferLinks(h, pos, first, last);
    if s != t {
      TransferAcross(h, owner, s, ls, p, t, lt, a, b);
      StoreUpdate2(h, owner, lists, h', Reown(owner, lt[a..b], s), s, ls[..p] + lt[a..b] + ls[p..], t, lt[..a] + lt[b..]);
    } else {
      TransferWithin(h, owner, s, ls, p, a, b);
      StoreUpdate(h, owner, lists, h', owner, s, Moved(ls, p, a, b));
    }
  }

  /** For `splice(pos, i)`: `pos` is `i` or the node after it exactly when
      both are in the same list and `pos` is position `a` or `a + 1`. */
  lemma SpliceOneGuard(h: Links, owner: seq<int>, lists: map<int, seq<int>>, s: int, p: nat, t: int, a: nat)
    requires StoreOk(h, owner, lists) && s in lists && t in lists
    requires p <= |lists[s]| && a < |lists[t]|
    ensures var pos, i, j := Position(s, lists[s], p), lists[t][a], Position(t, lists[t], a + 1);
      && 0 <= i < |h.nxt| && h.nxt[i] == j
      && ((pos == i || pos == j) <==> (s == t && (p == a || p == a + 1)))
  {
    var ls, lt := lists[s], lists[t];
    Step(h, owner, s, ls, p);
    Step(h, owner, t, lt, a);
    Step(h, owner, t, lt, a + 1);
    if s == t {
      PositionsDiffer(h, owner, s, ls, p, a);
      PositionsDiffer(h, owner, s, ls, p, a + 1);
    }
  }

  /** Walking list `s` of a store: the node at position `p` is the
      sentinel only at `end()`, and its links lead to the positions either
      side of it around the circle. */
  lemma Walk(h: Links, owner: seq<int>, lists: map<int, seq<int>>, s: int, p: nat)
    requires StoreOk(h, owner, lists) && s in lists && p <= |lists[s]|
    ensures var ls := lists[s]; var n := Position(s, ls, p);
      && 0 <= n < |h.nxt| && (n == s <==> p == |ls|)
      && h.nxt[n] == (if p < |ls| then Position(s, ls, p + 1) else Position(s, ls, 0))
      && h.prv[n] == (if 0 < p then Position(s, ls, p - 1) else s)
  {
    var ls := lists[s];
    Step(h, owner, s, ls, p);
    PositionsDiffer(h, owner, s, ls, p, |ls|);
    if p == 0 && ls == [] {
      Step(h, owner, s, ls, 0);
    }
  }

  /** The closing step of `merge` as written (list.h:205-207): the rest of
      `x`, from `first2` to its sentinel `x`, is spliced before the sentinel
      `s` whenever `first1 != first2`. The two iterators point into different
      lists, so the guard holds even when `x` has nothing left. */
  function MergeTailAsWritten(h: Links, s: int, x: int, first1: int, first2: int): Links {
    if first1 != first2 then TransferLinks(h, s, first2, x) else h
  }

  /** Merging an empty list into an empty list as written: both loops stop
      at once, the guard holds, and `transfer(end(), x.end(), x.end())`
      makes the sentinel of `*this` point at the sentinel of `x`. Afterwards
      no sequence of elements describes `*this`. */
  lemma MergeTailAsWrittenCorrupts()
    ensures StoreOk(Links([0, 1], [0, 1]), [0, 1], map[0 := [], 1 := []])
    ensures forall ns :: !ListOk(MergeTailAsWritten(Links([0, 1], [0, 1]), 0, 1, 0, 1), [0, 1], 0, ns)
  {
    var h := Links([0, 1], [0, 1]);
    assert Circle(0, []) + [0] == [0, 0] && Circle(1, []) + [1] == [1, 1];
    assert ListOk(h, [0, 1], 0, []) && ListOk(h, [0, 1], 1, []);
    var h' := MergeTailAsWritten(h, 0, 1, 0, 1);
    assert h' == Links([1, 1], [1, 0]);
    forall ns
      ensures !ListOk(h', [0, 1], 0, ns)
    {
      var c := Circle(0, ns) + [0];
      if ns == [] {
        assert c[0] == 0 && c[1] == 0 && h'.nxt[c[0]] != c[1];
      } else if ns[0] != 1 {
        assert c[0] == 0 && c[1] == ns[0] && h'.nxt[c[0]] != c[1];
      } else {
        assert [0, 1][ns[0]] != 0;
      }
    }
  }
}
