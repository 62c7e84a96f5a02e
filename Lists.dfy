/** `list<T>` (list.h:56-270): doubly linked circular lists with a sentinel
    node, here all kept in one store of nodes so that `splice`, `merge` and
    `transfer` can move nodes from one list to another.

    A node is a number; `nxt`, `prv` and `data` hold every node's `next`,
    `prev` and value. A list is named by its sentinel (the field `node` of
    the C++ object). An iterator is the node it points at; the ghost
    position `p` beside it says which element that is, `p == |elements|`
    being `end()`. Nodes come from `get_node` as fresh numbers at the end of
    the store and are marked as given back (owner -1) by `put_node`. */
module Lists {
  import opened ListLinks
  import opened ListEdits
  import opened ListSpec

  class ListStore {
    var nxt: seq<int>
    var prv: seq<int>
    var data: seq<int>
    /** The sentinel of the list each node belongs to; -1 once given back. */
    ghost var owner: seq<int>
    /** The element nodes of each list, by sentinel, from `begin()` on. */
    ghost var lists: map<int, seq<int>>

    ghost predicate Valid()
      reads this
    {
      |data| == |nxt| && StoreOk(Links(nxt, prv), owner, lists)
    }

    /** The values list `s` holds, front to back. */
    ghost function Elements(s: int): seq<int>
      reads this
      requires s in lists
    {
      Values(data, lists[s])
    }

    constructor ()
      ensures Valid() && lists == map[] && nxt == [] && prv == [] && data == []
    {
      nxt, prv, data := [], [], [];
      owner := [];
      lists := map[];
    }

    /** `list()` and `empty_init()` (list.h:76, 237-241): a new sentinel
        that points at itself both ways is a new empty list. */
    method NewList() returns (s: int)
      requires Valid()
      modifies this
      ensures Valid()
      ensures s == old(|nxt|) && s !in old(lists) && lists == old(lists)[s := []]
      ensures nxt == old(nxt) + [s] && prv == old(prv) + [s] && data == old(data) + [0]
      ensures owner == old(owner) + [s]
    {
      s := |nxt|;
      FreshSentinel(Links(nxt, prv), owner, lists);
      GrowOk(Links(nxt, prv), owner, lists, s, s, s);
      nxt, prv, data := nxt + [s], prv + [s], data + [0];
      owner := owner + [s];
      assert ListOk(Links(nxt, prv), owner, s, []) by {
        assert Circle(s, []) + [s] == [s, s];
      }
      lists := lists[s := []];
    }

    /** `empty()` (list.h:79): the sentinel points at itself. */
    predicate Empty(s: int)
      reads this
      requires Valid() && s in lists
      ensures Empty(s) <==> lists[s] == []
    {
      EmptyLinks(Links(nxt, prv), owner, s, lists[s]);
      nxt[s] == s
    }

    /** `front()` (list.h:85): the value of `*begin()`. */
    function Front(s: int): (v: int)
      reads this
      requires Valid() && s in lists && lists[s] != []
      ensures v == Elements(s)[0]
    {
      Step(Links(nxt, prv), owner, s, lists[s], |lists[s]|);
      data[nxt[s]]
    }

    /** `back()` (list.h:86): the value of `*(--end())`. */
    function Back(s: int): (v: int)
      reads this
      requires Valid() && s in lists && lists[s] != []
      ensures v == Elements(s)[|lists[s]| - 1]
    {
      Step(Links(nxt, prv), owner, s, lists[s], |lists[s]|);
      data[prv[s]]
    }

    /** `insert(pos, x)` (list.h:102-109): a new node holding `x`, linked to
        `pos` and to the node before it, is put in before `pos`, the element
        at position `p` of list `s`; it is returned. */
    method Insert(s: int, ghost p: nat, pos: int, x: int) returns (n: int)
      requires Valid() && s in lists && p <= |lists[s]| && pos == Position(s, lists[s], p)
      modifies this
      ensures Valid()
      ensures n == old(|nxt|) && data == old(data) + [x]
      ensures lists == old(lists)[s := old(lists[s])[..p] + [n] + old(lists[s])[p..]]
    {
      ghost var ls, h0 := lists[s], Links(nxt, prv);
      Step(h0, owner, s, ls, p);
      FreshNotIn(h0, owner, s, ls);
      // create_node(x), then new_node->prev and new_node->next
      n := |nxt|;
      var before := prv[pos];
      GrowOk(h0, owner, lists, pos, before, s);
      nxt, prv, data := nxt + [pos], prv + [before], data + [x];
      owner := owner + [s];
      ghost var h1 := Links(nxt, prv);
      assert ListOk(h1, owner, s, ls);
      InsertLinks(h1, owner, s, ls, p, n);
      // pos.node->prev->next and pos.node->prev
      nxt := nxt[before := n];
      prv := prv[pos := n];
      StoreUpdate(h1, owner, lists, Links(nxt, prv), owner, s, ls[..p] + [n] + ls[p..]);
      lists := lists[s := ls[..p] + [n] + ls[p..]];
    }

    /** `push_front(x)` (list.h:111): insert before `begin()`. */
    method PushFront(s: int, x: int)
      requires Valid() && s in lists
      modifies this
      ensures Valid() && data == old(data) + [x]
      ensures lists == old(lists)[s := [old(|nxt|)] + old(lists[s])]
    {
      Step(Links(nxt, prv), owner, s, lists[s], |lists[s]|);
      ghost var ls := lists[s];
      var n := Insert(s, 0, nxt[s], x);
      assert ls[..0] + [n] + ls[0..] == [n] + ls;
    }

    /** `push_back(x)` (list.h:112): insert before `end()`. */
    method PushBack(s: int, x: int)
      requires Valid() && s in lists
      modifies this
      ensures Valid() && data == old(data) + [x]
      ensures lists == old(lists)[s := old(lists[s]) + [old(|nxt|)]]
    {
      ghost var ls := lists[s];
      var n := Insert(s, |ls|, s, x);
      assert ls[..|ls|] + [n] + ls[|ls|..] == ls + [n];
    }

    /** `erase(pos)` (list.h:114-121): the element `pos` at position `p` of
        list `s` is unlinked and its node given back; the returned iterator
        is the element that followed it, now at position `p`. */
    method Erase(s: int, ghost p: nat, pos: int) returns (next: int)
      requires Valid() && s in lists && p < |lists[s]| && pos == lists[s][p]
      modifies this
      ensures Valid() && data == old(data)
      ensures lists == old(lists)[s := old(lists[s])[..p] + old(lists[s])[p + 1..]]
      ensures next == Position(s, lists[s], p)
      ensures |owner| == old(|owner|) && 0 <= pos < |owner| && owner == old(owner)[pos := -1]
    {
      ghost var ls, h0, o0 := lists[s], Links(nxt, prv), owner;
      EraseLinks(h0, o0, s, ls, p);
      next := nxt[pos];
      var before := prv[pos];
      nxt := nxt[before := next];
      prv := prv[next := before];
      // destroy_node(pos)
      owner := owner[pos := -1];
      StoreUpdate(h0, o0, lists, Links(nxt, prv), owner, s, ls[..p] + ls[p + 1..]);
      lists := lists[s := ls[..p] + ls[p + 1..]];
    }

    /** `pop_front()` (list.h:123): erase `begin()` of a non-empty list. */
    method PopFront(s: int)
      requires Valid() && s in lists && lists[s] != []
      modifies this
      ensures Valid() && data == old(data)
      ensures lists == old(lists)[s := old(lists[s])[1..]]
    {
      ghost var ls := lists[s];
      Step(Links(nxt, prv), owner, s, ls, |ls|);
      assert ls[..0] + ls[1..] == ls[1..];
      var _ := Erase(s, 0, nxt[s]);
    }

    /** `pop_back()` (list.h:124-127): erase `--end()` of a non-empty list. */
    method PopBack(s: int)
      requires Valid() && s in lists && lists[s] != []
      modifies this
      ensures Valid() && data == old(data)
      ensures lists == old(lists)[s := old(lists[s])[..|old(lists[s])| - 1]]
    {
      ghost var ls := lists[s];
      Step(Links(nxt, prv), owner, s, ls, |ls|);
      var _ := Erase(s, |ls| - 1, prv[s]);
      assert ls[..|ls| - 1] + ls[|ls|..] == ls[..|ls| - 1];
    }

    /** `clear()` (list.h:129-138): every element node is given back while
        walking from `begin()` to the sentinel, then the sentinel is made to
        point at itself. */
    method Clear(s: int)
      requires Valid() && s in lists
      modifies this
      ensures Valid() && data == old(data)
      ensures lists == old(lists)[s := []]
      ensures |nxt| == old(|nxt|) && 0 <= s < |nxt| && nxt == old(nxt)[s := s] && prv == old(prv)[s := s]
      ensures owner == Reown(old(owner), old(lists[s]), -1)
    {
      ghost var ls, h0, o0 := lists[s], Links(nxt, prv), owner;
      Step(h0, o0, s, ls, |ls|);
      var cur := nxt[s];
      ghost var i := 0;
      while cur != s
        invariant 0 <= i <= |ls| && cur == Position(s, ls, i)
        invariant nxt == h0.nxt && prv == h0.prv && data == old(data) && lists == old(lists)
        invariant owner == Reown(o0, ls[..i], -1)
        decreases |ls| - i
      {
        PositionsDiffer(h0, o0, s, ls, i, |ls|);
        Step(h0, o0, s, ls, i);
        var temp := cur;
        cur := nxt[cur];
        // destroy_node(temp)
        ReownSnoc(o0, ls, i);
        owner := owner[temp := -1];
        i := i + 1;
      }
      PositionsDiffer(h0, o0, s, ls, i, |ls|);
      assert ls[..i] == ls;
      nxt := nxt[s := s];
      prv := prv[s := s];
      ClearLinks(h0, o0, s, ls);
      StoreUpdate(h0, o0, lists, Links(nxt, prv), owner, s, []);
      lists := lists[s := []];
    }

    /** `transfer(pos, first, last)` (list.h:243-253): the nodes from
        `first` up to `last`, positions `[a, b)` of list `t`, are cut out
        and linked in before `pos`, position `p` of list `s`, by the six
        pointer writes of the source; nothing happens when `pos == last`.
        When `s == t`, `pos` must not lie in `[first, last)`. */
    method Transfer(s: int, ghost p: nat, pos: int, t: int, ghost a: nat, ghost b: nat, first: int, last: int)
      requires Valid() && s in lists && t in lists
      requires p <= |lists[s]| && a < b <= |lists[t]|
      requires pos == Position(s, lists[s], p)
      requires first == Position(t, lists[t], a) && last == Position(t, lists[t], b)
      requires s == t ==> !(a <= p < b)
      modifies this
      ensures Valid() && data == old(data)
      ensures Links(nxt, prv) == TransferLinks(old(Links(nxt, prv)), pos, first, last)
      ensures s != t ==> lists == old(lists)[s := old(lists[s])[..p] + old(lists[t])[a..b] + old(lists[s])[p..]]
                                            [t := old(lists[t])[..a] + old(lists[t])[b..]]
      ensures s != t ==> owner == Reown(old(owner), old(lists[t])[a..b], s)
      ensures s == t ==> lists == old(lists)[s := Moved(old(lists[s]), p, a, b)] && owner == old(owner)
    {
      ghost var ls, lt, h0 := lists[s], lists[t], Links(nxt, prv);
      TransferStore(h0, owner, lists, s, p, t, a, b);
      if pos != last {
        nxt := nxt[prv[last] := pos];
        nxt := nxt[prv[first] := last];
        nxt := nxt[prv[pos] := first];
        var temp := prv[pos];
        prv := prv[pos := prv[last]];
        prv := prv[last := prv[first]];
        prv := prv[first := temp];
      }
      assert Links(nxt, prv) == TransferLinks(h0, pos, first, last);
      if s != t {
        owner := Reown(owner, lt[a..b], s);
        lists := lists[s := ls[..p] + lt[a..b] + ls[p..]][t := lt[..a] + lt[b..]];
      } else {
        lists := lists[s := Moved(ls, p, a, b)];
      }
    }

    /** `splice(pos, x)` (list.h:170-173): all of list `x`, which must be
        another list, is moved before `pos`, position `p` of list `s`. */
    method SpliceList(s: int, ghost p: nat, pos: int, x: int)
      requires Valid() && s in lists && x in lists && s != x
      requires p <= |lists[s]| && pos == Position(s, lists[s], p)
      modifies this
      ensures Valid() && data == old(data)
      ensures lists == old(lists)[s := old(lists[s])[..p] + old(lists[x]) + old(lists[s])[p..]][x := []]
    {
      ghost var ls, lx := lists[s], lists[x];
      Step(Links(nxt, prv), owner, x, lx, |lx|);
      if !Empty(x) {
        Transfer(s, p, pos, x, 0, |lx|, nxt[x], x);
        assert lx[0..|lx|] == lx && lx[..0] + lx[|lx|..] == [];
      } else {
        assert ls[..p] + lx + ls[p..] == ls;
        assert old(lists)[s := ls][x := []] == old(lists);
      }
    }

    /** `splice(pos, i)` (list.h:175-182): the element `i`, position `a`
        of list `t`, is moved before `pos`, position `p` of list `s`,
        unless `pos` is `i` or the element after it. */
    method SpliceOne(s: int, ghost p: nat, pos: int, t: int, ghost a: nat, i: int)
      requires Valid() && s in lists && t in lists
      requires p <= |lists[s]| && pos == Position(s, lists[s], p)
      requires a < |lists[t]| && i == lists[t][a]
      modifies this
      ensures Valid() && data == old(data)
      ensures s != t ==> lists == old(lists)[s := old(lists[s])[..p] + [i] + old(lists[s])[p..]]
                                            [t := old(lists[t])[..a] + old(lists[t])[a + 1..]]
      ensures s == t ==> lists == old(lists)[s := if p == a then old(lists[s]) else Moved(old(lists[s]), p, a, a + 1)]
    {
      ghost var ls, lt := lists[s], lists[t];
      SpliceOneGuard(Links(nxt, prv), owner, lists, s, p, t, a);
      var j := nxt[i];
      if pos == i || pos == j {
        return;
      }
      Transfer(s, p, pos, t, a, a + 1, i, j);
      assert lt[a..a + 1] == [i];
    }

    /** `splice(pos, first, last)` (list.h:184-189): the elements from
        `first` up to `last`, positions `[a, b)` of list `t`, are moved
        before `pos`, position `p` of list `s`; when `s == t`, `pos` must
        not lie in `[first, last)`. */
    method SpliceRange(s: int, ghost p: nat, pos: int, t: int, ghost a: nat, ghost b: nat, first: int, last: int)
      requires Valid() && s in lists && t in lists
      requires p <= |lists[s]| && a <= b <= |lists[t]|
      requires pos == Position(s, lists[s], p)
      requires first == Position(t, lists[t], a) && last == Position(t, lists[t], b)
      requires s == t ==> !(a <= p < b)
      modifies this
      ensures Valid() && data == old(data)
      ensures s != t ==> lists == old(lists)[s := old(lists[s])[..p] + old(lists[t])[a..b] + old(lists[s])[p..]]
                                            [t := old(lists[t])[..a] + old(lists[t])[b..]]
      ensures s == t ==> lists == old(lists)[s := Moved(old(lists[s]), p, a, b)]
    {
      ghost var ls, lt := lists[s], lists[t];
      PositionsDiffer(Links(nxt, prv), owner, t, lt, a, b);
      if first != last {
        Transfer(s, p, pos, t, a, b, first, last);
      } else {
        if s == t {
          MovedNothing(ls, p, a);
          assert old(lists)[s := ls] == old(lists);
        } else {
          assert ls[..p] + lt[a..b] + ls[p..] == ls && lt[..a] + lt[b..] == lt;
        }
        assert old(lists)[s := ls][t := lt] == old(lists);
      }
    }

    /** One visit of the loop of `remove` (list.h:143-149): `first`, the
        `i`-th original element, is erased when it holds `value`; `kept` is
        what is left of the first `i` elements, `base` the lists before
        `remove`. */
    method RemoveVisit(s: int, value: int, first: int, ghost base: map<int, seq<int>>,
                       ghost ls: seq<int>, ghost i: nat, ghost kept: seq<int>)
      returns (next: int, ghost kept': seq<int>)
      requires Valid() && i <= |ls| && kept == RemoveNodes(data, ls[..i], value)
      requires lists == base[s := kept + ls[i..]]
      requires first == Position(s, kept + ls[i..], |kept|) && first != s
      modifies this
      ensures Valid() && data == old(data) && i < |ls|
      ensures kept' == RemoveNodes(data, ls[..i + 1], value)
      ensures lists == base[s := kept' + ls[i + 1..]]
      ensures next == Position(s, kept' + ls[i + 1..], |kept'|)
    {
      Walk(Links(nxt, prv), owner, lists, s, |kept|);
      RemoveStep(data, s, ls, i, kept, value);
      assert first == ls[i] && data[first] == Value(data, ls[i]);
      next := nxt[first];
      if data[first] == value {
        ghost var l, before := kept + ls[i..], lists;
        var _ := Erase(s, |kept|, first);
        Erased(base, before, lists, s, l, |kept|, kept + ls[i + 1..]);
        kept' := kept;
      } else {
        kept' := kept + [ls[i]];
      }
    }

    /** `remove(value)` (list.h:140-151): walking from `begin()`, every
        element holding `value` is erased; the rest keep their order. */
    method Remove(s: int, value: int)
      requires Valid() && s in lists
      modifies this
      ensures Valid() && data == old(data)
      ensures lists == old(lists)[s := RemoveNodes(data, old(lists[s]), value)]
    {
      ghost var ls := lists[s];
      Walk(Links(nxt, prv), owner, lists, s, |ls|);
      var first := nxt[s];
      var last := s;
      ghost var i: nat, kept: seq<int> := 0, [];
      Unwalked(lists, s);
      while first != last
        invariant Valid() && i <= |ls| && data == old(data)
        invariant kept == RemoveNodes(data, ls[..i], value)
        invariant lists == old(lists)[s := kept + ls[i..]]
        invariant first == Position(s, kept + ls[i..], |kept|)
        decreases |ls| - i
      {
        first, kept := RemoveVisit(s, value, first, old(lists), ls, i, kept);
        i := i + 1;
      }
      Walk(Links(nxt, prv), owner, lists, s, |kept|);
      assert ls[..i] == ls && kept + ls[i..] == kept;
    }

    /** One visit of the loop of `unique` (list.h:158-166): `next`, the
        `j`-th original element, is erased when its value equals that of
        `first`, the last element kept; otherwise it becomes `first`.
        `kept` is what is left of the first `j` elements, `base` the lists
        before `unique`. */
    method UniqueVisit(s: int, first: int, next: int, ghost base: map<int, seq<int>>,
                       ghost ls: seq<int>, ghost j: nat, ghost kept: seq<int>)
      returns (first': int, next': int, ghost kept': seq<int>)
      requires Valid() && 1 <= j <= |ls| && kept == UniqueNodes(data, ls[..j]) && |kept| > 0
      requires lists == base[s := kept + ls[j..]]
      requires first == kept[|kept| - 1] && next == Position(s, kept + ls[j..], |kept|) && next != s
      modifies this
      ensures Valid() && data == old(data) && j < |ls|
      ensures kept' == UniqueNodes(data, ls[..j + 1]) && |kept'| > 0
      ensures lists == base[s := kept' + ls[j + 1..]]
      ensures first' == kept'[|kept'| - 1] && next' == Position(s, kept' + ls[j + 1..], |kept'|)
    {
      assert lists[s] == kept + ls[j..] && lists[s][|kept| - 1] == first;
      LastKeptLinks(Links(nxt, prv), owner, lists, s, |kept|);
      UniqueStep(data, s, ls, j, kept);
      assert data[first] == Value(data, kept[|kept| - 1]) && data[next] == Value(data, ls[j]);
      if data[first] == data[next] {
        ghost var l, before := kept + ls[j..], lists;
        var _ := Erase(s, |kept|, next);
        Erased(base, before, lists, s, l, |kept|, kept + ls[j + 1..]);
        first', kept' := first, kept;
      } else {
        first', kept' := next, kept + [ls[j]];
      }
      assert lists[s] == kept' + ls[j + 1..] && lists[s][|kept'| - 1] == first';
      LastKeptLinks(Links(nxt, prv), owner, lists, s, |kept'|);
      // `next = first`, then `++next` of the loop head
      next' := nxt[first'];
    }

    /** `unique()` (list.h:153-168): of every run of consecutive equal
        values only the first element stays; `first` is the last element
        kept and `next` the one compared with it. */
    method Unique(s: int)
      requires Valid() && s in lists
      modifies this
      ensures Valid() && data == old(data)
      ensures lists == old(lists)[s := UniqueNodes(data, old(lists[s]))]
    {
      ghost var ls := lists[s];
      Walk(Links(nxt, prv), owner, lists, s, |ls|);
      Walk(Links(nxt, prv), owner, lists, s, 0);
      var first := nxt[s];
      var last := s;
      if first == last {
        assert UniqueNodes(data, ls) == ls;
        return;
      }
      UniqueStart(data, lists, s);
      // `++next` of the loop head
      var next := nxt[first];
      ghost var j: nat, kept: seq<int> := 1, [ls[0]];
      while next != last
        invariant Valid() && 1 <= j <= |ls| && data == old(data)
        invariant kept == UniqueNodes(data, ls[..j]) && |kept| > 0
        invariant lists == old(lists)[s := kept + ls[j..]]
        invariant first == kept[|kept| - 1] && next == Position(s, kept + ls[j..], |kept|)
        decreases |ls| - j
      {
        first, next, kept := UniqueVisit(s, first, next, old(lists), ls, j, kept);
        j := j + 1;
      }
      Walk(Links(nxt, prv), owner, lists, s, |kept|);
      assert ls[..j] == ls && kept + ls[j..] == kept;
    }

    /** One turn of the loop of `merge` (list.h:197-203), both lists being
        unfinished: the head of `x` is moved in front of `first1` when its
        value is smaller, otherwise `first1` moves on. `q` is the merged
        prefix of `s` before `first1`, `base` the lists before `merge`. */
    method MergeTurn(s: int, x: int, first1: int, first2: int, ghost base: map<int, seq<int>>,
                     ghost ls: seq<int>, ghost lx: seq<int>, ghost q: seq<int>, ghost i: nat, ghost j: nat)
      returns (first1': int, first2': int, ghost q': seq<int>, ghost i': nat, ghost j': nat)
      requires Valid() && s != x && i <= |ls| && j <= |lx|
      requires q + MergeNodes(data, ls[i..], lx[j..]) == MergeNodes(data, ls, lx)
      requires lists == base[s := q + ls[i..]][x := lx[j..]]
      requires first1 == Position(s, q + ls[i..], |q|) && first2 == Position(x, lx[j..], 0)
      requires first1 != s && first2 != x
      modifies this
      ensures Valid() && data == old(data)
      ensures (i', j') == (i + 1, j) || (i', j') == (i, j + 1)
      ensures i' <= |ls| && j' <= |lx|
      ensures q' + MergeNodes(data, ls[i'..], lx[j'..]) == MergeNodes(data, ls, lx)
      ensures lists == base[s := q' + ls[i'..]][x := lx[j'..]]
      ensures first1' == Position(s, q' + ls[i'..], |q'|) && first2' == Position(x, lx[j'..], 0)
    {
      Walk(Links(nxt, prv), owner, lists, s, |q|);
      Walk(Links(nxt, prv), owner, lists, x, 0);
      MergeStep(data, ls, lx, q, i, j);
      MergeLists(s, x, ls, lx, q, i, j);
      assert data[first1] == Value(data, ls[i]) && data[first2] == Value(data, lx[j]);
      if data[first2] < data[first1] {
        var next := nxt[first2];
        Transfer(s, |q|, first1, x, 0, 1, first2, next);
        first1', first2' := first1, next;
        q', i', j' := q + [lx[j]], i, j + 1;
        Reassigned2(base, s, x, q + ls[i..], lx[j..], q' + ls[i'..], lx[j'..]);
      } else {
        first1', first2' := nxt[first1], first2;
        q', i', j' := q + [ls[i]], i + 1, j;
      }
    }

    /** The end of `merge` (list.h:205-207) with the guard `first2 != last2`:
        once either run is used up, what is left of `x` goes to the end of
        `s`, which completes the merge. */
    method MergeTail(s: int, x: int, first1: int, first2: int, ghost base: map<int, seq<int>>,
                     ghost ls: seq<int>, ghost lx: seq<int>, ghost q: seq<int>, ghost i: nat, ghost j: nat)
      requires Valid() && s != x && i <= |ls| && j <= |lx|
      requires q + MergeNodes(data, ls[i..], lx[j..]) == MergeNodes(data, ls, lx)
      requires lists == base[s := q + ls[i..]][x := lx[j..]]
      requires first1 == Position(s, q + ls[i..], |q|) && first2 == Position(x, lx[j..], 0)
      requires first1 == s || first2 == x
      modifies this
      ensures Valid() && data == old(data)
      ensures lists == base[s := MergeNodes(data, ls, lx)][x := []]
    {
      Walk(Links(nxt, prv), owner, lists, s, |q|);
      Walk(Links(nxt, prv), owner, lists, x, 0);
      MergeEnd(data, s, ls, lx, q, i, j);
      if first2 != x {
        ghost var l, m := q + ls[i..], lx[j..];
        Transfer(s, |q|, s, x, 0, |m|, first2, x);
        Reassigned2(base, s, x, l, m, MergeNodes(data, ls, lx), []);
      }
    }

    /** `merge(x)` (list.h:191-208) with the tail guard `first2 != last2`:
        the elements of `x` are moved into `s` by the rule of `MergeNodes`,
        and `x` is left empty. */
    method Merge(s: int, x: int)
      requires Valid() && s in lists && x in lists && s != x
      modifies this
      ensures Valid() && data == old(data)
      ensures lists == old(lists)[s := MergeNodes(data, old(lists[s]), old(lists[x]))][x := []]
    {
      ghost var ls, lx := lists[s], lists[x];
      Walk(Links(nxt, prv), owner, lists, s, |ls|);
      Walk(Links(nxt, prv), owner, lists, x, |lx|);
      var first1 := nxt[s];
      var last1 := s;
      var first2 := nxt[x];
      var last2 := x;
      ghost var i: nat, j: nat, q: seq<int> := 0, 0, [];
      MergeStart(lists, s, x);
      while first1 != last1 && first2 != last2
        invariant Valid() && i <= |ls| && j <= |lx| && data == old(data)
        invariant q + MergeNodes(data, ls[i..], lx[j..]) == MergeNodes(data, ls, lx)
        invariant lists == old(lists)[s := q + ls[i..]][x := lx[j..]]
        invariant first1 == Position(s, q + ls[i..], |q|) && first2 == Position(x, lx[j..], 0)
        decreases |ls| - i + |lx| - j
      {
        first1, first2, q, i, j := MergeTurn(s, x, first1, first2, old(lists), ls, lx, q, i, j);
      }
      MergeTail(s, x, first1, first2, old(lists), ls, lx, q, i, j);
    }

    /** One turn of the loop of `reverse` (list.h:214-218): `first`, the
        `i`-th original element, is moved to the front; the first `i`
        elements are reversed already, `base` holds the lists before
        `reverse`. */
    method ReverseTurn(s: int, first: int, ghost base: map<int, seq<int>>, ghost ls: seq<int>, ghost i: nat)
      returns (first': int)
      requires Valid() && 1 <= i <= |ls|
      requires lists == base[s := Reversed(ls[..i]) + ls[i..]]
      requires first == Position(s, Reversed(ls[..i]) + ls[i..], i) && first != s
      modifies this
      ensures Valid() && data == old(data) && i < |ls|
      ensures lists == base[s := Reversed(ls[..i + 1]) + ls[i + 1..]]
      ensures first' == Position(s, Reversed(ls[..i + 1]) + ls[i + 1..], i + 1)
    {
      ghost var l := Reversed(ls[..i]) + ls[i..];
      Walk(Links(nxt, prv), owner, lists, s, i);
      Walk(Links(nxt, prv), owner, lists, s, |l|);
      ReverseStep(s, ls, i);
      var moved := first;
      first' := nxt[first];
      Transfer(s, 0, nxt[s], s, i, i + 1, moved, first');
      Reassigned(base, s, l, Reversed(ls[..i + 1]) + ls[i + 1..]);
    }

    /** `std::swap` on the values of nodes `x` and `y`; the links are left
        as they were. */
    method SwapData(x: int, y: int)
      requires Valid() && 0 <= x < |data| && 0 <= y < |data|
      modifies this
      ensures Valid() && nxt == old(nxt) && prv == old(prv) && owner == old(owner) && lists == old(lists)
      ensures data == old(data)[x := old(data)[y]][y := old(data)[x]]
    {
      var tmp := data[x];
      data := data[x := data[y]];
      data := data[y := tmp];
    }

    /** One visit of the loop of `partition` (list.h:261-265) at `j`, the
        element at position `jj`, short of the pivot at `b - 1`: when its
        value is below the pivot's, `i` moves on to position `a + c` and the
        two values are swapped. `i` is the node before position `a + c`. */
    method PartitionVisit(s: int, ghost a: nat, ghost b: nat, i: int, j: int, pivot: int,
                          ghost ls: seq<int>, ghost c: nat, ghost jj: nat)
      returns (i': int, j': int, ghost c': nat)
      requires Valid() && s in lists && lists[s] == ls && a + c <= jj < b <= |ls|
      requires j == ls[jj] && pivot == ls[b - 1] && j != pivot
      requires i == (if a + c == 0 then s else ls[a + c - 1])
      modifies this
      ensures Valid() && nxt == old(nxt) && prv == old(prv) && owner == old(owner) && lists == old(lists)
      ensures jj + 1 < b && (c' == c || c' == c + 1) && a + c' <= jj + 1
      ensures j' == ls[jj + 1] && i' == (if a + c' == 0 then s else ls[a + c' - 1])
      ensures Lomuto(Values(data, ls), b, a + c', jj + 1) == Lomuto(old(Values(data, ls)), b, a + c, jj)
      ensures |data| == old(|data|)
      ensures forall n | 0 <= n < |data| && n !in ls[a..b] :: data[n] == old(data)[n]
    {
      PositionsApart(Links(nxt, prv), owner, lists, s, jj, b - 1);
      NextAt(Links(nxt, prv), owner, lists, s, jj);
      NextOfBefore(Links(nxt, prv), owner, lists, s, a + c);
      PartitionSwap(Links(nxt, prv), owner, lists, data, s, b, a + c, jj);
      i', c' := i, c;
      if data[j] < data[pivot] {
        i' := nxt[i];
        assert i' in ls[a..b] && j in ls[a..b] by {
          assert ls[a..b][a + c - a] == i' && ls[a..b][jj - a] == j;
        }
        // std::swap(j.node->data, i.node->data)
        SwapData(j, i');
        c' := c + 1;
      }
      j' := nxt[j];
    }

    /** The end of `partition` (list.h:266-268): once `j` has reached the
        pivot, `i` moves on to position `a + c` and its value is swapped
        with the pivot's; that node is returned. */
    method PivotPlace(s: int, ghost a: nat, ghost b: nat, i: int, pivot: int,
                      ghost ls: seq<int>, ghost c: nat, ghost jj: nat)
      returns (mid: int, ghost m: nat)
      requires Valid() && s in lists && lists[s] == ls && a + c <= jj < b <= |ls|
      requires ls[jj] == pivot && pivot == ls[b - 1]
      requires i == (if a + c == 0 then s else ls[a + c - 1])
      modifies this
      ensures Valid() && nxt == old(nxt) && prv == old(prv) && owner == old(owner) && lists == old(lists)
      ensures m == a + c && mid == ls[m]
      ensures (Values(data, ls), m) == Lomuto(old(Values(data, ls)), b, a + c, jj)
      ensures |data| == old(|data|)
      ensures forall n | 0 <= n < |data| && n !in ls[a..b] :: data[n] == old(data)[n]
    {
      PositionsApart(Links(nxt, prv), owner, lists, s, jj, b - 1);
      Walk(Links(nxt, prv), owner, lists, s, if a + c == 0 then |ls| else a + c - 1);
      mid := nxt[i];
      assert mid == ls[a + c] && mid in ls[a..b] && pivot in ls[a..b] by {
        assert ls[a..b][a + c - a] == mid && ls[a..b][b - 1 - a] == pivot;
      }
      PivotSwap(Links(nxt, prv), owner, lists, data, s, b, a + c);
      // std::swap(i.node->data, pivot.node->data)
      SwapData(mid, pivot);
      m := a + c;
    }

    /** `partition(first, last)` (list.h:255-269), Lomuto's scheme on the
        values of positions `[a, b)` of list `s`: the value of the last
        element is the pivot; the values below it are swapped to the front
        of the range, then the pivot after them, at position `m`, whose node
        is returned. Only values move; the links stay as they were. What
        this achieves is `ListSpec.PartitionCorrect`. */
    method Partition(s: int, ghost a: nat, ghost b: nat, first: int, last: int)
      returns (mid: int, ghost m: nat)
      requires Valid() && s in lists && a < b <= |lists[s]|
      requires first == Position(s, lists[s], a) && last == Position(s, lists[s], b)
      modifies this
      ensures Valid() && nxt == old(nxt) && prv == old(prv) && owner == old(owner) && lists == old(lists)
      ensures (Elements(s), m) == PartitionValues(old(Elements(s)), a, b) && mid == lists[s][m]
      ensures |data| == old(|data|)
      ensures forall n | 0 <= n < |data| && n !in lists[s][a..b] :: data[n] == old(data)[n]
    {
      ghost var ls := lists[s];
      PrevOf(Links(nxt, prv), owner, lists, s, b);
      PrevOf(Links(nxt, prv), owner, lists, s, a);
      var pivot := prv[last];
      var i := prv[first];
      var j := first;
      ghost var c: nat, jj: nat := 0, a;
      ghost var target := PartitionValues(Values(data, ls), a, b);
      while j != pivot
        invariant Valid() && nxt == old(nxt) && prv == old(prv) && owner == old(owner) && lists == old(lists)
        invariant a + c <= jj < b && j == ls[jj] && pivot == ls[b - 1]
        invariant i == (if a + c == 0 then s else ls[a + c - 1])
        invariant |data| == old(|data|)
        invariant forall n | 0 <= n < |data| && n !in ls[a..b] :: data[n] == old(data)[n]
        invariant Lomuto(Values(data, ls), b, a + c, jj) == target
        decreases b - jj
      {
        i, j, c := PartitionVisit(s, a, b, i, j, pivot, ls, c, jj);
        jj := jj + 1;
      }
      mid, m := PivotPlace(s, a, b, i, pivot, ls, c, jj);
    }

    /** `sort(first, last)` (list.h:221-227): a range of two or more
        elements is partitioned, then both sides of the pivot are sorted
        in turn; `p` is the pivot's node, at position `m`. */
    method Sort(s: int, ghost a: nat, ghost b: nat, first: int, last: int)
      requires Valid() && s in lists && a <= b <= |lists[s]|
      requires first == Position(s, lists[s], a) && last == Position(s, lists[s], b)
      modifies this
      ensures Valid() && nxt == old(nxt) && prv == old(prv) && owner == old(owner) && lists == old(lists)
      ensures PermutedWithin(old(Elements(s)), Elements(s), a, b) && Sorted(Elements(s)[a..b])
      ensures |data| == old(|data|)
      ensures forall n | 0 <= n < |data| && n !in lists[s][a..b] :: data[n] == old(data)[n]
      decreases b - a
    {
      ghost var ls := lists[s];
      SortGuards(Links(nxt, prv), owner, lists, s, a, b);
      if first != last && nxt[first] != last {
        var p;
        ghost var m: nat;
        p, m := Partition(s, a, b, first, last);
        ghost var v1 := Elements(s);
        Sort(s, a, m, first, p);
        ghost var v2 := Elements(s);
        Walk(Links(nxt, prv), owner, lists, s, m);
        Sort(s, m + 1, b, nxt[p], last);
        QuicksortCorrect(old(Elements(s)), v1, v2, Elements(s), a, m, b);
        InSubRange(ls, a, m, b);
        InSubRange(ls, a, m + 1, b);
      } else {
        ShortSorted(Elements(s), a, b);
      }
    }

    /** `reverse()` (list.h:210-219): lists of fewer than two elements are
        left alone; otherwise each element from the second on is moved to
        the front in turn. */
    method Reverse(s: int)
      requires Valid() && s in lists
      modifies this
      ensures Valid() && data == old(data)
      ensures lists == old(lists)[s := Reversed(old(lists[s]))]
    {
      ghost var ls := lists[s];
      Walk(Links(nxt, prv), owner, lists, s, |ls|);
      Walk(Links(nxt, prv), owner, lists, s, 0);
      if nxt[s] == s || nxt[nxt[s]] == s {
        if ls != [] {
          Walk(Links(nxt, prv), owner, lists, s, 1);
        }
        ReversedShort(ls);
        return;
      }
      var first := nxt[s];
      first := nxt[first];
      ghost var i: nat := 1;
      ReverseStart(lists, s);
      while first != s
        invariant Valid() && 1 <= i <= |ls| && data == old(data)
        invariant lists == old(lists)[s := Reversed(ls[..i]) + ls[i..]]
        invariant first == Position(s, Reversed(ls[..i]) + ls[i..], i)
        decreases |ls| - i
      {
        first := ReverseTurn(s, first, old(lists), ls, i);
        i := i + 1;
      }
      Walk(Links(nxt, prv), owner, lists, s, i);
      assert ls[..i] == ls && Reversed(ls[..i]) + ls[i..] == Reversed(ls);
    }
  }

  /** Two positions of list `s` name the same node only if they are equal. */
  lemma PositionsApart(h: Links, owner: seq<int>, lists: map<int, seq<int>>, s: int, p: nat, q: nat)
    requires StoreOk(h, owner, lists) && s in lists && p <= |lists[s]| && q <= |lists[s]|
    ensures Position(s, lists[s], p) == Position(s, lists[s], q) <==> p == q
  {
    assert ListOk(h, owner, s, lists[s]);
    PositionsDiffer(h, owner, s, lists[s], p, q);
  }

  /** The node before position `q` of list `s` (the sentinel when `q` is 0)
      links forward to the element at `q`. */
  lemma NextOfBefore(h: Links, owner: seq<int>, lists: map<int, seq<int>>, s: int, q: nat)
    requires StoreOk(h, owner, lists) && s in lists && q < |lists[s]|
    ensures var before := if q == 0 then s else lists[s][q - 1];
      0 <= before < |h.nxt| && h.nxt[before] == lists[s][q]
  {
    Walk(h, owner, lists, s, if q == 0 then |lists[s]| else q - 1);
  }

  /** An element that is not the last one links forward to the next. */
  lemma NextAt(h: Links, owner: seq<int>, lists: map<int, seq<int>>, s: int, q: nat)
    requires StoreOk(h, owner, lists) && s in lists && q + 1 < |lists[s]|
    ensures 0 <= lists[s][q] < |h.nxt| && h.nxt[lists[s][q]] == lists[s][q + 1]
  {
    Walk(h, owner, lists, s, q);
  }

  /** The tests of `sort`: `first != last` says the range `[a, b)` is not
      empty, and then `next(first) != last` says it has two elements or more. */
  lemma SortGuards(h: Links, owner: seq<int>, lists: map<int, seq<int>>, s: int, a: nat, b: nat)
    requires StoreOk(h, owner, lists) && s in lists && a <= b <= |lists[s]|
    ensures (Position(s, lists[s], a) == Position(s, lists[s], b)) == (a == b)
    ensures a < b ==> 0 <= Position(s, lists[s], a) < |h.nxt|
    ensures a < b ==> (h.nxt[Position(s, lists[s], a)] == Position(s, lists[s], b)) == (a + 1 == b)
  {
    PositionsApart(h, owner, lists, s, a, b);
    if a < b {
      PositionsApart(h, owner, lists, s, a + 1, b);
      Walk(h, owner, lists, s, a);
    }
  }

  /** The element at position `q - 1` of list `s` links forward to
      position `q`, which is the sentinel only at the end. */
  lemma LastKeptLinks(h: Links, owner: seq<int>, lists: map<int, seq<int>>, s: int, q: nat)
    requires StoreOk(h, owner, lists) && s in lists && 1 <= q <= |lists[s]|
    ensures 0 <= lists[s][q - 1] < |h.nxt| && h.nxt[lists[s][q - 1]] == Position(s, lists[s], q)
    ensures 0 <= Position(s, lists[s], q) < |h.nxt| && (Position(s, lists[s], q) == s) == (q == |lists[s]|)
  {
    Walk(h, owner, lists, s, q - 1);
    Walk(h, owner, lists, s, q);
  }

  /** Position `q` of list `s` links back to position `q - 1`, or to the
      sentinel from the front. */
  lemma PrevOf(h: Links, owner: seq<int>, lists: map<int, seq<int>>, s: int, q: nat)
    requires StoreOk(h, owner, lists) && s in lists && q <= |lists[s]|
    ensures 0 <= Position(s, lists[s], q) < |h.nxt| && Position(s, lists[s], q) < |h.prv|
    ensures h.prv[Position(s, lists[s], q)] == if q == 0 then s else lists[s][q - 1]
  {
    Walk(h, owner, lists, s, q);
  }

  /** The value of the element at position `k` of list `s`. */
  lemma ValueAt(h: Links, owner: seq<int>, lists: map<int, seq<int>>, data: seq<int>, s: int, k: nat)
    requires StoreOk(h, owner, lists) && |data| == |h.nxt| && s in lists && k < |lists[s]|
    ensures 0 <= lists[s][k] < |data| && Values(data, lists[s])[k] == data[lists[s][k]]
  {
    assert ListOk(h, owner, s, lists[s]);
  }

  /** `std::swap` on the values of the elements at positions `x` and `y` of
      list `s` swaps those two of its values and no other. */
  lemma SwapInList(h: Links, owner: seq<int>, lists: map<int, seq<int>>, data: seq<int>, s: int, x: nat, y: nat)
    requires StoreOk(h, owner, lists) && |data| == |h.nxt| && s in lists
    requires x < |lists[s]| && y < |lists[s]|
    ensures var ls := lists[s]; var vs := Values(data, ls);
      && 0 <= ls[x] < |data| && 0 <= ls[y] < |data|
      && Values(data[ls[x] := data[ls[y]]][ls[y] := data[ls[x]]], ls) == vs[x := vs[y]][y := vs[x]]
  {
    assert ListOk(h, owner, s, lists[s]);
    ElementsDistinct(h, owner, s, lists[s]);
    ValuesSwap(data, lists[s], x, y);
  }

  /** One visit of the loop of `partition` on the store: the value at
      position `j` of list `s` is compared with the pivot's, at `b - 1`, and
      either swapped with the one at `i` or left alone, as `Lomuto` does. */
  lemma PartitionSwap(h: Links, owner: seq<int>, lists: map<int, seq<int>>, data: seq<int>,
                      s: int, b: nat, i: nat, j: nat)
    requires StoreOk(h, owner, lists) && |data| == |h.nxt| && s in lists
    requires i <= j < b - 1 && b <= |lists[s]|
    ensures var ls := lists[s]; var vs := Values(data, ls);
      && 0 <= ls[i] < |data| && 0 <= ls[j] < |data| && 0 <= ls[b - 1] < |data|
      && (data[ls[j]] < data[ls[b - 1]] ==>
            Lomuto(Values(data[ls[j] := data[ls[i]]][ls[i] := data[ls[j]]], ls), b, i + 1, j + 1) == Lomuto(vs, b, i, j))
      && (!(data[ls[j]] < data[ls[b - 1]]) ==> Lomuto(vs, b, i, j + 1) == Lomuto(vs, b, i, j))
  {
    ValueAt(h, owner, lists, data, s, j);
    ValueAt(h, owner, lists, data, s, b - 1);
    SwapInList(h, owner, lists, data, s, j, i);
  }

  /** The end of `partition` on the store: the pivot's value, at `b - 1`,
      is swapped with the one at `i`, as `Lomuto` does. */
  lemma PivotSwap(h: Links, owner: seq<int>, lists: map<int, seq<int>>, data: seq<int>, s: int, b: nat, i: nat)
    requires StoreOk(h, owner, lists) && |data| == |h.nxt| && s in lists && i < b <= |lists[s]|
    ensures var ls := lists[s];
      && 0 <= ls[i] < |data| && 0 <= ls[b - 1] < |data|
      && (Values(data[ls[i] := data[ls[b - 1]]][ls[b - 1] := data[ls[i]]], ls), i) == Lomuto(Values(data, ls), b, i, b - 1)
  {
    SwapInList(h, owner, lists, data, s, i, b - 1);
  }

  /** Assigning a key twice keeps the second value. */
  lemma Reassigned(m: map<int, seq<int>>, k: int, v: seq<int>, w: seq<int>)
    ensures m[k := v][k := w] == m[k := w]
  {
  }

  /** Erasing the element at `p` of the list `s`, last assigned `l`, leaves
      `s` assigned `w`. */
  lemma Erased(m: map<int, seq<int>>, before: map<int, seq<int>>, after: map<int, seq<int>>,
               s: int, l: seq<int>, p: nat, w: seq<int>)
    requires before == m[s := l] && p < |l| && l[..p] + l[p + 1..] == w
    requires after == before[s := before[s][..p] + before[s][p + 1..]]
    ensures after == m[s := w]
  {
    assert before[s] == l;
    assert m[s := l][s := w] == m[s := w];
  }

  /** Assigning two keys twice keeps the second values. */
  lemma Reassigned2(m: map<int, seq<int>>, k: int, k': int, v: seq<int>, v': seq<int>, w: seq<int>, w': seq<int>)
    requires k != k'
    ensures m[k := v][k' := v'][k := w][k' := w'] == m[k := w][k' := w']
  {
  }

  /** Before the loop of `unique`: the first element is kept. */
  lemma UniqueStart(data: seq<int>, m: map<int, seq<int>>, s: int)
    requires s in m && |m[s]| > 0
    ensures var ls := m[s];
      && UniqueNodes(data, ls[..1]) == [ls[0]] && [ls[0]] + ls[1..] == ls
      && Position(s, ls, 1) == Position(s, [ls[0]] + ls[1..], |[ls[0]]|)
      && m[s := [ls[0]] + ls[1..]] == m
  {
    var ls := m[s];
    assert ls[..1] == [ls[0]];
    assert [ls[0]] + ls[1..] == ls;
    assert m[s := ls] == m;
  }

  /** Before a walk over the list `s`: nothing is visited yet. */
  lemma Unwalked(m: map<int, seq<int>>, s: int)
    requires s in m
    ensures [] + m[s][0..] == m[s] && m[s := [] + m[s][0..]] == m
  {
    assert [] + m[s][0..] == m[s];
    assert m[s := m[s]] == m;
  }

  /** One step of `unique`: `ls[j]` follows the kept prefix; it is erased
      when its value equals the last kept one, and kept otherwise. */
  lemma UniqueStep(data: seq<int>, s: int, ls: seq<int>, j: nat, kept: seq<int>)
    requires 1 <= j < |ls| && kept == UniqueNodes(data, ls[..j])
    ensures |kept| > 0
    ensures var l := kept + ls[j..];
      && Position(s, l, |kept|) == ls[j]
      && Position(s, l, |kept| - 1) == kept[|kept| - 1]
      && (Value(data, ls[j]) == Value(data, kept[|kept| - 1]) ==>
            && UniqueNodes(data, ls[..j + 1]) == kept
            && l[..|kept|] + l[|kept| + 1..] == kept + ls[j + 1..]
            && Position(s, kept + ls[j + 1..], |kept| - 1) == kept[|kept| - 1])
      && (Value(data, ls[j]) != Value(data, kept[|kept| - 1]) ==>
            && UniqueNodes(data, ls[..j + 1]) == kept + [ls[j]]
            && (kept + [ls[j]]) + ls[j + 1..] == l
            && Position(s, l, |kept + [ls[j]]| - 1) == ls[j])
  {
    assert ls[..j + 1][..j] == ls[..j] && ls[..j][j - 1] == ls[j - 1];
    var l := kept + ls[j..];
    assert l[..|kept|] + l[|kept| + 1..] == kept + ls[j + 1..];
    assert (kept + [ls[j]]) + ls[j + 1..] == l;
  }

  /** One step of `merge`: the heads are `ls[i]` and `lx[j]`; taking the
      smaller one extends the merged prefix `q`. */
  lemma MergeStep(data: seq<int>, ls: seq<int>, lx: seq<int>, q: seq<int>, i: nat, j: nat)
    requires i < |ls| && j < |lx|
    requires q + MergeNodes(data, ls[i..], lx[j..]) == MergeNodes(data, ls, lx)
    ensures Value(data, lx[j]) < Value(data, ls[i]) ==>
      (q + [lx[j]]) + MergeNodes(data, ls[i..], lx[j + 1..]) == MergeNodes(data, ls, lx)
    ensures !(Value(data, lx[j]) < Value(data, ls[i])) ==>
      (q + [ls[i]]) + MergeNodes(data, ls[i + 1..], lx[j..]) == MergeNodes(data, ls, lx)
  {
    var xs, ys := ls[i..], lx[j..];
    assert xs[0] == ls[i] && xs[1..] == ls[i + 1..];
    assert ys[0] == lx[j] && ys[1..] == lx[j + 1..];
    if Value(data, lx[j]) < Value(data, ls[i]) {
      calc {
        MergeNodes(data, ls, lx);
        q + MergeNodes(data, xs, ys);
        q + ([lx[j]] + MergeNodes(data, xs, lx[j + 1..]));
        (q + [lx[j]]) + MergeNodes(data, ls[i..], lx[j + 1..]);
      }
    } else {
      calc {
        MergeNodes(data, ls, lx);
        q + MergeNodes(data, xs, ys);
        q + ([ls[i]] + MergeNodes(data, ls[i + 1..], ys));
        (q + [ls[i]]) + MergeNodes(data, ls[i + 1..], lx[j..]);
      }
    }
  }

  /** One step of `merge` on the lists: where the heads are, and the lists
      after moving the head of `x` in front of `first1` or after passing
      `first1`. */
  lemma MergeLists(s: int, x: int, ls: seq<int>, lx: seq<int>, q: seq<int>, i: nat, j: nat)
    requires i < |ls| && j < |lx|
    ensures var l, m := q + ls[i..], lx[j..];
      && Position(s, l, |q|) == ls[i] && Position(x, m, 0) == lx[j]
      && l[..|q|] + m[0..1] + l[|q|..] == (q + [lx[j]]) + ls[i..]
      && m[..0] + m[1..] == lx[j + 1..]
      && Position(x, m, 1) == Position(x, lx[j + 1..], 0)
      && Position(s, l, |q|) == Position(s, (q + [lx[j]]) + ls[i..], |q + [lx[j]]|)
      && (q + [ls[i]]) + ls[i + 1..] == l
      && Position(s, l, |q| + 1) == Position(s, l, |q + [ls[i]]|)
  {
    var l, m := q + ls[i..], lx[j..];
    assert lx[j..][1..] == lx[j + 1..];
    assert l[..|q|] + m[0..1] + l[|q|..] == (q + [lx[j]]) + ls[i..];
    assert (q + [ls[i]]) + ls[i + 1..] == l;
  }

  /** Before the loop of `merge`: nothing is merged yet. */
  lemma MergeStart(m: map<int, seq<int>>, s: int, x: int)
    requires s in m && x in m
    ensures [] + m[s][0..] == m[s] && m[x][0..] == m[x]
    ensures m[s := [] + m[s][0..]][x := m[x][0..]] == m
  {
    assert [] + m[s][0..] == m[s] && m[x][0..] == m[x];
    assert m[s := m[s]][x := m[x]] == m;
  }

  /** After the loop of `merge`: one side is used up, and the rest of the
      other completes the merge. */
  lemma MergeEnd(data: seq<int>, s: int, ls: seq<int>, lx: seq<int>, q: seq<int>, i: nat, j: nat)
    requires i <= |ls| && j <= |lx| && (Position(s, q + ls[i..], |q|) == s ==> i == |ls|)
    requires q + MergeNodes(data, ls[i..], lx[j..]) == MergeNodes(data, ls, lx)
    ensures j == |lx| ==> q + ls[i..] == MergeNodes(data, ls, lx) && lx[j..] == []
    ensures j < |lx| && Position(s, q + ls[i..], |q|) == s ==>
      var l, m := q + ls[i..], lx[j..];
      && l[..|q|] + m[0..|m|] + l[|q|..] == MergeNodes(data, ls, lx)
      && m[..0] + m[|m|..] == []
  {
    if j == |lx| {
      assert lx[j..] == [];
    }
    if j < |lx| && Position(s, q + ls[i..], |q|) == s {
      assert ls[i..] == [];
      var l, m := q + ls[i..], lx[j..];
      assert l[..|q|] + m[0..|m|] + l[|q|..] == q + m;
    }
  }

  /** Fewer than two elements reversed are the same list. */
  lemma ReversedShort(ls: seq<int>)
    requires |ls| <= 1
    ensures Reversed(ls) == ls
  {
    if |ls| == 1 {
      assert ls[..0] == [];
    }
  }

  /** Before the loop of `reverse`: the first element alone is reversed. */
  lemma ReverseStart(m: map<int, seq<int>>, s: int)
    requires s in m && 1 <= |m[s]|
    ensures var ls := m[s];
      && Reversed(ls[..1]) + ls[1..] == ls
      && Position(s, ls, 1) == Position(s, Reversed(ls[..1]) + ls[1..], 1)
      && m[s := Reversed(ls[..1]) + ls[1..]] == m
  {
    var ls := m[s];
    ReversedShort(ls[..1]);
    assert ls[..1] + ls[1..] == ls;
    assert m[s := ls] == m;
  }

  /** One step of `reverse`: moving `ls[i]` to the front of the reversed
      prefix reverses one more element. */
  lemma ReverseStep(s: int, ls: seq<int>, i: nat)
    requires 1 <= i < |ls|
    ensures var l := Reversed(ls[..i]) + ls[i..];
      && |l| == |ls| && Position(s, l, i) == ls[i]
      && Moved(l, 0, i, i + 1) == Reversed(ls[..i + 1]) + ls[i + 1..]
      && Position(s, l, i + 1) == Position(s, Reversed(ls[..i + 1]) + ls[i + 1..], i + 1)
  {
    var l := Reversed(ls[..i]) + ls[i..];
    assert ls[..i + 1][..i] == ls[..i];
    assert l[..0] + l[i..i + 1] + l[0..i] + l[i + 1..] == Reversed(ls[..i + 1]) + ls[i + 1..];
  }

  /** One step of `remove`: the element after the kept prefix is `ls[i]`;
      erasing it or keeping it gives the list of the next step. */
  lemma RemoveStep(data: seq<int>, s: int, ls: seq<int>, i: nat, kept: seq<int>, value: int)
    requires i < |ls| && kept == RemoveNodes(data, ls[..i], value)
    ensures var l := kept + ls[i..];
      && Position(s, l, |kept|) == ls[i]
      && (Value(data, ls[i]) == value ==>
            && RemoveNodes(data, ls[..i + 1], value) == kept
            && l[..|kept|] + l[|kept| + 1..] == kept + ls[i + 1..]
            && Position(s, l, |kept| + 1) == Position(s, kept + ls[i + 1..], |kept|))
      && (Value(data, ls[i]) != value ==>
            && RemoveNodes(data, ls[..i + 1], value) == kept + [ls[i]]
            && (kept + [ls[i]]) + ls[i + 1..] == l
            && Position(s, l, |kept| + 1) == Position(s, l, |kept + [ls[i]]|))
  {
    assert ls[..i + 1][..i] == ls[..i];
    var l := kept + ls[i..];
    assert l[..|kept|] == kept && l[|kept| + 1..] == ls[i + 1..];
    assert (kept + [ls[i]]) + ls[i + 1..] == l;
  }
}
