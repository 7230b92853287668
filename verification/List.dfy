/** The circular doubly linked list of list.c, and its sort, which relinks the nodes in place. */
module Lists {
  import opened ListOrder
  import opened Sequences

  // ---- Rings of nodes ----

  ghost function Succ(r: seq<ListNode>, i: nat): ListNode
    requires i < |r|
  {
    if i + 1 < |r| then r[i + 1] else r[0]
  }

  /** The nodes of `r` are linked in this order, the last one with the first one. */
  ghost predicate Ring(r: seq<ListNode>)
    reads Elems(r)`next, Elems(r)`prev
  {
    && r != []
    && (forall i, j :: 0 <= i < j < |r| ==> r[i] != r[j])
    && (forall i: nat :: i < |r| ==> r[i].next == Succ(r, i) && Succ(r, i).prev == r[i])
  }

  function With(r: seq<ListNode>, k: nat, n: ListNode): seq<ListNode>
    requires k <= |r|
  {
    r[..k] + [n] + r[k..]
  }

  /** What was put in stands at its place, the others stay in their order; and taking it out again restores them. */
  lemma WithIs(r: seq<ListNode>, k: nat, n: ListNode)
    requires k <= |r|
    ensures With(r, k, n)[k] == n && With(r, k, n)[..k] == r[..k] && With(r, k, n)[k + 1..] == r[k..]
    ensures Without(With(r, k, n), k) == r
  {
    WithoutIs(With(r, k, n), k);
    assert r[..k] + r[k..] == r;
  }

  /** remove_ListNode_ */
  method RemoveNode(d: ListNode, ghost r: seq<ListNode>, ghost k: nat)
    requires Ring(r) && k < |r| && d == r[k] && |r| > 1
    modifies Elems(r)`next, Elems(r)`prev
    ensures Ring(Without(r, k)) && d.next == null && d.prev == null
  {
    ghost var n, s := |r|, Without(r, k);
    assert d.prev == r[if k > 0 then k - 1 else n - 1] by {
      assert Succ(r, if k > 0 then k - 1 else n - 1) == d;
    }
    d.next.prev := d.prev;
    d.prev.next := d.next;
    d.next, d.prev := null, null;
    forall i: nat | i < |s|
      ensures s[i].next == Succ(s, i) && Succ(s, i).prev == s[i]
    {
      assert s[i] == if i < k then r[i] else r[i + 1];
      assert i + 1 < |s| ==> s[i + 1] == if i + 1 < k then r[i + 1] else r[i + 2];
    }
  }

  /** A ring, but for the link behind the node at `k`. */
  ghost predicate RingBut(r: seq<ListNode>, k: nat)
    reads Elems(r)`next, Elems(r)`prev
  {
    && r != []
    && (forall i, j :: 0 <= i < j < |r| ==> r[i] != r[j])
    && (forall i: nat :: i < |r| && i != k ==> r[i].next == Succ(r, i) && Succ(r, i).prev == r[i])
  }

  /** A node that is linked in behind the one at `k` closes the ring. */
  lemma RingClosed(d: ListNode, r: seq<ListNode>, k: nat)
    requires RingBut(r, k) && k < |r| && d !in r
    requires r[k].next == d && d.prev == r[k] && d.next == Succ(r, k) && Succ(r, k).prev == d
    ensures Ring(With(r, k + 1, d))
  {
    hide Elems;
    var s := With(r, k + 1, d);
    forall i: nat | i < |s|
      ensures s[i].next == Succ(s, i) && Succ(s, i).prev == s[i]
    {
      assert s[i] == if i <= k then r[i] else if i == k + 1 then d else r[i - 1];
      assert i + 1 < |s| ==> s[i + 1] == if i < k then r[i + 1] else if i == k then d else r[i];
    }
  }

  /** insertAfter_ListNode_ */
  method InsertAfterNode(d: ListNode, after: ListNode, ghost r: seq<ListNode>, ghost k: nat)
    requires Ring(r) && k < |r| && after == r[k] && d !in r
    modifies Elems(r)`next, Elems(r)`prev, d`next, d`prev
    ensures Ring(With(r, k + 1, d))
  {
    hide Elems;
    d.next := after.next;
    after.next.prev := d;
    d.prev := after;
    after.next := d;
    RingClosed(d, r, k);
  }

  /** insertBefore_ListNode_, for the node that follows the one at `k`. */
  method InsertBeforeNode(d: ListNode, before: ListNode, ghost r: seq<ListNode>, ghost k: nat)
    requires Ring(r) && k < |r| && before == Succ(r, k) && d !in r
    modifies Elems(r)`next, Elems(r)`prev, d`next, d`prev
    ensures Ring(With(r, k + 1, d))
  {
    hide Elems;
    assert before.prev == r[k];
    d.prev := before.prev;
    before.prev.next := d;
    d.next := before;
    before.prev := d;
    RingClosed(d, r, k);
  }

  // ---- Sorting ----

  ghost function Row(a: seq<ListNode>, l: seq<ListNode>, p: ListNode, h: seq<ListNode>, z: seq<ListNode>): seq<ListNode>
  {
    a + l + [p] + h + z
  }

  lemma RowMoved(a: seq<ListNode>, x: ListNode, l: seq<ListNode>, p: ListNode, h: seq<ListNode>, z: seq<ListNode>)
    ensures var r := Row(a + [x], l, p, h, z);
            && |a| < |r| && r[|a|] == x && |r| > 1
            && |a| + |l| < |Without(r, |a|)| && Without(r, |a|)[|a| + |l|] == p
            && With(Without(r, |a|), |a| + |l| + 1, x) == Row(a, l, p, [x] + h, z)
  {
    var r := Row(a + [x], l, p, h, z);
    assert Without(r, |a|) == Row(a, l, p, h, z);
  }

  lemma WithoutNode(r: seq<ListNode>, k: nat)
    requires k < |r| && Ring(r)
    ensures r[k] !in Without(r, k) && Elems(Without(r, k)) <= Elems(r)
  {
  }

  /** What quicksortPartition_ListNode_ does with a node that belongs behind the pivot. */
  method MovePast(x: ListNode, p: ListNode,
      ghost a: seq<ListNode>, ghost l: seq<ListNode>, ghost h: seq<ListNode>, ghost z: seq<ListNode>)
    requires Ring(Row(a + [x], l, p, h, z))
    modifies Elems(Row(a + [x], l, p, h, z))`next, Elems(Row(a + [x], l, p, h, z))`prev
    ensures Ring(Row(a, l, p, [x] + h, z))
  {
    hide Row, Without, With, Ring, Elems;
    ghost var r := Row(a + [x], l, p, h, z);
    RowMoved(a, x, l, p, h, z);
    WithoutNode(r, |a|);
    RemoveNode(x, r, |a|);
    InsertAfterNode(x, p, Without(r, |a|), |a| + |l|);
  }

  /** The ring while the nodes of `s` from `k` on have been put on their side of the pivot. */
  ghost function Stage(a: seq<ListNode>, s: seq<ListNode>, k: nat, p: ListNode, z: seq<ListNode>, cmp: Compare)
    : seq<ListNode>
    requires k <= |s|
  {
    Row(a + s[..k], Low(s[k..], p, cmp), p, High(s[k..], p, cmp), z)
  }

  lemma StageParts(a: seq<ListNode>, s: seq<ListNode>, k: nat, p: ListNode, z: seq<ListNode>, cmp: Compare)
    requires k < |s|
    ensures s[k..][1..] == s[k + 1..] && a + s[..k + 1] == (a + s[..k]) + [s[k]]
    ensures Low(s[k..], p, cmp) == (if cmp(s[k], p) > 0 then [] else [s[k]]) + Low(s[k + 1..], p, cmp)
    ensures High(s[k..], p, cmp) == (if cmp(s[k], p) > 0 then [s[k]] else []) + High(s[k + 1..], p, cmp)
    ensures Stage(a, s, k + 1, p, z, cmp)
       == Row((a + s[..k]) + [s[k]], Low(s[k + 1..], p, cmp), p, High(s[k + 1..], p, cmp), z)
    ensures Stage(a, s, k, p, z, cmp) ==
            if cmp(s[k], p) <= 0 then Stage(a, s, k + 1, p, z, cmp)
            else Row(a + s[..k], Low(s[k + 1..], p, cmp), p, [s[k]] + High(s[k + 1..], p, cmp), z)
  {
    assert s[k..][1..] == s[k + 1..];
    assert a + s[..k + 1] == (a + s[..k]) + [s[k]];
  }

  /** Links around the node at `k`. */
  lemma StageLinks(a: seq<ListNode>, s: seq<ListNode>, k: nat, p: ListNode, z: seq<ListNode>, cmp: Compare)
    requires k < |s| && Ring(Stage(a, s, k + 1, p, z, cmp))
    ensures k > 0 ==> s[k].prev == s[k - 1] && forall j :: 0 <= j < k ==> s[j] != s[k]
    ensures s[k].next == (Low(s[k + 1..], p, cmp) + [p])[0]
  {
    var r, i := Stage(a, s, k + 1, p, z, cmp), |a| + k;
    assert r[i] == s[k] && Succ(r, i) == (Low(s[k + 1..], p, cmp) + [p])[0];
    if k > 0 {
      assert r[i - 1] == s[k - 1] && Succ(r, i - 1) == s[k];
      assert forall j :: 0 <= j < k ==> r[|a| + j] == s[j];
    }
  }

  function Last(s: seq<ListNode>): ListNode
    requires s != []
  {
    s[|s| - 1]
  }

  /** Puts the node at `k` on its side of the pivot. */
  method Place(i: ListNode, pivot: ListNode, high: ListNode, cmp: Compare,
      ghost a: seq<ListNode>, ghost s: seq<ListNode>, ghost k: nat, ghost z: seq<ListNode>)
    returns (high': ListNode)
    requires k < |s| && i == s[k] && Ring(Stage(a, s, k + 1, pivot, z, cmp))
    requires high == Last([pivot] + High(s[k + 1..], pivot, cmp))
    modifies Elems(Stage(a, s, k + 1, pivot, z, cmp))`next, Elems(Stage(a, s, k + 1, pivot, z, cmp))`prev
    ensures Ring(Stage(a, s, k, pivot, z, cmp))
    ensures high' == Last([pivot] + High(s[k..], pivot, cmp))
  {
    hide Ring, Row, Elems;
    StageParts(a, s, k, pivot, z, cmp);
    PivotOnce(a + s[..k + 1], Low(s[k + 1..], pivot, cmp), pivot, High(s[k + 1..], pivot, cmp), z);
    high' := high;
    if cmp(i, pivot) > 0 {
      MovePast(i, pivot, a + s[..k], Low(s[k + 1..], pivot, cmp), High(s[k + 1..], pivot, cmp), z);
      if high' == pivot {
        high' := i;
      }
    }
  }

  lemma PivotOnce(a: seq<ListNode>, l: seq<ListNode>, p: ListNode, h: seq<ListNode>, z: seq<ListNode>)
    requires Ring(Row(a, l, p, h, z))
    ensures h != [] ==> Last(h) != p
  {
    var r := Row(a, l, p, h, z);
    if h != [] {
      assert r[|a| + |l|] == p && r[|a| + |l| + |h|] == Last(h);
    }
  }

  /** quicksortPartition_ListNode_ on the nodes `s` and the pivot behind them, which stand between `a` and `z`. */
  method Partition(low: ListNode, high: ListNode, cmp: Compare,
      ghost a: seq<ListNode>, ghost s: seq<ListNode>, ghost z: seq<ListNode>)
    returns (pivot: ListNode, low': ListNode, high': ListNode)
    requires s != [] && Ring(a + s + [high] + z) && low == s[0]
    modifies Elems(a + s + [high] + z)`next, Elems(a + s + [high] + z)`prev
    ensures pivot == high && Ring(Row(a, Low(s, pivot, cmp), pivot, High(s, pivot, cmp), z))
    ensures low' == (Low(s, pivot, cmp) + [pivot])[0] && high' == Last([pivot] + High(s, pivot, cmp))
  {
    hide Ring, Row, Low, High;
    pivot, low', high' := high, low, high;
    ghost var k: nat := |s| - 1;
    StageStart(a, s, pivot, z, cmp);
    var i := pivot.prev;
    while i != low
      invariant k < |s| && i == s[k]
      invariant Ring(Stage(a, s, k + 1, pivot, z, cmp))
      invariant Elems(Stage(a, s, k + 1, pivot, z, cmp)) == Elems(a + s + [high] + z)
      invariant high' == Last([pivot] + High(s[k + 1..], pivot, cmp))
      decreases k
    {
      StageLinks(a, s, k, pivot, z, cmp);
      StageElems(a, s, k, pivot, z, cmp);
      var prev := i.prev;
      high' := Place(i, pivot, high', cmp, a, s, k, z);
      i := prev;
      k := k - 1;
    }
    StageLinks(a, s, k, pivot, z, cmp);
    StageParts(a, s, k, pivot, z, cmp);
    if cmp(low, pivot) > 0 {
      low' := low.next;
    }
    high' := Place(low, pivot, high', cmp, a, s, k, z);
    StageEnd(a, s, pivot, z, cmp);
  }

  lemma StageStart(a: seq<ListNode>, s: seq<ListNode>, p: ListNode, z: seq<ListNode>, cmp: Compare)
    requires s != [] && Ring(a + s + [p] + z)
    ensures Stage(a, s, |s|, p, z, cmp) == a + s + [p] + z && Low(s[|s|..], p, cmp) == High(s[|s|..], p, cmp) == []
    ensures p.prev == Last(s)
  {
    var r, i := a + s + [p] + z, |a| + |s|;
    assert r[i - 1] == Last(s) && Succ(r, i - 1) == p;
    assert s[..|s|] == s && s[|s|..] == [];
  }

  lemma StageEnd(a: seq<ListNode>, s: seq<ListNode>, p: ListNode, z: seq<ListNode>, cmp: Compare)
    ensures Stage(a, s, 0, p, z, cmp) == Row(a, Low(s, p, cmp), p, High(s, p, cmp), z)
  {
    assert s[0..] == s && a + s[..0] == a;
  }

  lemma StageElems(a: seq<ListNode>, s: seq<ListNode>, k: nat, p: ListNode, z: seq<ListNode>, cmp: Compare)
    requires k < |s|
    ensures Elems(Stage(a, s, k, p, z, cmp)) == Elems(Stage(a, s, k + 1, p, z, cmp))
  {
    StageParts(a, s, k, p, z, cmp);
  }

  lemma BeforePivot(a: seq<ListNode>, l: seq<ListNode>, p: ListNode, h: seq<ListNode>, z: seq<ListNode>)
    requires Ring(Row(a, l, p, h, z)) && l != []
    ensures p.prev == Last(l) && l[0] != p
  {
    var r, i := Row(a, l, p, h, z), |a| + |l|;
    assert r[i] == p && r[i - 1] == Last(l) && r[|a|] == l[0] && Succ(r, i - 1) == p;
  }

  lemma BehindPivot(a: seq<ListNode>, l: seq<ListNode>, p: ListNode, h: seq<ListNode>, z: seq<ListNode>)
    requires Ring(Row(a, l, p, h, z)) && h != []
    ensures p.next == h[0] && Last(h) != p
  {
    var r, i := Row(a, l, p, h, z), |a| + |l|;
    assert r[i] == p && r[i + 1] == h[0] && r[i + |h|] == Last(h) && Succ(r, i) == h[0];
  }

  lemma RowSplits(a: seq<ListNode>, l: seq<ListNode>, p: ListNode, h: seq<ListNode>, z: seq<ListNode>)
    ensures Row(a, l, p, h, z) == a + l + ([p] + h + z)
    ensures Row(a, l, p, h, z) == (a + l + [p]) + h + z
    ensures Row(a, l, p, h, z) == a + (l + [p] + h) + z
  {
  }

  lemma SegmentEnds(a: seq<ListNode>, s: seq<ListNode>, z: seq<ListNode>)
    requires s != [] && Ring(a + s + z)
    ensures s[0] == Last(s) <==> |s| == 1
  {
    var r := a + s + z;
    assert r[|a|] == s[0] && r[|a| + |s| - 1] == Last(s);
  }

  lemma SortOne(s: seq<ListNode>, cmp: Compare)
    requires |s| <= 1
    ensures Sort(s, cmp) == s
  {
  }

  /** What sorting a list of several nodes amounts to. */
  lemma SortStep(s: seq<ListNode>, cmp: Compare, nodes: set<ListNode>)
    requires |s| > 1 && Elems(s) <= nodes
    ensures var rest, p := s[..|s| - 1], Last(s);
            var low, high := Low(rest, p, cmp), High(rest, p, cmp);
            var low', high' := Sort(low, cmp), Sort(high, cmp);
            && Sort(s, cmp) == low' + [p] + high' && |low'| == |low| && |high'| == |high|
            && Elems(low) <= nodes && Elems(high) <= nodes && Elems(low') <= nodes && Elems(high') <= nodes
  {
    hide Low, High;
    var rest, p := s[..|s| - 1], Last(s);
    var low, high := Low(rest, p, cmp), High(rest, p, cmp);
    PartsHold(rest, p, cmp);
    SortHolds(low, cmp);
    SortHolds(high, cmp);
    SameLength(Sort(low, cmp), low);
    SameLength(Sort(high, cmp), high);
    assert forall n :: n in rest ==> n in Elems(s);
  }

  /** quicksort_ListNode_ on the nodes `s`, which stand between `a` and `z`. */
  method Quicksort(start: ListNode, end: ListNode, cmp: Compare,
      ghost a: seq<ListNode>, ghost s: seq<ListNode>, ghost z: seq<ListNode>, ghost nodes: set<ListNode>)
    returns (start': ListNode, end': ListNode)
    requires s != [] && Ring(a + s + z) && start == s[0] && end == Last(s)
    requires Elems(a) <= nodes && Elems(s) <= nodes && Elems(z) <= nodes
    modifies nodes`next, nodes`prev
    ensures Ring(a + Sort(s, cmp) + z) && |Sort(s, cmp)| == |s|
    ensures start' == Sort(s, cmp)[0] && end' == Last(Sort(s, cmp))
    decreases |s|
  {
    hide Ring, Row, Low, High, Sort;
    start', end' := start, end;
    SegmentEnds(a, s, z);
    SortHolds(s, cmp);
    if start == end {
      SortOne(s, cmp);
    } else {
      ghost var rest := s[..|s| - 1];
      assert a + s + z == a + rest + [end] + z;
      SortStep(s, cmp, nodes);
      var p;
      p, start', end' := Partition(start, end, cmp, a, rest, z);
      ghost var low, high := Low(rest, p, cmp), High(rest, p, cmp);
      if low != [] {
        BeforePivot(a, low, p, high, z);
      }
      RowSplits(a, low, p, high, z);
      if p != start' {
        var firstHalf := p.prev;
        start', firstHalf := Quicksort(start', firstHalf, cmp, a, low, [p] + high + z, nodes);
      }
      RowSplits(a, Sort(low, cmp), p, high, z);
      if high != [] {
        BehindPivot(a, Sort(low, cmp), p, high, z);
      }
      if p != end' {
        var secondHalf := p.next;
        secondHalf, end' := Quicksort(secondHalf, end', cmp, a + Sort(low, cmp) + [p], high, z, nodes);
      }
      RowSplits(a, Sort(low, cmp), p, Sort(high, cmp), z);
    }
  }

  // ---- Lists ----

  lemma RootLinks(root: ListNode, items: seq<ListNode>)
    requires Ring([root] + items)
    ensures root.next == if items == [] then root else items[0]
    ensures root.prev == if items == [] then root else Last(items)
    ensures root !in items
  {
    hide Elems;
    var r := [root] + items;
    assert r[0] == root && Succ(r, 0) == root.next && Succ(r, |items|) == root;
    assert forall i :: 0 <= i < |items| ==> r[i + 1] == items[i];
  }

  lemma RootStaysFirst(root: ListNode, items: seq<ListNode>, k: nat, n: ListNode)
    requires k <= |items|
    ensures With([root] + items, k + 1, n) == [root] + With(items, k, n)
    ensures |With(items, k, n)| == |items| + 1
    ensures k < |items| ==> Without([root] + items, k + 1) == [root] + Without(items, k)
    ensures k < |items| ==> |Without(items, k)| == |items| - 1
  {
  }

  class List {
    const root: ListNode
    var size: nat
    ghost var items: seq<ListNode>

    ghost predicate Valid()
      reads this, root, items
    {
      Ring([root] + items) && size == |items|
    }

    constructor ()
      ensures Valid() && items == [] && fresh(root)
    {
      var r := new ListNode();
      r.next, r.prev := r, r;
      root, size, items := r, 0, [];
    }

    /** clear_List: the nodes keep their links, but the list no longer has them. */
    method Clear()
      requires Valid()
      modifies this, root
      ensures Valid() && items == []
    {
      root.next, root.prev := root, root;
      size, items := 0, [];
    }

    method Front() returns (n: ListNode?)
      requires Valid()
      ensures Valid() && n == if items == [] then null else items[0]
    {
      RootLinks(root, items);
      n := if size > 0 then root.next else null;
    }

    method Back() returns (n: ListNode?)
      requires Valid()
      ensures Valid() && n == if items == [] then null else Last(items)
    {
      RootLinks(root, items);
      n := if size > 0 then root.prev else null;
    }

    /** insertAfter_List; without a node to go after, `node` becomes the last one. */
    method InsertAfter(after: ListNode?, node: ListNode, ghost k: nat)
      requires Valid() && node != root && node !in items
      requires if after == null then k == |items| else
              if after == root then k == 0 else 0 < k <= |items| && after == items[k - 1]
      modifies this, root, items, node
      ensures Valid() && items == With(old(items), k, node)
    {
      hide Ring, With;
      RootLinks(root, items);
      RootStaysFirst(root, items, k, node);
      var at := if after == null then root.prev else after;
      InsertAfterNode(node, at, [root] + items, k);
      size, items := size + 1, With(items, k, node);
    }

    /** insertBefore_List; without a node to go before, `node` becomes the first one. */
    method InsertBefore(before: ListNode?, node: ListNode, ghost k: nat)
      requires Valid() && node != root && node !in items
      requires if before == null then k == 0 else
              if before == root then k == |items| else k < |items| && before == items[k]
      modifies this, root, items, node
      ensures Valid() && items == With(old(items), k, node)
    {
      hide Ring, With;
      RootLinks(root, items);
      RootStaysFirst(root, items, k, node);
      var at := if before == null then root.next else before;
      InsertBeforeNode(node, at, [root] + items, k);
      size, items := size + 1, With(items, k, node);
    }

    method PushBack(node: ListNode)
      requires Valid() && node != root && node !in items
      modifies this, root, items, node
      ensures Valid() && items == old(items) + [node]
    {
      InsertBefore(root, node, |items|);
    }

    method PushFront(node: ListNode)
      requires Valid() && node != root && node !in items
      modifies this, root, items, node
      ensures Valid() && items == [node] + old(items)
    {
      InsertAfter(root, node, 0);
    }

    method Remove(node: ListNode, ghost k: nat)
      requires Valid() && k < |items| && node == items[k]
      modifies this, root, items
      ensures Valid() && items == Without(old(items), k) && node.next == null && node.prev == null
    {
      hide Ring, Without;
      RootStaysFirst(root, items, k, node);
      RemoveNode(node, [root] + items, k + 1);
      size, items := size - 1, Without(items, k);
    }

    method PopFront() returns (n: ListNode?)
      requires Valid()
      modifies this, root, items
      ensures Valid() && (n == if old(items) == [] then null else old(items)[0])
      ensures items == if old(items) == [] then [] else old(items)[1..]
    {
      n := Front();
      if n != null {
        Remove(n, 0);
      }
    }

    method PopBack() returns (n: ListNode?)
      requires Valid()
      modifies this, root, items
      ensures Valid() && (n == if old(items) == [] then null else Last(old(items)))
      ensures items == if old(items) == [] then [] else old(items)[..|old(items)| - 1]
    {
      n := Back();
      if n != null {
        Remove(n, |items| - 1);
      }
    }

    /** sort_List */
    method SortBy(cmp: Compare)
      requires Valid()
      modifies this, root, items
      ensures Valid() && items == Sort(old(items), cmp)
      ensures Ordering(cmp, Elems(old(items))) ==> StableSortOf(old(items), items, cmp)
    {
      hide Ring, Ordering, StableSortOf, Sort;
      ghost var s := items;
      SortHolds(s, cmp);
      if Ordering(cmp, Elems(s)) {
        SortIsTheStableOrder(s, Sort(s, cmp), cmp);
      }
      if size >= 2 {
        var start := Front();
        var end := Back();
        ghost var nodes := {root} + Elems(items);
        assert [root] + items == [root] + items + [];
        start, end := Quicksort(start, end, cmp, [root], items, [], nodes);
        items := Sort(items, cmp);
        assert [root] + items == [root] + items + [];
      } else {
        SortOne(s, cmp);
      }
    }
  }
}
