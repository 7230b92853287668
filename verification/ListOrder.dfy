/** What sorting a list of list.c means, apart from links. */
module ListOrder {
  import opened Sequences

  class ListNode {
    var next: ListNode?
    var prev: ListNode?

    constructor ()
      ensures next == null && prev == null
    {
      next, prev := null, null;
    }
  }

  /** iListCompareFunc */
  type Compare = (ListNode, ListNode) -> int

  /** The comparison orders the nodes of `s`, perhaps with ties. */
  ghost predicate Ordering(cmp: Compare, s: set<ListNode>) {
    && (forall x, y :: x in s && y in s ==> (cmp(x, y) > 0 <==> cmp(y, x) < 0))
    && (forall x, y, z :: x in s && y in s && z in s && cmp(x, y) <= 0 && cmp(y, z) <= 0 ==> cmp(x, z) <= 0)
  }

  predicate Sorted(s: seq<ListNode>, cmp: Compare) {
    forall i, j :: 0 <= i < j < |s| ==> cmp(s[i], s[j]) <= 0
  }

  /** The nodes of `s` that tie with `x`, in the order in which they stand. */
  function Ties(s: seq<ListNode>, x: ListNode, cmp: Compare): seq<ListNode> {
    if s == [] then [] else (if cmp(s[0], x) == 0 then [s[0]] else []) + Ties(s[1..], x, cmp)
  }

  // ---- Partitions ----

  function Low(s: seq<ListNode>, p: ListNode, cmp: Compare): (r: seq<ListNode>)
    ensures |r| <= |s|
  {
    if s == [] then [] else (if cmp(s[0], p) > 0 then [] else [s[0]]) + Low(s[1..], p, cmp)
  }

  function High(s: seq<ListNode>, p: ListNode, cmp: Compare): (r: seq<ListNode>)
    ensures |r| <= |s|
  {
    if s == [] then [] else (if cmp(s[0], p) > 0 then [s[0]] else []) + High(s[1..], p, cmp)
  }

  function Sort(s: seq<ListNode>, cmp: Compare): seq<ListNode>
    decreases |s|
  {
    if |s| <= 1 then s
    else
      var rest, p := s[..|s| - 1], s[|s| - 1];
      Sort(Low(rest, p, cmp), cmp) + [p] + Sort(High(rest, p, cmp), cmp)
  }

  lemma OneMore(n: ListNode, s: seq<ListNode>)
    ensures multiset([n] + s) == multiset{n} + multiset(s)
  {
  }

  lemma PartStep(s: seq<ListNode>, p: ListNode, cmp: Compare)
    ensures s == [] ==> Low(s, p, cmp) == [] && High(s, p, cmp) == []
    ensures s != [] ==>
              Low(s, p, cmp) == if cmp(s[0], p) <= 0 then [s[0]] + Low(s[1..], p, cmp) else Low(s[1..], p, cmp)
    ensures s != [] ==>
              High(s, p, cmp) == if cmp(s[0], p) <= 0 then High(s[1..], p, cmp) else [s[0]] + High(s[1..], p, cmp)
  {
  }

  lemma {:induction false} PartsHold(s: seq<ListNode>, p: ListNode, cmp: Compare)
    ensures multiset(Low(s, p, cmp)) + multiset(High(s, p, cmp)) == multiset(s)
    ensures forall n :: n in Low(s, p, cmp) ==> n in s && cmp(n, p) <= 0
    ensures forall n :: n in High(s, p, cmp) ==> n in s && cmp(n, p) > 0
  {
    PartStep(s, p, cmp);
    hide Low, High;
    if s != [] {
      PartsHold(s[1..], p, cmp);
      OneMore(s[0], s[1..]);
      OneMore(s[0], Low(s[1..], p, cmp));
      OneMore(s[0], High(s[1..], p, cmp));
      assert s == [s[0]] + s[1..];
    }
  }

  lemma {:induction false} SortHolds(s: seq<ListNode>, cmp: Compare)
    ensures multiset(Sort(s, cmp)) == multiset(s)
    ensures |Sort(s, cmp)| == |s|
    decreases |s|
  {
    hide Low, High;
    if |s| > 1 {
      var rest, p := s[..|s| - 1], s[|s| - 1];
      var low, high := Low(rest, p, cmp), High(rest, p, cmp);
      PartsHold(rest, p, cmp);
      SortHolds(low, cmp);
      SortHolds(high, cmp);
      JoinedParts(Sort(low, cmp), p, Sort(high, cmp), rest);
      assert s == rest + [p];
    }
    SameLength(Sort(s, cmp), s);
  }

  lemma JoinedParts(a: seq<ListNode>, p: ListNode, b: seq<ListNode>, rest: seq<ListNode>)
    requires multiset(a) + multiset(b) == multiset(rest)
    ensures multiset(a + [p] + b) == multiset(rest + [p])
  {
  }

  lemma SameLength(a: seq<ListNode>, b: seq<ListNode>)
    requires multiset(a) == multiset(b)
    ensures |a| == |b|
    ensures forall n :: n in a ==> n in b
    ensures forall n :: n in b ==> n in a
  {
    assert |a| == |multiset(a)| && |b| == |multiset(b)|;
    assert forall n :: n in a <==> n in multiset(a);
    assert forall n :: n in b <==> n in multiset(b);
  }

  // ---- Order ----

  lemma Flip(cmp: Compare, all: set<ListNode>, x: ListNode, y: ListNode)
    requires Ordering(cmp, all) && x in all && y in all
    ensures cmp(x, y) > 0 <==> cmp(y, x) < 0
    ensures cmp(x, y) == 0 <==> cmp(y, x) == 0
    ensures cmp(x, x) == 0
  {
  }

  lemma Chain(cmp: Compare, all: set<ListNode>, x: ListNode, y: ListNode, z: ListNode)
    requires Ordering(cmp, all) && x in all && y in all && z in all
    requires cmp(x, y) <= 0 && cmp(y, z) <= 0
    ensures cmp(x, z) <= 0
  {
  }

  lemma {:induction false} SortSorts(s: seq<ListNode>, cmp: Compare, all: set<ListNode>)
    requires Ordering(cmp, all) && Elems(s) <= all
    ensures Sorted(Sort(s, cmp), cmp)
    decreases |s|
  {
    hide Ordering, Low, High;
    if |s| > 1 {
      var rest, p := s[..|s| - 1], s[|s| - 1];
      var low, high := Low(rest, p, cmp), High(rest, p, cmp);
      PartsHold(rest, p, cmp);
      SortSorts(low, cmp, all);
      SortSorts(high, cmp, all);
      var a, b := Sort(low, cmp), Sort(high, cmp);
      SortHolds(low, cmp);
      SortHolds(high, cmp);
      SameLength(a, low);
      SameLength(b, high);
      assert forall n :: n in rest ==> n in s;
      Joined(a, p, b, cmp, all);
    }
  }

  lemma Joined(a: seq<ListNode>, p: ListNode, b: seq<ListNode>, cmp: Compare, all: set<ListNode>)
    requires Ordering(cmp, all) && p in all && Sorted(a, cmp) && Sorted(b, cmp)
    requires forall n :: n in a ==> n in all && cmp(n, p) <= 0
    requires forall n :: n in b ==> n in all && cmp(n, p) > 0
    ensures Sorted(a + [p] + b, cmp)
  {
    hide Ordering;
    var q := a + [p] + b;
    forall i, j | 0 <= i < j < |q|
      ensures cmp(q[i], q[j]) <= 0
    {
      if j < |a| || i > |a| {
      } else if j == |a| {
        assert q[i] in a;
      } else {
        assert q[j] in b;
        Flip(cmp, all, q[j], p);
        if i < |a| {
          assert q[i] in a;
          Chain(cmp, all, q[i], p, q[j]);
        }
      }
    }
  }

  // ---- Ties ----

  lemma {:induction false} TiesOfJoin(a: seq<ListNode>, b: seq<ListNode>, x: ListNode, cmp: Compare)
    ensures Ties(a + b, x, cmp) == Ties(a, x, cmp) + Ties(b, x, cmp)
  {
    if a == [] {
      assert a + b == b;
    } else {
      TieStep(a, b, x, cmp);
      TiesOfJoin(a[1..], b, x, cmp);
      hide Ties;
      Grouped(if cmp(a[0], x) == 0 then [a[0]] else [], Ties(a[1..], x, cmp), Ties(b, x, cmp));
    }
  }

  lemma TieStep(a: seq<ListNode>, b: seq<ListNode>, x: ListNode, cmp: Compare)
    requires a != []
    ensures var one := if cmp(a[0], x) == 0 then [a[0]] else [];
            Ties(a, x, cmp) == one + Ties(a[1..], x, cmp) && Ties(a + b, x, cmp) == one + Ties(a[1..] + b, x, cmp)
  {
    assert (a + b)[1..] == a[1..] + b;
  }

  /** A node that ties with `x` is on the same side of `p` as `x`. */
  lemma SameSide(n: ListNode, x: ListNode, p: ListNode, cmp: Compare, all: set<ListNode>)
    requires Ordering(cmp, all) && n in all && x in all && p in all && cmp(n, x) == 0
    ensures cmp(n, p) > 0 <==> cmp(x, p) > 0
  {
    hide Ordering;
    Flip(cmp, all, n, x);
    if cmp(n, p) <= 0 {
      Chain(cmp, all, x, n, p);
    }
    if cmp(x, p) <= 0 {
      Chain(cmp, all, n, x, p);
    }
  }

  /** All nodes that tie with `x` go to the same side of the pivot, in their order. */
  lemma {:induction false} TiesOfParts(s: seq<ListNode>, p: ListNode, x: ListNode, cmp: Compare, all: set<ListNode>)
    requires Ordering(cmp, all) && p in all && x in all && Elems(s) <= all
    ensures Ties(Low(s, p, cmp), x, cmp) == if cmp(x, p) > 0 then [] else Ties(s, x, cmp)
    ensures Ties(High(s, p, cmp), x, cmp) == if cmp(x, p) > 0 then Ties(s, x, cmp) else []
  {
    hide Ordering;
    if s != [] {
      var n, rest := s[0], s[1..];
      assert n in all && Elems(rest) <= all;
      TiesOfParts(rest, p, x, cmp, all);
      if cmp(n, x) == 0 {
        SameSide(n, x, p, cmp, all);
      }
      TiesOfJoin(if cmp(n, p) > 0 then [] else [n], Low(rest, p, cmp), x, cmp);
      TiesOfJoin(if cmp(n, p) > 0 then [n] else [], High(rest, p, cmp), x, cmp);
    }
  }

  /** Nodes that tie keep their order. */
  lemma {:induction false} SortIsStable(s: seq<ListNode>, x: ListNode, cmp: Compare, all: set<ListNode>)
    requires Ordering(cmp, all) && Elems(s) <= all && x in all
    ensures Ties(Sort(s, cmp), x, cmp) == Ties(s, x, cmp)
    decreases |s|
  {
    hide Ordering, Ties, Low, High;
    if |s| > 1 {
      var rest, p := s[..|s| - 1], s[|s| - 1];
      var low, high := Low(rest, p, cmp), High(rest, p, cmp);
      PartsHold(rest, p, cmp);
      SortIsStable(low, x, cmp, all);
      SortIsStable(high, x, cmp, all);
      TiesOfParts(rest, p, x, cmp, all);
      TiesOfJoin(Sort(low, cmp) + [p], Sort(high, cmp), x, cmp);
      TiesOfJoin(Sort(low, cmp), [p], x, cmp);
      TiesOfJoin(rest, [p], x, cmp);
      TieOfOne(p, x, cmp, all);
      assert s == rest + [p];
    }
  }

  lemma TieOfOne(p: ListNode, x: ListNode, cmp: Compare, all: set<ListNode>)
    requires Ordering(cmp, all) && p in all && x in all
    ensures cmp(x, p) > 0 ==> Ties([p], x, cmp) == []
  {
    hide Ordering;
    Flip(cmp, all, x, p);
  }

  /** Only one order of the same nodes is sorted and keeps ties in place. */
  lemma {:induction false} OneStableOrder(a: seq<ListNode>, b: seq<ListNode>, cmp: Compare, all: set<ListNode>)
    requires Ordering(cmp, all) && Elems(a) <= all
    requires multiset(a) == multiset(b) && Sorted(a, cmp) && Sorted(b, cmp)
    requires forall x :: x in all ==> Ties(a, x, cmp) == Ties(b, x, cmp)
    ensures a == b
  {
    hide Ordering, Ties;
    SameLength(a, b);
    if a != [] {
      var h := a[0];
      SameHead(a, b, cmp, all);
      WithoutHead(a, b, h);
      forall x | x in all
        ensures Ties(a[1..], x, cmp) == Ties(b[1..], x, cmp)
      {
        assert Ties(a, x, cmp) == Ties(b, x, cmp);
        TiesWithoutHead(a, b, x, cmp);
      }
      OneStableOrder(a[1..], b[1..], cmp, all);
    }
  }

  lemma WithoutHead(a: seq<ListNode>, b: seq<ListNode>, h: ListNode)
    requires a != [] && b != [] && a[0] == h == b[0] && multiset(a) == multiset(b)
    ensures multiset(a[1..]) == multiset(b[1..])
    ensures Elems(a[1..]) <= Elems(a)
  {
    assert a == [h] + a[1..] && b == [h] + b[1..];
    assert multiset(a[1..]) == multiset(a) - multiset{h} && multiset(b[1..]) == multiset(b) - multiset{h};
  }

  lemma TiesWithoutHead(a: seq<ListNode>, b: seq<ListNode>, x: ListNode, cmp: Compare)
    requires a != [] && b != [] && a[0] == b[0] && Ties(a, x, cmp) == Ties(b, x, cmp)
    ensures Ties(a[1..], x, cmp) == Ties(b[1..], x, cmp)
  {
    var k := if cmp(a[0], x) == 0 then 1 else 0;
    assert Ties(a[1..], x, cmp) == Ties(a, x, cmp)[k..];
    assert Ties(b[1..], x, cmp) == Ties(b, x, cmp)[k..];
  }

  lemma SameHead(a: seq<ListNode>, b: seq<ListNode>, cmp: Compare, all: set<ListNode>)
    requires Ordering(cmp, all) && Elems(a) <= all && |a| == |b| > 0
    requires forall n :: n in a <==> n in b
    requires Sorted(a, cmp) && Sorted(b, cmp)
    requires forall x :: x in all ==> Ties(a, x, cmp) == Ties(b, x, cmp)
    ensures a[0] == b[0]
  {
    hide Ordering;
    var h, g := a[0], b[0];
    assert h in b && g in a;
    Flip(cmp, all, h, g);
    assert cmp(h, g) <= 0 && cmp(g, h) <= 0;
    assert Ties(a, h, cmp)[0] == h && Ties(b, h, cmp)[0] == g;
  }

  /** `t` has the nodes of `s` in order, and those that tie in the order they had. */
  ghost predicate StableSortOf(s: seq<ListNode>, t: seq<ListNode>, cmp: Compare) {
    multiset(t) == multiset(s) && Sorted(t, cmp) && forall x :: x in Elems(s) ==> Ties(t, x, cmp) == Ties(s, x, cmp)
  }

  /** Sorting gives the one sorted order that keeps ties in place. */
  lemma SortIsTheStableOrder(s: seq<ListNode>, t: seq<ListNode>, cmp: Compare)
    requires Ordering(cmp, Elems(s))
    ensures t == Sort(s, cmp) <==> StableSortOf(s, t, cmp)
  {
    hide Ordering, Sort, Ties, Sorted;
    var q, all := Sort(s, cmp), Elems(s);
    SortHolds(s, cmp);
    SortSorts(s, cmp, all);
    SameLength(q, s);
    assert Elems(q) <= all;
    forall x | x in all
      ensures Ties(q, x, cmp) == Ties(s, x, cmp)
    {
      SortIsStable(s, x, cmp, all);
    }
    if StableSortOf(s, t, cmp) {
      OneStableOrder(q, t, cmp, all);
    }
  }
}
