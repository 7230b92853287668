/** The order of the nodes in a Map: searching, adding, replacing and dropping a node in a sorted
    tree, and the finite map from keys to nodes that a sorted sequence stands for. */
module MapOrder {
  import opened MapTree
  import opened RedBlack
  import opened NodeHeap
  import opened MapRepair
  import opened MapSwap

  type CmpFunc = (Key, Key) -> int

  ghost predicate OrderLaw(cmp: CmpFunc, a: Key, b: Key, c: Key) {
    && (cmp(a, b) < 0 <==> cmp(b, a) > 0)
    && (cmp(a, b) <= 0 && cmp(b, c) <= 0 ==> cmp(a, c) <= 0)
  }

  /** What a comparison function has to be for the order of keys to make sense. Two different
      keys may compare equal; the map then takes them for the same key. */
  ghost predicate TotalPreorder(cmp: CmpFunc) {
    forall a, b, c :: OrderLaw(cmp, a, b, c)
  }

  ghost predicate Sorted(cmp: CmpFunc, s: seq<MapNode>) {
    forall i, j :: 0 <= i < j < |s| ==> cmp(s[i].key, s[j].key) < 0
  }

  /** Every node of `s` comes before `k`, or after it. */
  ghost predicate AllBelow(cmp: CmpFunc, s: seq<MapNode>, k: Key) {
    forall n :: n in s ==> cmp(k, n.key) > 0
  }

  ghost predicate AllAbove(cmp: CmpFunc, s: seq<MapNode>, k: Key) {
    forall n :: n in s ==> cmp(k, n.key) < 0
  }

  /** In a sorted sequence a key above the middle node is above all before it, and the reverse. */
  lemma SortedAround(cmp: CmpFunc, p: seq<MapNode>, n: MapNode, q: seq<MapNode>, k: Key)
    requires TotalPreorder(cmp) && Sorted(cmp, p + [n] + q)
    ensures cmp(k, n.key) >= 0 ==> AllBelow(cmp, p, k)
    ensures cmp(k, n.key) <= 0 ==> AllAbove(cmp, q, k)
  {
    var s := p + [n] + q;
    assert s[|p|] == n;
    forall m | m in p && cmp(k, n.key) >= 0
      ensures cmp(k, m.key) > 0
    {
      var i :| 0 <= i < |p| && p[i] == m;
      assert s[i] == m;
      SortedPair(cmp, s, i, |p|, k);
    }
    forall m | m in q && cmp(k, n.key) <= 0
      ensures cmp(k, m.key) < 0
    {
      var i :| 0 <= i < |q| && q[i] == m;
      assert s[|p| + 1 + i] == m;
      SortedPair(cmp, s, |p|, |p| + 1 + i, k);
    }
  }

  lemma SortedPair(cmp: CmpFunc, s: seq<MapNode>, i: nat, j: nat, k: Key)
    requires TotalPreorder(cmp) && Sorted(cmp, s) && i < j < |s|
    ensures cmp(k, s[j].key) >= 0 ==> cmp(k, s[i].key) > 0
    ensures cmp(k, s[i].key) <= 0 ==> cmp(k, s[j].key) < 0
  {
    var a, b := s[i].key, s[j].key;
    assert cmp(a, b) < 0;
    assert OrderLaw(cmp, a, k, b) && OrderLaw(cmp, b, k, a) && OrderLaw(cmp, k, a, b) && OrderLaw(cmp, k, b, a);
    assert OrderLaw(cmp, a, b, k) && OrderLaw(cmp, b, a, k);
  }

  /** Going down on the side that the comparison tells leaves only nodes of the other side behind. */
  lemma Descend(cmp: CmpFunc, c: Ctx, t: Tree, k: Key)
    requires TotalPreorder(cmp) && t.Node? && Sorted(cmp, InOrder(Plug(c, t)))
    requires AllBelow(cmp, Pre(c), k) && AllAbove(cmp, Post(c), k)
    ensures cmp(k, t.n.key) < 0 ==> AllAbove(cmp, Post(Hole(c, t.n, t.black, L, t.r)), k)
    ensures cmp(k, t.n.key) > 0 ==> AllBelow(cmp, Pre(Hole(c, t.n, t.black, R, t.l)), k)
  {
    var p, q := Pre(c) + InOrder(t.l), InOrder(t.r) + Post(c);
    DescendOrder(c, t);
    hide *;
    SortedAround(cmp, p, t.n, q, k);
    AllAppend(cmp, [t.n], q, k);
    AllAppend(cmp, p, [t.n], k);
    AllAbove1(cmp, t.n, k);
  }

  lemma DescendOrder(c: Ctx, t: Tree)
    requires t.Node?
    ensures var p, q := Pre(c) + InOrder(t.l), InOrder(t.r) + Post(c);
            && InOrder(Plug(c, t)) == p + [t.n] + q
            && Post(Hole(c, t.n, t.black, L, t.r)) == [t.n] + q
            && Pre(Hole(c, t.n, t.black, R, t.l)) == p + [t.n]
  {
    PlugInOrder(c, t);
    Regroup(Pre(c), InOrder(t.l), t.n, InOrder(t.r), Post(c));
  }

  lemma Regroup(w: seq<MapNode>, a: seq<MapNode>, n: MapNode, b: seq<MapNode>, z: seq<MapNode>)
    ensures w + (a + [n] + b) + z == (w + a) + [n] + (b + z)
    ensures ([n] + b) + z == [n] + (b + z)
    ensures w + (a + [n]) == (w + a) + [n]
  {
  }

  lemma AllAbove1(cmp: CmpFunc, n: MapNode, k: Key)
    ensures AllAbove(cmp, [n], k) <==> cmp(k, n.key) < 0
    ensures AllBelow(cmp, [n], k) <==> cmp(k, n.key) > 0
  {
    assert n in [n];
  }

  lemma AllAppend(cmp: CmpFunc, a: seq<MapNode>, b: seq<MapNode>, k: Key)
    ensures AllBelow(cmp, a + b, k) <==> AllBelow(cmp, a, k) && AllBelow(cmp, b, k)
    ensures AllAbove(cmp, a + b, k) <==> AllAbove(cmp, a, k) && AllAbove(cmp, b, k)
  {
    forall n | n in a || n in b
      ensures n in a + b
    {
    }
  }

  /** The search has got to `t` and left only smaller and greater keys beside its path. */
  ghost predicate Searching(cmp: CmpFunc, tree: Tree, k: Key, c: Ctx, t: Tree) {
    Plug(c, t) == tree && AllBelow(cmp, Pre(c), k) && AllAbove(cmp, Post(c), k)
  }

  lemma SearchStep(cmp: CmpFunc, h: Heap, tree: Tree, k: Key, c: Ctx, t: Tree)
    requires Ordered(cmp, tree) && At(h, Top, tree)
    requires Searching(cmp, tree, k, c, t) && t.Node?
    ensures cmp(k, t.n.key) < 0 ==> Searching(cmp, tree, k, Hole(c, t.n, t.black, L, t.r), t.l)
    ensures cmp(k, t.n.key) > 0 ==> Searching(cmp, tree, k, Hole(c, t.n, t.black, R, t.l), t.r)
    ensures t.n in Nodes(tree) && t.n in h && h[t.n].left == Root(t.l) && h[t.n].right == Root(t.r)
    ensures Depth(c) + 1 <= Height(tree)
  {
    Descend(cmp, c, t, k);
    AtParts(h, c, t);
    PlugNodes(c, t);
    DepthHeight(c, t);
  }

  lemma SearchFails(cmp: CmpFunc, tree: Tree, k: Key, c: Ctx)
    requires Searching(cmp, tree, k, c, Leaf)
    ensures forall n :: n in Nodes(tree) ==> cmp(k, n.key) != 0
    ensures Depth(c) <= Height(tree)
  {
    DepthHeight(c, Leaf);
    PlugInOrder(c, Leaf);
    NodesInOrder(tree);
    forall n | n in Nodes(tree)
      ensures cmp(k, n.key) != 0
    {
      assert n in Pre(c) || n in Post(c);
    }
  }

  lemma VisitBound(tree: Tree, visits: nat)
    requires Rooted(tree, null) && visits <= Height(tree)
    ensures Pow2(visits) <= (Size(tree) + 1) * (Size(tree) + 1)
  {
    HeightBound(tree);
    Pow2Mono(visits, Height(tree));
  }

  // ---- What insertion does to the tree ----

  /** The new node hangs below the place where the search for its key ended. */
  lemma LinkNew(h: Heap, h': Heap, c: Ctx, n: MapNode)
    requires At(h, c, Leaf) && h.Keys == CtxNodes(c) && n !in CtxNodes(c)
    requires h'.Keys == h.Keys + {n} && h'[n] == Cell(UpNode(c), null, null, false)
    requires c.Hole? ==> c.n in h && h'[c.n] == h[c.n].WithKid(c.side, n)
    requires forall m :: m in h && m != UpNode(c) ==> h'[m] == h[m]
    ensures At(h', c, Node(n, false, Leaf, Leaf))
    ensures Nodes(Plug(c, Node(n, false, Leaf, Leaf))) == h'.Keys
  {
    AtParts(h, c, Leaf);
    RepCtxRelink(h, h', c, null, n);
    AtParts(h', c, Node(n, false, Leaf, Leaf));
    PlugNodes(c, Node(n, false, Leaf, Leaf));
  }

  lemma NewNodeOffends(c: Ctx, n: MapNode)
    requires Rooted(Plug(c, Leaf), null)
    ensures Inserted(c, Node(n, false, Leaf, Leaf))
  {
    PlugRooted(c, Leaf, null);
  }

  /** The order gets the new node where it belongs. */
  lemma NewNodeOrder(cmp: CmpFunc, tree: Tree, c: Ctx, n: MapNode)
    requires TotalPreorder(cmp) && Sorted(cmp, InOrder(tree)) && Searching(cmp, tree, n.key, c, Leaf)
    ensures InOrder(tree) == Pre(c) + Post(c)
    ensures var t' := Plug(c, Node(n, false, Leaf, Leaf));
            && InOrder(t') == Pre(c) + [n] + Post(c)
            && Sorted(cmp, InOrder(t'))
            && Size(t') == Size(tree) + 1
  {
    var t' := Plug(c, Node(n, false, Leaf, Leaf));
    assert InOrder(tree) == Pre(c) + Post(c) by {
      PlugInOrder(c, Leaf);
    }
    assert InOrder(t') == Pre(c) + [n] + Post(c) by {
      PlugInOrder(c, Node(n, false, Leaf, Leaf));
      assert InOrder(Node(n, false, Leaf, Leaf)) == [n];
    }
    assert Size(t') == Size(tree) + 1 by {
      NodesInOrder(tree);
      NodesInOrder(t');
    }
    SortedInsert(cmp, Pre(c), n, Post(c));
  }

  lemma SortedInsert(cmp: CmpFunc, p: seq<MapNode>, n: MapNode, q: seq<MapNode>)
    requires TotalPreorder(cmp) && Sorted(cmp, p + q)
    requires AllBelow(cmp, p, n.key) && AllAbove(cmp, q, n.key)
    ensures Sorted(cmp, p + [n] + q)
  {
    var s, s' := p + q, p + [n] + q;
    forall i, j | 0 <= i < j < |s'|
      ensures cmp(s'[i].key, s'[j].key) < 0
    {
      if i == |p| {
        assert s'[j] in q;
      } else if j == |p| {
        assert s'[i] in p;
        assert OrderLaw(cmp, s'[i].key, n.key, n.key);
      } else {
        var i', j' := if i < |p| then i else i - 1, if j < |p| then j else j - 1;
        assert s[i'] == s'[i] && s[j'] == s'[j];
      }
    }
  }

  /** The writes of replaceNode_Map_ and of the branch around it in insertNode_Map_. */
  ghost function ReplaceH(h: Heap, o: MapNode, n: MapNode): (r: Heap)
    requires o in h && n in h
    requires h[o].parent != null ==> h[o].parent in h
    requires h[o].left != null ==> h[o].left in h
    requires h[o].right != null ==> h[o].right in h
    ensures r.Keys == h.Keys
  {
    var up := h[o].parent;
    var h1 := if up != null then SetKid(h, up, SideUnder(h, up, o), n) else h;
    var h2 := SetParent(h1, n, up);
    var h3 := SetChildH(h2, n, L, h[o].left);
    var h4 := SetChildH(h3, n, R, h[o].right);
    SetBlack(h4, n, h[o].black)
  }

  /** Node `o` is none of its neighbours, and its parent none of its children. */
  ghost predicate Roomy(h: Heap, o: MapNode) {
    && o in h && h[o].parent != o && h[o].left != o && h[o].right != o
    && (h[o].parent != null ==> h[o].parent in h && h[o].parent != h[o].left && h[o].parent != h[o].right)
    && (h[o].left != null ==> h[o].left in h)
    && (h[o].right != null ==> h[o].right in h)
  }

  lemma ReplaceCell(h: Heap, o: MapNode, n: MapNode, m: MapNode)
    requires Roomy(h, o) && n in h && m in h && m != n
    requires h[o].parent != n && h[o].left != n && h[o].right != n
    ensures ReplaceH(h, o, n)[m]
         == if m == h[o].parent then h[m].WithKid(SideUnder(h, m, o), n)
            else if m == h[o].left || m == h[o].right then h[m].(parent := n)
            else h[m]
  {
  }

  lemma ReplaceOwnCell(h: Heap, o: MapNode, n: MapNode)
    requires Roomy(h, o) && n in h
    requires h[o].parent != n && h[o].left != n && h[o].right != n
    ensures ReplaceH(h, o, n)[n] == h[o]
  {
  }

  /** The node at `t` and its neighbours. */
  lemma NeighboursAt(h: Heap, c: Ctx, t: Tree)
    requires At(h, c, t) && t.Node?
    ensures Roomy(h, t.n) && h[t.n] == Cell(UpNode(c), Root(t.l), Root(t.r), t.black)
    ensures c.Hole? ==> c.n in h && SideUnder(h, c.n, t.n) == c.side && h[c.n].Kid(c.side) == t.n
    ensures t.l.Node? ==> h[t.l.n].parent == t.n
    ensures t.r.Node? ==> h[t.r.n].parent == t.n
  {
    AtParts(h, c, t);
    LowestLink(h, c, t.n);
    RootsIn(c, t);
  }

  lemma RootsIn(c: Ctx, t: Tree)
    requires t.Node?
    ensures t.n in Nodes(t) && Nodes(t.l) <= Nodes(t) && Nodes(t.r) <= Nodes(t)
    ensures t.l.Node? ==> t.l.n in Nodes(t.l)
    ensures t.r.Node? ==> t.r.n in Nodes(t.r)
    ensures c.Hole? ==> c.n in CtxNodes(c)
  {
  }

  /** A node that takes its own place changes nothing. */
  lemma ReplaceSelf(h: Heap, c: Ctx, t: Tree)
    requires At(h, c, t) && t.Node?
    ensures ReplaceH.requires(h, t.n, t.n) && ReplaceH(h, t.n, t.n) == h
  {
    hide At;
    NeighboursAt(h, c, t);
    var o := t.n;
    if c.Hole? {
      assert SetKid(h, c.n, SideUnder(h, c.n, o), o) == h;
    }
    assert SetParent(h, o, UpNode(c)) == h;
    assert SetChildH(h, o, L, Root(t.l)) == h;
    assert SetChildH(h, o, R, Root(t.r)) == h;
    assert SetBlack(h, o, t.black) == h;
  }

  lemma ReplaceAt(h: Heap, c: Ctx, t: Tree, n: MapNode)
    requires At(h, c, t) && t.Node? && n in h && n !in Nodes(Plug(c, t))
    ensures ReplaceH.requires(h, t.n, n)
    ensures At(ReplaceH(h, t.n, n), c, t.(n := n))
    ensures Nodes(Plug(c, t.(n := n))) == Nodes(Plug(c, t)) - {t.n} + {n}
  {
    hide At, RepCtx, ReplaceH;
    NeighboursAt(h, c, t);
    AtParts(h, c, t);
    PlugNodes(c, t);
    hide Plug, RepCtx, CtxDis, CtxNodes, ReplaceH, At, Roomy;
    var h' := ReplaceH(h, t.n, n);
    ReplacedKid(h, c, t, n, t.l);
    ReplacedKid(h, c, t, n, t.r);
    ReplacedCtx(h, c, t, n);
    ReplaceOwnCell(h, t.n, n);
    PlugNodes(c, t.(n := n));
    AtParts(h', c, t.(n := n));
  }

  // The pieces around a node that is taken over get the new parent or link they need.

  lemma ReplacedKid(h: Heap, c: Ctx, t: Tree, n: MapNode, kid: Tree)
    requires At(h, c, t) && t.Node? && n in h && n !in Nodes(Plug(c, t)) && (kid == t.l || kid == t.r)
    ensures ReplaceH.requires(h, t.n, n) && Rep(ReplaceH(h, t.n, n), kid, n)
  {
    NeighboursAt(h, c, t);
    AtParts(h, c, t);
    PlugNodes(c, t);
    RootsIn(c, t);
    hide Plug, RepCtx, CtxDis, CtxNodes, ReplaceH, At, Rep;
    var h' := ReplaceH(h, t.n, n);
    forall m | m in Nodes(kid) && m in h
      ensures m in h' && h'[m] == if m == Root(kid) then h[m].(parent := n) else h[m]
    {
      ReplaceCell(h, t.n, n, m);
    }
    RepReparent(h, h', kid, t.n, n);
  }

  lemma ReplacedCtx(h: Heap, c: Ctx, t: Tree, n: MapNode)
    requires At(h, c, t) && t.Node? && n in h && n !in Nodes(Plug(c, t))
    ensures ReplaceH.requires(h, t.n, n) && RepCtx(ReplaceH(h, t.n, n), c, n)
  {
    NeighboursAt(h, c, t);
    AtParts(h, c, t);
    PlugNodes(c, t);
    RootsIn(c, t);
    hide Plug, RepCtx, CtxDis, CtxNodes, ReplaceH, At, Rep;
    var h' := ReplaceH(h, t.n, n);
    forall m | m in CtxNodes(c) && m in h
      ensures m in h' && h'[m] == if m == UpNode(c) then h[m].WithKid(c.side, n) else h[m]
    {
      ReplaceCell(h, t.n, n, m);
    }
    RepCtxRelink(h, h', c, t.n, n);
  }

  /** A node with an equal key can stand in for the old one. */
  lemma ReplaceRooted(c: Ctx, t: Tree, n: MapNode)
    requires t.Node? && Rooted(Plug(c, t), null)
    ensures Rooted(Plug(c, t.(n := n)), null)
  {
    PlugRooted(c, t, null);
    PlugRooted(c, t.(n := n), null);
  }

  lemma ReplaceOrder(c: Ctx, t: Tree, n: MapNode) returns (p: seq<MapNode>, q: seq<MapNode>)
    requires t.Node?
    ensures InOrder(Plug(c, t)) == p + [t.n] + q
    ensures InOrder(Plug(c, t.(n := n))) == p + [n] + q
    ensures Size(Plug(c, t.(n := n))) == Size(Plug(c, t))
  {
    hide Mk;
    p, q := Pre(c) + InOrder(t.l), InOrder(t.r) + Post(c);
    assert InOrder(Plug(c, t)) == p + [t.n] + q by {
      PlugInOrder(c, t);
    }
    assert InOrder(Plug(c, t.(n := n))) == p + [n] + q by {
      PlugInOrder(c, t.(n := n));
    }
    assert Size(Plug(c, t.(n := n))) == Size(Plug(c, t)) by {
      NodesInOrder(Plug(c, t));
      NodesInOrder(Plug(c, t.(n := n)));
    }
  }

  lemma SortedReplace(cmp: CmpFunc, p: seq<MapNode>, o: MapNode, n: MapNode, q: seq<MapNode>)
    requires TotalPreorder(cmp) && Sorted(cmp, p + [o] + q) && cmp(n.key, o.key) == 0
    ensures Sorted(cmp, p + [n] + q)
  {
    SortedAround(cmp, p, o, q, n.key);
    SortedDrop(cmp, p, o, q);
    SortedInsert(cmp, p, n, q);
  }

  lemma SortedDrop(cmp: CmpFunc, p: seq<MapNode>, n: MapNode, q: seq<MapNode>)
    requires Sorted(cmp, p + [n] + q)
    ensures Sorted(cmp, p + q)
  {
    var s, s' := p + [n] + q, p + q;
    forall i, j | 0 <= i < j < |s'|
      ensures cmp(s'[i].key, s'[j].key) < 0
    {
      var i', j' := if i < |p| then i else i + 1, if j < |p| then j else j + 1;
      assert s[i'] == s'[i] && s[j'] == s'[j];
    }
  }

  // ---- The map from keys to nodes ----

  ghost predicate DistinctKeys(s: seq<MapNode>) {
    forall i, j :: 0 <= i < j < |s| ==> s[i].key != s[j].key
  }

  ghost function ByKey(s: seq<MapNode>): map<Key, MapNode>
    requires DistinctKeys(s)
  {
    map i | 0 <= i < |s| :: s[i].key := s[i]
  }

  /** The keys of `m` that the map cannot tell from `k`. */
  ghost function Same(cmp: CmpFunc, m: map<Key, MapNode>, k: Key): set<Key> {
    set k' | k' in m && cmp(k, k') == 0
  }

  lemma SortedDistinct(cmp: CmpFunc, s: seq<MapNode>)
    requires TotalPreorder(cmp) && Sorted(cmp, s)
    ensures DistinctKeys(s)
  {
    forall i, j | 0 <= i < j < |s|
      ensures s[i].key != s[j].key
    {
      assert OrderLaw(cmp, s[i].key, s[j].key, s[i].key);
    }
  }

  lemma {:induction false} ByKeySize(s: seq<MapNode>)
    requires DistinctKeys(s)
    ensures |ByKey(s)| == |s|
  {
    if s != [] {
      var init, last := s[..|s| - 1], s[|s| - 1];
      assert s == init + [last];
      ByKeySize(init);
      ByKeyUpdate(init, s, last);
    }
  }

  lemma ByKeyMiddle(cmp: CmpFunc, p: seq<MapNode>, n: MapNode, q: seq<MapNode>)
    requires TotalPreorder(cmp) && Sorted(cmp, p + [n] + q)
    ensures Sorted(cmp, p + q) && DistinctKeys(p + q) && DistinctKeys(p + [n] + q)
    ensures n.key !in ByKey(p + q)
    ensures ByKey(p + [n] + q) == ByKey(p + q)[n.key := n]
  {
    SortedDrop(cmp, p, n, q);
    SortedDistinct(cmp, p + q);
    SortedDistinct(cmp, p + [n] + q);
    SortedAround(cmp, p, n, q, n.key);
    assert OrderLaw(cmp, n.key, n.key, n.key);
    assert forall m :: m in p + q ==> m.key != n.key;
    ByKeyUpdate(p + q, p + [n] + q, n);
  }

  lemma ByKeyEntries(s: seq<MapNode>)
    requires DistinctKeys(s)
    ensures forall m :: m in s ==> m.key in ByKey(s) && ByKey(s)[m.key] == m
    ensures forall k :: k in ByKey(s) ==> ByKey(s)[k] in s && ByKey(s)[k].key == k
  {
  }

  lemma ByKeyUpdate(s: seq<MapNode>, s': seq<MapNode>, n: MapNode)
    requires DistinctKeys(s) && DistinctKeys(s')
    requires forall m :: m in s' <==> m in s || m == n
    requires forall m :: m in s ==> m.key != n.key
    ensures n.key !in ByKey(s) && ByKey(s') == ByKey(s)[n.key := n]
  {
    ByKeyEntries(s);
    ByKeyEntries(s');
    assert n in s';
    forall k | k in ByKey(s')
      ensures k == n.key || k in ByKey(s)
    {
      assert ByKey(s')[k] in s || ByKey(s')[k] == n;
    }
    forall k | k in ByKey(s)
      ensures k in ByKey(s') && ByKey(s')[k] == ByKey(s)[k]
    {
      assert ByKey(s)[k] in s';
    }
  }

  /** Only the node with an equal key is found for a key. */
  lemma SameMiddle(cmp: CmpFunc, p: seq<MapNode>, n: MapNode, q: seq<MapNode>, k: Key)
    requires TotalPreorder(cmp) && Sorted(cmp, p + [n] + q) && cmp(k, n.key) == 0
    ensures DistinctKeys(p + [n] + q)
    ensures Same(cmp, ByKey(p + [n] + q), k) == {n.key}
  {
    SortedAround(cmp, p, n, q, k);
    SortedDistinct(cmp, p + [n] + q);
    var s := p + [n] + q;
    assert s[|p|] == n;
    forall i | 0 <= i < |s| && i != |p|
      ensures cmp(k, s[i].key) != 0
    {
      assert s[i] in p || s[i] in q;
    }
  }

  lemma SameNone(cmp: CmpFunc, s: seq<MapNode>, k: Key)
    requires DistinctKeys(s) && forall n :: n in s ==> cmp(k, n.key) != 0
    ensures Same(cmp, ByKey(s), k) == {}
  {
  }

  /** Everything about a tree that does not mention the heap: what a Map keeps true. */
  ghost predicate Ordered(cmp: CmpFunc, tree: Tree) {
    TotalPreorder(cmp) && Rooted(tree, null) && Sorted(cmp, InOrder(tree))
  }

  ghost function KeyMap(cmp: CmpFunc, tree: Tree): map<Key, MapNode>
    requires Ordered(cmp, tree)
  {
    SortedDistinct(cmp, InOrder(tree));
    ByKey(InOrder(tree))
  }

  lemma KeyMapSize(cmp: CmpFunc, tree: Tree)
    requires Ordered(cmp, tree)
    ensures |KeyMap(cmp, tree)| == Size(tree)
  {
    SortedDistinct(cmp, InOrder(tree));
    ByKeySize(InOrder(tree));
    NodesInOrder(tree);
  }

  lemma ReplaceOrdered(cmp: CmpFunc, c: Ctx, t: Tree, n: MapNode)
    requires Ordered(cmp, Plug(c, t)) && t.Node? && cmp(n.key, t.n.key) == 0
    ensures var t' := Plug(c, t.(n := n));
            && Ordered(cmp, t') && Size(t') == Size(Plug(c, t))
            && Same(cmp, KeyMap(cmp, Plug(c, t)), n.key) == {t.n.key}
            && t.n.key in KeyMap(cmp, Plug(c, t)) && KeyMap(cmp, Plug(c, t))[t.n.key] == t.n
            && KeyMap(cmp, t') == (KeyMap(cmp, Plug(c, t)) - {t.n.key})[n.key := n]
  {
    var p, q := ReplaceOrder(c, t, n);
    ReplaceRooted(c, t, n);
    SortedReplace(cmp, p, t.n, n, q);
    ByKeyMiddle(cmp, p, t.n, q);
    ByKeyMiddle(cmp, p, n, q);
    assert Ordered(cmp, Plug(c, t.(n := n)));
    assert KeyMap(cmp, Plug(c, t)) == ByKey(p + [t.n] + q);
    assert KeyMap(cmp, Plug(c, t.(n := n))) == ByKey(p + [n] + q);
    hide Ordered, KeyMap, Plug, Sorted, ByKey, Same, Size, InOrder;
    SameMiddle(cmp, p, t.n, q, n.key);
    MapMinus(ByKey(p + [t.n] + q), ByKey(p + q), t.n.key, t.n);
  }

  lemma InsertOrdered(cmp: CmpFunc, tree: Tree, c: Ctx, n: MapNode, tree': Tree)
    requires Ordered(cmp, tree) && Searching(cmp, tree, n.key, c, Leaf)
    requires Rooted(tree', null) && InOrder(tree') == InOrder(Plug(c, Node(n, false, Leaf, Leaf)))
    ensures Ordered(cmp, tree') && Size(tree') == Size(tree) + 1
    ensures Same(cmp, KeyMap(cmp, tree), n.key) == {}
    ensures KeyMap(cmp, tree') == KeyMap(cmp, tree)[n.key := n]
  {
    NewNodeOrder(cmp, tree, c, n);
    ByKeyMiddle(cmp, Pre(c), n, Post(c));
    SearchFails(cmp, tree, n.key, c);
    NodesInOrder(tree);
    NodesInOrder(tree');
    NodesInOrder(Plug(c, Node(n, false, Leaf, Leaf)));
    SortedDistinct(cmp, InOrder(tree));
    SameNone(cmp, InOrder(tree), n.key);
  }

  lemma RemoveOrdered(cmp: CmpFunc, tree: Tree, p: seq<MapNode>, n: MapNode, q: seq<MapNode>, tree': Tree)
    requires Ordered(cmp, tree) && InOrder(tree) == p + [n] + q
    requires Rooted(tree', null) && InOrder(tree') == p + q
    ensures Ordered(cmp, tree') && Size(tree') + 1 == Size(tree)
    ensures n.key in KeyMap(cmp, tree) && KeyMap(cmp, tree)[n.key] == n
    ensures KeyMap(cmp, tree') == KeyMap(cmp, tree) - {n.key}
  {
    SizeDrop(tree, p, n, q, tree');
    ByKeyMiddle(cmp, p, n, q);
    assert Ordered(cmp, tree');
    assert KeyMap(cmp, tree) == ByKey(p + [n] + q);
    assert KeyMap(cmp, tree') == ByKey(p + q);
    hide *;
    MapMinus(ByKey(p + [n] + q), ByKey(p + q), n.key, n);
  }

  lemma MapMinus(m: map<Key, MapNode>, m': map<Key, MapNode>, k: Key, n: MapNode)
    requires k !in m' && m == m'[k := n]
    ensures k in m && m[k] == n && m' == m - {k}
  {
  }

  lemma SizeDrop(tree: Tree, p: seq<MapNode>, n: MapNode, q: seq<MapNode>, tree': Tree)
    requires InOrder(tree) == p + [n] + q && InOrder(tree') == p + q
    ensures Size(tree') + 1 == Size(tree)
  {
    NodesInOrder(tree);
    NodesInOrder(tree');
    hide *;
    assert |p + [n] + q| == |p + q| + 1;
  }

  /** The values of the map are the nodes of the tree, each under its own key. */
  lemma KeyMapNodes(cmp: CmpFunc, tree: Tree)
    requires Ordered(cmp, tree)
    ensures KeyMap(cmp, tree).Values == Nodes(tree)
    ensures forall n :: n in Nodes(tree) ==> n.key in KeyMap(cmp, tree) && KeyMap(cmp, tree)[n.key] == n
    ensures forall k :: k in KeyMap(cmp, tree) ==> KeyMap(cmp, tree)[k].key == k
  {
    hide ByKey, InOrder, IsBlack, Nodes, OrderLaw, RB, Size, Sorted, TotalPreorder;
    var s := InOrder(tree);
    SortedDistinct(cmp, s);
    ByKeyEntries(s);
    NodesInOrder(tree);
    var m := KeyMap(cmp, tree);
    forall n | n in Nodes(tree)
      ensures n in m.Values
    {
      assert n in s;
      assert m[n.key] == n;
    }
  }
}
