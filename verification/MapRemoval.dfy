/** Removing a node of a Map with at most one child (removeNodeWithZeroOrOneChild_Map_), and moving
    one with two children to such a place first. */
module MapRemoval {
  import opened MapTree
  import opened RedBlack
  import opened NodeHeap
  import opened MapRepair
  import opened MapSwap
  import opened Sequences

  // ---- Orders without repetition ----

  ghost predicate NoDup(s: seq<MapNode>) {
    forall i, j :: 0 <= i < j < |s| ==> s[i] != s[j]
  }

  lemma NoDupAppend(a: seq<MapNode>, b: seq<MapNode>)
    requires NoDup(a) && NoDup(b) && Elems(a) !! Elems(b)
    ensures NoDup(a + b)
  {
    forall i, j | 0 <= i < j < |a + b|
      ensures (a + b)[i] != (a + b)[j]
    {
      assert i < |a| <= j ==> (a + b)[i] in Elems(a) && (a + b)[j] in Elems(b);
    }
  }

  lemma {:induction false} DisNoDup(t: Tree)
    requires Dis(t)
    ensures NoDup(InOrder(t))
  {
    if t.Node? {
      DisNoDup(t.l);
      DisNoDup(t.r);
      NodesInOrder(t.l);
      NodesInOrder(t.r);
      NoDupAppend(InOrder(t.l), [t.n]);
      assert Elems(InOrder(t.l) + [t.n]) == Nodes(t.l) + {t.n};
      NoDupAppend(InOrder(t.l) + [t.n], InOrder(t.r));
    }
  }

  lemma UniqueSplit(p: seq<MapNode>, n: MapNode, q: seq<MapNode>, p': seq<MapNode>, q': seq<MapNode>)
    requires p + [n] + q == p' + [n] + q' && NoDup(p + [n] + q)
    ensures p == p' && q == q'
  {
    var s := p + [n] + q;
    assert s[|p|] == n && s[|p'|] == n;
    assert |p| == |p'|;
    assert p == s[..|p|] && p' == s[..|p|];
    assert q == s[|p| + 1..] && q' == s[|p| + 1..];
  }

  // ---- Heap and order around the node ----

  /** replaceNode_Map_ on a node and its only child. */
  ghost function SpliceH(h: Heap, n: MapNode, k: MapNode): (r: Heap)
    requires n in h && k in h
    requires h[n].parent != null ==> h[n].parent in h
    ensures r.Keys == h.Keys
  {
    var up := h[n].parent;
    SetParent(if up != null then SetKid(h, up, SideUnder(h, up, n), k) else h, k, up)
  }

  lemma SpliceAt(h: Heap, c: Ctx, s: Tree, side: Side)
    requires At(h, c, s) && s.Node? && Sub(s, side).Node? && Sub(s, side.Flip()).Leaf?
    ensures s.n in h && Sub(s, side).n in h && h[s.n].parent == UpNode(c) && (c.Hole? ==> c.n in h)
    ensures At(SpliceH(h, s.n, Sub(s, side).n), c, Sub(s, side))
  {
    AtParts(h, c, s);
    var k := Sub(s, side);
    assert Rep(h, k, s.n);
    var h' := SpliceH(h, s.n, k.n);
    LowestLink(h, c, s.n);
    RepReparent(h, h', k, s.n, UpNode(c));
    RepCtxRelink(h, h', c, s.n, k.n);
    AtParts(h', c, k);
  }

  lemma UnlinkAt(h: Heap, c: Ctx, s: Tree)
    requires At(h, c, s) && s.Node? && c.Hole?
    ensures c.n in h
    ensures At(SetKid(h, c.n, SideUnder(h, c.n, s.n), null), c, Leaf)
  {
    AtParts(h, c, s);
    LowestLink(h, c, s.n);
    RepCtxRelink(h, SetKid(h, c.n, c.side, null), c, s.n, null);
    AtParts(SetKid(h, c.n, c.side, null), c, Leaf);
  }

  /** The only child is red and takes over the black of its parent. */
  lemma LoneChildRooted(c: Ctx, s: Tree, side: Side)
    requires Rooted(Plug(c, s), null)
    requires s.Node? && Sub(s, side).Node? && Sub(s, side.Flip()).Leaf?
    ensures s.black && !Sub(s, side).black
    ensures Rooted(Plug(c, Sub(s, side).(black := true)), null)
  {
    PlugRooted(c, s, null);
    LoneChild(s, side);
    PlugRooted(c, Sub(s, side).(black := true), null);
  }

  /** A red node without children can just go. */
  lemma RedLeafRooted(c: Ctx, s: Tree)
    requires Rooted(Plug(c, s), null) && s.Node? && !s.black && s.l.Leaf? && s.r.Leaf?
    ensures c.Hole? && Rooted(Plug(c, Leaf), null)
  {
    PlugRooted(c, s, null);
    PlugRooted(c, Leaf, null);
  }

  /** A black one leaves its place a black node short. */
  lemma BlackLeafDeficient(c: Ctx, s: Tree)
    requires Rooted(Plug(c, s), null) && Dis(Plug(c, s))
    requires s.Node? && s.black && s.l.Leaf? && s.r.Leaf?
    ensures Deficient(c, s, s.n)
  {
    PlugRooted(c, s, null);
    PlugNodes(c, s);
    CtxWithout(c, s.n, 1);
  }

  lemma SpliceOrder(c: Ctx, s: Tree, side: Side) returns (p: seq<MapNode>, q: seq<MapNode>)
    requires s.Node? && Sub(s, side.Flip()).Leaf?
    ensures InOrder(Plug(c, s)) == p + [s.n] + q
    ensures InOrder(Plug(c, Sub(s, side))) == p + q
    ensures Nodes(Plug(c, Sub(s, side))) + {s.n} == Nodes(Plug(c, s))
  {
    p, q := Pre(c) + InOrder(s.l), InOrder(s.r) + Post(c);
    PlugInOrder(c, s);
    PlugInOrder(c, Sub(s, side));
    Around(Pre(c), InOrder(s.l), s.n, InOrder(s.r), Post(c));
    PlugNodes(c, s);
    PlugNodes(c, Sub(s, side));
  }

  lemma Around(w: seq<MapNode>, a: seq<MapNode>, n: MapNode, b: seq<MapNode>, z: seq<MapNode>)
    ensures w + (a + [n] + b) + z == (w + a) + [n] + (b + z)
    ensures a == [] ==> w + b + z == (w + a) + (b + z)
    ensures b == [] ==> w + a + z == (w + a) + (b + z)
  {
  }

  lemma BlackenOrder(c: Ctx, k: Tree)
    requires k.Node?
    ensures InOrder(Plug(c, k.(black := true))) == InOrder(Plug(c, k))
    ensures Nodes(Plug(c, k.(black := true))) == Nodes(Plug(c, k))
  {
    PlugInOrder(c, k);
    PlugInOrder(c, k.(black := true));
    PlugNodes(c, k);
    PlugNodes(c, k.(black := true));
  }

  lemma SpliceNodes(c: Ctx, s: Tree, side: Side)
    requires Dis(Plug(c, s)) && s.Node? && Sub(s, side.Flip()).Leaf?
    ensures Nodes(Plug(c, Sub(s, side))) == Nodes(Plug(c, s)) - {s.n}
    ensures Sub(s, side).Node? ==>
              Nodes(Plug(c, Sub(s, side).(black := true))) == Nodes(Plug(c, s)) - {s.n}
  {
    PlugNodes(c, s);
    PlugNodes(c, Sub(s, side));
    if Sub(s, side).Node? {
      PlugNodes(c, Sub(s, side).(black := true));
    }
  }

  // ---- The methods ----

  /** What is known about a place before its node goes. */
  ghost predicate Place(tree: Tree, c: Ctx, s: Tree, side: Side) {
    Plug(c, s) == tree && s.Node? && Sub(s, side.Flip()).Leaf?
  }

  /** The branch with a child: it moves up and becomes black. */
  method Splice(node: MapNode, child: MapNode, ghost nodes: set<MapNode>, ghost tree: Tree,
                ghost c: Ctx, ghost s: Tree, ghost side: Side)
    returns (ghost tree': Tree)
    requires Whole(nodes, tree) && Rooted(tree, null) && Place(tree, c, s, side)
    requires s.n == node && Root(Sub(s, side)) == child
    modifies nodes
    ensures tree' == Plug(c, Sub(s, side).(black := true)) && Rooted(tree', null)
    ensures At(Snap(nodes), Top, tree') && Nodes(tree') == nodes - {node}
  {
    SpliceNodes(c, s, side);
    ghost var h := Snap(nodes);
    ghost var k := Sub(s, side);
    LoneChildRooted(c, s, side);
    assert At(h, c, s);
    SpliceAt(h, c, s, side);
    tree' := Plug(c, k.(black := true));
    RecolourAt(SpliceH(h, node, child), c, k, true);
    AtParts(h, c, s);
    hide At, Rep, RepCtx, RB, BH, CtxRB, Dis, CtxDis, Nodes, CtxNodes, Plug;
    var up := node.parent;
    if up != null {
      LinkKid(up, if up.left == node then L else R, child, nodes);
    }
    LinkParent(child, up, nodes);
    if node.black {
      if !child.black {
        Paint(child, true, nodes);
      } else {
        // An only child is always red, so the call of the repair loop here is never made.
        assert false;
      }
    }
  }

  /** Cutting the link to a node without children takes exactly that node out. */
  lemma CutFacts(h: Heap, tree: Tree, c: Ctx, s: Tree) returns (p: seq<MapNode>, q: seq<MapNode>)
    requires At(h, Top, tree) && Place(tree, c, s, L) && s.l.Leaf?
    ensures s.n in h && h[s.n].parent == UpNode(c)
    ensures c.Hole? ==> c.n in h && At(SetKid(h, c.n, SideUnder(h, c.n, s.n), null), Top, Plug(c, Leaf))
    ensures c.Top? ==> At(h, Top, Plug(c, Leaf))
    ensures InOrder(tree) == p + [s.n] + q && InOrder(Plug(c, Leaf)) == p + q
    ensures Nodes(Plug(c, Leaf)) == Nodes(tree) - {s.n}
  {
    SpliceNodes(c, s, L);
    p, q := SpliceOrder(c, s, L);
    assert At(h, c, s);
    AtParts(h, c, s);
    if c.Hole? {
      UnlinkAt(h, c, s);
    }
  }

  /** Which context the node has before the link is cut: after the repair if the node is black. */
  method RepairLeaf(node: MapNode, ghost nodes: set<MapNode>, ghost tree: Tree, ghost c: Ctx, ghost s: Tree)
    returns (ghost tree1: Tree, ghost c1: Ctx, ghost s1: Tree)
    requires Whole(nodes, tree) && Rooted(tree, null) && Place(tree, c, s, L) && s.l.Leaf?
    requires s.n == node && c.Hole?
    modifies nodes
    ensures Whole(nodes, tree1) && InOrder(tree1) == InOrder(tree)
    ensures Place(tree1, c1, s1, L) && s1.l.Leaf? && s1.n == node
    ensures Rooted(Plug(c1, Leaf), null)
  {
    tree1, c1, s1 := tree, c, s;
    LeafFacts(nodes, tree, c, s);
    hide *;
    if node.black {
      tree1 := RepairAfterRemoval(node, nodes, c, s, node);
      c1, s1 := AbsentPlace(nodes, tree1, node);
    }
  }

  lemma LeafFacts(nodes: set<MapNode>, tree: Tree, c: Ctx, s: Tree)
    requires Whole(nodes, tree) && Rooted(tree, null) && Place(tree, c, s, L) && s.l.Leaf?
    ensures s.n in nodes && s.n.black == s.black && s.n in Nodes(tree)
    ensures s.black ==> Deficient(c, s, s.n) && Whole(nodes, Plug(c, s))
    ensures !s.black ==> Rooted(Plug(c, Leaf), null)
    ensures InOrder(Plug(c, s)) == InOrder(tree)
  {
    assert At(Snap(nodes), c, s);
    AtParts(Snap(nodes), c, s);
    PlugNodes(c, s);
    if s.black {
      BlackLeafDeficient(c, s);
    } else {
      RedLeafRooted(c, s);
    }
  }

  lemma AbsentPlace(nodes: set<MapNode>, tree: Tree, x: MapNode) returns (c: Ctx, s: Tree)
    requires Whole(nodes, tree) && Rooted(tree, x) && x in nodes
    ensures Place(tree, c, s, L) && s.l.Leaf? && s.n == x && Rooted(Plug(c, Leaf), null)
  {
    c, s := Locate(tree, x);
    DropAbsent(c, s);
  }

  // ---- A node with two children first changes places with its predecessor ----

  /** The last node of the left subtree comes right before the node itself. */
  ghost predicate Rightmost(t: Tree, cur: Tree, before: seq<MapNode>) {
    t.Node? && cur.Node? && InOrder(t.l) == before + InOrder(cur)
  }

  /** adjacent_MapNode_(node, 0) */
  method Predecessor(node: MapNode, ghost nodes: set<MapNode>, ghost tree: Tree, ghost c: Ctx, ghost t: Tree)
    returns (pred: MapNode, ghost p: seq<MapNode>, ghost q: seq<MapNode>)
    requires Whole(nodes, tree) && Plug(c, t) == tree && t.Node? && t.n == node && t.l.Node?
    ensures pred in nodes && pred != node && pred != tree.n && pred.right == null
    ensures InOrder(tree) == p + [pred, node] + q
  {
    hide Mk, Nodes, RepCtx;
    ghost var h := Snap(nodes);
    assert At(h, c, t);
    AtParts(h, c, t);
    pred := node.left;
    ghost var cur, up, before := t.l, t.n, [];
    while pred.right != null
      invariant cur.Node? && pred == cur.n && Rep(h, cur, up) && pred in nodes
      invariant Rightmost(t, cur, before)
      decreases cur
    {
      before := before + InOrder(cur.l) + [cur.n];
      up, cur := cur.n, cur.r;
      pred := pred.right;
    }
    p, q := PredecessorOrder(tree, c, t, cur, before);
  }

  lemma PredecessorOrder(tree: Tree, c: Ctx, t: Tree, cur: Tree, before: seq<MapNode>)
    returns (p: seq<MapNode>, q: seq<MapNode>)
    requires Dis(tree) && Plug(c, t) == tree && t.Node? && Rightmost(t, cur, before) && cur.r.Leaf?
    ensures cur.n in Nodes(tree) && cur.n != t.n && cur.n != tree.n
    ensures InOrder(tree) == p + [cur.n, t.n] + q
  {
    var a := before + InOrder(cur.l);
    p, q := Pre(c) + a, InOrder(t.r) + Post(c);
    assert InOrder(t.l) == a + [cur.n] by {
      assert InOrder(cur) == InOrder(cur.l) + [cur.n] + [];
    }
    PlugInOrder(c, t);
    assert cur.n in Nodes(t.l) by {
      assert cur.n in Elems(a + [cur.n]);
      NodesInOrder(t.l);
    }
    PlugNodes(c, t);
    RootInCtx(c, t);
    MoveApart(Pre(c), a, cur.n, t.n, InOrder(t.r), Post(c));
  }

  lemma MoveApart(w: seq<MapNode>, a: seq<MapNode>, m: MapNode, n: MapNode, b: seq<MapNode>, z: seq<MapNode>)
    ensures w + ((a + [m]) + [n] + b) + z == (w + a) + [m, n] + (b + z)
  {
  }

  /** The root of a whole tree is above the place or at it. */
  lemma {:induction false} RootInCtx(c: Ctx, t: Tree)
    requires t.Node?
    ensures Plug(c, t).Node? && (Plug(c, t).n == t.n || Plug(c, t).n in CtxNodes(c))
  {
    if c.Hole? {
      RootInCtx(c.up, Mk(c.side, c.n, c.black, t, c.sib));
    }
  }

  lemma SwappedOrder(x: MapNode, y: MapNode, tree: Tree, p: seq<MapNode>, q: seq<MapNode>)
    requires Dis(tree) && InOrder(tree) == p + [y, x] + q
    ensures InOrder(RenTree(x, y, tree)) == p + [x, y] + q
  {
    DisNoDup(tree);
    RenInOrder(x, y, tree);
    hide InOrder, Dis, RenTree;
    var s := p + [y, x] + q;
    assert s[|p|] == y && s[|p| + 1] == x;
    var r := p + [x, y] + q;
    forall i | 0 <= i < |s|
      ensures Ren(x, y, s[i]) == r[i]
    {
      if i < |p| {
        assert s[i] != s[|p|] && s[i] != s[|p| + 1];
      } else if i > |p| + 1 {
        assert s[i] != s[|p|] && s[i] != s[|p| + 1];
      }
    }
    assert RenSeq(x, y, s) == r;
  }

  /** The swap in removeNode_Map: afterwards the node has no right child. */
  method PullDown(node: MapNode, ghost nodes: set<MapNode>, ghost tree: Tree)
    returns (pred: MapNode, ghost tree1: Tree, ghost p: seq<MapNode>, ghost q: seq<MapNode>)
    requires Whole(nodes, tree) && Rooted(tree, null) && node in nodes && node.left != null
    modifies nodes
    ensures Whole(nodes, tree1) && Rooted(tree1, null) && node.right == null && pred != node
    ensures InOrder(tree) == p + [pred, node] + q && InOrder(tree1) == p + [node, pred] + q
    ensures Root(tree1) == if Root(tree) == node then pred else Root(tree)
  {
    ghost var c, t := Locate(tree, node);
    PullDownStart(nodes, tree, c, t);
    pred, p, q := Predecessor(node, nodes, tree, c, t);
    tree1 := RenTree(node, pred, tree);
    SwappedOrder(node, pred, tree, p, q);
    RenRB(node, pred, tree);
    assert Root(tree1) == Ren(node, pred, tree.n) && Rooted(tree1, null);
    hide Whole, Rooted, RB, Dis, At, Nodes, InOrder, RenTree;
    ghost var h := Snap(nodes);
    assert h[pred].right == null;
    SwapNodes(node, pred, nodes, tree);
    assert Snap(nodes)[node] == RenCell(node, pred, h[pred]);
  }

  lemma PullDownStart(nodes: set<MapNode>, tree: Tree, c: Ctx, t: Tree)
    requires Whole(nodes, tree) && Plug(c, t) == tree && t.Node?
    ensures tree.Node? && t.n in nodes && t.n.left == Root(t.l) && t.n.right == Root(t.r) && Dis(tree)
  {
    assert At(Snap(nodes), c, t);
    AtParts(Snap(nodes), c, t);
    PlugNodes(c, t);
    RootInCtx(c, t);
    hide RepCtx, CtxDis, Plug;
  }

  // ---- removeNodeWithZeroOrOneChild_Map_ ----

  /** Takes out a node with at most one child. `root0` and `root` are the values of the map's root
      pointer; the caller's tree has the node between `p` and `q`. */
  method RemoveLow(root0: MapNode?, node: MapNode, ghost nodes: set<MapNode>, ghost tree: Tree)
    returns (root: MapNode?, ghost tree': Tree, ghost p: seq<MapNode>, ghost q: seq<MapNode>)
    requires Whole(nodes, tree) && Rooted(tree, null) && root0 == Root(tree)
    requires node in nodes && (node.left == null || node.right == null)
    modifies nodes
    ensures Whole(nodes - {node}, tree') && Rooted(tree', null) && root == Root(tree')
    ensures InOrder(tree) == p + [node] + q && InOrder(tree') == p + q
  {
    ghost var c, s := Locate(tree, node);
    LowFacts(nodes, tree, c, s);
    hide Whole, Rooted, At, Nodes, InOrder, Plug, Place;
    var child := if node.left != null then node.left else node.right;
    root := root0;
    if node == root {
      root := child;
      if child == null {
        tree', p, q := Leaf, [], [];
        EmptyTree(nodes, tree, node);
        return;
      }
    }
    if child != null {
      ghost var side := if node.left != null then L else R;
      p, q := SpliceOrder(c, s, side);
      BlackenOrder(c, Sub(s, side));
      tree' := Splice(node, child, nodes, tree, c, s, side);
    } else {
      ghost var tree1, c1, s1 := RepairLeaf(node, nodes, tree, c, s);
      CutReady(nodes, tree1, c1, s1);
      p, q := CutFacts(Snap(nodes), tree1, c1, s1);
      if node.parent != null {
        LinkKid(node.parent, if node.parent.left == node then L else R, null, nodes);
      }
      tree' := Plug(c1, Leaf);
    }
    Restrict(nodes, tree');
    root := ClimbToRoot(root, tree');
  }

  lemma CutReady(nodes: set<MapNode>, tree: Tree, c: Ctx, s: Tree)
    requires Whole(nodes, tree) && Place(tree, c, s, L) && s.l.Leaf?
    ensures At(Snap(nodes), Top, tree) && Nodes(tree) == nodes
    ensures s.n in nodes && s.n.parent == UpNode(c) && (c.Hole? ==> c.n in nodes)
  {
    assert At(Snap(nodes), c, s);
    AtParts(Snap(nodes), c, s);
    PlugNodes(c, s);
  }

  lemma EmptyTree(nodes: set<MapNode>, tree: Tree, node: MapNode)
    requires Whole(nodes, tree) && tree.Node? && tree.n == node && tree.l.Leaf? && tree.r.Leaf?
    ensures Whole(nodes - {node}, Leaf) && Rooted(Leaf, null) && InOrder(tree) == [] + [node] + []
    ensures InOrder(Leaf) == [] + []
  {
  }

  /** The pointers of the node tell which place it has. */
  lemma LowFacts(nodes: set<MapNode>, tree: Tree, c: Ctx, s: Tree)
    requires Whole(nodes, tree) && Plug(c, s) == tree && s.Node?
    ensures tree.Node? && tree.n in nodes && Nodes(tree) == nodes
    ensures s.n in nodes && s.n.left == Root(s.l) && s.n.right == Root(s.r)
    ensures s.n.left != null ==> s.n.left in nodes - {s.n}
    ensures s.n.right != null ==> s.n.right in nodes - {s.n}
    ensures s.r.Leaf? ==> Place(tree, c, s, L)
    ensures s.l.Leaf? ==> Place(tree, c, s, R)
    ensures c.Top? <==> s.n == tree.n
  {
    assert At(Snap(nodes), c, s);
    AtParts(Snap(nodes), c, s);
    PlugNodes(c, s);
    RootInCtx(c, s);
    hide Rep, RepCtx, CtxDis, Plug, At;
    if s.l.Node? {
      assert s.l.n in Nodes(s.l);
    }
    if s.r.Node? {
      assert s.r.n in Nodes(s.r);
    }
  }
}
