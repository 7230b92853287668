/** Rotation and the two repair loops of map.c, on the nodes themselves. */
module MapRepair {
  import opened MapTree
  import opened RedBlack
  import opened NodeHeap

  // ---- Single writes, as seen in the snapshot ----

  method LinkKid(n: MapNode, s: Side, k: MapNode?, ghost nodes: set<MapNode>)
    requires n in nodes
    modifies n`left, n`right
    ensures Snap(nodes) == SetKid(old(Snap(nodes)), n, s, k)
  {
    if s.L? {
      n.left := k;
    } else {
      n.right := k;
    }
  }

  method LinkParent(n: MapNode, p: MapNode?, ghost nodes: set<MapNode>)
    requires n in nodes
    modifies n`parent
    ensures Snap(nodes) == SetParent(old(Snap(nodes)), n, p)
  {
    n.parent := p;
  }

  method Paint(n: MapNode, black: bool, ghost nodes: set<MapNode>)
    requires n in nodes
    modifies n`black
    ensures Snap(nodes) == SetBlack(old(Snap(nodes)), n, black)
  {
    n.black := black;
  }

  // ---- Reading around a node ----

  function Sibling(d: MapNode): MapNode?
    reads d, d.parent
  {
    if d.parent == null then null
    else d.parent.Kid(if d == d.parent.left then R else L)
  }

  function GrandParent(d: MapNode): MapNode?
    reads d, d.parent
  {
    if d.parent == null then null else d.parent.parent
  }

  function Uncle(d: MapNode): MapNode?
    reads d, d.parent, GrandParent(d)
  {
    if GrandParent(d) == null then null else Sibling(d.parent)
  }

  predicate IsRedNode(d: MapNode?)
    reads d
  {
    d != null && !d.black
  }

  predicate IsChildBlack(d: MapNode?, s: Side)
    reads d, if d == null then {} else {d.Kid(s)}
  {
    d == null || d.Kid(s) == null || d.Kid(s).black
  }

  method Rotate(d: MapNode, s: Side, ghost nodes: set<MapNode>)
    requires d in nodes && d.Kid(s) != null && d.Kid(s) in nodes
    requires d.Kid(s).Kid(s.Flip()) != null ==> d.Kid(s).Kid(s.Flip()) in nodes
    requires d.parent != null ==> d.parent in nodes
    modifies nodes
    ensures Snap(nodes) == RotateH(old(Snap(nodes)), d, s)
  {
    var up := d.parent;
    var upSide := if up != null && up.left != d then R else L;
    var newD := d.Kid(s);
    var inner := newD.Kid(s.Flip());
    LinkKid(d, s, inner, nodes);
    if inner != null {
      LinkParent(inner, d, nodes);
    }
    LinkKid(newD, s.Flip(), d, nodes);
    LinkParent(newD, d.parent, nodes);
    if up != null {
      LinkKid(up, upSide, newD, nodes);
    }
    LinkParent(d, newD, nodes);
  }

  // ---- After an insertion ----

  /** The red node `t.n` is the only possible offence: its parent may be red, or it may be the root. */
  ghost predicate Inserted(c: Ctx, t: Tree) {
    && t.Node? && !t.black && RB(t, null)
    && CtxRB(c, null, BH(t, null))
  }

  /** A red uncle: recolour and look at the grandparent. */
  lemma InsertRecolour(up: Ctx, g: MapNode, bg: bool, sg: Side, unc: Tree,
                       p: MapNode, sp: Side, sib: Tree, t: Tree)
    requires Inserted(Hole(Hole(up, g, bg, sg, unc), p, false, sp, sib), t)
    requires !IsBlack(unc)
    ensures bg
    ensures Inserted(up, Mk(sg, g, false, Mk(sp, p, true, t, sib), unc.(black := true)))
  {
    var h := BH(t, null);
    var c1 := Hole(up, g, bg, sg, unc);
    assert CtxRB(c1, null, h) && CtxRB(up, null, h + 1);
    var pt := Mk(sp, p, true, t, sib);
    assert RB(pt, null) && BH(pt, null) == h + 1;
    var u := unc.(black := true);
    assert RB(u, null) && BH(u, null) == h + 1;
  }

  /** A black uncle, the new node on the outer side: one rotation at the grandparent. */
  lemma InsertRotate(up: Ctx, g: MapNode, bg: bool, sg: Side, unc: Tree,
                     p: MapNode, sib: Tree, t: Tree)
    requires Inserted(Hole(Hole(up, g, bg, sg, unc), p, false, sg, sib), t)
    requires IsBlack(unc)
    ensures Rooted(Plug(up, Mk(sg, p, true, t, Mk(sg, g, false, sib, unc))), null)
  {
    var h := BH(t, null);
    var c1 := Hole(up, g, bg, sg, unc);
    assert CtxRB(c1, null, h) && CtxRB(up, null, h + 1);
    var low := Mk(sg, g, false, sib, unc);
    assert RB(low, null) && BH(low, null) == h;
    var top := Mk(sg, p, true, t, low);
    assert RB(top, null) && BH(top, null) == h + 1;
    PlugRooted(up, top, null);
  }

  /** What the pointers around a node say when its parent and grandparent are known. */
  lemma AroundNode(h: Heap, c: Ctx, t: Tree)
    requires At(h, c, t) && t.Node? && c.Hole?
    ensures Dis(Plug(c.up, Mk(c.side, c.n, c.black, t, c.sib)))
    ensures t.n in h && h[t.n] == Cell(c.n, Root(t.l), Root(t.r), t.black)
    ensures c.n in h && h[c.n].parent == UpNode(c.up) && h[c.n].black == c.black
    ensures h[c.n].Kid(c.side) == t.n && h[c.n].Kid(c.side.Flip()) == Root(c.sib)
    ensures c.sib.Node? ==> c.sib.n in h && h[c.sib.n] == Cell(c.n, Root(c.sib.l), Root(c.sib.r), c.sib.black)
    ensures t.n != c.n && t.n !in Nodes(c.sib) && t.n !in CtxNodes(c.up)
    ensures c.n !in Nodes(c.sib) && c.n !in CtxNodes(c.up)
  {
    AtParts(h, c, t);
  }

  lemma RecolourUncleAt(h: Heap, c: Ctx, t: Tree)
    requires At(h, c, t) && c.Hole? && c.up.Hole? && c.up.sib.Node?
    ensures c.n in h && c.up.n in h && c.up.sib.n in h
    ensures At(SetBlack(SetBlack(SetBlack(h, c.n, true), c.up.sib.n, true), c.up.n, false), c.up.up,
               Mk(c.up.side, c.up.n, false, Mk(c.side, c.n, true, t, c.sib), c.up.sib.(black := true)))
  {
    var p' := Mk(c.side, c.n, true, t, c.sib);
    var u' := c.up.sib.(black := true);
    RecolourAt(h, c.up, Mk(c.side, c.n, c.black, t, c.sib), true);
    var h1 := SetBlack(h, c.n, true);
    assert At(h1, Hole(c.up.up, c.up.n, c.up.black, c.up.side.Flip(), p'), c.up.sib);
    RecolourAt(h1, Hole(c.up.up, c.up.n, c.up.black, c.up.side.Flip(), p'), c.up.sib, true);
    var h2 := SetBlack(h1, c.up.sib.n, true);
    assert At(h2, c.up.up, Mk(c.up.side, c.up.n, c.up.black, p', u'));
    RecolourAt(h2, c.up.up, Mk(c.up.side, c.up.n, c.up.black, p', u'), false);
  }

  lemma RecolourOrder(c: Ctx, t: Tree)
    requires c.Hole? && c.up.Hole? && c.up.sib.Node?
    ensures InOrder(Plug(c.up.up, Mk(c.up.side, c.up.n, false,
            Mk(c.side, c.n, true, t, c.sib), c.up.sib.(black := true))))
         == InOrder(Plug(c, t))
  {
    PlugInOrder(c.up.up, Mk(c.up.side, c.up.n, false, Mk(c.side, c.n, true, t, c.sib), c.up.sib.(black := true)));
    PlugInOrder(c.up.up, Mk(c.up.side, c.up.n, c.up.black, Mk(c.side, c.n, c.black, t, c.sib), c.up.sib));
  }

  lemma OneUp(h: Heap, c: Ctx, t: Tree)
    requires At(h, c, t) && c.Hole?
    ensures At(h, c.up, Mk(c.side, c.n, c.black, t, c.sib))
  {
  }

  /** A red uncle: parent, uncle and grandparent change colour, and the offence moves up. */
  method RecolourUncle(node: MapNode, ghost nodes: set<MapNode>, ghost c: Ctx, ghost t: Tree)
    returns (next: MapNode, ghost t': Tree)
    requires At(Snap(nodes), c, t) && Inserted(c, t) && t.n == node
    requires c.Hole? && !c.black && c.up.Hole? && !IsBlack(c.up.sib)
    modifies nodes
    ensures At(Snap(nodes), c.up.up, t') && Inserted(c.up.up, t') && t'.n == next
    ensures InOrder(Plug(c.up.up, t')) == InOrder(Plug(c, t))
  {
    hide At, SetBlack;
    OneUp(Snap(nodes), c, t);
    assert node.parent == c.n && Uncle(node) == c.up.sib.n && GrandParent(node) == c.up.n by {
      AroundNode(Snap(nodes), c, t);
      AroundNode(Snap(nodes), c.up, Mk(c.side, c.n, c.black, t, c.sib));
    }
    RecolourUncleAt(Snap(nodes), c, t);
    RecolourOrder(c, t);
    InsertRecolour(c.up.up, c.up.n, c.up.black, c.up.side, c.up.sib, c.n, c.side, c.sib, t);
    Paint(node.parent, true, nodes);
    Paint(Uncle(node), true, nodes);
    Paint(GrandParent(node), false, nodes);
    next := GrandParent(node);
    t' := Mk(c.up.side, c.up.n, false, Mk(c.side, c.n, true, t, c.sib), c.up.sib.(black := true));
  }

  /** The new node on the inner side: turning it outwards keeps everything but the places. */
  lemma InsertTurn(up: Ctx, p: MapNode, sg: Side, sib: Tree, t: Tree)
    requires Inserted(Hole(up, p, false, sg.Flip(), sib), t)
    ensures Inserted(Hole(up, t.n, false, sg, Sub(t, sg.Flip())),
                     Mk(sg.Flip(), p, false, Sub(t, sg), sib))
    ensures Plug(Hole(up, t.n, false, sg, Sub(t, sg.Flip())), Mk(sg.Flip(), p, false, Sub(t, sg), sib))
         == Plug(up, After(sg.Flip(), p, false, t.n, false, Sub(t, sg.Flip()), Sub(t, sg), sib))
    ensures Plug(Hole(up, p, false, sg.Flip(), sib), t)
         == Plug(up, Before(sg.Flip(), p, false, t.n, false, Sub(t, sg.Flip()), Sub(t, sg), sib))
  {
    assert CtxRB(Hole(up, p, false, sg.Flip(), sib), null, BH(t, null));
    assert CtxRB(up, null, BH(t, null));
  }

  /** A grandchild is reached by a child's link only from its own parent. */
  lemma InnerGrandchild(h: Heap, c: Ctx, t: Tree, side: Side)
    requires At(h, c, t) && t.Node? && c.Hole? && c.up.Hole?
    ensures c.up.n in h
    ensures var k := h[c.up.n].Kid(side);
            k != null ==> k in h && (h[k].Kid(side.Flip()) == t.n <==> c.up.side == side && c.side == side.Flip())
  {
    var p := Mk(c.side, c.n, c.black, t, c.sib);
    AroundNode(h, c, t);
    AroundNode(h, c.up, p);
    if side != c.up.side && c.up.sib.Node? {
      AtParts(h, c.up, p);
      assert h[c.up.sib.n].Kid(side.Flip()) == Root(Sub(c.up.sib, side.Flip()));
      assert t.n in Nodes(p);
    }
  }

  /** First half of the rotation case: the offending red pair ends up on one side. */
  method TurnOutward(node: MapNode, ghost nodes: set<MapNode>, ghost c: Ctx, ghost t: Tree)
    returns (low: MapNode, ghost c': Ctx, ghost t': Tree)
    requires At(Snap(nodes), c, t) && Inserted(c, t) && t.n == node
    requires c.Hole? && !c.black && c.up.Hole?
    modifies nodes
    ensures At(Snap(nodes), c', t') && Inserted(c', t') && t'.n == low
    ensures c'.Hole? && !c'.black && c'.side == c.up.side && c'.up == c.up
    ensures InOrder(Plug(c', t')) == InOrder(Plug(c, t))
  {
    var p := node.parent;
    var g := GrandParent(node);
    low, c', t' := node, c, t;
    AroundNode(Snap(nodes), c, t);
    AroundNode(Snap(nodes), c.up, Mk(c.side, c.n, c.black, t, c.sib));
    InnerGrandchild(Snap(nodes), c, t, L);
    InnerGrandchild(Snap(nodes), c, t, R);
    if g.left != null && node == g.left.right {
      c', t' := TurnFacts(Snap(nodes), c, t);
      Rotate(p, R, nodes);
      low := node.left;
    } else if g.right != null && node == g.right.left {
      c', t' := TurnFacts(Snap(nodes), c, t);
      Rotate(p, L, nodes);
      low := node.right;
    }
  }

  lemma TurnFacts(h: Heap, c: Ctx, t: Tree) returns (c': Ctx, t': Tree)
    requires At(h, c, t) && Inserted(c, t)
    requires c.Hole? && !c.black && c.up.Hole? && c.side == c.up.side.Flip()
    ensures c.n in h && t.n in h && h[c.n].Kid(c.side) == t.n
    ensures h[t.n].Kid(c.up.side) != null ==> h[t.n].Kid(c.up.side) in h
    ensures h[c.n].parent in h
    ensures c' == Hole(c.up, t.n, false, c.up.side, Sub(t, c.side))
    ensures t' == Mk(c.side, c.n, false, Sub(t, c.up.side), c.sib)
    ensures Inserted(c', t') && At(RotateH(h, c.n, c.side), c', t')
    ensures RotateH(h, c.n, c.side)[t.n].Kid(c.up.side) == c.n
    ensures InOrder(Plug(c', t')) == InOrder(Plug(c, t))
  {
    var sg := c.up.side;
    c' := Hole(c.up, t.n, false, sg, Sub(t, c.side));
    t' := Mk(c.side, c.n, false, Sub(t, sg), c.sib);
    AroundNode(h, c, t);
    AroundNode(h, c.up, Mk(c.side, c.n, c.black, t, c.sib));
    InsertTurn(c.up, c.n, sg, c.sib, t);
    RotateAt(h, c.up, c.side, c.n, false, t.n, false, Sub(t, c.side), Sub(t, sg), c.sib);
    RotateOrder(c.up, c.side, c.n, false, t.n, false, Sub(t, c.side), Sub(t, sg), c.sib);
    AroundNode(RotateH(h, c.n, c.side), c', t');
  }

  /** Second half: one rotation at the grandparent and two colours end the repair. */
  lemma InsertFinish(h: Heap, c: Ctx, t: Tree) returns (tree: Tree)
    requires At(h, c, t) && Inserted(c, t)
    requires c.Hole? && !c.black && c.up.Hole? && c.side == c.up.side && IsBlack(c.up.sib)
    ensures c.n in h && t.n in h && c.up.n in h && h[c.up.n].Kid(c.side) == c.n
    ensures h[c.n].Kid(c.side.Flip()) != null ==> h[c.n].Kid(c.side.Flip()) in h
    ensures h[c.up.n].parent != null ==> h[c.up.n].parent in h
    ensures At(SetBlack(SetBlack(RotateH(h, c.up.n, c.side), c.n, true), c.up.n, false), Top, tree)
    ensures Rooted(tree, null) && InOrder(tree) == InOrder(Plug(c, t))
  {
    var s, g, up, unc, p, sib := c.side, c.up.n, c.up.up, c.up.sib, c.n, c.sib;
    AroundNode(h, c, t);
    AroundNode(h, c.up, Mk(c.side, c.n, c.black, t, c.sib));
    AtParts(h, c, t);
    InsertRotate(up, g, c.up.black, s, unc, p, sib, t);
    RotateAt(h, up, s, g, c.up.black, p, false, t, sib, unc);
    RotateOrder(up, s, g, c.up.black, p, false, t, sib, unc);
    var h1 := RotateH(h, g, s);
    RecolourAt(h1, up, After(s, g, c.up.black, p, false, t, sib, unc), true);
    var h2 := SetBlack(h1, p, true);
    assert At(h2, Hole(up, p, true, s.Flip(), t), Mk(s, g, c.up.black, sib, unc));
    RecolourAt(h2, Hole(up, p, true, s.Flip(), t), Mk(s, g, c.up.black, sib, unc), false);
    tree := Plug(up, Mk(s, p, true, t, Mk(s, g, false, sib, unc)));
    PlugInOrder(up, After(s, g, c.up.black, p, false, t, sib, unc));
    PlugInOrder(up, Mk(s, p, true, t, Mk(s, g, false, sib, unc)));
  }

  /** A black uncle: one or two rotations and two colours. */
  method RotateUncle(node: MapNode, ghost nodes: set<MapNode>, ghost c: Ctx, ghost t: Tree)
    returns (ghost tree: Tree)
    requires At(Snap(nodes), c, t) && Inserted(c, t) && t.n == node
    requires c.Hole? && !c.black && c.up.Hole? && IsBlack(c.up.sib)
    modifies nodes
    ensures At(Snap(nodes), Top, tree) && Rooted(tree, null)
    ensures InOrder(tree) == InOrder(Plug(c, t))
  {
    var low;
    ghost var c', t';
    low, c', t' := TurnOutward(node, nodes, c, t);
    var p := low.parent;
    var g := GrandParent(low);
    assert p == c'.n && g == c'.up.n && (low == p.left <==> c'.side.L?) by {
      AroundNode(Snap(nodes), c', t');
      AroundNode(Snap(nodes), c'.up, Mk(c'.side, c'.n, c'.black, t', c'.sib));
    }
    tree := InsertFinish(Snap(nodes), c', t');
    Rotate(g, if low == p.left then L else R, nodes);
    Paint(p, true, nodes);
    Paint(g, false, nodes);
  }

  /** The pointers and colours of `nodes` spell out the whole tree `tree`. */
  ghost predicate Whole(nodes: set<MapNode>, tree: Tree)
    reads nodes
  {
    Nodes(tree) == nodes && At(Snap(nodes), Top, tree)
  }

  lemma SameOrderSameNodes(t: Tree, t': Tree)
    requires InOrder(t) == InOrder(t')
    ensures Nodes(t) == Nodes(t') && Size(t) == Size(t')
  {
    NodesInOrder(t);
    NodesInOrder(t');
  }

  /** repairAfterInsert_MapNode_: from a tree whose only fault is around the red node `node0`
      to a red-black tree over the same nodes in the same order. */
  method RepairAfterInsert(node0: MapNode, ghost nodes: set<MapNode>, ghost c0: Ctx, ghost t0: Tree)
    returns (ghost tree: Tree)
    requires Whole(nodes, Plug(c0, t0)) && Inserted(c0, t0) && t0.n == node0
    modifies nodes
    ensures Whole(nodes, tree) && Rooted(tree, null)
    ensures InOrder(tree) == InOrder(Plug(c0, t0))
  {
    var node := node0;
    ghost var c, t := c0, t0;
    tree := Leaf;
    while true
      invariant At(Snap(nodes), c, t) && Inserted(c, t) && t.n == node
      invariant InOrder(Plug(c, t)) == InOrder(Plug(c0, t0))
      decreases Depth(c)
    {
      InsertCases(Snap(nodes), c, t);
      if node.parent == null {
        tree := t.(black := true);
        Paint(node, true, nodes);
        break;
      } else if node.parent.black {
        tree := Plug(c, t);
        break;
      } else if IsRedNode(Uncle(node)) {
        ghost var t';
        node, t' := RecolourUncle(node, nodes, c, t);
        assert Depth(c) == 2 + Depth(c.up.up);
        c, t := c.up.up, t';
      } else {
        tree := RotateUncle(node, nodes, c, t);
        break;
      }
    }
    SameOrderSameNodes(tree, Plug(c0, t0));
  }

  /** What the tests of the loop find out, and why the first two ways out are done. */
  lemma InsertCases(h: Heap, c: Ctx, t: Tree)
    requires At(h, c, t) && Inserted(c, t)
    ensures t.n in h && h[t.n].parent == UpNode(c)
    ensures c.Top? ==>
              && At(SetBlack(h, t.n, true), Top, t.(black := true))
              && Rooted(t.(black := true), null)
              && InOrder(t.(black := true)) == InOrder(t)
    ensures c.Hole? ==> c.n in h && h[c.n].black == c.black
    ensures c.Hole? && c.black ==> Rooted(Plug(c, t), null)
    ensures c.Hole? && !c.black ==>
              && c.up.Hole? && c.up.n in h && h[c.n].parent == c.up.n
              && (h[c.n].left == t.n <==> c.side.L?)
              && h[c.up.n].Kid(c.up.side) == c.n
              && (h[c.up.n].left == c.n <==> c.up.side.L?)
              && h[c.up.n].Kid(c.up.side.Flip()) == Root(c.up.sib)
              && (c.up.sib.Node? ==> c.up.sib.n in h && h[c.up.sib.n].black == c.up.sib.black)
  {
    if c.Top? {
      AtParts(h, c, t);
      RecolourAt(h, c, t, true);
    } else {
      AroundNode(h, c, t);
      if c.black {
        PlugRooted(c, t, null);
      } else {
        AroundNode(h, c.up, Mk(c.side, c.n, c.black, t, c.sib));
      }
    }
  }

  // ---- After a removal ----

  /** The subtree holds the absent node `x` and is one black node short of what its place needs. */
  ghost predicate Deficient(c: Ctx, t: Tree, x: MapNode) {
    && t.Node? && t.black && RB(t, x)
    && x in Nodes(t) && x !in CtxNodes(c)
    && CtxRB(c, x, BH(t, x) + 1)
  }

  /** There is a sibling, and it is not the absent node. */
  lemma DeficientSibling(c: Ctx, t: Tree, x: MapNode)
    requires Deficient(c, t, x) && c.Hole?
    ensures c.sib.Node? && c.sib.n != x && BH(c.sib, x) == BH(t, x) + 1
    ensures RB(c.sib.l, x) && RB(c.sib.r, x) && BH(c.sib.l, x) == BH(c.sib.r, x)
    ensures BH(c.sib.l, x) + One(c.sib.black) == BH(t, x) + 1
    ensures !c.sib.black ==> c.black && IsBlack(c.sib.l) && IsBlack(c.sib.r) && c.sib.l.Node? && c.sib.r.Node?
    ensures CtxRB(c.up, x, BH(t, x) + 1 + One(c.black))
    ensures x !in CtxNodes(c.up) && x !in Nodes(c.sib) && c.n != x
  {
  }

  /** A red sibling: after turning it up the sibling is black, and the parent red. */
  lemma RemovalRedSibling(c: Ctx, t: Tree, x: MapNode)
    requires Deficient(c, t, x) && c.Hole? && !IsBlack(c.sib)
    ensures var up := Hole(c.up, c.sib.n, true, c.side, Sub(c.sib, c.side.Flip()));
            var c' := Hole(up, c.n, false, c.side, Sub(c.sib, c.side));
            Deficient(c', t, x) && IsBlack(c'.sib)
  {
    DeficientSibling(c, t, x);
    var up := Hole(c.up, c.sib.n, true, c.side, Sub(c.sib, c.side.Flip()));
    assert CtxRB(up, x, BH(t, x) + 1);
  }

  ghost predicate BlackNephews(s: Tree) {
    s.Node? && s.black && IsBlack(s.l) && IsBlack(s.r)
  }

  /** Everything around is black: the shortage moves up. */
  lemma RemovalMoveUp(c: Ctx, t: Tree, x: MapNode)
    requires Deficient(c, t, x) && c.Hole? && c.black && BlackNephews(c.sib)
    ensures Deficient(c.up, Mk(c.side, c.n, true, t, c.sib.(black := false)), x)
  {
    DeficientSibling(c, t, x);
  }

  /** A red parent over a black sibling with black children: swap their colours. */
  lemma RemovalSwapColours(c: Ctx, t: Tree, x: MapNode)
    requires Deficient(c, t, x) && c.Hole? && !c.black && BlackNephews(c.sib)
    ensures Rooted(Plug(c.up, Mk(c.side, c.n, true, t, c.sib.(black := false))), x)
  {
    DeficientSibling(c, t, x);
    var u := c.sib.(black := false);
    assert RB(u, x) && BH(u, x) == BH(t, x);
    var top := Mk(c.side, c.n, true, t, u);
    assert RB(top, x) && BH(top, x) == BH(t, x) + 1;
    PlugRooted(c.up, top, x);
  }

  /** Only the inner nephew is red: turn the sibling so that the outer one is. */
  lemma RemovalTurnSibling(c: Ctx, t: Tree, x: MapNode)
    requires Deficient(c, t, x) && c.Hole? && IsBlack(c.sib)
    requires c.sib.Node? && IsBlack(Sub(c.sib, c.side.Flip())) && !IsBlack(Sub(c.sib, c.side))
    ensures var k := Sub(c.sib, c.side);
            var low := Mk(c.side, c.sib.n, false, Sub(k, c.side.Flip()), Sub(c.sib, c.side.Flip()));
            Deficient(c.(sib := Mk(c.side, k.n, true, Sub(k, c.side), low)), t, x)
  {
    hide UpBlack, BH, CtxRB;
    DeficientSibling(c, t, x);
    var k := Sub(c.sib, c.side);
    var low := Mk(c.side, c.sib.n, false, Sub(k, c.side.Flip()), Sub(c.sib, c.side.Flip()));
    RedChild(c.sib, c.side, x);
    MkRB(c.side, c.sib.n, false, Sub(k, c.side.Flip()), Sub(c.sib, c.side.Flip()), x);
    MkRB(c.side, k.n, true, Sub(k, c.side), low, x);
    BesideDeficient(c, t, x, Mk(c.side, k.n, true, Sub(k, c.side), low));
  }

  /** A red child that is not the absent node, and its own children. */
  lemma RedChild(t: Tree, side: Side, x: MapNode)
    requires t.Node? && t.n != x && RB(t, x) && !IsBlack(Sub(t, side))
    ensures var k := Sub(t, side);
            && k.n != x && RB(k.l, x) && RB(k.r, x) && IsBlack(k.l) && IsBlack(k.r)
            && BH(k.l, x) == BH(k, x) == BH(k.r, x) && BH(k, x) == BH(Sub(t, side.Flip()), x)
            && BH(t, x) == BH(k, x) + One(t.black)
  {
  }

  /** A black sibling may be replaced by another one of the same nodes and the same black height. */
  lemma BesideDeficient(c: Ctx, t: Tree, x: MapNode, sib: Tree)
    requires Deficient(c, t, x) && c.Hole? && RB(sib, x) && BH(sib, x) == BH(c.sib, x) && Nodes(sib) == Nodes(c.sib)
    requires !c.black ==> IsBlack(sib)
    ensures Deficient(c.(sib := sib), t, x)
  {
  }

  /** The outer nephew is red: one rotation at the parent makes good the shortage. */
  lemma RemovalFinish(c: Ctx, t: Tree, x: MapNode)
    requires Deficient(c, t, x) && c.Hole? && IsBlack(c.sib)
    requires c.sib.Node? && !IsBlack(Sub(c.sib, c.side.Flip()))
    ensures var out := Sub(c.sib, c.side.Flip());
            var low := Mk(c.side.Flip(), c.n, true, Sub(c.sib, c.side), t);
            Rooted(Plug(c.up, Mk(c.side.Flip(), c.sib.n, c.black, out.(black := true), low)), x)
  {
    hide CtxNodes, Nodes, Plug;
    DeficientSibling(c, t, x);
    var out := Sub(c.sib, c.side.Flip()).(black := true);
    var low := Mk(c.side.Flip(), c.n, true, Sub(c.sib, c.side), t);
    assert RB(out, x) && BH(out, x) == BH(t, x) + 1;
    assert RB(low, x) && BH(low, x) == BH(t, x) + 1;
    var top := Mk(c.side.Flip(), c.sib.n, c.black, out, low);
    assert RB(top, x) && BH(top, x) == BH(t, x) + 1 + One(c.black);
    PlugRooted(c.up, top, x);
  }

  /** The sibling's cell and those of its children. */
  lemma AroundSibling(h: Heap, c: Ctx, t: Tree, s: Side)
    requires At(h, c, t) && t.Node? && c.Hole? && c.sib.Node?
    ensures c.sib.n in h && h[c.sib.n].parent == c.n && h[c.sib.n].black == c.sib.black
    ensures h[c.sib.n].Kid(s) == Root(Sub(c.sib, s))
    ensures Sub(c.sib, s).Node? ==>
              && Root(Sub(c.sib, s)) in h
              && h[Root(Sub(c.sib, s))].black == Sub(c.sib, s).black
              && h[Root(Sub(c.sib, s))].parent == c.sib.n
              && Root(Sub(c.sib, s)) != c.sib.n && Root(Sub(c.sib, s)) != c.n
    ensures Sub(c.sib, s).Node? ==>
              var k := Sub(c.sib, s);
              && (k.l.Node? ==> k.l.n in h) && (k.r.Node? ==> k.r.n in h)
              && h[k.n].left == Root(k.l) && h[k.n].right == Root(k.r)
  {
    AtParts(h, c, t);
    var k := Sub(c.sib, s);
    assert Rep(h, k, c.sib.n);
    if k.Node? {
      assert Rep(h, k.l, k.n) && Rep(h, k.r, k.n);
    }
  }

  ghost function WithKid(t: Tree, s: Side, k: Tree): Tree
    requires t.Node?
  {
    Mk(s, t.n, t.black, k, Sub(t, s.Flip()))
  }

  // Colour changes seen from the focus: above it, beside it and one below that.

  lemma RecolourUp(h: Heap, c: Ctx, t: Tree, b: bool)
    requires At(h, c, t) && c.Hole?
    ensures c.n in h && At(SetBlack(h, c.n, b), c.(black := b), t)
  {
    RecolourAt(h, c.up, Mk(c.side, c.n, c.black, t, c.sib), b);
  }

  lemma RecolourBeside(h: Heap, c: Ctx, t: Tree, b: bool)
    requires At(h, c, t) && c.Hole? && c.sib.Node?
    ensures c.sib.n in h && At(SetBlack(h, c.sib.n, b), c.(sib := c.sib.(black := b)), t)
  {
    var c1 := Hole(c.up, c.n, c.black, c.side.Flip(), t);
    assert At(h, c1, c.sib);
    RecolourAt(h, c1, c.sib, b);
    assert Plug(c1, c.sib.(black := b)) == Plug(c.(sib := c.sib.(black := b)), t);
  }

  lemma RecolourNephew(h: Heap, c: Ctx, t: Tree, s: Side, b: bool)
    requires At(h, c, t) && c.Hole? && c.sib.Node? && Sub(c.sib, s).Node?
    ensures Sub(c.sib, s).n in h
    ensures At(SetBlack(h, Sub(c.sib, s).n, b), c.(sib := WithKid(c.sib, s, Sub(c.sib, s).(black := b))), t)
  {
    var k := Sub(c.sib, s);
    var c1 := Hole(c.up, c.n, c.black, c.side.Flip(), t);
    var c2 := Hole(c1, c.sib.n, c.sib.black, s, Sub(c.sib, s.Flip()));
    assert Plug(c2, k) == Plug(c1, c.sib) == Plug(c, t);
    RecolourAt(h, c2, k, b);
    var k' := k.(black := b);
    assert Plug(c2, k') == Plug(c1, WithKid(c.sib, s, k')) == Plug(c.(sib := WithKid(c.sib, s, k')), t);
  }

  lemma SameOrderBeside(c: Ctx, t: Tree, c': Ctx, t': Tree)
    requires Pre(c) + InOrder(t) + Post(c) == Pre(c') + InOrder(t') + Post(c')
    ensures InOrder(Plug(c, t)) == InOrder(Plug(c', t'))
  {
    PlugInOrder(c, t);
    PlugInOrder(c', t');
  }

  /** The first `if` of repairAfterRemoval_MapNode_. */
  method RedSibling(node: MapNode, s: MapNode, ghost nodes: set<MapNode>, ghost c: Ctx, ghost t: Tree,
                    ghost x: MapNode)
    returns (ghost c': Ctx)
    requires At(Snap(nodes), c, t) && Deficient(c, t, x) && t.n == node
    requires c.Hole? && !IsBlack(c.sib) && s == c.sib.n
    modifies nodes
    ensures At(Snap(nodes), c', t) && Deficient(c', t, x)
    ensures c'.Hole? && !c'.black && IsBlack(c'.sib) && c'.n == c.n && c'.side == c.side
    ensures InOrder(Plug(c', t)) == InOrder(Plug(c, t))
  {
    c' := RedSiblingFacts(Snap(nodes), c, t, x);
    var p := node.parent;
    var side := if node == p.left then R else L;
    Paint(p, false, nodes);
    Paint(s, true, nodes);
    Rotate(p, side, nodes);
  }

  lemma RedSiblingFacts(h: Heap, c: Ctx, t: Tree, x: MapNode) returns (c': Ctx)
    requires At(h, c, t) && Deficient(c, t, x)
    requires c.Hole? && !IsBlack(c.sib)
    ensures t.n in h && h[t.n].parent == c.n && c.n in h && c.sib.n in h && c.sib.n != c.n
    ensures h[c.n].left == t.n <==> c.side.L?
    ensures h[c.n].Kid(c.side.Flip()) == c.sib.n
    ensures h[c.sib.n].Kid(c.side) != null ==> h[c.sib.n].Kid(c.side) in h
    ensures h[c.n].parent != null ==> h[c.n].parent in h
    ensures At(RotateH(SetBlack(SetBlack(h, c.n, false), c.sib.n, true), c.n, c.side.Flip()), c', t)
    ensures Deficient(c', t, x) && c'.Hole? && !c'.black && IsBlack(c'.sib) && c'.n == c.n && c'.side == c.side
    ensures InOrder(Plug(c', t)) == InOrder(Plug(c, t))
  {
    var s, n, f := c.sib.n, c.n, c.side.Flip();
    var near, out := Sub(c.sib, c.side), Sub(c.sib, f);
    AtParts(h, c, t);
    AroundNode(h, c, t);
    AroundSibling(h, c, t, c.side);
    RemovalRedSibling(c, t, x);
    RecolourUp(h, c, t, false);
    var h1 := SetBlack(h, n, false);
    RecolourBeside(h1, c.(black := false), t, true);
    var h2 := SetBlack(h1, s, true);
    c' := Hole(Hole(c.up, s, true, c.side, out), n, false, c.side, near);
    assert At(h2, c.up, Before(f, n, false, s, true, out, near, t));
    RotateAt(h2, c.up, f, n, false, s, true, out, near, t);
    RotateOrder(c.up, f, n, false, s, true, out, near, t);
    assert Plug(c', t) == Plug(c.up, After(f, n, false, s, true, out, near, t));
    SameOrderBeside(c, t, c.(black := false, sib := c.sib.(black := true)), t);
  }

  /** A black sibling with black children under a red parent: the colours change places. */
  lemma SwapColoursFacts(h: Heap, c: Ctx, t: Tree, x: MapNode) returns (tree: Tree)
    requires At(h, c, t) && Deficient(c, t, x) && c.Hole? && !c.black && BlackNephews(c.sib)
    ensures c.n in h && c.sib.n in h
    ensures At(SetBlack(SetBlack(h, c.sib.n, false), c.n, true), Top, tree)
    ensures Rooted(tree, x) && InOrder(tree) == InOrder(Plug(c, t))
  {
    RecolourBeside(h, c, t, false);
    var c1 := c.(sib := c.sib.(black := false));
    RecolourUp(SetBlack(h, c.sib.n, false), c1, t, true);
    tree := Plug(c1.(black := true), t);
    RemovalSwapColours(c, t, x);
    SameOrderBeside(c, t, c1.(black := true), t);
  }

  /** Everything black: the sibling becomes red, and the parent is looked at next. */
  lemma MoveUpFacts(h: Heap, c: Ctx, t: Tree, x: MapNode) returns (t': Tree)
    requires At(h, c, t) && Deficient(c, t, x) && c.Hole? && c.black && BlackNephews(c.sib)
    ensures c.sib.n in h && t'.Node? && t'.n == c.n
    ensures At(SetBlack(h, c.sib.n, false), c.up, t') && Deficient(c.up, t', x)
    ensures InOrder(Plug(c.up, t')) == InOrder(Plug(c, t))
  {
    RecolourBeside(h, c, t, false);
    var c1 := c.(sib := c.sib.(black := false));
    t' := Mk(c.side, c.n, true, t, c1.sib);
    RemovalMoveUp(c, t, x);
    SameOrderBeside(c, t, c1, t);
  }

  lemma TurnSiblingFacts(h: Heap, c: Ctx, t: Tree, x: MapNode) returns (c': Ctx)
    requires At(h, c, t) && Deficient(c, t, x) && c.Hole? && IsBlack(c.sib)
    requires c.sib.Node? && IsBlack(Sub(c.sib, c.side.Flip())) && !IsBlack(Sub(c.sib, c.side))
    ensures var s, k := c.sib.n, Sub(c.sib, c.side).n;
            && s in h && k in h && s != k && h[s].Kid(c.side) == k && h[s].parent in h
            && (h[k].Kid(c.side.Flip()) != null ==> h[k].Kid(c.side.Flip()) in h)
            && At(RotateH(SetBlack(SetBlack(h, s, false), k, true), s, c.side), c', t)
    ensures c'.Hole? && c'.up == c.up && c'.n == c.n && c'.side == c.side && c'.black == c.black
    ensures c'.sib.Node? && c'.sib.black && !IsBlack(Sub(c'.sib, c.side.Flip()))
    ensures Deficient(c', t, x) && InOrder(Plug(c', t)) == InOrder(Plug(c, t))
  {
    var s, k, side, f := c.sib.n, Sub(c.sib, c.side), c.side, c.side.Flip();
    AroundSibling(h, c, t, side);
    AtParts(h, c, t);
    RecolourBeside(h, c, t, false);
    var c1 := c.(sib := c.sib.(black := false));
    RecolourNephew(SetBlack(h, s, false), c1, t, side, true);
    var k' := k.(black := true);
    var c2 := c1.(sib := WithKid(c1.sib, side, k'));
    var h2 := SetBlack(SetBlack(h, s, false), k.n, true);
    var beside := Hole(c.up, c.n, c.black, f, t);
    var far := Sub(c.sib, f);
    assert Plug(c2, t) == Plug(beside, Before(side, s, false, k.n, true, Sub(k, side), Sub(k, f), far));
    RotateAt(h2, beside, side, s, false, k.n, true, Sub(k, side), Sub(k, f), far);
    RotateOrder(beside, side, s, false, k.n, true, Sub(k, side), Sub(k, f), far);
    c' := c.(sib := After(side, s, false, k.n, true, Sub(k, side), Sub(k, f), far));
    assert Plug(c', t) == Plug(beside, c'.sib);
    RemovalTurnSibling(c, t, x);
    assert InOrder(c2.sib) == InOrder(c.sib);
    SameOrderBeside(c, t, c2, t);
  }

  lemma RemovalFinishFacts(h: Heap, c: Ctx, t: Tree, x: MapNode) returns (tree: Tree)
    requires At(h, c, t) && Deficient(c, t, x) && c.Hole? && IsBlack(c.sib)
    requires c.sib.Node? && !IsBlack(Sub(c.sib, c.side.Flip()))
    ensures var s, o := c.sib.n, Sub(c.sib, c.side.Flip()).n;
            && s in h && o in h && c.n in h && s != c.n && h[c.n].Kid(c.side.Flip()) == s
            && h[s].Kid(c.side.Flip()) == o
            && (h[s].Kid(c.side) != null ==> h[s].Kid(c.side) in h)
            && (h[c.n].parent != null ==> h[c.n].parent in h)
            && At(RotateH(SetBlack(SetBlack(SetBlack(h, s, c.black), c.n, true),
                  o, true), c.n, c.side.Flip()), Top, tree)
    ensures Rooted(tree, x) && InOrder(tree) == InOrder(Plug(c, t))
  {
    var s, o, f := c.sib.n, Sub(c.sib, c.side.Flip()), c.side.Flip();
    var near := Sub(c.sib, c.side);
    AroundSibling(h, c, t, f);
    AroundSibling(h, c, t, c.side);
    AtParts(h, c, t);
    RecolourBeside(h, c, t, c.black);
    var c1 := c.(sib := c.sib.(black := c.black));
    var h1 := SetBlack(h, s, c.black);
    RecolourUp(h1, c1, t, true);
    var c2 := c1.(black := true);
    var h2 := SetBlack(h1, c.n, true);
    RecolourNephew(h2, c2, t, f, true);
    var o' := o.(black := true);
    var c3 := c2.(sib := WithKid(c2.sib, f, o'));
    var h3 := SetBlack(h2, o.n, true);
    assert Plug(c3, t) == Plug(c.up, Before(f, c.n, true, s, c.black, o', near, t));
    RotateAt(h3, c.up, f, c.n, true, s, c.black, o', near, t);
    RotateOrder(c.up, f, c.n, true, s, c.black, o', near, t);
    tree := Plug(c.up, After(f, c.n, true, s, c.black, o', near, t));
    RemovalFinish(c, t, x);
    assert InOrder(c3.sib) == InOrder(c.sib);
    SameOrderBeside(c, t, c3, t);
  }

  /** Which pointers and colours the removal loop reads around the focus. */
  lemma RemovalView(h: Heap, c: Ctx, t: Tree)
    requires At(h, c, t) && t.Node?
    ensures t.n in h && h[t.n].parent == UpNode(c)
    ensures c.Hole? ==>
              && c.n in h && h[c.n].black == c.black
              && (h[c.n].left == t.n <==> c.side.L?)
              && h[c.n].Kid(c.side) == t.n && h[c.n].Kid(c.side.Flip()) == Root(c.sib)
    ensures c.Hole? && c.sib.Node? ==>
              && c.sib.n in h && h[c.sib.n].black == c.sib.black
              && h[c.sib.n].left == Root(c.sib.l) && h[c.sib.n].right == Root(c.sib.r)
              && (c.sib.l.Node? ==> c.sib.l.n in h && h[c.sib.l.n].black == c.sib.l.black)
              && (c.sib.r.Node? ==> c.sib.r.n in h && h[c.sib.r.n].black == c.sib.r.black)
  {
    if c.Hole? {
      AroundNode(h, c, t);
      if c.sib.Node? {
        AroundSibling(h, c, t, L);
        AroundSibling(h, c, t, R);
      }
    } else {
      AtParts(h, c, t);
    }
  }

  /** Only the inner nephew is red. */
  method TurnSibling(node: MapNode, s: MapNode, ghost nodes: set<MapNode>, ghost c: Ctx, ghost t: Tree,
                     ghost x: MapNode)
    returns (ghost c': Ctx)
    requires At(Snap(nodes), c, t) && Deficient(c, t, x) && t.n == node
    requires c.Hole? && c.sib.Node? && c.sib.black && s == c.sib.n
    requires IsBlack(Sub(c.sib, c.side.Flip())) && !IsBlack(Sub(c.sib, c.side))
    modifies nodes
    ensures c'.Hole? && c'.up == c.up && c'.n == c.n && c'.side == c.side && c'.black == c.black
    ensures At(Snap(nodes), c', t) && Deficient(c', t, x)
    ensures c'.sib.Node? && c'.sib.black && !IsBlack(Sub(c'.sib, c.side.Flip()))
    ensures InOrder(Plug(c', t)) == InOrder(Plug(c, t))
  {
    c' := TurnSiblingFacts(Snap(nodes), c, t, x);
    RemovalView(Snap(nodes), c, t);
    var side := if node == node.parent.left then L else R;
    Paint(s, false, nodes);
    if s.Kid(side) != null {
      Paint(s.Kid(side), true, nodes);
    }
    Rotate(s, side, nodes);
  }

  /** The colours before the last rotation of repairAfterRemoval_MapNode_ */
  method PaintForFinish(node: MapNode, ghost nodes: set<MapNode>, ghost c: Ctx, ghost t: Tree) returns (p: MapNode,
                        side: Side)
    requires At(Snap(nodes), c, t) && t.Node? && t.n == node
    requires c.Hole? && c.sib.Node? && c.sib.black && !IsBlack(Sub(c.sib, c.side.Flip()))
    requires c.n in nodes && c.sib.n in nodes && Sub(c.sib, c.side.Flip()).n in nodes
    modifies nodes
    ensures p == c.n && side == c.side.Flip()
    ensures var o := Sub(c.sib, c.side.Flip()).n;
            Snap(nodes) == SetBlack(SetBlack(SetBlack(old(Snap(nodes)), c.sib.n, c.black), c.n, true), o, true)
  {
    hide At, SetBlack;
    RemovalView(Snap(nodes), c, t);
    var s := Sibling(node);
    p := node.parent;
    Paint(s, p.black, nodes);
    Paint(p, true, nodes);
    side := if node == p.left then R else L;
    if s.Kid(side) != null {
      Paint(s.Kid(side), true, nodes);
    }
  }

  /** The last rotation of repairAfterRemoval_MapNode_. */
  method FinishRemoval(node: MapNode, ghost nodes: set<MapNode>, ghost c: Ctx, ghost t: Tree,
                       ghost x: MapNode)
    returns (ghost tree: Tree)
    requires At(Snap(nodes), c, t) && Deficient(c, t, x) && t.n == node
    requires c.Hole? && c.sib.Node? && c.sib.black && !IsBlack(Sub(c.sib, c.side.Flip()))
    modifies nodes
    ensures At(Snap(nodes), Top, tree) && Rooted(tree, x)
    ensures InOrder(tree) == InOrder(Plug(c, t))
  {
    hide At, BH, CtxNodes, SetParent, UpBlack, RotateH;
    tree := RemovalFinishFacts(Snap(nodes), c, t, x);
    var p, side := PaintForFinish(node, nodes, c, t);
    Rotate(p, side, nodes);
  }

  /** A black node, or none, with black children or none. */
  predicate AllBlack(s: MapNode?)
    reads s, if s == null then {} else {s.left, s.right}
  {
    !IsRedNode(s) && IsChildBlack(s, L) && IsChildBlack(s, R)
  }

  /** What the loop decides on, in terms of the tree. */
  lemma RemovalTests(h: Heap, nodes: set<MapNode>, c: Ctx, t: Tree, x: MapNode)
    requires h == Snap(nodes) && At(h, c, t) && Deficient(c, t, x)
    ensures t.n in nodes && t.n.parent == UpNode(c)
    ensures c.Hole? ==>
              && c.n in nodes && c.n.black == c.black && c.sib.Node?
              && Sibling(t.n) == c.sib.n && c.sib.n in nodes
              && (IsRedNode(c.sib.n) <==> !IsBlack(c.sib))
              && (AllBlack(c.sib.n) <==> BlackNephews(c.sib))
              && (IsChildBlack(c.sib.n, L) <==> IsBlack(c.sib.l))
              && (IsChildBlack(c.sib.n, R) <==> IsBlack(c.sib.r))
              && (t.n == c.n.left <==> c.side.L?)
  {
    RemovalView(h, c, t);
    if c.Hole? {
      DeficientSibling(c, t, x);
    }
  }

  /** The sibling is black and has a red child. */
  method RotateNephew(node: MapNode, s: MapNode, ghost nodes: set<MapNode>, ghost c: Ctx, ghost t: Tree,
                      ghost x: MapNode)
    returns (ghost tree: Tree)
    requires At(Snap(nodes), c, t) && Deficient(c, t, x) && t.n == node
    requires c.Hole? && c.sib.Node? && c.sib.black && s == c.sib.n && !BlackNephews(c.sib)
    modifies nodes
    ensures At(Snap(nodes), Top, tree) && Rooted(tree, x)
    ensures InOrder(tree) == InOrder(Plug(c, t))
  {
    RemovalTests(Snap(nodes), nodes, c, t, x);
    ghost var c' := c;
    if !IsRedNode(s) {
      var side := if node == node.parent.left then L else R;
      if IsChildBlack(s, side.Flip()) && !IsChildBlack(s, side) {
        c' := TurnSibling(node, s, nodes, c, t, x);
      }
    }
    tree := FinishRemoval(node, nodes, c', t, x);
  }

  /** Afterwards the sibling is black. */
  method SettleSibling(node: MapNode, ghost nodes: set<MapNode>, ghost c: Ctx, ghost t: Tree, ghost x: MapNode)
    returns (ghost c': Ctx)
    requires At(Snap(nodes), c, t) && Deficient(c, t, x) && t.n == node && c.Hole?
    modifies nodes
    ensures At(Snap(nodes), c', t) && Deficient(c', t, x)
    ensures c'.Hole? && IsBlack(c'.sib) && (c'.black ==> c' == c)
    ensures InOrder(Plug(c', t)) == InOrder(Plug(c, t))
  {
    RemovalTests(Snap(nodes), nodes, c, t, x);
    var s := Sibling(node);
    c' := c;
    if IsRedNode(s) {
      c' := RedSibling(node, s, nodes, c, t, x);
    }
  }

  /** repairAfterRemoval_MapNode_: from a tree in which the place of `x` is one black node short
      to one that obeys the rules without `x`, over the same nodes in the same order. */
  method RepairAfterRemoval(node0: MapNode, ghost nodes: set<MapNode>, ghost c0: Ctx, ghost t0: Tree,
                            ghost x: MapNode)
    returns (ghost tree: Tree)
    requires Whole(nodes, Plug(c0, t0)) && Deficient(c0, t0, x) && t0.n == node0
    modifies nodes
    ensures Whole(nodes, tree) && Rooted(tree, x)
    ensures InOrder(tree) == InOrder(Plug(c0, t0))
  {
    hide BH, BlackNephews, CtxRB, Nodes, Snap;
    var node := node0;
    ghost var c, t := c0, t0;
    RemovalTests(Snap(nodes), nodes, c, t, x);
    tree := t;
    while node.parent != null
      invariant At(Snap(nodes), c, t) && Deficient(c, t, x) && t.n == node
      invariant node.parent == UpNode(c)
      invariant InOrder(Plug(c, t)) == InOrder(Plug(c0, t0))
      invariant c.Top? ==> tree == t
      decreases Depth(c)
    {
      ghost var c1 := SettleSibling(node, nodes, c, t, x);
      RemovalTests(Snap(nodes), nodes, c1, t, x);
      var s := Sibling(node);
      if node.parent.black && AllBlack(s) {
        ghost var t' := MoveUpFacts(Snap(nodes), c1, t, x);
        if s != null {
          Paint(s, false, nodes);
        }
        node := node.parent;
        assert Depth(c) == 1 + Depth(c1.up);
        c, t, tree := c1.up, t', t';
        RemovalTests(Snap(nodes), nodes, c, t, x);
        continue;
      }
      if IsRedNode(node.parent) && AllBlack(s) {
        tree := SwapColoursFacts(Snap(nodes), c1, t, x);
        if s != null {
          Paint(s, false, nodes);
        }
        Paint(node.parent, true, nodes);
      } else {
        tree := RotateNephew(node, s, nodes, c1, t, x);
      }
      break;
    }
    SameOrderSameNodes(tree, Plug(c0, t0));
  }

  // ---- Whole trees ----

  lemma WholeSelf(nodes: set<MapNode>, tree: Tree)
    requires Whole(nodes, tree)
    ensures Nodes(tree) == nodes && Whole(Nodes(tree), tree)
  {
    hide Nodes, At;
  }

  /** Nodes that are no longer in the tree may be forgotten. */
  lemma Restrict(nodes: set<MapNode>, tree: Tree)
    requires At(Snap(nodes), Top, tree) && Nodes(tree) <= nodes
    ensures Whole(Nodes(tree), tree)
  {
    RepFrame(Snap(nodes), Snap(Nodes(tree)), tree, null);
  }

  lemma ParentAt(tree: Tree, c: Ctx, t: Tree)
    requires Whole(Nodes(tree), tree) && Plug(c, t) == tree && t.Node?
    ensures t.n in Nodes(tree) && t.n.parent == UpNode(c)
    ensures t.n.left == Root(t.l) && t.n.right == Root(t.r) && t.n.black == t.black
  {
    assert At(Snap(Nodes(tree)), c, t);
    AtParts(Snap(Nodes(tree)), c, t);
    PlugNodes(c, t);
  }

  /** The walk of updateRoot_Map_. */
  method ClimbToRoot(node: MapNode, ghost tree: Tree) returns (r: MapNode)
    requires Whole(Nodes(tree), tree) && node in Nodes(tree)
    ensures r == Root(tree) && Whole(Nodes(tree), tree)
  {
    ghost var c, t := Locate(tree, node);
    r := node;
    ParentAt(tree, c, t);
    while r.parent != null
      invariant Whole(Nodes(tree), tree)
      invariant Plug(c, t) == tree && t.Node? && t.n == r && r.parent == UpNode(c)
      decreases Depth(c)
    {
      r := r.parent;
      t := Mk(c.side, c.n, c.black, t, c.sib);
      c := c.up;
      ParentAt(tree, c, t);
    }
  }
}
