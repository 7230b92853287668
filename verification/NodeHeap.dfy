/** The pointers and colours of a set of nodes as one value, when such a value spells out a tree,
    and what the pointer surgery of map.c makes of it. */
module NodeHeap {
  import opened MapTree

  datatype Cell = Cell(parent: MapNode?, left: MapNode?, right: MapNode?, black: bool) {
    function Kid(s: Side): MapNode? {
      if s.L? then left else right
    }

    function WithKid(s: Side, k: MapNode?): Cell {
      if s.L? then this.(left := k) else this.(right := k)
    }
  }

  type Heap = map<MapNode, Cell>

  ghost function Snap(nodes: set<MapNode>): (h: Heap)
    reads nodes
    ensures h.Keys == nodes
  {
    map n | n in nodes :: Cell(n.parent, n.left, n.right, n.black)
  }

  ghost function SetKid(h: Heap, n: MapNode, s: Side, k: MapNode?): Heap
    requires n in h
  {
    h[n := h[n].WithKid(s, k)]
  }

  ghost function SetParent(h: Heap, n: MapNode, p: MapNode?): Heap
    requires n in h
  {
    h[n := h[n].(parent := p)]
  }

  ghost function SetBlack(h: Heap, n: MapNode, b: bool): Heap
    requires n in h
  {
    h[n := h[n].(black := b)]
  }

  /** Side on which `d` hangs under its parent, as downLink_MapNode_ decides it. */
  ghost function SideUnder(h: Heap, p: MapNode, d: MapNode): Side
    requires p in h
  {
    if h[p].left == d then L else R
  }

  /** The cells of `t` are exactly what the shape of `t` asks for; `p` is the parent of its root. */
  ghost predicate Rep(h: Heap, t: Tree, p: MapNode?) {
    t.Node? ==>
      && t.n in h
      && h[t.n] == Cell(p, Root(t.l), Root(t.r), t.black)
      && Rep(h, t.l, t.n) && Rep(h, t.r, t.n)
  }

  /** The cells on the way up and beside it; `hole` is the node that the lowest link points to. */
  ghost predicate RepCtx(h: Heap, c: Ctx, hole: MapNode?) {
    c.Hole? ==>
      && c.n in h
      && h[c.n].parent == UpNode(c.up) && h[c.n].black == c.black
      && h[c.n].Kid(c.side) == hole && h[c.n].Kid(c.side.Flip()) == Root(c.sib)
      && Rep(h, c.sib, c.n) && RepCtx(h, c.up, c.n)
  }

  /** The heap spells out a tree of distinct nodes, which has `t` at the place `c`. */
  ghost predicate At(h: Heap, c: Ctx, t: Tree) {
    Dis(Plug(c, t)) && Rep(h, Plug(c, t), null)
  }

  lemma {:induction false} PlugRep(h: Heap, c: Ctx, t: Tree)
    ensures Rep(h, Plug(c, t), null) <==> RepCtx(h, c, Root(t)) && Rep(h, t, UpNode(c))
  {
    match c
    case Top =>
    case Hole(up, n, b, side, sib) =>
      PlugRep(h, up, Mk(side, n, b, t, sib));
  }

  lemma AtParts(h: Heap, c: Ctx, t: Tree)
    ensures At(h, c, t) <==>
            && RepCtx(h, c, Root(t)) && Rep(h, t, UpNode(c))
            && CtxDis(c) && Dis(t) && CtxNodes(c) !! Nodes(t)
  {
    PlugRep(h, c, t);
    PlugNodes(c, t);
  }

  lemma {:induction false} RepNodes(h: Heap, t: Tree, p: MapNode?)
    requires Rep(h, t, p)
    ensures Nodes(t) <= h.Keys
  {
    if t.Node? {
      RepNodes(h, t.l, t.n);
      RepNodes(h, t.r, t.n);
    }
  }

  lemma {:induction false} RepFrame(h: Heap, h': Heap, t: Tree, p: MapNode?)
    requires Rep(h, t, p)
    requires forall n :: n in Nodes(t) && n in h ==> n in h' && h'[n] == h[n]
    ensures Rep(h', t, p)
  {
    if t.Node? {
      RepFrame(h, h', t.l, t.n);
      RepFrame(h, h', t.r, t.n);
    }
  }

  lemma {:induction false} RepCtxFrame(h: Heap, h': Heap, c: Ctx, hole: MapNode?)
    requires RepCtx(h, c, hole)
    requires forall n :: n in CtxNodes(c) && n in h ==> n in h' && h'[n] == h[n]
    ensures RepCtx(h', c, hole)
  {
    if c.Hole? {
      RepFrame(h, h', c.sib, c.n);
      RepCtxFrame(h, h', c.up, c.n);
    }
  }

  /** A subtree gets another parent: only the cell of its root changes. */
  lemma RepReparent(h: Heap, h': Heap, t: Tree, p: MapNode?, p': MapNode?)
    requires Rep(h, t, p) && Dis(t)
    requires t.Node? ==> t.n in h' && h'[t.n] == h[t.n].(parent := p')
    requires forall n :: n in Nodes(t) && n in h && n != t.n ==> n in h' && h'[n] == h[n]
    ensures Rep(h', t, p')
  {
    if t.Node? {
      RepFrame(h, h', t.l, t.n);
      RepFrame(h, h', t.r, t.n);
    }
  }

  /** The lowest link of a context points elsewhere: only the cell above the hole changes. */
  lemma RepCtxRelink(h: Heap, h': Heap, c: Ctx, hole: MapNode?, hole': MapNode?)
    requires RepCtx(h, c, hole) && CtxDis(c)
    requires c.Hole? ==> c.n in h' && h'[c.n] == h[c.n].WithKid(c.side, hole')
    requires forall n :: n in CtxNodes(c) && n in h && n != UpNode(c) ==> n in h' && h'[n] == h[n]
    ensures RepCtx(h', c, hole')
  {
    if c.Hole? {
      RepFrame(h, h', c.sib, c.n);
      RepCtxFrame(h, h', c.up, c.n);
    }
  }

  /** The link that leads down to `d` is found by asking whether `d` is the left child. */
  lemma LowestLink(h: Heap, c: Ctx, d: MapNode)
    requires RepCtx(h, c, d) && d !in CtxNodes(c)
    ensures c.Hole? ==> SideUnder(h, c.n, d) == c.side
  {
    if c.Hole? && c.side.R? && c.sib.Node? {
      assert h[c.n].left == c.sib.n;
    }
  }

  // ---- Colour changes ----

  lemma RecolourAt(h: Heap, c: Ctx, t: Tree, b: bool)
    requires At(h, c, t) && t.Node?
    ensures t.n in h && At(SetBlack(h, t.n, b), c, t.(black := b))
  {
    AtParts(h, c, t);
    var h' := SetBlack(h, t.n, b);
    RepFrame(h, h', t.l, t.n);
    RepFrame(h, h', t.r, t.n);
    RepCtxFrame(h, h', c, Root(t));
    AtParts(h', c, t.(black := b));
  }

  // ---- Rotation ----

  /** The pointer writes of rotate_MapNode_, in their order; the child on side `s` comes up. */
  ghost function RotateH(h: Heap, d: MapNode, s: Side): (r: Heap)
    requires d in h && h[d].Kid(s) != null && h[d].Kid(s) in h
    requires h[h[d].Kid(s)].Kid(s.Flip()) != null ==> h[h[d].Kid(s)].Kid(s.Flip()) in h
    requires h[d].parent != null ==> h[d].parent in h
    ensures r.Keys == h.Keys
  {
    var up := h[d].parent;
    var newD := h[d].Kid(s);
    var inner := h[newD].Kid(s.Flip());
    var h1 := SetKid(h, d, s, inner);
    var h2 := if inner != null then SetParent(h1, inner, d) else h1;
    var h3 := SetKid(h2, newD, s.Flip(), d);
    var h4 := SetParent(h3, newD, h3[d].parent);
    var h5 := if up != null then SetKid(h4, up, SideUnder(h, up, d), newD) else h4;
    SetParent(h5, d, newD)
  }

  ghost function Before(s: Side, d: MapNode, bd: bool, m: MapNode, bm: bool,
                        outer: Tree, inner: Tree, far: Tree): Tree {
    Mk(s, d, bd, Mk(s, m, bm, outer, inner), far)
  }

  ghost function After(s: Side, d: MapNode, bd: bool, m: MapNode, bm: bool,
                       outer: Tree, inner: Tree, far: Tree): Tree {
    Mk(s, m, bm, outer, Mk(s, d, bd, inner, far))
  }

  lemma RotateOrder(c: Ctx, s: Side, d: MapNode, bd: bool, m: MapNode, bm: bool,
                    outer: Tree, inner: Tree, far: Tree)
    ensures InOrder(Plug(c, Before(s, d, bd, m, bm, outer, inner, far)))
         == InOrder(Plug(c, After(s, d, bd, m, bm, outer, inner, far)))
  {
    PlugInOrder(c, Before(s, d, bd, m, bm, outer, inner, far));
    PlugInOrder(c, After(s, d, bd, m, bm, outer, inner, far));
    RotateInOrder(s, d, bd, m, bm, outer, inner, far);
    hide *;
  }

  lemma RotateInOrder(s: Side, d: MapNode, bd: bool, m: MapNode, bm: bool, outer: Tree, inner: Tree, far: Tree)
    ensures InOrder(Before(s, d, bd, m, bm, outer, inner, far)) == InOrder(After(s, d, bd, m, bm, outer, inner, far))
  {
    var a, b, e := InOrder(outer), InOrder(inner), InOrder(far);
    if s.L? {
      assert InOrder(Node(m, bm, outer, inner)) == a + [m] + b;
      assert InOrder(Node(d, bd, inner, far)) == b + [d] + e;
      assert (a + [m] + b) + [d] + e == a + [m] + (b + [d] + e);
    } else {
      assert InOrder(Node(m, bm, inner, outer)) == b + [m] + a;
      assert InOrder(Node(d, bd, far, inner)) == e + [d] + b;
      assert e + [d] + (b + [m] + a) == (e + [d] + b) + [m] + a;
    }
  }

  /** Which cells the writes of a rotation leave changed when the nodes involved are distinct. */
  lemma RotateCells(h: Heap, d: MapNode, s: Side)
    requires RotateH.requires(h, d, s)
    requires var m := h[d].Kid(s);
             var inner := h[m].Kid(s.Flip());
             m != d && inner != d && inner != m && (h[d].parent != null ==> h[d].parent !in {d, m, inner})
    ensures var m := h[d].Kid(s);
            var inner := h[m].Kid(s.Flip());
            var up := h[d].parent;
            var h' := RotateH(h, d, s);
            && h'[d] == h[d].WithKid(s, inner).(parent := m)
            && h'[m] == h[m].WithKid(s.Flip(), d).(parent := up)
            && (inner != null ==> h'[inner] == h[inner].(parent := d))
            && (up != null ==> h'[up] == h[up].WithKid(SideUnder(h, up, d), m))
            && Elsewhere(h, h', d, m, inner, up)
  {
  }

  /** The five pieces around a rotation do not overlap. */
  ghost predicate Apart(c: Ctx, d: MapNode, m: MapNode, outer: Tree, inner: Tree, far: Tree) {
    && CtxDis(c) && Dis(outer) && Dis(inner) && Dis(far) && d != m
    && d !in CtxNodes(c) && d !in Nodes(outer) && d !in Nodes(inner) && d !in Nodes(far)
    && m !in CtxNodes(c) && m !in Nodes(outer) && m !in Nodes(inner) && m !in Nodes(far)
    && CtxNodes(c) !! Nodes(outer) && CtxNodes(c) !! Nodes(inner) && CtxNodes(c) !! Nodes(far)
    && Nodes(outer) !! Nodes(inner) && Nodes(outer) !! Nodes(far) && Nodes(inner) !! Nodes(far)
  }

  lemma MkParts(s: Side, n: MapNode, b: bool, near: Tree, far: Tree)
    ensures Nodes(Mk(s, n, b, near, far)) == {n} + Nodes(near) + Nodes(far)
    ensures Dis(Mk(s, n, b, near, far)) <==>
            n !in Nodes(near) && n !in Nodes(far) && Nodes(near) !! Nodes(far) && Dis(near) && Dis(far)
  {
  }

  lemma BeforeApart(c: Ctx, s: Side, d: MapNode, bd: bool, m: MapNode, bm: bool,
                    outer: Tree, inner: Tree, far: Tree)
    ensures Apart(c, d, m, outer, inner, far) <==> Dis(Plug(c, Before(s, d, bd, m, bm, outer, inner, far)))
  {
    hide Dis, Nodes, Mk, CtxNodes, CtxDis, Plug;
    var low := Mk(s, m, bm, outer, inner);
    MkParts(s, m, bm, outer, inner);
    MkParts(s, d, bd, low, far);
    PlugNodes(c, Mk(s, d, bd, low, far));
  }

  lemma AfterApart(c: Ctx, s: Side, d: MapNode, bd: bool, m: MapNode, bm: bool,
                   outer: Tree, inner: Tree, far: Tree)
    ensures Apart(c, d, m, outer, inner, far) <==> Dis(Plug(c, After(s, d, bd, m, bm, outer, inner, far)))
  {
    hide Dis, Nodes, Mk, CtxNodes, CtxDis, Plug;
    var low := Mk(s, d, bd, inner, far);
    MkParts(s, d, bd, inner, far);
    MkParts(s, m, bm, outer, low);
    PlugNodes(c, Mk(s, m, bm, outer, low));
  }

  lemma RootsApart(c: Ctx, d: MapNode, m: MapNode, outer: Tree, inner: Tree, far: Tree)
    requires Apart(c, d, m, outer, inner, far)
    ensures Root(inner) != d && Root(inner) != m
    ensures c.Hole? ==> UpNode(c) != d && UpNode(c) != m && UpNode(c) != Root(inner)
  {
    assert inner.Node? ==> inner.n in Nodes(inner);
    assert c.Hole? ==> c.n in CtxNodes(c);
  }

  /** The cells that a rotation reads. */
  lemma BeforeRep(h: Heap, c: Ctx, s: Side, d: MapNode, bd: bool, m: MapNode, bm: bool,
                  outer: Tree, inner: Tree, far: Tree)
    requires Rep(h, Before(s, d, bd, m, bm, outer, inner, far), UpNode(c)) && RepCtx(h, c, d)
    ensures d in h && h[d] == Cell(UpNode(c), h[d].left, h[d].right, bd)
    ensures h[d].Kid(s) == m && h[d].Kid(s.Flip()) == Root(far)
    ensures m in h && h[m] == Cell(d, h[m].left, h[m].right, bm)
    ensures h[m].Kid(s) == Root(outer) && h[m].Kid(s.Flip()) == Root(inner)
    ensures Rep(h, outer, m) && Rep(h, inner, m) && Rep(h, far, d)
    ensures inner.Node? ==> inner.n in h
    ensures c.Hole? ==> c.n in h
  {
    if s.L? {
      assert Rep(h, Node(m, bm, outer, inner), d);
    } else {
      assert Rep(h, Node(m, bm, inner, outer), d);
    }
  }

  lemma AfterRep(h: Heap, c: Ctx, s: Side, d: MapNode, bd: bool, m: MapNode, bm: bool,
                 outer: Tree, inner: Tree, far: Tree)
    requires d in h && h[d] == Cell(m, h[d].left, h[d].right, bd)
    requires h[d].Kid(s) == Root(inner) && h[d].Kid(s.Flip()) == Root(far)
    requires m in h && h[m] == Cell(UpNode(c), h[m].left, h[m].right, bm)
    requires h[m].Kid(s) == Root(outer) && h[m].Kid(s.Flip()) == d
    requires Rep(h, outer, m) && Rep(h, inner, d) && Rep(h, far, d)
    ensures Rep(h, After(s, d, bd, m, bm, outer, inner, far), UpNode(c))
  {
    assert Rep(h, Mk(s, d, bd, inner, far), m);
  }

  /** rotate_MapNode_ turns the subtree at `d` around its child on side `s`, wherever it hangs. */
  lemma RotateAt(h: Heap, c: Ctx, s: Side, d: MapNode, bd: bool, m: MapNode, bm: bool,
                 outer: Tree, inner: Tree, far: Tree)
    requires At(h, c, Before(s, d, bd, m, bm, outer, inner, far))
    ensures RotateH.requires(h, d, s)
    ensures At(RotateH(h, d, s), c, After(s, d, bd, m, bm, outer, inner, far))
  {
    hide Plug, Rep, RepCtx, Dis, CtxDis, Nodes, CtxNodes, Apart;
    PlugRep(h, c, Before(s, d, bd, m, bm, outer, inner, far));
    BeforeRep(h, c, s, d, bd, m, bm, outer, inner, far);
    BeforeApart(c, s, d, bd, m, bm, outer, inner, far);
    RotatePieces(h, c, s, d, m, outer, inner, far);
    hide RotateH;
    var h' := RotateH(h, d, s);
    AfterRep(h', c, s, d, bd, m, bm, outer, inner, far);
    PlugRep(h', c, After(s, d, bd, m, bm, outer, inner, far));
    AfterApart(c, s, d, bd, m, bm, outer, inner, far);
  }

  lemma RotatePieces(h: Heap, c: Ctx, s: Side, d: MapNode, m: MapNode, outer: Tree, inner: Tree, far: Tree)
    requires Apart(c, d, m, outer, inner, far)
    requires RepCtx(h, c, d) && Rep(h, outer, m) && Rep(h, inner, m) && Rep(h, far, d)
    requires d in h && h[d].Kid(s) == m && h[d].parent == UpNode(c) && (c.Hole? ==> c.n in h)
    requires m in h && h[m].Kid(s.Flip()) == Root(inner) && (inner.Node? ==> inner.n in h)
    ensures var h' := RotateH(h, d, s);
            && RepCtx(h', c, m) && Rep(h', outer, m) && Rep(h', inner, d) && Rep(h', far, d)
            && h'[d] == h[d].WithKid(s, Root(inner)).(parent := m)
            && h'[m] == h[m].WithKid(s.Flip(), d).(parent := UpNode(c))
  {
    hide Rep, RepCtx, Dis, CtxDis, Nodes, CtxNodes;
    RootsApart(c, d, m, outer, inner, far);
    RotateCells(h, d, s);
    hide RotateH;
    var h' := RotateH(h, d, s);
    KeepPiece(h, h', c, d, m, inner, outer, m);
    MovePiece(h, h', c, d, m, inner);
    KeepPiece(h, h', c, d, m, inner, far, d);
    RelinkPiece(h, h', c, d, m, inner);
  }

  // The pieces around a rotation keep their cells, or get the new parent or link they need.

  ghost predicate Elsewhere(h: Heap, h': Heap, d: MapNode, m: MapNode, i: MapNode?, u: MapNode?) {
    forall n :: n in h && n != d && n != m && n != i && n != u ==> n in h' && h'[n] == h[n]
  }

  lemma KeepPiece(h: Heap, h': Heap, c: Ctx, d: MapNode, m: MapNode, inner: Tree, t: Tree, p: MapNode)
    requires Elsewhere(h, h', d, m, Root(inner), UpNode(c)) && Rep(h, t, p)
    requires d !in Nodes(t) && m !in Nodes(t) && Nodes(inner) !! Nodes(t) && CtxNodes(c) !! Nodes(t)
    ensures Rep(h', t, p)
  {
    forall n | n in Nodes(t) && n in h
      ensures n in h' && h'[n] == h[n]
    {
      assert n != Root(inner) && n != UpNode(c);
    }
    RepFrame(h, h', t, p);
  }

  lemma MovePiece(h: Heap, h': Heap, c: Ctx, d: MapNode, m: MapNode, inner: Tree)
    requires Elsewhere(h, h', d, m, Root(inner), UpNode(c)) && Rep(h, inner, m) && Dis(inner)
    requires inner.Node? ==> inner.n in h && inner.n in h' && h'[inner.n] == h[inner.n].(parent := d)
    requires d !in Nodes(inner) && m !in Nodes(inner) && CtxNodes(c) !! Nodes(inner)
    ensures Rep(h', inner, d)
  {
    forall n | n in Nodes(inner) && n in h && n != inner.n
      ensures n in h' && h'[n] == h[n]
    {
      assert n != UpNode(c);
    }
    RepReparent(h, h', inner, m, d);
  }

  lemma RelinkPiece(h: Heap, h': Heap, c: Ctx, d: MapNode, m: MapNode, inner: Tree)
    requires Elsewhere(h, h', d, m, Root(inner), UpNode(c)) && RepCtx(h, c, d) && CtxDis(c)
    requires c.Hole? ==> c.n in h && c.n in h' && h'[c.n] == h[c.n].WithKid(SideUnder(h, c.n, d), m)
    requires d !in CtxNodes(c) && m !in CtxNodes(c) && CtxNodes(c) !! Nodes(inner)
    ensures RepCtx(h', c, m)
  {
    LowestLink(h, c, d);
    forall n | n in CtxNodes(c) && n in h && n != UpNode(c)
      ensures n in h' && h'[n] == h[n]
    {
      assert n != Root(inner);
    }
    RepCtxRelink(h, h', c, d, m);
  }
}
