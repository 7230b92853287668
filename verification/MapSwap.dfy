/** swapNodes_Map_: two nodes change places in a tree without touching their keys. Its writes
    amount to renaming the two nodes into each other everywhere. */
module MapSwap {
  import opened MapTree
  import opened RedBlack
  import opened NodeHeap
  import opened MapRepair

  function Ren(x: MapNode, y: MapNode, n: MapNode?): (r: MapNode?)
    ensures n != null ==> r != null
  {
    if n == x then y else if n == y then x else n
  }

  ghost function RenCell(x: MapNode, y: MapNode, c: Cell): Cell {
    Cell(Ren(x, y, c.parent), Ren(x, y, c.left), Ren(x, y, c.right), c.black)
  }

  ghost function RenHeap(x: MapNode, y: MapNode, h: Heap): Heap
    requires x in h && y in h
  {
    map n | n in h :: RenCell(x, y, h[Ren(x, y, n)])
  }

  ghost function RenTree(x: MapNode, y: MapNode, t: Tree): Tree {
    if t.Leaf? then Leaf
    else Node(Ren(x, y, t.n), t.black, RenTree(x, y, t.l), RenTree(x, y, t.r))
  }

  ghost function RenSeq(x: MapNode, y: MapNode, s: seq<MapNode>): (r: seq<MapNode>)
    ensures |r| == |s|
  {
    seq(|s|, i requires 0 <= i < |s| => Ren(x, y, s[i]))
  }

  // ---- A renamed heap holds the renamed tree ----

  lemma {:induction false} RenRep(x: MapNode, y: MapNode, h: Heap, t: Tree, p: MapNode?)
    requires x in h && y in h && Rep(h, t, p)
    ensures Rep(RenHeap(x, y, h), RenTree(x, y, t), Ren(x, y, p))
  {
    if t.Node? {
      RenRep(x, y, h, t.l, t.n);
      RenRep(x, y, h, t.r, t.n);
    }
  }

  lemma {:induction false} RenNodes(x: MapNode, y: MapNode, t: Tree)
    ensures forall n :: n in Nodes(t) <==> Ren(x, y, n) in Nodes(RenTree(x, y, t))
    ensures Dis(t) ==> Dis(RenTree(x, y, t))
  {
    if t.Node? {
      RenNodes(x, y, t.l);
      RenNodes(x, y, t.r);
      if Dis(t) {
        forall n | n in Nodes(RenTree(x, y, t.l))
          ensures n !in Nodes(RenTree(x, y, t.r))
        {
          assert Ren(x, y, Ren(x, y, n)) == n;
        }
      }
    }
  }

  lemma {:induction false} RenWhole(x: MapNode, y: MapNode, t: Tree)
    requires x in Nodes(t) && y in Nodes(t)
    ensures Nodes(RenTree(x, y, t)) == Nodes(t)
  {
    RenNodes(x, y, t);
    assert Nodes(RenTree(x, y, t)) <= Nodes(t) by {
      forall n | n in Nodes(RenTree(x, y, t))
        ensures n in Nodes(t)
      {
        assert Ren(x, y, Ren(x, y, n)) == n;
      }
    }
    assert Nodes(t) <= Nodes(RenTree(x, y, t)) by {
      forall n | n in Nodes(t)
        ensures n in Nodes(RenTree(x, y, t))
      {
        assert Ren(x, y, n) in Nodes(t);
        assert Ren(x, y, Ren(x, y, n)) == n;
      }
    }
  }

  lemma {:induction false} RenInOrder(x: MapNode, y: MapNode, t: Tree)
    ensures InOrder(RenTree(x, y, t)) == RenSeq(x, y, InOrder(t))
  {
    if t.Node? {
      RenInOrder(x, y, t.l);
      RenInOrder(x, y, t.r);
      var a, b := InOrder(t.l), InOrder(t.r);
      assert RenSeq(x, y, a + [t.n] + b) == RenSeq(x, y, a) + [Ren(x, y, t.n)] + RenSeq(x, y, b);
    }
  }

  /** Colours stay with the places, so the rules are kept. */
  lemma {:induction false} RenRB(x: MapNode, y: MapNode, t: Tree)
    requires RB(t, null)
    ensures RB(RenTree(x, y, t), null) && BH(RenTree(x, y, t), null) == BH(t, null)
    ensures IsBlack(RenTree(x, y, t)) == IsBlack(t)
  {
    if t.Node? {
      RenRB(x, y, t.l);
      RenRB(x, y, t.r);
    }
  }

  // ---- The writes ----

  /** Links between the nodes `x` and `n`, with cells `cx` and `cn`, lead back and forth. */
  ghost predicate Mutual(x: MapNode, cx: Cell, n: MapNode, cn: Cell) {
    && (cn.parent == x <==> cx.left == n || cx.right == n)
    && (cx.parent == n <==> cn.left == x || cn.right == x)
    && (cn.left == x || cn.right == x ==> cn.left != cn.right)
  }

  /** A node is not its own neighbour. */
  ghost predicate Proper(x: MapNode, cx: Cell) {
    cx.parent != x && cx.left != x && cx.right != x
  }

  /** The pointers of `x` stay in the heap. */
  ghost predicate Wired(h: Heap, x: MapNode) {
    && x in h && Proper(x, h[x])
    && (h[x].parent != null ==> h[x].parent in h)
    && (h[x].left != null ==> h[x].left in h)
    && (h[x].right != null ==> h[x].right in h)
  }

  /** The downlinks and children that swapNodes_Map_ sets, with the two nodes already exchanged. */
  datatype Links = Links(xp: MapNode?, xs: Side, xl: MapNode?, xr: MapNode?,
                         yp: MapNode?, ys: Side, yl: MapNode?, yr: MapNode?) {
    ghost predicate In(h: Heap) {
      && (xp != null ==> xp in h) && (xl != null ==> xl in h) && (xr != null ==> xr in h)
      && (yp != null ==> yp in h) && (yl != null ==> yl in h) && (yr != null ==> yr in h)
    }
  }

  ghost function LinksOf(x: MapNode, cx: Cell, xs: Side, y: MapNode, cy: Cell, ys: Side): Links {
    Links(Ren(x, y, cx.parent), xs, Ren(x, y, cx.left), Ren(x, y, cx.right),
          Ren(x, y, cy.parent), ys, Ren(x, y, cy.left), Ren(x, y, cy.right))
  }

  ghost function SideOf(h: Heap, x: MapNode): Side
    requires Wired(h, x)
  {
    if h[x].parent != null then SideUnder(h, h[x].parent, x) else R
  }

  ghost function SwapLinks(h: Heap, x: MapNode, y: MapNode): (k: Links)
    requires Wired(h, x) && Wired(h, y)
    ensures k.In(h)
  {
    LinksOf(x, h[x], SideOf(h, x), y, h[y], SideOf(h, y))
  }

  /** What the six setChild_MapNode_ calls leave in the cell of `n`. */
  ghost function Relinked(x: MapNode, y: MapNode, k: Links, n: MapNode, c: Cell): Cell {
    Cell(if n == k.yl || n == k.yr then x else if n == k.xl || n == k.xr then y
         else if n == x then k.yp else if n == y then k.xp else c.parent,
         if n == x then k.yl else if n == y then k.xl
         else if n == k.yp && k.ys.L? then x else if n == k.xp && k.xs.L? then y else c.left,
         if n == x then k.yr else if n == y then k.xr
         else if n == k.yp && k.ys.R? then x else if n == k.xp && k.xs.R? then y else c.right,
         c.black)
  }

  /** setChild_MapNode_ */
  ghost function SetChildH(h: Heap, d: MapNode?, s: Side, k: MapNode?): (r: Heap)
    requires d != null ==> d in h
    requires k != null ==> k in h
    ensures r.Keys == h.Keys
  {
    var h1 := if d != null then SetKid(h, d, s, k) else h;
    if k != null then SetParent(h1, k, d) else h1
  }

  ghost function ChildSet(d: MapNode?, s: Side, k: MapNode?, n: MapNode, c: Cell): Cell {
    Cell(if n == k then d else c.parent,
         if n == d && s.L? then k else c.left,
         if n == d && s.R? then k else c.right,
         c.black)
  }

  lemma SetChildCell(h: Heap, d: MapNode?, s: Side, k: MapNode?, n: MapNode)
    requires d != null ==> d in h
    requires k != null ==> k in h
    requires n in h
    ensures SetChildH(h, d, s, k)[n] == ChildSet(d, s, k, n, h[n])
  {
  }

  /** Downlinks first, then all children. */
  ghost function RelinkH(h: Heap, x: MapNode, y: MapNode, k: Links): (r: Heap)
    requires x in h && y in h && k.In(h)
    ensures r.Keys == h.Keys
  {
    var h1 := SetChildH(h, k.xp, k.xs, y);
    var h2 := SetChildH(h1, k.yp, k.ys, x);
    var h3 := SetChildH(h2, y, L, k.xl);
    var h4 := SetChildH(h3, y, R, k.xr);
    var h5 := SetChildH(h4, x, L, k.yl);
    SetChildH(h5, x, R, k.yr)
  }

  lemma ChildrenSet(x: MapNode, y: MapNode, k: Links, n: MapNode, c: Cell)
    requires x != y
    ensures ChildSet(x, R, k.yr, n, ChildSet(x, L, k.yl, n, ChildSet(y, R, k.xr, n, ChildSet(y, L, k.xl, n,
              ChildSet(k.yp, k.ys, x, n, ChildSet(k.xp, k.xs, y, n, c))))))
         == Relinked(x, y, k, n, c)
  {
  }

  lemma RelinkCell(h: Heap, x: MapNode, y: MapNode, k: Links, n: MapNode)
    requires x in h && y in h && k.In(h) && n in h && x != y
    ensures RelinkH(h, x, y, k)[n] == Relinked(x, y, k, n, h[n])
  {
    hide ChildSet, Relinked, SetChildH;
    var h1 := SetChildH(h, k.xp, k.xs, y);
    SetChildCell(h, k.xp, k.xs, y, n);
    var h2 := SetChildH(h1, k.yp, k.ys, x);
    SetChildCell(h1, k.yp, k.ys, x, n);
    var h3 := SetChildH(h2, y, L, k.xl);
    SetChildCell(h2, y, L, k.xl, n);
    var h4 := SetChildH(h3, y, R, k.xr);
    SetChildCell(h3, y, R, k.xr, n);
    var h5 := SetChildH(h4, x, L, k.yl);
    SetChildCell(h4, x, L, k.yl, n);
    SetChildCell(h5, x, R, k.yr, n);
    ChildrenSet(x, y, k, n, h[n]);
  }

  ghost function SwapColours(h: Heap, x: MapNode, y: MapNode): Heap
    requires x in h && y in h
  {
    SetBlack(SetBlack(h, x, h[y].black), y, h[x].black)
  }

  /** The cell that belongs to `n` when `x` and `y` exchange theirs. */
  ghost function Exchanged(x: MapNode, cx: Cell, y: MapNode, cy: Cell, n: MapNode, cn: Cell): Cell {
    if n == x then cy else if n == y then cx else cn
  }

  lemma SwapParent(x: MapNode, cx: Cell, y: MapNode, cy: Cell, n: MapNode, cn: Cell)
    requires x != y && Proper(x, cx) && Proper(y, cy) && Mutual(x, cx, y, cy)
    requires Mutual(x, cx, n, cn) && Mutual(y, cy, n, cn)
    ensures (if n == Ren(x, y, cy.left) || n == Ren(x, y, cy.right) then x
             else if n == Ren(x, y, cx.left) || n == Ren(x, y, cx.right) then y
             else if n == x then Ren(x, y, cy.parent) else if n == y then Ren(x, y, cx.parent) else cn.parent)
         == Ren(x, y, Exchanged(x, cx, y, cy, n, cn).parent)
  {
  }

  lemma SwapKid(x: MapNode, cx: Cell, xs: Side, y: MapNode, cy: Cell, ys: Side, n: MapNode, cn: Cell, s: Side)
    requires x != y && Proper(x, cx) && Proper(y, cy) && Mutual(x, cx, y, cy)
    requires Mutual(x, cx, n, cn) && Mutual(y, cy, n, cn)
    requires cx.parent == n ==> (xs.L? <==> cn.left == x)
    requires cy.parent == n ==> (ys.L? <==> cn.left == y)
    ensures (if n == x then Ren(x, y, cy.Kid(s)) else if n == y then Ren(x, y, cx.Kid(s))
             else if n == Ren(x, y, cy.parent) && ys == s then x
             else if n == Ren(x, y, cx.parent) && xs == s then y else cn.Kid(s))
         == Ren(x, y, Exchanged(x, cx, y, cy, n, cn).Kid(s))
  {
  }

  lemma SwapCell(x: MapNode, cx: Cell, xs: Side, y: MapNode, cy: Cell, ys: Side, n: MapNode, cn: Cell, c: Cell)
    requires x != y && Proper(x, cx) && Proper(y, cy) && Mutual(x, cx, y, cy)
    requires Mutual(x, cx, n, cn) && Mutual(y, cy, n, cn)
    requires cx.parent == n ==> (xs.L? <==> cn.left == x)
    requires cy.parent == n ==> (ys.L? <==> cn.left == y)
    requires n == x ==> cn == cx
    requires n == y ==> cn == cy
    requires c == cn.(black := Exchanged(x, cx, y, cy, n, cn).black)
    ensures Relinked(x, y, LinksOf(x, cx, xs, y, cy, ys), n, c) == RenCell(x, y, Exchanged(x, cx, y, cy, n, cn))
  {
    SwapParent(x, cx, y, cy, n, cn);
    SwapKid(x, cx, xs, y, cy, ys, n, cn, L);
    SwapKid(x, cx, xs, y, cy, ys, n, cn, R);
  }

  /** Every cell after the swap is the renamed cell of the other node, or of the node itself. */
  lemma SwapIsRenaming(h: Heap, x: MapNode, y: MapNode, n: MapNode)
    requires Wired(h, x) && Wired(h, y) && x != y && n in h
    requires Mutual(x, h[x], y, h[y])
    requires Mutual(x, h[x], n, h[n]) && Mutual(y, h[y], n, h[n])
    ensures Relinked(x, y, SwapLinks(h, x, y), n, SwapColours(h, x, y)[n])
         == RenCell(x, y, h[Ren(x, y, n)])
  {
    SwapCell(x, h[x], SideOf(h, x), y, h[y], SideOf(h, y), n, h[n], SwapColours(h, x, y)[n]);
  }

  // ---- A tree is wired ----

  lemma {:induction false} RepLocal(h: Heap, t: Tree, p: MapNode?, n: MapNode)
    requires Rep(h, t, p) && Dis(t) && n in Nodes(t)
    ensures n in h
    ensures n == t.n ==> h[n].parent == p
    ensures n != t.n ==> h[n].parent != null && h[n].parent in Nodes(t) && h[n].parent != n
    ensures h[n].left != null ==> h[n].left in Nodes(t) && h[n].left != n && h[n].left != t.n
    ensures h[n].right != null ==> h[n].right in Nodes(t) && h[n].right != n && h[n].right != t.n
    ensures h[n].left != null ==> h[n].left != h[n].right
  {
    if n in Nodes(t.l) {
      RepLocal(h, t.l, t.n, n);
    } else if n in Nodes(t.r) {
      RepLocal(h, t.r, t.n, n);
    }
  }

  lemma {:induction false} RepMutual(h: Heap, t: Tree, p: MapNode?, x: MapNode, n: MapNode)
    requires Rep(h, t, p) && Dis(t) && x in Nodes(t) && n in Nodes(t) && (p == null || p !in Nodes(t))
    ensures x in h && n in h && Mutual(x, h[x], n, h[n])
  {
    RepLocal(h, t, p, x);
    RepLocal(h, t, p, n);
    if x in Nodes(t.l) {
      RepLocal(h, t.l, t.n, x);
    } else if x in Nodes(t.r) {
      RepLocal(h, t.r, t.n, x);
    }
    if n in Nodes(t.l) {
      RepLocal(h, t.l, t.n, n);
    } else if n in Nodes(t.r) {
      RepLocal(h, t.r, t.n, n);
    }
    if x in Nodes(t.l) && n in Nodes(t.l) {
      RepMutual(h, t.l, t.n, x, n);
    } else if x in Nodes(t.r) && n in Nodes(t.r) {
      RepMutual(h, t.r, t.n, x, n);
    }
  }

  /** In a whole tree the closed form of the swap is the renaming, and so holds the renamed tree. */
  lemma SwapAt(h: Heap, h': Heap, t: Tree, x: MapNode, y: MapNode)
    requires At(h, Top, t) && x in Nodes(t) && y in Nodes(t) && x != y && h.Keys == h'.Keys
    requires Wired(h, x) && Wired(h, y)
    requires forall n :: n in h ==>
               h'[n] == Relinked(x, y, SwapLinks(h, x, y), n, SwapColours(h, x, y)[n])
    requires h.Keys == Nodes(t)
    ensures At(h', Top, RenTree(x, y, t)) && Nodes(RenTree(x, y, t)) == Nodes(t)
    ensures h' == RenHeap(x, y, h)
  {
    forall n | n in h
      ensures h'[n] == RenCell(x, y, h[Ren(x, y, n)])
    {
      RepMutual(h, t, null, x, y);
      RepMutual(h, t, null, x, n);
      RepMutual(h, t, null, y, n);
      SwapIsRenaming(h, x, y, n);
    }
    RenAt(h, h', t, x, y);
  }

  lemma RenAt(h: Heap, h': Heap, t: Tree, x: MapNode, y: MapNode)
    requires At(h, Top, t) && x in Nodes(t) && y in Nodes(t) && h.Keys == h'.Keys && h.Keys == Nodes(t)
    requires forall n :: n in h ==> h'[n] == RenCell(x, y, h[Ren(x, y, n)])
    ensures At(h', Top, RenTree(x, y, t)) && Nodes(RenTree(x, y, t)) == Nodes(t)
    ensures h' == RenHeap(x, y, h)
  {
    assert h' == RenHeap(x, y, h) by {
      RenHeapUnique(h, h', x, y);
    }
    assert Dis(RenTree(x, y, t)) by {
      RenNodes(x, y, t);
    }
    RenWhole(x, y, t);
    RenRep(x, y, h, t, null);
  }

  lemma RenHeapUnique(h: Heap, h': Heap, x: MapNode, y: MapNode)
    requires x in h && y in h && h.Keys == h'.Keys
    requires forall n :: n in h ==> h'[n] == RenCell(x, y, h[Ren(x, y, n)])
    ensures h' == RenHeap(x, y, h)
  {
    assert h'.Keys == RenHeap(x, y, h).Keys;
  }

  lemma WiredInTree(h: Heap, t: Tree, x: MapNode)
    requires At(h, Top, t) && x in Nodes(t)
    ensures Wired(h, x)
  {
    RepLocal(h, t, null, x);
    RepNodes(h, t, null);
  }

  // ---- The method ----

  method SetChild(d: MapNode?, s: Side, k: MapNode?, ghost nodes: set<MapNode>)
    requires d != null ==> d in nodes
    requires k != null ==> k in nodes
    modifies if d == null then {} else {d}, if k == null then {} else {k}
    ensures Snap(nodes) == SetChildH(old(Snap(nodes)), d, s, k)
  {
    if d != null {
      LinkKid(d, s, k, nodes);
    }
    if k != null {
      LinkParent(k, d, nodes);
    }
  }

  /** Two calls of setChild_MapNode_ */
  method SetChildren(d: MapNode?, s: Side, k: MapNode?, d': MapNode?, s': Side, k': MapNode?, ghost nodes: set<MapNode>)
    requires (d != null ==> d in nodes) && (k != null ==> k in nodes)
    requires (d' != null ==> d' in nodes) && (k' != null ==> k' in nodes)
    modifies nodes
    ensures Snap(nodes) == SetChildH(SetChildH(old(Snap(nodes)), d, s, k), d', s', k')
  {
    hide SetChildH;
    SetChild(d, s, k, nodes);
    SetChild(d', s', k', nodes);
  }

  /** The second half of swapNodes_Map_: downlinks first, then all children. */
  method Relink(x: MapNode, y: MapNode, k: Links, ghost nodes: set<MapNode>)
    requires x in nodes && y in nodes && x != y && k.In(Snap(nodes))
    modifies nodes
    ensures Snap(nodes) == RelinkH(old(Snap(nodes)), x, y, k)
  {
    hide SetChildH, Snap;
    SetChildren(k.xp, k.xs, y, k.yp, k.ys, x, nodes);
    SetChildren(y, L, k.xl, y, R, k.xr, nodes);
    SetChildren(x, L, k.yl, x, R, k.yr, nodes);
  }

  /** swapNodes_Map_, apart from the root pointer: `node` and `other` exchange places and colours. */
  method SwapNodes(node: MapNode, other: MapNode, ghost nodes: set<MapNode>, ghost tree: Tree)
    requires Whole(nodes, tree)
    requires node in nodes && other in nodes && node != other && other != tree.n
    modifies nodes
    ensures Whole(nodes, RenTree(node, other, tree))
    ensures Snap(nodes) == RenHeap(node, other, old(Snap(nodes)))
  {
    hide Wired, Dis, RelinkH, RenCell, RenHeap, SetBlack;
    ghost var h := Snap(nodes);
    assert Wired(h, node) && Wired(h, other) && other.parent != null by {
      WiredInTree(h, tree, node);
      WiredInTree(h, tree, other);
      RepLocal(h, tree, null, other);
    }
    var npar, nside := node.parent, if node.parent != null && node.parent.left == node then L else R;
    var opar, oside := other.parent, if other.parent.left == other then L else R;
    var links := Links(Ren(node, other, npar), nside, Ren(node, other, node.left), Ren(node, other, node.right),
                       Ren(node, other, opar), oside, Ren(node, other, other.left), Ren(node, other, other.right));
    assert links == SwapLinks(h, node, other);
    var nf := node.black;
    Paint(node, other.black, nodes);
    Paint(other, nf, nodes);
    Relink(node, other, links, nodes);
    SwapDone(h, Snap(nodes), tree, node, other);
  }

  lemma SwapDone(h: Heap, h': Heap, t: Tree, x: MapNode, y: MapNode)
    requires At(h, Top, t) && x in Nodes(t) && y in Nodes(t) && x != y && h.Keys == Nodes(t)
    requires Wired(h, x) && Wired(h, y)
    requires h' == RelinkH(SwapColours(h, x, y), x, y, SwapLinks(h, x, y))
    ensures At(h', Top, RenTree(x, y, t)) && Nodes(RenTree(x, y, t)) == Nodes(t)
    ensures h' == RenHeap(x, y, h)
  {
    hide At, Nodes, RenTree, RenHeap, RelinkH, Relinked, Wired, LinksOf, SideOf;
    forall n | n in h
      ensures h'[n] == Relinked(x, y, SwapLinks(h, x, y), n, SwapColours(h, x, y)[n])
    {
      RelinkCell(SwapColours(h, x, y), x, y, SwapLinks(h, x, y), n);
    }
    SwapAt(h, h', t, x, y);
  }
}
