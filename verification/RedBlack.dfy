/** The red-black rules on the trees of MapTree, and what every local change of the two repair
    loops does to them.

    While a black node without children is being removed it is still linked into the tree that
    is repaired. The rules below therefore take a node `x` that already counts as absent: it has
    to be a black node without children, and it adds nothing to the black height. With
    `x == null` they are the ordinary rules. */
module RedBlack {
  import opened MapTree

  predicate IsBlack(t: Tree) {
    t.Leaf? || t.black
  }

  function One(black: bool): nat {
    if black then 1 else 0
  }

  /** Black nodes on the way down the left edge. */
  ghost function BH(t: Tree, x: MapNode?): nat {
    if t.Leaf? || t.n == x then 0 else BH(t.l, x) + One(t.black)
  }

  /** No red node has a red child, and every way down meets equally many black nodes. */
  ghost predicate RB(t: Tree, x: MapNode?) {
    t.Node? ==>
      if t.n == x then
        t.black && t.l.Leaf? && t.r.Leaf?
      else
        && RB(t.l, x) && RB(t.r, x)
        && BH(t.l, x) == BH(t.r, x)
        && (!t.black ==> IsBlack(t.l) && IsBlack(t.r))
  }

  /** A whole tree also has a black root. */
  ghost predicate Rooted(t: Tree, x: MapNode?) {
    RB(t, x) && IsBlack(t)
  }

  /** The context accepts exactly the subtrees of black height `h`. */
  ghost predicate CtxRB(c: Ctx, x: MapNode?, h: nat) {
    c.Hole? ==>
      && c.n != x
      && RB(c.sib, x) && BH(c.sib, x) == h
      && (!c.black ==> IsBlack(c.sib) && UpBlack(c.up))
      && CtxRB(c.up, x, h + One(c.black))
  }

  /** The hole has a black parent, so a red node may be put there. */
  predicate UpBlack(c: Ctx) {
    c.Hole? && c.black
  }

  /** The rules for one node, whichever side its first subtree is on. */
  lemma MkRB(side: Side, n: MapNode, b: bool, near: Tree, far: Tree, x: MapNode?)
    requires n != x
    ensures RB(Mk(side, n, b, near, far), x) <==>
            RB(near, x) && RB(far, x) && BH(near, x) == BH(far, x) && (!b ==> IsBlack(near) && IsBlack(far))
    ensures BH(near, x) == BH(far, x) ==> BH(Mk(side, n, b, near, far), x) == BH(near, x) + One(b)
    ensures IsBlack(Mk(side, n, b, near, far)) == b
  {
  }

  /** A tree with a given place in it is red-black when the subtree is and the context accepts it. */
  lemma {:induction false} PlugRooted(c: Ctx, t: Tree, x: MapNode?)
    requires x !in CtxNodes(c)
    ensures Rooted(Plug(c, t), x) <==>
            && RB(t, x) && CtxRB(c, x, BH(t, x))
            && (!IsBlack(t) ==> UpBlack(c))
  {
    hide RB, BH, Mk;
    match c
    case Top =>
    case Hole(up, n, b, side, sib) =>
      MkRB(side, n, b, t, sib, x);
      PlugRooted(up, Mk(side, n, b, t, sib), x);
  }

  lemma {:induction false} CtxWithout(c: Ctx, x: MapNode?, h: nat)
    requires x !in CtxNodes(c)
    ensures CtxRB(c, null, h) <==> CtxRB(c, x, h)
  {
    if c.Hole? {
      TreeWithout(c.sib, x);
      CtxWithout(c.up, x, h + One(c.black));
    }
  }

  lemma {:induction false} TreeWithout(t: Tree, x: MapNode?)
    requires x !in Nodes(t)
    ensures RB(t, null) == RB(t, x) && BH(t, null) == BH(t, x)
  {
    if t.Node? {
      TreeWithout(t.l, x);
      TreeWithout(t.r, x);
    }
  }

  /** Where the absent node sits, an empty subtree may be put instead. */
  lemma DropAbsent(c: Ctx, s: Tree)
    requires Dis(Plug(c, s)) && s.Node?
    requires Rooted(Plug(c, s), s.n)
    ensures s.black && s.l.Leaf? && s.r.Leaf?
    ensures Rooted(Plug(c, Leaf), null)
  {
    PlugNodes(c, s);
    PlugRooted(c, s, s.n);
    CtxWithout(c, s.n, 0);
    PlugRooted(c, Leaf, null);
  }

  // ---- Heights ----

  function Pow2(n: nat): nat {
    if n == 0 then 1 else 2 * Pow2(n - 1)
  }

  lemma {:induction false} Pow2Add(a: nat, b: nat)
    ensures Pow2(a + b) == Pow2(a) * Pow2(b) && Pow2(0) == 1 && Pow2(1) == 2
    decreases b
  {
    if b != 0 {
      Pow2Add(a, b - 1);
    }
  }

  lemma {:induction false} Pow2Mono(a: nat, b: nat)
    requires a <= b
    ensures Pow2(a) <= Pow2(b)
    decreases b
  {
    if a < b {
      Pow2Mono(a, b - 1);
    }
  }

  ghost function Height(t: Tree): nat {
    if t.Leaf? then 0
    else 1 + if Height(t.l) < Height(t.r) then Height(t.r) else Height(t.l)
  }

  lemma {:induction false} HeightOfBlackHeight(t: Tree)
    requires RB(t, null)
    ensures Height(t) <= 2 * BH(t, null) + One(!IsBlack(t))
    ensures Pow2(BH(t, null)) <= Size(t) + 1
  {
    if t.Node? {
      HeightOfBlackHeight(t.l);
      HeightOfBlackHeight(t.r);
    }
  }

  lemma SquareMono(a: nat, b: nat)
    requires a <= b
    ensures a * a <= b * b
  {
    assert a * a <= a * b <= b * b;
  }

  /** A red-black tree is at most twice as high as the binary logarithm of its size plus one. */
  lemma HeightBound(t: Tree)
    requires Rooted(t, null)
    ensures Pow2(Height(t)) <= (Size(t) + 1) * (Size(t) + 1)
  {
    HeightOfBlackHeight(t);
    var b := BH(t, null);
    Pow2Mono(Height(t), b + b);
    Pow2Add(b, b);
    SquareMono(Pow2(b), Size(t) + 1);
  }

  /** The depth of a place is below the height of the tree. */
  lemma {:induction false} DepthHeight(c: Ctx, t: Tree)
    ensures Depth(c) + Height(t) <= Height(Plug(c, t))
  {
    if c.Hole? {
      DepthHeight(c.up, Mk(c.side, c.n, c.black, t, c.sib));
    }
  }

  /** Moving a black node's height: a red node with one child does not exist, and the only child
      of a black node is red and has no children. */
  lemma LoneChild(t: Tree, side: Side)
    requires t.Node? && RB(t, null) && Sub(t, side).Node? && Sub(t, side.Flip()).Leaf?
    ensures t.black
    ensures var k := Sub(t, side); !k.black && k.l.Leaf? && k.r.Leaf?
  {
  }
}
