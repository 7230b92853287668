/** The intrusive nodes of a Map and the trees they form.

    A `Tree` is the shape that the pointers of the nodes spell out; a `Ctx` is the way from one
    place in such a tree back up to the root, which is what the repair loops of the red-black
    tree walk along. */
module MapTree {
  import opened Sequences

  /** A map key: `int64_t`. */
  newtype Key = x: int | -0x8000_0000_0000_0000 <= x < 0x8000_0000_0000_0000

  /** Index of a child pointer: 0 or 1. */
  datatype Side = L | R {
    function Flip(): Side {
      if L? then R else L
    }
  }

  /** Flags, parent and child pointers are rewritten by the Map; the key belongs to the owner. */
  class MapNode {
    var parent: MapNode?
    var left: MapNode?
    var right: MapNode?
    var black: bool
    const key: Key

    constructor (key: Key)
      ensures this.key == key
    {
      this.key := key;
      parent, left, right, black := null, null, null, false;
    }

    function Kid(s: Side): MapNode?
      reads this
    {
      if s.L? then left else right
    }
  }

  datatype Tree = Leaf | Node(n: MapNode, black: bool, l: Tree, r: Tree)

  /** The path from a hole up to the root: the hole is the `side` child of `n`, and `sib` is the
      other subtree of `n`. */
  datatype Ctx = Top | Hole(up: Ctx, n: MapNode, black: bool, side: Side, sib: Tree)

  function Root(t: Tree): MapNode? {
    if t.Leaf? then null else t.n
  }

  function UpNode(c: Ctx): MapNode? {
    if c.Top? then null else c.n
  }

  /** The node `n` with `near` as its `side` child and `far` as the other one. */
  function Mk(side: Side, n: MapNode, black: bool, near: Tree, far: Tree): Tree {
    if side.L? then Node(n, black, near, far) else Node(n, black, far, near)
  }

  function Sub(t: Tree, side: Side): Tree
    requires t.Node?
  {
    if side.L? then t.l else t.r
  }

  ghost function Plug(c: Ctx, t: Tree): Tree {
    match c
    case Top => t
    case Hole(up, n, b, side, sib) => Plug(up, Mk(side, n, b, t, sib))
  }

  /** The context of `c` seen from inside `outer`. */
  ghost function Append(c: Ctx, outer: Ctx): Ctx {
    match c
    case Top => outer
    case Hole(up, n, b, side, sib) => Hole(Append(up, outer), n, b, side, sib)
  }

  ghost function Nodes(t: Tree): set<MapNode> {
    if t.Leaf? then {} else {t.n} + Nodes(t.l) + Nodes(t.r)
  }

  ghost function CtxNodes(c: Ctx): set<MapNode> {
    if c.Top? then {} else {c.n} + Nodes(c.sib) + CtxNodes(c.up)
  }

  /** No node occurs twice. */
  ghost predicate Dis(t: Tree) {
    t.Node? ==>
      && t.n !in Nodes(t.l) && t.n !in Nodes(t.r) && Nodes(t.l) !! Nodes(t.r)
      && Dis(t.l) && Dis(t.r)
  }

  ghost predicate CtxDis(c: Ctx) {
    c.Hole? ==>
      && c.n !in Nodes(c.sib) && c.n !in CtxNodes(c.up) && Nodes(c.sib) !! CtxNodes(c.up)
      && Dis(c.sib) && CtxDis(c.up)
  }

  ghost function Size(t: Tree): nat {
    if t.Leaf? then 0 else Size(t.l) + 1 + Size(t.r)
  }

  ghost function Depth(c: Ctx): nat {
    if c.Top? then 0 else 1 + Depth(c.up)
  }

  ghost function InOrder(t: Tree): seq<MapNode> {
    if t.Leaf? then [] else InOrder(t.l) + [t.n] + InOrder(t.r)
  }

  /** What comes before, and after, the hole in the order of the whole tree. */
  ghost function Pre(c: Ctx): seq<MapNode> {
    match c
    case Top => []
    case Hole(up, n, b, side, sib) =>
      if side.L? then Pre(up) else Pre(up) + (InOrder(sib) + [n])
  }

  ghost function Post(c: Ctx): seq<MapNode> {
    match c
    case Top => []
    case Hole(up, n, b, side, sib) =>
      if side.L? then ([n] + InOrder(sib)) + Post(up) else Post(up)
  }

  // ---- Facts about plugging ----

  lemma {:induction false} PlugInOrder(c: Ctx, t: Tree)
    ensures InOrder(Plug(c, t)) == Pre(c) + InOrder(t) + Post(c)
  {
    hide Mk, InOrder;
    match c
    case Top =>
    case Hole(up, n, b, side, sib) =>
      MkInOrder(side, n, b, t, sib);
      PlugInOrder(up, Mk(side, n, b, t, sib));
  }

  lemma MkInOrder(side: Side, n: MapNode, b: bool, near: Tree, far: Tree)
    ensures InOrder(Mk(side, n, b, near, far))
         == if side.L? then InOrder(near) + [n] + InOrder(far) else InOrder(far) + [n] + InOrder(near)
  {
  }

  lemma {:induction false} PlugNodes(c: Ctx, t: Tree)
    ensures Nodes(Plug(c, t)) == CtxNodes(c) + Nodes(t)
    ensures Dis(Plug(c, t)) <==> CtxDis(c) && Dis(t) && CtxNodes(c) !! Nodes(t)
  {
    match c
    case Top =>
    case Hole(up, n, b, side, sib) =>
      PlugNodes(up, Mk(side, n, b, t, sib));
  }

  lemma {:induction false} PlugAppend(c: Ctx, outer: Ctx, t: Tree)
    ensures Plug(Append(c, outer), t) == Plug(outer, Plug(c, t))
  {
    match c
    case Top =>
    case Hole(up, n, b, side, sib) =>
      PlugAppend(up, outer, Mk(side, n, b, t, sib));
  }

  /** Every node of a tree sits somewhere. */
  lemma {:induction false} Locate(t: Tree, x: MapNode) returns (c: Ctx, s: Tree)
    requires x in Nodes(t)
    ensures Plug(c, s) == t && s.Node? && s.n == x
  {
    if t.n == x {
      c, s := Top, t;
    } else {
      var side := if x in Nodes(t.l) then L else R;
      var c';
      c', s := Locate(Sub(t, side), x);
      var last := Hole(Top, t.n, t.black, side, Sub(t, side.Flip()));
      c := Append(c', last);
      PlugAppend(c', last, s);
    }
  }

  lemma {:induction false} NodesInOrder(t: Tree)
    ensures Nodes(t) == Elems(InOrder(t)) && |InOrder(t)| == Size(t)
  {
    if t.Node? {
      NodesInOrder(t.l);
      NodesInOrder(t.r);
      var a, b := InOrder(t.l), InOrder(t.r);
      assert Elems(a + [t.n] + b) == Elems(a) + {t.n} + Elems(b);
    }
  }
}
