/** Map: an ordered map of intrusive nodes, kept as a red-black tree (map.c, map.h). */
module RedBlackMap {
  import opened MapTree
  import opened RedBlack
  import opened NodeHeap
  import opened MapRepair
  import opened MapSwap
  import opened MapOrder
  import opened MapRemoval

  /** The pointers and the colour that `n` takes over from `o`, which may be `n` itself. */
  method TakeOver(o: MapNode, n: MapNode, ghost nodes: set<MapNode>)
    requires n in nodes && Roomy(Snap(nodes), o)
    modifies nodes
    ensures Snap(nodes) == ReplaceH(old(Snap(nodes)), o, n)
  {
    hide SetKid;
    var up := o.parent;
    var left, right, black := o.left, o.right, o.black;
    if up != null {
      LinkKid(up, if up.left == o then L else R, n, nodes);
    }
    LinkParent(n, up, nodes);
    SetChild(n, L, left, nodes);
    SetChild(n, R, right, nodes);
    Paint(n, black, nodes);
  }

  lemma TakeOverReady(c: Ctx, t: Tree, n: MapNode)
    requires Whole(Nodes(Plug(c, t)), Plug(c, t)) && t.Node? && (n !in Nodes(Plug(c, t)) || n == t.n)
    ensures var nodes := Nodes(Plug(c, t)) + {n};
            && Roomy(Snap(nodes), t.n) && t.n.parent == UpNode(c) && ReplaceH.requires(Snap(nodes), t.n, n)
            && At(ReplaceH(Snap(nodes), t.n, n), Top, Plug(c, t.(n := n)))
    ensures Nodes(Plug(c, t.(n := n))) == Nodes(Plug(c, t)) - {t.n} + {n}
  {
    hide Rep, RepCtx, Dis, CtxDis, ReplaceH, Roomy;
    var nodes := Nodes(Plug(c, t)) + {n};
    var h := Snap(nodes);
    assert At(h, c, t) by {
      RepFrame(Snap(Nodes(Plug(c, t))), h, Plug(c, t), null);
    }
    NeighboursAt(h, c, t);
    if n == t.n {
      ReplaceSelf(h, c, t);
      PlugNodes(c, t);
      assert t.(n := n) == t;
    } else {
      ReplaceAt(h, c, t, n);
    }
  }

  method ReplaceInTree(o: MapNode, n: MapNode, ghost c: Ctx, ghost t: Tree)
    requires Whole(Nodes(Plug(c, t)), Plug(c, t)) && t.Node? && t.n == o && (n !in Nodes(Plug(c, t)) || n == o)
    modifies Nodes(Plug(c, t)), n
    ensures var tree' := Plug(c, t.(n := n)); Whole(Nodes(tree'), tree')
    ensures Nodes(Plug(c, t.(n := n))) == Nodes(Plug(c, t)) - {o} + {n}
  {
    hide Whole, At, ReplaceH, Roomy, Plug, Nodes;
    TakeOverReady(c, t, n);
    TakeOver(o, n, Nodes(Plug(c, t)) + {n});
    Restrict(Nodes(Plug(c, t)) + {n}, Plug(c, t.(n := n)));
  }

  lemma RootOfPlug(c: Ctx, t: Tree, n: MapNode)
    requires t.Node?
    ensures Root(Plug(c, t.(n := n))) == if c.Top? then n else Root(Plug(c, t))
  {
    if c.Hole? {
      SameRoot(c.up, Mk(c.side, c.n, c.black, t, c.sib), Mk(c.side, c.n, c.black, t.(n := n), c.sib));
    }
  }

  lemma {:induction false} SameRoot(c: Ctx, t: Tree, t': Tree)
    requires Root(t) == Root(t')
    ensures Root(Plug(c, t)) == Root(Plug(c, t'))
  {
    if c.Hole? {
      SameRoot(c.up, Mk(c.side, c.n, c.black, t, c.sib), Mk(c.side, c.n, c.black, t', c.sib));
    }
  }

  /** The end of insertNode_Map_: `n` becomes a red leaf below `parent`. */
  method LinkInTree(parent: MapNode?, side: Side, n: MapNode, ghost c: Ctx)
    requires Whole(Nodes(Plug(c, Leaf)), Plug(c, Leaf)) && n !in Nodes(Plug(c, Leaf))
    requires parent == UpNode(c) && (c.Hole? ==> side == c.side)
    modifies Nodes(Plug(c, Leaf)), n
    ensures var tree' := Plug(c, Node(n, false, Leaf, Leaf)); Whole(Nodes(tree'), tree')
    ensures Nodes(Plug(c, Node(n, false, Leaf, Leaf))) == Nodes(Plug(c, Leaf)) + {n}
  {
    hide CtxDis, CtxNodes, Dis, Rep;
    ghost var nodes := Nodes(Plug(c, Leaf));
    ghost var h := Snap(nodes);
    PlugNodes(c, Leaf);
    PlugNodes(c, Node(n, false, Leaf, Leaf));
    AtParts(h, c, Leaf);
    if parent != null {
      if side.L? {
        parent.left := n;
      } else {
        parent.right := n;
      }
    }
    n.parent := parent;
    n.left, n.right := null, null;
    n.black := false;
    LinkNew(h, Snap(nodes + {n}), c, n);
  }

  lemma NewNode(cmp: CmpFunc, tree: Tree, c: Ctx, n: MapNode)
    requires Ordered(cmp, tree) && Searching(cmp, tree, n.key, c, Leaf)
    ensures Inserted(c, Node(n, false, Leaf, Leaf))
  {
    NewNodeOffends(c, n);
  }

  lemma SearchStart(cmp: CmpFunc, tree: Tree, key: Key)
    requires Whole(Nodes(tree), tree) && Ordered(cmp, tree)
    ensures At(Snap(Nodes(tree)), Top, tree)
    ensures Searching(cmp, tree, key, Top, tree)
  {
  }

  /** The rest of insert_Map for a node that has just been linked in below a leaf. */
  method SettleInTree(node: MapNode, ghost cmp: CmpFunc, ghost tree: Tree, ghost c: Ctx)
    returns (root: MapNode, ghost tree': Tree)
    requires Ordered(cmp, tree) && Searching(cmp, tree, node.key, c, Leaf)
    requires var linked := Plug(c, Node(node, false, Leaf, Leaf));
             Whole(Nodes(linked), linked) && Nodes(linked) == Nodes(tree) + {node}
    modifies Nodes(tree), node
    ensures Whole(Nodes(tree'), tree') && Nodes(tree') == Nodes(tree) + {node}
    ensures root == Root(tree') && Size(tree') == Size(tree) + 1
    ensures Ordered(cmp, tree') && KeyMap(cmp, tree') == KeyMap(cmp, tree)[node.key := node]
    ensures Same(cmp, KeyMap(cmp, tree), node.key) == {}
  {
    hide *;
    NewNode(cmp, tree, c, node);
    tree' := RepairAfterInsert(node, Nodes(tree) + {node}, c, Node(node, false, Leaf, Leaf));
    InsertOrdered(cmp, tree, c, node, tree');
    WholeSelf(Nodes(tree) + {node}, tree');
    root := ClimbToRoot(node, tree');
  }

  /** The order of the tree with the node between what came before and after it, although the swap
      has moved its predecessor behind it. */
  lemma SwappedSplit(tree: Tree, a: seq<MapNode>, n: MapNode, m: MapNode, b: seq<MapNode>,
                     p: seq<MapNode>, q: seq<MapNode>)
    requires Dis(tree) && InOrder(tree) == a + [n, m] + b && InOrder(tree) == p + [n] + q
    ensures a + [m, n] + b == (a + [m]) + [n] + b && p + q == (a + [m]) + b
  {
    DisNoDup(tree);
    assert a + [n, m] + b == a + [n] + ([m] + b);
    UniqueSplit(a, n, [m] + b, p, q);
  }

  /** removeNode_Map on a tree; the root pointer is passed in and out. */
  method RemoveFromTree(root0: MapNode?, node: MapNode, ghost cmp: CmpFunc, ghost tree: Tree)
    returns (root: MapNode?, ghost tree': Tree)
    requires Whole(Nodes(tree), tree) && Ordered(cmp, tree) && root0 == Root(tree) && node in Nodes(tree)
    modifies Nodes(tree)
    ensures Whole(Nodes(tree'), tree') && Nodes(tree') == Nodes(tree) - {node}
    ensures Ordered(cmp, tree') && root == Root(tree') && Size(tree') + 1 == Size(tree)
    ensures node.key in KeyMap(cmp, tree) && KeyMap(cmp, tree)[node.key] == node
    ensures KeyMap(cmp, tree') == KeyMap(cmp, tree) - {node.key}
  {
    hide Whole, Ordered, Rooted, KeyMap, Nodes, Size, InOrder, Root;
    OrderedRooted(cmp, tree);
    ghost var nodes, tree1, p, q := Nodes(tree), tree, [], [];
    root := root0;
    if node.left != null && node.right != null {
      var pred;
      ghost var a, b;
      pred, tree1, a, b := PullDown(node, nodes, tree);
      if root == node {
        root := pred;
      }
      WholeDis(nodes, tree1);
      root, tree', p, q := RemoveLow(root, node, nodes, tree1);
      SwappedSplit(tree1, a, node, pred, b, p, q);
      p, q := a + [pred], b;
    } else {
      root, tree', p, q := RemoveLow(root, node, nodes, tree1);
    }
    WholeSelf(nodes - {node}, tree');
    RemoveOrdered(cmp, tree, p, node, q, tree');
  }

  lemma OrderedRooted(cmp: CmpFunc, tree: Tree)
    requires Ordered(cmp, tree)
    ensures Rooted(tree, null)
  {
  }

  lemma SizePositive(tree: Tree, n: MapNode)
    requires n in Nodes(tree)
    ensures Size(tree) > 0
  {
  }

  lemma WholeDis(nodes: set<MapNode>, tree: Tree)
    requires Whole(nodes, tree)
    ensures Dis(tree)
  {
  }

  /** The keys the map takes for `k` are those of the nodes that compare equal: at most one. */
  lemma SameOfTree(cmp: CmpFunc, tree: Tree, k: Key)
    requires Ordered(cmp, tree)
    ensures forall n :: n in Nodes(tree) && cmp(k, n.key) == 0 ==> Same(cmp, KeyMap(cmp, tree), k) == {n.key}
    ensures (forall n :: n in Nodes(tree) ==> cmp(k, n.key) != 0) ==> Same(cmp, KeyMap(cmp, tree), k) == {}
  {
    KeyMapNodes(cmp, tree);
    NodesInOrder(tree);
    var m := KeyMap(cmp, tree);
    forall n | n in Nodes(tree) && cmp(k, n.key) == 0
      ensures Same(cmp, m, k) == {n.key}
    {
      OnlyOne(cmp, tree, k, n);
    }
    if forall n :: n in Nodes(tree) ==> cmp(k, n.key) != 0 {
      forall k' | k' in m
        ensures cmp(k, k') != 0
      {
        assert m[k'] in m.Values;
      }
    }
  }

  lemma OnlyOne(cmp: CmpFunc, tree: Tree, k: Key, n: MapNode)
    requires Ordered(cmp, tree) && n in Nodes(tree) && cmp(k, n.key) == 0
    ensures Same(cmp, KeyMap(cmp, tree), k) == {n.key}
  {
    hide ByKey, InOrder, Nodes, Rooted, Same, Sorted;
    var s := InOrder(tree);
    NodesInOrder(tree);
    assert n in s;
    var i :| 0 <= i < |s| && s[i] == n;
    assert s == s[..i] + [n] + s[i + 1..];
    SameMiddle(cmp, s[..i], n, s[i + 1..], k);
  }

  /** A node that is in the tree is the only one in it with its key. */
  lemma FoundItself(cmp: CmpFunc, tree: Tree, n: MapNode, o: MapNode)
    requires Ordered(cmp, tree) && o in Nodes(tree) && cmp(n.key, o.key) == 0
    ensures n in Nodes(tree) ==> n == o
  {
    if n in Nodes(tree) {
      hide Same, KeyMap;
      assert OrderLaw(cmp, n.key, n.key, n.key);
      KeyMapNodes(cmp, tree);
      OnlyOne(cmp, tree, n.key, n);
      OnlyOne(cmp, tree, n.key, o);
      assert n.key in {o.key};
    }
  }

  /** Where the search for a node's key fails, the node is not in the tree. */
  lemma NotThere(cmp: CmpFunc, tree: Tree, n: MapNode, c: Ctx)
    requires Ordered(cmp, tree) && Searching(cmp, tree, n.key, c, Leaf)
    ensures n !in Nodes(tree)
  {
    SearchFails(cmp, tree, n.key, c);
    assert OrderLaw(cmp, n.key, n.key, n.key);
  }

  class Map {
    var size: nat
    var root: MapNode?
    const cmp: CmpFunc
    ghost var tree: Tree

    ghost predicate Valid()
      reads this, Nodes(tree)
    {
      && Whole(Nodes(tree), tree)
      && root == Root(tree)
      && Ordered(cmp, tree)
      && size == Size(tree)
    }

    constructor (cmp: CmpFunc)
      requires TotalPreorder(cmp)
      ensures Valid() && tree.Leaf? && this.cmp == cmp
    {
      this.cmp := cmp;
      size, root, tree := 0, null, Leaf;
    }

    /** value_Map, counting the nodes it looks at. */
    method Value(key: Key) returns (node: MapNode?, ghost visits: nat)
      requires Valid()
      ensures node != null ==> node in Nodes(tree) && cmp(key, node.key) == 0
      ensures node == null ==> forall n :: n in Nodes(tree) ==> cmp(key, n.key) != 0
      ensures Pow2(visits) <= (size + 1) * (size + 1)
      ensures Valid()
    {
      hide Sorted;
      node := root;
      visits := 0;
      ghost var c, t, tr, h := Top, tree, tree, Snap(Nodes(tree));
      assert At(h, Top, tr) && Sorted(cmp, InOrder(tr));
      while node != null
        invariant node == Root(t) && Searching(cmp, tr, key, c, t) && visits == Depth(c)
        decreases t
      {
        SearchStep(cmp, h, tr, key, c, t);
        visits := visits + 1;
        var order := cmp(key, node.key);
        if order == 0 {
          VisitBound(tree, visits);
          return;
        } else {
          node := node.Kid(if order > 0 then R else L);
          if order > 0 {
            c, t := Hole(c, t.n, t.black, R, t.l), t.r;
          } else {
            c, t := Hole(c, t.n, t.black, L, t.r), t.l;
          }
        }
      }
      SearchFails(cmp, tr, key, c);
      VisitBound(tree, visits);
    }

    /** The finite map that the nodes make up. */
    ghost function Contents(): map<Key, MapNode>
      requires Valid()
      reads this, Nodes(tree)
    {
      KeyMap(cmp, tree)
    }

    /** The replacing branch of insertNode_Map_: `insert` takes the place of `o`, whose key is equal. */
    method ReplaceNode(o: MapNode, insert: MapNode, ghost c: Ctx, ghost t: Tree)
      requires Valid() && Plug(c, t) == tree && t.Node? && t.n == o && cmp(insert.key, o.key) == 0
      requires insert !in Nodes(tree) || insert == o
      modifies this, Nodes(tree), insert
      ensures Valid() && tree == Plug(c, t.(n := insert)) && size == old(size)
      ensures Nodes(tree) == old(Nodes(tree)) - {o} + {insert}
      ensures Same(cmp, old(Contents()), insert.key) == {o.key}
      ensures o.key in old(Contents()) && old(Contents())[o.key] == o
      ensures Contents() == (old(Contents()) - {o.key})[insert.key := insert]
    {
      hide Whole, Ordered, KeyMap, Same, Nodes, Size, Root, Plug;
      ReplaceOrdered(cmp, c, t, insert);
      RootOfPlug(c, t, insert);
      ParentAt(tree, c, t);
      if o.parent == null {
        root := insert;
      }
      ReplaceInTree(o, insert, c, t);
      tree := Plug(c, t.(n := insert));
    }

    /** insertNode_Map_: the descent, which ends at a node with an equal key or below a leaf. */
    method InsertNode(insert: MapNode) returns (replaced: MapNode?, ghost c: Ctx)
      requires Valid()
      modifies this, Nodes(tree), insert
      ensures size == old(size)
      ensures replaced != null ==>
                && Valid() && replaced in old(Nodes(tree))
                && Nodes(tree) == old(Nodes(tree)) - {replaced} + {insert}
                && Same(cmp, old(Contents()), insert.key) == {replaced.key}
                && replaced.key in old(Contents()) && old(Contents())[replaced.key] == replaced
                && Contents() == (old(Contents()) - {replaced.key})[insert.key := insert]
      ensures replaced == null ==>
                var tree' := Plug(c, Node(insert, false, Leaf, Leaf));
                && root == old(root) && tree == old(tree)
                && Searching(cmp, tree, insert.key, c, Leaf) && insert !in old(Nodes(tree))
                && Whole(Nodes(tree'), tree') && Nodes(tree') == Nodes(tree) + {insert}
    {
      hide Whole, Ordered, KeyMap, Same, AllAbove, AllBelow, Size, Nodes, Plug;
      var node := root;
      var parent, side := null, L;
      ghost var t, tr, h := tree, tree, Snap(Nodes(tree));
      c, replaced := Top, null;
      SearchStart(cmp, tr, insert.key);
      while node != null
        invariant node == Root(t) && Searching(cmp, tr, insert.key, c, t)
        invariant parent == UpNode(c) && (c.Hole? ==> side == c.side)
        invariant replaced == null
        decreases t
        modifies {}
      {
        SearchStep(cmp, h, tr, insert.key, c, t);
        var order := cmp(insert.key, node.key);
        if order == 0 {
          replaced := node;
          break;
        }
        parent, side := node, if order < 0 then L else R;
        node := node.Kid(side);
        if order < 0 {
          c, t := Hole(c, t.n, t.black, L, t.r), t.l;
        } else {
          c, t := Hole(c, t.n, t.black, R, t.l), t.r;
        }
      }
      if replaced != null {
        FoundItself(cmp, tree, insert, replaced);
        ReplaceNode(replaced, insert, c, t);
      } else {
        NotThere(cmp, tree, insert, c);
        LinkInTree(parent, side, insert, c);
      }
    }

    /** insert_Map: puts `node` in, and returns the node whose place it took, if any. A node that is in the map already
        takes its own place. */
    method Insert(node: MapNode) returns (replaced: MapNode?)
      requires Valid()
      modifies this, Nodes(tree), node
      ensures Valid()
      ensures Same(cmp, old(Contents()), node.key) == if replaced == null then {} else {replaced.key}
      ensures replaced != null ==> replaced.key in old(Contents()) && old(Contents())[replaced.key] == replaced
      ensures Contents() == (old(Contents()) - Same(cmp, old(Contents()), node.key))[node.key := node]
      ensures size == |Contents()|
      ensures Nodes(tree) == (if replaced == null then old(Nodes(tree)) else old(Nodes(tree)) - {replaced}) + {node}
    {
      hide Whole, Ordered, KeyMap, Same, Searching, Nodes, Size, Root;
      ghost var before := Contents();
      ghost var c;
      replaced, c := InsertNode(node);
      if replaced == null {
        var newRoot;
        ghost var tree';
        newRoot, tree' := SettleInTree(node, cmp, tree, c);
        root, tree := newRoot, tree';
        size := size + 1;
        assert before - {} == before;
      }
      KeyMapSize(cmp, tree);
    }

    /** removeNode_Map */
    method RemoveNode(node: MapNode?) returns (removed: MapNode?)
      requires Valid() && (node != null ==> node in Nodes(tree))
      modifies this, Nodes(tree)
      ensures Valid() && removed == node
      ensures node == null ==> Contents() == old(Contents()) && Nodes(tree) == old(Nodes(tree))
      ensures node != null ==>
                && node.key in old(Contents()) && old(Contents())[node.key] == node
                && Contents() == old(Contents()) - {node.key}
                && Nodes(tree) == old(Nodes(tree)) - {node}
      ensures size == |Contents()|
    {
      hide Whole, Ordered, KeyMap, Nodes, Size, InOrder, Root;
      removed := node;
      KeyMapSize(cmp, tree);
      if node == null {
        return;
      }
      SizePositive(tree, node);
      size := size - 1;
      var newRoot;
      ghost var tree';
      newRoot, tree' := RemoveFromTree(root, node, cmp, tree);
      root, tree := newRoot, tree';
      KeyMapSize(cmp, tree);
    }

    /** remove_Map */
    method Remove(key: Key) returns (removed: MapNode?)
      requires Valid()
      modifies this, Nodes(tree)
      ensures Valid()
      ensures Same(cmp, old(Contents()), key) == if removed == null then {} else {removed.key}
      ensures removed != null ==> removed.key in old(Contents()) && old(Contents())[removed.key] == removed
      ensures Contents() == old(Contents()) - Same(cmp, old(Contents()), key)
      ensures size == |Contents()|
      ensures Nodes(tree) == if removed == null then old(Nodes(tree)) else old(Nodes(tree)) - {removed}
    {
      hide Whole, Ordered, KeyMap, Nodes, Size, InOrder, Root, Same;
      SameOfTree(cmp, tree, key);
      ghost var before := Contents();
      ghost var visits;
      var node;
      node, visits := Value(key);
      removed := RemoveNode(node);
      assert before - {} == before;
    }
  }

  // ---- Whole runs ----

  datatype MapOp = Put(node: MapNode) | Drop(key: Key)

  /** What an operation means for the finite map. */
  ghost function Apply(cmp: CmpFunc, m: map<Key, MapNode>, op: MapOp): map<Key, MapNode> {
    match op
    case Put(n) => (m - Same(cmp, m, n.key))[n.key := n]
    case Drop(k) => m - Same(cmp, m, k)
  }

  ghost function ApplyAll(cmp: CmpFunc, m: map<Key, MapNode>, ops: seq<MapOp>): map<Key, MapNode> {
    if ops == [] then m
    else Apply(cmp, ApplyAll(cmp, m, ops[..|ops| - 1]), ops[|ops| - 1])
  }

  ghost function PutNodes(ops: seq<MapOp>): set<MapNode> {
    set i | 0 <= i < |ops| && ops[i].Put? :: ops[i].node
  }

  lemma AppliedNext(cmp: CmpFunc, m: map<Key, MapNode>, ops: seq<MapOp>, i: nat)
    requires i < |ops|
    ensures ApplyAll(cmp, m, ops[..i + 1]) == Apply(cmp, ApplyAll(cmp, m, ops[..i]), ops[i])
  {
    assert ops[..i + 1][..i] == ops[..i];
  }

  method Perform(m: Map, op: MapOp)
    requires m.Valid()
    modifies m, Nodes(m.tree), PutNodes([op])
    ensures m.Valid() && m.size == |m.Contents()| && m.Contents() == Apply(m.cmp, old(m.Contents()), op)
    ensures Nodes(m.tree) <= old(Nodes(m.tree)) + PutNodes([op])
  {
    hide Whole, Ordered, KeyMap, Nodes, Size, Root, Same;
    match op
    case Put(n) =>
      assert [op][0].node in PutNodes([op]);
      var _ := m.Insert(n);
    case Drop(k) =>
      var _ := m.Remove(k);
  }

  /** Over every run the tree stays a valid red-black tree and stands for the finite map. */
  method Replay(m: Map, ops: seq<MapOp>)
    requires m.Valid()
    modifies m, Nodes(m.tree), PutNodes(ops)
    ensures m.Valid() && m.size == |m.Contents()|
    ensures m.Contents() == ApplyAll(m.cmp, old(m.Contents()), ops)
  {
    hide Whole, Ordered, KeyMap, Nodes, Size, Root, Same, Apply;
    ghost var start := m.Contents();
    ghost var allowed := Nodes(m.tree) + PutNodes(ops);
    KeyMapSize(m.cmp, m.tree);
    for i := 0 to |ops|
      invariant m.Valid() && Nodes(m.tree) <= allowed && m.size == |m.Contents()|
      invariant m.Contents() == ApplyAll(m.cmp, start, ops[..i])
    {
      AppliedNext(m.cmp, start, ops, i);
      assert PutNodes([ops[i]]) <= PutNodes(ops);
      Perform(m, ops[i]);
    }
    assert ops[..|ops|] == ops;
  }

  /** When only equal keys compare equal, putting a node in is plain map update and dropping a key
      takes away just that key. */
  lemma ApplyWithExactKeys(cmp: CmpFunc, m: map<Key, MapNode>, n: MapNode, k: Key)
    requires forall a, b :: cmp(a, b) == 0 <==> a == b
    ensures Apply(cmp, m, Put(n)) == m[n.key := n]
    ensures Apply(cmp, m, Drop(k)) == m - {k}
  {
    assert Same(cmp, m, n.key) <= {n.key};
    assert Same(cmp, m, k) <= {k};
  }
}
