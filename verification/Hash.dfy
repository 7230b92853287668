/** The radix hash of hash.c: a finite map from 32-bit keys to nodes. */
module Hash {
  import opened HashTrie
  import opened HashBuckets
  import opened Sequences

  /** The buckets reached from `root` and the nodes they list spell out a trie that is as it should be. */
  ghost predicate Sound(root: HashBucket, at: Places, t: Trie)
    reads at.Values`parent, at.Values`child, at.Values`node, Members(t)`next
  {
    Wired(at) && Listed(at, t, {}) && Fits(t) && Filled(t) && Root in at && root == at[Root]
  }

  // ---- What the nodes of a trie mean ----

  lemma AllKeysUnique(t: Trie)
    requires Fits(t)
    ensures forall a, b :: a in Members(t) && b in Members(t) && a.key == b.key ==> a == b
  {
    forall a, b | a in Members(t) && b in Members(t) && a.key == b.key
      ensures a == b
    {
      KeysUnique(t, a, b);
    }
  }

  ghost function KeyMap(t: Trie): (m: map<Key, HashNode>)
    requires Fits(t)
  {
    AllKeysUnique(t);
    map n | n in Members(t) :: n.key := n
  }

  lemma KeyMapOf(t: Trie)
    requires Fits(t)
    ensures forall n :: n in Members(t) ==> n.key in KeyMap(t) && KeyMap(t)[n.key] == n
    ensures forall k :: k in KeyMap(t) ==> KeyMap(t)[k] in Members(t) && KeyMap(t)[k].key == k
  {
    hide Members, Fits;
    AllKeysUnique(t);
  }

  /** There are as many keys as nodes. */
  lemma KeyMapSize(t: Trie)
    requires Fits(t)
    ensures |KeyMap(t)| == |Members(t)|
  {
    hide Members, Fits;
    KeyMapOf(t);
    SameSize(KeyMap(t), Members(t));
  }

  lemma {:induction false} SameSize(m: map<Key, HashNode>, s: set<HashNode>)
    requires forall n :: n in s ==> n.key in m && m[n.key] == n
    requires forall k :: k in m ==> m[k] in s && m[k].key == k
    ensures |m| == |s|
    decreases |s|
  {
    if s == {} {
      assert m == map[];
    } else {
      var n :| n in s;
      SameSize(m - {n.key}, s - {n});
      assert m.Keys == (m - {n.key}).Keys + {n.key};
    }
  }

  lemma KeyMapLess(t: Trie, t': Trie, n: HashNode)
    requires Fits(t) && Fits(t') && n in Members(t) && Members(t') == Members(t) - {n}
    ensures KeyMap(t') == KeyMap(t) - {n.key}
  {
    hide Members, Fits, KeyMap;
    KeyMapOf(t);
    KeyMapOf(t');
  }

  /** `n` comes in, for the node that had its key if there was one. */
  lemma KeyMapMore(t: Trie, t': Trie, n: HashNode)
    requires Fits(t) && Fits(t') && n in Members(t')
    requires Members(t') == (if n.key in KeyMap(t) then Members(t) - {KeyMap(t)[n.key]} else Members(t)) + {n}
    ensures KeyMap(t') == KeyMap(t)[n.key := n]
  {
    hide Members, Fits, KeyMap;
    KeyMapOf(t);
    KeyMapOf(t');
  }

  lemma SizeAfter(s: set<HashNode>, s': set<HashNode>, out: HashNode?, n: HashNode)
    requires if out == null then n !in s else out in s && (n == out || n !in s)
    requires s' == (if out == null then s else s - {out}) + {n}
    ensures |s'| == if out == null then |s| + 1 else |s|
  {
  }

  // ---- The way down ----

  /** find_HashBucket_; the loop of findNode_HashBucket_ is the same without the depth. */
  method FindBucket(root: HashBucket, key: Key, ghost at: Places, ghost t: Trie)
    returns (d: HashBucket, depth: nat, ghost p: Path)
    requires Wired(at) && Listed(at, t, {}) && Fits(t) && Root in at && root == at[Root]
    ensures Wired(at) && Listed(at, t, {})
    ensures p in at && p in t && d == at[p] && depth == Len(p) && Along(key, p) && !IsBranch(t, p)
  {
    hide Linked, Wired, Shaped;
    d, depth, p := root, 0, Root;
    var rest: nat := key;
    ChildrenAt(at, t, p);
    while d.child[0] != null
      invariant Wired(at) && Listed(at, t, {})
      invariant p in at && d == at[p] && depth == Len(p) < KEY_SLICES && Along(key, p) && rest == Shifted(key, depth)
      invariant |d.child| == CHILD_COUNT && (d.child[0] != null <==> IsBranch(t, p))
      decreases KEY_SLICES - depth
    {
      ChildrenAt(at, t, p);
      p := Step(p, rest % 4);
      d := d.child[rest % 4];
      rest := rest / 4;
      depth := depth + 1;
      ChildrenAt(at, t, p);
    }
  }

  lemma ChildrenAt(at: Places, t: Trie, p: Path)
    requires Wired(at) && Headed(at, t, {}) && Shaped(t) && p in at
    ensures Len(p) < KEY_SLICES && |at[p].child| == CHILD_COUNT
    ensures at[p].child[0] != null <==> IsBranch(t, p)
    ensures forall i: nat :: IsBranch(t, p) && i < CHILD_COUNT ==> Step(p, i) in at && at[p].child[i] == at[Step(p, i)]
    ensures forall i: nat :: !IsBranch(t, p) && i < CHILD_COUNT ==> Step(p, i) !in at && at[p].child[i] == null
  {
    hide Len;
    assert at[p].child[0] != null <==> Step(p, 0) in at;
    forall i: nat | i < CHILD_COUNT
      ensures Step(p, i) in at <==> IsBranch(t, p)
    {
      if IsBranch(t, p) || Step(p, i) in t {
        assert HasKids(t, p);
        assert i == 0 || i == 1 || i == 2 || i == 3;
      }
    }
  }

  lemma ListChained(t: Trie, p: Path)
    requires Linked(t) && p in t
    ensures Chained(t[p])
  {
  }

  /** findNode_HashBucket_ */
  method FindNode(root: HashBucket, key: Key, ghost at: Places, ghost t: Trie) returns (found: HashNode?)
    requires Wired(at) && Listed(at, t, {}) && Fits(t) && root == at[Root]
    ensures found != null ==> found in Members(t) && found.key == key
    ensures found == null ==> forall n :: n in Members(t) ==> n.key != key
  {
    hide Slice, Along, Members, Fits, Linked, IsBranch, Chained, Find, HasKids, Placed, Shaped;
    var d, depth, p := FindBucket(root, key, at, t);
    SearchFinds(t, p, key);
    ghost var s, k := t[p], 0;
    ListsCovered(t);
    ListChained(t, p);
    found := d.node;
    while found != null
      invariant Chained(s) && k <= |s| && found == Nth(s, k) && forall j :: 0 <= j < k ==> s[j].key != key
      decreases |s| - k
    {
      if found.key == key {
        FindAt(s, key, k);
        return;
      }
      found := found.next;
      k := k + 1;
    }
    FindAt(s, key, k);
  }

  /** remove_HashBucket_; the bucket that is left may be one further up. */
  method RemoveFrom(d0: HashBucket, key: Key, ghost at0: Places, ghost t0: Trie, ghost p0: Path)
    returns (found: HashNode?, d: HashBucket, ghost at: Places, ghost t: Trie, ghost p: Path)
    requires Wired(at0) && Listed(at0, t0, {}) && Fits(t0) && Filled(t0)
    requires p0 in at0 && d0 == at0[p0]
    modifies at0.Values, Elems(t0[p0])`next
    ensures Wired(at) && Listed(at, t, {}) && Fits(t) && Filled(t) && p in at && d == at[p] && at.Values <= at0.Values
    ensures Root in at0 ==> Root in at && at[Root] == at0[Root]
    ensures found == null <==> Find(t0[p0], key) == |t0[p0]|
    ensures found == null ==> at == at0 && t == t0 && p == p0
    ensures found != null ==> found == t0[p0][Find(t0[p0], key)] && found.next == null
    ensures found != null ==> Members(t) == Members(t0) - {found}
    ensures found != null && |t0[p0]| > 1 ==> p == p0 && t == t0[p0 := Without(t0[p0], Find(t0[p0], key))]
    ensures found != null && |t0[p0]| <= 1 ==> EmptyLeaf(t, p) && Below(p0, p)
  {
    hide Slice, Along, Members, Shaped, Placed, Apart, Wired, Linked, Chained, Distinct, Below, FilledBut;
    FitsApart(t0);
    d, at, t, p := d0, at0, t0, p0;
    var k;
    found, k := Unlink(d0, key, at0, t0, p0);
    if found != null {
      NodeTakenOut(t0, p0, k);
      FilledBelow(t0, p0);
      FilledAfterChange(t0, p0, Without(t0[p0], k));
      t := t0[p0 := Without(t0[p0], k)];
      ListedAtLeaf(t0, p0);
      if d.node == null {
        d, at, t, p := Trim(d0, at0, t, p0);
      }
    }
  }

  lemma FilledBelow(t: Trie, p: Path)
    requires Filled(t)
    ensures FilledBut(t, p)
  {
  }

  // ---- Putting a node in ----

  /** The trie from which insert_Hash has taken out the node that clashes with `key`, if there was one. */
  ghost function Freed(t: Trie, p: Path, key: Key): Trie
    requires p in t
  {
    var k := Find(t[p], key);
    if k < |t[p]| then t[p := Without(t[p], k)] else t
  }

  /** The bucket where the search for `key` ends can take a node with that key; and when it has to be split,
      it is not at the greatest depth, so the split is possible. */
  lemma RoomForNode(t: Trie, p: Path, key: Key)
    requires Fits(t) && Filled(t) && p in t && !IsBranch(t, p) && Along(key, p)
    ensures var t1, k := Freed(t, p, key), Find(t[p], key);
            && Fits(t1) && FilledBut(t1, p) && p in t1 && !IsBranch(t1, p)
            && Members(t1) == (if k < |t[p]| then Members(t) - {t[p][k]} else Members(t))
            && (forall n :: n in Members(t1) ==> n.key != key)
            && (k < 8 ==> |t1[p]| < 8 + Len(p))
            && (k >= 8 ==> |t1[p]| >= 8 && Len(p) < 15)
  {
    hide Slice, Shaped, Along, Below, Apart, NodeBelow;
    var s, k := t[p], Find(t[p], key);
    FilledBelow(t, p);
    SearchFinds(t, p, key);
    if k < |s| {
      NodeTakenOut(t, p, k);
      FilledAfterChange(t, p, Without(s, k));
      AllKeysUnique(t);
    }
    if k >= MAX_NODES {
      DepthLeft(t, p);
    }
  }

  lemma DepthLeft(t: Trie, p: Path)
    requires Fits(t) && p in t && |t[p]| > CHILD_COUNT
    ensures Len(p) < KEY_SLICES - 1
  {
    hide Slice, Along;
    if Len(p) == KEY_SLICES - 1 {
      DeepListsAreShort(t[p], p);
    }
  }

  /** What a node put in front of the list of a childless bucket makes of a trie without its key. */
  lemma NodePlaced(t: Trie, p: Path, n: HashNode)
    requires Fits(t) && FilledBut(t, p) && p in t && !IsBranch(t, p) && Along(n.key, p) && |t[p]| < MAX_NODES + Len(p)
    requires forall m :: m in Members(t) ==> m.key != n.key
    ensures var t' := t[p := [n] + t[p]];
            Fits(t') && Filled(t') && Members(t') == Members(t) + {n}
  {
    hide Slice, Shaped, Placed, Below, NodeBelow;
    NodePutIn(t, p, n);
    FilledAfterChange(t, p, [n] + t[p]);
  }

  /** After a split, the child that the next slice of the key selects takes the node. */
  lemma ChildForNode(t: Trie, p: Path, key: Key)
    requires Fits(t) && FilledBut(t, p) && p in t && !IsBranch(t, p) && Along(key, p)
    requires t[p] != [] && Len(p) < KEY_SLICES - 1
    ensures var t', q := SplitTrie(t, p), Step(p, Slice(key, Len(p)));
            && Fits(t') && FilledBut(t', q) && Members(t') == Members(t)
            && q in t' && !IsBranch(t', q) && Along(key, q) && |t'[q]| < MAX_NODES + Len(q)
  {
    hide Shaped, Below, NodeBelow, SplitTrie, Slice, Members;
    var t', q := SplitTrie(t, p), Step(p, Slice(key, Len(p)));
    SplitFits(t, p);
    SplitParts(t, p);
    FilledAfterSplit(t, p);
    FilledBelow(t', q);
    assert IsKid(q, p);
    KidsAreLeaves(t, p, q);
  }

  lemma NothingUnder(t: Trie, q: Path)
    requires Shaped(t)
    ensures q in t || !IsBranch(t, q)
  {
    hide Shaped;
    if Step(q, 0) in t {
      ChildOf(t, q, 0);
    }
  }

  lemma KidsAreLeaves(t: Trie, p: Path, q: Path)
    requires Shaped(t) && p in t && !IsBranch(t, p) && IsKid(q, p)
    ensures !IsBranch(SplitTrie(t, p), q)
  {
    hide SplitTrie, Slice, Len, Shaped;
    SplitParts(t, p);
    NoKids(t, p);
    NothingUnder(t, q);
  }

  /** child_HashBucket_ */
  method ChildFor(d: HashBucket, depth: nat, key: Key, ghost at: Places, ghost t: Trie, ghost p: Path)
    returns (dest: HashBucket)
    requires Wired(at) && Listed(at, t, {}) && Shaped(t) && p in at && d == at[p] && depth == Len(p)
    requires Step(p, Slice(key, Len(p))) in t
    ensures Wired(at) && Listed(at, t, {})
    ensures Step(p, Slice(key, Len(p))) in at && dest == at[Step(p, Slice(key, Len(p)))]
  {
    hide Linked;
    assert HasKids(t, p);
    ChildrenAt(at, t, p);
    ShiftIsShifted(key, depth);
    dest := d.child[ShiftRight(key, CHILD_SHIFT * depth) % 4];
  }

  /** The first branch of insert_Hash (235-238). */
  method SplitAndAdd(d: HashBucket, depth: nat, node: HashNode, ghost at0: Places, ghost t0: Trie, ghost p: Path)
    returns (ghost at: Places, ghost t: Trie)
    requires Wired(at0) && Listed(at0, t0, {}) && p in at0 && d == at0[p] && depth == Len(p)
    requires Fits(t0) && FilledBut(t0, p) && p in t0 && !IsBranch(t0, p) && Along(node.key, p)
    requires t0[p] != [] && Len(p) < KEY_SLICES - 1
    requires forall n :: n in Members(t0) ==> n.key != node.key
    modifies d, Elems(t0[p])`next, node`next
    ensures Wired(at) && Listed(at, t, {}) && Fits(t) && Filled(t) && Members(t) == Members(t0) + {node}
    ensures forall q :: q in at0 ==> q in at && at[q] == at0[q]
    ensures forall q :: q in at && q !in at0 ==> fresh(at[q])
  {
    hide Slice, Along, Shaped, Placed, Apart, Wired, Linked, Chained, Distinct, Below, FilledBut, Filled, IsBranch,
         Members, SplitTrie;
    ghost var q := Step(p, Slice(node.key, Len(p)));
    ChildForNode(t0, p, node.key);
    NodePlaced(SplitTrie(t0, p), q, node);
    NoKids(t0, p);
    assert IsKid(q, p);
    at := Split(d, depth, at0, t0, p);
    var dest := ChildFor(d, depth, node.key, at, SplitTrie(t0, p), p);
    AddNode(dest, node, at, SplitTrie(t0, p), q, {});
    t := SplitTrie(t0, p)[q := [node] + SplitTrie(t0, p)[q]];
  }

  /** insert_Hash, but for the count of nodes. */
  method InsertInto(root: HashBucket, node: HashNode, ghost at0: Places, ghost t0: Trie)
    returns (existing: HashNode?, ghost at: Places, ghost t: Trie)
    requires Sound(root, at0, t0)
    modifies at0.Values, Members(t0)`next, node`next
    ensures Sound(root, at, t) && Fits(t)
    ensures fresh(at.Values - at0.Values)
    ensures existing == null ==> Members(t) == Members(t0) + {node}
    ensures existing == null ==> forall n :: n in Members(t0) ==> n.key != node.key
    ensures existing != null ==> existing in Members(t0) && existing.key == node.key
    ensures existing != null && existing != node ==> existing.next == null && node !in Members(t0)
    ensures existing != null ==> Members(t) == Members(t0) - {existing} + {node}
    ensures |Members(t)| == |Members(t0)| + if existing == null then 1 else 0
  {
    hide Slice, Along, Shaped, Placed, Apart, Wired, Linked, Headed, Chained, Distinct, Below, FilledBut, Filled,
         IsBranch, Members;
    var d, depth, p := FindBucket(root, node.key, at0, t0);
    FitsApart(t0);
    SearchFinds(t0, p, node.key);
    RoomForNode(t0, p, node.key);
    ListsCovered(t0);
    var nodeSize;
    existing, nodeSize := Unlink(d, node.key, at0, t0, p);
    at, t := at0, Freed(t0, p, node.key);
    ListsCovered(t);
    if nodeSize >= MAX_NODES {
      at, t := SplitAndAdd(d, depth, node, at, t, p);
    } else {
      NodePlaced(t, p, node);
      AddNode(d, node, at, t, p, {});
      t := t[p := [node] + t[p]];
    }
    SizeAfter(Members(t0), Members(t), existing, node);
  }

  /** remove_Hash, but for the count of nodes. */
  method RemoveKey(root: HashBucket, key: Key, ghost at0: Places, ghost t0: Trie)
    returns (removed: HashNode?, ghost at: Places, ghost t: Trie)
    requires Sound(root, at0, t0)
    modifies at0.Values, Members(t0)`next
    ensures Sound(root, at, t) && Fits(t)
    ensures at.Values <= at0.Values
    ensures removed == null ==> Members(t) == Members(t0) && forall n :: n in Members(t0) ==> n.key != key
    ensures removed != null ==> removed in Members(t0) && removed.key == key && removed.next == null
    ensures removed != null ==> Members(t) == Members(t0) - {removed}
  {
    hide Fits, Wired, Linked, Headed, Filled, Members, IsBranch, Along, Slice;
    var bucket, depth, p := FindBucket(root, key, at0, t0);
    SearchFinds(t0, p, key);
    ListsCovered(t0);
    removed, bucket, at, t, p := RemoveFrom(bucket, key, at0, t0, p);
  }

  ghost function BareTrie(): Trie {
    map[Root := []]
  }

  lemma BareTrieFits()
    ensures Fits(BareTrie()) && Filled(BareTrie()) && Members(BareTrie()) == {} && KeyMap(BareTrie()) == map[]
  {
    hide Slice;
    assert Fits(BareTrie());
    KeyMapOf(BareTrie());
  }

  /** A bucket without parent, children and nodes is an empty hash. */
  lemma BareBucket(b: HashBucket)
    requires b.parent == null && b.child == [null, null, null, null] && b.node == null
    ensures Sound(b, map[Root := b], BareTrie())
  {
    hide Slice, Fits, Filled;
    BareTrieFits();
  }

  /** insert_Hash on maps. */
  method InsertMapped(root: HashBucket, node: HashNode, ghost at0: Places, ghost t0: Trie)
    returns (existing: HashNode?, ghost at: Places, ghost t: Trie)
    requires Sound(root, at0, t0) && Fits(t0)
    modifies at0.Values, Members(t0)`next, node`next
    ensures Sound(root, at, t) && Fits(t) && fresh(at.Values - at0.Values)
    ensures existing == (if node.key in KeyMap(t0) then KeyMap(t0)[node.key] else null)
    ensures existing != null && existing != node ==> existing.next == null
    ensures KeyMap(t) == KeyMap(t0)[node.key := node]
    ensures Members(t) == (if existing == null then Members(t0) else Members(t0) - {existing}) + {node}
    ensures |Members(t)| == |Members(t0)| + if existing == null then 1 else 0
    ensures existing != null ==> |Members(t0)| > 0
  {
    hide Fits, Sound, Members, KeyMap;
    KeyMapOf(t0);
    existing, at, t := InsertInto(root, node, at0, t0);
    KeyMapMore(t0, t, node);
  }

  /** remove_Hash on maps. */
  method RemoveMapped(root: HashBucket, key: Key, ghost at0: Places, ghost t0: Trie)
    returns (removed: HashNode?, ghost at: Places, ghost t: Trie)
    requires Sound(root, at0, t0) && Fits(t0)
    modifies at0.Values, Members(t0)`next
    ensures Sound(root, at, t) && Fits(t) && at.Values <= at0.Values
    ensures removed == (if key in KeyMap(t0) then KeyMap(t0)[key] else null)
    ensures removed != null ==> removed.next == null
    ensures KeyMap(t) == KeyMap(t0) - {key}
    ensures Members(t) == if removed == null then Members(t0) else Members(t0) - {removed}
    ensures |Members(t0)| == |Members(t)| + if removed == null then 0 else 1
  {
    hide Fits, Sound, Members, KeyMap;
    KeyMapOf(t0);
    removed, at, t := RemoveKey(root, key, at0, t0);
    if removed != null {
      KeyMapLess(t0, t, removed);
    } else {
      KeyMapOf(t);
    }
  }

  class Hash {
    var root: HashBucket
    var size: nat
    ghost var at: Places
    ghost var trie: Trie

    ghost predicate Valid()
      reads this, at.Values, Members(trie)
    {
      Sound(root, at, trie) && Fits(trie) && size == |Members(trie)|
    }

    ghost function Contents(): map<Key, HashNode>
      requires Valid()
      reads this, at.Values, Members(trie)
    {
      KeyMap(trie)
    }

    lemma ContentsAreMembers()
      requires Valid()
      ensures forall n :: n in Members(trie) ==> n.key in Contents() && Contents()[n.key] == n
      ensures forall k :: k in Contents() ==> Contents()[k] in Members(trie) && Contents()[k].key == k
      ensures size == |Contents()|
    {
      hide Fits, Sound, Members, KeyMap;
      KeyMapOf(trie);
      KeyMapSize(trie);
    }

    constructor ()
      ensures Valid() && Contents() == map[] && fresh(at.Values)
    {
      var b := new HashBucket();
      root := b;
      size := 0;
      at := map[Root := b];
      trie := BareTrie();
      new;
      hide Fits, Sound, Members, KeyMap;
      BareBucket(b);
      BareTrieFits();
    }

    /** clear_Hash: the buckets below the root are freed and the root is zeroed. */
    method Clear()
      requires Valid()
      modifies this, root
      ensures Valid() && Contents() == map[] && root == old(root)
    {
      hide Fits, Sound, Members, KeyMap;
      root.parent, root.child, root.node := null, [null, null, null, null], null;
      size := 0;
      at := map[Root := root];
      trie := BareTrie();
      BareBucket(root);
      BareTrieFits();
    }

    /** value_Hash and contains_Hash */
    method Value(key: Key) returns (found: HashNode?)
      requires Valid()
      ensures found == if key in Contents() then Contents()[key] else null
    {
      found := FindNode(root, key, at, trie);
      KeyMapOf(trie);
    }

    /** insert_Hash. A node that is there already is returned and stays; any other node with the key goes. */
    method Insert(node: HashNode) returns (existing: HashNode?)
      requires Valid()
      modifies this, at.Values, Members(trie)`next, node`next
      ensures Valid() && fresh(at.Values - old(at.Values))
      ensures existing == if node.key in old(Contents()) then old(Contents())[node.key] else null
      ensures existing != null && existing != node ==> existing.next == null
      ensures Contents() == old(Contents())[node.key := node]
      ensures Members(trie)
         == (if existing == null then old(Members(trie)) else old(Members(trie)) - {existing}) + {node}
    {
      hide Fits, Sound, Members, KeyMap;
      ghost var at', trie';
      existing, at', trie' := InsertMapped(root, node, at, trie);
      var others := if existing != null then size - 1 else size;
      Settle(others + 1, at', trie');
    }

    /** The count after an operation, and what the buckets now hold */
    method Settle(n: nat, ghost at': Places, ghost trie': Trie)
      requires Sound(root, at', trie') && Fits(trie') && n == |Members(trie')|
      modifies `size, `at, `trie
      ensures Valid() && size == n && at == at' && trie == trie'
    {
      hide Fits, Sound, Members;
      size, at, trie := n, at', trie';
    }

    method Remove(key: Key) returns (removed: HashNode?)
      requires Valid()
      modifies this, at.Values, Members(trie)`next
      ensures Valid() && at.Values <= old(at.Values)
      ensures removed == if key in old(Contents()) then old(Contents())[key] else null
      ensures removed != null ==> removed.next == null
      ensures Contents() == old(Contents()) - {key}
      ensures Members(trie) == if removed == null then old(Members(trie)) else old(Members(trie)) - {removed}
    {
      hide Fits, Sound, Members, KeyMap;
      ghost var at', trie';
      removed, at', trie' := RemoveMapped(root, key, at, trie);
      Settle(if removed != null then size - 1 else size, at', trie');
    }
  }
}
