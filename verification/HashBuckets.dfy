/** The buckets of hash.c in memory, against the trie they spell out. */
module HashBuckets {
  import opened HashTrie
  import opened Sequences

  class HashBucket {
    var parent: HashBucket?
    var child: seq<HashBucket?>
    var node: HashNode?

    constructor ()
      ensures parent == null && child == [null, null, null, null] && node == null
    {
      parent, child, node := null, [null, null, null, null], null;
    }
  }

  type Places = map<Path, HashBucket>

  ghost function Nth(s: seq<HashNode>, i: nat): HashNode? {
    if i < |s| then s[i] else null
  }

  /** Parents and children point at each other, and at nothing else. */
  ghost predicate Wired(at: Places)
    reads at.Values`parent, at.Values`child
  {
    && Root in at && at[Root].parent == null
    && (forall p, q :: p in at && q in at && at[p] == at[q] ==> p == q)
    && (forall p :: p in at ==> |at[p].child| == CHILD_COUNT)
    && (forall p, i: nat :: Step(p, i) in at ==>
          i < CHILD_COUNT && p in at && at[Step(p, i)].parent == at[p] && at[p].child[i] == at[Step(p, i)])
    && (forall p, i: nat {:trigger at[p].child[i]} ::
          p in at && i < CHILD_COUNT && Step(p, i) !in at ==> at[p].child[i] == null)
  }

  /** Every node of the list leads to the next one. */
  ghost predicate Chained(s: seq<HashNode>)
    reads Elems(s)`next
  {
    forall i: nat :: i < |s| ==> s[i].next == Nth(s, i + 1)
  }

  /** Every bucket outside `open` starts its list. */
  ghost predicate Headed(at: Places, t: Trie, open: set<Path>)
    reads at.Values`node
  {
    at.Keys == t.Keys && forall p :: p in at && p !in open ==> at[p].node == Nth(t[p], 0)
  }

  ghost predicate Linked(t: Trie)
    reads Members(t)`next
  {
    forall p :: p in t ==> Elems(t[p]) <= Members(t) && Chained(t[p])
  }

  ghost predicate Listed(at: Places, t: Trie, open: set<Path>)
    reads at.Values`node, Members(t)`next
  {
    Headed(at, t, open) && Linked(t)
  }

  // ---- Lists ----

  /** The node at `k` leaves the list: what led to it leads past it. */
  method Detach(d: HashBucket, prev: HashNode?, i: HashNode, ghost s: seq<HashNode>, ghost k: nat)
    requires Chained(s) && d.node == Nth(s, 0)
    requires forall a, b :: 0 <= a < b < |s| ==> s[a] != s[b]
    requires k < |s| && i == s[k] && prev == if k == 0 then null else s[k - 1]
    modifies d`node, Elems(s)`next
    ensures i.next == null && d.node == Nth(Without(s, k), 0) && Chained(Without(s, k))
  {
    ghost var r := Without(s, k);
    if prev == null {
      d.node := i.next;
    } else {
      prev.next := i.next;
    }
    i.next := null;
    forall j: nat | j < |r|
      ensures r[j].next == Nth(r, j + 1)
    {
      assert r[j] == if j < k then s[j] else s[j + 1];
    }
  }

  lemma DistinctNodes(s: seq<HashNode>)
    requires Distinct(s)
    ensures forall a, b :: 0 <= a < b < |s| ==> s[a] != s[b]
  {
    forall a, b | 0 <= a < b < |s|
      ensures s[a] != s[b]
    {
      assert s[a].key != s[b].key;
    }
  }

  lemma ListsCovered(t: Trie)
    ensures forall p :: p in t ==> Elems(t[p]) <= Members(t)
  {
  }

  method Cut(d: HashBucket, prev: HashNode?, i: HashNode, ghost at: Places, ghost t: Trie, ghost p: Path, ghost k: nat)
    requires Listed(at, t, {}) && Apart(t) && p in at && d == at[p]
    requires forall q :: q in at && q != p ==> at[q] != d
    requires k < |t[p]| && i == t[p][k] && prev == if k == 0 then null else t[p][k - 1]
    modifies d`node, Elems(t[p])`next
    ensures i.next == null && Listed(at, t[p := Without(t[p], k)], {})
  {
    hide Members, Distinct, Chained, Elems, Without, Nth;
    ghost var t' := t[p := Without(t[p], k)];
    DistinctNodes(t[p]);
    ListsCovered(t');
    Detach(d, prev, i, t[p], k);
    assert Headed(at, t', {});
    assert forall q :: q in t && q != p ==> Elems(t[q]) !! Elems(t[p]);
    assert Linked(t');
  }

  /** The loop of insert_Hash and remove_HashBucket_ over a list: the first node with the key, and the one before it */
  method Seek(first: HashNode?, key: Key, ghost s: seq<HashNode>)
    returns (found: HashNode?, prev: HashNode?, passed: nat)
    requires first == Nth(s, 0) && Chained(s)
    ensures passed == Find(s, key) && found == Nth(s, passed) && passed <= |s|
    ensures prev == if passed == 0 then null else s[passed - 1]
  {
    prev := null;
    found, passed := first, 0;
    while found != null && found.key != key
      invariant passed <= |s| && found == Nth(s, passed)
      invariant prev == if passed == 0 then null else s[passed - 1]
      invariant forall j :: 0 <= j < passed ==> s[j].key != key
      decreases |s| - passed
    {
      prev := found;
      found := found.next;
      passed := passed + 1;
    }
    FindAt(s, key, passed);
  }

  /** The search for a key in the list of a bucket, and what insert_Hash (225-234) and remove_HashBucket_
      (130-141) do when they find it; `passed` counts the nodes before it. */
  method Unlink(d: HashBucket, key: Key, ghost at: Places, ghost t: Trie, ghost p: Path)
    returns (found: HashNode?, passed: nat)
    requires Wired(at) && Listed(at, t, {}) && Apart(t) && p in at && d == at[p]
    modifies d`node, Elems(t[p])`next
    ensures passed == Find(t[p], key)
    ensures passed == |t[p]| ==> found == null && Listed(at, t, {})
    ensures passed < |t[p]| ==> found == t[p][passed] && found.next == null
    ensures passed < |t[p]| ==> Listed(at, t[p := Without(t[p], passed)], {})
  {
    hide Members;
    assert Chained(t[p]) && d.node == Nth(t[p], 0);
    var prev;
    found, prev, passed := Seek(d.node, key, t[p]);
    if found != null {
      Cut(d, prev, found, at, t, p, passed);
    }
  }

  lemma {:induction false} FindAt(s: seq<HashNode>, key: nat, k: nat)
    requires k <= |s| && forall j :: 0 <= j < k ==> s[j].key != key
    requires k < |s| ==> s[k].key == key
    ensures Find(s, key) == k
  {
    if k > 0 {
      FindAt(s[1..], key, k - 1);
    }
  }

  method AddNode(d: HashBucket, node: HashNode, ghost at: Places, ghost t: Trie, ghost p: Path, ghost open: set<Path>)
    requires Wired(at) && Listed(at, t, open) && p in at && p !in open && d == at[p]
    requires node !in Members(t)
    modifies d`node, node`next
    ensures Listed(at, t[p := [node] + t[p]], open)
  {
    hide Members;
    Link(node, d.node, t);
    d.node := node;
    ListedMore(at, t, p, node, open);
  }

  /** The next pointer of a node that is in no list */
  method Link(node: HashNode, next: HashNode?, ghost t: Trie)
    requires Linked(t) && node !in Members(t)
    modifies node`next
    ensures Linked(t) && node.next == next
  {
    hide Members;
    node.next := next;
    forall q | q in t ensures Chained(t[q]) && Elems(t[q]) <= Members(t) {
      assert node !in Elems(t[q]);
    }
  }

  lemma ListedMore(at: Places, t: Trie, p: Path, node: HashNode, open: set<Path>)
    requires at.Keys == t.Keys && p in at && p !in open && at[p].node == node
    requires forall q :: q in at && q !in open && q != p ==> at[q].node == Nth(t[q], 0)
    requires Linked(t) && node.next == Nth(t[p], 0)
    ensures Listed(at, t[p := [node] + t[p]], open)
  {
    assert Chained(t[p]);
    assert Chained([node] + t[p]);
  }

  // ---- Splitting ----

  /** `Wired`, but for what the children of the bucket at `p` are. */
  ghost predicate WiredBut(at: Places, p: Path)
    reads at.Values`parent, (set q | q in at && q != p :: at[q])`child
  {
    && Root in at && at[Root].parent == null
    && (forall q, r :: q in at && r in at && at[q] == at[r] ==> q == r)
    && (forall q :: q in at && q != p ==> |at[q].child| == CHILD_COUNT)
    && (forall q, i: nat :: Step(q, i) in at ==> i < CHILD_COUNT && q in at && at[Step(q, i)].parent == at[q])
    && (forall q, i: nat :: Step(q, i) in at && q != p ==> at[q].child[i] == at[Step(q, i)])
    && (forall q, i: nat {:trigger at[q].child[i]} ::
          q in at && q != p && i < CHILD_COUNT && Step(q, i) !in at ==> at[q].child[i] == null)
  }

  lemma WiredWithout(at: Places, p: Path)
    requires Wired(at)
    ensures WiredBut(at, p)
  {
  }

  /** The bucket at `p` gets the children `cs`. */
  lemma WiredGrown(at: Places, p: Path, cs: seq<HashBucket>, at': Places)
    requires WiredBut(at, p) && p in at && Kids(p) !! at.Keys && |cs| == CHILD_COUNT
    requires forall i, j :: 0 <= i < j < CHILD_COUNT ==> cs[i] != cs[j]
    requires forall i, q :: 0 <= i < CHILD_COUNT && q in at ==> cs[i] != at[q]
    requires forall i :: 0 <= i < CHILD_COUNT ==> cs[i].parent == at[p] && cs[i].child == [null, null, null, null]
    requires |at[p].child| == CHILD_COUNT && forall i :: 0 <= i < CHILD_COUNT ==> at[p].child[i] == cs[i]
    requires at'.Keys == at.Keys + Kids(p) && forall q :: q in at' ==> at'[q] == if q in at then at[q] else cs[q.digit]
    ensures Wired(at')
  {
    hide Len, Slice;
    forall q, i: nat | Step(q, i) in at'
      ensures i < CHILD_COUNT && q in at' && at'[Step(q, i)].parent == at'[q] && at'[q].child[i] == at'[Step(q, i)]
    {
      if q == p {
        assert IsKid(Step(q, i), p) || Step(q, i) in at;
      } else {
        assert Step(q, i) in at;
      }
    }
    forall q, r | q in at' && r in at' && at'[q] == at'[r]
      ensures q == r
    {
      assert q in at || IsKid(q, p);
      assert r in at || IsKid(r, p);
    }
  }

  ghost function TrimPlaces(at: Places, u: Path): Places {
    map q | q in at && !IsKid(q, u) :: at[q]
  }

  /** The children of `u` are let go. */
  lemma WiredTrimmed(at: Places, t: Trie, u: Path)
    requires WiredBut(at, u) && at.Keys == t.Keys && u in at
    requires Shaped(t) && forall q :: IsKid(q, u) ==> EmptyLeaf(t, q)
    requires |at[u].child| == CHILD_COUNT && forall j :: 0 <= j < CHILD_COUNT ==> at[u].child[j] == null
    ensures Wired(TrimPlaces(at, u))
  {
    hide Len, Slice, Shaped;
    var at' := TrimPlaces(at, u);
    forall q, i: nat | Step(q, i) in at'
      ensures i < CHILD_COUNT && q in at' && q != u
      ensures at'[Step(q, i)].parent == at'[q] && at'[q].child[i] == at'[Step(q, i)]
    {
      ChildOf(t, q, i);
      assert IsKid(q, u) ==> EmptyLeaf(t, q);
    }
  }

  /** The first loop of split_HashBucket_ (94-98). */
  method Sprout(d: HashBucket, ghost at: Places, ghost p: Path) returns (ghost at': Places)
    requires Wired(at) && p in at && d == at[p] && Kids(p) !! at.Keys
    modifies d`child
    ensures Wired(at') && at'.Keys == at.Keys + Kids(p)
    ensures forall q :: q in at ==> at'[q] == at[q]
    ensures forall q :: IsKid(q, p) ==> fresh(at'[q]) && at'[q].node == null
  {
    hide Slice, Len, Wired, WiredBut;
    WiredWithout(at, p);
    WiredLengths(at, p);
    ghost var cs: seq<HashBucket> := [];
    for i := 0 to CHILD_COUNT
      invariant |cs| == i && |d.child| == CHILD_COUNT && WiredBut(at, p)
      invariant forall j :: 0 <= j < i ==> d.child[j] == cs[j] && fresh(cs[j]) && allocated(cs[j])
      invariant forall j :: 0 <= j < i ==> cs[j].parent == d && cs[j].node == null
      invariant forall j :: 0 <= j < i ==> cs[j].child == [null, null, null, null]
      invariant forall j, k :: 0 <= j < k < i ==> cs[j] != cs[k]
      modifies d`child
    {
      var c := new HashBucket();
      d.child := d.child[i := c];
      c.parent := d;
      cs := cs + [c];
    }
    at' := map q | q in at.Keys + Kids(p) :: if q in at then at[q] else cs[q.digit];
    WiredGrown(at, p, cs, at');
  }

  lemma WiredLengths(at: Places, p: Path)
    requires Wired(at) && p in at
    ensures |at[p].child| == CHILD_COUNT
    ensures forall q :: q in at && q != p ==> at[q] != at[p]
  {
  }

  lemma ShareStep(s: seq<HashNode>, d: nat, k: nat, i: nat)
    requires k < |s|
    ensures Share(s[..k + 1], d, i) == (if Slice(s[k].key, d) == i then [s[k]] else []) + Share(s[..k], d, i)
  {
    hide Slice;
    assert s[..k + 1][..k] == s[..k];
  }

  lemma DealtStep(t: Trie, p: Path, k: nat, q: Path)
    requires p in t && k < |t[p]| && Kids(p) !! t.Keys && q == Step(p, Slice(t[p][k].key, Len(p)))
    ensures q in Dealt(t, p, k)
    ensures Dealt(t, p, k + 1) == Dealt(t, p, k)[p := t[p][k + 1..]][q := [t[p][k]] + Dealt(t, p, k)[q]]
  {
    hide Slice, Dealt, Share, Len;
    var t1, t2 := Dealt(t, p, k), Dealt(t, p, k + 1);
    DealtKeys(t, p, k, q);
    DealtKeys(t, p, k + 1, q);
    var t3 := t1[p := t[p][k + 1..]][q := [t[p][k]] + t1[q]];
    forall x | x in t2
      ensures t2[x] == t3[x]
    {
      DealtStepAt(t, p, k, q, x);
    }
  }

  lemma DealtKeys(t: Trie, p: Path, k: nat, q: Path)
    requires p in t && k <= |t[p]| && Kids(p) !! t.Keys && IsKid(q, p)
    ensures p in Dealt(t, p, k) && q in Dealt(t, p, k) && Dealt(t, p, k).Keys == t.Keys + Kids(p)
  {
    hide Dealt, Share, Len, Slice;
    DealtParts(t, p, k);
  }

  lemma DealtStepAt(t: Trie, p: Path, k: nat, q: Path, x: Path)
    requires p in t && k < |t[p]| && Kids(p) !! t.Keys && q == Step(p, Slice(t[p][k].key, Len(p)))
    requires q in Dealt(t, p, k) && x in Dealt(t, p, k + 1)
    ensures x in Dealt(t, p, k) && Dealt(t, p, k + 1)[x]
         == if x == q then [t[p][k]] + Dealt(t, p, k)[q] else if x == p then t[p][k + 1..] else Dealt(t, p, k)[x]
  {
    hide Slice, Dealt, Share, Len;
    DealtParts(t, p, k);
    DealtParts(t, p, k + 1);
    assert IsKid(q, p);
    if x !in t {
      assert IsKid(x, p);
      ShareStep(t[p], Len(p), k, x.digit);
    }
  }

  lemma DealtOnce(t: Trie, p: Path, k: nat)
    requires p in t && k < |t[p]| && Kids(p) !! t.Keys && Apart(t)
    ensures t[p][k] !in Members(Dealt(t, p, k)[p := t[p][k + 1..]])
  {
    hide Slice, Dealt;
    var s, n := t[p], t[p][k];
    var t' := Dealt(t, p, k)[p := s[k + 1..]];
    DealtParts(t, p, k);
    DistinctNodes(s);
    forall q | q in t'
      ensures n !in t'[q]
    {
      if q != p && q in t {
        assert n !in t[q];
      } else if q != p {
        assert IsKid(q, p);
        assert n !in s[..k];
      }
    }
  }

  lemma HeadDropped(at: Places, t: Trie, p: Path)
    requires Listed(at, t, {p}) && p in t && t[p] != []
    ensures Listed(at, t[p := t[p][1..]], {p})
  {
    hide Members;
    ListsCovered(t[p := t[p][1..]]);
  }

  /** The second loop of split_HashBucket_ (99-105). */
  method Deal(d: HashBucket, depth: nat, ghost at: Places, ghost t: Trie, ghost p: Path)
    requires Wired(at) && Apart(t) && p in t && p in at && d == at[p] && d.node == Nth(t[p], 0)
    requires depth == Len(p) && CHILD_SHIFT * depth < 32 && Kids(p) !! t.Keys
    requires Listed(at, Dealt(t, p, 0), {})
    modifies Elems(t[p])`next, (set q | q in Kids(p) && q in at :: at[q])`node
    ensures Listed(at, SplitTrie(t, p), {p})
  {
    hide Slice, Along, Members, Dealt, Linked;
    ghost var k := 0;
    var i := d.node;
    while i != null
      invariant k <= |t[p]| && i == Nth(t[p], k)
      invariant Listed(at, Dealt(t, p, k), {p})
      decreases |t[p]| - k
    {
      i := DealOne(d, depth, i, at, t, p, k);
      k := k + 1;
    }
  }

  method DealOne(d: HashBucket, depth: nat, i: HashNode, ghost at: Places, ghost t: Trie, ghost p: Path, ghost k: nat)
    returns (next: HashNode?)
    requires Wired(at) && Apart(t) && p in t && p in at && d == at[p] && k < |t[p]| && i == t[p][k]
    requires depth == Len(p) && CHILD_SHIFT * depth < 32 && Kids(p) !! t.Keys
    requires Listed(at, Dealt(t, p, k), {p})
    modifies i`next, (set q | q in Kids(p) && q in at :: at[q])`node
    ensures next == Nth(t[p], k + 1)
    ensures Listed(at, Dealt(t, p, k + 1), {p})
  {
    hide Along, Members, Dealt, Share, Slice, Kids, Len, Shifted;
    next := i.next;
    ShiftIsShifted(i.key, depth);
    var dest := d.child[ShiftRight(i.key, CHILD_SHIFT * depth) % 4];
    ghost var q := Step(p, Slice(i.key, depth));
    DealtParts(t, p, k);
    DealtStep(t, p, k, q);
    DealtOnce(t, p, k);
    HeadDropped(at, Dealt(t, p, k), p);
    AddNode(dest, i, at, Dealt(t, p, k)[p := t[p][k + 1..]], q, {p});
  }

  lemma DealtNone(at: Places, t: Trie, p: Path)
    requires p in t && Kids(p) !! t.Keys && at.Keys == t.Keys + Kids(p)
    requires forall q :: q in t ==> at[q].node == Nth(t[q], 0)
    requires forall q :: IsKid(q, p) ==> at[q].node == null
    requires Linked(t)
    ensures Listed(at, Dealt(t, p, 0), {})
  {
    hide Members, Slice, Dealt;
    var t' := Dealt(t, p, 0);
    DealtParts(t, p, 0);
    ListsCovered(t');
    forall q | q in t'
      ensures if q in t then t'[q] == t[q] else t'[q] == []
    {
      assert t[p][..0] == [];
    }
  }

  method ClearList(d: HashBucket, ghost at: Places, ghost t: Trie, ghost p: Path)
    requires Wired(at) && Listed(at, t, {p}) && p in at && d == at[p] && t[p] == []
    modifies d`node
    ensures Listed(at, t, {})
  {
    hide Members, Slice, Along, Linked;
    d.node := null;
    assert forall q :: q in at && q != p ==> at[q] != d;
  }

  method SproutList(d: HashBucket, ghost at: Places, ghost t: Trie, ghost p: Path) returns (ghost at': Places)
    requires Wired(at) && Listed(at, t, {}) && p in at && d == at[p] && Kids(p) !! t.Keys
    modifies d`child
    ensures Wired(at') && Listed(at', Dealt(t, p, 0), {}) && d.node == Nth(t[p], 0)
    ensures at'.Keys == at.Keys + Kids(p)
    ensures forall q :: q in at ==> at'[q] == at[q]
    ensures forall q :: IsKid(q, p) ==> fresh(at'[q])
  {
    hide Slice, Dealt, Wired;
    at' := Sprout(d, at, p);
    DealtNone(at', t, p);
  }

  method Split(d: HashBucket, depth: nat, ghost at: Places, ghost t: Trie, ghost p: Path) returns (ghost at': Places)
    requires Wired(at) && Listed(at, t, {}) && Fits(t) && p in t && !IsBranch(t, p)
    requires p in at && d == at[p] && depth == Len(p) < KEY_SLICES - 1
    modifies d, Elems(t[p])`next
    ensures Wired(at') && Listed(at', SplitTrie(t, p), {})
    ensures forall q :: q in at ==> q in at' && at'[q] == at[q]
    ensures forall q :: q in at' && q !in at ==> fresh(at'[q])
  {
    hide Members, Slice, Dealt, Along, Shaped, SplitTrie, Wired, Headed, Linked, Placed, Apart, Chained;
    NoKids(t, p);
    FitsApart(t);
    at' := SproutList(d, at, t, p);
    Deal(d, depth, at', t, p);
    SplitParts(t, p);
    ClearList(d, at', SplitTrie(t, p), p);
  }

  // ---- Trimming ----

  predicate IsEmpty(d: HashBucket)
    requires |d.child| == CHILD_COUNT
    reads d
  {
    d.node == null && d.child[0] == null && d.child[1] == null
  }

  /** Looking at the list and two of the children tells whether a bucket has neither nodes nor children. */
  lemma IsEmptyMeans(at: Places, t: Trie, p: Path)
    requires Wired(at) && Headed(at, t, {}) && Shaped(t) && p in at
    ensures |at[p].child| == CHILD_COUNT && (IsEmpty(at[p]) <==> EmptyLeaf(t, p))
  {
    hide Len;
    assert at[p].child[0] == null <==> Step(p, 0) !in at;
    assert Step(p, 0) in t ==> HasKids(t, p);
  }

  lemma ParentAt(at: Places, t: Trie, p: Path)
    requires Wired(at) && Headed(at, t, {}) && Shaped(t) && p in at
    ensures p.Root? <==> at[p].parent == null
    ensures p.Step? ==> p.up in at && at[p].parent == at[p.up] && |at[p.up].child| == CHILD_COUNT
    ensures p.Step? ==> forall i: nat :: i < CHILD_COUNT ==>
            Step(p.up, i) in at && at[p.up].child[i] == at[Step(p.up, i)]
  {
    hide Len;
    if p.Step? {
      assert Step(p.up, p.digit) in at;
      assert HasKids(t, p.up);
    }
  }

  predicate AllEmpty(u: HashBucket)
    requires |u.child| == CHILD_COUNT
    requires forall i :: 0 <= i < CHILD_COUNT ==> u.child[i] != null && |u.child[i].child| == CHILD_COUNT
    reads u, u.child
  {
    IsEmpty(u.child[0]) && IsEmpty(u.child[1]) && IsEmpty(u.child[2]) && IsEmpty(u.child[3])
  }

  /** What the loop of trim_HashBucket_ asks. */
  lemma AllEmptyMeans(at: Places, t: Trie, p: Path)
    requires Wired(at) && Headed(at, t, {}) && Shaped(t) && p in at && p.Step?
    ensures p.up in at && at[p].parent == at[p.up] && |at[p.up].child| == CHILD_COUNT
    ensures forall i :: 0 <= i < CHILD_COUNT ==> at[p.up].child[i] != null && |at[p.up].child[i].child| == CHILD_COUNT
    ensures AllEmpty(at[p.up]) <==> forall q :: IsKid(q, p.up) ==> EmptyLeaf(t, q)
  {
    hide Wired, Shaped, EmptyLeaf, IsEmpty;
    ParentAt(at, t, p);
    var u := p.up;
    forall i: nat | i < CHILD_COUNT
      ensures Step(u, i) in at && |at[Step(u, i)].child| == CHILD_COUNT && at[u].child[i] == at[Step(u, i)]
      ensures IsEmpty(at[u].child[i]) <==> EmptyLeaf(t, Step(u, i))
    {
      IsEmptyMeans(at, t, Step(u, i));
    }
    assert IsKid(Step(u, 0), u) && IsKid(Step(u, 1), u) && IsKid(Step(u, 2), u) && IsKid(Step(u, 3), u);
  }

  /** The body of the loop of trim_HashBucket_ (119-124): the children of `d` are let go. */
  method DropChildren(d: HashBucket, ghost at: Places, ghost t: Trie, ghost u: Path)
    requires Wired(at) && Listed(at, t, {}) && u in at && d == at[u]
    requires Shaped(t) && forall q :: IsKid(q, u) ==> EmptyLeaf(t, q)
    modifies d`child
    ensures Wired(TrimPlaces(at, u)) && Listed(TrimPlaces(at, u), TrimTrie(t, u), {})
  {
    hide Len, Slice, Along, Members, Chained, Wired, WiredBut, Shaped;
    WiredWithout(at, u);
    WiredLengths(at, u);
    for i := 0 to CHILD_COUNT
      invariant |d.child| == CHILD_COUNT && (forall j :: 0 <= j < i ==> d.child[j] == null) && WiredBut(at, u)
    {
      d.child := d.child[i := null];
    }
    WiredTrimmed(at, t, u);
    TrimLinked(t, u);
  }

  lemma TrimLinked(t: Trie, u: Path)
    requires Linked(t)
    ensures Linked(TrimTrie(t, u))
  {
    hide Members, Chained;
    ListsCovered(TrimTrie(t, u));
  }

  method Trim(d0: HashBucket, ghost at0: Places, ghost t0: Trie, ghost p0: Path)
    returns (d: HashBucket, ghost at: Places, ghost t: Trie, ghost p: Path)
    requires Wired(at0) && Listed(at0, t0, {}) && Fits(t0) && FilledBut(t0, p0)
    requires p0 in at0 && d0 == at0[p0] && EmptyLeaf(t0, p0)
    modifies at0.Values`child
    ensures Wired(at) && Listed(at, t, {}) && Fits(t) && Filled(t) && Members(t) == Members(t0)
    ensures EmptyLeaf(t, p) && p in at && d == at[p] && Below(p0, p) && at.Values <= at0.Values
    ensures Root in at0 ==> Root in at && at[Root] == at0[Root]
  {
    hide Shaped, Placed, Members, Headed, Linked, Wired, FilledBut, AllEmpty, TrimTrie;
    d, at, t, p := d0, at0, t0, p0;
    while d.parent != null && (ParentAt(at, t, p); AllEmptyMeans(at, t, p); AllEmpty(d.parent))
      invariant Wired(at) && Listed(at, t, {}) && Fits(t) && FilledBut(t, p) && Members(t) == Members(t0)
      invariant EmptyLeaf(t, p) && p in at && d == at[p] && Below(p0, p) && at.Values <= at0.Values
      invariant Root in at0 ==> Root in at && at[Root] == at0[Root]
      decreases Len(p)
    {
      ParentAt(at, t, p);
      AllEmptyMeans(at, t, p);
      d := d.parent;
      DropChildren(d, at, t, p.up);
      TrimStep(t, p);
      BelowTransitive(p0, p, p.up);
      at, t, p := TrimPlaces(at, p.up), TrimTrie(t, p.up), p.up;
    }
    ParentAt(at, t, p);
    if p.Step? {
      AllEmptyMeans(at, t, p);
    }
    TrimDone(t, p);
  }
}
