/** Visiting the nodes of a hash bucket by bucket, with removal on the way. */
module HashIterators {
  import opened HashTrie
  import opened HashBuckets
  import opened Hash
  import opened Sequences

  // ---- What is still to come ----

  /** The nodes that belong to the right of `p`. */
  ghost function Later(t: Trie, p: Path): set<HashNode> {
    set n | n in Members(t) && After(p, n.key)
  }

  /** No node is found by a search through `p`. */
  ghost predicate Barren(t: Trie, p: Path) {
    forall n :: n in Members(t) ==> !Along(n.key, p)
  }

  /** `q` has nodes and is the first such bucket at or below `p`. */
  ghost predicate FirstBelow(t: Trie, p: Path, q: Path) {
    && q in t && t[q] != [] && Below(q, p)
    && forall n :: n in Members(t) && Along(n.key, p) ==> n in t[q] || After(q, n.key)
  }

  /** `q` has nodes and is the first such bucket to the right of `p`. */
  ghost predicate FirstAfter(t: Trie, p: Path, q: Path) {
    && q in t && t[q] != []
    && (forall n :: n in t[q] ==> After(p, n.key))
    && (forall n :: n in Members(t) && After(p, n.key) ==> n in t[q] || After(q, n.key))
  }

  /** All that comes after `p` is listed at `q` or comes after `q`. */
  lemma LaterFrom(t: Trie, p: Path, q: Path)
    requires Fits(t) && FirstAfter(t, p, q)
    ensures q in t && t[q] != [] && Later(t, p) == Elems(t[q]) + Later(t, q)
    ensures t[q][0] !in Later(t, q)
  {
    hide Slice, Shaped;
    NotAfterAlong(q, t[q][0].key);
    var m := t[q][0];
    assert m in t[q] && Along(m.key, q) && After(p, m.key);
    forall n | n in Later(t, q)
      ensures n in Later(t, p)
    {
      AfterTransitive(p, m.key, q, n.key);
    }
    forall n | n in t[q]
      ensures n in Members(t)
    {
    }
  }

  /** A childless bucket is the only one that can list a node on its path. */
  lemma OnlyHere(t: Trie, p: Path)
    requires Fits(t) && p in t && !IsBranch(t, p)
    ensures t[p] == [] ==> Barren(t, p)
    ensures t[p] != [] ==> FirstBelow(t, p, p)
  {
    hide Slice;
    forall n | n in Members(t) && Along(n.key, p)
      ensures n in t[p]
    {
      var q :| q in t && n in t[q];
      ListedAtLeaf(t, q);
      SearchEnds(t, p, q, n.key);
    }
  }

  lemma BarrenBelow(t: Trie, q: Path, p: Path)
    requires Barren(t, p) && Below(q, p)
    ensures Barren(t, q)
  {
    hide Slice, Members;
    forall n | n in Members(t)
      ensures !Along(n.key, q)
    {
      if Along(n.key, q) {
        BelowAlong(n.key, q, p);
      }
    }
  }

  /** The first `i` children of `p` have no nodes. */
  ghost predicate BarrenKids(t: Trie, p: Path, from: nat, to: nat) {
    forall n :: n in Members(t) && Along(n.key, p) ==> !(from <= Slice(n.key, Len(p)) < to)
  }

  lemma NextKid(t: Trie, p: Path, from: nat, i: nat)
    requires BarrenKids(t, p, from, i) && Barren(t, Step(p, i))
    ensures BarrenKids(t, p, from, i + 1)
  {
    hide Slice, Members, Len;
    forall n | n in Members(t) && Along(n.key, p)
      ensures !(from <= Slice(n.key, Len(p)) < i + 1)
    {
      assert Along(n.key, Step(p, i)) <==> Slice(n.key, Len(p)) == i;
    }
  }

  /** What follows in later children comes after everything in child `i`. */
  lemma KidFound(t: Trie, p: Path, from: nat, i: nat, q: Path)
    requires from <= i && BarrenKids(t, p, from, i) && FirstBelow(t, Step(p, i), q)
    ensures forall n :: n in Members(t) && Along(n.key, p) && from <= Slice(n.key, Len(p)) ==>
            n in t[q] || After(q, n.key)
  {
    hide Slice, Members, Len;
    var k := Step(p, i);
    forall n | n in Members(t) && Along(n.key, p) && from <= Slice(n.key, Len(p))
      ensures n in t[q] || After(q, n.key)
    {
      if Slice(n.key, Len(p)) == i {
        assert Along(n.key, k);
      } else {
        assert Slice(n.key, Len(p)) > i;
        assert After(k, n.key);
        AfterBelow(q, k, n.key);
      }
    }
  }

  // ---- Finding it ----

  /** firstInOrder_HashBucket_ */
  method FirstInOrder(d: HashBucket?, ghost at: Places, ghost t: Trie, ghost p: Path)
    returns (elem: HashBucket?, ghost q: Path)
    requires Wired(at) && Listed(at, t, {}) && Fits(t)
    requires if d == null then Barren(t, p) else p in at && d == at[p]
    ensures Wired(at) && Listed(at, t, {})
    ensures elem == null ==> Barren(t, p)
    ensures elem != null ==> FirstBelow(t, p, q) && q in at && elem == at[q]
    decreases if d == null then 0 else KEY_SLICES + 1 - Len(p)
  {
    hide Slice, Along, After, Members, Barren, FirstBelow, Linked, Wired, Fits, BarrenKids;
    elem, q := null, p;
    if d == null {
      return;
    }
    FitsParts(t);
    ChildrenAt(at, t, p);
    if d.node != null {
      ListedAtLeaf(t, p);
      OnlyHere(t, p);
      elem := d;
      return;
    }
    NoKidsYet(t, p);
    if !IsBranch(t, p) {
      OnlyHere(t, p);
    }
    for i := 0 to CHILD_COUNT
      invariant Wired(at) && Listed(at, t, {}) && elem == null
      invariant BarrenKids(t, p, 0, i)
    {
      ChildrenAt(at, t, p);
      if !IsBranch(t, p) {
        BarrenBelow(t, Step(p, i), p);
      }
      elem, q := FirstInOrder(d.child[i], at, t, Step(p, i));
      if elem != null {
        KidFound(t, p, 0, i, q);
        BelowUp(t, p, i, q);
        return;
      }
      NextKid(t, p, 0, i);
    }
    AllKidsBarren(t, p);
  }

  lemma FitsParts(t: Trie)
    requires Fits(t)
    ensures Shaped(t)
  {
  }

  lemma NoKidsYet(t: Trie, p: Path)
    ensures forall i: nat :: BarrenKids(t, p, i, i)
  {
  }

  lemma AllKidsBarren(t: Trie, p: Path)
    requires BarrenKids(t, p, 0, CHILD_COUNT)
    ensures Barren(t, p)
  {
    hide Members, Along, Len, Shifted;
  }

  lemma BelowUp(t: Trie, p: Path, i: nat, q: Path)
    requires FirstBelow(t, Step(p, i), q)
    requires forall n :: n in Members(t) && Along(n.key, p) ==> n in t[q] || After(q, n.key)
    ensures FirstBelow(t, p, q)
  {
    hide Slice, Along, After, Members;
    BelowTransitive(q, Step(p, i), p);
  }

  /** What comes after `p`, seen from a bucket above it, lies in later children or after that bucket. */
  lemma FoundToTheRight(t: Trie, p: Path, c: Path, i: nat, q: Path)
    requires Fits(t) && Below(p, c) && c.Step? && c.digit < i
    requires forall n :: n in Members(t) && After(p, n.key) ==> After(c, n.key)
    requires BarrenKids(t, c.up, c.digit + 1, i) && FirstBelow(t, Step(c.up, i), q)
    ensures FirstAfter(t, p, q)
  {
    hide Slice, Members, Len, Shaped;
    KidFound(t, c.up, c.digit + 1, i, q);
    forall n | n in t[q]
      ensures After(p, n.key)
    {
      assert Along(n.key, q);
      BelowAlong(n.key, q, Step(c.up, i));
      assert After(c, n.key);
      AfterBelow(p, c, n.key);
    }
    forall n | n in Members(t) && After(p, n.key)
      ensures n in t[q] || After(q, n.key)
    {
      if After(c.up, n.key) {
        BelowTransitive(q, Step(c.up, i), c.up);
        AfterBelow(q, c.up, n.key);
      }
    }
  }

  lemma OneUp(t: Trie, p: Path, c: Path)
    requires c.Step? && Below(p, c) && BarrenKids(t, c.up, c.digit + 1, CHILD_COUNT)
    requires forall n :: n in Members(t) && After(p, n.key) ==> After(c, n.key)
    ensures Below(p, c.up)
    ensures forall n :: n in Members(t) && After(p, n.key) ==> After(c.up, n.key)
  {
    hide Shifted, Members, Len;
    BelowTransitive(p, c, c.up);
  }

  /** ordinal_HashBucket_ */
  method Ordinal(d: HashBucket, ghost at: Places, ghost t: Trie, ghost p: Path) returns (ord: int)
    requires Wired(at) && Listed(at, t, {}) && Shaped(t) && p in at && d == at[p]
    ensures Wired(at) && Listed(at, t, {})
    ensures ord == if p.Step? then p.digit else -1
  {
    hide Slice, Members, Linked;
    ParentAt(at, t, p);
    if d.parent != null {
      for i := 0 to CHILD_COUNT
        invariant Wired(at) && Listed(at, t, {})
        invariant p.Step? && i <= p.digit
      {
        ParentAt(at, t, p);
        if d.parent.child[i] == d {
          assert Step(p.up, i) == p;
          return i;
        }
      }
    }
    return -1;
  }

  /** The first half of the loop of nextInOrder_HashBucket_ (174-182), for a bucket `d` above the one at `p`. */
  method NextSibling(d: HashBucket, ghost at: Places, ghost t: Trie, ghost c: Path, ghost p: Path)
    returns (successor: HashBucket?, ghost q: Path)
    requires Wired(at) && Listed(at, t, {}) && Fits(t) && c in at && d == at[c] && c.Step? && Below(p, c)
    requires forall n :: n in Members(t) && After(p, n.key) ==> After(c, n.key)
    ensures Wired(at) && Listed(at, t, {})
    ensures successor == null ==> BarrenKids(t, c.up, c.digit + 1, CHILD_COUNT)
    ensures successor != null ==> FirstAfter(t, p, q) && q in at && successor == at[q]
  {
    hide Slice, Along, After, Below, Members, Barren, FirstBelow, FirstAfter, Linked, Wired, Fits, BarrenKids;
    FitsParts(t);
    var ord := Ordinal(d, at, t, c);
    NoKidsYet(t, c.up);
    ParentAt(at, t, c);
    for i := ord + 1 to CHILD_COUNT
      invariant Wired(at) && Listed(at, t, {}) && d.parent == at[c.up]
      invariant BarrenKids(t, c.up, c.digit + 1, i)
    {
      ParentAt(at, t, c);
      successor, q := FirstInOrder(d.parent.child[i], at, t, Step(c.up, i));
      if successor != null {
        FoundToTheRight(t, p, c, i, q);
        return;
      }
      NextKid(t, c.up, c.digit + 1, i);
    }
    successor, q := null, p;
  }

  /** nextInOrder_HashBucket_ */
  method NextInOrder(d: HashBucket, ghost at: Places, ghost t: Trie, ghost p: Path)
    returns (elem: HashBucket?, ghost q: Path)
    requires Wired(at) && Listed(at, t, {}) && Fits(t) && p in at && d == at[p]
    ensures Wired(at) && Listed(at, t, {})
    ensures elem == null ==> Later(t, p) == {}
    ensures elem != null ==> FirstAfter(t, p, q) && q in at && elem == at[q]
  {
    hide Slice, Along, After, Below, Members, Barren, FirstBelow, FirstAfter, Linked, Wired, Fits, BarrenKids;
    FitsParts(t);
    elem, q := null, p;
    var c := d;
    ghost var cp := p;
    StartHere(t, p);
    ParentAt(at, t, cp);
    while c.parent != null
      invariant Wired(at) && Listed(at, t, {}) && cp in at && c == at[cp] && Below(p, cp) && elem == null
      invariant c.parent == null <==> cp.Root?
      invariant forall n :: n in Members(t) && After(p, n.key) ==> After(cp, n.key)
      decreases cp
    {
      ParentAt(at, t, cp);
      elem, q := NextSibling(c, at, t, cp, p);
      if elem != null {
        return;
      }
      OneUp(t, p, cp);
      ParentAt(at, t, cp);
      c := c.parent;
      cp := cp.up;
      ParentAt(at, t, cp);
    }
    NothingLater(t, p, cp);
  }

  lemma StartHere(t: Trie, p: Path)
    ensures Below(p, p)
  {
  }

  lemma NothingLater(t: Trie, p: Path, c: Path)
    requires c.Root? && forall n :: n in Members(t) && After(p, n.key) ==> After(c, n.key)
    ensures Later(t, p) == {}
  {
    hide Members;
  }

  // ---- Removing on the way ----

  /** One node of the list at `p` is taken out: what comes after `p` stays. */
  lemma LaterWithout(t: Trie, t': Trie, p: Path, n: HashNode)
    requires Along(n.key, p) && Members(t') == Members(t) - {n}
    ensures Later(t', p) == Later(t, p)
  {
    hide Members, Along, After;
    NotAfterAlong(p, n.key);
  }

  /** The last node at `p` is taken out and buckets are trimmed up to `u`: what came after `p` now comes after `u`. */
  lemma LaterTrimmed(t: Trie, t': Trie, p: Path, u: Path, n: HashNode)
    requires Fits(t') && Along(n.key, p) && Members(t') == Members(t) - {n}
    requires EmptyLeaf(t', u) && Below(p, u)
    ensures Later(t', u) == Later(t, p)
  {
    hide Members, Along, After, Below, Fits;
    OnlyHere(t', u);
    LaterWithout(t, t', p, n);
    forall m | m in Later(t', p)
      ensures m in Later(t', u)
    {
      AfterUnlessAlong(p, u, m.key);
    }
    forall m | m in Later(t', u)
      ensures m in Later(t', p)
    {
      AfterBelow(p, u, m.key);
    }
  }

  lemma ListedAlong(t: Trie, p: Path, n: HashNode)
    requires Fits(t) && p in t && n in t[p]
    ensures Along(n.key, p) && n in Members(t)
  {
  }

  lemma FindListed(t: Trie, p: Path, k: nat)
    requires Fits(t) && p in t && k < |t[p]|
    ensures Find(t[p], t[p][k].key) == k
  {
    hide Shaped, Along;
    assert Distinct(t[p]);
    FindAt(t[p], t[p][k].key, k);
  }

  lemma ListSplit(s: seq<HashNode>)
    requires s != [] && Distinct(s)
    ensures Elems(s[1..]) == Elems(s) - {s[0]}
  {
    WithoutElems(s, 0);
    assert Without(s, 0) == s[1..];
  }

  lemma FirstOfAll(t: Trie, q: Path)
    requires Fits(t) && FirstBelow(t, Root, q)
    ensures q in t && t[q] != [] && Members(t) == Elems(t[q]) + Later(t, q) && t[q][0] !in Later(t, q)
  {
    hide Slice, Shaped;
    assert t[q][0] in t[q];
    NotAfterAlong(q, t[q][0].key);
    ListsCovered(t);
  }

  lemma AllAlongRoot(t: Trie)
    requires Barren(t, Root)
    ensures Members(t) == {}
  {
    hide Members;
  }

  lemma NextListed(t: Trie, p: Path, k: nat)
    requires Linked(t) && Fits(t) && p in t && k < |t[p]|
    ensures var n := t[p][k];
            && n in Members(t) && n !in Later(t, p) && n.next == Nth(t[p], k + 1)
            && Elems(t[p][k + 1..]) == Elems(t[p][k..]) - {n}
  {
    hide Slice, Shaped;
    var s := t[p];
    assert s[k] in s;
    NotAfterAlong(p, s[k].key);
    ListSplit(s[k..]);
    assert s[k..][1..] == s[k + 1..];
    ListChained(t, p);
  }

  lemma FirstListed(at: Places, t: Trie, q: Path)
    requires Listed(at, t, {}) && Fits(t) && q in at && t[q] != []
    ensures at[q].node == t[q][0] && t[q][0].next == Nth(t[q], 1) && t[q][0] in Members(t)
    ensures Elems(t[q][1..]) == Elems(t[q]) - {t[q][0]}
  {
    ListSplit(t[q]);
    ListChained(t, q);
  }

  // ---- Iterators ----

  /** Where an iterator stands: `pos` listed nodes of the bucket at `p` have been visited, and the current node,
      if it is still in the hash, is the last of them. */
  ghost predicate Stands(at: Places, t: Trie, value: HashNode?, next: HashNode?, bucket: HashBucket?, p: Path,
                         pos: nat)
  {
    && (bucket == null <==> value == null)
    && if bucket == null then next == null
       else
         && p in at && p in t && bucket == at[p] && pos <= |t[p]| && next == Nth(t[p], pos)
         && (value in Members(t) ==> pos > 0 && value == t[p][pos - 1])
  }

  /** The nodes that an iterator will still come to. */
  ghost function Ahead(t: Trie, bucket: HashBucket?, p: Path, pos: nat): set<HashNode> {
    if bucket != null && p in t && pos <= |t[p]| then Elems(t[p][pos..]) + Later(t, p) else {}
  }

  lemma AheadIsThere(t: Trie, bucket: HashBucket?, p: Path, pos: nat)
    ensures Ahead(t, bucket, p, pos) <= Members(t)
  {
    ListsCovered(t);
  }

  /** What init_HashIterator finds. */
  method StandFirst(root: HashBucket, ghost at: Places, ghost t: Trie)
    returns (value: HashNode?, next: HashNode?, bucket: HashBucket?, ghost p: Path, ghost pos: nat)
    requires Sound(root, at, t) && Fits(t)
    ensures Sound(root, at, t) && Stands(at, t, value, next, bucket, p, pos)
    ensures value == null ==> Members(t) == {}
    ensures value != null ==> value in Members(t) && Ahead(t, bucket, p, pos) == Members(t) - {value}
  {
    hide Fits, Members, Wired, Linked, Headed, Filled, FirstBelow, Barren, Later;
    bucket, p := FirstInOrder(root, at, t, Root);
    if bucket != null {
      FirstOfAll(t, p);
      FirstListed(at, t, p);
    } else {
      AllAlongRoot(t);
    }
    value := if bucket != null then bucket.node else null;
    next := if value != null then value.next else null;
    pos := 1;
  }

  /** What next_HashIterator finds. */
  method StandNext(root: HashBucket, value0: HashNode, next0: HashNode?, bucket0: HashBucket,
      ghost at: Places, ghost t: Trie, ghost p0: Path, ghost pos0: nat)
    returns (value: HashNode?, next: HashNode?, bucket: HashBucket?, ghost p: Path, ghost pos: nat)
    requires Sound(root, at, t) && Fits(t) && Stands(at, t, value0, next0, bucket0, p0, pos0)
    ensures Sound(root, at, t) && Stands(at, t, value, next, bucket, p, pos)
    ensures value == null ==> Ahead(t, bucket0, p0, pos0) == {}
    ensures value != null ==> value in Ahead(t, bucket0, p0, pos0)
    ensures value != null ==> Ahead(t, bucket, p, pos) == Ahead(t, bucket0, p0, pos0) - {value}
  {
    hide Fits, Members, Wired, Linked, Headed, Filled, FirstAfter, Later;
    value, bucket, p, pos := next0, bucket0, p0, pos0;
    if value == null {
      ghost var q;
      bucket, q := NextInOrder(bucket0, at, t, p0);
      if bucket != null {
        LaterFrom(t, p0, q);
        FirstListed(at, t, q);
        value := bucket.node;
        p, pos := q, 1;
      }
    } else {
      NextListed(t, p, pos);
      pos := pos + 1;
    }
    next := if value != null then value.next else null;
  }

  method RemoveSound(root: HashBucket, d0: HashBucket, key: Key, ghost at0: Places, ghost t0: Trie, ghost p0: Path)
    returns (d: HashBucket, ghost at: Places, ghost t: Trie, ghost p: Path)
    requires Sound(root, at0, t0) && p0 in at0 && p0 in t0 && d0 == at0[p0] && Find(t0[p0], key) < |t0[p0]|
    modifies at0.Values, Members(t0)`next
    ensures Sound(root, at, t) && Fits(t) && p in at && p in t && d == at[p] && at.Values <= at0.Values
    ensures Members(t) == Members(t0) - {t0[p0][Find(t0[p0], key)]}
    ensures if |t0[p0]| > 1 then p == p0 && t == t0[p0 := Without(t0[p0], Find(t0[p0], key))]
            else EmptyLeaf(t, p) && Below(p0, p)
  {
    hide Fits, Members, Wired, Linked, Filled, Below;
    ListsCovered(t0);
    var found;
    found, d, at, t, p := RemoveFrom(d0, key, at0, t0, p0);
  }

  /** What remove_HashIterator makes of buckets and lists; the iterator stands where it stood. */
  method TakeOut(root: HashBucket, value: HashNode, next: HashNode?, bucket0: HashBucket,
      ghost at0: Places, ghost t0: Trie, ghost p0: Path, ghost pos0: nat)
    returns (bucket: HashBucket, ghost at: Places, ghost t: Trie, ghost p: Path, ghost pos: nat)
    requires Sound(root, at0, t0) && Stands(at0, t0, value, next, bucket0, p0, pos0) && value in Members(t0)
    modifies at0.Values, Members(t0)`next
    ensures Sound(root, at, t) && Fits(t) && Stands(at, t, value, next, bucket, p, pos) && at.Values <= at0.Values
    ensures Members(t) == Members(t0) - {value} && Ahead(t, bucket, p, pos) == Ahead(t0, bucket0, p0, pos0)
    ensures |Members(t)| == |Members(t0)| - 1
  {
    hide Fits, Members, Sound, Later, Along, Below;
    SoundFits(root, at0, t0);
    FindListed(t0, p0, pos0 - 1);
    ListedAlong(t0, p0, value);
    bucket, at, t, p := RemoveSound(root, bucket0, value.key, at0, t0, p0);
    pos := if |t0[p0]| > 1 then pos0 - 1 else 0;
    if |t0[p0]| > 1 {
      LaterWithout(t0, t, p0, value);
      assert t[p][pos..] == t0[p0][pos0..];
    } else {
      LaterTrimmed(t0, t, p0, p, value);
    }
  }

  lemma SoundFits(root: HashBucket, at: Places, t: Trie)
    requires Sound(root, at, t)
    ensures Fits(t)
  {
  }

  class HashIterator {
    const hash: Hash
    var value: HashNode?
    var next: HashNode?
    var bucket: HashBucket?
    ghost var place: Path
    ghost var pos: nat

    ghost predicate Valid()
      reads this, hash, hash.at.Values, Members(hash.trie)
    {
      hash.Valid() && Stands(hash.at, hash.trie, value, next, bucket, place, pos)
    }

    /** The nodes that the iterator will still come to. */
    ghost function Remaining(): set<HashNode>
      reads this, hash
    {
      Ahead(hash.trie, bucket, place, pos)
    }

    /** init_HashIterator */
    constructor (hash: Hash)
      requires hash.Valid()
      ensures this.hash == hash && Valid() && hash.Valid() && hash.Contents() == old(hash.Contents())
      ensures value == null ==> Members(hash.trie) == {}
      ensures value != null ==> value in Members(hash.trie) && Remaining() == Members(hash.trie) - {value}
    {
      hide Fits, Members, Sound, Stands, Ahead, KeyMap;
      this.hash := hash;
      var v, n, b, p, k := StandFirst(hash.root, hash.at, hash.trie);
      value, next, bucket, place, pos := v, n, b, p, k;
    }

    /** next_HashIterator */
    method Next()
      requires Valid() && value != null
      modifies this
      ensures Valid() && hash.Valid()
      ensures value == null ==> old(Remaining()) == {}
      ensures value != null ==> value in old(Remaining()) && Remaining() == old(Remaining()) - {value}
    {
      hide Fits, Members, Sound, Stands, Ahead;
      BucketToo(hash.at, hash.trie, value, next, bucket, place, pos);
      value, next, bucket, place, pos := StandNext(hash.root, value, next, bucket, hash.at, hash.trie, place, pos);
    }

    /** remove_HashIterator, for a current node that has not been removed yet. */
    method Remove() returns (removed: HashNode)
      requires Valid() && value != null && value in Members(hash.trie)
      modifies this, hash, hash.at.Values, Members(hash.trie)`next
      ensures Valid() && hash.Valid() && value == old(value) && Remaining() == old(Remaining())
      ensures removed == value && removed !in Members(hash.trie)
      ensures hash.Contents() == old(hash.Contents()) - {removed.key}
      ensures Members(hash.trie) == old(Members(hash.trie)) - {removed}
      ensures hash.at.Values <= old(hash.at.Values)
    {
      hide Fits, Members, Sound, Stands, Ahead, KeyMap;
      BucketToo(hash.at, hash.trie, value, next, bucket, place, pos);
      ghost var t0 := hash.trie;
      var b, at, t, p, k := TakeOut(hash.root, value, next, bucket, hash.at, t0, place, pos);
      KeyMapLess(t0, t, value);
      hash.Settle(hash.size - 1, at, t);
      MoveTo(b, p, k);
      return value;
    }

    method MoveTo(b: HashBucket, ghost p: Path, ghost k: nat)
      requires hash.Valid() && Stands(hash.at, hash.trie, value, next, b, p, k)
      modifies `bucket, `place, `pos
      ensures Valid() && Remaining() == Ahead(hash.trie, b, p, k)
    {
      hide Fits, Members, Sound, Stands, Ahead;
      bucket, place, pos := b, p, k;
    }
  }

  lemma BucketToo(at: Places, t: Trie, value: HashNode?, next: HashNode?, bucket: HashBucket?, p: Path, pos: nat)
    requires Stands(at, t, value, next, bucket, p, pos)
    ensures bucket == null <==> value == null
  {
  }

  /** One turn of a loop over a hash, which may remove the current node. */
  method Visit(i: HashIterator, remove: bool) returns (n: HashNode)
    requires i.Valid() && i.hash.Valid() && i.value != null && i.value in Members(i.hash.trie)
    modifies i, i.hash, i.hash.at.Values, Members(i.hash.trie)`next
    ensures i.hash.Valid() && i.Valid() && n == old(i.value)
    ensures i.value == null ==> old(i.Remaining()) == {}
    ensures i.value != null ==> i.value in old(i.Remaining()) && i.Remaining() == old(i.Remaining()) - {i.value}
    ensures i.value != null ==> i.value in Members(i.hash.trie)
    ensures Members(i.hash.trie) <= old(Members(i.hash.trie)) && i.hash.at.Values <= old(i.hash.at.Values)
    ensures i.hash.Contents() == old(i.hash.Contents()) - if remove then {n.key} else {}
  {
    hide Fits, Members, Sound, Later, KeyMap, Ahead, Stands;
    n := i.value;
    if remove {
      var _ := i.Remove();
    }
    AheadIsThere(i.hash.trie, i.bucket, i.place, i.pos);
    i.Next();
  }

  /** `s` lists the nodes of `seen`, each once. */
  ghost predicate ListsOnce(s: seq<HashNode>, seen: set<HashNode>) {
    Elems(s) == seen && forall i, j :: 0 <= i < j < |s| ==> s[i] != s[j]
  }

  lemma ListsNone()
    ensures ListsOnce([], {})
  {
  }

  lemma ListsMore(s: seq<HashNode>, seen: set<HashNode>, n: HashNode)
    requires ListsOnce(s, seen) && n !in seen
    ensures ListsOnce(s + [n], seen + {n})
  {
    assert forall m :: m in s + [n] <==> m in s || m == n;
  }

  /** The nodes of `all` are those in `seen`, the current one and the `rest`. */
  ghost predicate Parted(all: set<HashNode>, seen: set<HashNode>, current: HashNode?, rest: set<HashNode>) {
    if current == null then seen == all
    else
      && current !in seen && current !in rest && seen !! rest
      && current in all && seen <= all && rest <= all
      && forall n :: n in all ==> n in seen || n == current || n in rest
  }

  lemma PartedNext(all: set<HashNode>, seen: set<HashNode>, n: HashNode, rest: set<HashNode>,
      current: HashNode?, rest': set<HashNode>)
    requires Parted(all, seen, n, rest)
    requires if current == null then rest == {} else current in rest && rest' == rest - {current}
    ensures Parted(all, seen + {n}, current, rest') && n !in seen
    ensures if current == null then seen + {n} == all else |rest'| < |rest|
  {
  }

  lemma PartedFirst(all: set<HashNode>, current: HashNode?, rest: set<HashNode>)
    requires if current == null then all == {} else current in all && rest == all - {current}
    ensures Parted(all, {}, current, rest) && (current == null ==> all == {})
  {
  }

  /** The keys of the doomed nodes among those that were seen. */
  ghost function GoneKeys(seen: set<HashNode>, doomed: set<Key>): set<Key> {
    set n | n in seen && n.key in doomed :: n.key
  }

  lemma GoneMore(keys: map<Key, HashNode>, seen: set<HashNode>, doomed: set<Key>, n: HashNode)
    ensures keys - GoneKeys(seen, doomed) - (if n.key in doomed then {n.key} else {})
         == keys - GoneKeys(seen + {n}, doomed)
  {
    var now := if n.key in doomed then {n.key} else {};
    assert GoneKeys(seen + {n}, doomed) == GoneKeys(seen, doomed) + now;
  }

  lemma GoneNone(keys: map<Key, HashNode>, doomed: set<Key>)
    ensures keys - GoneKeys({}, doomed) == keys
  {
  }

  lemma GoneAll(keys: map<Key, HashNode>, all: set<HashNode>, doomed: set<Key>)
    requires forall k :: k in keys ==> keys[k] in all && keys[k].key == k
    ensures keys - GoneKeys(all, doomed) == keys - doomed
  {
    forall k | k in keys && k in doomed
      ensures k in GoneKeys(all, doomed)
    {
      assert keys[k] in all && keys[k].key == k;
    }
  }

  /** A whole pass over a hash that removes the nodes with the `doomed` keys: each node that was there at the
      start is visited once, and exactly the others are left. */
  method RemoveDoomed(hash: Hash, doomed: set<Key>) returns (visited: seq<HashNode>)
    requires hash.Valid()
    modifies hash, hash.at.Values, Members(hash.trie)`next
    ensures hash.Valid() && hash.Contents() == old(hash.Contents()) - doomed
    ensures ListsOnce(visited, old(Members(hash.trie)))
  {
    hide *;
    ghost var all, keys, seen: set<HashNode> := Members(hash.trie), hash.Contents(), {};
    hash.ContentsAreMembers();
    visited := [];
    var i := new HashIterator(hash);
    PartedFirst(all, i.value, i.Remaining());
    GoneNone(keys, doomed);
    ListsNone();
    while i.value != null
      invariant i.hash == hash && fresh(i) && i.Valid() && hash.Valid() && hash.at.Values <= old(hash.at.Values)
      invariant Members(hash.trie) <= all && (i.value != null ==> i.value in Members(hash.trie))
      invariant Parted(all, seen, i.value, i.Remaining()) && ListsOnce(visited, seen)
      invariant i.value == null ==> seen == all
      invariant hash.Contents() == keys - GoneKeys(seen, doomed)
      decreases if i.value == null then 0 else 1 + |i.Remaining()|
    {
      ghost var rest := i.Remaining();
      var n := Visit(i, i.value.key in doomed);
      PartedNext(all, seen, n, rest, i.value, i.Remaining());
      GoneMore(keys, seen, doomed, n);
      ListsMore(visited, seen, n);
      seen := seen + {n};
      visited := visited + [n];
    }
    GoneAll(keys, all, doomed);
  }
}
