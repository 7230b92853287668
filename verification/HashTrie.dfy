/** The trie of hash.c as a value: which places have a bucket and what each bucket lists. */
module HashTrie {
  import opened Sequences

  /** iHashKey is a 32-bit unsigned number. */
  type Key = k: nat | k < 0x1_0000_0000

  /** Limits of hash.c (lines 34 to 39): a bucket listing this many nodes is split, into four. */
  const MAX_NODES := 8
  const CHILD_COUNT := 4
  const CHILD_SHIFT := 2
  const KEY_SLICES := 16

  class HashNode {
    var next: HashNode?
    const key: Key

    constructor (key: Key)
      ensures this.key == key && next == null
    {
      this.key := key;
      next := null;
    }
  }

  // ---- Slices of a key ----

  /** `key` without its lowest `d` slices of two bits. */
  function Shifted(key: nat, d: nat): nat {
    if d == 0 then key else Shifted(key, d - 1) / 4
  }

  /** The two bits of `key` that select the child of a bucket at depth `d`, lowest bits first. */
  function Slice(key: nat, d: nat): (r: nat)
    ensures r < CHILD_COUNT
  {
    Shifted(key, d) % 4
  }

  function Pow4(d: nat): nat {
    if d == 0 then 1 else 4 * Pow4(d - 1)
  }

  /** `key >> bits`; shifting a 32-bit number by 32 bits or more has no meaning in C. */
  function ShiftRight(key: Key, bits: nat): nat
    requires bits < 32
  {
    if bits == 0 then key else ShiftRight(key, bits - 1) / 2
  }

  lemma {:induction false} ShiftIsShifted(key: Key, d: nat)
    requires CHILD_SHIFT * d < 32
    ensures ShiftRight(key, CHILD_SHIFT * d) == Shifted(key, d)
    ensures ShiftRight(key, CHILD_SHIFT * d) % 4 == Slice(key, d)
  {
    if d > 0 {
      ShiftIsShifted(key, d - 1);
    }
  }

  lemma {:induction false} ShiftedFits(key: nat, d: nat, m: nat)
    requires key < Pow4(d + m)
    ensures Shifted(key, d) < Pow4(m)
  {
    if d > 0 {
      ShiftedFits(key, d - 1, m + 1);
    }
  }

  lemma {:induction false} SlicesDetermine(a: nat, b: nat, d: nat)
    requires Shifted(a, d) == Shifted(b, d)
    requires forall i :: 0 <= i < d ==> Slice(a, i) == Slice(b, i)
    ensures a == b
  {
    if d > 0 {
      assert Slice(a, d - 1) == Slice(b, d - 1);
      SlicesDetermine(a, b, d - 1);
    }
  }

  lemma KeySlicesDetermine(a: Key, b: Key)
    requires forall i :: 0 <= i < KEY_SLICES ==> Slice(a, i) == Slice(b, i)
    ensures a == b
  {
    assert Pow4(4) == 0x100;
    assert Pow4(8) == 0x1_0000;
    assert Pow4(12) == 0x100_0000;
    assert Pow4(16) == 0x1_0000_0000;
    ShiftedFits(a, KEY_SLICES, 0);
    ShiftedFits(b, KEY_SLICES, 0);
    SlicesDetermine(a, b, KEY_SLICES);
  }

  // ---- Places ----

  /** Where a bucket is: the choices of child that lead to it from the root. */
  datatype Path = Root | Step(up: Path, digit: nat)

  function Len(p: Path): nat {
    if p.Root? then 0 else Len(p.up) + 1
  }

  /** A search for `key` comes through `p`. */
  predicate Along(key: nat, p: Path) {
    p.Step? ==> Along(key, p.up) && Slice(key, Len(p.up)) == p.digit
  }

  /** The bucket at `q` is the one at `p` or below it. */
  predicate Below(q: Path, p: Path) {
    q == p || (q.Step? && Below(q.up, p))
  }

  /** `key` belongs to the right of `p` in the order of the children. */
  predicate After(p: Path, key: nat) {
    p.Step? && (After(p.up, key) || (Along(key, p.up) && p.digit < Slice(key, Len(p.up))))
  }

  lemma {:induction false} AlongSame(a: nat, b: nat, p: Path)
    requires Along(a, p) && Along(b, p)
    ensures forall i :: 0 <= i < Len(p) ==> Slice(a, i) == Slice(b, i)
  {
    if p.Step? {
      AlongSame(a, b, p.up);
    }
  }

  lemma {:induction false} AlongLike(a: nat, b: nat, p: Path)
    requires Along(a, p)
    requires forall i :: 0 <= i < Len(p) ==> Slice(a, i) == Slice(b, i)
    ensures Along(b, p)
  {
    if p.Step? {
      AlongLike(a, b, p.up);
    }
  }

  lemma {:induction false} BelowAlong(key: nat, q: Path, p: Path)
    requires Along(key, q) && Below(q, p)
    ensures Along(key, p) && Len(p) <= Len(q)
  {
    if q != p {
      BelowAlong(key, q.up, p);
    }
  }

  lemma {:induction false} BelowTransitive(r: Path, q: Path, p: Path)
    requires Below(r, q) && Below(q, p)
    ensures Below(r, p)
  {
    if r != q {
      BelowTransitive(r.up, q, p);
    }
  }

  lemma {:induction false} LongerIsBelow(key: nat, q: Path, p: Path)
    requires Along(key, q) && Along(key, p) && Len(p) <= Len(q)
    ensures Below(q, p)
  {
    if Len(p) < Len(q) {
      LongerIsBelow(key, q.up, p);
    } else if p.Step? {
      LongerIsBelow(key, q.up, p.up);
      SameLength(q.up, p.up);
    }
  }

  lemma {:induction false} SameLength(q: Path, p: Path)
    requires Below(q, p) && Len(q) <= Len(p)
    ensures q == p
  {
    if q != p {
      BelowLength(q.up, p);
    }
  }

  lemma {:induction false} BelowLength(q: Path, p: Path)
    requires Below(q, p)
    ensures Len(p) <= Len(q)
  {
    if q != p {
      BelowLength(q.up, p);
    }
  }

  // ---- The order of the children ----

  lemma {:induction false} NotAfterAlong(p: Path, key: nat)
    requires Along(key, p)
    ensures !After(p, key)
  {
    if p.Step? {
      NotAfterAlong(p.up, key);
    }
  }

  lemma {:induction false} AfterBelow(q: Path, p: Path, key: nat)
    requires Below(q, p) && After(p, key)
    ensures After(q, key)
  {
    if q != p {
      AfterBelow(q.up, p, key);
    }
  }

  lemma {:induction false} AfterUnlessAlong(q: Path, p: Path, key: nat)
    requires Below(q, p) && After(q, key) && !Along(key, p)
    ensures After(p, key)
  {
    if q != p {
      if After(q.up, key) {
        AfterUnlessAlong(q.up, p, key);
      } else {
        BelowAlong(key, q.up, p);
      }
    }
  }

  /** `j` is the first slice in which the keys differ, and `a` is the smaller one there. */
  predicate LessAt(a: nat, b: nat, j: nat) {
    Slice(a, j) < Slice(b, j) && forall i :: 0 <= i < j ==> Slice(a, i) == Slice(b, i)
  }

  lemma {:induction false} AfterMeansLess(q: Path, m: nat, key: nat) returns (j: nat)
    requires Along(m, q) && After(q, key)
    ensures LessAt(m, key, j)
  {
    if After(q.up, key) {
      j := AfterMeansLess(q.up, m, key);
    } else {
      j := Len(q.up);
      AlongSame(m, key, q.up);
    }
  }

  lemma {:induction false} LessMeansAfter(p: Path, m: nat, key: nat, j: nat)
    requires Along(m, p) && LessAt(m, key, j) && j < Len(p)
    ensures After(p, key)
  {
    if j < Len(p.up) {
      LessMeansAfter(p.up, m, key, j);
    } else {
      AlongLike(m, key, p.up);
    }
  }

  lemma {:induction false} AfterLess(p: Path, m: nat, key: nat, j: nat)
    requires After(p, m) && LessAt(m, key, j)
    ensures After(p, key)
  {
    if After(p.up, m) {
      AfterLess(p.up, m, key, j);
    } else if j < Len(p.up) {
      LessMeansAfter(p.up, m, key, j);
    } else {
      AlongLike(m, key, p.up);
    }
  }

  /** What comes after a place that comes after `p` comes after `p`. */
  lemma AfterTransitive(p: Path, m: nat, q: Path, key: nat)
    requires After(p, m) && Along(m, q) && After(q, key)
    ensures After(p, key)
  {
    var j := AfterMeansLess(q, m, key);
    AfterLess(p, m, key, j);
  }

  // ---- Tries ----

  /** The buckets that exist and the nodes each of them lists. */
  type Trie = map<Path, seq<HashNode>>

  ghost function Kids(p: Path): (r: set<Path>)
    ensures forall q :: q in r <==> IsKid(q, p)
  {
    {Step(p, 0), Step(p, 1), Step(p, 2), Step(p, 3)}
  }

  predicate IsKid(q: Path, p: Path) {
    q.Step? && q.up == p && q.digit < CHILD_COUNT
  }

  ghost predicate HasKids(t: Trie, p: Path) {
    Step(p, 0) in t && Step(p, 1) in t && Step(p, 2) in t && Step(p, 3) in t
  }

  ghost predicate IsBranch(t: Trie, p: Path) {
    Step(p, 0) in t
  }

  /** Children are all present or all absent, and only buckets without children list nodes. */
  ghost predicate Shaped(t: Trie) {
    && Root in t
    && (forall p :: p in t ==> Len(p) < 16)
    && (forall p, i: nat :: Step(p, i) in t ==> i < 4 && p in t && t[p] == [] && HasKids(t, p))
  }

  predicate Distinct(s: seq<HashNode>) {
    forall i, j :: 0 <= i < j < |s| ==> s[i].key != s[j].key
  }

  /** Every node is where a search for its key ends, once;
      splitting may leave all nodes together, one more each time. */
  ghost predicate Placed(t: Trie) {
    && (forall p, n :: p in t && n in t[p] ==> Along(n.key, p))
    && (forall p :: p in t ==> Distinct(t[p]) && |t[p]| <= 8 + Len(p))
  }

  ghost predicate NodeBelow(t: Trie, p: Path) {
    exists q :: q in t && t[q] != [] && Below(q, p)
  }

  /** Every bucket with children has a node beneath it, except perhaps on the way to `hole`. */
  ghost predicate FilledBut(t: Trie, hole: Path) {
    forall p :: p in t && IsBranch(t, p) && !Below(hole, p) ==> NodeBelow(t, p)
  }

  ghost predicate Filled(t: Trie) {
    forall p :: p in t && IsBranch(t, p) ==> NodeBelow(t, p)
  }

  ghost function Members(t: Trie): set<HashNode> {
    set p, n | p in t && n in t[p] :: n
  }

  /** A bucket with a child has all of them, and no list. */
  lemma ChildOf(t: Trie, p: Path, i: nat)
    requires Shaped(t) && Step(p, i) in t
    ensures IsBranch(t, p) && HasKids(t, p) && p in t && t[p] == []
  {
  }

  /** A bucket without children has nothing below it. */
  lemma {:induction false} NothingBelowLeaf(t: Trie, q: Path, p: Path)
    requires Shaped(t) && q in t && Below(q, p)
    ensures q == p || IsBranch(t, p)
  {
    hide Shaped;
    if q != p {
      ChildOf(t, q.up, q.digit);
      if q.up != p {
        NothingBelowLeaf(t, q.up, p);
      }
    }
  }

  /** Only one bucket can list a node with a given key: the one where the search for the key ends. */
  lemma SearchEnds(t: Trie, p: Path, q: Path, key: nat)
    requires Shaped(t) && p in t && q in t
    requires Along(key, p) && Along(key, q)
    requires !IsBranch(t, p) && !IsBranch(t, q)
    ensures p == q
  {
    if Len(p) <= Len(q) {
      LongerIsBelow(key, q, p);
      NothingBelowLeaf(t, q, p);
    } else {
      LongerIsBelow(key, p, q);
      NothingBelowLeaf(t, p, q);
    }
  }

  lemma ListedAtLeaf(t: Trie, p: Path)
    requires Shaped(t) && p in t
    ensures t[p] == [] || !IsBranch(t, p)
  {
    hide Shaped;
    if Step(p, 0) in t {
      ChildOf(t, p, 0);
    }
  }

  /** No two nodes of a trie have the same key. */
  lemma KeysUnique(t: Trie, m: HashNode, n: HashNode)
    requires Shaped(t) && Placed(t) && m in Members(t) && n in Members(t) && m.key == n.key
    ensures m == n
  {
    var p :| p in t && m in t[p];
    var q :| q in t && n in t[q];
    ListedAtLeaf(t, p);
    ListedAtLeaf(t, q);
    SearchEnds(t, p, q, m.key);
  }

  /** Keys that agree in all slices but the last number at most four, so no bucket that deep is ever split. */
  lemma DeepListsAreShort(s: seq<HashNode>, p: Path)
    requires Distinct(s) && Len(p) == KEY_SLICES - 1
    requires forall n :: n in s ==> Along(n.key, p)
    ensures |s| <= CHILD_COUNT
  {
    if |s| > CHILD_COUNT {
      forall i, j | 0 <= i < j <= CHILD_COUNT
        ensures Last(s[i]) != Last(s[j])
      {
        AlongSame(s[i].key, s[j].key, p);
        if Last(s[i]) == Last(s[j]) {
          KeySlicesDetermine(s[i].key, s[j].key);
        }
      }
      FourValues(Last(s[0]), Last(s[1]), Last(s[2]), Last(s[3]), Last(s[4]));
    }
  }

  function Last(n: HashNode): (r: nat)
    ensures r < CHILD_COUNT
  {
    Slice(n.key, KEY_SLICES - 1)
  }

  lemma FourValues(a: nat, b: nat, c: nat, d: nat, e: nat)
    requires a < 4 && b < 4 && c < 4 && d < 4 && e < 4
    ensures a == b || a == c || a == d || a == e || b == c || b == d || b == e || c == d || c == e || d == e
  {
  }

  // ---- What an operation makes of a trie ----

  /** Index of the node with `key`, or the length of the list when there is none. */
  function Find(s: seq<HashNode>, key: nat): (i: nat)
    ensures i <= |s|
    ensures i < |s| ==> s[i].key == key
    ensures forall j :: 0 <= j < i ==> s[j].key != key
  {
    if s == [] || s[0].key == key then 0 else Find(s[1..], key) + 1
  }

  /** The nodes of `s` that go to child `i` of a bucket at depth `d`; the last one that went there is in front. */
  function Share(s: seq<HashNode>, d: nat, i: nat): (r: seq<HashNode>)
    ensures forall n :: n in r ==> n in s && Slice(n.key, d) == i
    ensures forall n :: n in s && Slice(n.key, d) == i ==> n in r
    ensures |r| <= |s|
  {
    if s == [] then []
    else
      var rest := Share(s[..|s| - 1], d, i);
      if Slice(s[|s| - 1].key, d) == i then [s[|s| - 1]] + rest else rest
  }

  /** Nodes that come later in a list come earlier in a share of it. */
  lemma {:induction false} ShareJoin(a: seq<HashNode>, b: seq<HashNode>, d: nat, i: nat)
    ensures Share(a + b, d, i) == Share(b, d, i) + Share(a, d, i)
    decreases |b|
  {
    hide Slice, Share;
    if b == [] {
      ShareNothing(d, i);
      assert a + b == a;
    } else {
      var init, last := b[..|b| - 1], b[|b| - 1];
      ShareJoin(a, init, d, i);
      ShareNext(a + init, last, d, i);
      ShareNext(init, last, d, i);
      assert a + init + [last] == a + b && init + [last] == b;
      var front := if Slice(last.key, d) == i then [last] else [];
      Grouped(front, Share(init, d, i), Share(a, d, i));
    }
  }

  lemma ShareNothing(d: nat, i: nat)
    ensures Share([], d, i) == []
  {
  }

  lemma ShareNext(s: seq<HashNode>, n: HashNode, d: nat, i: nat)
    ensures Share(s + [n], d, i) == (if Slice(n.key, d) == i then [n] else []) + Share(s, d, i)
  {
    hide Slice;
    assert (s + [n])[..|s + [n]| - 1] == s;
  }

  lemma {:induction false} ShareDistinct(s: seq<HashNode>, d: nat, i: nat)
    requires Distinct(s)
    ensures Distinct(Share(s, d, i))
  {
    if s != [] {
      ShareDistinct(s[..|s| - 1], d, i);
    }
  }

  /** The bucket at `p` gets children; the first `k` nodes of its list have moved to them. */
  ghost function Dealt(t: Trie, p: Path, k: nat): Trie
    requires p in t && k <= |t[p]|
  {
    map q | q in t.Keys + Kids(p) ::
      if q == p then t[p][k..]
      else if q in Kids(p) then Share(t[p][..k], Len(p), q.digit)
      else t[q]
  }

  ghost function SplitTrie(t: Trie, p: Path): Trie
    requires p in t
  {
    Dealt(t, p, |t[p]|)
  }

  ghost predicate Fits(t: Trie) {
    Shaped(t) && Placed(t)
  }

  /** No node is in two lists. */
  ghost predicate Apart(t: Trie) {
    && (forall p :: p in t ==> Distinct(t[p]))
    && (forall p, q, n :: p in t && q in t && n in t[p] && n in t[q] ==> p == q)
  }

  lemma FitsApart(t: Trie)
    requires Fits(t)
    ensures Apart(t)
  {
    forall p, q, n | p in t && q in t && n in t[p] && n in t[q]
      ensures p == q
    {
      ListedAtLeaf(t, p);
      ListedAtLeaf(t, q);
      SearchEnds(t, p, q, n.key);
    }
  }

  lemma ListChangedShape(t: Trie, p: Path, s: seq<HashNode>)
    requires Shaped(t) && p in t && !IsBranch(t, p)
    ensures Shaped(t[p := s])
  {
    hide Along, Slice, Below, After, Members, Distinct;
    forall q, i: nat | Step(q, i) in t[p := s]
      ensures i < CHILD_COUNT && q in t && t[p := s][q] == [] && HasKids(t, q)
    {
      assert Step(q, i) in t;
      assert Step(p, 0) !in t;
    }
  }

  lemma ListChangedMembers(t: Trie, p: Path, s: seq<HashNode>)
    requires Apart(t) && p in t
    ensures Members(t[p := s]) == Members(t) - Elems(t[p]) + Elems(s)
  {
    hide Along, Slice, Below, After, Shaped, Distinct;
    var t' := t[p := s];
    forall n | n in Members(t) - Elems(t[p]) + Elems(s)
      ensures n in Members(t')
    {
      if n in s {
        assert n in t'[p];
      } else {
        var q :| q in t && n in t[q];
        assert n in t'[q];
      }
    }
    forall n | n in Members(t')
      ensures n in Members(t) - Elems(t[p]) + Elems(s)
    {
      var q :| q in t' && n in t'[q];
      if q != p {
        assert n in t[q];
      }
    }
  }

  lemma ListChanged(t: Trie, p: Path, s: seq<HashNode>)
    requires Fits(t) && p in t && !IsBranch(t, p)
    requires Distinct(s) && |s| <= MAX_NODES + Len(p) && forall n :: n in s ==> Along(n.key, p)
    ensures Fits(t[p := s])
    ensures Members(t[p := s]) == Members(t) - Elems(t[p]) + Elems(s)
  {
    hide Along, Slice, Below, After, Shaped, Distinct, Members, Elems, IsBranch;
    FitsApart(t);
    ListChangedShape(t, p, s);
    ListChangedMembers(t, p, s);
  }

  lemma WithoutElems(s: seq<HashNode>, i: nat)
    requires Distinct(s) && i < |s|
    ensures Distinct(Without(s, i)) && s[i] !in Without(s, i)
    ensures Elems(s) == Elems(Without(s, i)) + {s[i]}
  {
    var r := Without(s, i);
    forall n | n in s
      ensures n in r || n == s[i]
    {
      var j :| 0 <= j < |s| && s[j] == n;
      if j < i {
        assert r[j] == n;
      } else if j > i {
        assert r[j - 1] == n;
      }
    }
    assert forall n :: n in r ==> n in s;
    assert forall n :: n in Elems(s) <==> n in Elems(r) + {s[i]};
  }

  /** Taking out the node at `i` of a list. */
  lemma NodeTakenOut(t: Trie, p: Path, i: nat)
    requires Fits(t) && p in t && i < |t[p]|
    ensures var t' := t[p := Without(t[p], i)];
            Fits(t') && Members(t') == Members(t) - {t[p][i]}
  {
    hide Along, Slice, Below, After, Shaped;
    var s := t[p];
    ListedAtLeaf(t, p);
    WithoutElems(s, i);
    ListChanged(t, p, Without(s, i));
    assert forall n :: n in Elems(s) ==> n in Members(t);
  }

  /** Putting a node in front of the list of the bucket where the search for its key ends. */
  lemma NodePutIn(t: Trie, p: Path, n: HashNode)
    requires Fits(t) && p in t && !IsBranch(t, p) && Along(n.key, p) && |t[p]| < MAX_NODES + Len(p)
    requires forall m :: m in Members(t) ==> m.key != n.key
    ensures var t' := t[p := [n] + t[p]];
            Fits(t') && Members(t') == Members(t) + {n}
  {
    hide Slice, Below, After, Shaped;
    assert forall m :: m in t[p] ==> m in Members(t);
    ListChanged(t, p, [n] + t[p]);
    assert forall m :: m in Elems([n] + t[p]) <==> m in Elems(t[p]) + {n};
  }

  /** A search for the key of a listed node ends in the list. */
  lemma SearchFinds(t: Trie, p: Path, key: nat)
    requires Fits(t) && p in t && !IsBranch(t, p) && Along(key, p)
    ensures Find(t[p], key) < |t[p]| ==> t[p][Find(t[p], key)] in Members(t)
    ensures Find(t[p], key) == |t[p]| ==> forall n :: n in Members(t) ==> n.key != key
  {
    var i := Find(t[p], key);
    if i == |t[p]| {
      forall n | n in Members(t)
        ensures n.key != key
      {
        var q :| q in t && n in t[q];
        if n.key == key {
          ListedAtLeaf(t, q);
          SearchEnds(t, p, q, key);
        }
      }
    } else {
      assert t[p][i] in t[p];
    }
  }

  lemma DealtParts(t: Trie, p: Path, k: nat)
    requires p in t && k <= |t[p]| && Kids(p) !! t.Keys
    ensures var t' := Dealt(t, p, k);
            && t'.Keys == t.Keys + Kids(p)
            && t'[p] == t[p][k..]
            && (forall q :: q in t && q != p ==> t'[q] == t[q])
            && (forall q :: IsKid(q, p) ==> t'[q] == Share(t[p][..k], Len(p), q.digit))
  {
    hide Slice, Share;
  }

  lemma SplitParts(t: Trie, p: Path)
    requires p in t && Shaped(t) && !IsBranch(t, p)
    ensures var t' := SplitTrie(t, p);
            && (forall q :: q in t' <==> q in t || IsKid(q, p))
            && t'[p] == []
            && (forall q :: q in t && q != p ==> !IsKid(q, p) && t'[q] == t[q])
            && (forall q :: IsKid(q, p) ==> t'[q] == Share(t[p], Len(p), q.digit))
  {
    hide Along, Slice, Below, After, Share, Shaped, Dealt;
    var s := t[p];
    assert s[..|s|] == s;
    NoKids(t, p);
    DealtParts(t, p, |s|);
  }

  lemma NoKids(t: Trie, p: Path)
    requires Shaped(t)
    ensures IsBranch(t, p) || Kids(p) !! t.Keys
  {
    hide Shaped;
    if q :| q in Kids(p) && q in t {
      ChildOf(t, p, q.digit);
    }
  }

  lemma SplitShaped(t: Trie, p: Path)
    requires Shaped(t) && p in t && !IsBranch(t, p) && Len(p) < KEY_SLICES - 1
    ensures Shaped(SplitTrie(t, p))
  {
    hide Along, Slice, Below, After, Share, SplitTrie, Kids;
    var t' := SplitTrie(t, p);
    SplitParts(t, p);
    forall q, i: nat | Step(q, i) in t'
      ensures i < CHILD_COUNT && q in t' && t'[q] == [] && HasKids(t', q)
    {
      if q == p {
        assert IsKid(Step(p, 0), p) && IsKid(Step(p, 1), p) && IsKid(Step(p, 2), p) && IsKid(Step(p, 3), p);
      } else {
        assert Step(q, i) in t;
      }
    }
  }

  /** Splitting keeps all nodes, each where a search for its key now ends. */
  lemma SplitFits(t: Trie, p: Path)
    requires Fits(t) && p in t && !IsBranch(t, p) && Len(p) < KEY_SLICES - 1
    ensures Fits(SplitTrie(t, p)) && Members(SplitTrie(t, p)) == Members(t)
  {
    hide Slice, Below, After, Shaped, Share, SplitTrie, Kids;
    var t' := SplitTrie(t, p);
    SplitShaped(t, p);
    SplitParts(t, p);
    forall q | q in t'
      ensures Distinct(t'[q]) && |t'[q]| <= MAX_NODES + Len(q)
      ensures forall n: HashNode :: n in t'[q] ==> Along(n.key, q) && n in Members(t)
    {
      if IsKid(q, p) {
        ShareDistinct(t[p], Len(p), q.digit);
        assert forall n :: n in t'[q] ==> n in t[p];
      }
    }
    SplitMembers(t, p);
  }

  lemma SplitMembers(t: Trie, p: Path)
    requires Fits(t) && p in t && !IsBranch(t, p)
    ensures Members(t) <= Members(SplitTrie(t, p))
  {
    hide Along, Slice, Below, After, Shaped, Placed, Share, SplitTrie, Kids;
    var t' := SplitTrie(t, p);
    SplitParts(t, p);
    forall n | n in Members(t)
      ensures n in Members(t')
    {
      var q :| q in t && n in t[q];
      if q == p {
        var kid := Step(p, Slice(n.key, Len(p)));
        assert IsKid(kid, p);
        assert n in t'[kid];
      } else {
        assert n in t'[q];
      }
    }
  }

  // ---- No bucket has children without a node beneath it ----

  ghost predicate EmptyLeaf(t: Trie, p: Path) {
    p in t && t[p] == [] && !IsBranch(t, p)
  }

  /** All children of `p` are gone. */
  ghost function TrimTrie(t: Trie, p: Path): Trie {
    map q | q in t && !IsKid(q, p) :: t[q]
  }

  /** Whatever becomes of one list, the other buckets keep the nodes beneath them. */
  lemma FilledAfterChange(t: Trie, p: Path, s: seq<HashNode>)
    requires FilledBut(t, p) && p in t
    ensures FilledBut(t[p := s], p)
    ensures s != [] ==> Filled(t[p := s])
  {
    hide Along, Slice, After;
    var t' := t[p := s];
    forall b | b in t' && IsBranch(t', b)
      ensures !Below(p, b) || s != [] ==> NodeBelow(t', b)
    {
      if Below(p, b) {
        assert s != [] ==> t'[p] != [];
      } else {
        var q :| q in t && t[q] != [] && Below(q, b);
        assert t'[q] != [];
      }
    }
  }

  lemma FilledAfterSplit(t: Trie, p: Path)
    requires Fits(t) && FilledBut(t, p) && p in t && t[p] != []
    ensures Filled(SplitTrie(t, p))
  {
    hide Along, Slice, After, Share, SplitTrie, Kids;
    ListedAtLeaf(t, p);
    SplitParts(t, p);
    var t' := SplitTrie(t, p);
    var n := t[p][0];
    var kid := Step(p, Slice(n.key, Len(p)));
    assert IsKid(kid, p) && n in t'[kid];
    forall b | b in t' && IsBranch(t', b)
      ensures NodeBelow(t', b)
    {
      if Below(p, b) {
        assert Below(kid, b);
      } else {
        assert Step(b, 0) in t;
        var q :| q in t && t[q] != [] && Below(q, b);
        assert q != p && t'[q] != [];
      }
    }
  }

  lemma TrimStep(t: Trie, p: Path)
    requires Fits(t) && FilledBut(t, p) && p in t && p.Step?
    requires forall s :: IsKid(s, p.up) ==> EmptyLeaf(t, s)
    ensures var t' := TrimTrie(t, p.up);
            Fits(t') && FilledBut(t', p.up) && EmptyLeaf(t', p.up) && Members(t') == Members(t)
  {
    hide Along, Slice, After;
    var u := p.up;
    var t' := TrimTrie(t, u);
    TrimShaped(t, u);
    assert Step(u, p.digit) in t;
    forall n | n in Members(t)
      ensures n in Members(t')
    {
      var q :| q in t && n in t[q];
      assert n in t'[q];
    }
    forall n | n in Members(t')
      ensures n in Members(t)
    {
      var q :| q in t' && n in t'[q];
      assert n in t[q];
    }
    forall b | b in t' && IsBranch(t', b) && !Below(u, b)
      ensures NodeBelow(t', b)
    {
      assert Step(b, 0) in t && b != p;
      var q :| q in t && t[q] != [] && Below(q, b);
      assert t'[q] != [];
    }
  }

  lemma TrimShaped(t: Trie, u: Path)
    requires Shaped(t) && u in t
    requires forall s :: IsKid(s, u) ==> EmptyLeaf(t, s)
    ensures Shaped(TrimTrie(t, u))
  {
    hide Along, Slice, After, Below;
    var t' := TrimTrie(t, u);
    forall q, i: nat | Step(q, i) in t'
      ensures i < CHILD_COUNT && q in t' && t'[q] == [] && HasKids(t', q)
    {
      ChildOf(t, q, i);
      assert IsKid(q, u) ==> EmptyLeaf(t, q);
      assert !IsKid(q, u) && q != u;
    }
  }

  lemma SiblingHolds(t: Trie, p: Path, s: Path)
    requires Shaped(t) && FilledBut(t, p) && EmptyLeaf(t, p)
    requires p.Step? && IsKid(s, p.up) && !EmptyLeaf(t, s)
    ensures NodeBelow(t, p.up)
  {
    hide Along, Slice, After, Shaped;
    assert s in t by {
      KidsTogether(t, p, s);
    }
    if t[s] == [] {
      if Below(p, s) {
        BelowLength(p.up, s);
      }
      assert NodeBelow(t, s);
    } else {
      assert Below(s, s);
    }
    var q :| q in t && t[q] != [] && Below(q, s);
    assert Below(s, p.up);
    BelowTransitive(q, s, p.up);
  }

  lemma KidsTogether(t: Trie, p: Path, s: Path)
    requires Shaped(t) && p in t && p.Step? && IsKid(s, p.up)
    ensures s in t
  {
    assert Step(p.up, p.digit) in t;
    assert HasKids(t, p.up);
  }

  lemma TrimDone(t: Trie, p: Path)
    requires Shaped(t) && FilledBut(t, p) && EmptyLeaf(t, p)
    requires p.Step? ==> exists s :: IsKid(s, p.up) && !EmptyLeaf(t, s)
    ensures Filled(t)
  {
    hide Along, Slice, After, Shaped;
    if p.Step? {
      var s :| IsKid(s, p.up) && !EmptyLeaf(t, s);
      SiblingHolds(t, p, s);
    }
    forall b | b in t && IsBranch(t, b)
      ensures NodeBelow(t, b)
    {
      if Below(p, b) {
        var q :| q in t && t[q] != [] && Below(q, p.up);
        BelowTransitive(q, p.up, b);
      }
    }
  }
}
