/** Blocks of bytes that share their data until one of them is changed (block.c). */
module Blocks {
  import opened Bytes
  import Streams

  /** malloc and realloc: of new memory only the size is known. */
  method Allocate(n: nat) returns (m: seq<Byte>)
    ensures |m| == n
  {
    assert |seq<Byte>(n, _ => 0)| == n;
    m :| |m| == n;
  }

  function Max(a: nat, b: nat): nat {
    if a < b then b else a
  }

  function Zeros(n: nat): (z: seq<Byte>)
    ensures |z| == n && forall k :: 0 <= k < n ==> z[k] == 0
  {
    seq<Byte>(n, _ => 0)
  }

  class BlockData {
    var refCount: int
    var data: seq<Byte> // the allocated memory
    var size: nat

    constructor (data: seq<Byte>, size: nat)
      ensures refCount == 1 && this.data == data && this.size == size
    {
      refCount, this.data, this.size := 1, data, size;
    }
  }

  class Block {
    var i: BlockData

    constructor (i: BlockData)
      ensures this.i == i
    {
      this.i := i;
    }
  }

  // ---- Reference counts as values ----

  type Refs = map<Block, BlockData>
  type Counts = map<BlockData, int>

  ghost function Owners(refs: Refs, r: BlockData): set<Block> {
    set b | b in refs && refs[b] == r
  }

  /** Every record has as many references as blocks that point at it, the empty one has one more, and no block
      points at a record that is not there. */
  ghost predicate Counted(refs: Refs, counts: Counts, empty: BlockData) {
    && empty in counts
    && (forall b :: b in refs ==> refs[b] in counts)
    && (forall r :: r in counts ==> counts[r] >= 1 && counts[r] == |Owners(refs, r)| + if r == empty then 1 else 0)
  }

  /** One reference less; without references a record goes away. */
  ghost function Less(counts: Counts, r: BlockData): Counts
    requires r in counts
  {
    if counts[r] == 1 then counts - {r} else counts[r := counts[r] - 1]
  }

  ghost function More(counts: Counts, r: BlockData): Counts {
    counts[r := 1 + if r in counts then counts[r] else 0]
  }

  lemma OwnersOnPut(refs: Refs, d: Block, r: BlockData, x: BlockData)
    ensures Owners(refs[d := r], x) == if x == r then Owners(refs - {d}, x) + {d} else Owners(refs - {d}, x)
    ensures d !in Owners(refs - {d}, x)
    ensures Owners(refs, x) == if d in refs && refs[d] == x then Owners(refs - {d}, x) + {d} else Owners(refs - {d}, x)
  {
  }

  /** Block `d` points at `r` and is counted there, whether it existed before or not. */
  lemma Taken(refs: Refs, counts: Counts, empty: BlockData, d: Block, r: BlockData)
    requires Counted(refs, counts, empty) && d !in refs
    ensures Counted(refs[d := r], More(counts, r), empty)
  {
    hide Owners;
    forall x | x in More(counts, r)
      ensures More(counts, r)[x] == |Owners(refs[d := r], x)| + if x == empty then 1 else 0
    {
      OneMoreOwner(refs, d, r, x);
      if x !in counts {
        NoOwners(refs, x);
      }
    }
  }

  lemma OneMoreOwner(refs: Refs, d: Block, r: BlockData, x: BlockData)
    requires d !in refs
    ensures |Owners(refs[d := r], x)| == |Owners(refs, x)| + if x == r then 1 else 0
  {
    assert refs - {d} == refs;
    OwnersOnPut(refs, d, r, x);
  }

  lemma NoOwners(refs: Refs, x: BlockData)
    requires forall b :: b in refs ==> refs[b] != x
    ensures Owners(refs, x) == {}
  {
  }

  /** Block `d` no longer counts. */
  lemma Dropped(refs: Refs, counts: Counts, empty: BlockData, d: Block)
    requires Counted(refs, counts, empty) && d in refs
    ensures counts[refs[d]] >= if refs[d] == empty then 2 else 1
    ensures Counted(refs - {d}, Less(counts, refs[d]), empty)
  {
    var r := refs[d];
    forall x | x in counts
      ensures |Owners(refs, x)| == |Owners(refs - {d}, x)| + if x == r then 1 else 0
    {
      OwnersOnPut(refs, d, r, x);
    }
    forall b | b in refs - {d}
      ensures refs[b] in Less(counts, r)
    {
      if refs[b] == r {
        assert b in Owners(refs - {d}, r);
      }
    }
  }

  lemma AllKnown(refs: Refs, counts: Counts, empty: BlockData)
    requires Counted(refs, counts, empty)
    ensures empty in counts && forall b :: b in refs ==> refs[b] in counts
  {
  }

  lemma Known(refs: Refs, counts: Counts, empty: BlockData, b: Block)
    requires Counted(refs, counts, empty) && b in refs
    ensures refs[b] in counts
  {
  }

  /** Block `d` points at `r` instead of where it pointed. */
  lemma Moved(refs: Refs, counts: Counts, empty: BlockData, d: Block, r: BlockData)
    requires Counted(refs, counts, empty) && d in refs && refs[d] != r
    ensures Counted(refs[d := r], Less(More(counts, r), refs[d]), empty)
    ensures counts[refs[d]] >= if refs[d] == empty then 2 else 1
  {
    hide Counted, Owners;
    Known(refs, counts, empty, d);
    Dropped(refs, counts, empty, d);
    Taken(refs - {d}, Less(counts, refs[d]), empty, d, r);
    assert (refs - {d})[d := r] == refs[d := r];
    assert More(Less(counts, refs[d]), r) == Less(More(counts, r), refs[d]);
  }

  /** A record with a single reference belongs to one block alone. */
  lemma OneOwner(refs: Refs, counts: Counts, empty: BlockData, d: Block)
    requires Counted(refs, counts, empty) && d in refs && counts[refs[d]] == 1
    ensures refs[d] != empty && forall b :: b in refs && refs[b] == refs[d] ==> b == d
  {
    var s := Owners(refs, refs[d]);
    assert d in s;
    Subset({d}, s);
    forall b | b in refs && refs[b] == refs[d]
      ensures b == d
    {
      assert b in s;
      Subset({b, d}, s);
    }
  }

  lemma Subset<T>(a: set<T>, b: set<T>)
    requires a <= b
    ensures |a| <= |b|
    decreases |a|
  {
    if x :| x in a {
      Subset(a - {x}, b - {x});
    }
  }

  // ---- The whole store as values ----

  /** Allocated memory and how much of it is in use. */
  datatype Memory = Memory(data: seq<Byte>, size: nat)

  type Memories = map<BlockData, Memory>

  /** There is room for a terminator, and it is there. */
  ghost predicate Terminated(m: Memory) {
    m.size < |m.data| && m.data[m.size] == 0
  }

  ghost function Text(m: Memory): seq<Byte> {
    if m.size <= |m.data| then m.data[..m.size] else []
  }

  /** What the blocks show. */
  ghost function Show(refs: Refs, mems: Memories): (r: map<Block, seq<Byte>>)
    ensures r.Keys == refs.Keys
  {
    map b | b in refs :: if refs[b] in mems then Text(mems[refs[b]]) else []
  }

  /** The counts are right, every record is terminated, and the empty one is empty. */
  ghost predicate Sound(refs: Refs, counts: Counts, mems: Memories, empty: BlockData) {
    && Counted(refs, counts, empty) && mems.Keys == counts.Keys
    && (forall r :: r in mems ==> Terminated(mems[r]))
    && empty in mems && mems[empty].size == 0
  }

  ghost function Only(mems: Memories, counts: Counts): Memories {
    map r | r in mems && r in counts :: mems[r]
  }

  /** Block `d` shares the record of `other`. */
  lemma SharedSound(refs: Refs, counts: Counts, mems: Memories, empty: BlockData, d: Block, r: BlockData)
    requires Sound(refs, counts, mems, empty) && d in refs && r in counts && refs[d] != r
    ensures refs[d] in counts && counts[refs[d]] >= if refs[d] == empty then 2 else 1
    ensures var counts' := Less(More(counts, r), refs[d]);
            && Sound(refs[d := r], counts', Only(mems, counts'), empty)
            && Show(refs[d := r], Only(mems, counts')) == Show(refs, mems)[d := Text(mems[r])]
  {
    hide Owners, Terminated;
    Moved(refs, counts, empty, d, r);
  }

  lemma NoText(m: Memory)
    requires m.size == 0
    ensures Text(m) == []
  {
  }

  /** Block `d` no longer counts for anything but the empty record. */
  lemma ClearedSound(refs: Refs, counts: Counts, mems: Memories, empty: BlockData, d: Block)
    requires Sound(refs, counts, mems, empty) && d in refs
    ensures refs[d] in counts && counts[refs[d]] >= if refs[d] == empty then 2 else 1
    ensures var counts' := Less(counts, refs[d]);
            && empty in counts' && Sound(refs[d := empty], More(counts', empty), Only(mems, counts'), empty)
            && Show(refs[d := empty], Only(mems, counts')) == Show(refs, mems)[d := []]
  {
    hide Owners, Counted, Text, Terminated;
    Known(refs, counts, empty, d);
    Dropped(refs, counts, empty, d);
    AllKnown(refs, counts, empty);
    AllKnown(refs - {d}, Less(counts, refs[d]), empty);
    NoText(mems[empty]);
    Taken(refs - {d}, Less(counts, refs[d]), empty, d, empty);
    assert (refs - {d})[d := empty] == refs[d := empty];
  }

  lemma DroppedSound(refs: Refs, counts: Counts, mems: Memories, empty: BlockData, d: Block)
    requires Sound(refs, counts, mems, empty) && d in refs
    ensures refs[d] in counts && counts[refs[d]] >= if refs[d] == empty then 2 else 1
    ensures var counts' := Less(counts, refs[d]);
            && Sound(refs - {d}, counts', Only(mems, counts'), empty)
            && Show(refs - {d}, Only(mems, counts')) == Show(refs, mems) - {d}
  {
    hide Owners, Terminated;
    Known(refs, counts, empty, d);
    Dropped(refs, counts, empty, d);
  }

  /** A new block points at a record that exists, or at a new one. */
  lemma AddedSound(refs: Refs, counts: Counts, mems: Memories, empty: BlockData, d: Block, r: BlockData, m: Memory)
    requires Sound(refs, counts, mems, empty) && d !in refs && Terminated(m)
    requires r in mems ==> mems[r] == m
    ensures Sound(refs[d := r], More(counts, r), mems[r := m], empty)
    ensures Show(refs[d := r], mems[r := m]) == Show(refs, mems)[d := Text(m)]
  {
    hide Owners, Counted, Text, Terminated;
    Taken(refs, counts, empty, d, r);
    AllKnown(refs, counts, empty);
    AllKnown(refs[d := r], More(counts, r), empty);
    assert mems[r := m].Keys == More(counts, r).Keys;
    assert forall b :: b in refs ==> mems[r := m][refs[b]] == mems[refs[b]];
  }

  lemma KeysAfter(counts: Counts, new_: BlockData, old_: BlockData)
    requires new_ !in counts && old_ in counts
    ensures old_ in More(counts, new_)
    ensures var c := Less(More(counts, new_), old_);
            new_ in c && c[new_] == 1 && forall r :: r in c ==> r in counts || r == new_
  {
  }

  /** Block `d` gets a record of its own with the same bytes. */
  lemma DetachedSound(refs: Refs, counts: Counts, mems: Memories, empty: BlockData, d: Block, dup: BlockData, m: Memory)
    requires Sound(refs, counts, mems, empty) && d in refs && dup !in counts
    requires refs[d] in mems && Text(m) == Text(mems[refs[d]]) && Terminated(m)
    ensures refs[d] in counts && counts[refs[d]] >= if refs[d] == empty then 2 else 1
    ensures var counts' := Less(More(counts, dup), refs[d]);
            && dup in counts' && counts'[dup] == 1
            && Sound(refs[d := dup], counts', Only(mems[dup := m], counts'), empty)
            && Show(refs[d := dup], Only(mems[dup := m], counts')) == Show(refs, mems)
  {
    hide Owners, Text, Counted, Less, More, Terminated;
    Known(refs, counts, empty, d);
    Moved(refs, counts, empty, d, dup);
    KeysAfter(counts, dup, refs[d]);
    AllKnown(refs, counts, empty);
    AllKnown(refs[d := dup], Less(More(counts, dup), refs[d]), empty);
  }

  /** Changing the record that only `d` points at changes what `d` shows and no other block. */
  lemma WrittenSound(refs: Refs, counts: Counts, mems: Memories, empty: BlockData, d: Block, m: Memory)
    requires Sound(refs, counts, mems, empty) && d in refs && refs[d] in counts && counts[refs[d]] == 1
    requires Terminated(m)
    ensures Sound(refs, counts, mems[refs[d] := m], empty)
    ensures Show(refs, mems[refs[d] := m]) == Show(refs, mems)[d := Text(m)]
  {
    hide Owners, Text, Terminated;
    OneOwner(refs, counts, empty, d);
  }

  /** Eight, doubled any number of times */
  predicate EightDoubled(s: nat) {
    s == 8 || (s > 8 && s % 2 == 0 && EightDoubled(s / 2))
  }

  /** allocSize_: the next power of two that has room for the contents and a terminator, and at least 8. */
  method AllocSize(contentSize: nat) returns (s: nat)
    ensures s > contentSize && s >= 8
    ensures EightDoubled(s) && (s > 8 ==> s / 2 <= contentSize)
  {
    var required := contentSize + 1;
    s := 8;
    while s < required
      invariant s >= 8 && EightDoubled(s) && (s > 8 ==> s / 2 <= contentSize)
      decreases required - s
    {
      s := s * 2;
    }
  }

  // ---- The count of remove_Block ----

  const SIZE_LIMIT: nat := 0x1_0000_0000_0000_0000
  const INVALID_SIZE: nat := SIZE_LIMIT - 1

  /** How many bytes remove_Block takes for gone; the sum is a size_t and wraps around. */
  function RemovedCount(size: nat, start: nat, count: nat): nat
    requires start <= size
  {
    if count == INVALID_SIZE || (start + count) % SIZE_LIMIT > size then size - start else count
  }

  /** The count is cut down to what is there if and only if it stands for everything or the sum does not wrap. */
  lemma RemovalFits(size: nat, start: nat, count: nat)
    requires start <= size < SIZE_LIMIT && count < SIZE_LIMIT
    ensures RemovedCount(size, start, count) == Streams.Min(count, size - start)
            <==> count == INVALID_SIZE || start + count < SIZE_LIMIT
  {
    if start + count >= SIZE_LIMIT {
      assert (start + count) % SIZE_LIMIT == start + count - SIZE_LIMIT < start;
    }
  }

  lemma CountIs(size: nat, start: nat, count: nat)
    requires start <= size && (count == INVALID_SIZE || start + count < SIZE_LIMIT)
    ensures RemovedCount(size, start, count)
         == if count == 0xffff_ffff_ffff_ffff || count > size - start then size - start else count
  {
  }

  /** Removing 2^64 - 2 bytes from the third of ten on: nothing is cut down, and the size wraps around to 12. */
  lemma RemovalOverruns()
    ensures var n := RemovedCount(10, 2, SIZE_LIMIT - 2);
            n > 10 - 2 && (10 - n) % SIZE_LIMIT == 12 && (10 - 2 - n) % SIZE_LIMIT == 10
  {
    assert 10 - (SIZE_LIMIT - 2) == 12 - SIZE_LIMIT && 10 - 2 - (SIZE_LIMIT - 2) == 10 - SIZE_LIMIT;
  }

  /** A text without `count` bytes from `start` on, as far as there are that many. */
  function Without(t: seq<Byte>, start: nat, count: nat): seq<Byte>
    requires start <= |t|
  {
    t[..start] + if count == INVALID_SIZE || start + count > |t| then [] else t[start + count..]
  }

  /** What is removed is what there is of `count` bytes from `start` on, or all that follows for iInvalidSize. */
  lemma WithoutIs(t: seq<Byte>, start: nat, count: nat)
    requires start <= |t|
    ensures var n := if count == 0xffff_ffff_ffff_ffff || count > |t| - start then |t| - start else count;
            var r := Without(t, start, count);
            && r == t[..start] + t[start + n..] && |r| == |t| - n
            && forall i :: 0 <= i < |r| ==> r[i] == if i < start then t[i] else t[i + n]
  {
  }

  /** All blocks of a program and the records that they share. */
  class Store {
    const empty: BlockData
    ghost var blocks: set<Block>
    ghost var records: set<BlockData> // those that were not freed

    ghost function AllRefs(): Refs
      reads this`blocks, blocks`i
    {
      map b | b in blocks :: b.i
    }

    ghost function AllCounts(): Counts
      reads this`records, records`refCount
    {
      map r | r in records :: r.refCount
    }

    ghost function AllMems(): Memories
      reads this`records, records`data, records`size
    {
      map r | r in records :: Memory(r.data, r.size)
    }

    ghost predicate Valid()
      reads this, blocks, records
    {
      Sound(AllRefs(), AllCounts(), AllMems(), empty)
    }

    ghost function Contents(): map<Block, seq<Byte>>
      reads this, blocks, records
    {
      Show(AllRefs(), AllMems())
    }

    constructor ()
      ensures Valid() && blocks == {} && fresh(records)
    {
      var e := new BlockData([0], 0);
      empty, blocks, records := e, {}, {e};
    }

    // ---- Steps ----

    /** addRelaxed_Atomic(&r->refCount, 1) */
    method Retain(r: BlockData)
      requires r in records
      modifies r`refCount
      ensures AllRefs() == old(AllRefs()) && AllCounts() == More(old(AllCounts()), r) && AllMems() == old(AllMems())
    {
      r.refCount := r.refCount + 1;
    }

    /** deref_BlockData_ */
    method Deref(r: BlockData) returns (freed: bool)
      requires r == empty ==> r.refCount > 1
      modifies r`refCount
      ensures r.refCount == old(r.refCount) - 1 && freed == (old(r.refCount) == 1)
    {
      var refWas := r.refCount;
      r.refCount := refWas - 1;
      freed := refWas == 1;
      assert freed ==> r != empty;
    }

    /** The reference of `d` to its record is given up, and `d` points at `r` instead. */
    method Release(d: Block, r: BlockData)
      requires d in blocks && d.i in records && r in records
      requires d.i.refCount >= if d.i == empty || r == d.i then 2 else 1
      modifies this`records, d`i, d.i`refCount
      ensures AllRefs() == old(AllRefs())[d := r] && AllCounts() == Less(old(AllCounts()), old(d.i))
      ensures AllMems() == Only(old(AllMems()), AllCounts()) && records <= old(records) && r in records && d.i == r
    {
      ghost var r0 := d.i;
      var freed := Deref(d.i);
      d.i := r;
      if freed {
        records := records - {r0};
      }
    }

    /** The reference of `d` is given up, and `d` is gone. */
    method Leave(d: Block)
      requires d in blocks && d.i in records && d.i.refCount >= if d.i == empty then 2 else 1
      modifies this`records, this`blocks, d.i`refCount
      ensures blocks == old(blocks) - {d} && records <= old(records)
      ensures AllRefs() == old(AllRefs()) - {d} && AllCounts() == Less(old(AllCounts()), d.i)
      ensures AllMems() == Only(old(AllMems()), AllCounts())
    {
      var freed := Deref(d.i);
      blocks := blocks - {d};
      if freed {
        records := records - {d.i};
      }
    }

    /** duplicate_BlockData_ */
    method Duplicate(r: BlockData, allocSize: nat) returns (dup: BlockData)
      requires Terminated(Memory(r.data, r.size))
      ensures fresh(dup) && dup !in records && dup.refCount == 1 && dup.size == r.size < |dup.data|
      ensures Text(Memory(dup.data, dup.size)) == Text(Memory(r.data, r.size)) && Terminated(Memory(dup.data, dup.size))
      ensures AllRefs() == old(AllRefs()) && AllCounts() == old(AllCounts()) && AllMems() == old(AllMems())
    {
      var mem := Allocate(Max(r.size + 1, allocSize));
      var n := Streams.Min(|r.data|, r.size + 1);
      dup := new BlockData(r.data[..n] + mem[n..], r.size);
      SameText(r.data, mem, r.size);
    }

    method Handle(r: BlockData) returns (d: Block)
      modifies this`blocks
      ensures fresh(d) && d !in old(blocks) && d.i == r && blocks == old(blocks) + {d}
      ensures AllRefs() == old(AllRefs())[d := r] && AllCounts() == old(AllCounts()) && AllMems() == old(AllMems())
    {
      d := new Block(r);
      blocks := blocks + {d};
    }

    /** A new record, with the reference that it comes with. */
    ghost method Enroll(r: BlockData)
      requires r !in records && r.refCount == 1
      modifies this`records
      ensures records == old(records) + {r} && AllRefs() == old(AllRefs())
      ensures AllCounts() == More(old(AllCounts()), r) && AllMems() == old(AllMems())[r := Memory(r.data, r.size)]
    {
      records := records + {r};
    }

    /** The record of a block, which no other block points at, is written. */
    method Write(d: Block, data: seq<Byte>, size: nat)
      requires Valid() && d in blocks && d.i.refCount == 1 && Terminated(Memory(data, size))
      modifies d.i`data, d.i`size
      ensures Valid() && blocks == old(blocks) && records == old(records) && d.i.refCount == 1
      ensures d.i.data == data && d.i.size == size
      ensures Contents() == old(Contents())[d := data[..size]]
    {
      hide Sound, Show;
      Present(AllRefs(), AllCounts(), AllMems(), empty, d);
      WrittenSound(AllRefs(), AllCounts(), AllMems(), empty, d, Memory(data, size));
      ghost var mems := AllMems();
      d.i.data, d.i.size := data, size;
      assert AllMems() == mems[d.i := Memory(data, size)];
    }

    // ---- Handles ----

    /** initData_Block and, for no data, init_Block */
    method New(data: seq<Byte>) returns (d: Block)
      requires Valid()
      modifies this, empty`refCount
      ensures Valid() && fresh(d) && blocks == old(blocks) + {d} && d !in old(blocks)
      ensures fresh(records - old(records))
      ensures Contents() == old(Contents())[d := data]
    {
      hide Sound, Show, More, Text;
      EmptyThere();
      var r := empty;
      if data != [] {
        r := new BlockData(data + [0], |data|);
      }
      d := Point(r, data);
    }

    /** A new block points at the empty record or at a new one. */
    method Point(r: BlockData, ghost data: seq<Byte>) returns (d: Block)
      requires Valid()
      requires if data == [] then r == empty
               else r !in records && r.refCount == 1 && r.data == data + [0] && r.size == |data|
      modifies this, empty`refCount
      ensures Valid() && fresh(d) && blocks == old(blocks) + {d} && d !in old(blocks)
      ensures records <= old(records) + {r}
      ensures Contents() == old(Contents())[d := data]
    {
      hide Sound, Show, More;
      ghost var refs, counts, mems, m := AllRefs(), AllCounts(), AllMems(), Memory(r.data, r.size);
      EmptyIs(refs, counts, mems, empty);
      d := Handle(r);
      AddedSound(refs, counts, mems, empty, d, r, m);
      if r == empty {
        Retain(r);
        assert mems[r := m] == mems;
      } else {
        Enroll(r);
      }
    }

    /** initCopy_Block and copy_Block */
    method Copy(other: Block) returns (d: Block)
      requires Valid() && other in blocks
      modifies this, other.i`refCount
      ensures Valid() && fresh(d) && blocks == old(blocks) + {d} && d !in old(blocks)
      ensures records == old(records)
      ensures Contents() == old(Contents())[d := old(Contents())[other]]
    {
      hide Sound, Show, More;
      Present(AllRefs(), AllCounts(), AllMems(), empty, other);
      ghost var refs, mems := AllRefs(), AllMems();
      d := Handle(other.i);
      AddedSound(refs, AllCounts(), mems, empty, d, other.i, mems[other.i]);
      Retain(other.i);
      assert mems[other.i := mems[other.i]] == mems;
    }

    /** deinit_Block */
    method Delete(d: Block)
      requires Valid() && d in blocks
      modifies this, d.i`refCount
      ensures Valid() && blocks == old(blocks) - {d} && records <= old(records)
      ensures Contents() == old(Contents()) - {d}
    {
      hide Sound, Show, Only, Less;
      DroppedSound(AllRefs(), AllCounts(), AllMems(), empty, d);
      Leave(d);
    }

    /** set_Block */
    method Set(d: Block, other: Block)
      requires Valid() && d in blocks && other in blocks
      modifies this`records, d`i, d.i`refCount, other.i`refCount
      ensures Valid() && blocks == old(blocks) && records <= old(records)
      ensures Contents() == old(Contents())[d := old(Contents())[other]]
    {
      hide Sound, Show, Less, More, Text, Only;
      Present(AllRefs(), AllCounts(), AllMems(), empty, other);
      Present(AllRefs(), AllCounts(), AllMems(), empty, d);
      UpdateSame(Contents(), d);
      if d.i != other.i {
        SharedSound(AllRefs(), AllCounts(), AllMems(), empty, d, other.i);
        Retain(other.i);
        Release(d, other.i);
      }
    }

    /** clear_Block */
    method Clear(d: Block)
      requires Valid() && d in blocks
      modifies this`records, d`i, d.i`refCount, empty`refCount
      ensures Valid() && blocks == old(blocks) && records <= old(records)
      ensures Contents() == old(Contents())[d := []]
    {
      hide Sound, Show, Less, More, Text, Only;
      Present(AllRefs(), AllCounts(), AllMems(), empty, d);
      EmptyIs(AllRefs(), AllCounts(), AllMems(), empty);
      ClearedSound(AllRefs(), AllCounts(), AllMems(), empty, d);
      Release(d, empty);
      Retain(empty);
    }

    /** detach_Block_ and duplicate_BlockData_ */
    method Detach(d: Block, allocSize: nat)
      requires Valid() && d in blocks
      modifies this`records, d`i, d.i`refCount
      ensures Valid() && blocks == old(blocks) && fresh(records - old(records)) && (d.i == old(d.i) || fresh(d.i))
      ensures d.i in records && d.i.refCount == 1 && d.i.size == old(d.i.size) < |d.i.data|
      ensures Contents() == old(Contents())
    {
      hide Sound, Show, AllRefs, AllCounts, AllMems;
      InRecords(d);
      TextIs(d);
      if d.i.refCount > 1 {
        Separate(d, allocSize);
      }
    }

    method Separate(d: Block, allocSize: nat)
      requires Valid() && d in blocks && d.i.refCount > 1
      modifies this`records, d`i, d.i`refCount
      ensures Valid() && blocks == old(blocks) && records <= old(records) + {d.i} && fresh(d.i)
      ensures d.i in records && d.i.refCount == 1 && d.i.size == old(d.i.size) < |d.i.data|
      ensures Contents() == old(Contents())
    {
      hide Sound, Show, Less, More, Only, Text, Terminated;
      ghost var refs, counts, mems := AllRefs(), AllCounts(), AllMems();
      Present(refs, counts, mems, empty, d);
      var dup := Duplicate(d.i, allocSize);
      DetachedSound(refs, counts, mems, empty, d, dup, Memory(dup.data, dup.size));
      Enroll(dup);
      Release(d, dup);
    }

    // ---- Changing the bytes of one block ----

    /** reserve_Block with reserve_BlockData_ */
    method Reserve(d: Block, n: nat)
      requires Valid() && d in blocks
      modifies this`records, d`i, d.i`refCount, d.i`data, d.i`size
      ensures Valid() && blocks == old(blocks) && fresh(records - old(records)) && Contents() == old(Contents())
      ensures d.i in records && d.i.refCount == 1 && d.i.size == old(d.i.size) < |d.i.data| && n < |d.i.data|
      ensures (d.i == old(d.i) || fresh(d.i)) && d.i.data[..d.i.size] == Contents()[d]
    {
      hide Sound, Show, AllRefs, AllCounts, AllMems;
      var s := AllocSize(n);
      Detach(d, s);
      TextIs(d);
      UpdateSame(Contents(), d);
      if |d.i.data| < n + 1 {
        var s' := AllocSize(n);
        var more := Allocate(Max(s', |d.i.data|) - |d.i.data|);
        assert (d.i.data + more)[..d.i.size] == d.i.data[..d.i.size];
        Write(d, d.i.data + more, d.i.size);
      }
    }

    lemma Shown()
      ensures Contents().Keys == blocks
    {
      hide Show;
    }

    lemma EmptyThere()
      requires Valid()
      ensures empty in records
    {
      hide Show;
      EmptyIs(AllRefs(), AllCounts(), AllMems(), empty);
    }

    lemma InRecords(d: Block)
      requires Valid() && d in blocks
      ensures d.i in records && empty in records
    {
      hide Show;
      Known(AllRefs(), AllCounts(), empty, d);
    }

    lemma TextIs(d: Block)
      requires Valid() && d in blocks
      ensures d.i.refCount >= 1 && Terminated(Memory(d.i.data, d.i.size)) &&
              d in Contents() && Contents()[d] == d.i.data[..d.i.size]
    {
      hide Sound, Show;
      Present(AllRefs(), AllCounts(), AllMems(), empty, d);
    }

    method Truncate(d: Block, size: nat)
      requires Valid() && d in blocks
      modifies this`records, d`i, d.i`refCount, d.i`data, d.i`size
      ensures Valid() && blocks == old(blocks) && fresh(records - old(records))
      ensures Contents() == old(Contents())[d := old(Contents())[d][..Streams.Min(size, |old(Contents())[d]|)]]
    {
      hide Sound, Show, AllRefs, AllCounts, AllMems;
      TextIs(d);
      UpdateSame(Contents(), d);
      ghost var t := Contents()[d];
      assert size >= |t| ==> t[..Streams.Min(size, |t|)] == t;
      if size < d.i.size {
        Detach(d, 0);
        TextIs(d);
        var data := d.i.data[size := 0];
        assert data[..size] == Contents()[d][..size];
        Write(d, data, size);
      }
    }

    /** resize_Block: new bytes are zero. */
    method Resize(d: Block, size: nat)
      requires Valid() && d in blocks
      modifies this`records, d`i, d.i`refCount, d.i`data, d.i`size
      ensures Valid() && blocks == old(blocks) && fresh(records - old(records))
      ensures var t := old(Contents())[d];
              Contents() == old(Contents())[d := if size <= |t| then t[..size] else t + Zeros(size - |t|)]
    {
      hide Sound, Show, AllRefs, AllCounts, AllMems;
      TextIs(d);
      if size < d.i.size {
        Truncate(d, size);
      } else {
        Reserve(d, size);
        ghost var t := Contents()[d];
        assert size == |t| ==> t[..size] == t + Zeros(size - |t|);
        var data := Streams.Overwrite(d.i.data, d.i.size, Zeros(size - d.i.size + 1));
        assert data[..size] == t + Zeros(size - |t|);
        Write(d, data, size);
      }
    }

    /** remove_Block; `count` may reach beyond the end, and iInvalidSize is all that follows. */
    method Remove(d: Block, start: nat, count: nat)
      requires Valid() && d in blocks && start <= d.i.size
      requires count == INVALID_SIZE || start + count < SIZE_LIMIT
      modifies this`records, d`i, d.i`refCount, d.i`data, d.i`size
      ensures Valid() && blocks == old(blocks) && fresh(records - old(records))
      ensures start <= |old(Contents())[d]|
      ensures Contents() == old(Contents())[d := Without(old(Contents())[d], start, count)]
      ensures var t := old(Contents())[d];
              var n := if count == 0xffff_ffff_ffff_ffff || count > |t| - start then |t| - start else count;
              Contents() == old(Contents())[d := t[..start] + t[start + n..]]
    {
      hide Sound, Show, AllRefs, AllCounts, AllMems, Without, RemovedCount, Streams.Overwrite;
      TextIs(d);
      Detach(d, 0);
      TextIs(d);
      ghost var t := Contents()[d];
      var n := RemovedCount(d.i.size, start, count);
      CountIs(d.i.size, start, count);
      WithoutIs(t, start, count);
      var remainder := d.i.size - start - n;
      var data := Streams.Overwrite(d.i.data, start, d.i.data[start + n..start + n + remainder]);
      var size := d.i.size - n;
      Streams.Overwritten(d.i.data, start, d.i.data[start + n..start + n + remainder]);
      data := data[size := 0];
      ClosedUp(d.i.data, d.i.size, start, n);
      assert d.i.data[start + n..d.i.size] == t[start + n..] && d.i.data[..start] == t[..start];
      Write(d, data, size);
    }

    method PushBack(d: Block, value: Byte)
      requires Valid() && d in blocks
      modifies this`records, d`i, d.i`refCount, d.i`data, d.i`size
      ensures Valid() && blocks == old(blocks) && fresh(records - old(records))
      ensures Contents() == old(Contents())[d := old(Contents())[d] + [value]]
    {
      Append(d, [value]);
    }

    method PopBack(d: Block)
      requires Valid() && d in blocks
      modifies this`records, d`i, d.i`refCount, d.i`data, d.i`size
      ensures Valid() && blocks == old(blocks) && fresh(records - old(records))
      ensures var t := old(Contents())[d]; Contents() == old(Contents())[d := if t == [] then [] else t[..|t| - 1]]
    {
      hide Sound, Show, AllRefs, AllCounts, AllMems;
      Detach(d, 0);
      TextIs(d);
      UpdateSame(Contents(), d);
      if d.i.size > 0 {
        var size := d.i.size - 1;
        var data := d.i.data[size := 0];
        assert data[..size] == Contents()[d][..size];
        Write(d, data, size);
      }
    }

    method SetByte(d: Block, pos: nat, value: Byte)
      requires Valid() && d in blocks && pos < d.i.size
      modifies this`records, d`i, d.i`refCount, d.i`data, d.i`size
      ensures Valid() && blocks == old(blocks) && fresh(records - old(records))
      ensures pos < |old(Contents())[d]|
      ensures Contents() == old(Contents())[d := Streams.Overwrite(old(Contents())[d], pos, [value])]
    {
      hide Sound, Show, AllRefs, AllCounts, AllMems;
      TextIs(d);
      Detach(d, 0);
      TextIs(d);
      ghost var t := Contents()[d];
      var data := Streams.Overwrite(d.i.data, pos, [value]);
      assert data[..d.i.size] == Streams.Overwrite(t, pos, [value]);
      Write(d, data, d.i.size);
    }

    /** setData_Block */
    method SetData(d: Block, bytes: seq<Byte>)
      requires Valid() && d in blocks
      modifies this`records, d`i, d.i`refCount, d.i`data, d.i`size, empty`refCount
      ensures Valid() && blocks == old(blocks) && fresh(records - old(records))
      ensures Contents() == old(Contents())[d := bytes]
    {
      hide Sound, Show, AllRefs, AllCounts, AllMems;
      if bytes != [] {
        Reserve(d, |bytes|);
        var data := Streams.Overwrite(d.i.data, 0, bytes + [0]);
        assert data[..|bytes|] == bytes;
        Write(d, data, |bytes|);
      } else {
        Clear(d);
      }
    }

    /** setSubData_Block */
    method SetSubData(d: Block, pos: nat, bytes: seq<Byte>)
      requires Valid() && d in blocks && pos <= d.i.size
      modifies this`records, d`i, d.i`refCount, d.i`data, d.i`size
      ensures Valid() && blocks == old(blocks) && fresh(records - old(records))
      ensures pos <= |old(Contents())[d]|
      ensures Contents() == old(Contents())[d := Streams.Overwrite(old(Contents())[d], pos, bytes)]
    {
      hide Sound, Show, AllRefs, AllCounts, AllMems;
      TextIs(d);
      Reserve(d, pos + |bytes|);
      TextIs(d);
      ghost var t := Contents()[d];
      var data := Streams.Overwrite(d.i.data, pos, bytes);
      var size := Max(d.i.size, pos + |bytes|);
      if size == pos + |bytes| {
        data := data[size := 0];
      }
      assert data[..size] == Streams.Overwrite(t, pos, bytes);
      Write(d, data, size);
    }

    /** appendData_Block */
    method Append(d: Block, bytes: seq<Byte>)
      requires Valid() && d in blocks
      modifies this`records, d`i, d.i`refCount, d.i`data, d.i`size
      ensures Valid() && blocks == old(blocks) && fresh(records - old(records))
      ensures Contents() == old(Contents())[d := old(Contents())[d] + bytes]
    {
      hide Sound, Show, AllRefs, AllCounts, AllMems;
      Reserve(d, d.i.size + |bytes|);
      TextIs(d);
      ghost var t := Contents()[d];
      var size := d.i.size + |bytes|;
      var data := Streams.Overwrite(d.i.data, d.i.size, bytes + [0]);
      assert data[..size] == t + bytes;
      Write(d, data, size);
    }

    /** insertData_Block */
    method Insert(d: Block, at: nat, bytes: seq<Byte>)
      requires Valid() && d in blocks && at <= d.i.size
      modifies this`records, d`i, d.i`refCount, d.i`data, d.i`size
      ensures Valid() && blocks == old(blocks) && fresh(records - old(records))
      ensures var t := old(Contents())[d]; at <= |t| && Contents() == old(Contents())[d := t[..at] + bytes + t[at..]]
    {
      hide Sound, Show, AllRefs, AllCounts, AllMems;
      TextIs(d);
      Reserve(d, d.i.size + |bytes|);
      TextIs(d);
      ghost var t := Contents()[d];
      var size := d.i.size + |bytes|;
      var data := Streams.Overwrite(d.i.data, at + |bytes|, d.i.data[at..d.i.size]);
      data := Streams.Overwrite(data, at, bytes);
      data := data[size := 0];
      assert data[..size] == t[..at] + bytes + t[at..];
      Write(d, data, size);
    }
  }

  /** The bytes behind removed ones move up, and a terminator follows. */
  lemma ClosedUp(mem: seq<Byte>, size: nat, start: nat, n: nat)
    requires start + n <= size < |mem|
    ensures var data := Streams.Overwrite(mem, start, mem[start + n..size])[size - n := 0];
            |data| == |mem| && data[..size - n] == mem[..start] + mem[start + n..size] && data[size - n] == 0
  {
  }

  lemma SameText(data: seq<Byte>, mem: seq<Byte>, size: nat)
    requires Terminated(Memory(data, size)) && size < |mem|
    ensures Terminated(Memory(data[..size + 1] + mem[size + 1..], size))
    ensures Text(Memory(data[..size + 1] + mem[size + 1..], size)) == Text(Memory(data, size))
  {
  }

  lemma UpdateSame(m: map<Block, seq<Byte>>, d: Block)
    requires d in m
    ensures m[d := m[d]] == m
  {
  }

  lemma EmptyIs(refs: Refs, counts: Counts, mems: Memories, empty: BlockData)
    requires Sound(refs, counts, mems, empty)
    ensures empty in mems && empty in counts && mems[empty].size == 0 && Terminated(mems[empty])
  {
  }

  lemma Present(refs: Refs, counts: Counts, mems: Memories, empty: BlockData, b: Block)
    requires Sound(refs, counts, mems, empty) && b in refs
    ensures refs[b] in counts && counts[refs[b]] >= 1
    ensures refs[b] in mems && Terminated(mems[refs[b]])
    ensures Show(refs, mems)[b] == Text(mems[refs[b]])
  {
    hide Owners, Terminated;
  }

  // ---- Histories ----

  datatype Edit =
    | Clear
    | SetData(bytes: seq<Byte>)
    | SetSubData(pos: nat, bytes: seq<Byte>)
    | SetByte(pos: nat, value: Byte)
    | Append(bytes: seq<Byte>)
    | Insert(at: nat, bytes: seq<Byte>)
    | Remove(start: nat, count: nat)
    | Truncate(size: nat)
    | Resize(size: nat)
    | Reserve(size: nat)
    | PushBack(value: Byte)
    | PopBack

  /** The positions that the functions of block.c ask for. */
  predicate Fits(t: seq<Byte>, e: Edit) {
    match e
    case SetSubData(pos, _) => pos <= |t|
    case SetByte(pos, _) => pos < |t|
    case Insert(at, _) => at <= |t|
    case Remove(start, count) => start <= |t| && (count == INVALID_SIZE || start + count < SIZE_LIMIT)
    case _ => true
  }

  /** What an edit makes of a text. */
  function Edited(t: seq<Byte>, e: Edit): seq<Byte>
    requires Fits(t, e)
  {
    match e
    case Clear => []
    case SetData(bytes) => bytes
    case SetSubData(pos, bytes) => Streams.Overwrite(t, pos, bytes)
    case SetByte(pos, value) => Streams.Overwrite(t, pos, [value])
    case Append(bytes) => t + bytes
    case Insert(at, bytes) => t[..at] + bytes + t[at..]
    case Remove(start, count) => Without(t, start, count)
    case Truncate(size) => t[..Streams.Min(size, |t|)]
    case Resize(size) => if size <= |t| then t[..size] else t + Zeros(size - |t|)
    case Reserve(_) => t
    case PushBack(value) => t + [value]
    case PopBack => if t == [] then [] else t[..|t| - 1]
  }

  /** Removing what was put in restores the text. */
  lemma RemoveUndoesInsert(t: seq<Byte>, at: nat, bytes: seq<Byte>)
    requires at <= |t| && |t| + |bytes| < 0xffff_ffff_ffff_ffff
    ensures Edited(Edited(t, Insert(at, bytes)), Remove(at, |bytes|)) == t
  {
    WithoutIs(Edited(t, Insert(at, bytes)), at, |bytes|);
    assert t[..at] + t[at..] == t;
  }

  /** Bytes that are set can be read at their place, and the others stay. */
  lemma SubDataSet(t: seq<Byte>, pos: nat, bytes: seq<Byte>)
    requires pos <= |t|
    ensures var r := Edited(t, SetSubData(pos, bytes));
            && |r| == (if pos + |bytes| <= |t| then |t| else pos + |bytes|) && r[pos..pos + |bytes|] == bytes
            && forall i :: 0 <= i < |r| && (i < pos || i >= pos + |bytes|) ==> r[i] == t[i]
  {
    Streams.Overwritten(t, pos, bytes);
  }

  /** A step of a program. Blocks go by the number in which they came into being. */
  datatype Action = Create(bytes: seq<Byte>) | Copy(i: nat) | Delete(i: nat)
      | Assign(i: nat, j: nat) | Change(i: nat, edit: Edit)

  /** The texts of all blocks that there have been, if each block simply had its own. */
  type Texts = seq<Option<seq<Byte>>>

  predicate Live(w: Texts, i: nat) {
    i < |w| && w[i].Some?
  }

  predicate Legal(w: Texts, a: Action) {
    match a
    case Create(_) => true
    case Copy(i) => Live(w, i)
    case Delete(i) => Live(w, i)
    case Assign(i, j) => Live(w, i) && Live(w, j)
    case Change(i, edit) => Live(w, i) && Fits(w[i].value, edit)
  }

  function Act(w: Texts, a: Action): Texts
    requires Legal(w, a)
  {
    match a
    case Create(bytes) => w + [Some(bytes)]
    case Copy(i) => w + [w[i]]
    case Delete(i) => w[i := None]
    case Assign(i, j) => w[i := w[j]]
    case Change(i, edit) => w[i := Some(Edited(w[i].value, edit))]
  }

  predicate AllLegal(w: Texts, acts: seq<Action>)
    decreases |acts|
  {
    acts == [] || (Legal(w, acts[0]) && AllLegal(Act(w, acts[0]), acts[1..]))
  }

  function ActAll(w: Texts, acts: seq<Action>): Texts
    requires AllLegal(w, acts)
    decreases |acts|
  {
    if acts == [] then w else ActAll(Act(w, acts[0]), acts[1..])
  }

  /** Block number `i` is at `handles[i]`, and what the blocks show are these texts. */
  ghost predicate Named(m: map<Block, seq<Byte>>, handles: seq<Block>, w: Texts) {
    && |handles| == |w|
    && (forall i, j :: 0 <= i < j < |w| ==> handles[i] != handles[j])
    && (forall i :: 0 <= i < |w| ==>
        if w[i].Some? then handles[i] in m && m[handles[i]] == w[i].value else handles[i] !in m)
  }

  lemma NamedPut(m: map<Block, seq<Byte>>, handles: seq<Block>, w: Texts, i: nat, t: seq<Byte>)
    requires Named(m, handles, w) && i < |w|
    ensures Named(m[handles[i] := t], handles, w[i := Some(t)])
    ensures Named(m - {handles[i]}, handles, w[i := None])
  {
  }

  lemma NamedNew(m: map<Block, seq<Byte>>, handles: seq<Block>, w: Texts, b: Block, t: seq<Byte>)
    requires Named(m, handles, w) && b !in handles
    ensures Named(m[b := t], handles + [b], w + [Some(t)])
  {
  }

  method Apply(s: Store, d: Block, e: Edit)
    requires s.Valid() && d in s.blocks && d in s.Contents() && Fits(s.Contents()[d], e)
    modifies s`records, d`i, s.records
    ensures s.Valid() && s.blocks == old(s.blocks) && fresh(s.records - old(s.records))
    ensures s.Contents() == old(s.Contents())[d := Edited(old(s.Contents()[d]), e)]
  {
    hide Sound, Show, Store.AllRefs, Store.AllCounts, Store.AllMems, Streams.Min, Streams.Overwrite, Zeros, Without;
    s.TextIs(d);
    s.InRecords(d);
    match e
    case Clear => s.Clear(d);
    case SetData(bytes) => s.SetData(d, bytes);
    case SetSubData(pos, bytes) => s.SetSubData(d, pos, bytes);
    case SetByte(pos, value) => s.SetByte(d, pos, value);
    case Append(bytes) => s.Append(d, bytes);
    case Insert(at, bytes) => s.Insert(d, at, bytes);
    case Remove(start, count) => s.Remove(d, start, count);
    case Truncate(size) => s.Truncate(d, size);
    case Resize(size) => s.Resize(d, size);
    case Reserve(size) =>
      UpdateSame(s.Contents(), d);
      s.Reserve(d, size);
    case PushBack(value) => s.PushBack(d, value);
    case PopBack => s.PopBack(d);
  }

  method Perform(s: Store, handles: seq<Block>, ghost w: Texts, a: Action) returns (h: seq<Block>)
    requires s.Valid() && Named(s.Contents(), handles, w) && Legal(w, a)
    modifies s, s.blocks, s.records
    ensures s.Valid() && Named(s.Contents(), h, Act(w, a))
    ensures fresh(s.blocks - old(s.blocks)) && fresh(s.records - old(s.records))
  {
    hide Sound, Show, Store.AllRefs, Store.AllCounts, Store.AllMems, Edited, Fits;
    s.Shown();
    s.EmptyThere();
    h := handles;
    match a
    case Create(bytes) =>
      ghost var m := s.Contents();
      var b := s.New(bytes);
      NamedNew(m, handles, w, b, bytes);
      h := handles + [b];
    case Copy(i) =>
      ghost var m := s.Contents();
      s.InRecords(handles[i]);
      var b := s.Copy(handles[i]);
      NamedNew(m, handles, w, b, w[i].value);
      h := handles + [b];
    case Delete(i) =>
      NamedPut(s.Contents(), handles, w, i, []);
      s.InRecords(handles[i]);
      s.Delete(handles[i]);
    case Assign(i, j) =>
      NamedPut(s.Contents(), handles, w, i, w[j].value);
      s.InRecords(handles[i]);
      s.InRecords(handles[j]);
      s.Set(handles[i], handles[j]);
    case Change(i, edit) =>
      NamedPut(s.Contents(), handles, w, i, Edited(w[i].value, edit));
      Apply(s, handles[i], edit);
  }

  /** Over any history of creating, copying, assigning, changing and deleting blocks, sharing data cannot be told from
      having data of one's own. */
  method Run(acts: seq<Action>) returns (s: Store, handles: seq<Block>)
    requires AllLegal([], acts)
    ensures s.Valid() && Named(s.Contents(), handles, ActAll([], acts))
  {
    hide Sound, Show, Legal, Act;
    s := new Store();
    handles := [];
    s.Shown();
    ghost var w: Texts := [];
    for k := 0 to |acts|
      invariant s.Valid() && Named(s.Contents(), handles, w) && fresh(s) && fresh(s.blocks) && fresh(s.records)
      invariant AllLegal(w, acts[k..]) && ActAll(w, acts[k..]) == ActAll([], acts)
    {
      assert acts[k..][0] == acts[k] && acts[k..][1..] == acts[k + 1..];
      handles := Perform(s, handles, w, acts[k]);
      w := Act(w, acts[k]);
    }
  }
}
