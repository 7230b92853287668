/** The collected pointers of garbage.c: a stack in chunks, with nested scopes that run destructors. */
module Garbage {
  import opened Sequences

  /** iCollectedPtr: `hasDel` says whether there is a destructor.
      Without one the item marks the beginning of a scope. */
  datatype Item = Item(ptr: nat, hasDel: bool)

  const MARK := Item(0, false)
  const MAX: nat := 32

  // ---- The stack ----

  /** What ending a scope leaves of a stack: everything below its topmost marker. */
  function Below(stack: seq<Item>): seq<Item> {
    if stack == [] then []
    else if !stack[|stack| - 1].hasDel then stack[..|stack| - 1]
    else Below(stack[..|stack| - 1])
  }

  /** What ending a scope runs: the items above the topmost marker, newest first. */
  function Above(stack: seq<Item>): seq<Item> {
    if stack == [] || !stack[|stack| - 1].hasDel then []
    else [stack[|stack| - 1]] + Above(stack[..|stack| - 1])
  }

  /** Popping one item, as a step of ending a scope */
  lemma Unwinding(stack: seq<Item>)
    ensures stack == [] ==> Below(stack) == [] && Above(stack) == []
    ensures stack != [] ==>
              var item, rest := stack[|stack| - 1], stack[..|stack| - 1];
              if item.hasDel then Below(stack) == Below(rest) && Above(stack) == [item] + Above(rest)
              else Below(stack) == rest && Above(stack) == []
  {
  }

  /** What ending a scope runs, it runs from the top of the stack down. */
  lemma {:induction false} AboveAt(stack: seq<Item>, k: nat)
    requires k < |Above(stack)|
    ensures |Above(stack)| <= |stack| && Above(stack)[k] == stack[|stack| - 1 - k]
  {
    if k > 0 {
      AboveAt(stack[..|stack| - 1], k - 1);
    } else if |Above(stack)| > 1 {
      AboveAt(stack[..|stack| - 1], 0);
    }
  }

  function Reversed(s: seq<Item>): seq<Item> {
    if s == [] then [] else [s[|s| - 1]] + Reversed(s[..|s| - 1])
  }

  /** What running everything runs: the items with a destructor, newest first. */
  function Cleared(stack: seq<Item>): seq<Item> {
    if stack == [] then [] else OfTop(stack) + Cleared(stack[..|stack| - 1])
  }

  function OfTop(stack: seq<Item>): seq<Item>
    requires stack != []
  {
    var top := stack[|stack| - 1];
    if top.hasDel then [top] else []
  }

  lemma {:induction false} ClearedJoin(a: seq<Item>, b: seq<Item>)
    ensures Cleared(a + b) == Cleared(b) + Cleared(a)
  {
    if b == [] {
      assert a + b == a;
    } else {
      hide OfTop;
      var init := b[..|b| - 1];
      ClearedJoin(a, init);
      JoinedEnd(a, b);
      Grouped(OfTop(b), Cleared(init), Cleared(a));
    }
  }

  lemma JoinedEnd(a: seq<Item>, b: seq<Item>)
    requires b != []
    ensures a + b != [] && (a + b)[..|a + b| - 1] == a + b[..|b| - 1] && OfTop(a + b) == OfTop(b)
  {
  }

  lemma ClearedNothing()
    ensures Cleared([]) == []
  {
  }

  /** The items with a destructor run, the others do not; and running everything is the reverse of collecting it. */
  lemma {:induction false} ClearedIs(stack: seq<Item>)
    ensures forall item :: item in Cleared(stack) <==> item in stack && item.hasDel
    ensures AllHaveDel(stack) ==> Cleared(stack) == Reversed(stack)
  {
    if stack != [] {
      ClearedIs(stack[..|stack| - 1]);
      assert stack == stack[..|stack| - 1] + [stack[|stack| - 1]];
    }
  }

  lemma {:induction false} ReversedAt(s: seq<Item>, k: nat)
    requires k < |s|
    ensures |Reversed(s)| == |s| && Reversed(s)[k] == s[|s| - 1 - k]
  {
    if |s| > 1 {
      ReversedAt(s[..|s| - 1], if k > 0 then k - 1 else 0);
    }
  }

  lemma ClearedStep(view: seq<Item>, k: nat)
    requires k < |view|
    ensures Cleared(view[..k + 1]) == (if view[k].hasDel then [view[k]] else []) + Cleared(view[..k])
  {
    assert view[..k + 1][..k] == view[..k];
  }

  lemma OneChunkMore(views: seq<seq<Item>>, i: nat)
    requires i < |views|
    ensures Cleared(Joined(views[..i + 1])) == Cleared(views[i]) + Cleared(Joined(views[..i]))
  {
    assert views[..i + 1][..i] == views[..i];
    ClearedJoin(Joined(views[..i]), views[i]);
  }

  lemma NothingJoined(views: seq<seq<Item>>)
    ensures Cleared(Joined(views[..0])) == [] && views[..|views|] == views
  {
  }

  predicate AllHaveDel(items: seq<Item>) {
    forall i :: 0 <= i < |items| ==> items[i].hasDel
  }

  /** Ending a scope restores the stack from before it if and only if nothing without a destructor was left in it. */
  lemma {:induction false} ScopeRestores(outer: seq<Item>, items: seq<Item>)
    ensures Below(outer + [MARK] + items) == outer <==> AllHaveDel(items)
    ensures AllHaveDel(items) ==> Above(outer + [MARK] + items) == Reversed(items)
    ensures !AllHaveDel(items) ==> |Below(outer + [MARK] + items)| > |outer|
    decreases |items|
  {
    var all := outer + [MARK] + items;
    if items == [] {
      assert all == outer + [MARK] && all[..|all| - 1] == outer;
    } else {
      var rest := items[..|items| - 1];
      assert all[..|all| - 1] == outer + [MARK] + rest && all[|all| - 1] == items[|items| - 1];
      ScopeRestores(outer, rest);
      assert items == rest + [items[|items| - 1]];
    }
  }

  lemma JoinedPut(views: seq<seq<Item>>, item: Item)
    requires views != []
    ensures var last := |views| - 1; Joined(views[last := views[last] + [item]]) == Joined(views) + [item]
  {
    hide Joined;
    var last := |views| - 1;
    var now := views[last := views[last] + [item]];
    JoinedAll(views);
    JoinedAll(now);
    assert now[..last] == views[..last];
    Grouped(Joined(views[..last]), views[last], [item]);
  }

  lemma JoinedOpened(views: seq<seq<Item>>)
    ensures Joined(views + [[]]) == Joined(views)
  {
    assert (views + [[]])[..|views|] == views;
  }

  lemma JoinedEmpty()
    ensures Joined<Item>([]) == []
  {
  }

  /** Taking the top item off the last chunk takes it off the stack, unless there is none at all. */
  lemma JoinedTop(views: seq<seq<Item>>)
    requires views != [] && (|views| > 1 ==> views[|views| - 1] != [])
    ensures var last, all := |views| - 1, Joined(views);
            if views[last] == [] then all == []
            else all != [] && all[|all| - 1] == views[last][|views[last]| - 1] &&
                 Joined(views[last := views[last][..|views[last]| - 1]]) == all[..|all| - 1]
  {
    hide Joined;
    var last := |views| - 1;
    var top := views[last];
    JoinedAll(views);
    if top == [] {
      JoinedEmpty();
      assert views[..last] == [];
    } else {
      var now := views[last := top[..|top| - 1]];
      JoinedAll(now);
      assert now[..last] == views[..last];
    }
  }

  lemma JoinedAll(views: seq<seq<Item>>)
    requires views != []
    ensures Joined(views) == Joined(views[..|views| - 1]) + views[|views| - 1]
  {
  }

  // ---- Programs with nested scopes ----

  /** What code does between two moments: it collects items, and opens and closes scopes around more of the same. */
  datatype Act = Collect(item: Item) | Scope(body: seq<Act>)

  /** The items collected in the current scope itself. */
  function DirectOf(act: Act): seq<Item> {
    match act
    case Collect(item) => [item]
    case Scope(_) => []
  }

  function Direct(acts: seq<Act>): seq<Item> {
    if acts == [] then [] else Direct(acts[..|acts| - 1]) + DirectOf(acts[|acts| - 1])
  }

  /** All items collected, in order, at every depth. */
  function CollectedIn(act: Act): seq<Item>
    decreases act
  {
    match act
    case Collect(item) => [item]
    case Scope(body) => Collected(body)
  }

  function Collected(acts: seq<Act>): seq<Item>
    decreases acts
  {
    if acts == [] then [] else Collected(acts[..|acts| - 1]) + CollectedIn(acts[|acts| - 1])
  }

  /** The destructors that run: those of a scope at its end, newest first, inner scopes before the outer ones. */
  function RunsOf(act: Act): seq<Item>
    decreases act
  {
    match act
    case Collect(_) => []
    case Scope(body) => Runs(body) + Reversed(Direct(body))
  }

  function Runs(acts: seq<Act>): seq<Item>
    decreases acts
  {
    if acts == [] then [] else Runs(acts[..|acts| - 1]) + RunsOf(acts[|acts| - 1])
  }

  lemma {:induction false} RunsJoin(a: seq<Act>, b: seq<Act>)
    ensures Runs(a + b) == Runs(a) + Runs(b)
    decreases |b|
  {
    hide RunsOf;
    if b == [] {
      assert a + b == a;
    } else {
      assert (a + b)[..|a + b| - 1] == a + b[..|b| - 1];
      RunsJoin(a, b[..|b| - 1]);
      Grouped(Runs(a), Runs(b[..|b| - 1]), RunsOf(b[|b| - 1]));
    }
  }

  /** An inner scope runs when it ends, before what its outer scope has collected. */
  lemma RunsInOrder(a: Item, b: Item, c: Item, d: Item)
    ensures Runs([Scope([Collect(a), Scope([Collect(b), Collect(c)]), Collect(d)])]) == [c, b, d, a]
  {
    hide Direct, Runs, Reversed;
    var inner := [Collect(b), Collect(c)];
    FirstTwo(Collect(b), Collect(c));
    ReversedTwo(b, c);
    assert Direct(inner) == [b, c] && RunsOf(Scope(inner)) == [c, b];
    var body := [Collect(a), Scope(inner), Collect(d)];
    FirstTwo(Collect(a), Scope(inner));
    assert body[..2] == [Collect(a), Scope(inner)] && body[..3] == body;
    OneMore(body, 2);
    ReversedTwo(a, d);
    assert Direct(body) == [a, d] && Runs(body) == [c, b];
    var all := [Scope(body)];
    NothingYet(all);
    OneMore(all, 0);
    assert all[..1] == all;
  }

  lemma FirstTwo(x: Act, y: Act)
    ensures Direct([x, y]) == DirectOf(x) + DirectOf(y) && Runs([x, y]) == RunsOf(x) + RunsOf(y)
  {
    hide Direct, Runs;
    var acts := [x, y];
    NothingYet(acts);
    OneMore(acts, 0);
    OneMore(acts, 1);
    assert acts[..2] == acts;
  }

  lemma ReversedTwo(b: Item, c: Item)
    ensures Reversed([b, c]) == [c, b]
  {
    ReversedAt([b, c], 0);
    ReversedAt([b, c], 1);
  }

  /** No item comes without a destructor, at any depth. */
  predicate DelsIn(act: Act)
    decreases act
  {
    match act
    case Collect(item) => item.hasDel
    case Scope(body) => forall i :: 0 <= i < |body| ==> DelsIn(body[i])
  }

  lemma {:induction false} DirectHaveDel(acts: seq<Act>)
    requires forall i :: 0 <= i < |acts| ==> DelsIn(acts[i])
    ensures AllHaveDel(Direct(acts))
  {
    if acts != [] {
      DirectHaveDel(acts[..|acts| - 1]);
      assert DelsIn(acts[|acts| - 1]);
    }
  }

  lemma {:induction false} ReversedSame(s: seq<Item>)
    ensures multiset(Reversed(s)) == multiset(s)
  {
    if s != [] {
      ReversedSame(s[..|s| - 1]);
      assert s == s[..|s| - 1] + [s[|s| - 1]];
    }
  }

  /** Nothing is lost and nothing runs twice: what was collected has run, or is still there for the enclosing scope. */
  lemma {:induction false} RunsOnce(acts: seq<Act>)
    ensures multiset(Runs(acts)) + multiset(Direct(acts)) == multiset(Collected(acts))
    decreases acts, 0
  {
    if acts != [] {
      RunsOnce(acts[..|acts| - 1]);
      match acts[|acts| - 1]
      case Collect(_) =>
      case Scope(body) => ScopeRunsAll(body);
    }
  }

  /** A scope runs exactly what was collected in it, at every depth. */
  lemma {:induction false} ScopeRunsAll(body: seq<Act>)
    ensures multiset(RunsOf(Scope(body))) == multiset(Collected(body))
    decreases body, 1
  {
    RunsOnce(body);
    ReversedSame(Direct(body));
  }

  lemma OneMore(acts: seq<Act>, k: nat)
    requires k < |acts|
    ensures Direct(acts[..k + 1]) == Direct(acts[..k]) + DirectOf(acts[k])
    ensures Runs(acts[..k + 1]) == Runs(acts[..k]) + RunsOf(acts[k])
  {
    assert acts[..k + 1][..k] == acts[..k];
  }

  lemma NothingYet(acts: seq<Act>)
    ensures Direct(acts[..0]) == [] && Runs(acts[..0]) == []
  {
  }

  // ---- The chunks ----

  class Chunk {
    const allocs: array<Item>
    var count: nat

    constructor ()
      ensures fresh(allocs) && allocs.Length == 32 && count == 0
    {
      allocs := new Item[32](_ => MARK);
      count := 0;
    }
  }

  ghost function OfChunks(chunks: seq<Chunk>): (r: set<object>)
    ensures forall c :: c in chunks ==> c in r && c.allocs in r
  {
    (set c: Chunk | c in chunks :: c as object) + (set c: Chunk | c in chunks :: c.allocs as object)
  }

  lemma FewerChunks(a: seq<Chunk>, b: seq<Chunk>)
    requires a <= b
    ensures OfChunks(a) <= OfChunks(b)
  {
    assert forall c :: c in a ==> c in b;
  }

  class Collector {
    var chunks: seq<Chunk>
    var isRecycling: bool
    /** The items whose destructors have been called, in order. */
    var ran: seq<Item>
    ghost var views: seq<seq<Item>>

    ghost predicate Holds(i: nat)
      requires i < |chunks| == |views|
      reads `chunks, `views, chunks, set c | c in chunks :: c.allocs
    {
      && chunks[i].allocs.Length == 32
      && chunks[i].count == |views[i]| <= 32
      && chunks[i].allocs[..chunks[i].count] == views[i]
      && (i < |chunks| - 1 ==> chunks[i].count == 32)
    }

    /** All chunks but the last are full, and no two share anything. */
    ghost predicate Valid()
      reads `chunks, `views, chunks, set c | c in chunks :: c.allocs
    {
      && |chunks| == |views|
      && (forall i :: 0 <= i < |chunks| ==> Holds(i))
      && (forall i, j :: 0 <= i < j < |chunks| ==> chunks[i] != chunks[j] && chunks[i].allocs != chunks[j].allocs)
    }

    ghost function Stack(): seq<Item>
      reads `views
    {
      Joined(views)
    }

    ghost function Repr(): (r: set<object>)
      reads this
      ensures this in r && forall c :: c in chunks ==> c in r && c.allocs in r
    {
      {this as object} + OfChunks(chunks)
    }

    constructor ()
      ensures Valid() && Stack() == [] && ran == [] && fresh(Repr())
    {
      chunks, ran, views, isRecycling := [], [], [], false;
    }

    /** pushBack_List of a new chunk */
    method AddChunk()
      requires Valid() && (|chunks| > 0 ==> chunks[|chunks| - 1].count == MAX)
      modifies `chunks, `views
      ensures Valid() && fresh(Repr() - old(Repr())) && views == old(views) + [[]]
    {
      var node := new Chunk();
      chunks, views := chunks + [node], views + [[]];
      forall i | 0 <= i < |chunks| ensures Holds(i) {
        assert i < |chunks| - 1 ==> old(Holds(i));
      }
    }

    /** The last chunk takes one more item. */
    method Put(item: Item)
      requires Valid() && |chunks| > 0 && chunks[|chunks| - 1].count < MAX
      modifies `views, chunks[|chunks| - 1], chunks[|chunks| - 1].allocs
      ensures Valid() && chunks == old(chunks)
      ensures views == old(views)[|chunks| - 1 := old(views)[|chunks| - 1] + [item]]
    {
      var last := chunks[|chunks| - 1];
      assert Holds(|chunks| - 1);
      last.allocs[last.count] := item;
      last.count := last.count + 1;
      views := views[|views| - 1 := views[|views| - 1] + [item]];
      forall i | 0 <= i < |chunks| ensures Holds(i) {
        assert old(Holds(i));
        assert i < |chunks| - 1 ==> chunks[i] != last && chunks[i].allocs != last.allocs;
      }
    }

    /** The beginning of push_Collected_: a chunk is added when there is none with room. */
    method MakeRoom()
      requires Valid()
      modifies `chunks, `views
      ensures Valid() && fresh(Repr() - old(Repr())) && Joined(views) == Joined(old(views))
      ensures |chunks| > 0 && chunks[|chunks| - 1].count < MAX
    {
      hide Joined;
      JoinedEmpty();
      assert |chunks| > 0 ==> Holds(|chunks| - 1);
      if |chunks| == 0 || chunks[|chunks| - 1].count == MAX {
        JoinedOpened(views);
        AddChunk();
        assert Holds(|chunks| - 1);
      }
    }

    /** push_Collected_ */
    method Push(item: Item)
      requires Valid()
      modifies Repr()
      ensures Valid() && fresh(Repr() - old(Repr()))
      ensures Stack() == old(Stack()) + [item] && ran == old(ran)
    {
      hide Joined, Collector.Holds;
      MakeRoom();
      JoinedPut(views, item);
      Put(item);
    }

    /** popBack_List of an empty chunk */
    method DropChunk()
      requires Valid() && |chunks| > 1 && chunks[|chunks| - 1].count == 0
      modifies `chunks, `views
      ensures Valid() && Repr() <= old(Repr()) && Joined(views) == Joined(old(views))
      ensures |chunks| == old(|chunks|) - 1 && Holds(|chunks| - 1) && chunks[|chunks| - 1].count == MAX
    {
      hide Joined, OfChunks;
      assert Holds(|chunks| - 1) && Holds(|chunks| - 2);
      assert views == views[..|views| - 1] + [[]];
      JoinedOpened(views[..|views| - 1]);
      FewerChunks(chunks[..|chunks| - 1], chunks);
      chunks, views := chunks[..|chunks| - 1], views[..|views| - 1];
      forall i | 0 <= i < |chunks| ensures Holds(i) {
        assert old(Holds(i));
      }
    }

    /** popBack_GarbageNode_ of the last chunk: whether a destructor was called */
    method PopBack() returns (deleted: bool)
      requires Valid() && |chunks| > 0
      modifies `views, `ran, chunks[|chunks| - 1]
      ensures Valid() && chunks == old(chunks) && Repr() == old(Repr())
      ensures var last, was := |chunks| - 1, old(views);
              if was[last] == [] then !deleted && views == was && ran == old(ran)
              else var item := was[last][|was[last]| - 1];
                   && deleted == item.hasDel && ran == old(ran) + (if item.hasDel then [item] else [])
                   && views == was[last := was[last][..|was[last]| - 1]]
    {
      var last := chunks[|chunks| - 1];
      assert Holds(|chunks| - 1);
      if last.count > 0 {
        last.count := last.count - 1;
        var item := last.allocs[last.count];
        views := views[|views| - 1 := views[|views| - 1][..last.count]];
        ran := ran + if item.hasDel then [item] else [];
        forall i | 0 <= i < |chunks| ensures Holds(i) {
          assert old(Holds(i));
          assert i < |chunks| - 1 ==> chunks[i] != last && chunks[i].allocs != last.allocs;
        }
        return item.hasDel;
      }
      return false;
    }

    /** The beginning of pop_Collected_: an empty chunk goes away, unless it is the only one. */
    method LeaveEmptyChunk()
      requires Valid() && |chunks| > 0
      modifies `chunks, `views
      ensures Valid() && Repr() <= old(Repr()) && Joined(views) == Joined(old(views))
      ensures |chunks| > 0 && (|chunks| > 1 ==> views[|chunks| - 1] != [])
    {
      hide Joined, Collector.Repr;
      assert Holds(|chunks| - 1);
      if chunks[|chunks| - 1].count == 0 && |chunks| > 1 {
        DropChunk();
      }
    }

    /** pop_Collected_: whether a destructor was called */
    method Pop() returns (deleted: bool)
      requires Valid()
      modifies Repr()
      ensures Valid() && Repr() <= old(Repr())
      ensures var was := old(Stack());
              if was == [] then !deleted && Stack() == [] && ran == old(ran)
              else var item := was[|was| - 1];
                   && Stack() == was[..|was| - 1] && deleted == item.hasDel
                   && ran == old(ran) + if deleted then [item] else []
    {
      hide Joined, Collector.Holds, Collector.Repr;
      JoinedEmpty();
      if |chunks| == 0 {
        return false;
      }
      LeaveEmptyChunk();
      JoinedTop(views);
      deleted := PopBack();
    }

    /** endScope_Garbage */
    method EndScope()
      requires Valid()
      modifies Repr()
      ensures Valid() && Repr() <= old(Repr())
      ensures Stack() == Below(old(Stack())) && ran == old(ran) + Above(old(Stack()))
    {
      hide Collector.Valid, Collector.Repr, Collector.Stack, Below, Above;
      Unwinding(Stack());
      var deleted := Pop();
      while deleted
        invariant Valid() && Repr() <= old(Repr())
        invariant deleted ==> Below(Stack()) == Below(old(Stack()))
        invariant deleted ==> ran + Above(Stack()) == old(ran) + Above(old(Stack()))
        invariant !deleted ==> Stack() == Below(old(Stack())) && ran == old(ran) + Above(old(Stack()))
        decreases |Stack()| + if deleted then 1 else 0
      {
        Unwinding(Stack());
        deleted := Pop();
      }
    }

    /** What code with nested scopes does. The stack gains what was collected in the current scope, and everything
        that was collected further in has run. */
    method Perform(acts: seq<Act>)
      requires Valid() && forall i :: 0 <= i < |acts| ==> DelsIn(acts[i])
      modifies Repr()
      ensures Valid() && fresh(Repr() - old(Repr()))
      ensures Stack() == old(Stack()) + Direct(acts) && ran == old(ran) + Runs(acts)
      decreases acts
    {
      hide Collector.Valid, Direct, Runs;
      NothingYet(acts);
      for k := 0 to |acts|
        invariant Valid() && fresh(Repr() - old(Repr()))
        invariant Stack() == old(Stack()) + Direct(acts[..k]) && ran == old(ran) + Runs(acts[..k])
      {
        OneMore(acts, k);
        ghost var before := Repr();
        PerformOne(acts[k]);
        assert Repr() - old(Repr()) <= (Repr() - before) + (before - old(Repr()));
      }
      assert acts[..|acts|] == acts;
    }

    /** collect_Garbage, or beginScope_Garbage and endScope_Garbage around what a scope does */
    method PerformOne(act: Act)
      requires Valid() && DelsIn(act)
      modifies Repr()
      ensures Valid() && fresh(Repr() - old(Repr()))
      ensures Stack() == old(Stack()) + DirectOf(act) && ran == old(ran) + RunsOf(act)
      decreases act
    {
      hide Collector.Valid, Direct, Runs, Reversed, Below, Above;
      match act
      case Collect(item) => Push(item);
      case Scope(body) =>
        Push(MARK);
        ghost var before := Repr();
        Perform(body);
        assert Repr() - old(Repr()) <= (Repr() - before) + (before - old(Repr()));
        DirectHaveDel(body);
        ScopeRestores(old(Stack()), Direct(body));
        EndScope();
    }

    /** delete_GarbageNode_, without giving the memory back */
    method Empty(i: nat, ghost view: seq<Item>)
      requires i < |chunks| && chunks[i].allocs.Length == MAX
      requires chunks[i].count == |view| <= MAX && chunks[i].allocs[..chunks[i].count] == view
      modifies `ran, chunks[i]
      ensures ran == old(ran) + Cleared(view)
    {
      hide Cleared;
      var chunk := chunks[i];
      ClearedNothing();
      assert view[..chunk.count] == view && view[..0] == [];
      while chunk.count > 0
        invariant chunk.count <= |view| && chunk.allocs[..chunk.count] == view[..chunk.count]
        invariant ran + Cleared(view[..chunk.count]) == old(ran) + Cleared(view)
      {
        chunk.count := chunk.count - 1;
        var top := chunk.allocs[chunk.count];
        assert top == view[chunk.count];
        ClearedStep(view, chunk.count);
        Grouped(ran, if top.hasDel then [top] else [], Cleared(view[..chunk.count]));
        ran := ran + if top.hasDel then [top] else [];
      }
    }

    /** The loop of recycle_Collected_: the chunks are emptied from the newest to the oldest. */
    method EmptyAll()
      requires Valid()
      modifies `ran, chunks
      ensures chunks == old(chunks) && ran == old(ran) + Cleared(old(Stack()))
    {
      hide Joined, Cleared;
      ghost var was := views;
      var i := |chunks|;
      NothingJoined(was);
      while i > 0
        invariant 0 <= i <= |chunks|
        invariant forall k :: 0 <= k < i ==> Holds(k)
        invariant ran + Cleared(Joined(was[..i])) == old(ran) + Cleared(Joined(was))
        modifies `ran, chunks
      {
        label Before:
        i := i - 1;
        assert Holds(i);
        OneChunkMore(was, i);
        Empty(i, was[i]);
        forall k | 0 <= k < i ensures Holds(k) {
          assert old@Before(Holds(k)) && chunks[k] != chunks[i];
        }
      }
    }

    /** recycle_Collected_ */
    method Recycle()
      requires Valid()
      modifies Repr()
      ensures Valid() && isRecycling == old(isRecycling)
      ensures if old(isRecycling) then Stack() == old(Stack()) && ran == old(ran)
              else Stack() == [] && ran == old(ran) + Cleared(old(Stack()))
    {
      if !isRecycling && |chunks| != 0 {
        isRecycling := true;
        EmptyAll();
        chunks, views, isRecycling := [], [], false;
      }
    }
  }
}
