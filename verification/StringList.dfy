/** The list of stringlist.c: one sequence of strings, kept in a list of nodes of bounded size. */
module StringList {
  import opened Sequences

  const MAX: nat := 512

  // ---- The sequence and its nodes ----

  lemma {:induction false} JoinedApart<T>(a: seq<seq<T>>, b: seq<seq<T>>)
    ensures Joined(a + b) == Joined(a) + Joined(b)
  {
    if b == [] {
      assert a + b == a;
    } else {
      JoinedApart(a, b[..|b| - 1]);
      assert (a + b)[..|a + b| - 1] == a + b[..|b| - 1];
    }
  }

  lemma JoinedOne<T>(part: seq<T>)
    ensures Joined([part]) == part
  {
    assert [part][..0] == [];
  }

  /** The nodes before the one at `i`, that node, and the nodes behind it. */
  lemma JoinedAround<T>(parts: seq<seq<T>>, i: nat)
    requires i < |parts|
    ensures Joined(parts) == Joined(parts[..i]) + parts[i] + Joined(parts[i + 1..])
    ensures Joined(parts[..i + 1]) == Joined(parts[..i]) + parts[i]
  {
    hide Joined;
    var a, b := parts[..i + 1], parts[i + 1..];
    assert parts == a + b;
    JoinedApart(a, b);
    JoinedLast(parts, i);
  }

  lemma Nothing<T>(parts: seq<seq<T>>)
    ensures Joined(parts[..0]) == [] && parts[..|parts|] == parts && (Joined(parts) != [] ==> parts != [])
  {
  }

  /** From the beginning of a node to its end */
  lemma Step<T>(parts: seq<seq<T>>, i: nat)
    requires i < |parts|
    ensures |Joined(parts[..i + 1])| == |Joined(parts[..i])| + |parts[i]| <= |Joined(parts)|
    ensures i + 1 == |parts| ==> Joined(parts[..i + 1]) == Joined(parts)
  {
    JoinedAround(parts, i);
    assert parts[..|parts|] == parts;
  }

  predicate Bounded<T>(parts: seq<seq<T>>) {
    forall i :: 0 <= i < |parts| ==> |parts[i]| <= 512
  }

  // ---- What the operations do to the parts ----

  /** A node is replaced by others with the same strings in all. */
  lemma JoinedReplaced<T>(parts: seq<seq<T>>, i: nat, j: nat, now: seq<seq<T>>)
    requires i <= j <= |parts| && Joined(now) == Joined(parts[i..j])
    ensures Joined(parts[..i] + now + parts[j..]) == Joined(parts)
  {
    assert parts == parts[..i] + parts[i..j] + parts[j..];
    JoinedApart(parts[..i] + parts[i..j], parts[j..]);
    JoinedApart(parts[..i], parts[i..j]);
    JoinedApart(parts[..i] + now, parts[j..]);
    JoinedApart(parts[..i], now);
  }

  function Halves<T>(part: seq<T>): seq<seq<T>> {
    [part[..|part| / 2], part[|part| / 2..]]
  }

  lemma JoinedTwo<T>(a: seq<T>, b: seq<T>)
    ensures Joined([a, b]) == a + b
  {
    assert [a, b][..1] == [a];
    JoinedOne(a);
  }

  lemma JoinedHalves<T>(part: seq<T>)
    ensures Joined(Halves(part)) == part
  {
    hide Joined;
    var h := |part| / 2;
    JoinedTwo(part[..h], part[h..]);
  }

  lemma TwoHalves<T>(parts: seq<seq<T>>, i: nat)
    requires i < |parts|
    ensures Joined(parts[..i] + Halves(parts[i]) + parts[i + 1..]) == Joined(parts)
  {
    hide Joined, Halves;
    JoinedHalves(parts[i]);
    JoinedOne(parts[i]);
    assert parts[i..i + 1] == [parts[i]];
    JoinedReplaced(parts, i, i + 1, Halves(parts[i]));
  }

  lemma HalvesBounded<T>(parts: seq<seq<T>>, i: nat)
    requires i < |parts| && |parts[i]| == 513
    requires forall j :: 0 <= j < |parts| && j != i ==> |parts[j]| <= 512
    ensures var now := parts[..i] + Halves(parts[i]) + parts[i + 1..];
            Bounded(now) && |now[i]| == 256 && |now[i + 1]| == 257
  {
  }

  lemma OneWhole<T>(parts: seq<seq<T>>, i: nat)
    requires i + 1 < |parts|
    ensures Joined(parts[..i] + [parts[i] + parts[i + 1]] + parts[i + 2..]) == Joined(parts)
  {
    hide Joined;
    assert parts[i..i + 2] == [parts[i], parts[i + 1]];
    JoinedTwo(parts[i], parts[i + 1]);
    JoinedOne(parts[i] + parts[i + 1]);
    JoinedReplaced(parts, i, i + 2, [parts[i] + parts[i + 1]]);
  }

  /** A string goes into, or comes out of, the node at `i`. */
  lemma JoinedInsert<T>(parts: seq<seq<T>>, i: nat, at: nat, str: T)
    requires i < |parts| && at <= |parts[i]|
    ensures var p, all := |Joined(parts[..i])| + at, Joined(parts);
            p <= |all| && Joined(parts[i := parts[i][..at] + [str] + parts[i][at..]]) == all[..p] + [str] + all[p..]
  {
    hide Joined;
    var now := parts[i := parts[i][..at] + [str] + parts[i][at..]];
    JoinedAround(parts, i);
    JoinedAround(now, i);
    assert now[..i] == parts[..i] && now[i + 1..] == parts[i + 1..];
  }

  lemma JoinedTake<T>(parts: seq<seq<T>>, i: nat, at: nat)
    requires i < |parts| && at < |parts[i]|
    ensures var p, all := |Joined(parts[..i])| + at, Joined(parts);
            p < |all| && all[p] == parts[i][at] &&
            Joined(parts[i := parts[i][..at] + parts[i][at + 1..]]) == all[..p] + all[p + 1..]
  {
    hide Joined;
    var now := parts[i := parts[i][..at] + parts[i][at + 1..]];
    JoinedAround(parts, i);
    JoinedAround(now, i);
    assert now[..i] == parts[..i] && now[i + 1..] == parts[i + 1..];
  }

  class Node<T> {
    var strings: seq<T>

    constructor ()
      ensures strings == []
    {
      strings := [];
    }
  }

  class List<T> {
    var nodes: seq<Node<T>>
    var size: nat

    ghost predicate Distinct()
      reads `nodes
    {
      forall i, j :: 0 <= i < j < |nodes| ==> nodes[i] != nodes[j]
    }

    ghost function Parts(): (p: seq<seq<T>>)
      reads `nodes, nodes
      ensures |p| == |nodes| && forall i :: 0 <= i < |p| ==> p[i] == nodes[i].strings
    {
      var ns := nodes;
      seq(|ns|, i requires 0 <= i < |ns| reads ns => ns[i].strings)
    }

    ghost predicate Valid()
      reads this, nodes
    {
      Distinct() && Bounded(Parts()) && size == |Joined(Parts())|
    }

    ghost function Strings(): seq<T>
      reads `nodes, nodes
    {
      Joined(Parts())
    }

    constructor ()
      ensures Valid() && Strings() == [] && nodes == []
    {
      nodes, size := [], 0;
    }

    /** locateNode_StringList_: the node that holds the string at `pos`, and the position of its first string */
    method LocateNode(pos: nat) returns (node: nat, start: nat)
      requires Valid() && pos < size
      ensures node < |nodes| && start == |Joined(Parts()[..node])|
      ensures start <= pos < start + |nodes[node].strings|
      ensures Strings()[pos] == nodes[node].strings[pos - start]
    {
      hide Joined, List.Parts;
      ghost var parts := Parts();
      Nothing(parts);
      var forwards := pos < size / 2;
      node := if forwards then 0 else |nodes| - 1;
      Step(parts, node);
      start := if forwards then 0 else size - |nodes[node].strings|;
      var end := start + |nodes[node].strings|;
      while !(start <= pos < end)
        invariant node < |nodes| && start == |Joined(parts[..node])| && end == start + |nodes[node].strings|
        invariant if forwards then start <= pos else pos < end
        decreases if forwards then |nodes| - node else node
      {
        if forwards {
          Step(parts, node);
          start, node := end, node + 1;
          end := start + |nodes[node].strings|;
        } else {
          Step(parts, node - 1);
          end, node := start, node - 1;
          start := end - |nodes[node].strings|;
        }
      }
      JoinedAround(parts, node);
    }

    /** The node at `i` keeps the first half of its strings, and a new node behind it gets the others. */
    method Halve(i: nat)
      requires Distinct() && i < |nodes|
      modifies `nodes, nodes[i]
      ensures Distinct() && |nodes| == old(|nodes|) + 1
      ensures var was := old(Parts()); Parts() == was[..i] + Halves(was[i]) + was[i + 1..]
      ensures forall n :: n in nodes ==> n in old(nodes) || fresh(n)
    {
      hide List.Parts;
      var node := nodes[i];
      var count := |node.strings|;
      var half := new Node<T>();
      half.strings := node.strings[count / 2..];
      node.strings := node.strings[..count / 2];
      nodes := nodes[..i + 1] + [half] + nodes[i + 1..];
    }

    /** splitNode_StringList_ */
    method SplitNode(i: nat)
      requires Distinct() && i < |nodes| && |nodes[i].strings| <= 513
      requires forall j :: 0 <= j < |nodes| && j != i ==> |nodes[j].strings| <= 512
      modifies `nodes, nodes[i]
      ensures Distinct() && Bounded(Parts()) && Strings() == old(Strings())
      ensures forall n :: n in nodes ==> n in old(nodes) || fresh(n)
      ensures if old(|nodes[i].strings|) <= 512 then nodes == old(nodes)
              else |nodes| == old(|nodes|) + 1 && |nodes[i].strings| == 256 && |nodes[i + 1].strings| == 257
    {
      hide Joined, List.Parts, List.Distinct;
      ghost var parts := Parts();
      if |nodes[i].strings| > MAX {
        Halve(i);
        TwoHalves(parts, i);
        HalvesBounded(parts, i);
      }
    }

    /** mergeIntoAndRemoveNode_StringList_ */
    method MergeIntoAndRemoveNode(from: nat, to: nat)
      requires Distinct() && from < |nodes| && to < |nodes| && (to == from + 1 || from == to + 1)
      modifies `nodes, nodes[to]
      ensures Distinct() && Strings() == old(Strings()) && nodes == old(nodes[..from] + nodes[from + 1..])
      ensures |old(nodes)[to].strings| == old(|nodes[from].strings| + |nodes[to].strings|)
    {
      hide Joined, List.Parts;
      ghost var parts := Parts();
      var target := nodes[to];
      target.strings := if from == to + 1 then target.strings + nodes[from].strings
          else nodes[from].strings + target.strings;
      nodes := nodes[..from] + nodes[from + 1..];
      ghost var low := if from < to then from else to;
      assert Parts() == parts[..low] + [parts[low] + parts[low + 1]] + parts[low + 2..];
      OneWhole(parts, low);
    }

    /** There is such a node, and it is less than half full. */
    predicate Small(i: int)
      reads `nodes, nodes
    {
      0 <= i < |nodes| && |nodes[i].strings| < 256
    }

    /** Less than half full, with a neighbour that also is */
    ghost predicate Merges(i: int)
      reads `nodes, nodes
    {
      Small(i) && (Small(i + 1) || Small(i - 1))
    }

    /** mergeNode_StringList_ */
    method MergeNode(i: nat)
      requires Distinct() && Bounded(Parts()) && i < |nodes|
      modifies `nodes, nodes
      ensures Distinct() && Bounded(Parts()) && Strings() == old(Strings())
      ensures forall n :: n in nodes ==> n in old(nodes)
      ensures |nodes| == old(|nodes|) - (if old(Merges(i)) then 1 else 0) &&
              (!old(Merges(i)) ==> Parts() == old(Parts()))
    {
      if Small(i) {
        for side := 0 to 2
          invariant nodes == old(nodes) && Parts() == old(Parts())
          invariant side > 0 ==> !Small(i + 1)
          invariant side > 1 ==> !Small(i - 1)
        {
          var adjacent := if side == 0 then i + 1 else i - 1;
          if Small(adjacent) {
            MergeIntoAndRemoveNode(i, adjacent);
            return;
          }
        }
      }
    }

    /** What insert_StringList, pushBack_StringList and pushFront_StringList do once the node is known */
    method Put(i: nat, at: nat, str: T)
      requires Valid() && i < |nodes| && at <= |nodes[i].strings|
      modifies this, nodes
      ensures Valid() && forall n :: n in nodes ==> n in old(nodes) || fresh(n)
      ensures var p, was := old(|Joined(Parts()[..i])|) + at, old(Strings());
              p <= |was| && Strings() == was[..p] + [str] + was[p..]
    {
      hide Joined, List.Parts;
      ghost var parts := Parts();
      JoinedInsert(parts, i, at, str);
      var node := nodes[i];
      node.strings := node.strings[..at] + [str] + node.strings[at..];
      ghost var now := parts[i := parts[i][..at] + [str] + parts[i][at..]];
      size := size + 1;
      assert Parts() == now;
      SplitNode(i);
    }

    /** insert_StringList, with pushFront_StringList and pushBack_StringList for its ends */
    method Insert(pos: nat, str: T)
      requires Valid()
      modifies this, nodes
      ensures Valid() && forall n :: n in nodes ==> n in old(nodes) || fresh(n)
      ensures var was := old(Strings());
              Strings() == if pos <= |was| then was[..pos] + [str] + was[pos..] else was + [str]
    {
      hide Joined, List.Parts;
      if pos == 0 {
        PushFront(str);
      } else if pos >= size {
        PushBack(str);
      } else {
        var node, start := LocateNode(pos);
        Put(node, pos - start, str);
      }
    }

    method PushBack(str: T)
      requires Valid()
      modifies this, nodes
      ensures Valid() && forall n :: n in nodes ==> n in old(nodes) || fresh(n)
      ensures Strings() == old(Strings()) + [str]
    {
      hide Joined, List.Parts;
      if |nodes| == 0 {
        AddNode();
      }
      Step(Parts(), |nodes| - 1);
      Put(|nodes| - 1, |nodes[|nodes| - 1].strings|, str);
    }

    method PushFront(str: T)
      requires Valid()
      modifies this, nodes
      ensures Valid() && forall n :: n in nodes ==> n in old(nodes) || fresh(n)
      ensures Strings() == [str] + old(Strings())
    {
      hide Joined, List.Parts;
      if |nodes| == 0 {
        AddNode();
      }
      Nothing(Parts());
      Put(0, 0, str);
    }

    /** backNode_StringList_ and frontNode_StringList_ of an empty list */
    method AddNode()
      requires Valid() && |nodes| == 0
      modifies `nodes
      ensures Valid() && |nodes| == 1 && fresh(nodes[0]) && Strings() == old(Strings())
    {
      var node := new Node<T>();
      nodes := [node];
      assert Parts() == [[]];
      JoinedOne<T>([]);
    }

    /** take_StringArray of one node */
    method TakeFrom(i: nat, at: nat) returns (str: T)
      requires Distinct() && i < |nodes| && at < |nodes[i].strings|
      modifies nodes[i]
      ensures var was := old(Parts());
              str == was[i][at] && Parts() == was[i := was[i][..at] + was[i][at + 1..]]
    {
      hide List.Parts;
      var node := nodes[i];
      str := node.strings[at];
      node.strings := node.strings[..at] + node.strings[at + 1..];
    }

    /** take_StringList */
    method Take(pos: nat) returns (str: T)
      requires Valid() && pos < size
      modifies this, nodes
      ensures Valid() && forall n :: n in nodes ==> n in old(nodes)
      ensures str == old(Strings())[pos] && Strings() == old(Strings())[..pos] + old(Strings())[pos + 1..]
    {
      hide Joined, List.Parts, List.Merges, List.Distinct;
      var i, start := LocateNode(pos);
      JoinedTake(Parts(), i, pos - start);
      str := TakeFrom(i, pos - start);
      MergeNode(i);
      size := size - 1;
    }
  }
}
