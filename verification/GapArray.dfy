/** The array of array.c: its elements lie inside a larger buffer, with free space on both sides. */
module GapArray {
  import opened Bytes

  const MIN_ALLOC: nat := 4

  // ---- Sequences ----

  function Inserted<T>(s: seq<T>, pos: nat, value: seq<T>): seq<T>
    requires pos <= |s|
  {
    s[..pos] + value + s[pos..]
  }

  function Removed<T>(s: seq<T>, pos: nat, count: nat): seq<T>
    requires pos + count <= |s|
  {
    s[..pos] + s[pos + count..]
  }

  /** imbalance_Array_, with the division of C, which truncates. */
  function Imbalance(left: nat, right: nat): int {
    if left <= MIN_ALLOC && right <= MIN_ALLOC then 0
    else if left > 2 * right then -((left - right) / 2)
    else if right > 2 * left then (right - left) / 2
    else 0
  }

  /** Removing what was inserted restores the sequence. */
  lemma RemovalUndoesInsertion<T>(s: seq<T>, pos: nat, value: seq<T>)
    requires pos <= |s|
    ensures Removed(Inserted(s, pos, value), pos, |value|) == s
  {
    assert Inserted(s, pos, value)[..pos] == s[..pos] && Inserted(s, pos, value)[pos + |value|..] == s[pos..];
  }

  /** Moving elements from one sequence to another loses none and makes none. */
  lemma MovingConserves<T>(from: seq<T>, lo: nat, hi: nat, to: seq<T>, pos: nat)
    requires lo <= hi <= |from| && pos <= |to|
    ensures multiset(Removed(from, lo, hi - lo)) + multiset(Inserted(to, pos, from[lo..hi]))
       == multiset(from) + multiset(to)
  {
    assert from == from[..lo] + from[lo..hi] + from[hi..];
    assert to == to[..pos] + to[pos..];
  }

  /** Element by element: what stands where after an insertion and after a removal */
  lemma InsertedAt<T>(s: seq<T>, pos: nat, value: seq<T>)
    requires pos <= |s|
    ensures var r := Inserted(s, pos, value);
            && |r| == |s| + |value|
            && forall i :: 0 <= i < |r| ==>
                 r[i] == if i < pos then s[i] else if i < pos + |value| then value[i - pos] else s[i - |value|]
  {
  }

  lemma RemovedAt<T>(s: seq<T>, pos: nat, count: nat)
    requires pos + count <= |s|
    ensures var r := Removed(s, pos, count);
            |r| == |s| - count && forall i :: 0 <= i < |r| ==> r[i] == if i < pos then s[i] else s[i + count]
  {
  }

  function Repeated<T>(x: T, n: nat): (s: seq<T>)
    ensures |s| == n && forall i :: 0 <= i < n ==> s[i] == x
  {
    seq(n, _ => x)
  }

  lemma EndsInserted<T>(s: seq<T>, value: seq<T>)
    ensures Inserted(s, 0, value) == value + s && Inserted(s, |s|, value) == s + value
  {
  }

  lemma NothingRemoved<T>(s: seq<T>, pos: nat)
    requires pos <= |s|
    ensures Removed(s, pos, 0) == s
  {
  }

  lemma SliceOfSlice<T>(b: seq<T>, i: nat, j: nat, lo: nat, hi: nat)
    requires i <= j <= |b| && lo <= hi <= j - i
    ensures b[i..j][lo..hi] == b[i + lo..i + hi]
  {
    var x, y := b[i..j][lo..hi], b[i + lo..i + hi];
    forall k | 0 <= k < hi - lo ensures x[k] == y[k] {
      assert x[k] == b[i..j][lo + k] == b[i + (lo + k)];
    }
  }

  lemma Glued<T>(b: seq<T>, i: nat, j: nat, k: nat, l: nat)
    requires i <= j <= k <= l <= |b|
    ensures b[i..l] == b[i..j] + b[j..k] + b[k..l]
  {
  }

  class Array<T> {
    const zero: T
    var data: array<T>
    var start: nat
    var end: nat

    ghost predicate Valid()
      reads this
    {
      start <= end <= data.Length
    }

    ghost function Elements(): (s: seq<T>)
      requires Valid()
      reads this, data
      ensures |s| == Size()
    {
      data[start..end]
    }

    function Size(): nat
      requires Valid()
      reads this
    {
      end - start
    }

    constructor (zero: T)
      ensures Valid() && Elements() == [] && this.zero == zero && fresh(data)
    {
      this.zero, start, end := zero, 0, 0;
      data := new T[0];
    }

    /** moveElements_Array_: a memmove, which may overlap */
    method MoveElements(lo: nat, hi: nat, delta: int)
      requires lo <= hi <= data.Length && 0 <= lo + delta && hi + delta <= data.Length
      modifies data
      ensures data[lo + delta..hi + delta] == old(data[lo..hi])
      ensures forall k :: 0 <= k < data.Length && !(lo + delta <= k < hi + delta) ==> data[k] == old(data[k])
    {
      if delta != 0 {
        forall k | lo <= k < hi {
          data[k + delta] := data[k];
        }
      }
    }

    /** memcpy into the buffer */
    method CopyIn(at: nat, value: seq<T>)
      requires at + |value| <= data.Length
      modifies data
      ensures data[at..at + |value|] == value
      ensures forall k :: 0 <= k < at || at + |value| <= k < data.Length ==> data[k] == old(data[k])
    {
      forall k | 0 <= k < |value| {
        data[at + k] := value[k];
      }
    }

    /** shift_Array_ */
    method Shift(delta: int)
      requires Valid() && 0 <= start + delta && end + delta <= data.Length
      modifies `start, `end, data
      ensures Valid() && start == old(start) + delta && end == old(end) + delta
      ensures Elements() == old(Elements())
    {
      if delta != 0 {
        MoveElements(start, end, delta);
        start, end := start + delta, end + delta;
      }
    }

    /** rebalance_Array_: elements that touch an end of the buffer go to its middle, if enough of it is free. */
    method Rebalance()
      requires Valid()
      modifies `start, `end, data
      ensures Valid() && Elements() == old(Elements())
      ensures if Size() > 0 && (old(start) == 0 || old(end) == data.Length) && data.Length - Size() > 4
              then -1 <= (data.Length - end) - start <= 1
              else start == old(start) && end == old(end)
    {
      if start != end {
        var imbalance := Imbalance(start, data.Length - end);
        if end == data.Length || start == 0 {
          Shift(imbalance);
        }
      }
    }

    /** reserve_Array: the size is doubled as often as needed. */
    method Reserve(reservedSize: nat)
      requires Valid()
      modifies `data
      ensures Valid() && Elements() == old(Elements())
      ensures data.Length >= reservedSize && (data == old(data) || fresh(data))
      ensures data.Length in {old(data.Length), 4} || data.Length < 2 * reservedSize
      ensures reservedSize <= old(data.Length) && old(data.Length) > 0 ==> data == old(data)
    {
      var newSize := if data.Length == 0 then MIN_ALLOC else data.Length;
      while newSize < reservedSize
        invariant newSize > 0 && newSize >= data.Length
        invariant newSize in {data.Length, MIN_ALLOC} || newSize < 2 * reservedSize
        invariant reservedSize <= data.Length && data.Length > 0 ==> newSize == data.Length
      {
        newSize := newSize * 2;
      }
      if newSize > data.Length {
        var bigger := new T[newSize](_ => zero);
        forall k | 0 <= k < data.Length {
          bigger[k] := data[k];
        }
        data := bigger;
      }
    }

    /** The elements `s` stand in the buffer at `lo`. */
    ghost predicate At(lo: nat, s: seq<T>)
      reads `data, data
    {
      lo + |s| <= data.Length && data[lo..lo + |s|] == s
    }

    /** Moves the elements before `splitPos` to the left, as far as needed and possible. */
    method OpenLeft(splitPos: nat, needed: nat, ghost left: seq<T>, ghost lo: nat,
                    ghost right: seq<T>) returns (avail: nat)
      requires start + |left| == splitPos <= lo && At(start, left) && At(lo, right)
      modifies `start, data
      ensures avail == if needed < old(start) then needed else old(start)
      ensures start == old(start) - avail && At(start, left) && At(lo, right)
    {
      avail := if needed < start then needed else start;
      var back: int := avail;
      MoveElements(start, splitPos, -back);
      start := start - avail;
    }

    /** Moves the elements behind `splitPos` to the right, as far as needed and possible. */
    method OpenRight(splitPos: nat, needed: nat, ghost left: seq<T>, ghost lo: nat,
                     ghost right: seq<T>) returns (avail: nat)
      requires lo + |left| <= splitPos && splitPos + |right| == end && At(lo, left) && At(splitPos, right)
      modifies `end, data
      ensures avail == if needed < data.Length - old(end) then needed else data.Length - old(end)
      ensures end == old(end) + avail && At(lo, left) && At(splitPos + avail, right)
    {
      avail := if needed < data.Length - end then needed else data.Length - end;
      MoveElements(splitPos, end, avail);
      end := end + avail;
    }

    /** The loop of the two-sided insertion: room is made by moving the elements before the position (side 0) or behind
        it (side 1), in the order of `part`, and what the one side lacks the other has. */
    method MakeRoom(splitPos: nat, count: nat, leftFirst: bool, ghost left: seq<T>,
                    ghost right: seq<T>) returns (pos: nat)
      requires start + |left| == splitPos && splitPos + |right| == end <= data.Length
      requires At(start, left) && At(splitPos, right) && |left| + |right| + count <= data.Length
      modifies `start, `end, data
      ensures start + |left| == pos && pos + count + |right| == end && At(start, left) && At(pos + count, right)
    {
      hide Array.At;
      ghost var b: nat := 0;
      var part := if leftFirst then (0, 1) else (1, 0);
      var needed := count;
      pos := splitPos;
      var i := 0;
      while i < 2 && needed > 0
        invariant 0 <= i <= 2 && start + |left| == pos <= splitPos
        invariant splitPos - pos + b + needed == count && end == splitPos + b + |right| <= data.Length
        invariant At(start, left) && At(splitPos + b, right)
        invariant i < (if leftFirst then 2 else 1) ==> b == 0
        invariant i < (if leftFirst then 1 else 2) ==> pos == splitPos
        invariant i > 0 && needed > 0 ==> if leftFirst then start == 0 else end == data.Length
        invariant i > 1 ==> needed == 0
      {
        var side := if i == 0 then part.0 else part.1;
        if side == 0 {
          var avail := OpenLeft(splitPos, needed, left, splitPos + b, right);
          pos, needed := pos - avail, needed - avail;
        } else {
          var avail := OpenRight(splitPos, needed, left, start, right);
          needed, b := needed - avail, avail;
        }
        i := i + 1;
      }
    }

    lemma SplitUp(at: nat)
      requires Valid() && start <= at <= end
      ensures At(start, data[start..at]) && At(at, data[at..end]) && Elements() == data[start..at] + data[at..end]
    {
    }

    method InsertInside(at: nat, value: seq<T>)
      requires Valid() && start <= at <= end && Size() + |value| <= data.Length
      modifies `start, `end, data
      ensures Valid() && Elements() == Inserted(old(Elements()), at - old(start), value)
    {
      hide Array.At;
      ghost var left, right := data[start..at], data[at..end];
      SplitUp(at);
      assert Inserted(Elements(), at - start, value) == left + value + right;
      var leftFirst := at - start <= end - at && |value| < start;
      var pos := MakeRoom(at, |value|, leftFirst, left, right);
      FillRoom(pos, value, left, right);
    }

    /** memcpy between elements that stand around the place */
    method CopyBetween(pos: nat, value: seq<T>, ghost lo: nat, ghost left: seq<T>, ghost right: seq<T>)
      requires lo + |left| == pos && pos + |value| <= data.Length && At(lo, left) && At(pos + |value|, right)
      modifies data
      ensures At(lo, left + value + right)
    {
      ghost var hi := pos + |value| + |right|;
      CopyIn(pos, value);
      assert data[lo..pos] == left && data[pos + |value|..hi] == right;
      Glued(data[..], lo, pos, pos + |value|, hi);
      assert data[..][lo..hi] == data[lo..hi];
    }

    /** The last memcpy of insertN_Array */
    method FillRoom(pos: nat, value: seq<T>, ghost left: seq<T>, ghost right: seq<T>)
      requires start + |left| == pos && pos + |value| + |right| == end && At(start, left) && At(pos + |value|, right)
      modifies data
      ensures Valid() && Elements() == left + value + right
    {
      CopyBetween(pos, value, start, left, right);
    }

    method InsertAtEnd(value: seq<T>)
      requires Valid() && Size() + |value| <= data.Length
      modifies `start, `end, data
      ensures Valid() && Elements() == old(Elements()) + value
    {
      hide Array.At, Array.Elements;
      if end + |value| > data.Length {
        Shift(data.Length - end - |value|);
      }
      ghost var all := Elements();
      WholeAt();
      CopyBetween(end, value, start, all, []);
      end := end + |value|;
      WholeIs(all + value + []);
    }

    method InsertAtStart(value: seq<T>)
      requires Valid() && Size() + |value| <= data.Length
      modifies `start, `end, data
      ensures Valid() && Elements() == value + old(Elements())
    {
      hide Array.At, Array.Elements, Array.Valid;
      if start < |value| {
        Shift(|value| - start);
      }
      ghost var all := Elements();
      WholeAt();
      start := start - |value|;
      CopyBetween(start, value, start, [], all);
      WholeIs([] + value + all);
    }

    /** The elements stand at the start, and nothing stands anywhere. */
    lemma WholeAt()
      requires Valid()
      ensures At(start, Elements())
      ensures forall k: nat :: k <= data.Length ==> At(k, [])
    {
    }

    lemma WholeIs(s: seq<T>)
      requires At(start, s) && start + |s| == end
      ensures Valid() && Elements() == s
    {
    }

    /** insertN_Array */
    method InsertN(pos: nat, value: seq<T>)
      requires Valid() && (value != [] ==> pos <= Size())
      modifies this, data
      ensures Valid() && (data == old(data) || fresh(data))
      ensures Elements() == if value == [] then old(Elements()) else Inserted(old(Elements()), pos, value)
    {
      hide Array.Elements, Inserted;
      if |value| == 0 {
        return;
      }
      Reserve(Size() + |value|);
      assert Elements() == old(Elements());
      EndsInserted(Elements(), value);
      var at := pos + start;
      if at == end {
        InsertAtEnd(value);
      } else if at == start {
        InsertAtStart(value);
      } else {
        InsertInside(at, value);
      }
      Rebalance();
    }

    /** removeN_Array. No count, the source's iInvalidSize, is everything behind the position. */
    method RemoveN(pos: nat, count: Option<nat>)
      requires Valid()
      requires count != Some(0) ==> pos < Size() && (count.Some? ==> pos + count.value <= Size())
      modifies this, data
      ensures Valid() && data == old(data)
      ensures Elements() == if count == Some(0) then old(Elements())
                            else Removed(old(Elements()), pos, if count.Some? then count.value else old(Size()) - pos)
    {
      if count == Some(0) {
        return;
      }
      var n := if count.Some? then count.value else Size() - pos;
      var at := pos + start;
      if at == end - n {
        end := end - n;
      } else if at == start {
        start := start + n;
      } else if at - start > end - at {
        RemoveFromEnd(at, n);
      } else {
        RemoveFromStart(at, n);
      }
    }

    /** The elements behind the removed ones move back. */
    method RemoveFromEnd(at: nat, n: nat)
      requires Valid() && start <= at && at + n <= end
      modifies `end, data
      ensures Valid() && Elements() == Removed(old(Elements()), at - start, n)
    {
      hide Array.At, Array.Elements;
      ghost var left, right := data[start..at], data[at + n..end];
      RestParts(at, n);
      var back: int := n;
      MoveApart(at + n, end, -back, left, right);
      end := end - n;
      Together(left, right);
    }

    /** The elements before the removed ones move forward. */
    method RemoveFromStart(at: nat, n: nat)
      requires Valid() && start <= at && at + n <= end
      modifies `start, data
      ensures Valid() && Elements() == Removed(old(Elements()), at - old(start), n)
    {
      hide Array.At, Array.Elements;
      ghost var left, right := data[start..at], data[at + n..end];
      RestParts(at, n);
      MoveUp(at, n, left, right);
      Together(left, right);
    }

    method MoveUp(at: nat, n: nat, ghost left: seq<T>, ghost right: seq<T>)
      requires start + |left| == at && At(start, left) && At(at + n, right)
      modifies `start, data
      ensures start == old(start) + n && At(start, left) && At(at + n, right)
    {
      MoveElements(start, at, n);
      start := start + n;
    }

    lemma RestParts(at: nat, n: nat)
      requires Valid() && start <= at && at + n <= end
      ensures At(start, data[start..at]) && At(at + n, data[at + n..end])
      ensures Removed(Elements(), at - start, n) == data[start..at] + data[at + n..end]
    {
      SliceOfSlice(data[..], start, end, 0, at - start);
      SliceOfSlice(data[..], start, end, at - start + n, end - start);
      assert Elements()[0..at - start] == Elements()[..at - start];
      assert Elements()[at - start + n..end - start] == Elements()[at - start + n..];
    }

    lemma Together(left: seq<T>, right: seq<T>)
      requires Valid() && start + |left| + |right| == end && At(start, left) && At(start + |left|, right)
      ensures Elements() == left + right
    {
      assert data[..][start..start + |left|] == left && data[..][start + |left|..end] == right;
    }

    method Shorten(size: nat)
      requires Valid() && size <= Size()
      modifies `end
      ensures Valid() && Elements() == old(Elements())[..size]
    {
      end := start + size;
    }

    /** resize_Array: new elements are zero. */
    method Resize(size: nat)
      requires Valid()
      modifies this, data
      ensures Valid() && (data == old(data) || fresh(data)) && Size() == size
      ensures Elements() == if size <= |old(Elements())| then old(Elements())[..size]
                            else old(Elements()) + Repeated(zero, size - |old(Elements())|)
    {
      hide Array.Elements, Repeated;
      var oldSize := Size();
      if size <= oldSize {
        Shorten(size);
        return;
      }
      Reserve(size);
      assert Elements() == old(Elements());
      if start + size > data.Length {
        Shift((data.Length - size) / 2 - start);
      }
      AddZeros(size - oldSize);
    }

    /** The memset of resize_Array */
    method AddZeros(n: nat)
      requires Valid() && end + n <= data.Length
      modifies `end, data
      ensures Valid() && Elements() == old(Elements()) + Repeated(zero, n)
    {
      CopyIn(end, Repeated(zero, n));
      end := end + n;
    }

    /** clear_Array */
    method Clear()
      requires Valid()
      modifies this
      ensures Valid() && data == old(data) && Elements() == [] && start == data.Length / 2
    {
      start, end := data.Length / 2, data.Length / 2;
    }

    /** setN_Array */
    method SetN(pos: nat, value: seq<T>)
      requires Valid() && pos + |value| <= Size()
      modifies data
      ensures Valid() && Elements() == old(Elements())[..pos] + value + old(Elements())[pos + |value|..]
    {
      ghost var left, right := Elements()[..pos], Elements()[pos + |value|..];
      assert At(start, left) && At(start + pos + |value|, right);
      FillRoom(start + pos, value, left, right);
    }

    method Copied(lo: nat, hi: nat) returns (value: seq<T>)
      requires Valid() && lo <= hi <= Size()
      ensures value == Elements()[lo..hi]
    {
      value := data[start + lo..start + hi];
      SliceOfSlice(data[..], start, end, lo, hi);
    }

    /** takeN_Array. No position is the source's iInvalidPos. */
    method TakeN(pos: Option<nat>, count: nat) returns (taken: seq<T>)
      requires Valid() && (pos.Some? ==> pos.value < Size())
      modifies this, data
      ensures Valid() && data == old(data)
      ensures pos.None? ==> taken == [] && Elements() == old(Elements())
      ensures pos.Some? ==>
                var n := if count < old(Size()) - pos.value then count else old(Size()) - pos.value;
                && taken == old(Elements())[pos.value..pos.value + n]
                && Elements() == Removed(old(Elements()), pos.value, n)
    {
      hide Array.At, Array.Elements;
      if pos.None? {
        return [];
      }
      var n := if count < Size() - pos.value then count else Size() - pos.value;
      taken := Copied(pos.value, pos.value + n);
      RemoveN(pos.value, Some(n));
    }

    /** popBackN_Array */
    method PopBackN(count: nat) returns (popped: nat)
      requires Valid()
      modifies this, data
      ensures Valid() && data == old(data) && popped == if count < old(Size()) then count else old(Size())
      ensures Elements() == old(Elements())[..old(Size()) - popped]
    {
      popped := if count < Size() then count else Size();
      RemoveN(Size() - popped, Some(popped));
    }

    /** popFrontN_Array */
    method PopFrontN(count: nat) returns (popped: nat)
      requires Valid()
      modifies this, data
      ensures Valid() && data == old(data) && popped == if count < old(Size()) then count else old(Size())
      ensures Elements() == old(Elements())[popped..]
    {
      popped := if count < Size() then count else Size();
      RemoveN(0, Some(popped));
    }

    /** move_Array: the elements from `lo` to `hi` go to another array. */
    method Move(lo: nat, hi: nat, dest: Array<T>, destPos: nat)
      requires Valid() && dest.Valid() && dest != this && dest.data != data
      requires lo <= hi <= Size() && destPos <= dest.Size()
      modifies this, data, dest, dest.data
      ensures Valid() && dest.Valid() && data == old(data) && (dest.data == old(dest.data) || fresh(dest.data))
      ensures Elements() == Removed(old(Elements()), lo, hi - lo)
      ensures dest.Elements() == Inserted(old(dest.Elements()), destPos, old(Elements())[lo..hi])
    {
      hide Array.Elements, Inserted, Removed;
      var count, oldSize := hi - lo, dest.Size();
      NothingRemoved(Elements(), lo);
      dest.Resize(oldSize + count);
      assert Elements() == old(Elements());
      var value := Copied(lo, hi);
      dest.MoveIn(destPos, oldSize, value, old(dest.Elements()));
      RemoveN(lo, Some(count));
    }

    /** The memmove and memcpy of move_Array, after the destination has been resized. */
    method MoveIn(destPos: nat, oldSize: nat, value: seq<T>, ghost was: seq<T>)
      requires Valid() && destPos <= oldSize == |was| && oldSize + |value| == Size() && Elements()[..oldSize] == was
      modifies data
      ensures Valid() && Elements() == Inserted(was, destPos, value)
    {
      ghost var left, right := was[..destPos], was[destPos..];
      AtParts(destPos, oldSize, was);
      hide Array.At, Array.Elements;
      MoveApart(start + destPos, start + oldSize, |value|, left, right);
      FillRoom(start + destPos, value, left, right);
    }

    lemma AtParts(pos: nat, size: nat, was: seq<T>)
      requires Valid() && pos <= size == |was| <= Size() && Elements()[..size] == was
      ensures At(start, was[..pos]) && At(start + pos, was[pos..])
    {
      SliceOfSlice(data[..], start, end, 0, pos);
      SliceOfSlice(data[..], start, end, pos, size);
      assert Elements()[0..pos] == was[..pos] && Elements()[pos..size] == was[pos..];
    }

    method MoveApart(lo: nat, hi: nat, n: int, ghost left: seq<T>, ghost right: seq<T>)
      requires start + |left| <= lo && start + |left| <= lo + n && lo + |right| == hi && hi + n <= data.Length &&
              At(start, left) && At(lo, right)
      modifies data
      ensures At(start, left) && At(lo + n, right)
    {
      MoveElements(lo, hi, n);
    }
  }
}
