/** The order in which Punycode inserts the extended code points (section 6.1 to 6.3 of RFC 3492),
    on unbounded numbers: what a list of deltas builds, and which deltas build a given array. */
module PunyInsert {
  import opened Arith
  import opened Bytes
  import opened PunyNumbers
  import opened Sequences

  /** State of the decoder: the code points so far, the current code point, and where the search
      for the next place goes on. */
  datatype State = State(arr: seq<nat>, n: nat, i: nat)

  function InsertAt(s: seq<nat>, pos: nat, x: nat): (r: seq<nat>)
    requires pos <= |s|
    ensures |r| == |s| + 1
  {
    s[..pos] + [x] + s[pos..]
  }

  /** One turn of the main loop of decode_, after its integer has been read. */
  function Step(st: State, delta: nat): State {
    var len := |st.arr| + 1;
    var total := st.i + delta;
    var n' := st.n + total / len;
    State(InsertAt(st.arr, total % len, n'), n', total % len + 1)
  }

  function Run(st: State, deltas: seq<nat>): State {
    if deltas == [] then st
    else Step(Run(st, deltas[..|deltas| - 1]), deltas[|deltas| - 1])
  }

  /** The code points below `n`, in their order. */
  function Below(a: seq<nat>, n: nat): (r: seq<nat>)
    ensures |r| <= |a|
    ensures forall i :: 0 <= i < |r| ==> r[i] < n
  {
    if a == [] then []
    else
      var init, last := a[..|a| - 1], a[|a| - 1];
      if last < n then Below(init, n) + [last] else Below(init, n)
  }

  function Start(basics: seq<nat>): State {
    State(basics, INITIAL_N, 0)
  }

  // ---- The deltas of an array ----

  predicate HasExtended(a: seq<nat>) {
    exists i :: 0 <= i < |a| && a[i] >= INITIAL_N
  }

  /** The last one to be inserted: the greatest code point, and of equal ones the rightmost. */
  predicate IsLast(a: seq<nat>, p: nat) {
    && p < |a| && a[p] >= INITIAL_N
    && forall i :: 0 <= i < |a| ==> a[i] <= a[p] && (i > p ==> a[i] < a[p])
  }

  function LastMax(a: seq<nat>): (p: nat)
    requires HasExtended(a)
    ensures IsLast(a, p)
  {
    var m := |a| - 1;
    if HasExtended(a[..m]) then
      var p := LastMax(a[..m]);
      if a[m] >= a[p] then m else p
    else m
  }

  /** Where the decoder stands when it has just finished the array. */
  function Front(a: seq<nat>): (f: (nat, nat))
    ensures f.0 >= INITIAL_N && f.1 <= |a|
  {
    if HasExtended(a) then (a[LastMax(a)], LastMax(a) + 1) else (INITIAL_N, 0)
  }

  /** The distance from where the decoder stands in `prev` to inserting `n` at `pos`. */
  function Distance(prev: seq<nat>, n: nat, pos: nat): int {
    (n - Front(prev).0) * (|prev| + 1) + pos - Front(prev).1
  }

  /** The one inserted before comes earlier in the order. */
  lemma FrontBefore(a: seq<nat>, p: nat)
    requires IsLast(a, p)
    ensures var (n, i) := Front(Without(a, p)); n <= a[p] && (n == a[p] ==> i <= p)
    ensures Distance(Without(a, p), a[p], p) >= 0
  {
    var prev := Without(a, p);
    var (n, i) := Front(prev);
    assert n <= a[p] && (n == a[p] ==> i <= p) by {
      if HasExtended(prev) {
        var r := LastMax(prev);
        assert prev[r] == if r < p then a[r] else a[r + 1];
      }
    }
    hide HasExtended, Front, LastMax;
    if n < a[p] {
      MulMono(|prev| + 1, 1, a[p] - n);
      assert (a[p] - n) * (|prev| + 1) == (|prev| + 1) * (a[p] - n);
    }
  }

  /** The deltas that build an array, from the last insertion backwards. */
  function DeltasOf(a: seq<nat>): (d: seq<nat>)
    ensures |d| <= |a|
  {
    if HasExtended(a) then
      var p := LastMax(a);
      var prev := Without(a, p);
      FrontBefore(a, p);
      DeltasOf(prev) + [Distance(prev, a[p], p)]
    else []
  }

  lemma LastUnique(a: seq<nat>, p: nat, q: nat)
    requires IsLast(a, p) && IsLast(a, q)
    ensures p == q
  {
  }

  /** Adding a code point that comes last in the order adds exactly one delta at the end. */
  lemma DeltasAppend(l: seq<nat>, n: nat, r: seq<nat>)
    requires n >= INITIAL_N
    requires (forall i :: 0 <= i < |l| ==> l[i] <= n) && (forall i :: 0 <= i < |r| ==> r[i] < n)
    ensures Distance(l + r, n, |l|) >= 0
    ensures DeltasOf(l + [n] + r) == DeltasOf(l + r) + [Distance(l + r, n, |l|)]
    ensures Front(l + [n] + r) == (n, |l| + 1)
  {
    LastAppend(l, n, r);
    hide *;
    DeltasLast(l + [n] + r, |l|, l + r, n);
  }

  lemma DeltasLast(a: seq<nat>, p: nat, prev: seq<nat>, n: nat)
    requires HasExtended(a) && IsLast(a, p) && LastMax(a) == p && a[p] == n && Without(a, p) == prev
    ensures Distance(prev, n, p) >= 0
    ensures DeltasOf(a) == DeltasOf(prev) + [Distance(prev, n, p)]
    ensures Front(a) == (n, p + 1)
  {
    hide Distance, LastMax, HasExtended, IsLast, Without;
    FrontBefore(a, p);
  }

  lemma LastAppend(l: seq<nat>, n: nat, r: seq<nat>)
    requires n >= INITIAL_N
    requires (forall i :: 0 <= i < |l| ==> l[i] <= n) && (forall i :: 0 <= i < |r| ==> r[i] < n)
    ensures var a := l + [n] + r;
            && HasExtended(a) && IsLast(a, |l|) && LastMax(a) == |l|
            && a[|l|] == n && Without(a, |l|) == l + r
  {
    hide LastMax;
    var a := l + [n] + r;
    assert a[|l|] == n;
    LastUnique(a, |l|, LastMax(a));
  }

  // ---- Building the array ----

  lemma {:induction false} BelowAppend(a: seq<nat>, b: seq<nat>, n: nat)
    ensures Below(a + b, n) == Below(a, n) + Below(b, n)
  {
    if b == [] {
      assert a + b == a;
    } else {
      var init := b[..|b| - 1];
      assert (a + b)[..|a + b| - 1] == a + init;
      BelowAppend(a, init, n);
    }
  }

  lemma {:induction false} BelowAll(a: seq<nat>, n: nat)
    requires forall i :: 0 <= i < |a| ==> a[i] < n
    ensures Below(a, n) == a
  {
    if a != [] {
      BelowAll(a[..|a| - 1], n);
    }
  }

  lemma BelowOne(x: nat, n: nat)
    ensures Below([x], n) == if x < n then [x] else []
  {
    assert [x][..0] == [];
  }

  /** Inserting an extended code point does not touch the basic ones. */
  lemma BasicsInsert(s: seq<nat>, pos: nat, x: nat)
    requires pos <= |s| && x >= INITIAL_N
    ensures Below(InsertAt(s, pos, x), INITIAL_N) == Below(s, INITIAL_N)
  {
    var l, r := s[..pos], s[pos..];
    assert s == l + r;
    BelowSkip(l, x, r);
  }

  lemma BelowSkip(l: seq<nat>, x: nat, r: seq<nat>)
    requires x >= INITIAL_N
    ensures Below(l + [x] + r, INITIAL_N) == Below(l + r, INITIAL_N)
  {
    hide Below;
    BelowAppend(l + [x], r, INITIAL_N);
    BelowAppend(l, [x], INITIAL_N);
    BelowOne(x, INITIAL_N);
    BelowAppend(l, r, INITIAL_N);
    assert Below(l, INITIAL_N) + [] == Below(l, INITIAL_N);
  }

  /** The deltas of an array, run from its basic code points, build the array. */
  lemma {:induction false} RunDeltas(a: seq<nat>)
    ensures Run(Start(Below(a, INITIAL_N)), DeltasOf(a)) == State(a, Front(a).0, Front(a).1)
  {
    hide Step, Distance, LastMax;
    if HasExtended(a) {
      var p := LastMax(a);
      var prev := Without(a, p);
      RunDeltas(prev);
      InsertWithout(a, p);
      BasicsInsert(prev, p, a[p]);
      FrontBefore(a, p);
      assert DeltasOf(a)[..|DeltasOf(a)| - 1] == DeltasOf(prev);
      StepDistance(prev, a[p], p);
    } else {
      BelowAll(a, INITIAL_N);
    }
  }

  lemma InsertWithout(a: seq<nat>, p: nat)
    requires p < |a|
    ensures InsertAt(Without(a, p), p, a[p]) == a
  {
  }

  /** What every state of a run satisfies. */
  ghost predicate Settled(st: State) {
    && st.n >= INITIAL_N && st.i <= |st.arr|
    && (forall j :: 0 <= j < |st.arr| ==> st.arr[j] <= st.n && (j >= st.i ==> st.arr[j] < st.n))
  }

  lemma StepSettled(st: State, delta: nat)
    requires Settled(st) && Front(st.arr) == (st.n, st.i)
    ensures var st' := Step(st, delta);
            && Settled(st') && Front(st'.arr) == (st'.n, st'.i)
            && DeltasOf(st'.arr) == DeltasOf(st.arr) + [delta]
            && Below(st'.arr, INITIAL_N) == Below(st.arr, INITIAL_N)
            && |st'.arr| == |st.arr| + 1
  {
    hide *;
    var q, pos := StepParts(st, delta);
    StepSettledAt(st, delta, q, pos);
  }

  /** A step in terms of quotient and remainder. */
  lemma StepParts(st: State, delta: nat) returns (q: nat, pos: nat)
    ensures st.i + delta == (|st.arr| + 1) * q + pos && pos <= |st.arr|
    ensures Step(st, delta) == State(InsertAt(st.arr, pos, st.n + q), st.n + q, pos + 1)
  {
    q, pos := (st.i + delta) / (|st.arr| + 1), (st.i + delta) % (|st.arr| + 1);
  }

  lemma StepSettledAt(st: State, delta: nat, q: nat, pos: nat)
    requires Settled(st) && Front(st.arr) == (st.n, st.i)
    requires st.i + delta == (|st.arr| + 1) * q + pos && pos <= |st.arr|
    ensures var st' := State(InsertAt(st.arr, pos, st.n + q), st.n + q, pos + 1);
            && Settled(st') && Front(st'.arr) == (st'.n, st'.i)
            && DeltasOf(st'.arr) == DeltasOf(st.arr) + [delta]
            && Below(st'.arr, INITIAL_N) == Below(st.arr, INITIAL_N)
  {
    hide Front, DeltasOf, Below, LastMax, HasExtended;
    var n' := st.n + q;
    var l, r := st.arr[..pos], st.arr[pos..];
    assert l + r == st.arr;
    assert Distance(st.arr, n', pos) == delta by {
      assert q * (|st.arr| + 1) == (|st.arr| + 1) * q;
    }
    assert q == 0 ==> pos == st.i + delta;
    hide Distance;
    DeltasAppend(l, n', r);
    BasicsInsert(st.arr, pos, n');
  }

  /** From the front of `prev`, its distance leads to the insertion it was computed for. */
  lemma StepDistance(prev: seq<nat>, n: nat, pos: nat)
    requires pos <= |prev| && n >= Front(prev).0 && Distance(prev, n, pos) >= 0
    ensures Step(State(prev, Front(prev).0, Front(prev).1), Distance(prev, n, pos))
         == State(InsertAt(prev, pos, n), n, pos + 1)
  {
    var (n0, i) := Front(prev);
    var d := Distance(prev, n, pos);
    hide Front;
    assert i + d == (|prev| + 1) * (n - n0) + pos by {
      assert (n - n0) * (|prev| + 1) == (|prev| + 1) * (n - n0);
    }
    hide Distance;
    DivUnique(i + d, |prev| + 1, n - n0, pos);
  }

  lemma RunNothing(basics: seq<nat>)
    requires forall i :: 0 <= i < |basics| ==> basics[i] < INITIAL_N
    ensures Settled(Start(basics)) && Front(basics) == (INITIAL_N, 0)
    ensures DeltasOf(basics) == [] && Below(basics, INITIAL_N) == basics
  {
    BelowAll(basics, INITIAL_N);
  }

  /** A run of any deltas ends in an array that has exactly these deltas. */
  lemma {:induction false} DeltasRun(basics: seq<nat>, deltas: seq<nat>)
    requires forall i :: 0 <= i < |basics| ==> basics[i] < INITIAL_N
    ensures var st := Run(Start(basics), deltas);
            && Settled(st) && Front(st.arr) == (st.n, st.i)
            && DeltasOf(st.arr) == deltas && Below(st.arr, INITIAL_N) == basics
            && |st.arr| == |basics| + |deltas|
  {
    hide Step, Front, DeltasOf, Below, Settled;
    if deltas == [] {
      RunNothing(basics);
    } else {
      var init := deltas[..|deltas| - 1];
      DeltasRun(basics, init);
      StepSettled(Run(Start(basics), init), deltas[|deltas| - 1]);
      assert deltas == init + [deltas[|deltas| - 1]];
    }
  }
}
