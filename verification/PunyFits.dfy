/** When the numbers that Punycode computes stay within 32 bits. */
module PunyFits {
  import opened Arith
  import opened Bytes
  import opened PunyNumbers
  import opened PunyInsert
  import opened PunyText
  import opened Sequences

  /** Every number that encode_ has to hold: its deltas. */
  predicate EncodeFits(a: seq<nat>) {
    forall k :: 0 <= k < |DeltasOf(a)| ==> DeltasOf(a)[k] <= MAX32
  }

  /** Every number that decode_ has to hold while it inserts the code points of `a` one after the
      other: positions with the delta added, code points, and weights of digits. */
  predicate DecodeFits(a: seq<nat>) {
    HasExtended(a) ==>
      var p := LastMax(a);
      var prev := Without(a, p);
      && DecodeFits(prev)
      && a[p] <= MAX32
      && Front(prev).1 + Distance(prev, a[p], p) <= MAX32
      && (FrontBefore(a, p);
          TopWeight(Distance(prev, a[p], p), BASE, BiasAfter(|Below(a, INITIAL_N)|, DeltasOf(prev))) <= MAX32)
  }

  /** The condition grows by exactly the checks of one turn of the decoder's main loop. */
  lemma FitsStep(basics: seq<nat>, deltas: seq<nat>, v: nat)
    requires forall i :: 0 <= i < |basics| ==> basics[i] < INITIAL_N
    ensures var st, st' := Run(Start(basics), deltas), Run(Start(basics), deltas + [v]);
            && st' == Step(st, v)
            && (DecodeFits(st'.arr) <==>
                  && DecodeFits(st.arr) && st'.n <= MAX32 && st.i + v <= MAX32
                  && TopWeight(v, BASE, BiasAfter(|basics|, deltas)) <= MAX32)
  {
    hide Step, DeltasOf, Below, Distance, TopWeight, LastMax, HasExtended, BiasAfter;
    var st := Run(Start(basics), deltas);
    var st' := Step(st, v);
    assert (deltas + [v])[..|deltas + [v]| - 1] == deltas;
    DeltasRun(basics, deltas);
    DeltasRun(basics, deltas + [v]);
    StepUndone(st, v);
    var p := st'.i - 1;
    FrontMeans(st'.arr);
    FrontBefore(st'.arr, p);
    LastOfDeltas(st'.arr);
  }

  lemma FrontMeans(a: seq<nat>)
    requires Front(a).1 >= 1
    ensures HasExtended(a) && LastMax(a) == Front(a).1 - 1
  {
  }

  lemma StepUndone(st: State, v: nat)
    ensures var st' := Step(st, v);
            st'.i >= 1 && st'.i - 1 < |st'.arr| && Without(st'.arr, st'.i - 1) == st.arr
            && st'.arr[st'.i - 1] == st'.n
  {
  }

  lemma LastOfDeltas(a: seq<nat>)
    requires HasExtended(a)
    ensures var d := DeltasOf(a);
            d != [] && d[|d| - 1] == Distance(Without(a, LastMax(a)), a[LastMax(a)], LastMax(a))
  {
  }

  /** A run that fits has fitted all along. */
  lemma {:induction false} FitsPrefix(basics: seq<nat>, deltas: seq<nat>, k: nat)
    requires forall i :: 0 <= i < |basics| ==> basics[i] < INITIAL_N
    requires k <= |deltas| && DecodeFits(Run(Start(basics), deltas).arr)
    ensures DecodeFits(Run(Start(basics), deltas[..k]).arr)
    decreases |deltas|
  {
    hide DecodeFits, Run;
    if k < |deltas| {
      var init := deltas[..|deltas| - 1];
      assert deltas == init + [deltas[|deltas| - 1]];
      FitsStep(basics, init, deltas[|deltas| - 1]);
      FitsPrefix(basics, init, k);
      assert init[..k] == deltas[..k];
    } else {
      assert deltas[..k] == deltas;
    }
  }

  /** What can be decoded can be encoded again. */
  lemma {:induction false} DecodeFitsEncode(a: seq<nat>)
    requires DecodeFits(a)
    ensures EncodeFits(a)
  {
    if HasExtended(a) {
      DecodeFitsEncode(Without(a, LastMax(a)));
      hide Distance, TopWeight;
    }
  }

  predicate Within(a: seq<nat>, top: nat) {
    forall i :: 0 <= i < |a| ==> a[i] <= top
  }

  /** The bound under which nothing overflows: room for 35 times the greatest state. */
  lemma {:induction false} BoundFits(a: seq<nat>, top: nat, len: nat)
    requires Within(a, top) && |a| <= len && 35 * ((top + 1) * (len + 1)) <= MAX32
    ensures DecodeFits(a)
    decreases |a|
  {
    if HasExtended(a) {
      var p := LastMax(a);
      var prev := Without(a, p);
      BoundFits(prev, top, len);
      FrontBefore(a, p);
      var d: nat := Distance(prev, a[p], p);
      DistanceBound(a, p, top, len);
      TopWeightBound(d, BASE, BiasAfter(|Below(a, INITIAL_N)|, DeltasOf(prev)));
    }
  }

  lemma DistanceBound(a: seq<nat>, p: nat, top: nat, len: nat)
    requires p < |a| <= len && a[p] <= top && Front(Without(a, p)).0 <= a[p]
    ensures Front(Without(a, p)).1 + Distance(Without(a, p), a[p], p) <= (top + 1) * (len + 1)
    ensures 1 <= (top + 1) * (len + 1) && a[p] <= (top + 1) * (len + 1)
  {
    var prev := Without(a, p);
    var (n, i) := Front(prev);
    hide Front;
    MulMono(|a|, a[p] - n, top);
    MulMono(top, |a|, len);
    assert (a[p] - n) * |a| == |a| * (a[p] - n) && |a| * top == top * |a|;
    assert (top + 1) * (len + 1) == top * len + top + len + 1;
    MulMono(top, 0, len);
  }
}
