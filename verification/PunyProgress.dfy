/** How far the encoder has got: the code points it has written after the round for `n` has come to
    index `j`, and the delta that comes next. */
module PunyProgress {
  import opened Arith
  import opened Bytes
  import opened PunyNumbers
  import opened PunyInsert
  import opened Sequences

  /** What has been written: all below `n`, and those equal to `n` left of `j`. */
  function Handled(a: seq<nat>, n: nat, j: nat): seq<nat>
    requires j <= |a|
  {
    Below(a[..j], n + 1) + Below(a[j..], n)
  }

  lemma {:induction false} BelowFull(a: seq<nat>, n: nat)
    requires |Below(a, n)| == |a|
    ensures Below(a, n) == a && forall i :: 0 <= i < |a| ==> a[i] < n
  {
    if a != [] {
      BelowFull(a[..|a| - 1], n);
    }
  }

  lemma {:induction false} BelowShort(a: seq<nat>, n: nat)
    requires |Below(a, n)| < |a|
    ensures exists i :: 0 <= i < |a| && a[i] >= n
  {
    if a[|a| - 1] < n {
      BelowShort(a[..|a| - 1], n);
      var i :| 0 <= i < |a| - 1 && a[..|a| - 1][i] >= n;
      assert a[i] >= n;
    }
  }

  lemma {:induction false} BelowMisses(a: seq<nat>, n: nat, i: nat)
    requires i < |a| && a[i] >= n
    ensures |Below(a, n)| < |a|
  {
    if i < |a| - 1 {
      BelowMisses(a[..|a| - 1], n, i);
    }
  }

  /** Taking out a code point that is not below `n` changes nothing below `n`. */
  lemma BelowWithout(a: seq<nat>, p: nat, n: nat)
    requires p < |a| && a[p] >= n
    ensures Below(Without(a, p), n) == Below(a, n)
  {
    var l, r := a[..p], a[p + 1..];
    assert a == l + [a[p]] + r;
    BelowAppend(l + [a[p]], r, n);
    BelowAppend(l, [a[p]], n);
    BelowOne(a[p], n);
    BelowAppend(l, r, n);
  }

  /** The one inserted last is handled last. */
  lemma HandledWithout(a: seq<nat>, n: nat, j: nat, p: nat)
    requires j <= |a| && p < |a|
    requires a[p] > n || (a[p] == n && p >= j)
    ensures var j' := if p < j then j - 1 else j;
            && Handled(Without(a, p), n, j') == Handled(a, n, j)
            && Below(Without(a, p)[..j'], n + 1) == Below(a[..j], n + 1)
  {
    var a' := Without(a, p);
    if p < j {
      BelowWithout(a[..j], p, n + 1);
      assert a'[..j - 1] == Without(a[..j], p);
      assert a'[j - 1..] == a[j..];
    } else {
      BelowWithout(a[j..], p - j, n);
      assert a'[..j] == a[..j];
      assert a'[j..] == Without(a[j..], p - j);
    }
  }

  /** Nobody who is left comes before the place that the encoder has got to. */
  lemma LastUnhandled(a: seq<nat>, n: nat, j: nat) returns (p: nat)
    requires j <= |a| && n >= INITIAL_N && |Handled(a, n, j)| < |a|
    ensures HasExtended(a) && p == LastMax(a)
    ensures a[p] > n || (a[p] == n && p >= j)
  {
    var u: nat;
    if |Below(a[..j], n + 1)| < j {
      BelowShort(a[..j], n + 1);
      var i :| 0 <= i < j && a[..j][i] >= n + 1;
      u := i;
    } else {
      BelowShort(a[j..], n);
      var i :| 0 <= i < |a| - j && a[j..][i] >= n;
      u := j + i;
    }
    assert a[u] > n || (a[u] == n && u >= j);
    p := LastMax(a);
    assert a[u] <= a[p] && (u > p ==> a[u] < a[p]);
  }

  /** The deltas written so far are the first deltas of the array, and the next one is not smaller
      than the distance the encoder has counted up. */
  lemma {:induction false} NextDelta(a: seq<nat>, n: nat, j: nat)
    requires j <= |a| && n >= INITIAL_N && |Handled(a, n, j)| < |a|
    ensures var cur := Handled(a, n, j);
            var d := DeltasOf(cur);
            && |d| < |DeltasOf(a)| && DeltasOf(a)[..|d|] == d
            && DeltasOf(a)[|d|] >= Distance(cur, n, |Below(a[..j], n + 1)|)
    decreases |a|
  {
    hide Below, Distance, LastMax, Front;
    var p := LastUnhandled(a, n, j);
    HandledWithout(a, n, j, p);
    FrontBefore(a, p);
    var a' := Without(a, p);
    var j' := if p < j then j - 1 else j;
    var cur := Handled(a, n, j);
    if |cur| == |a'| {
      AllHandled(a', n, j');
      assert cur == a';
      DistanceGrows(a', n, |Below(a[..j], n + 1)|, a[p], p);
    } else {
      NextDelta(a', n, j');
    }
  }

  lemma AllHandled(a: seq<nat>, n: nat, j: nat)
    requires j <= |a| && |Handled(a, n, j)| == |a|
    ensures Handled(a, n, j) == a
  {
    BelowFull(a[..j], n + 1);
    BelowFull(a[j..], n);
  }

  lemma DistanceGrows(cur: seq<nat>, n: nat, k: nat, n': nat, p: nat)
    requires k <= |cur| && (n' > n || (n' == n && p >= k))
    ensures Distance(cur, n', p) >= Distance(cur, n, k)
  {
    var f := Front(cur);
    hide Front;
    if n' > n {
      MulMono(|cur| + 1, 1, n' - n);
      assert (n' - f.0) * (|cur| + 1) == (n - f.0) * (|cur| + 1) + (|cur| + 1) * (n' - n);
    }
  }

  /** Passing over code points that do not occur adds a whole round to the distance for each. */
  lemma SkipTo(a: seq<nat>, n: nat, m: nat)
    requires n <= m && forall i :: 0 <= i < |a| ==> a[i] < n || a[i] >= m
    ensures Handled(a, m, 0) == Handled(a, n, 0)
    ensures Distance(Handled(a, m, 0), m, 0) == Distance(Handled(a, n, 0), n, 0) + Times(m - n, |Handled(a, n, 0)| + 1)
  {
    assert a[..0] == [] && a[0..] == a;
    SameBelow(a, n, m);
    var cur := Handled(a, n, 0);
    var f := Front(cur);
    hide Front, Handled;
    assert (m - f.0) * (|cur| + 1) == (n - f.0) * (|cur| + 1) + (m - n) * (|cur| + 1);
  }

  lemma {:induction false} SameBelow(a: seq<nat>, n: nat, m: nat)
    requires n <= m && forall i :: 0 <= i < |a| ==> a[i] < n || a[i] >= m
    ensures Below(a, n) == Below(a, m)
  {
    if a != [] {
      SameBelow(a[..|a| - 1], n, m);
    }
  }

  /** One index further, in a round for `n`. */
  lemma HandledOn(a: seq<nat>, n: nat, j: nat)
    requires j < |a|
    ensures var p, q := Below(a[..j], n + 1), Below(a[j + 1..], n);
            && (a[j] == n ==> Handled(a, n, j) == p + q && Handled(a, n, j + 1) == p + [n] + q
                              && Below(a[..j + 1], n + 1) == p + [n])
            && (a[j] < n ==> Handled(a, n, j + 1) == Handled(a, n, j) && Below(a[..j + 1], n + 1) == p + [a[j]])
            && (a[j] > n ==> Handled(a, n, j + 1) == Handled(a, n, j) && Below(a[..j + 1], n + 1) == p)
  {
    hide Below;
    var l, x, r := a[..j], a[j], a[j + 1..];
    assert a[..j + 1] == l + [x] && a[j..] == [x] + r;
    BelowAppend(l, [x], n + 1);
    BelowAppend([x], r, n);
    BelowOne(x, n);
    BelowOne(x, n + 1);
    Shift(Below(l, n + 1), x, Below(r, n));
  }

  lemma Shift(p: seq<nat>, x: nat, q: seq<nat>)
    ensures p + ([x] + q) == p + [x] + q && p + ([] + q) == p + q && p + [] == p
  {
  }

  /** The end of a round is the start of the next. */
  lemma RoundEnds(a: seq<nat>, n: nat)
    ensures Handled(a, n, |a|) == Handled(a, n + 1, 0)
    ensures |Below(a[..|a|], n + 1)| == |Handled(a, n, |a|)|
    ensures Distance(Handled(a, n + 1, 0), n + 1, 0) == Distance(Handled(a, n, |a|), n, |Handled(a, n, |a|)|) + 1
  {
    assert a[..|a|] == a && a[|a|..] == [] && a[..0] == [] && a[0..] == a;
    var cur := Handled(a, n, |a|);
    var f := Front(cur);
    assert Below([], n) == [] && Below([], n + 2) == [];
    assert Handled(a, n + 1, 0) == cur;
    hide Front, Handled, Below;
    assert (n + 1 - f.0) * (|cur| + 1) == (n - f.0) * (|cur| + 1) + |cur| + 1;
  }
}
