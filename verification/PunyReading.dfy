/** punycode.c: reading one integer in 32-bit arithmetic, and when that fails for which reason. */
module PunyReading {
  import opened Arith
  import opened Bytes
  import opened PunyNumbers

  datatype Status = Success | BadInput | BigOutput | Overflow

  // ---- The digits of an integer ----

  /** What the digit after `n` others counts for */
  function Weight(n: nat, bias: nat): (w: nat)
    ensures w > 0
  {
    if n == 0 then 1
    else
      var m, w := 36 - Threshold(36 * n, bias), Weight(n - 1, bias);
      MulMono(m, 1, w);
      m * w
  }

  /** The first `n` digits, each times what it counts for */
  function SumOf(s: seq<Byte>, n: nat, bias: nat): (v: nat)
    requires n <= |s|
  {
    if n == 0 then 0 else SumOf(s, n - 1, bias) + Times(DecodeDigit(s[n - 1]), Weight(n - 1, bias))
  }

  /** The character after `n` others is a digit. */
  predicate IsDigit(s: seq<Byte>, n: nat) {
    n < |s| && DecodeDigit(s[n]) < 36
  }

  /** It says that another one follows. */
  predicate GoesOn(s: seq<Byte>, n: nat, bias: nat) {
    IsDigit(s, n) && DecodeDigit(s[n]) >= Threshold(36 * (n + 1), bias)
  }

  ghost predicate Open(s: seq<Byte>, n: nat, bias: nat) {
    n <= |s| && forall j :: 0 <= j < n ==> GoesOn(s, j, bias)
  }

  /** The integer ends before it is complete. */
  ghost predicate BreaksAt(s: seq<Byte>, n: nat, bias: nat) {
    Open(s, n, bias) && !IsDigit(s, n)
  }

  ghost predicate Broken(s: seq<Byte>, bias: nat) {
    exists n: nat :: BreaksAt(s, n, bias)
  }

  /** The digit after `n` others makes the sum, or the weight of the next one, too large. */
  ghost predicate OverflowsAt(s: seq<Byte>, n: nat, bias: nat, i0: nat) {
    && Open(s, n, bias) && IsDigit(s, n)
    && (i0 + SumOf(s, n + 1, bias) > 0xffff_ffff || (GoesOn(s, n, bias) && Weight(n + 1, bias) > 0xffff_ffff))
  }

  ghost predicate Overflows(s: seq<Byte>, bias: nat, i0: nat) {
    exists n: nat :: OverflowsAt(s, n, bias, i0)
  }

  // ---- The integer and its digits ----

  /** The integer at the front of `s`, seen from behind its first digits: `i - old_i` has been read
      and the next digit counts `w` times. */
  ghost predicate Continues(s: seq<Byte>, bias: nat, read: nat, used: nat, w: nat, k: nat) {
    && used <= |s|
    && match Parse(s[used..], k, bias)
       case None => Parse(s, BASE, bias).None?
       case Some((v, more)) =>
         && Parse(s, BASE, bias) == Some((read + Times(w, v), used + more))
         && TopWeight(read + Times(w, v), BASE, bias) == Times(w, TopWeight(v, k, bias))
  }

  /** One more digit, which is not the last. */
  lemma ContinuesOn(s: seq<Byte>, bias: nat, read: nat, used: nat, w: nat, k: nat)
    requires Continues(s, bias, read, used, w, k) && used < |s|
    requires Threshold(k, bias) <= DecodeDigit(s[used]) < BASE
    ensures var d, t := DecodeDigit(s[used]), Threshold(k, bias);
            Continues(s, bias, read + Times(d, w), used + 1, Scale(t, w), k + BASE)
  {
    var d, t := DecodeDigit(s[used]), Threshold(k, bias);
    hide Low, High, Scale, Times;
    assert s[used..][1..] == s[used + 1..];
    match Parse(s[used + 1..], k + BASE, bias)
    case None =>
    case Some((v, more)) =>
      LowHighUnique(d, v, t);
      WeightedDigit(w, d, t, v, TopWeight(v, k + BASE, bias));
  }

  lemma StartReading(s: seq<Byte>, bias: nat)
    ensures Continues(s, bias, 0, 0, 1, BASE)
  {
    assert s[0..] == s;
  }

  lemma TimesMono(a: nat, b: nat, c: nat)
    requires b <= c
    ensures Times(a, b) <= Times(a, c) && Times(a, b) == Times(b, a)
  {
    MulMono(a, b, c);
  }

  lemma TimesOne(w: nat)
    ensures Times(w, 1) == w
  {
  }

  /** A digit below the threshold is the whole number. */
  lemma FirstDigit(s: seq<Byte>, k: nat, bias: nat)
    requires s != [] && DecodeDigit(s[0]) < BASE
    ensures var d := DecodeDigit(s[0]);
            && (Parse(s, k, bias).None? ==> d >= Threshold(k, bias))
            && (Parse(s, k, bias).Some? ==>
                  var p := Parse(s, k, bias).value;
                  && p.0 >= d
                  && (d < Threshold(k, bias) ==> p.0 == d && p.1 == 1 && TopWeight(p.0, k, bias) == 1))
  {
    hide Scale;
  }

  lemma WeightedDigit(w: nat, d: nat, t: nat, v: nat, top: nat)
    requires t <= TMAX
    ensures Times(w, d + Scale(t, v)) == Times(d, w) + Times(Scale(t, w), v)
    ensures Times(w, Scale(t, top)) == Times(Scale(t, w), top)
  {
    var m := BASE - t;
    assert w * (m * v) == (m * w) * v;
    assert w * (m * top) == (m * w) * top;
    assert w * (d + m * v) == w * d + w * (m * v);
  }

  /** What the first digits leave to be read. */
  lemma {:induction false} OpenContinues(s: seq<Byte>, bias: nat, n: nat)
    requires Open(s, n, bias)
    ensures Continues(s, bias, SumOf(s, n, bias), n, Weight(n, bias), 36 * (n + 1))
  {
    hide Continues, Threshold;
    if n == 0 {
      StartReading(s, bias);
    } else {
      OpenContinues(s, bias, n - 1);
      assert GoesOn(s, n - 1, bias);
      ContinuesOn(s, bias, SumOf(s, n - 1, bias), n - 1, Weight(n - 1, bias), 36 * n);
    }
  }

  /** There is an integer unless the digits break off. */
  lemma BrokenIsNone(s: seq<Byte>, bias: nat)
    ensures Broken(s, bias) <==> Parse(s, 36, bias).None?
  {
    hide Continues, Parse, IsDigit, GoesOn;
    if n: nat :| BreaksAt(s, n, bias) {
      BreakIsNone(s, n, bias);
    } else {
      UnbrokenFrom(s, 0, bias);
    }
  }

  lemma BreakIsNone(s: seq<Byte>, n: nat, bias: nat)
    requires BreaksAt(s, n, bias)
    ensures Parse(s, 36, bias).None?
  {
    hide GoesOn, SumOf, Weight;
    OpenContinues(s, bias, n);
  }

  lemma {:induction false} UnbrokenFrom(s: seq<Byte>, n: nat, bias: nat)
    requires Open(s, n, bias) && forall j: nat :: !BreaksAt(s, j, bias)
    ensures Parse(s, 36, bias).Some?
    decreases |s| - n
  {
    hide SumOf, Weight, Threshold;
    assert !BreaksAt(s, n, bias);
    if GoesOn(s, n, bias) {
      UnbrokenFrom(s, n + 1, bias);
    } else {
      OpenContinues(s, bias, n);
    }
  }

  /** The digits give the value: it ends with the first one below its threshold. */
  lemma SumIsParsed(s: seq<Byte>, n: nat, bias: nat)
    requires Open(s, n, bias) && IsDigit(s, n) && !GoesOn(s, n, bias)
    ensures Parse(s, 36, bias) == Some((SumOf(s, n + 1, bias), n + 1))
    ensures TopWeight(SumOf(s, n + 1, bias), 36, bias) == Weight(n, bias)
  {
    TimesOne(Weight(n, bias));
    OpenContinues(s, bias, n);
    TimesMono(Weight(n, bias), DecodeDigit(s[n]), DecodeDigit(s[n]));
    hide Open, Times, Weight;
    assert s[n..][0] == s[n];
  }

  /** A sum or a weight that is too large for the digits read so far is too large for the whole integer. */
  lemma OverflowIsTooLarge(s: seq<Byte>, bias: nat, i0: nat)
    requires Parse(s, 36, bias).Some? && Overflows(s, bias, i0)
    ensures var v := Parse(s, 36, bias).value.0; i0 + v > 0xffff_ffff || TopWeight(v, 36, bias) > 0xffff_ffff
  {
    hide Parse, TopWeight, GoesOn, SumOf, Weight, IsDigit, Continues;
    var n: nat :| OverflowsAt(s, n, bias, i0);
    assert n < |s| && DecodeDigit(s[n]) < 36 by {
      DigitThere(s, n);
    }
    SumWithin(s, n, bias);
    if GoesOn(s, n, bias) {
      WeightWithin(s, n + 1, bias);
    }
  }

  lemma DigitThere(s: seq<Byte>, n: nat)
    requires IsDigit(s, n)
    ensures n < |s| && DecodeDigit(s[n]) < 36
  {
  }

  lemma SumWithin(s: seq<Byte>, n: nat, bias: nat)
    requires Open(s, n, bias) && IsDigit(s, n) && Parse(s, 36, bias).Some?
    ensures SumOf(s, n + 1, bias) <= Parse(s, 36, bias).value.0
  {
    hide Open, Times, Weight, TopWeight;
    OpenContinues(s, bias, n);
    FirstDigit(s[n..], 36 * (n + 1), bias);
    hide Parse;
    TimesMono(Weight(n, bias), DecodeDigit(s[n]), Parse(s[n..], 36 * (n + 1), bias).value.0);
  }

  lemma WeightWithin(s: seq<Byte>, n: nat, bias: nat)
    requires Open(s, n, bias) && Parse(s, 36, bias).Some?
    ensures Weight(n, bias) <= TopWeight(Parse(s, 36, bias).value.0, 36, bias)
  {
    hide Open, Times, Weight, Parse, TopWeight, SumOf;
    OpenContinues(s, bias, n);
    var v := Parse(s[n..], 36 * (n + 1), bias).value.0;
    TopWeightBound(v, 36 * (n + 1), bias);
    TimesMono(Weight(n, bias), 1, TopWeight(v, 36 * (n + 1), bias));
    TimesOne(Weight(n, bias));
  }

  /** What is read from a text cut short is read from the whole. */
  lemma {:induction false} ParseLonger(s: seq<Byte>, l: nat, k: nat, bias: nat)
    requires l <= |s| && Parse(s[..l], k, bias).Some?
    ensures Parse(s, k, bias) == Parse(s[..l], k, bias)
    decreases l
  {
    hide Threshold, Scale, DecodeDigit;
    if DecodeDigit(s[0]) >= Threshold(k, bias) {
      assert s[..l][1..] == s[1..][..l - 1];
      ParseLonger(s[1..], l - 1, k + BASE, bias);
    }
  }

  lemma OverflowsLonger(s: seq<Byte>, l: nat, bias: nat, i0: nat)
    requires l <= |s| && Overflows(s[..l], bias, i0)
    ensures Overflows(s, bias, i0)
  {
    hide SumOf, Weight, Threshold;
    var n: nat :| OverflowsAt(s[..l], n, bias, i0);
    SumLonger(s, l, n + 1, bias);
    forall j: nat | j <= n
      ensures GoesOn(s, j, bias) == GoesOn(s[..l], j, bias)
    {
    }
    assert OverflowsAt(s, n, bias, i0);
  }

  lemma {:induction false} SumLonger(s: seq<Byte>, l: nat, n: nat, bias: nat)
    requires n <= l <= |s|
    ensures SumOf(s[..l], n, bias) == SumOf(s, n, bias)
    decreases n
  {
    if n > 0 {
      SumLonger(s, l, n - 1, bias);
    }
  }

  // ---- Its 32-bit arithmetic ----

  /** The overflow checks of decode_ divide where the number checked would be a product. */
  lemma QuotientCheck(d: nat, a: nat, w: nat)
    requires w > 0
    ensures d > a / w <==> Times(d, w) > a
  {
    var q, r := a / w, a % w;
    assert a == w * q + r;
    if d > q {
      MulMono(w, q + 1, d);
      assert w * (q + 1) == w * q + w;
    } else {
      MulMono(w, d, q);
    }
  }

  /** What the first check of the loop decides, and what the last digit leads to. */
  lemma DigitCheck(s: seq<Byte>, bias: nat, i0: nat, i: uint32, used: nat, w: nat, k: nat)
    requires i0 <= i && w > 0 && Continues(s, bias, i - i0, used, w, k) && used < |s|
    requires DecodeDigit(s[used]) < BASE
    ensures var d := DecodeDigit(s[used]);
            && (d > (MAX32 - i) / w <==> i + Times(d, w) > MAX32)
            && (Parse(s, BASE, bias).None? ==> d >= Threshold(k, bias))
            && (Parse(s, BASE, bias).Some? ==>
                  var p := Parse(s, BASE, bias).value;
                  && i0 + p.0 >= i + Times(d, w)
                  && (d < Threshold(k, bias) ==>
                        i0 + p.0 == i + Times(d, w) && p.1 == used + 1 && TopWeight(p.0, BASE, bias) == w))
  {
    hide Scale, Times;
    var d := DecodeDigit(s[used]);
    QuotientCheck(d, MAX32 - i, w);
    FirstDigit(s[used..], k, bias);
    hide Parse, TopWeight, Threshold;
    if Parse(s[used..], k, bias).Some? {
      TimesMono(w, d, Parse(s[used..], k, bias).value.0);
      TimesOne(w);
    }
  }

  /** A weight that is too large for the next digit is too large for the whole integer. */
  lemma WeightCheck(s: seq<Byte>, bias: nat, read: nat, used: nat, w: nat, t: nat, k: nat)
    requires 1 <= t <= TMAX && Continues(s, bias, read, used, Scale(t, w), k) && w > 0
    ensures Scale(t, w) > 0
    ensures w > MAX32 / (BASE - t) <==> Scale(t, w) > MAX32
    ensures Parse(s, BASE, bias).Some? ==> TopWeight(Parse(s, BASE, bias).value.0, BASE, bias) >= Scale(t, w)
  {
    QuotientCheck(w, MAX32, BASE - t);
    MulMono(BASE - t, 1, w);
    match Parse(s[used..], k, bias)
    case None =>
    case Some((v, more)) =>
      TopWeightBound(v, k, bias);
      TimesMono(Scale(t, w), 1, TopWeight(v, k, bias));
  }

  /** The state of the loop before the digit after `n` others */
  ghost predicate Reading(s: seq<Byte>, bias: nat, i0: nat, n: nat, i: nat, w: nat, k: nat) {
    && Open(s, n, bias)
    && i == i0 + SumOf(s, n, bias) && w == Weight(n, bias) && k == 36 * (n + 1)
    && forall j: nat :: j < n ==> !OverflowsAt(s, j, bias, i0)
  }

  lemma FirstState(s: seq<Byte>, bias: nat, i0: nat)
    ensures Reading(s, bias, i0, 0, i0, 1, 36)
  {
  }

  lemma OpenStops(s: seq<Byte>, j: nat, n: nat, bias: nat)
    requires Open(s, j, bias) && !GoesOn(s, n, bias)
    ensures j <= n
  {
    hide GoesOn;
  }

  /** Beyond a digit that ends the integer nothing is read. */
  lemma NotBeyond(s: seq<Byte>, bias: nat, i0: nat, n: nat)
    requires !GoesOn(s, n, bias) && forall j: nat :: j <= n ==> !OverflowsAt(s, j, bias, i0)
    ensures !Overflows(s, bias, i0)
  {
    hide GoesOn, Open, IsDigit, SumOf, Weight;
    if j: nat :| OverflowsAt(s, j, bias, i0) {
      OpenStops(s, j, n, bias);
    }
  }

  lemma ReadingFails(s: seq<Byte>, bias: nat, i0: nat, n: nat, i: nat, w: nat, k: nat)
    requires Reading(s, bias, i0, n, i, w, k) && !IsDigit(s, n)
    ensures Broken(s, bias) && !Overflows(s, bias, i0)
  {
    hide Open, SumOf, Weight, Overflows;
    assert BreaksAt(s, n, bias);
    NotBeyond(s, bias, i0, n);
  }

  /** The first check, and the way out of the loop */
  lemma DigitRead(s: seq<Byte>, bias: nat, i0: nat, n: nat, i: uint32, w: nat, k: nat)
    requires i0 <= i && w > 0 && Reading(s, bias, i0, n, i, w, k) && IsDigit(s, n)
    ensures var d := DecodeDigit(s[n]);
            && (d > (MAX32 - i) / w <==> i + Times(d, w) > MAX32)
            && (i + Times(d, w) > MAX32 ==> Overflows(s, bias, i0))
            && (i + Times(d, w) > MAX32 && Parse(s, BASE, bias).Some? ==>
                  i0 + Parse(s, BASE, bias).value.0 > MAX32)
            && (i + Times(d, w) <= MAX32 && d < Threshold(k, bias) ==>
                  && !Overflows(s, bias, i0) && !Broken(s, bias)
                  && Parse(s, BASE, bias) == Some((i - i0 + Times(d, w), n + 1))
                  && TopWeight(i - i0 + Times(d, w), BASE, bias) <= w)
  {
    hide Open, Weight, Overflows, Broken, Parse, TopWeight, Threshold, Times, Scale;
    var d := DecodeDigit(s[n]);
    OpenContinues(s, bias, n);
    DigitCheck(s, bias, i0, i, n, w, k);
    BrokenIsNone(s, bias);
    SumNext(s, n, bias);
    if i + Times(d, w) > MAX32 {
      assert OverflowsAt(s, n, bias, i0);
      assert Overflows(s, bias, i0) by {
        IsOverflow(s, n, bias, i0);
      }
    } else if d < Threshold(k, bias) {
      NotBeyond(s, bias, i0, n);
    }
  }

  lemma IsOverflow(s: seq<Byte>, n: nat, bias: nat, i0: nat)
    requires OverflowsAt(s, n, bias, i0)
    ensures Overflows(s, bias, i0)
  {
    hide OverflowsAt;
  }

  lemma SumNext(s: seq<Byte>, n: nat, bias: nat)
    requires n < |s|
    ensures SumOf(s, n + 1, bias) == SumOf(s, n, bias) + Times(DecodeDigit(s[n]), Weight(n, bias))
  {
    hide Times, Weight;
  }

  /** The second check, and the next turn of the loop */
  lemma WeightRead(s: seq<Byte>, bias: nat, i0: nat, n: nat, i: nat, w: nat, k: nat)
    requires i0 <= i && w > 0 && Reading(s, bias, i0, n, i, w, k) && GoesOn(s, n, bias)
    requires i + Times(DecodeDigit(s[n]), w) <= MAX32
    ensures var t := Threshold(k, bias);
            && Scale(t, w) > 0
            && (w > MAX32 / (BASE - t) <==> Scale(t, w) > MAX32)
            && (Scale(t, w) > MAX32 ==> Overflows(s, bias, i0))
            && (Scale(t, w) > MAX32 && Parse(s, BASE, bias).Some? ==>
                  TopWeight(Parse(s, BASE, bias).value.0, BASE, bias) > MAX32)
            && (Scale(t, w) <= MAX32 ==>
                  Reading(s, bias, i0, n + 1, i + Times(DecodeDigit(s[n]), w), Scale(t, w), k + BASE))
  {
    hide Weight, Overflows, Broken, Parse, TopWeight, Threshold, Times, Continues;
    var d, t := DecodeDigit(s[n]), Threshold(k, bias);
    assert Open(s, n + 1, bias);
    OpenContinues(s, bias, n + 1);
    SumNext(s, n, bias);
    WeightNext(n, bias);
    WeightCheck(s, bias, SumOf(s, n + 1, bias), n + 1, w, t, k + BASE);
    if Scale(t, w) > MAX32 {
      IsOverflow(s, n, bias, i0);
    }
  }

  lemma WeightNext(n: nat, bias: nat)
    ensures Weight(n + 1, bias) == Scale(Threshold(36 * (n + 1), bias), Weight(n, bias))
  {
    hide Threshold;
  }

  /** The inner loop of decode_: reads one integer and adds it to `i0`. */
  method ReadDelta(input: seq<Byte>, in0: nat, i0: uint32, bias: uint32)
    returns (status: Status, i: uint32, in_: nat)
    requires in0 <= |input|
    ensures status == Overflow <==> Overflows(input[in0..], bias, i0)
    ensures status == BadInput <==> !Overflows(input[in0..], bias, i0) && Broken(input[in0..], bias)
    ensures status != BigOutput
    ensures Parse(input[in0..], BASE, bias).None? <==> Broken(input[in0..], bias)
    ensures Parse(input[in0..], BASE, bias).Some? ==>
              var p := Parse(input[in0..], BASE, bias).value;
              && (status == Success <==> i0 + p.0 <= MAX32 && TopWeight(p.0, BASE, bias) <= MAX32)
              && (status == Success ==> i == i0 + p.0 && in_ == in0 + p.1)
  {
    hide Scale, Times, TopWeight, Parse, Broken, Overflows, Reading, Threshold, DecodeDigit;
    i, in_ := i0, in0;
    var w: uint32, k: nat := 1, BASE;
    ghost var s := input[in0..];
    ghost var n := 0;
    FirstState(s, bias, i0);
    BrokenIsNone(s, bias);
    while true
      invariant n == in_ - in0 && in0 <= in_ <= |input| && i0 <= i && w > 0 && k == 36 * (n + 1)
      invariant Reading(s, bias, i0, n, i, w, k)
      decreases |input| - in_
    {
      if in_ >= |input| {
        ReadingFails(s, bias, i0, n, i, w, k);
        return BadInput, i, in_;
      }
      assert s[n] == input[in_];
      var digit := DecodeDigit(input[in_]);
      if digit >= BASE {
        ReadingFails(s, bias, i0, n, i, w, k);
        return BadInput, i, in_;
      }
      DigitRead(s, bias, i0, n, i, w, k);
      if digit > (MAX32 - i) / w {
        return Overflow, i, in_;
      }
      in_ := in_ + 1;
      var t := Threshold(k, bias);
      if digit < t {
        i := i + Times(digit, w);
        return Success, i, in_;
      }
      i := i + Times(digit, w);
      WeightRead(s, bias, i0, n, i - Times(digit, w), w, k);
      if w > MAX32 / (BASE - t) {
        return Overflow, i, in_;
      }
      w := Scale(t, w);
      k := k + BASE;
      n := n + 1;
    }
  }
}
