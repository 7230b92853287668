/** The variable-length integers of Punycode (sections 3.3, 5 and 6.1 of RFC 3492): one delta is
    written as a run of base-36 digits whose thresholds depend on the bias. */
module PunyNumbers {
  import opened Arith
  import opened Bytes

  const BASE: nat := 36
  const TMIN: nat := 1
  const TMAX: nat := 26
  const SKEW: nat := 38
  const DAMP: nat := 700
  const INITIAL_BIAS: nat := 72
  const INITIAL_N: nat := 0x80
  const DELIMITER: nat := 0x2d
  const MAX32: nat := 0xffff_ffff

  type uint32 = x: int | 0 <= x <= 0xffff_ffff

  // ---- Digits as characters ----

  /** decodeDigit_. The unsigned comparisons of the original keep only the ranges written here;
      a negative character would become a huge number and fall outside of all of them. */
  function DecodeDigit(c: Byte): (d: nat)
    ensures d <= BASE
  {
    if 48 <= c < 58 then c - 22
    else if 65 <= c < 91 then c - 65
    else if 97 <= c < 123 then c - 97
    else BASE
  }

  /** encodeDigit_ without the case flag. */
  function EncodeDigit(d: nat): (c: Byte)
    requires d < BASE
    ensures DecodeDigit(c) == d
  {
    if d < 26 then d + 97 else d + 22
  }

  function Lower(c: Byte): Byte {
    if 65 <= c < 91 then c + 32 else c
  }

  /** A digit character is the one that is written for its value, but for its case. */
  lemma DigitUnique(c: Byte)
    requires DecodeDigit(c) < BASE
    ensures EncodeDigit(DecodeDigit(c)) == Lower(c) && c != DELIMITER
  {
  }

  /** The digits are the letters, in both cases, and then the figures. */
  lemma DigitValues(c: Byte)
    ensures 'a' as int <= c <= 'z' as int ==> DecodeDigit(c) == c - 'a' as int
    ensures 'A' as int <= c <= 'Z' as int ==> DecodeDigit(c) == c - 'A' as int
    ensures '0' as int <= c <= '9' as int ==> DecodeDigit(c) == 26 + c - '0' as int
    ensures DecodeDigit(c) < 36 ==> 'a' as int <= c <= 'z' as int || 'A' as int <= c <= 'Z' as int
                                    || '0' as int <= c <= '9' as int
  {
  }

  function LowerAll(s: seq<Byte>): (r: seq<Byte>)
    ensures |r| == |s|
  {
    seq(|s|, i requires 0 <= i < |s| => Lower(s[i]))
  }

  // ---- Thresholds and bias ----

  function Threshold(k: nat, bias: nat): (t: nat)
    ensures TMIN <= t <= TMAX
  {
    if k <= bias then TMIN else if k >= bias + TMAX then TMAX else k - bias
  }

  /** The threshold is how far `k` is beyond the bias, kept between 1 and 26. */
  lemma ThresholdClamps(k: nat, bias: nat)
    ensures 1 <= k - bias <= 26 ==> Threshold(k, bias) == k - bias
    ensures k - bias < 1 ==> Threshold(k, bias) == 1
    ensures k - bias > 26 ==> Threshold(k, bias) == 26
  {
  }

  function Slope(delta: nat): (s: nat)
    ensures s < BASE
  {
    SlopeFits(delta, delta + SKEW);
    (BASE - TMIN + 1) * delta / (delta + SKEW)
  }

  lemma SlopeFits(delta: nat, m: nat)
    requires m > delta
    ensures 0 <= 36 * delta / m < BASE
  {
    if m > 1 {
      DivFacts(36 * delta, m);
      var d := 36 * delta / m;
      if d >= 36 {
        MulMono(m, 36, d);
      }
    }
  }

  /** The loop of adapt_ with its last line. */
  function AdaptFrom(delta: nat, k: nat): nat {
    if delta > (BASE - TMIN) * TMAX / 2 then AdaptFrom(delta / (BASE - TMIN), k + BASE)
    else k + Slope(delta)
  }

  function Damped(delta: nat, first: bool): (r: nat)
    ensures r + r <= delta
  {
    if first then delta / DAMP else delta / 2
  }

  /** The first two lines of adapt_; no intermediate value exceeds the delta itself. */
  function Spread(delta: nat, numPoints: nat, first: bool): (r: nat)
    requires numPoints > 0
    ensures r <= delta
  {
    var scaled := Damped(delta, first);
    QuotientFits(scaled, numPoints);
    scaled + scaled / numPoints
  }

  function Adapt(delta: nat, numPoints: nat, first: bool): nat
    requires numPoints > 0
  {
    AdaptFrom(Spread(delta, numPoints, first), 0)
  }

  /** Powers of 35 */
  function Pow35(j: nat): (p: nat)
    ensures p > 0
  {
    if j == 0 then 1 else 35 * Pow35(j - 1)
  }

  /** `d` divided by 35 `j` times */
  function Divided(d: nat, j: nat): nat
    decreases j
  {
    if j == 0 then d else Divided(d / 35, j - 1)
  }

  lemma {:induction false} DividedIs(d: nat, j: nat)
    ensures Divided(d, j) == d / Pow35(j)
    decreases j
  {
    if j > 0 {
      DividedIs(d / 35, j - 1);
      DivDiv(d, Pow35(j - 1));
    }
  }

  /** The least number of divisions by 35 after which 455 is not exceeded */
  ghost predicate Least(d: nat, j: nat) {
    Divided(d, j) <= 455 && forall i: nat :: i < j ==> Divided(d, i) > 455
  }

  /** A bias of 36 for each division, and up to 35 for what is left */
  function Curve(j: nat, e: nat): nat {
    36 * j + 36 * e / (e + 38)
  }

  /** A damped delta and its share for one code point */
  function Grown(d: nat, numPoints: nat): nat
    requires numPoints > 0
  {
    QuotientFits(d, numPoints);
    d + d / numPoints
  }

  /** The adapted bias of section 6.1 of RFC 3492 in numbers: the delta is damped by 700 the first time and by 2 later,
      grows by its share for one code point, and is divided by 35 as often as needed. */
  ghost predicate IsBias(bias: nat, delta: nat, numPoints: nat, first: bool)
    requires numPoints > 0
  {
    OnCurve(bias, Grown(if first then delta / 700 else delta / 2, numPoints))
  }

  ghost predicate OnCurve(bias: nat, d: nat) {
    exists j: nat :: Least(d, j) && bias == Curve(j, Divided(d, j))
  }

  lemma DivDiv(d: nat, m: nat)
    requires m > 0
    ensures d / (35 * m) == d / 35 / m
  {
    var q, r := d / 35, d % 35;
    var v, s := q / m, q % m;
    assert d == 35 * q + r && q == m * v + s;
    assert d == (35 * m) * v + (35 * s + r);
    MulMono(35, s + 1, m);
    DivUnique(d, 35 * m, v, 35 * s + r);
  }

  lemma {:induction false} AdaptFromMeans(d: nat, k: nat) returns (j: nat)
    ensures Least(d, j) && AdaptFrom(d, k) == k + Curve(j, Divided(d, j))
  {
    if d > 455 {
      var i := AdaptFromMeans(d / 35, k + 36);
      j := i + 1;
      LeastMore(d, i);
      CurveMore(i, Divided(d / 35, i));
    } else {
      j := 0;
    }
  }

  lemma LeastMore(d: nat, i: nat)
    requires d > 455 && Least(d / 35, i)
    ensures Least(d, i + 1) && Divided(d, i + 1) == Divided(d / 35, i)
  {
    forall e: nat | e < i + 1
      ensures Divided(d, e) > 455
    {
      if e > 0 {
        assert Divided(d / 35, e - 1) > 455;
      }
    }
  }

  lemma CurveMore(j: nat, e: nat)
    ensures Curve(j + 1, e) == 36 + Curve(j, e)
  {
  }

  lemma AdaptMeans(delta: nat, numPoints: nat, first: bool)
    requires numPoints > 0
    ensures IsBias(Adapt(delta, numPoints, first), delta, numPoints, first)
  {
    hide AdaptFrom, Least, Curve, Divided;
    var j := AdaptFromMeans(Spread(delta, numPoints, first), 0);
    assert OnCurve(Adapt(delta, numPoints, first), Spread(delta, numPoints, first));
  }

  /** There is only one such number. */
  lemma OneBias(a: nat, b: nat, delta: nat, numPoints: nat, first: bool)
    requires numPoints > 0 && IsBias(a, delta, numPoints, first) && IsBias(b, delta, numPoints, first)
    ensures a == b
  {
    hide OnCurve;
    OneOnCurve(a, b, Grown(if first then delta / 700 else delta / 2, numPoints));
  }

  lemma OneOnCurve(a: nat, b: nat, d: nat)
    requires OnCurve(a, d) && OnCurve(b, d)
    ensures a == b
  {
    hide Curve, Least, Divided;
    var i: nat :| Least(d, i) && a == Curve(i, Divided(d, i));
    var j: nat :| Least(d, j) && b == Curve(j, Divided(d, j));
    OneLeast(d, i, j);
  }

  lemma OneLeast(d: nat, i: nat, j: nat)
    requires Least(d, i) && Least(d, j)
    ensures i == j
  {
    hide Divided, Least;
    LeastBelow(d, i, j);
    LeastBelow(d, j, i);
  }

  lemma LeastBelow(d: nat, i: nat, j: nat)
    requires Least(d, j)
    ensures Divided(d, j) <= 455 && (i < j ==> Divided(d, i) > 455)
  {
    hide Divided;
  }

  // ---- One integer ----

  /** The digit that is written for `q` before what `High` leaves. */
  function Low(q: nat, t: nat): (d: nat)
    requires 1 <= t <= TMAX && t <= q
    ensures t <= d < BASE
  {
    DivFacts(q - t, BASE - t);
    t + (q - t) % (BASE - t)
  }

  function High(q: nat, t: nat): (h: nat)
    requires 1 <= t <= TMAX && t <= q
    ensures h < q
  {
    DivFacts(q - t, BASE - t);
    (q - t) / (BASE - t)
  }

  function Times(a: nat, b: nat): nat {
    MulMono(a, 0, b);
    a * b
  }

  function Scale(t: nat, v: nat): nat
    requires t <= TMAX
  {
    MulMono(BASE - t, 0, v);
    (BASE - t) * v
  }

  lemma LowHigh(q: nat, t: nat)
    requires 1 <= t <= TMAX && t <= q
    ensures Low(q, t) + Scale(t, High(q, t)) == q
  {
    DivFacts(q - t, BASE - t);
  }

  lemma LowHighUnique(d: nat, v: nat, t: nat)
    requires 1 <= t <= TMAX && t <= d < BASE
    ensures var q := d + Scale(t, v); Low(q, t) == d && High(q, t) == v
  {
    DivUnique(d + Scale(t, v) - t, BASE - t, v, d - t);
  }

  function Digits(q: nat, k: nat, bias: nat): (s: seq<Byte>)
    ensures |s| >= 1
    decreases q
  {
    var t := Threshold(k, bias);
    if q < t then [EncodeDigit(q)]
    else [EncodeDigit(Low(q, t))] + Digits(High(q, t), k + BASE, bias)
  }

  /** Reads one integer from the front of `s`: its value and the number of characters used. */
  function Parse(s: seq<Byte>, k: nat, bias: nat): (r: Option<(nat, nat)>)
    ensures r.Some? ==> 1 <= r.value.1 <= |s|
  {
    if s == [] then None
    else
      var d := DecodeDigit(s[0]);
      if d >= BASE then None
      else
        var t := Threshold(k, bias);
        if d < t then Some((d, 1))
        else
          match Parse(s[1..], k + BASE, bias)
          case None => None
          case Some((v, used)) => Some((d + Scale(t, v), used + 1))
  }

  /** What is written is read back. */
  lemma {:induction false} ParseDigits(q: nat, k: nat, bias: nat, rest: seq<Byte>)
    ensures Parse(Digits(q, k, bias) + rest, k, bias) == Some((q, |Digits(q, k, bias)|))
    decreases q
  {
    hide Low, High, Scale;
    var t := Threshold(k, bias);
    var s := Digits(q, k, bias) + rest;
    if q >= t {
      ParseDigits(High(q, t), k + BASE, bias, rest);
      LowHigh(q, t);
      assert s[1..] == Digits(High(q, t), k + BASE, bias) + rest;
    }
  }

  /** What is read is what would have been written, but for the case of the letters. */
  lemma {:induction false} DigitsParse(s: seq<Byte>, k: nat, bias: nat)
    requires Parse(s, k, bias).Some?
    ensures var (v, used) := Parse(s, k, bias).value; LowerAll(s[..used]) == Digits(v, k, bias)
  {
    hide Low, High, Scale, LowerAll, Threshold, DecodeDigit, EncodeDigit;
    var d, t := DecodeDigit(s[0]), Threshold(k, bias);
    DigitUnique(s[0]);
    if d >= t {
      var (v, used) := Parse(s[1..], k + BASE, bias).value;
      DigitsParse(s[1..], k + BASE, bias);
      LowHighUnique(d, v, t);
      LowerFirst(s, used);
    } else {
      LowerFirst(s, 0);
    }
  }

  lemma LowerFirst(s: seq<Byte>, used: nat)
    requires used < |s|
    ensures LowerAll(s[..used + 1]) == [Lower(s[0])] + LowerAll(s[1..][..used])
    ensures used == 0 ==> LowerAll(s[..used + 1]) == [Lower(s[0])]
  {
    assert s[..used + 1] == [s[0]] + s[1..][..used];
  }

  /** No digit is the delimiter. */
  lemma {:induction false} DigitsNoDelimiter(q: nat, k: nat, bias: nat)
    ensures DELIMITER !in Digits(q, k, bias)
    decreases q
  {
    hide Low, High;
    var t := Threshold(k, bias);
    if q >= t {
      DigitsNoDelimiter(High(q, t), k + BASE, bias);
    }
  }

  /** The product of the weights that reading `q` multiplies up. */
  function TopWeight(q: nat, k: nat, bias: nat): (w: nat)
    decreases q
  {
    var t := Threshold(k, bias);
    if q < t then 1 else Scale(t, TopWeight(High(q, t), k + BASE, bias))
  }

  /** The weight stays within 35 times the number. */
  lemma {:induction false} TopWeightBound(q: nat, k: nat, bias: nat)
    ensures 1 <= TopWeight(q, k, bias) <= if q == 0 then 1 else 35 * q
    decreases q
  {
    var t := Threshold(k, bias);
    if q >= t {
      var h := High(q, t);
      LowHigh(q, t);
      TopWeightBound(h, k + BASE, bias);
      WeightStep(t, TopWeight(h, k + BASE, bias), h, q);
    }
  }

  lemma WeightStep(t: nat, w: nat, h: nat, q: nat)
    requires 1 <= t <= TMAX && 1 <= q && Scale(t, h) <= q
    requires 1 <= w <= if h == 0 then 1 else 35 * h
    ensures 1 <= Scale(t, w) <= 35 * q
  {
    var m := BASE - t;
    MulMono(m, 1, w);
    if h == 0 {
      assert Scale(t, w) == m;
    } else {
      MulMono(m, w, 35 * h);
      assert m * (35 * h) == 35 * (m * h);
      MulMono(35, m * h, q);
    }
  }
}
