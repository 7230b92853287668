/** punycode.c: the encoder and the decoder on 32-bit numbers and fixed buffers. */
module Punycode {
  import opened Arith
  import opened Bytes
  import opened PunyNumbers
  import opened PunyInsert
  import opened PunyText
  import opened PunyFits
  import opened PunyProgress
  import opened PunyReading
  import opened PunyVerdict
  import opened Sequences

  // ---- adapt_ ----

  method AdaptBias(delta0: uint32, numPoints: uint32, first: bool) returns (bias: uint32)
    requires numPoints > 0
    ensures bias == Adapt(delta0, numPoints, first) && IsBias(bias, delta0, numPoints, first)
  {
    hide Slope, Spread, IsBias;
    AdaptMeans(delta0, numPoints, first);
    var delta: uint32 := Spread(delta0, numPoints, first);
    var k: uint32 := 0;
    ghost var start := delta;
    while delta > (BASE - TMIN) * TMAX / 2
      invariant AdaptFrom(start, 0) == AdaptFrom(delta, k)
      invariant k == 0 || k + delta + 100 <= MAX32
      decreases delta
    {
      delta := delta / (BASE - TMIN);
      k := k + BASE;
    }
    bias := k + Slope(delta);
  }

  // ---- One integer ----

  method PutByte(output: array<Byte>, out: nat, c: Byte, ghost before: seq<Byte>, ghost written: seq<Byte>)
    requires out < output.Length && output[..out] == before + written
    modifies output
    ensures output[..out + 1] == before + (written + [c])
  {
    output[out] := c;
    assert output[..out + 1] == output[..out] + [c];
  }

  lemma DigitsNext(q: nat, k: nat, bias: nat)
    requires q >= Threshold(k, bias)
    ensures var t := Threshold(k, bias);
            Digits(q, k, bias) == [EncodeDigit(Low(q, t))] + Digits(High(q, t), k + BASE, bias) && High(q, t) < q
  {
    hide Low, High, EncodeDigit, Threshold;
  }

  lemma DigitsLast(q: nat, k: nat, bias: nat)
    requires q < Threshold(k, bias)
    ensures Digits(q, k, bias) == [EncodeDigit(q)]
  {
  }

  /** The innermost loop of encode_: writes the digits of `delta` behind `output[..out0]`. */
  method WriteDelta(delta: uint32, bias: uint32, output: array<Byte>, out0: nat)
    returns (ok: bool, out: nat)
    requires out0 <= output.Length <= MAX32
    modifies output
    ensures ok <==> out0 + |Digits(delta, BASE, bias)| <= output.Length
    ensures ok ==> out == out0 + |Digits(delta, BASE, bias)|
    ensures ok ==> output[..out] == old(output[..out0]) + Digits(delta, BASE, bias)
  {
    hide Low, High, Digits, EncodeDigit, Threshold;
    var q: nat, k: nat := delta, BASE;
    out := out0;
    ghost var written: seq<Byte> := [];
    while true
      invariant out0 <= out <= output.Length && |written| == out - out0
      invariant output[..out] == old(output[..out0]) + written
      invariant written + Digits(q, k, bias) == Digits(delta, BASE, bias)
      decreases q
    {
      if out >= output.Length {
        return false, out;
      }
      var t := Threshold(k, bias);
      if q < t {
        break;
      }
      DigitsNext(q, k, bias);
      Grouped(written, [EncodeDigit(Low(q, t))], Digits(High(q, t), k + BASE, bias));
      PutByte(output, out, EncodeDigit(Low(q, t)), old(output[..out0]), written);
      written := written + [EncodeDigit(Low(q, t))];
      out := out + 1;
      q := High(q, t);
      k := k + BASE;
    }
    DigitsLast(q, k, bias);
    PutByte(output, out, EncodeDigit(q), old(output[..out0]), written);
    out := out + 1;
    ok := true;
  }

  // ---- decode_ ----

  /** The memmove of decode_ with the assignment that follows it. */
  method InsertShift(output: array<uint32>, out: nat, i: nat, n: uint32)
    requires i <= out < output.Length
    modifies output
    ensures output[..out + 1] == InsertAt(old(output[..out]), i, n)
  {
    forall k | i < k <= out {
      output[k] := output[k - 1];
    }
    output[i] := n;
    assert output[..out + 1] == old(output[..i]) + [n] + old(output[i..out]);
  }

  lemma FirstBias(b: nat)
    ensures BiasAfter(b, []) == INITIAL_BIAS
  {
  }

  lemma NextBias(b: nat, deltas: seq<nat>, v: nat)
    ensures BiasAfter(b, deltas + [v]) == Adapt(v, b + |deltas| + 1, deltas == [])
  {
  }

  /** The division in the last check is the one in the step itself. */
  lemma StepOverflow(st: State, v: nat, n: nat, i: nat, out: nat)
    requires i == st.i + v && n == st.n && out == |st.arr| && n <= MAX32
    ensures i / (out + 1) > MAX32 - n <==> Step(st, v).n > MAX32
    ensures Step(st, v)
       == State(InsertAt(st.arr, i % (out + 1), n + i / (out + 1)), n + i / (out + 1), i % (out + 1) + 1)
    ensures i % (out + 1) <= out
  {
  }

  /** Reads the literal part: finds the last delimiter and copies what comes before it. */
  method DecodeLiteral(input: seq<Byte>, output: array<uint32>)
    returns (status: Status, b: nat)
    requires output.Length < MAX32
    modifies output
    ensures b == LastDelimiter(input)
    ensures status == Success <==> b <= output.Length && AllBasic(input[..b])
    ensures status == Success ==> output[..b] == input[..b]
    ensures status != Overflow
    ensures status == BigOutput <==> b > output.Length
  {
    b := 0;
    for j := 0 to |input|
      invariant b == LastDelimiter(input[..j])
    {
      assert input[..j + 1][..j] == input[..j];
      if input[j] == DELIMITER {
        b := j;
      }
    }
    assert input[..|input|] == input;
    if b > output.Length {
      return BigOutput, b;
    }
    for j := 0 to b
      invariant output[..j] == input[..j] && AllBasic(input[..j])
    {
      if input[j] >= INITIAL_N {
        assert input[..b][j] == input[j];
        return BadInput, b;
      }
      output[j] := input[j];
    }
    status := Success;
  }

  /** One turn of the main loop of decode_. */
  method DecodeTurn(input: seq<Byte>, output: array<uint32>, in0: nat, out: nat, n0: uint32, i0: uint32,
                    bias0: uint32, ghost b: nat, ghost deltas: seq<nat>)
    returns (status: Status, in_: nat, n: uint32, i: uint32, bias: uint32, ghost v: nat)
    requires output.Length < MAX32 && out <= output.Length && in0 < |input|
    requires Decoding(input, b, in0, deltas, output[..out], n0, i0) && bias0 == BiasAfter(b, deltas)
    modifies output
    ensures status != Success ==> status == DecodeVerdict(input, output.Length)
    ensures status == Success ==>
              && out < output.Length && in0 < in_ <= |input|
              && Decoding(input, b, in_, deltas + [v], output[..out + 1], n, i)
              && bias == BiasAfter(b, deltas + [v])
  {
    hide Run, Readable, Parse, DecodeFits, BiasAfter, TopWeight, Step, DecodeVerdict, Overflows, Broken, Adapt,
         AllBasic, DigitsFrom, InsertAt, IsBias;
    n, bias, v := n0, bias0, 0;
    ghost var st := State(output[..out], n0, i0);
    DecodingNext(input, b, in0, deltas, output[..out], n0, i0);
    VerdictNext(input, b, in0, deltas, output[..out], n0, i0, output.Length);
    status, i, in_ := ReadDelta(input, in0, i0, bias);
    if status != Success {
      return;
    }
    v := i - i0;
    NextBias(b, deltas, v);
    bias := AdaptBias(i - i0, out + 1, i0 == 0);
    StepOverflow(st, v, n, i, out);
    if i / (out + 1) > MAX32 - n {
      status := Overflow;
      return;
    }
    n := n + i / (out + 1);
    i := i % (out + 1);
    if out >= output.Length {
      status := BigOutput;
      return;
    }
    InsertShift(output, out, i, n);
    i := i + 1;
  }

  /** decode_ without case flags; the length of `output` is the room for code points. */
  method Decode(input: seq<Byte>, output: array<uint32>) returns (status: Status, outputLength: nat)
    requires output.Length < MAX32
    modifies output
    ensures status == DecodeVerdict(input, output.Length)
    ensures status == Success ==>
              && outputLength <= output.Length && DecodedText(input) == Some(output[..outputLength])
              && DecodeFits(output[..outputLength])
    ensures status != Success ==> Justified(input, status, output.Length)
    ensures DecodedText(input).Some? ==>
              var a := DecodedText(input).value;
              status == Success <==> DecodeFits(a) && |a| <= output.Length
  {
    hide Run, Readable, Parse, DecodeFits, BiasAfter, TopWeight, DecodedText, DecodeVerdict, Justified;
    VerdictJustified(input, output.Length);
    var b;
    status, b := DecodeLiteral(input, output);
    if status != Success {
      VerdictLiteral(input, output.Length);
      return status, 0;
    }
    var n: uint32, i: uint32, bias: uint32 := INITIAL_N, 0, INITIAL_BIAS;
    var out: nat, in_: nat := b, if b > 0 then b + 1 else 0;
    ghost var deltas: seq<nat>, v: nat := [], 0;
    DecodingStarts(input, b);
    FirstBias(b);
    while in_ < |input|
      invariant out <= output.Length
      invariant Decoding(input, b, in_, deltas, output[..out], n, i)
      invariant bias == BiasAfter(b, deltas)
      decreases |input| - in_
    {
      status, in_, n, i, bias, v := DecodeTurn(input, output, in_, out, n, i, bias, b, deltas);
      if status != Success {
        return status, 0;
      }
      out := out + 1;
      deltas := deltas + [v];
    }
    DecodingEnds(input, b, in_, deltas, output[..out], n, i, output.Length);
    return Success, out;
  }

  // ---- encode_ ----

  /** The state of the encoder in the round for `n`, at index `j`. */
  ghost predicate Encoding(a: seq<nat>, n: nat, j: nat, delta: int, bias: nat, h: nat, text: seq<Byte>) {
    && INITIAL_N <= n && j <= |a|
    && var b := |Below(a, INITIAL_N)|;
       var cur := Handled(a, n, j);
       var deltas := DeltasOf(cur);
       && h == |cur| == b + |deltas|
       && delta == Distance(cur, n, |Below(a[..j], n + 1)|)
       && bias == BiasAfter(b, deltas)
       && text == Literal(Below(a, INITIAL_N)) + Tail(b, deltas)
       && forall k :: 0 <= k < |deltas| ==> deltas[k] <= MAX32
  }

  lemma EncodingStarts(a: seq<nat>)
    ensures var basics := Below(a, INITIAL_N);
            Encoding(a, INITIAL_N, 0, 0, INITIAL_BIAS, |basics|, Literal(basics))
  {
    hide LastMax, HasExtended, DeltasOf, Front;
    var basics := Below(a, INITIAL_N);
    RunNothing(basics);
    HandledStart(a, INITIAL_N);
    DistanceStart(basics, INITIAL_N);
    assert Tail(|basics|, []) == [] && BiasAfter(|basics|, []) == INITIAL_BIAS;
    hide Below, Handled, Distance, Tail, BiasAfter;
    assert Literal(basics) + [] == Literal(basics);
  }

  lemma HandledStart(a: seq<nat>, n: nat)
    ensures Handled(a, n, 0) == Below(a, n) && Below(a[..0], n + 1) == []
  {
    assert a[0..] == a;
  }

  lemma DistanceStart(s: seq<nat>, n: nat)
    requires Front(s).0 == n
    ensures Distance(s, n, Front(s).1) == 0
  {
    hide Front;
    assert (n - n) * (|s| + 1) == 0;
  }

  lemma Snoc(s: seq<nat>, v: nat)
    ensures (s + [v])[..|s + [v]| - 1] == s && (s + [v])[|s + [v]| - 1] == v && s + [v] != []
    ensures |s + [v]| == |s| + 1
  {
  }

  lemma TextGrows(b: nat, deltas: seq<nat>, v: nat)
    ensures Tail(b, deltas + [v]) == Tail(b, deltas) + Digits(v, BASE, BiasAfter(b, deltas))
    ensures BiasAfter(b, deltas + [v]) == Adapt(v, b + |deltas| + 1, deltas == [])
  {
    hide Digits, Adapt;
    Snoc(deltas, v);
    var longer := deltas + [v];
    assert BiasAfter(b, longer) == Adapt(longer[|longer| - 1], b + |longer|, |longer| == 1);
    hide BiasAfter;
    assert Tail(b, longer)
       == Tail(b, longer[..|longer| - 1]) + Digits(longer[|longer| - 1], BASE, BiasAfter(b, longer[..|longer| - 1]));
  }

  /** When everything is written, the text is complete. */
  lemma EncodingEnds(a: seq<nat>, n: nat, j: nat, delta: int, bias: nat, text: seq<Byte>)
    requires Encoding(a, n, j, delta, bias, |a|, text)
    ensures text == EncodedText(a) && EncodeFits(a)
  {
    AllHandled(a, n, j);
    hide Handled, Below, DeltasOf, Tail, BiasAfter, Distance;
  }

  /** Code points that are skipped, or that a round passes by. */
  lemma EncodingPasses(a: seq<nat>, n: nat, j: nat, delta: int, bias: nat, h: nat, text: seq<Byte>)
    requires Encoding(a, n, j, delta, bias, h, text) && j < |a| && a[j] != n
    ensures Encoding(a, n, j + 1, if a[j] < n then delta + 1 else delta, bias, h, text)
  {
    hide Handled, Below, DeltasOf, Tail, BiasAfter, Front;
    HandledOn(a, n, j);
  }

  /** A code point that is written. */
  lemma EncodingWrites(a: seq<nat>, n: nat, j: nat, delta: uint32, bias: nat, h: nat, text: seq<Byte>)
    requires Encoding(a, n, j, delta, bias, h, text) && j < |a| && a[j] == n
    ensures var b := |Below(a, INITIAL_N)|;
            b <= h < |a| && Encoding(a, n, j + 1, 0, Adapt(delta, h + 1, h == b),
                h + 1, text + Digits(delta, BASE, bias))
    ensures forall room: nat :: |text + Digits(delta, BASE, bias)| > room ==> EncodeVerdict(a, room) == BigOutput
  {
    hide Below, Handled, DeltasOf, Distance, Front, Digits, Adapt, Tail, BiasAfter, EncodeVerdict;
    var b := |Below(a, INITIAL_N)|;
    HandledOn(a, n, j);
    var p, q := Below(a[..j], n + 1), Below(a[j + 1..], n);
    DeltasAppend(p, n, q);
    TextGrows(b, DeltasOf(p + q), delta);
    DistanceStart(p + [n] + q, n);
    PrefixOfText(a, n, j + 1);
    HandledLength(a, n, j + 1);
    var t, d := Tail(b, DeltasOf(p + q)), Digits(delta, BASE, bias);
    assert Literal(Below(a, INITIAL_N)) + t + d == Literal(Below(a, INITIAL_N)) + (t + d);
    assert DeltasOf(a)[..|DeltasOf(p + q)| + 1] == DeltasOf(p + q) + [delta];
    forall room: nat | |text + d| > room
      ensures EncodeVerdict(a, room) == BigOutput
    {
      TooLong(a, |DeltasOf(p + q)| + 1, room);
    }
  }

  /** The deltas written so far are the first ones of the whole. */
  lemma PrefixOfText(a: seq<nat>, n: nat, j: nat)
    requires j <= |a| && n >= INITIAL_N
    ensures DeltasOf(Handled(a, n, j)) <= DeltasOf(a)
  {
    hide Below, Tail, DeltasOf, Distance, Front;
    if |Handled(a, n, j)| < |a| {
      NextDelta(a, n, j);
    } else {
      HandledLength(a, n, j);
      AllHandled(a, n, j);
    }
  }

  lemma HandledLength(a: seq<nat>, n: nat, j: nat)
    requires j <= |a|
    ensures |Handled(a, n, j)| <= |a|
  {
  }

  /** A count that does not fit into 32 bits belongs to the next delta of the array. */
  lemma CountOverflows(a: seq<nat>, n: nat, j: nat, delta: int, bias: nat, h: nat, text: seq<Byte>, room: nat)
    requires Encoding(a, n, j, delta, bias, h, text) && h < |a| && delta > MAX32 && |text| <= room
    ensures EncodeVerdict(a, room) == Overflow
  {
    hide Below, Handled, DeltasOf, Distance, Tail, BiasAfter, EncodeVerdict, Literal;
    NextDelta(a, n, j);
    TooLarge(a, |DeltasOf(Handled(a, n, j))|, room);
  }

  /** The search for the smallest code point that is left. */
  method NextCodePoint(input: seq<uint32>, n: uint32) returns (m: uint32)
    ensures m == MAX32 || m in input
    ensures m >= n && forall i :: 0 <= i < |input| && input[i] >= n ==> input[i] >= m
  {
    m := MAX32;
    for j := 0 to |input|
      invariant m == MAX32 || m in input
      invariant m >= n && forall i :: 0 <= i < j && input[i] >= n ==> input[i] >= m
    {
      if input[j] >= n && input[j] < m {
        m := input[j];
      }
    }
  }

  /** Copies the basic code points and the delimiter. */
  method EncodeLiteral(input: seq<uint32>, output: array<Byte>) returns (ok: bool, b: nat, out: nat)
    modifies output
    ensures ok ==> b == |Below(input, INITIAL_N)| && out == |Literal(Below(input, INITIAL_N))| <= output.Length
    ensures ok ==> output[..out] == Literal(Below(input, INITIAL_N))
    ensures !ok ==> |Literal(Below(input, INITIAL_N))| > output.Length
  {
    out := 0;
    for j := 0 to |input|
      invariant out <= output.Length
      invariant out > 0 ==> out < output.Length
      invariant output[..out] == Below(input[..j], INITIAL_N)
    {
      assert input[..j + 1][..j] == input[..j];
      if input[j] < INITIAL_N {
        if output.Length - out < 2 {
          LiteralTooLong(input, j);
          return false, out, out;
        }
        output[out] := input[j];
        out := out + 1;
      }
    }
    assert input[..|input|] == input;
    b := out;
    if b > 0 {
      output[out] := DELIMITER;
      out := out + 1;
    }
    ok := true;
  }

  lemma LiteralTooLong(a: seq<nat>, j: nat)
    requires j < |a| && a[j] < INITIAL_N
    ensures |Literal(Below(a, INITIAL_N))| >= |Below(a[..j], INITIAL_N)| + 2
  {
    assert a == a[..j] + [a[j]] + a[j + 1..];
    BelowAppend(a[..j] + [a[j]], a[j + 1..], INITIAL_N);
    BelowAppend(a[..j], [a[j]], INITIAL_N);
    BelowOne(a[j], INITIAL_N);
    hide Below;
  }

  /** As long as the round has not written anything, a count beyond 32 bits is a delta beyond them. */
  lemma SmallerOverflows(a: seq<nat>, n: nat, j: nat, bias: nat, h: nat, text: seq<Byte>, room: nat)
    requires j < |a| && a[j] < n && n in a && n !in a[..j]
    requires Encoding(a, n, j, MAX32, bias, h, text) && |text| <= room
    ensures EncodeVerdict(a, room) == Overflow
  {
    hide Below, Tail, BiasAfter, DeltasOf, Distance, Literal, EncodeVerdict;
    EncodingPasses(a, n, j, MAX32, bias, h, text);
    var i :| 0 <= i < |a| && a[i] == n;
    assert i > j by {
      assert forall k :: 0 <= k < j ==> a[k] == a[..j][k];
    }
    assert a[j + 1..][i - j - 1] == n;
    BelowMisses(a[j + 1..], n, i - j - 1);
    CountOverflows(a, n, j + 1, MAX32 + 1, bias, h, text, room);
  }

  /** The `for` loop of one round: counts, and writes the code points equal to `n`. */
  method EncodeRound(input: seq<uint32>, output: array<Byte>, n: uint32, delta0: uint32, bias0: uint32,
                     h0: nat, out0: nat, b: nat)
    returns (status: Status, delta: uint32, bias: uint32, h: nat, out: nat)
    requires |input| <= MAX32 && out0 <= output.Length <= MAX32
    requires Encoding(input, n, 0, delta0, bias0, h0, output[..out0])
    requires n in input && b == |Below(input, INITIAL_N)| && h0 < |input|
    modifies output
    ensures status == Success ==>
              && out <= output.Length && h0 < h <= |input| && delta < |input|
              && Encoding(input, n, |input|, delta, bias, h, output[..out])
    ensures status != Success ==> status == EncodeVerdict(input, output.Length)
  {
    hide Encoding, EncodeVerdict, Below, Handled, Digits, Adapt;
    delta, bias, h, out := delta0, bias0, h0, out0;
    var seen := false;
    for j := 0 to |input|
      invariant out <= output.Length
      invariant Encoding(input, n, j, delta, bias, h, output[..out])
      invariant seen <==> n in input[..j]
      invariant seen ==> delta < j && h > h0
      invariant h0 <= h <= |input|
    {
      assert input[..j + 1] == input[..j] + [input[j]];
      if input[j] < n {
        EncodingPasses(input, n, j, delta, bias, h, output[..out]);
        if delta == MAX32 {
          SmallerOverflows(input, n, j, bias, h, output[..out], output.Length);
          return Overflow, delta, bias, h, out;
        }
        delta := delta + 1;
      }
      if input[j] == n {
        EncodingWrites(input, n, j, delta, bias, h, output[..out]);
        var ok, out' := WriteDelta(delta, bias, output, out);
        if !ok {
          return BigOutput, delta, bias, h, out;
        }
        bias := AdaptBias(delta, h + 1, h == b);
        delta := 0;
        h := h + 1;
        out := out';
        seen := true;
      }
      if input[j] > n {
        EncodingPasses(input, n, j, delta, bias, h, output[..out]);
      }
    }
    assert input[..|input|] == input;
    status := Success;
  }

  /** The skip to the next code point and its check. */
  lemma EncodingSkips(a: seq<nat>, n: uint32, m: uint32, delta: uint32, bias: nat, h: nat, text: seq<Byte>, room: nat)
    requires Encoding(a, n, 0, delta, bias, h, text) && h < |a| && n <= m && |text| <= room
    requires m == MAX32 || m in a
    requires forall i :: 0 <= i < |a| ==> a[i] <= MAX32 && (a[i] >= n ==> a[i] >= m)
    ensures m in a
    ensures m - n > (MAX32 - delta) / (h + 1) <==> delta + Times(m - n, h + 1) > MAX32
    ensures Encoding(a, m, 0, delta + Times(m - n, h + 1), bias, h, text)
    ensures delta + Times(m - n, h + 1) > MAX32 ==> EncodeVerdict(a, room) == Overflow
  {
    hide Handled, Below, Times, Tail, BiasAfter, DeltasOf, Distance, Literal, EncodeVerdict;
    SkipTo(a, n, m);
    HandledStart(a, n);
    HandledStart(a, m);
    QuotientCheck(m - n, MAX32 - delta, h + 1);
    BelowShort(a, n);
    var i :| 0 <= i < |a| && a[i] >= n;
    if delta + Times(m - n, h + 1) > MAX32 {
      CountOverflows(a, m, 0, delta + Times(m - n, h + 1), bias, h, text, room);
    }
  }

  /** The last line of the main loop. */
  lemma EncodingNextRound(a: seq<nat>, n: nat, delta: int, bias: nat, h: nat, text: seq<Byte>)
    requires Encoding(a, n, |a|, delta, bias, h, text)
    ensures Encoding(a, n + 1, 0, delta + 1, bias, h, text)
    ensures h < |a| ==> exists i :: 0 <= i < |a| && a[i] > n
  {
    hide Handled, Below, Tail, BiasAfter, DeltasOf, Distance, Literal;
    RoundEnds(a, n);
    HandledStart(a, n + 1);
    BelowNothing(n + 2);
    if h < |a| {
      BelowShort(a, n + 1);
    }
  }

  lemma BelowNothing(n: nat)
    ensures Below([], n) == []
  {
  }

  /** encode_ without case flags; the length of `output` is the room for characters. */
  method Encode(input: seq<uint32>, output: array<Byte>) returns (status: Status, outputLength: nat)
    requires |input| <= MAX32 && output.Length <= MAX32
    modifies output
    ensures status == Success ==>
              outputLength <= output.Length && output[..outputLength] == EncodedText(input)
    ensures status == Success <==> EncodeFits(input) && |EncodedText(input)| <= output.Length
    ensures status == EncodeVerdict(input, output.Length)
    ensures status == Overflow ==> !EncodeFits(input)
    ensures status == BigOutput ==> |EncodedText(input)| > output.Length
    ensures status != BadInput
  {
    hide Encoding, EncodeFits, EncodedText, EncodeVerdict, Below, Times;
    EncodeJustified(input, output.Length);
    var ok, b, out := EncodeLiteral(input, output);
    LiteralInText(input);
    if !ok {
      LiteralVerdict(input, output.Length);
      return BigOutput, 0;
    }
    var n: uint32, delta: uint32, bias: uint32 := INITIAL_N, 0, INITIAL_BIAS;
    var h: nat := b;
    EncodingStarts(input);
    while h < |input|
      invariant 0 <= out <= output.Length && h <= |input|
      invariant h < |input| ==> Encoding(input, n, 0, delta, bias, h, output[..out])
      invariant h == |input| ==> output[..out] == EncodedText(input) && EncodeFits(input)
      decreases |input| - h
    {
      var m := NextCodePoint(input, n);
      EncodingSkips(input, n, m, delta, bias, h, output[..out], output.Length);
      if m - n > (MAX32 - delta) / (h + 1) {
        return Overflow, 0;
      }
      delta := delta + Times(m - n, h + 1);
      n := m;
      status, delta, bias, h, out := EncodeRound(input, output, n, delta, bias, h, out, b);
      if status != Success {
        return status, 0;
      }
      EncodingNextRound(input, n, delta, bias, h, output[..out]);
      if h == |input| {
        EncodingEnds(input, n, |input|, delta, bias, output[..out]);
      }
      delta := delta + 1;
      n := if n == MAX32 then 0 else n + 1;
    }
    return Success, out;
  }

  lemma LiteralInText(a: seq<nat>)
    ensures |Below(a, INITIAL_N)| <= |a|
    ensures |Below(a, INITIAL_N)| == |a| ==> EncodedText(a) == Literal(Below(a, INITIAL_N)) && EncodeFits(a)
  {
    if |Below(a, INITIAL_N)| == |a| {
      BelowFull(a, INITIAL_N);
    }
  }

  lemma LiteralVerdict(a: seq<nat>, room: nat)
    requires |Literal(Below(a, INITIAL_N))| > room
    ensures EncodeVerdict(a, room) == BigOutput
  {
    hide EncodeVerdict;
    assert DeltasOf(a)[..0] == [];
    TooLong(a, 0, room);
  }

  // ---- The laws of the code ----

  /** Encoding into a large enough buffer and decoding again. The encoder may accept an array that
      the decoder then refuses, because the decoder adds its delta to a position and multiplies
      weights; it does so exactly when `DecodeFits` fails. */
  method EncodeThenDecode(a: seq<uint32>, text: array<Byte>, back: array<uint32>)
    returns (encoded: Status, decoded: Status, length: nat)
    requires |a| <= MAX32 && text.Length <= MAX32 && |a| <= back.Length < MAX32
    modifies text, back
    ensures encoded == Success <==> EncodeFits(a) && |EncodedText(a)| <= text.Length
    ensures encoded == Success ==>
              && (decoded == Success <==> DecodeFits(a))
              && (decoded == Success ==> length <= back.Length && back[..length] == a)
              && (decoded != Success ==> decoded == Overflow)
  {
    hide DecodeFits, EncodeFits, DecodedText, EncodedText;
    length := 0;
    encoded, length := Encode(a, text);
    decoded := BadInput;
    if encoded == Success {
      DecodeEncoded(a);
      decoded, length := Decode(text[..length], back);
    }
  }

  /** Under the stated bound nothing overflows on the way there or back. */
  lemma RoundTrip(a: seq<nat>, top: nat)
    requires Within(a, top) && 35 * ((top + 1) * (|a| + 1)) <= 0xffff_ffff
    ensures EncodeFits(a) && DecodeFits(a)
    ensures DecodedText(EncodedText(a)) == Some(a)
  {
    BoundFits(a, top, |a|);
    DecodeFitsEncode(a);
    DecodeEncoded(a);
  }

  /** Encoding alone may succeed: U+10FF71 before 3854 letters, and U+0080 behind them. */
  lemma EncodesWithoutDecoding()
    ensures var a := [0x10FF71] + seq(3854, _ => 0x61) + [0x80]; EncodeFits(a) && !DecodeFits(a)
  {
    hide DecodeFits, EncodeFits;
    var letters: seq<nat> := seq(3854, _ => 0x61);
    ApartFits(0x10FF71, letters, 0x80);
  }

  /** An extended code point before basic ones, and a smaller one behind them. The encoder holds the distance that is
      left, the decoder the whole of it. */
  lemma ApartFits(y: nat, basics: seq<nat>, x: nat)
    requires INITIAL_N <= x < y && forall i :: 0 <= i < |basics| ==> basics[i] < INITIAL_N
    ensures var a, n := [y] + basics + [x], |basics|;
            && (EncodeFits(a) <==> (x - INITIAL_N) * (n + 1) + n <= MAX32 && (y - x) * (n + 2) - (n + 1) <= MAX32)
            && (DecodeFits(a) ==> (y - x) * (n + 2) <= MAX32)
  {
    hide DecodeFits, EncodeFits, DeltasOf, Front, Without, Distance;
    var a, r := [y] + basics + [x], basics + [x];
    ApartDeltas(y, basics, x);
    ApartDistances(y, basics, x);
    TwoFit(a, Distance(basics, x, |basics|), Distance(r, y, 0));
    if DecodeFits(a) {
      FirstOut(a, r);
      PositionsFit(a, 0);
    }
  }

  lemma TwoFit(a: seq<nat>, d: nat, e: nat)
    requires DeltasOf(a) == [d, e]
    ensures EncodeFits(a) <==> d <= MAX32 && e <= MAX32
  {
    hide DeltasOf;
    assert DeltasOf(a)[0] == d && DeltasOf(a)[1] == e;
  }

  lemma ApartDeltas(y: nat, basics: seq<nat>, x: nat)
    requires INITIAL_N <= x < y && forall i :: 0 <= i < |basics| ==> basics[i] < INITIAL_N
    ensures var r := basics + [x];
            && Distance(basics, x, |basics|) >= 0 && Distance(r, y, 0) >= 0
            && DeltasOf([y] + basics + [x]) == [Distance(basics, x, |basics|), Distance(r, y, 0)]
            && Front(basics) == (INITIAL_N, 0) && Front(r) == (x, |r|)
  {
    hide LastMax, Front, DeltasOf, Without, Distance;
    var r := basics + [x];
    RunNothing(basics);
    OneBehind(basics, x);
    OneInFront(y, r);
    assert [y] + r == [y] + basics + [x];
  }

  lemma OneBehind(s: seq<nat>, x: nat)
    requires x >= INITIAL_N && forall i :: 0 <= i < |s| ==> s[i] <= x
    ensures Distance(s, x, |s|) >= 0 && Front(s + [x]) == (x, |s| + 1)
    ensures DeltasOf(s + [x]) == DeltasOf(s) + [Distance(s, x, |s|)]
  {
    hide Front, DeltasOf, Distance;
    var none: seq<nat> := [];
    assert s + none == s && s + [x] + none == s + [x];
    DeltasAppend(s, x, none);
  }

  lemma OneInFront(y: nat, s: seq<nat>)
    requires y >= INITIAL_N && forall i :: 0 <= i < |s| ==> s[i] < y
    ensures Distance(s, y, 0) >= 0 && DeltasOf([y] + s) == DeltasOf(s) + [Distance(s, y, 0)]
  {
    hide Front, DeltasOf, Distance;
    var none: seq<nat> := [];
    assert none + s == s && none + [y] + s == [y] + s;
    DeltasAppend(none, y, s);
  }

  lemma ApartDistances(y: nat, basics: seq<nat>, x: nat)
    requires Front(basics) == (INITIAL_N, 0) && Front(basics + [x]) == (x, |basics| + 1)
    ensures Distance(basics, x, |basics|) == (x - INITIAL_N) * (|basics| + 1) + |basics|
    ensures Distance(basics + [x], y, 0) == (y - x) * (|basics| + 2) - (|basics| + 1)
  {
    hide Front;
    assert |basics + [x]| + 1 == |basics| + 2;
  }

  lemma FirstOut(a: seq<nat>, r: seq<nat>)
    requires |a| == |r| + 1 && a[1..] == r && a[0] >= INITIAL_N && forall i :: 0 <= i < |r| ==> r[i] < a[0]
    ensures IsLast(a, 0) && Without(a, 0) == r
  {
    assert forall i :: 0 < i < |a| ==> a[i] == r[i - 1];
  }

  lemma PositionsFit(a: seq<nat>, p: nat)
    requires IsLast(a, p) && DecodeFits(a)
    ensures Front(Without(a, p)).1 + Distance(Without(a, p), a[p], p) <= MAX32
  {
    LastUnique(a, p, LastMax(a));
  }

  /** Whatever decodes encodes again, to the same text in its canonical spelling. */
  lemma Reencoded(x: seq<Byte>)
    requires DecodedText(x).Some? && DecodeFits(DecodedText(x).value)
    ensures EncodeFits(DecodedText(x).value)
    ensures EncodedText(DecodedText(x).value) == Canonical(x)
    ensures |DecodedText(x).value| <= |x|
  {
    EncodeDecoded(x);
    DecodeFitsEncode(DecodedText(x).value);
  }
}
