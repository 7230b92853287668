/** What decoding a text in 32 bits and limited room has to answer: which of the four outcomes, in terms of the integers
    that can be read from it. */
module PunyVerdict {
  import opened Bytes
  import opened PunyNumbers
  import opened PunyInsert
  import opened PunyText
  import opened PunyFits
  import opened PunyReading

  /** The integers that can be read from `at` on, and where that ends: behind the last character, or before an integer
      that breaks off. */
  function Readable(x: seq<Byte>, at: nat, b: nat, deltas: seq<nat>): (r: (seq<nat>, nat))
    requires at <= |x|
    ensures deltas <= r.0 && at <= r.1 <= |x| && |r.0| - |deltas| <= r.1 - at
    decreases |x| - at
  {
    if at == |x| then (deltas, at)
    else
      match Parse(x[at..], BASE, BiasAfter(b, deltas))
      case None => (deltas, at)
      case Some((v, used)) => Readable(x, at + used, b, deltas + [v])
  }

  lemma {:induction false} ReadableParses(x: seq<Byte>, at: nat, b: nat, deltas: seq<nat>)
    requires at <= |x|
    ensures var r := Readable(x, at, b, deltas);
            && ParseAll(x, at, b, deltas) == (if r.1 == |x| then Some(r.0) else None)
            && (r.1 < |x| ==> Broken(x[r.1..], BiasAfter(b, r.0)))
    decreases |x| - at
  {
    hide Parse, BiasAfter, Broken;
    if at < |x| {
      BrokenIsNone(x[at..], BiasAfter(b, deltas));
      if Parse(x[at..], BASE, BiasAfter(b, deltas)).Some? {
        var (v, used) := Parse(x[at..], BASE, BiasAfter(b, deltas)).value;
        ReadableParses(x, at + used, b, deltas + [v]);
      }
    }
  }

  /** The outcome when the literal part has `b` basic code points, `all` integers can be read, and that ends at `at`:
      numbers of 32 bits are needed for all integers up to the first one for which there is no room, and for what there
      is of the one that breaks off. */
  ghost function Outcome(x: seq<Byte>, b: nat, all: seq<nat>, at: nat, room: nat): Status
    requires b <= |x| && at <= |x| && b <= room
  {
    var k := if |all| <= room - b then |all| else room - b + 1;
    if !DecodeFits(Run(Start(x[..b]), all[..k]).arr) then Overflow
    else if |all| > room - b then BigOutput
    else if at == |x| then Success
    else if Overflows(x[at..], BiasAfter(b, all), Run(Start(x[..b]), all).i) then Overflow
    else BadInput
  }

  ghost function DecodeVerdict(x: seq<Byte>, room: nat): Status {
    var b := LastDelimiter(x);
    if b > room then BigOutput
    else if !AllBasic(x[..b]) then BadInput
    else
      var (all, at) := Readable(x, DigitsFrom(x), b, []);
      Outcome(x, b, all, at, room)
  }

  // ---- What the verdict means ----

  /** A failure for which there is a reason: the text is malformed, or what it decodes to needs more
      than 32 bits somewhere, or more room. */
  ghost predicate Justified(x: seq<Byte>, status: Status, room: nat) {
    && status != Success
    && (DecodedText(x).Some? ==>
          var a := DecodedText(x).value;
          && status != BadInput
          && (status == Overflow ==> !DecodeFits(a))
          && (status == BigOutput ==> |a| > room))
    && (|x| <= room ==> status != BigOutput)
  }

  lemma LiteralParses(x: seq<Byte>)
    ensures var b := LastDelimiter(x);
            var (all, at) := Readable(x, DigitsFrom(x), b, []);
            && (!AllBasic(x[..b]) ==> DecodedText(x).None?)
            && (AllBasic(x[..b]) ==>
                  DecodedText(x) == if at == |x| then Some(Run(Start(x[..b]), all).arr) else None)
            && (AllBasic(x[..b]) ==> |Run(Start(x[..b]), all).arr| == b + |all|)
            && |all| + DigitsFrom(x) <= at
  {
    hide ParseAll, Run, Readable, Front, Settled, DeltasOf, Below;
    var b := LastDelimiter(x);
    ReadableParses(x, DigitsFrom(x), b, []);
    if AllBasic(x[..b]) {
      DeltasRun(x[..b], Readable(x, DigitsFrom(x), b, []).0);
    }
  }

  lemma VerdictJustified(x: seq<Byte>, room: nat)
    ensures DecodeVerdict(x, room) != Success ==> Justified(x, DecodeVerdict(x, room), room)
    ensures DecodedText(x).Some? ==>
              var a := DecodedText(x).value;
              DecodeVerdict(x, room) == Success <==> DecodeFits(a) && |a| <= room
  {
    hide Run, Readable, DecodeFits, Overflows, DecodedText, BiasAfter;
    LiteralParses(x);
    var b := LastDelimiter(x);
    if b <= room && AllBasic(x[..b]) {
      var (all, at) := Readable(x, DigitsFrom(x), b, []);
      var k := if |all| <= room - b then |all| else room - b + 1;
      if DecodeFits(Run(Start(x[..b]), all).arr) {
        FitsPrefix(x[..b], all, k);
      }
      assert all[..|all|] == all;
    }
  }

  lemma VerdictLiteral(x: seq<Byte>, room: nat)
    ensures LastDelimiter(x) > room ==> DecodeVerdict(x, room) == BigOutput
    ensures LastDelimiter(x) <= room && !AllBasic(x[..LastDelimiter(x)]) ==> DecodeVerdict(x, room) == BadInput
  {
    hide Outcome, Readable;
  }

  /** A text whose integers break off, with room for those before that: it is bad input if and only if neither they nor
      what there is of the last one overflow. */
  lemma BrokenVerdict(x: seq<Byte>, room: nat)
    requires DecodedText(x).None? && AllBasic(x[..LastDelimiter(x)])
    requires LastDelimiter(x) + |Readable(x, DigitsFrom(x), LastDelimiter(x), []).0| <= room
    ensures var b := LastDelimiter(x);
            var (all, at) := Readable(x, DigitsFrom(x), b, []);
            var st := Run(Start(x[..b]), all);
            && at < |x| && Broken(x[at..], BiasAfter(b, all))
            && DecodeVerdict(x, room)
            == if DecodeFits(st.arr) && !Overflows(x[at..], BiasAfter(b, all), st.i) then BadInput else Overflow
  {
    hide Run, Readable, DecodeFits, Overflows, DecodedText, BiasAfter, Broken;
    LiteralParses(x);
    var b := LastDelimiter(x);
    ReadableParses(x, DigitsFrom(x), b, []);
    var all := Readable(x, DigitsFrom(x), b, []).0;
    assert all[..|all|] == all;
  }

  /** A text that is cut off behind its literal part: as much as there is never overflows, so it is bad input unless the
      cut is between two integers. */
  lemma CutOff(x: seq<Byte>, l: nat, room: nat)
    requires DigitsFrom(x) <= l <= |x|
    requires DecodedText(x).Some? && DecodeFits(DecodedText(x).value) && |DecodedText(x).value| <= room
    ensures DecodeVerdict(x[..l], room) == if DecodedText(x[..l]).Some? then Success else BadInput
  {
    hide Run, Readable, DecodeFits, Overflows, DecodedText, BiasAfter, DecodeVerdict, Broken, Start;
    var b, from := LastDelimiter(x), DigitsFrom(x);
    CutLiteral(x, l);
    LiteralParses(x);
    LiteralParses(x[..l]);
    CutReadable(x, l, from, b, []);
    var (some, at) := Readable(x[..l], from, b, []);
    var all := Readable(x, from, b, []).0;
    assert all[..|some|] == some;
    FitsPrefix(x[..b], all, |some|);
    VerdictJustified(x[..l], room);
    if at < l {
      CutFits(x, at, b, some, all);
      BrokenVerdict(x[..l], room);
      assert x[..l][at..] == x[at..][..l - at];
      if Overflows(x[at..][..l - at], BiasAfter(b, some), Run(Start(x[..b]), some).i) {
        OverflowsLonger(x[at..], l - at, BiasAfter(b, some), Run(Start(x[..b]), some).i);
      }
    }
  }

  lemma CutLiteral(x: seq<Byte>, l: nat)
    requires DigitsFrom(x) <= l <= |x|
    ensures LastDelimiter(x[..l]) == LastDelimiter(x) && DigitsFrom(x[..l]) == DigitsFrom(x)
    ensures x[..l][..LastDelimiter(x)] == x[..LastDelimiter(x)]
  {
    var b, c := LastDelimiter(x), LastDelimiter(x[..l]);
    if b > 0 {
      assert x[..l][b] == DELIMITER;
    }
    if c > 0 {
      assert x[c] == DELIMITER;
    }
  }

  lemma {:induction false} CutReadable(x: seq<Byte>, l: nat, at: nat, b: nat, deltas: seq<nat>)
    requires at <= l <= |x|
    ensures var (some, end) := Readable(x[..l], at, b, deltas);
            Readable(x, end, b, some) == Readable(x, at, b, deltas)
    decreases l - at
  {
    hide Parse, BiasAfter;
    if at < l {
      var bias := BiasAfter(b, deltas);
      assert x[..l][at..] == x[at..][..l - at];
      if Parse(x[at..][..l - at], BASE, bias).Some? {
        ParseLonger(x[at..], l - at, BASE, bias);
        var (v, used) := Parse(x[at..], BASE, bias).value;
        CutReadable(x, l, at + used, b, deltas + [v]);
      }
    }
  }

  lemma AllReadable(x: seq<Byte>, at: nat, b: nat, deltas: seq<nat>)
    requires at < |x| && Readable(x, at, b, deltas).1 == |x|
    ensures Parse(x[at..], BASE, BiasAfter(b, deltas)).Some?
    ensures deltas + [Parse(x[at..], BASE, BiasAfter(b, deltas)).value.0] <= Readable(x, at, b, deltas).0
  {
    hide Parse, BiasAfter;
  }

  /** The integer that is cut does not overflow in the whole text. */
  lemma CutFits(x: seq<Byte>, at: nat, b: nat, some: seq<nat>, all: seq<nat>)
    requires at < |x| && b <= |x| && AllBasic(x[..b]) && DecodeFits(Run(Start(x[..b]), all).arr)
    requires Readable(x, at, b, some) == (all, |x|)
    ensures !Overflows(x[at..], BiasAfter(b, some), Run(Start(x[..b]), some).i)
  {
    hide Parse, BiasAfter, Run, DecodeFits, Overflows, TopWeight, Step, Readable;
    AllReadable(x, at, b, some);
    var v := Parse(x[at..], BASE, BiasAfter(b, some)).value.0;
    assert all[..|some| + 1] == some + [v];
    FitsPrefix(x[..b], all, |some| + 1);
    FitsStep(x[..b], some, v);
    if Overflows(x[at..], BiasAfter(b, some), Run(Start(x[..b]), some).i) {
      OverflowIsTooLarge(x[at..], BiasAfter(b, some), Run(Start(x[..b]), some).i);
    }
  }

  // ---- How the decoder reaches it ----

  /** The state after some integers have been read, and what is left to read. */
  ghost predicate Decoding(x: seq<Byte>, b: nat, at: nat, deltas: seq<nat>, out: seq<nat>, n: nat, i: nat) {
    && b == LastDelimiter(x) && AllBasic(x[..b]) && at <= |x|
    && Run(Start(x[..b]), deltas) == State(out, n, i)
    && Readable(x, at, b, deltas) == Readable(x, DigitsFrom(x), b, [])
    && DecodeFits(out) && |out| == b + |deltas| <= at
    && i <= |out| && (i == 0 <==> deltas == [])
  }

  lemma DecodingStarts(x: seq<Byte>, b: nat)
    requires b == LastDelimiter(x) && AllBasic(x[..b])
    ensures Decoding(x, b, DigitsFrom(x), [], x[..b], INITIAL_N, 0)
  {
    DeltasRun(x[..b], []);
  }

  /** What the next integer makes of the state */
  lemma DecodingNext(x: seq<Byte>, b: nat, at: nat, deltas: seq<nat>, out: seq<nat>, n: nat, i: nat)
    requires Decoding(x, b, at, deltas, out, n, i) && at < |x|
    ensures Parse(x[at..], BASE, BiasAfter(b, deltas)).Some? ==>
              var (v, used) := Parse(x[at..], BASE, BiasAfter(b, deltas)).value;
              var st' := Step(State(out, n, i), v);
              && at + used <= |x|
              && (DecodeFits(st'.arr) ==> Decoding(x, b, at + used, deltas + [v], st'.arr, st'.n, st'.i))
              && (DecodeFits(st'.arr) <==>
                    st'.n <= MAX32 && i + v <= MAX32 && TopWeight(v, BASE, BiasAfter(b, deltas)) <= MAX32)
  {
    hide Parse, Digits, BiasAfter, TopWeight, DecodeFits, Step, Run;
    if Parse(x[at..], BASE, BiasAfter(b, deltas)).Some? {
      var (v, used) := Parse(x[at..], BASE, BiasAfter(b, deltas)).value;
      FitsStep(x[..b], deltas, v);
      StepIndex(State(out, n, i), v);
    }
  }

  lemma StepIndex(st: State, v: nat)
    ensures var st' := Step(st, v); 1 <= st'.i <= |st'.arr| == |st.arr| + 1
  {
  }

  /** What it means when the next integer breaks off, is too large, or has no room. */
  lemma VerdictNext(x: seq<Byte>, b: nat, at: nat, deltas: seq<nat>, out: seq<nat>, n: nat, i: nat, room: nat)
    requires Decoding(x, b, at, deltas, out, n, i) && at < |x| && |out| <= room
    ensures Parse(x[at..], BASE, BiasAfter(b, deltas)).None? ==>
              DecodeVerdict(x, room) == if Overflows(x[at..], BiasAfter(b, deltas), i) then Overflow else BadInput
    ensures Parse(x[at..], BASE, BiasAfter(b, deltas)).Some? ==>
              var v := Parse(x[at..], BASE, BiasAfter(b, deltas)).value.0;
              var st' := Step(State(out, n, i), v);
              && (!DecodeFits(st'.arr) ==> DecodeVerdict(x, room) == Overflow)
              && (DecodeFits(st'.arr) && |out| == room ==> DecodeVerdict(x, room) == BigOutput)
  {
    hide Parse, BiasAfter, DecodeFits, Step, Run, Overflows, Outcome;
    match Parse(x[at..], BASE, BiasAfter(b, deltas))
    case None =>
      OutcomeBroken(x, b, at, deltas, room);
    case Some((v, used)) =>
      RunMore(x[..b], deltas, v);
      var (all, end) := Readable(x, at + used, b, deltas + [v]);
      assert all[..|deltas| + 1] == deltas + [v];
      OutcomeNext(x, b, all, end, |deltas| + 1, room);
  }

  lemma RunMore(basics: seq<nat>, deltas: seq<nat>, v: nat)
    ensures Run(Start(basics), deltas + [v]) == Step(Run(Start(basics), deltas), v)
  {
    hide Step;
    assert (deltas + [v])[..|deltas + [v]| - 1] == deltas;
  }

  lemma OutcomeBroken(x: seq<Byte>, b: nat, at: nat, all: seq<nat>, room: nat)
    requires b <= at < |x| && b + |all| <= room && DecodeFits(Run(Start(x[..b]), all).arr)
    ensures Outcome(x, b, all, at, room)
         == if Overflows(x[at..], BiasAfter(b, all), Run(Start(x[..b]), all).i) then Overflow else BadInput
  {
    hide BiasAfter, DecodeFits, Run, Overflows;
    assert all[..|all|] == all;
  }

  lemma OutcomeNext(x: seq<Byte>, b: nat, all: seq<nat>, at: nat, k: nat, room: nat)
    requires b <= |x| && at <= |x| && AllBasic(x[..b]) && 0 < k <= |all| && b + k - 1 <= room
    ensures !DecodeFits(Run(Start(x[..b]), all[..k]).arr) ==> Outcome(x, b, all, at, room) == Overflow
    ensures DecodeFits(Run(Start(x[..b]), all[..k]).arr) && b + k - 1 == room ==>
              Outcome(x, b, all, at, room) == BigOutput
  {
    hide BiasAfter, DecodeFits, Run, Overflows;
    var m := if |all| <= room - b then |all| else room - b + 1;
    if DecodeFits(Run(Start(x[..b]), all[..m]).arr) {
      FitsPrefix(x[..b], all[..m], k);
      assert all[..m][..k] == all[..k];
    }
  }

  lemma DecodingEnds(x: seq<Byte>, b: nat, at: nat, deltas: seq<nat>, out: seq<nat>, n: nat, i: nat, room: nat)
    requires Decoding(x, b, at, deltas, out, n, i) && at == |x| && |out| <= room
    ensures DecodedText(x) == Some(out) && DecodeFits(out)
    ensures DecodeVerdict(x, room) == Success
  {
    hide Run, DecodeFits, BiasAfter, Overflows;
    LiteralParses(x);
    assert deltas[..|deltas|] == deltas;
  }

  // ---- Encoding ----

  /** How many deltas there are before the first one beyond 32 bits */
  function Holding(deltas: seq<nat>): (k: nat)
    ensures k <= |deltas| && (k < |deltas| ==> deltas[k] > 0xffff_ffff)
    ensures forall j :: 0 <= j < k ==> deltas[j] <= 0xffff_ffff
  {
    if deltas == [] || deltas[0] > MAX32 then 0 else 1 + Holding(deltas[1..])
  }

  /** What encoding has to answer: it is stopped by the room if the text of the deltas before the first one beyond 32
      bits is too long already. */
  function EncodeVerdict(a: seq<nat>, room: nat): Status {
    var basics, deltas := Below(a, INITIAL_N), DeltasOf(a);
    var k := Holding(deltas);
    if |Literal(basics)| + |Tail(|basics|, deltas[..k])| > room then BigOutput
    else if k < |deltas| then Overflow
    else Success
  }

  lemma HoldingIs(deltas: seq<nat>, k: nat)
    requires k <= |deltas| && forall j :: 0 <= j < k ==> deltas[j] <= MAX32
    ensures k <= Holding(deltas)
    ensures k < |deltas| && deltas[k] > MAX32 ==> Holding(deltas) == k
  {
  }

  lemma EncodeJustified(a: seq<nat>, room: nat)
    ensures EncodeVerdict(a, room) == Success <==> EncodeFits(a) && |EncodedText(a)| <= room
    ensures EncodeVerdict(a, room) == Overflow ==> !EncodeFits(a)
    ensures EncodeVerdict(a, room) == BigOutput ==> |EncodedText(a)| > room
    ensures EncodeVerdict(a, room) != BadInput
  {
    hide DeltasOf, Tail, Below, Literal;
    var deltas := DeltasOf(a);
    TailPrefix(|Below(a, INITIAL_N)|, deltas, Holding(deltas));
    HoldingIs(deltas, 0);
    assert deltas[..|deltas|] == deltas;
  }

  /** The text of the first deltas is too long. */
  lemma TooLong(a: seq<nat>, k: nat, room: nat)
    requires k <= |DeltasOf(a)| && forall j :: 0 <= j < k ==> DeltasOf(a)[j] <= MAX32
    requires |Literal(Below(a, INITIAL_N))| + |Tail(|Below(a, INITIAL_N)|, DeltasOf(a)[..k])| > room
    ensures EncodeVerdict(a, room) == BigOutput
  {
    hide DeltasOf, Tail, Below, Literal;
    var deltas := DeltasOf(a);
    HoldingIs(deltas, k);
    TailPrefix(|Below(a, INITIAL_N)|, deltas[..Holding(deltas)], k);
    assert deltas[..Holding(deltas)][..k] == deltas[..k];
  }

  /** The next delta is too large. */
  lemma TooLarge(a: seq<nat>, k: nat, room: nat)
    requires k < |DeltasOf(a)| && DeltasOf(a)[k] > MAX32 && forall j :: 0 <= j < k ==> DeltasOf(a)[j] <= MAX32
    requires |Literal(Below(a, INITIAL_N))| + |Tail(|Below(a, INITIAL_N)|, DeltasOf(a)[..k])| <= room
    ensures EncodeVerdict(a, room) == Overflow
  {
    hide DeltasOf, Tail, Below, Literal;
    HoldingIs(DeltasOf(a), k);
  }
}
