/** Punycode texts (section 3 of RFC 3492): what text stands for an array of code points, and the
    two directions of the round trip, on unbounded numbers. */
module PunyText {
  import opened Bytes
  import opened PunyNumbers
  import opened PunyInsert

  /** The bias for the integer that follows `deltas`, with `b` basic code points. */
  function BiasAfter(b: nat, deltas: seq<nat>): nat {
    if deltas == [] then INITIAL_BIAS
    else Adapt(deltas[|deltas| - 1], b + |deltas|, |deltas| == 1)
  }

  function Tail(b: nat, deltas: seq<nat>): seq<Byte> {
    if deltas == [] then []
    else
      var init := deltas[..|deltas| - 1];
      Tail(b, init) + Digits(deltas[|deltas| - 1], BASE, BiasAfter(b, init))
  }

  /** The literal part with its delimiter, which is left out when there is nothing before it. */
  function Literal(basics: seq<nat>): seq<Byte>
    requires forall i :: 0 <= i < |basics| ==> basics[i] < INITIAL_N
  {
    if basics == [] then [] else basics + [DELIMITER]
  }

  function EncodedText(a: seq<nat>): seq<Byte> {
    var basics := Below(a, INITIAL_N);
    Literal(basics) + Tail(|basics|, DeltasOf(a))
  }

  /** Position of the last delimiter, or 0. */
  function LastDelimiter(x: seq<Byte>): (b: nat)
    ensures x == [] ==> b == 0
    ensures x != [] ==> b < |x|
    ensures b > 0 ==> x[b] == DELIMITER
    ensures forall j :: b < j < |x| ==> x[j] != DELIMITER
  {
    if x == [] then 0
    else if x[|x| - 1] == DELIMITER then |x| - 1
    else LastDelimiter(x[..|x| - 1])
  }

  /** Where the integers begin. */
  function DigitsFrom(x: seq<Byte>): (at: nat)
    ensures at <= |x|
  {
    var b := LastDelimiter(x);
    if b > 0 then b + 1 else 0
  }

  function ParseAll(x: seq<Byte>, at: nat, b: nat, deltas: seq<nat>): (r: Option<seq<nat>>)
    requires at <= |x|
    decreases |x| - at
  {
    if at == |x| then Some(deltas)
    else
      match Parse(x[at..], BASE, BiasAfter(b, deltas))
      case None => None
      case Some((v, used)) => ParseAll(x, at + used, b, deltas + [v])
  }

  predicate AllBasic(x: seq<Byte>) {
    forall j :: 0 <= j < |x| ==> x[j] < INITIAL_N
  }

  /** What a text decodes to, if it is well-formed. */
  function DecodedText(x: seq<Byte>): Option<seq<nat>> {
    var b := LastDelimiter(x);
    if !AllBasic(x[..b]) then None
    else
      match ParseAll(x, DigitsFrom(x), b, [])
      case None => None
      case Some(deltas) => Some(Run(Start(x[..b]), deltas).arr)
  }

  // ---- Encoded, then decoded ----

  lemma {:induction false} TailNoDelimiter(b: nat, deltas: seq<nat>)
    ensures DELIMITER !in Tail(b, deltas)
  {
    if deltas != [] {
      var init := deltas[..|deltas| - 1];
      TailNoDelimiter(b, init);
      DigitsNoDelimiter(deltas[|deltas| - 1], BASE, BiasAfter(b, init));
    }
  }

  /** The text of the first integers is the front of the text of all. */
  lemma {:induction false} TailPrefix(b: nat, deltas: seq<nat>, k: nat)
    requires k <= |deltas|
    ensures Tail(b, deltas[..k]) <= Tail(b, deltas)
    decreases |deltas|
  {
    if k < |deltas| {
      var init := deltas[..|deltas| - 1];
      TailPrefix(b, init, k);
      assert init[..k] == deltas[..k];
    } else {
      assert deltas[..k] == deltas;
    }
  }

  /** Reading on from the text of the first `k` integers gets all of them. */
  lemma {:induction false} ParseTail(pre: seq<Byte>, b: nat, deltas: seq<nat>, k: nat)
    requires k <= |deltas|
    ensures Tail(b, deltas[..k]) <= Tail(b, deltas)
    ensures ParseAll(pre + Tail(b, deltas), |pre| + |Tail(b, deltas[..k])|, b, deltas[..k]) == Some(deltas)
    decreases |deltas| - k
  {
    hide Digits, Parse, BiasAfter, Tail;
    TailPrefix(b, deltas, k);
    var x := pre + Tail(b, deltas);
    var at := |pre| + |Tail(b, deltas[..k])|;
    if k == |deltas| {
      assert deltas[..k] == deltas;
    } else {
      TailPrefix(b, deltas, k + 1);
      ParseTail(pre, b, deltas, k + 1);
      TailStep(b, deltas, k);
      var bias := BiasAfter(b, deltas[..k]);
      var d := Digits(deltas[k], BASE, bias);
      var rest := Tail(b, deltas)[|Tail(b, deltas[..k + 1])|..];
      assert x[at..] == d + rest;
      ParseDigits(deltas[k], BASE, bias, rest);
      assert deltas[..k] + [deltas[k]] == deltas[..k + 1];
    }
  }

  lemma TailStep(b: nat, deltas: seq<nat>, k: nat)
    requires k < |deltas|
    ensures Tail(b, deltas[..k + 1])
         == Tail(b, deltas[..k]) + Digits(deltas[k], BASE, BiasAfter(b, deltas[..k]))
  {
    var s := deltas[..k + 1];
    assert s[..|s| - 1] == deltas[..k];
  }

  lemma LastDelimiterOfText(basics: seq<nat>, tail: seq<Byte>)
    requires forall i :: 0 <= i < |basics| ==> basics[i] < INITIAL_N
    requires DELIMITER !in tail
    ensures LastDelimiter(Literal(basics) + tail) == |basics|
    ensures DigitsFrom(Literal(basics) + tail) == |Literal(basics)|
    ensures (Literal(basics) + tail)[..|basics|] == basics
  {
    var x := Literal(basics) + tail;
    var b := LastDelimiter(x);
    if basics == [] {
      assert x == tail;
    } else {
      assert x[|basics|] == DELIMITER;
      forall j | |basics| < j < |x|
        ensures x[j] != DELIMITER
      {
        assert x[j] == tail[j - |basics| - 1];
      }
    }
  }

  /** Decoding the text of an array gives the array back. */
  lemma DecodeEncoded(a: seq<nat>)
    ensures DecodedText(EncodedText(a)) == Some(a)
  {
    var basics := Below(a, INITIAL_N);
    var d := DeltasOf(a);
    var x := EncodedText(a);
    TailNoDelimiter(|basics|, d);
    LastDelimiterOfText(basics, Tail(|basics|, d));
    ParseTail(Literal(basics), |basics|, d, 0);
    assert d[..0] == [];
    assert Literal(basics) + Tail(|basics|, d) == x;
    assert |Tail(|basics|, [])| == 0;
    RunDeltas(a);
  }

  // ---- Decoded, then encoded ----

  /** A text with the letters of its integers in lower case. */
  function Canonical(x: seq<Byte>): seq<Byte> {
    x[..DigitsFrom(x)] + LowerAll(x[DigitsFrom(x)..])
  }

  lemma LowerAppend(s: seq<Byte>, t: seq<Byte>)
    ensures LowerAll(s + t) == LowerAll(s) + LowerAll(t)
  {
  }

  lemma SliceOn(x: seq<Byte>, from: nat, at: nat, used: nat)
    requires from <= at && at + used <= |x|
    ensures x[from..at + used] == x[from..at] + x[at..][..used]
  {
    assert x[at..][..used] == x[at..at + used];
  }

  /** All that is read is what would be written. */
  lemma {:induction false} TailParse(x: seq<Byte>, from: nat, at: nat, b: nat, deltas: seq<nat>)
    requires from <= at <= |x| && LowerAll(x[from..at]) == Tail(b, deltas)
    requires ParseAll(x, at, b, deltas).Some?
    ensures var all := ParseAll(x, at, b, deltas).value;
            && deltas <= all && |all| - |deltas| <= |x| - at
            && LowerAll(x[from..]) == Tail(b, all)
    decreases |x| - at
  {
    hide Digits, BiasAfter, Parse, Tail, LowerAll;
    if at == |x| {
      assert x[from..at] == x[from..];
    } else {
      var (v, used) := Parse(x[at..], BASE, BiasAfter(b, deltas)).value;
      TailLonger(x, from, at, b, deltas);
      TailParse(x, from, at + used, b, deltas + [v]);
    }
  }

  /** One integer more has been read. */
  lemma TailLonger(x: seq<Byte>, from: nat, at: nat, b: nat, deltas: seq<nat>)
    requires from <= at < |x| && LowerAll(x[from..at]) == Tail(b, deltas)
    requires Parse(x[at..], BASE, BiasAfter(b, deltas)).Some?
    ensures var (v, used) := Parse(x[at..], BASE, BiasAfter(b, deltas)).value;
            at + used <= |x| && LowerAll(x[from..at + used]) == Tail(b, deltas + [v])
  {
    hide Digits, BiasAfter, Parse, LowerAll;
    var bias := BiasAfter(b, deltas);
    var (v, used) := Parse(x[at..], BASE, bias).value;
    DigitsParse(x[at..], BASE, bias);
    SliceOn(x, from, at, used);
    LowerAppend(x[from..at], x[at..][..used]);
    var longer := deltas + [v];
    assert longer[..|longer| - 1] == deltas;
  }

  /** A well-formed text is the text of what it decodes to, but for the case of its letters, and it
      is not shorter. */
  lemma EncodeDecoded(x: seq<Byte>)
    requires DecodedText(x).Some?
    ensures EncodedText(DecodedText(x).value) == Canonical(x)
    ensures |DecodedText(x).value| <= |x|
    ensures Below(DecodedText(x).value, INITIAL_N) == x[..LastDelimiter(x)]
    ensures ParseAll(x, DigitsFrom(x), LastDelimiter(x), []) == Some(DeltasOf(DecodedText(x).value))
  {
    hide Run, Settled, Front, Below, Tail, LowerAll, ParseAll, DeltasOf;
    var b, at := LastDelimiter(x), DigitsFrom(x);
    var basics: seq<nat> := x[..b];
    var deltas := ParseAll(x, at, b, []).value;
    TailStart(x, at, b);
    TailParse(x, at, at, b, []);
    DeltasRun(basics, deltas);
    assert x[..at] == Literal(basics);
  }

  lemma TailStart(x: seq<Byte>, at: nat, b: nat)
    requires at <= |x|
    ensures LowerAll(x[at..at]) == Tail(b, [])
  {
  }
}
