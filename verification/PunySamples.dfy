/** Texts and their Punycode, as every implementation writes it. */
module PunySamples {
  import Arith
  import opened Bytes
  import opened PunyNumbers
  import opened PunyInsert
  import opened PunyText
  import opened PunyReading
  import opened PunyVerdict

  /** The characters of an ASCII text */
  function Ascii(s: string): (r: seq<Byte>)
    requires forall i :: 0 <= i < |s| ==> s[i] as int < 128
  {
    seq(|s|, i requires 0 <= i < |s| => s[i] as int)
  }

  /** The deltas, what they build, how they are written, and the bias for the next one. */
  ghost predicate Spelt(basics: seq<nat>, deltas: seq<nat>, st: State, text: seq<Byte>, bias: nat) {
    && Run(Start(basics), deltas) == st && Tail(|basics|, deltas) == text
    && BiasAfter(|basics|, deltas) == bias
  }

  lemma SpeltFirst(basics: seq<nat>)
    ensures Spelt(basics, [], State(basics, 0x80, 0), [], 72)
  {
  }

  /** One integer more: it leads `q` code points further and to the place `pos`. */
  lemma SpeltNext(basics: seq<nat>, deltas: seq<nat>, arr: seq<nat>, n: nat, i: nat, text: seq<Byte>, bias: nat,
                  v: nat, q: nat, pos: nat, digits: seq<Byte>,
                  deltas': seq<nat>, arr': seq<nat>, n': nat, text': seq<Byte>, bias': nat)
    requires Spelt(basics, deltas, State(arr, n, i), text, bias)
    requires i + v == q * (|arr| + 1) + pos && pos <= |arr| && n' == n + q
    requires Digits(v, BASE, bias) == digits && Adapt(v, |basics| + |deltas| + 1, deltas == []) == bias'
    requires deltas' == deltas + [v] && arr' == arr[..pos] + [n'] + arr[pos..] && text' == text + digits
    ensures Spelt(basics, deltas', State(arr', n', pos + 1), text', bias')
  {
    hide Digits, Adapt, Run, Tail, BiasAfter, Step;
    LongerRun(basics, deltas, v);
    LongerTail(|basics|, deltas, v);
    LongerBias(|basics|, deltas, v);
    StepTo(State(arr, n, i), v, q, pos);
  }

  lemma LongerRun(basics: seq<nat>, deltas: seq<nat>, v: nat)
    ensures Run(Start(basics), deltas + [v]) == Step(Run(Start(basics), deltas), v)
  {
    hide Step;
    Snoc(deltas, v);
  }

  lemma Snoc(s: seq<nat>, v: nat)
    ensures (s + [v])[..|s + [v]| - 1] == s && (s + [v])[|s + [v]| - 1] == v && |s + [v]| == |s| + 1
  {
  }

  lemma LongerTail(b: nat, deltas: seq<nat>, v: nat)
    ensures Tail(b, deltas + [v]) == Tail(b, deltas) + Digits(v, BASE, BiasAfter(b, deltas))
  {
    hide Digits, BiasAfter;
    Snoc(deltas, v);
    var longer := deltas + [v];
    assert Tail(b, longer)
        == Tail(b, longer[..|longer| - 1]) + Digits(longer[|longer| - 1], BASE, BiasAfter(b, longer[..|longer| - 1]));
  }

  lemma LongerBias(b: nat, deltas: seq<nat>, v: nat)
    ensures BiasAfter(b, deltas + [v]) == Adapt(v, b + |deltas| + 1, deltas == [])
  {
    hide Adapt;
    Snoc(deltas, v);
  }

  lemma StepTo(st: State, v: nat, q: nat, pos: nat)
    requires st.i + v == q * (|st.arr| + 1) + pos && pos <= |st.arr|
    ensures Step(st, v) == State(st.arr[..pos] + [st.n + q] + st.arr[pos..], st.n + q, pos + 1)
  {
    Arith.DivUnique(st.i + v, |st.arr| + 1, q, pos);
  }

  lemma SpeltAll(basics: seq<nat>, deltas: seq<nat>, st: State, text: seq<Byte>, bias: nat)
    requires Spelt(basics, deltas, st, text, bias) && forall i :: 0 <= i < |basics| ==> basics[i] < 0x80
    ensures EncodedText(st.arr) == (if basics == [] then [] else basics + [0x2d]) + text
  {
    hide Step, Digits, Adapt, DeltasOf, Below, Settled, Front;
    DeltasRun(basics, deltas);
  }

  lemma DigitMore(q: nat, k: nat, bias: nat, d: nat, h: nat)
    requires var t := Threshold(k, bias); t <= q && t <= d < 36 && q - t == (36 - t) * h + (d - t)
    ensures Digits(q, k, bias) == [EncodeDigit(d)] + Digits(h, k + 36, bias)
  {
    var t := Threshold(k, bias);
    hide Threshold, EncodeDigit;
    Arith.DivUnique(q - t, 36 - t, h, d - t);
  }

  lemma DigitLast(q: nat, k: nat, bias: nat)
    requires q < Threshold(k, bias)
    ensures Digits(q, k, bias) == [EncodeDigit(q)]
  {
  }

  lemma DuesseldorfDigits1()
    ensures Digits(1653, BASE, 72) == Ascii("imb")
  {
    hide Digits;
    DigitMore(1653, 36, 72, 8, 47);
    DigitMore(47, 72, 72, 12, 1);
    DigitLast(1, 108, 72);
  }

  lemma DuesseldorfBias1()
    ensures Adapt(1653, 14, true) == 1
  {
    assert Spread(1653, 14, true) == 2;
    assert AdaptFrom(2, 0) == 1;
  }

  lemma Duesseldorf1()
    ensures Spelt([0x6B, 0x6C, 0x6E, 0x2D, 0x64, 0x73, 0x73, 0x65, 0x6C, 0x64, 0x6F, 0x72, 0x66], [1653],
                  State([0x6B, 0x00F6, 0x6C, 0x6E, 0x2D, 0x64, 0x73, 0x73, 0x65, 0x6C, 0x64, 0x6F, 0x72,
                         0x66], 0x00F6, 2),
                  Ascii("imb"), 1)
  {
    hide Spelt, Digits, Adapt, EncodedText, Ascii;
    SpeltFirst([0x6B, 0x6C, 0x6E, 0x2D, 0x64, 0x73, 0x73, 0x65, 0x6C, 0x64, 0x6F, 0x72, 0x66]);
    DuesseldorfDigits1();
    DuesseldorfBias1();
    SpeltNext([0x6B, 0x6C, 0x6E, 0x2D, 0x64, 0x73, 0x73, 0x65, 0x6C, 0x64, 0x6F, 0x72, 0x66], [],
              [0x6B, 0x6C, 0x6E, 0x2D, 0x64, 0x73, 0x73, 0x65, 0x6C, 0x64, 0x6F, 0x72, 0x66], 0x0080, 0,
              [], 72, 1653, 118, 1, Ascii("imb"),
              [1653],
              [0x6B, 0x00F6, 0x6C, 0x6E, 0x2D, 0x64, 0x73, 0x73, 0x65, 0x6C, 0x64, 0x6F, 0x72, 0x66], 0x00F6,
              Ascii("imb"), 1);
  }

  lemma DuesseldorfDigits2()
    ensures Digits(94, BASE, 1) == Ascii("8g")
  {
    hide Digits;
    DigitMore(94, 36, 1, 34, 6);
    DigitLast(6, 72, 1);
  }

  lemma DuesseldorfBias2()
    ensures Adapt(94, 15, false) == 20
  {
    assert Spread(94, 15, false) == 50;
    assert AdaptFrom(50, 0) == 20;
  }

  lemma Duesseldorf2()
    ensures Spelt([0x6B, 0x6C, 0x6E, 0x2D, 0x64, 0x73, 0x73, 0x65, 0x6C, 0x64, 0x6F, 0x72, 0x66], [1653, 94],
                  State([0x6B, 0x00F6, 0x6C, 0x6E, 0x2D, 0x64, 0x00FC, 0x73, 0x73, 0x65, 0x6C, 0x64, 0x6F, 0x72,
                         0x66], 0x00FC, 7),
                  Ascii("imb8g"), 20)
  {
    hide Spelt, Digits, Adapt, EncodedText;
    Duesseldorf1();
    DuesseldorfDigits2();
    DuesseldorfBias2();
    SpeltNext([0x6B, 0x6C, 0x6E, 0x2D, 0x64, 0x73, 0x73, 0x65, 0x6C, 0x64, 0x6F, 0x72, 0x66], [1653],
              [0x6B, 0x00F6, 0x6C, 0x6E, 0x2D, 0x64, 0x73, 0x73, 0x65, 0x6C, 0x64, 0x6F, 0x72, 0x66], 0x00F6, 2,
              Ascii("imb"), 1, 94, 6, 6, Ascii("8g"),
              [1653, 94],
              [0x6B, 0x00F6, 0x6C, 0x6E, 0x2D, 0x64, 0x00FC, 0x73, 0x73, 0x65, 0x6C, 0x64, 0x6F, 0x72,
               0x66], 0x00FC,
              Ascii("imb8g"), 20);
  }

  /** "köln-düsseldorf" is spelt "kln-dsseldorf-imb8g". */
  lemma Duesseldorf()
    ensures EncodedText([0x6B, 0x00F6, 0x6C, 0x6E, 0x2D, 0x64, 0x00FC, 0x73, 0x73, 0x65, 0x6C, 0x64, 0x6F, 0x72,
                         0x66])
         == Ascii("kln-dsseldorf-imb8g")
  {
    hide Spelt, Digits, Adapt, EncodedText;
    Duesseldorf2();
    SpeltAll([0x6B, 0x6C, 0x6E, 0x2D, 0x64, 0x73, 0x73, 0x65, 0x6C, 0x64, 0x6F, 0x72, 0x66], [1653, 94],
             State([0x6B, 0x00F6, 0x6C, 0x6E, 0x2D, 0x64, 0x00FC, 0x73, 0x73, 0x65, 0x6C, 0x64, 0x6F, 0x72,
                    0x66], 0x00FC, 7),
             Ascii("imb8g"), 20);
    assert [0x6B, 0x6C, 0x6E, 0x2D, 0x64, 0x73, 0x73, 0x65, 0x6C, 0x64, 0x6F, 0x72, 0x66] + [0x2d] + Ascii("imb8g")
        == Ascii("kln-dsseldorf-imb8g");
  }

  lemma ChineseDigits1()
    ensures Digits(19853, BASE, 72) == Ascii("ihq")
  {
    hide Digits;
    DigitMore(19853, 36, 72, 8, 567);
    DigitMore(567, 72, 72, 7, 16);
    DigitLast(16, 108, 72);
  }

  lemma ChineseBias1()
    ensures Adapt(19853, 1, true) == 21
  {
    assert Spread(19853, 1, true) == 56;
    assert AdaptFrom(56, 0) == 21;
  }

  lemma Chinese1()
    ensures Spelt([], [19853],
                  State([0x4E0D], 0x4E0D, 1),
                  Ascii("ihq"), 21)
  {
    hide Spelt, Digits, Adapt, EncodedText;
    SpeltFirst([]);
    ChineseDigits1();
    ChineseBias1();
    SpeltNext([], [],
              [], 0x0080, 0,
              [], 72, 19853, 19853, 0, Ascii("ihq"),
              [19853],
              [0x4E0D], 0x4E0D,
              Ascii("ihq"), 21);
  }

  lemma ChineseDigits2()
    ensures Digits(64, BASE, 21) == Ascii("wc")
  {
    hide Digits;
    DigitMore(64, 36, 21, 22, 2);
    DigitLast(2, 72, 21);
  }

  lemma ChineseBias2()
    ensures Adapt(64, 2, false) == 20
  {
    assert Spread(64, 2, false) == 48;
    assert AdaptFrom(48, 0) == 20;
  }

  lemma Chinese2()
    ensures Spelt([], [19853, 64],
                  State([0x4E0D, 0x4E2D], 0x4E2D, 2),
                  Ascii("ihqwc"), 20)
  {
    hide Spelt, Digits, Adapt, EncodedText;
    Chinese1();
    ChineseDigits2();
    ChineseBias2();
    SpeltNext([], [19853],
              [0x4E0D], 0x4E0D, 1,
              Ascii("ihq"), 21, 64, 32, 1, Ascii("wc"),
              [19853, 64],
              [0x4E0D, 0x4E2D], 0x4E2D,
              Ascii("ihqwc"), 20);
  }

  lemma ChineseDigits3()
    ensures Digits(37, BASE, 20) == Ascii("rb")
  {
    hide Digits;
    DigitMore(37, 36, 20, 17, 1);
    DigitLast(1, 72, 20);
  }

  lemma ChineseBias3()
    ensures Adapt(37, 3, false) == 13
  {
    assert Spread(37, 3, false) == 24;
    assert AdaptFrom(24, 0) == 13;
  }

  lemma Chinese3()
    ensures Spelt([], [19853, 64, 37],
                  State([0x4E3A, 0x4E0D, 0x4E2D], 0x4E3A, 1),
                  Ascii("ihqwcrb"), 13)
  {
    hide Spelt, Digits, Adapt, EncodedText;
    Chinese2();
    ChineseDigits3();
    ChineseBias3();
    SpeltNext([], [19853, 64],
              [0x4E0D, 0x4E2D], 0x4E2D, 2,
              Ascii("ihqwc"), 20, 37, 13, 0, Ascii("rb"),
              [19853, 64, 37],
              [0x4E3A, 0x4E0D, 0x4E2D], 0x4E3A,
              Ascii("ihqwcrb"), 13);
  }

  lemma ChineseDigits4()
    ensures Digits(56, BASE, 13) == Ascii("4c")
  {
    hide Digits;
    DigitMore(56, 36, 13, 30, 2);
    DigitLast(2, 72, 13);
  }

  lemma ChineseBias4()
    ensures Adapt(56, 4, false) == 17
  {
    assert Spread(56, 4, false) == 35;
    assert AdaptFrom(35, 0) == 17;
  }

  lemma Chinese4()
    ensures Spelt([], [19853, 64, 37, 56],
                  State([0x4E3A, 0x4E48, 0x4E0D, 0x4E2D], 0x4E48, 2),
                  Ascii("ihqwcrb4c"), 17)
  {
    hide Spelt, Digits, Adapt, EncodedText;
    Chinese3();
    ChineseDigits4();
    ChineseBias4();
    SpeltNext([], [19853, 64, 37],
              [0x4E3A, 0x4E0D, 0x4E2D], 0x4E3A, 1,
              Ascii("ihqwcrb"), 13, 56, 14, 1, Ascii("4c"),
              [19853, 64, 37, 56],
              [0x4E3A, 0x4E48, 0x4E0D, 0x4E2D], 0x4E48,
              Ascii("ihqwcrb4c"), 17);
  }

  lemma ChineseDigits5()
    ensures Digits(599, BASE, 17) == Ascii("v8a")
  {
    hide Digits;
    DigitMore(599, 36, 17, 21, 34);
    DigitMore(34, 72, 17, 34, 0);
    DigitLast(0, 108, 17);
  }

  lemma ChineseBias5()
    ensures Adapt(599, 5, false) == 32
  {
    assert Spread(599, 5, false) == 358;
    assert AdaptFrom(358, 0) == 32;
  }

  lemma Chinese5()
    ensures Spelt([], [19853, 64, 37, 56, 599],
                  State([0x4E3A, 0x4EC0, 0x4E48, 0x4E0D, 0x4E2D], 0x4EC0, 2),
                  Ascii("ihqwcrb4cv8a"), 32)
  {
    hide Spelt, Digits, Adapt, EncodedText;
    Chinese4();
    ChineseDigits5();
    ChineseBias5();
    SpeltNext([], [19853, 64, 37, 56],
              [0x4E3A, 0x4E48, 0x4E0D, 0x4E2D], 0x4E48, 2,
              Ascii("ihqwcrb4c"), 17, 599, 120, 1, Ascii("v8a"),
              [19853, 64, 37, 56, 599],
              [0x4E3A, 0x4EC0, 0x4E48, 0x4E0D, 0x4E2D], 0x4EC0,
              Ascii("ihqwcrb4cv8a"), 32);
  }

  lemma ChineseDigits6()
    ensures Digits(130, BASE, 32) == Ascii("8d")
  {
    hide Digits;
    DigitMore(130, 36, 32, 34, 3);
    DigitLast(3, 72, 32);
  }

  lemma ChineseBias6()
    ensures Adapt(130, 6, false) == 23
  {
    assert Spread(130, 6, false) == 75;
    assert AdaptFrom(75, 0) == 23;
  }

  lemma Chinese6()
    ensures Spelt([], [19853, 64, 37, 56, 599, 130],
                  State([0x4ED6, 0x4E3A, 0x4EC0, 0x4E48, 0x4E0D, 0x4E2D], 0x4ED6, 1),
                  Ascii("ihqwcrb4cv8a8d"), 23)
  {
    hide Spelt, Digits, Adapt, EncodedText;
    Chinese5();
    ChineseDigits6();
    ChineseBias6();
    SpeltNext([], [19853, 64, 37, 56, 599],
              [0x4E3A, 0x4EC0, 0x4E48, 0x4E0D, 0x4E2D], 0x4EC0, 2,
              Ascii("ihqwcrb4cv8a"), 32, 130, 22, 0, Ascii("8d"),
              [19853, 64, 37, 56, 599, 130],
              [0x4ED6, 0x4E3A, 0x4EC0, 0x4E48, 0x4E0D, 0x4E2D], 0x4ED6,
              Ascii("ihqwcrb4cv8a8d"), 23);
  }

  lemma ChineseDigits7()
    ensures Digits(154, BASE, 23) == Ascii("qg")
  {
    hide Digits;
    DigitMore(154, 36, 23, 16, 6);
    DigitLast(6, 72, 23);
  }

  lemma ChineseBias7()
    ensures Adapt(154, 7, false) == 25
  {
    assert Spread(154, 7, false) == 88;
    assert AdaptFrom(88, 0) == 25;
  }

  lemma Chinese7()
    ensures Spelt([], [19853, 64, 37, 56, 599, 130, 154],
                  State([0x4ED6, 0x4EEC, 0x4E3A, 0x4EC0, 0x4E48, 0x4E0D, 0x4E2D], 0x4EEC, 2),
                  Ascii("ihqwcrb4cv8a8dqg"), 25)
  {
    hide Spelt, Digits, Adapt, EncodedText;
    Chinese6();
    ChineseDigits7();
    ChineseBias7();
    SpeltNext([], [19853, 64, 37, 56, 599, 130],
              [0x4ED6, 0x4E3A, 0x4EC0, 0x4E48, 0x4E0D, 0x4E2D], 0x4ED6, 1,
              Ascii("ihqwcrb4cv8a8d"), 23, 154, 22, 1, Ascii("qg"),
              [19853, 64, 37, 56, 599, 130, 154],
              [0x4ED6, 0x4EEC, 0x4E3A, 0x4EC0, 0x4E48, 0x4E0D, 0x4E2D], 0x4EEC,
              Ascii("ihqwcrb4cv8a8dqg"), 25);
  }

  lemma ChineseDigits8()
    ensures Digits(46301, BASE, 25) == Ascii("056p")
  {
    hide Digits;
    DigitMore(46301, 36, 25, 26, 1851);
    DigitMore(1851, 72, 25, 31, 182);
    DigitMore(182, 108, 25, 32, 15);
    DigitLast(15, 144, 25);
  }

  lemma ChineseBias8()
    ensures Adapt(46301, 8, false) == 84
  {
    assert Spread(46301, 8, false) == 26043;
    assert AdaptFrom(21, 72) == 84;
    assert AdaptFrom(744, 36) == 84;
    assert AdaptFrom(26043, 0) == 84;
  }

  lemma Chinese8()
    ensures Spelt([], [19853, 64, 37, 56, 599, 130, 154, 46301],
                  State([0x4ED6, 0x4EEC, 0x4E3A, 0x4EC0, 0x4E48, 0x4E0D, 0x4E2D, 0x6587], 0x6587, 8),
                  Ascii("ihqwcrb4cv8a8dqg056p"), 84)
  {
    hide Spelt, Digits, Adapt, EncodedText;
    Chinese7();
    ChineseDigits8();
    ChineseBias8();
    SpeltNext([], [19853, 64, 37, 56, 599, 130, 154],
              [0x4ED6, 0x4EEC, 0x4E3A, 0x4EC0, 0x4E48, 0x4E0D, 0x4E2D], 0x4EEC, 2,
              Ascii("ihqwcrb4cv8a8dqg"), 25, 46301, 5787, 7, Ascii("056p"),
              [19853, 64, 37, 56, 599, 130, 154, 46301],
              [0x4ED6, 0x4EEC, 0x4E3A, 0x4EC0, 0x4E48, 0x4E0D, 0x4E2D, 0x6587], 0x6587,
              Ascii("ihqwcrb4cv8a8dqg056p"), 84);
  }

  lemma ChineseDigits9()
    ensures Digits(88531, BASE, 84) == Ascii("qjye")
  {
    hide Digits;
    DigitMore(88531, 36, 84, 16, 2529);
    DigitMore(2529, 72, 84, 9, 72);
    DigitMore(72, 108, 84, 24, 4);
    DigitLast(4, 144, 84);
  }

  lemma ChineseBias9()
    ensures Adapt(88531, 9, false) == 90
  {
    assert Spread(88531, 9, false) == 49183;
    assert AdaptFrom(40, 72) == 90;
    assert AdaptFrom(1405, 36) == 90;
    assert AdaptFrom(49183, 0) == 90;
  }

  lemma Chinese9()
    ensures Spelt([], [19853, 64, 37, 56, 599, 130, 154, 46301, 88531],
                  State([0x4ED6, 0x4EEC, 0x4E3A, 0x4EC0, 0x4E48, 0x4E0D, 0x8BF4, 0x4E2D, 0x6587], 0x8BF4, 7),
                  Ascii("ihqwcrb4cv8a8dqg056pqjye"), 90)
  {
    hide Spelt, Digits, Adapt, EncodedText;
    Chinese8();
    ChineseDigits9();
    ChineseBias9();
    SpeltNext([], [19853, 64, 37, 56, 599, 130, 154, 46301],
              [0x4ED6, 0x4EEC, 0x4E3A, 0x4EC0, 0x4E48, 0x4E0D, 0x4E2D, 0x6587], 0x6587, 8,
              Ascii("ihqwcrb4cv8a8dqg056p"), 84, 88531, 9837, 6, Ascii("qjye"),
              [19853, 64, 37, 56, 599, 130, 154, 46301, 88531],
              [0x4ED6, 0x4EEC, 0x4E3A, 0x4EC0, 0x4E48, 0x4E0D, 0x8BF4, 0x4E2D, 0x6587], 0x8BF4,
              Ascii("ihqwcrb4cv8a8dqg056pqjye"), 90);
  }

  /** Sample (B) of section 7.1 of RFC 3492, "ihqwcrb4cv8a8dqg056pqjye". */
  lemma Chinese()
    ensures EncodedText([0x4ED6, 0x4EEC, 0x4E3A, 0x4EC0, 0x4E48, 0x4E0D, 0x8BF4, 0x4E2D, 0x6587])
         == Ascii("ihqwcrb4cv8a8dqg056pqjye")
  {
    hide Spelt, Digits, Adapt, EncodedText;
    Chinese9();
    SpeltAll([], [19853, 64, 37, 56, 599, 130, 154, 46301, 88531],
             State([0x4ED6, 0x4EEC, 0x4E3A, 0x4EC0, 0x4E48, 0x4E0D, 0x8BF4, 0x4E2D, 0x6587], 0x8BF4, 7),
             Ascii("ihqwcrb4cv8a8dqg056pqjye"), 90);
  }

  /** A character that is no digit is bad input, and so is an integer that is cut off. */
  lemma Malformed(room: nat)
    requires room >= 1
    ensures DecodeVerdict(Ascii("a-!"), room) == BadInput && DecodeVerdict(Ascii("a-z"), room) == BadInput
  {
    BreaksOff(Ascii("a-!"), room);
    BreaksOff(Ascii("a-z"), room);
  }

  lemma BreaksOff(x: seq<Byte>, room: nat)
    requires x == Ascii("a-!") || x == Ascii("a-z")
    requires room >= 1
    ensures DecodeVerdict(x, room) == BadInput
  {
    hide DecodeVerdict, Overflows, DecodedText;
    assert LastDelimiter(x) == 1 && x[2..] == [x[2]] && BiasAfter(1, []) == 72;
    assert Readable(x, 2, 1, []) == ([], 2);
    LiteralParses(x);
    NoOverflow(x[2..], 72, 0);
    BrokenVerdict(x, room);
  }

  lemma NoOverflow(s: seq<Byte>, bias: nat, i0: nat)
    requires |s| == 1 && i0 + DecodeDigit(s[0]) <= 0xffff_ffff
    ensures !Overflows(s, bias, i0)
  {
    hide Threshold, DecodeDigit;
    assert Weight(0, bias) == 1 && SumOf(s, 0, bias) == 0;
    assert Weight(1, bias) <= 36 && SumOf(s, 1, bias) == DecodeDigit(s[0]);
  }
}
