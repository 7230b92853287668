/** The buffering, counting and padding of md5.c, around a transformation of 64-byte blocks (RFC 1321). */
module Md5 {
  import opened Bytes

  datatype State = State(a: nat, b: nat, c: nat, d: nat)

  /** transform_: what one block makes of the state. */
  type Transform = (State, seq<Byte>) -> State

  const START := State(0x67452301, 0xefcdab89, 0x98badcfe, 0x10325476)
  const BLOCK: nat := 64
  const LIMIT64: nat := 0x1_0000_0000_0000_0000

  // ---- The digest as RFC 1321 has it ----

  /** The state after all blocks of `m` (section 3.4). */
  function Fold(t: Transform, s: State, m: seq<Byte>): State
    requires |m| % BLOCK == 0
    decreases |m|
  {
    if m == [] then s else Fold(t, t(s, m[..BLOCK]), m[BLOCK..])
  }

  predicate RoomForLength(n: nat) {
    n % BLOCK == 56
  }

  /** How many bytes go between a message of `n` bytes and its length: the least number, but at least one, that
      leads to 56 modulo 64 (section 3.1). */
  function PadLength(n: nat): (k: nat)
    ensures 1 <= k <= BLOCK && RoomForLength(n + k)
    ensures forall x :: n < x < n + k ==> !RoomForLength(x)
  {
    var index := n % BLOCK;
    if index < 56 then 56 - index else 120 - index
  }

  function Padding(k: nat): (s: seq<Byte>)
    ensures |s| == k
  {
    seq<Byte>(k, i => if i == 0 then 0x80 else 0)
  }

  function LE64(v: nat): (s: seq<Byte>)
    ensures |s| == 8
  {
    LE32(v) + LE32(v / LIMIT32)
  }

  /** The message with its padding and `bits` as its length (sections 3.1 and 3.2). */
  function Padded(m: seq<Byte>, bits: nat): (p: seq<Byte>)
    ensures |p| % BLOCK == 0
  {
    m + Padding(PadLength(|m|)) + LE64(bits)
  }

  /** Sections 3.3 and 3.5: the words of the state, lowest bytes first. */
  function Encoded(s: State): seq<Byte> {
    LE32(s.a) + LE32(s.b) + LE32(s.c) + LE32(s.d)
  }

  function Digest(t: Transform, m: seq<Byte>): seq<Byte> {
    Encoded(Fold(t, START, Padded(m, 8 * |m|)))
  }

  /** `p` is the message `m`, one byte 0x80, as few zeros as lead to 56 modulo 64, and the number `bits`, its lowest
      byte first. */
  ghost predicate IsPadded(m: seq<Byte>, bits: nat, p: seq<Byte>) {
    var n := |m|;
    && |p| % 64 == 0 && n + 9 <= |p| <= n + 72
    && p[..n] == m && p[n] == 0x80 && (forall i :: n < i < |p| - 8 ==> p[i] == 0)
    && p[|p| - 8] == bits % 0x100
    && p[|p| - 7] == bits / 0x100 % 0x100
    && p[|p| - 6] == bits / 0x1_0000 % 0x100
    && p[|p| - 5] == bits / 0x100_0000 % 0x100
    && p[|p| - 4] == bits / 0x1_0000_0000 % 0x100
    && p[|p| - 3] == bits / 0x100_0000_0000 % 0x100
    && p[|p| - 2] == bits / 0x1_0000_0000_0000 % 0x100
    && p[|p| - 1] == bits / 0x100_0000_0000_0000 % 0x100
  }

  lemma PaddedIs(m: seq<Byte>, bits: nat)
    ensures IsPadded(m, bits, Padded(m, bits))
  {
    hide LE64, PadLength;
    LengthBytes(bits);
    var k, p, tail := PadLength(|m|), Padded(m, bits), LE64(bits);
    assert |p| == |m| + k + 8;
    assert forall j :: 0 <= j < 8 ==> p[|p| - 8 + j] == tail[j];
  }

  lemma LengthBytes(v: nat)
    ensures LE64(v)
         == [v % 0x100, v / 0x100 % 0x100, v / 0x1_0000 % 0x100, v / 0x100_0000 % 0x100,
             v / 0x1_0000_0000 % 0x100, v / 0x100_0000_0000 % 0x100, v / 0x1_0000_0000_0000 % 0x100,
             v / 0x100_0000_0000_0000 % 0x100]
  {
  }

  /** There is only one such message. */
  lemma OnePadded(m: seq<Byte>, bits: nat, p: seq<Byte>, q: seq<Byte>)
    requires IsPadded(m, bits, p) && IsPadded(m, bits, q)
    ensures p == q
  {
    assert |p| == |q|;
    forall i | 0 <= i < |p|
      ensures p[i] == q[i]
    {
      if i < |m| {
        assert p[i] == p[..|m|][i] && q[i] == q[..|m|][i];
      }
    }
  }

  /** The state before the first block, and the order of the bytes in a digest */
  lemma StartEncoded()
    ensures Encoded(START)
         == [0x01, 0x23, 0x45, 0x67, 0x89, 0xab, 0xcd, 0xef, 0xfe, 0xdc, 0xba, 0x98, 0x76, 0x54, 0x32, 0x10]
  {
  }

  /** A digest is the four words one after the other, each with its lowest byte first. */
  lemma EncodedIs(s: State)
    ensures |Encoded(s)| == 16
    ensures Encoded(s)[..4] == [s.a % 0x100, s.a / 0x100 % 0x100, s.a / 0x1_0000 % 0x100, s.a / 0x100_0000 % 0x100]
    ensures Encoded(s)[4..8] == [s.b % 0x100, s.b / 0x100 % 0x100, s.b / 0x1_0000 % 0x100, s.b / 0x100_0000 % 0x100]
    ensures Encoded(s)[8..12] == [s.c % 0x100, s.c / 0x100 % 0x100, s.c / 0x1_0000 % 0x100, s.c / 0x100_0000 % 0x100]
    ensures Encoded(s)[12..] == [s.d % 0x100, s.d / 0x100 % 0x100, s.d / 0x1_0000 % 0x100, s.d / 0x100_0000 % 0x100]
  {
  }

  lemma {:induction false} FoldJoin(t: Transform, s: State, a: seq<Byte>, b: seq<Byte>)
    requires |a| % BLOCK == 0 && |b| % BLOCK == 0
    ensures Fold(t, s, a + b) == Fold(t, Fold(t, s, a), b)
    decreases |a|
  {
    if a == [] {
      assert a + b == b;
    } else {
      assert (a + b)[..BLOCK] == a[..BLOCK] && (a + b)[BLOCK..] == a[BLOCK..] + b;
      FoldJoin(t, t(s, a[..BLOCK]), a[BLOCK..], b);
    }
  }

  lemma FoldOne(t: Transform, s: State, m: seq<Byte>, p: nat)
    requires p % BLOCK == 0 && p + BLOCK <= |m|
    ensures Fold(t, s, m[..p + BLOCK]) == t(Fold(t, s, m[..p]), m[p..p + BLOCK])
  {
    var block := m[p..p + BLOCK];
    FoldJoin(t, s, m[..p], block);
    assert m[..p + BLOCK] == m[..p] + block;
    assert block[..BLOCK] == block && block[BLOCK..] == [];
  }

  // ---- Counting bits in two words ----

  /** Eight times a 32-bit number, as a shifted word and the bits that the shift loses. */
  lemma ShiftedOut(len: nat)
    requires len < LIMIT32
    ensures 8 * len == len * 8 % LIMIT32 + LIMIT32 * (len / 0x2000_0000)
  {
    var high, r := len / 0x2000_0000, len % 0x2000_0000;
    assert len == 0x2000_0000 * high + r;
    assert len * 8 == LIMIT32 * high + 8 * r;
  }

  lemma Wrapped(low: nat, x: nat)
    requires low < LIMIT32
    ensures (low + LIMIT32 * x) % LIMIT64 == low + LIMIT32 * (x % LIMIT32)
  {
    var q, c := x / LIMIT32, x % LIMIT32;
    assert x == LIMIT32 * q + c;
    assert low + LIMIT32 * x == LIMIT64 * q + (low + LIMIT32 * c);
  }

  /** Adding to the low word, with the carry that a wrap-around shows. */
  lemma Carried(c0: nat, c1: nat, low: nat, high: nat)
    requires c0 < LIMIT32 && low < LIMIT32
    ensures var r := (c0 + low) % LIMIT32;
            var carry := if r < low then 1 else 0;
            c0 + low + LIMIT32 * (c1 + high) == r + LIMIT32 * (c1 + carry + high)
  {
  }

  lemma Unwrapped(c: nat)
    requires c < LIMIT32
    ensures (c + 0) % LIMIT32 == c
  {
  }

  lemma TwiceWrapped(c1: nat, carry: nat, high: nat)
    ensures ((c1 + carry) % LIMIT32 + high) % LIMIT32 == (c1 + carry + high) % LIMIT32
  {
  }

  lemma ByteCount(v: nat)
    ensures v % LIMIT32 / 8 == v / 8 % 0x2000_0000
  {
    var q, r := v / LIMIT32, v % LIMIT32;
    assert v == LIMIT32 * q + r;
    assert v / 8 == 0x2000_0000 * q + r / 8;
  }

  function LowWord(c0: nat, n: nat): nat {
    (c0 + n % LIMIT32 * 8 % LIMIT32) % LIMIT32
  }

  function HighWord(c0: nat, c1: nat, n: nat): nat {
    ((c1 + if LowWord(c0, n) < n % LIMIT32 * 8 % LIMIT32 then 1 else 0) % LIMIT32 + n % LIMIT32 / 0x2000_0000) % LIMIT32
  }

  /** The low six bits of a byte count depend on its low word only. */
  lemma LowBits(c0: nat, n: nat)
    requires c0 < LIMIT32
    ensures LowWord(c0, n) / 8 % BLOCK == (c0 / 8 + n) % BLOCK
  {
    var r := n % LIMIT32 % 0x2000_0000;
    ShiftedOut(n % LIMIT32);
    assert n % LIMIT32 * 8 % LIMIT32 == 8 * r;
    ByteCount(c0 + 8 * r);
    LowSum(c0 / 8, r, n);
  }

  lemma Multiple(x: nat, k: nat)
    ensures (x + BLOCK * k) % BLOCK == x % BLOCK
  {
  }

  lemma LowSum(c: nat, r: nat, n: nat)
    requires r == n % LIMIT32 % 0x2000_0000
    ensures (c + r) % 0x2000_0000 % BLOCK == (c + n) % BLOCK
  {
    var m, a := n % LIMIT32, n / LIMIT32;
    var b, q := m / 0x2000_0000, (c + r) / 0x2000_0000;
    Multiple(c + r, 0x400_0000 * a + 0x80_0000 * b);
    Multiple((c + r) % 0x2000_0000, 0x80_0000 * q);
  }

  /** Adding the bits of `n` bytes to a count in two words is exact modulo 2^64, but for what `n` has above 32 bits. */
  lemma CountAdded(c0: nat, c1: nat, n: nat)
    requires c0 < LIMIT32
    ensures LowWord(c0, n) + LIMIT32 * HighWord(c0, c1, n) == (c0 + LIMIT32 * c1 + 8 * (n % LIMIT32)) % LIMIT64
  {
    var low, high := n % LIMIT32 * 8 % LIMIT32, n % LIMIT32 / 0x2000_0000;
    var carry := if LowWord(c0, n) < low then 1 else 0;
    ShiftedOut(n % LIMIT32);
    Carried(c0, c1, low, high);
    TwiceWrapped(c1, carry, high);
    Wrapped(LowWord(c0, n), c1 + carry + high);
  }

  // ---- The context ----

  function Full(n: nat): (f: nat)
    ensures f % BLOCK == 0 && f <= n < f + BLOCK && n % BLOCK == n - f
  {
    n / BLOCK * BLOCK
  }

  lemma SameRest(a: nat, b: nat, n: nat)
    requires a % BLOCK == b % BLOCK
    ensures (a + n) % BLOCK == (b + n) % BLOCK
  {
    Multiple(a % BLOCK + n, a / BLOCK);
    Multiple(b % BLOCK + n, b / BLOCK);
  }

  /** Input that does not fill the buffer leaves the last full block where it was. */
  lemma ShortInput(m: seq<Byte>, input: seq<Byte>)
    requires |m| % BLOCK + |input| < BLOCK
    ensures Full(|m + input|) == Full(|m|) && |m + input| % BLOCK == |m| % BLOCK + |input|
    ensures (m + input)[..Full(|m|)] == m[..Full(|m|)]
    ensures (m + input)[Full(|m|)..] == m[Full(|m|)..] + input
  {
  }

  /** Input of which less than a block is left after `i` bytes, at the end of a block. */
  lemma LongInput(m: seq<Byte>, input: seq<Byte>, i: nat)
    requires i <= |input| < i + BLOCK && (|m| + i) % BLOCK == 0
    ensures Full(|m + input|) == |m| + i && |m + input| % BLOCK == |input| - i
    ensures (m + input)[|m| + i..] == input[i..]
  {
  }

  /** The block that the input completes. */
  lemma CompletedBlock(m: seq<Byte>, input: seq<Byte>, partLen: nat)
    requires |m| % BLOCK + partLen == BLOCK && partLen <= |input|
    ensures Full(|m|) + BLOCK == |m| + partLen
    ensures (m + input)[Full(|m|)..][..BLOCK] == m[Full(|m|)..] + input[..partLen]
    ensures (m + input)[..Full(|m|)] == m[..Full(|m|)]
  {
  }

  class Context {
    const transform: Transform
    const buffer: array<Byte>
    var state: State
    var count0: nat
    var count1: nat

    /** The message so far is in the state, but for its last bytes, which are in the buffer. */
    ghost predicate Absorbed(m: seq<Byte>)
      reads this, buffer
    {
      && buffer.Length == BLOCK
      && count0 < LIMIT32 && count1 < LIMIT32 && count0 / 8 % BLOCK == |m| % BLOCK
      && state == Fold(transform, START, m[..Full(|m|)])
      && buffer[..|m| % BLOCK] == m[Full(|m|)..]
    }

    /** The number of bits, in two words. */
    function Count(): nat
      reads this
    {
      count0 + LIMIT32 * count1
    }

    constructor (t: Transform)
      ensures Absorbed([]) && transform == t && Count() == 0 && fresh(buffer)
    {
      transform, state, count0, count1 := t, START, 0, 0;
      buffer := new Byte[64];
    }

    lemma Finished(m: seq<Byte>)
      requires Absorbed(m) && |m| % BLOCK == 0
      ensures state == Fold(transform, START, m)
    {
      hide Fold;
      assert m[..|m|] == m;
    }

    /** The first lines of update_Md5Context_: the bit count grows by the bits of `n` bytes. */
    method AddToCount(n: nat)
      requires count0 < LIMIT32 && count1 < LIMIT32
      modifies `count0, `count1
      ensures count0 < LIMIT32 && count1 < LIMIT32
      ensures Count() == (old(Count()) + 8 * (n % LIMIT32)) % LIMIT64
      ensures count0 / 8 % BLOCK == (old(count0) / 8 + n) % BLOCK
    {
      hide LowWord, HighWord;
      CountAdded(count0, count1, n);
      LowBits(count0, n);
      AddWords(n);
    }

    /** The two words of the count, with carry */
    method AddWords(n: nat)
      requires count0 < LIMIT32 && count1 < LIMIT32
      modifies `count0, `count1
      ensures count0 == LowWord(old(count0), n) < LIMIT32 && count1 == HighWord(old(count0), old(count1), n) < LIMIT32
    {
      var len := n % LIMIT32;
      var low := len * 8 % LIMIT32;
      count0 := (count0 + low) % LIMIT32;
      Unwrapped(count1);
      if count0 < low {
        count1 := (count1 + 1) % LIMIT32;
      }
      count1 := (count1 + len / 0x2000_0000) % LIMIT32;
    }

    /** memcpy(d->buffer + at, bytes, |bytes|) */
    method Keep(at: nat, bytes: seq<Byte>)
      requires at + |bytes| <= buffer.Length
      modifies buffer
      ensures buffer[..at + |bytes|] == old(buffer[..at]) + bytes
    {
      for k := 0 to |bytes|
        invariant buffer[..at + k] == old(buffer[..at]) + bytes[..k]
      {
        buffer[at + k] := bytes[k];
        assert buffer[..at + k + 1] == buffer[..at + k] + [bytes[k]];
      }
      assert bytes[..|bytes|] == bytes;
    }

    /** The blocks of update_Md5Context_: the one that the input completes, then those that lie in the input. */
    method Blocks(input: seq<Byte>, index: nat, ghost m: seq<Byte>) returns (i: nat)
      requires buffer.Length == BLOCK && index == |m| % BLOCK && BLOCK - index <= |input|
      requires state == Fold(transform, START, m[..Full(|m|)]) && buffer[..index] == m[Full(|m|)..]
      modifies `state, buffer
      ensures i <= |input| < i + BLOCK && (|m| + i) % BLOCK == 0
      ensures state == Fold(transform, START, (m + input)[..|m| + i])
    {
      hide Fold, Full;
      ghost var all := m + input;
      var partLen := 64 - index;
      CompletedBlock(m, input, partLen);
      Keep(index, input[..partLen]);
      assert buffer[..] == buffer[..BLOCK];
      Transformed(all, Full(|m|), buffer[..]);
      state := transform(state, buffer[..]);
      i := partLen;
      while i + 63 < |input|
        invariant partLen <= i <= |input| && (|m| + i) % BLOCK == 0
        invariant state == Fold(transform, START, all[..|m| + i])
        modifies `state
      {
        Transformed(all, |m| + i, input[i..i + 64]);
        state := transform(state, input[i..i + 64]);
        i := i + 64;
      }
    }

    lemma Transformed(all: seq<Byte>, p: nat, block: seq<Byte>)
      requires p % BLOCK == 0 && p + BLOCK <= |all| && block == all[p..][..BLOCK]
      ensures Fold(transform, START, all[..p + BLOCK]) == transform(Fold(transform, START, all[..p]), block)
    {
      hide Fold;
      assert all[p..p + BLOCK] == block;
      FoldOne(transform, START, all, p);
    }

    /** The branch of update_Md5Context_: where in the buffer the rest of the input goes, and where it begins. */
    method Absorb(input: seq<Byte>, index0: nat, ghost m: seq<Byte>) returns (index: nat, i: nat)
      requires buffer.Length == BLOCK && index0 == |m| % BLOCK
      requires state == Fold(transform, START, m[..Full(|m|)]) && buffer[..index0] == m[Full(|m|)..]
      modifies `state, buffer
      ensures i <= |input| && index + |input| - i == |m + input| % BLOCK
      ensures state == Fold(transform, START, (m + input)[..Full(|m + input|)])
      ensures index <= BLOCK && buffer[..index] + input[i..] == (m + input)[Full(|m + input|)..]
    {
      hide Fold, Full;
      var partLen := 64 - index0;
      if |input| >= partLen {
        i := Blocks(input, index0, m);
        LongInput(m, input, i);
        index := 0;
      } else {
        ShortInput(m, input);
        index, i := index0, 0;
      }
    }

    /** update_Md5Context_ */
    method Update(input: seq<Byte>, ghost m: seq<Byte>)
      requires Absorbed(m)
      modifies this, buffer
      ensures Absorbed(m + input)
      ensures Count() == (old(Count()) + 8 * (|input| % LIMIT32)) % LIMIT64
    {
      hide Fold, Full;
      var index := count0 / 8 % 64;
      SameRest(count0 / 8, |m|, |input|);
      AddToCount(|input|);
      var i;
      index, i := Absorb(input, index, m);
      Keep(index, input[i..]);
    }
  }

  // ---- The digest ----

  lemma AddedAbove(v: nat, h: nat)
    ensures (v + 256 * h) / 256 == v / 256 + h && (v + 256 * h) % 256 == v % 256
  {
  }

  /** Only the low 32 bits of a number are encoded. */
  lemma LowBytes(low: nat, high: nat)
    ensures LE32(low + LIMIT32 * high) == LE32(low)
  {
    AddedAbove(low, 0x100_0000 * high);
    AddedAbove(low / 256, 0x1_0000 * high);
    AddedAbove(low / 256 / 256, 256 * high);
    AddedAbove(low / 256 / 256 / 256, high);
    Quarters(low);
    Quarters(low + LIMIT32 * high);
  }

  /** The two words of a count, encoded one after the other, are its 64-bit encoding. */
  lemma TwoWords(c0: nat, c1: nat)
    requires c0 < LIMIT32
    ensures LE32(c0) + LE32(c1) == LE64(c0 + LIMIT32 * c1)
  {
    hide LE32;
    LowBytes(c0, c1);
    assert (c0 + LIMIT32 * c1) / LIMIT32 == c1;
  }

  /** The end of iMd5Hash: the message is padded to 56 modulo 64, and its length follows. */
  method Finalize(ctx: Context, ghost data: seq<Byte>)
    requires ctx.Absorbed(data)
    modifies ctx, ctx.buffer
    ensures ctx.state == Fold(ctx.transform, START, Padded(data, old(ctx.Count())))
  {
    hide Fold, LE32, LE64, Padding;
    var bits := LE32(ctx.count0) + LE32(ctx.count1);
    TwoWords(ctx.count0, ctx.count1);
    var index := ctx.count0 / 8 % 64;
    var padLen := if index < 56 then 56 - index else 120 - index;
    assert padLen == PadLength(|data|);
    ghost var padded := Padded(data, ctx.Count());
    assert padded == data + Padding(padLen) + bits;
    ctx.Update(Padding(padLen), data);
    ctx.Update(bits, data + Padding(padLen));
    ctx.Finished(padded);
  }

  lemma CountFits(n: nat)
    ensures (0 + 8 * (n % LIMIT32)) % LIMIT64 == 8 * (n % LIMIT32)
    ensures n < LIMIT32 ==> n % LIMIT32 == n
  {
  }

  /** iMd5Hash. The length field counts only what the size has below 2^32. */
  method Hash(t: Transform, data: seq<Byte>) returns (digest: seq<Byte>)
    ensures digest == Encoded(Fold(t, START, Padded(data, 8 * (|data| % LIMIT32))))
    ensures |data| < LIMIT32 ==> digest == Digest(t, data)
    ensures exists p :: IsPadded(data, 8 * (|data| % 0x1_0000_0000), p) && |p| % BLOCK == 0 &&
              digest == Encoded(Fold(t, State(0x67452301, 0xefcdab89, 0x98badcfe, 0x10325476), p))
  {
    hide Fold, LE32, LE64, Padding, Padded, Full, Context.Absorbed, IsPadded;
    PaddedIs(data, 8 * (|data| % LIMIT32));
    var ctx := new Context(t);
    CountFits(|data|);
    ctx.Update(data, []);
    assert [] + data == data;
    Finalize(ctx, data);
    assert ctx.state == Fold(t, START, Padded(data, 8 * (|data| % LIMIT32)));
    digest := LE32(ctx.state.a) + LE32(ctx.state.b) + LE32(ctx.state.c) + LE32(ctx.state.d);
  }

  /** The length field is that of RFC 1321 for all messages below 2^32 bytes, and beyond that only for sizes that
      no memory has. */
  lemma LengthIsRight(n: nat)
    ensures LE64(8 * (n % LIMIT32)) == LE64(8 * n) <==> n / LIMIT32 % 0x2000_0000 == 0
  {
    hide LE32, LE64;
    var r, q := n % LIMIT32, n / LIMIT32;
    var c, d := r / 0x2000_0000, r % 0x2000_0000;
    EncodedPairs(8 * r, 8 * n);
    WordsOf(q, c, d);
    EncodedAlike(8 * r, 8 * n);
    EncodedAlike(c, 8 * q + c);
    assert r == 0x2000_0000 * c + d && n == LIMIT32 * q + r;
  }

  /** Eight times a number, in words: `q` is what the number has above 32 bits, `c` its next three bits. */
  lemma WordsOf(q: nat, c: nat, d: nat)
    requires c < 8 && d < 0x2000_0000
    ensures var r, v := 0x2000_0000 * c + d, LIMIT32 * q + 0x2000_0000 * c + d;
            8 * r / LIMIT32 == c && 8 * r % LIMIT32 == 8 * d && 8 * v / LIMIT32 == 8 * q + c && 8 * v % LIMIT32 == 8 * d
    ensures (8 * q + c) % LIMIT32 == 8 * (q % 0x2000_0000) + c
  {
    var e := q / 0x2000_0000;
    assert q == 0x2000_0000 * e + q % 0x2000_0000;
    assert 8 * q + c == LIMIT32 * e + (8 * (q % 0x2000_0000) + c);
  }

  lemma EncodedPairs(v: nat, w: nat)
    ensures LE64(v) == LE64(w) <==> LE32(v) == LE32(w) && LE32(v / LIMIT32) == LE32(w / LIMIT32)
  {
    hide LE32;
    assert LE64(v)[..4] == LE32(v) && LE64(v)[4..] == LE32(v / LIMIT32);
    assert LE64(w)[..4] == LE32(w) && LE64(w)[4..] == LE32(w / LIMIT32);
  }

  lemma EncodedAlike(v: nat, w: nat)
    ensures LE32(v) == LE32(w) <==> v % LIMIT32 == w % LIMIT32
  {
    if v % LIMIT32 == w % LIMIT32 {
      assert v == v % LIMIT32 + LIMIT32 * (v / LIMIT32) && w == w % LIMIT32 + LIMIT32 * (w / LIMIT32);
      LowBytes(v % LIMIT32, v / LIMIT32);
      LowBytes(w % LIMIT32, w / LIMIT32);
    }
    if LE32(v) == LE32(w) {
      FourBytes(v);
      FourBytes(w);
      assert LE32(v)[0] == LE32(w)[0] && LE32(v)[1] == LE32(w)[1] &&
          LE32(v)[2] == LE32(w)[2] && LE32(v)[3] == LE32(w)[3];
    }
  }
}
