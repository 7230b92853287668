/** Bytes, and the little-endian numbers of stream.c made of them. */
module Bytes {
  type Byte = x: int | 0 <= x < 256

  datatype Option<+T> = None | Some(value: T)

  const LIMIT16: nat := 0x1_0000
  const LIMIT32: nat := 0x1_0000_0000

  /** What write16_Stream puts out for a value that was converted to 16 bits. */
  function LE16(v: nat): (s: seq<Byte>)
    ensures |s| == 2
  {
    [v % 256, v / 256 % 256]
  }

  function LE32(v: nat): (s: seq<Byte>)
    ensures |s| == 4
  {
    [v % 256, v / 256 % 256, v / 0x1_0000 % 256, v / 0x100_0000 % 256]
  }

  /** The byte at `p`; what lies behind the end reads as 0, because the numbers of stream.c start out as 0. */
  function At(data: seq<Byte>, p: nat): Byte {
    if p < |data| then data[p] else 0
  }

  function U16At(data: seq<Byte>, p: nat): (v: nat)
    ensures v < LIMIT16
  {
    At(data, p) + 256 * At(data, p + 1)
  }

  function U32At(data: seq<Byte>, p: nat): (v: nat)
    ensures v < LIMIT32
  {
    At(data, p) + 256 * At(data, p + 1) + 0x1_0000 * At(data, p + 2) + 0x100_0000 * At(data, p + 3)
  }

  /** `bytes` stand in `data` at `p`. */
  predicate Has(data: seq<Byte>, p: nat, bytes: seq<Byte>) {
    p + |bytes| <= |data| && data[p..p + |bytes|] == bytes
  }

  lemma HasBoth(data: seq<Byte>, p: nat, a: seq<Byte>, b: seq<Byte>)
    ensures Has(data, p, a + b) <==> Has(data, p, a) && Has(data, p + |a|, b)
  {
    if p + |a| + |b| <= |data| {
      assert data[p..p + |a + b|] == data[p..p + |a|] + data[p + |a|..p + |a| + |b|];
      if Has(data, p, a + b) {
        assert data[p..p + |a|] == (a + b)[..|a|] && data[p + |a|..p + |a| + |b|] == (a + b)[|a|..];
      }
    }
  }

  /** A 16-bit number is read back. */
  lemma Read16(data: seq<Byte>, p: nat, v: nat)
    requires Has(data, p, LE16(v))
    ensures U16At(data, p) == v % LIMIT16
  {
    var s := data[p..p + 2];
    assert data[p] == s[0] && data[p + 1] == s[1];
  }

  lemma Read32(data: seq<Byte>, p: nat, v: nat)
    requires Has(data, p, LE32(v))
    ensures U32At(data, p) == v % LIMIT32
  {
    var s := data[p..p + 4];
    assert data[p] == s[0] && data[p + 1] == s[1] && data[p + 2] == s[2] && data[p + 3] == s[3];
    FourBytes(v);
  }

  lemma FourBytes(v: nat)
    ensures v % LIMIT32
         == v % 256 + 256 * (v / 256 % 256) + 0x1_0000 * (v / 0x1_0000 % 256) + 0x100_0000 * (v / 0x100_0000 % 256)
  {
    var a := v / 256;
    var b := a / 256;
    var c := b / 256;
    Quarters(v);
    ByteOff(v);
    ByteOff(a);
    ByteOff(b);
    ByteOff(c);
    Remainder(v, v % 256 + 256 * (a % 256) + 0x1_0000 * (b % 256) + 0x100_0000 * (c % 256), c / 256);
  }

  lemma Quarters(v: nat)
    ensures v / 0x1_0000 == v / 256 / 256 && v / 0x100_0000 == v / 256 / 256 / 256
  {
  }

  lemma ByteOff(v: nat)
    ensures v == v % 256 + 256 * (v / 256)
  {
  }

  lemma Remainder(v: nat, r: nat, e: nat)
    requires v == r + LIMIT32 * e && r < LIMIT32
    ensures v % LIMIT32 == r
  {
  }
}
