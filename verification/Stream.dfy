/** A stream over a buffer (stream.c and buffer.c), little-endian. */
module Streams {
  import opened Bytes

  function Min(a: nat, b: nat): (r: nat)
    ensures r <= b && (a <= b ==> r == a)
  {
    if a < b then a else b
  }

  /** `bytes` written over `data` from `p` on. */
  function Overwrite(data: seq<Byte>, p: nat, bytes: seq<Byte>): seq<Byte>
    requires p <= |data|
  {
    data[..p] + bytes + if p + |bytes| <= |data| then data[p + |bytes|..] else []
  }

  /** What overwritten data have at each place */
  lemma Overwritten(d: seq<Byte>, p: nat, bytes: seq<Byte>)
    requires p <= |d|
    ensures var r := Overwrite(d, p, bytes);
            && |r| == (if p + |bytes| <= |d| then |d| else p + |bytes|)
            && r[p..p + |bytes|] == bytes
            && forall i :: 0 <= i < |r| && (i < p || i >= p + |bytes|) ==> r[i] == d[i]
  {
  }

  lemma OverwriteOn(data: seq<Byte>, p: nat, a: seq<Byte>, b: seq<Byte>)
    requires p <= |data|
    ensures p + |a| <= |Overwrite(data, p, a)|
    ensures Overwrite(Overwrite(data, p, a), p + |a|, b) == Overwrite(data, p, a + b)
  {
    var d := Overwrite(data, p, a);
    assert d[..p + |a|] == data[..p] + a;
    if p + |a| + |b| <= |data| {
      assert d[p + |a| + |b|..] == data[p + |a| + |b|..];
    }
  }

  /** What a 16-bit read at the end of the stream gives does not depend on how far beyond it one is. */
  lemma NothingBeyond(data: seq<Byte>, p: nat)
    ensures U16At(data, Min(p, |data|)) == U16At(data, p)
    ensures U32At(data, Min(p, |data|)) == U32At(data, p)
  {
  }

  /** The bytes that a read of `n` gives, and zeros for those that are not there. */
  function Padded(data: seq<Byte>, p: nat, n: nat): (s: seq<Byte>)
    ensures |s| == n && forall i :: 0 <= i < n ==> s[i] == At(data, p + i)
  {
    seq<Byte>(n, i requires 0 <= i < n => At(data, p + i))
  }

  lemma PaddedHas(data: seq<Byte>, p: nat, bytes: seq<Byte>)
    requires Has(data, p, bytes)
    ensures Padded(data, p, |bytes|) == bytes
  {
    var s := data[p..p + |bytes|];
    assert forall i :: 0 <= i < |bytes| ==> data[p + i] == s[i];
    assert Padded(data, p, |bytes|) == bytes;
  }

  class Stream {
    var data: seq<Byte>
    var pos: nat

    ghost predicate Valid()
      reads this
    {
      pos <= |data|
    }

    /** open_Buffer */
    constructor (data: seq<Byte>)
      ensures Valid() && this.data == data && pos == 0
    {
      this.data, pos := data, 0;
    }

    method Seek(offset: nat)
      modifies this`pos
      ensures Valid() && pos == Min(offset, |data|)
    {
      pos := Min(offset, |data|);
    }

    /** readData_Stream: at most the bytes that are left. */
    method Read(n: nat) returns (s: seq<Byte>)
      requires Valid()
      modifies this`pos
      ensures Valid() && s == data[old(pos)..Min(old(pos) + n, |data|)] && pos == Min(old(pos) + n, |data|)
    {
      s := data[pos..Min(pos + n, |data|)];
      pos := pos + |s|;
    }

    /** A read into a block that was given the wanted size before. */
    method ReadPadded(n: nat) returns (s: seq<Byte>)
      requires Valid()
      modifies this`pos
      ensures Valid() && s == Padded(data, old(pos), n) && pos == Min(old(pos) + n, |data|)
    {
      var r := Read(n);
      s := r + seq<Byte>(n - |r|, _ => 0);
      assert s == Padded(data, old(pos), n);
    }

    method ReadU16(ghost p0: nat, ghost k: nat) returns (v: nat)
      requires pos == Min(p0 + k, |data|)
      modifies this`pos
      ensures v == U16At(data, p0 + k) && pos == Min(p0 + k + 2, |data|)
    {
      NothingBeyond(data, p0 + k);
      var s := Read(2);
      v := At(s, 0) + 256 * At(s, 1);
    }

    method ReadU32(ghost p0: nat, ghost k: nat) returns (v: nat)
      requires pos == Min(p0 + k, |data|)
      modifies this`pos
      ensures v == U32At(data, p0 + k) && pos == Min(p0 + k + 4, |data|)
    {
      NothingBeyond(data, p0 + k);
      var s := Read(4);
      v := At(s, 0) + 256 * At(s, 1) + 0x1_0000 * At(s, 2) + 0x100_0000 * At(s, 3);
    }

    /** `acc` has been written since the stream was at `p0` with the contents `d0`. */
    ghost predicate Wrote(d0: seq<Byte>, p0: nat, acc: seq<Byte>)
      reads this
    {
      p0 <= |d0| && pos == p0 + |acc| && data == Overwrite(d0, p0, acc)
    }

    /** writeData_Stream */
    method Write(bytes: seq<Byte>, ghost d0: seq<Byte>, ghost p0: nat, ghost acc: seq<Byte>)
      requires Wrote(d0, p0, acc)
      modifies this
      ensures Valid() && Wrote(d0, p0, acc + bytes)
    {
      OverwriteOn(d0, p0, acc, bytes);
      data := Overwrite(data, pos, bytes);
      pos := pos + |bytes|;
    }

    method WriteU16(v: nat, ghost d0: seq<Byte>, ghost p0: nat, ghost acc: seq<Byte>)
      requires Wrote(d0, p0, acc)
      modifies this
      ensures Valid() && Wrote(d0, p0, acc + LE16(v))
    {
      Write(LE16(v), d0, p0, acc);
    }

    method WriteU32(v: nat, ghost d0: seq<Byte>, ghost p0: nat, ghost acc: seq<Byte>)
      requires Wrote(d0, p0, acc)
      modifies this
      ensures Valid() && Wrote(d0, p0, acc + LE32(v))
    {
      Write(LE32(v), d0, p0, acc);
    }
  }
}
