/** Where everything stands in the bytes of an archive, in numbers: the layout of sections 4.3.7, 4.3.12 and 4.3.16 of
    PKWARE APPNOTE.TXT. */
module ZipLayout {
  import opened Bytes
  import opened Streams
  import opened ZipRecords
  import opened ArchiveEntries
  import opened ArchiveImage

  /** The number in `n` bytes from `p` on, the low byte first; behind the end there are zeros. */
  function Num(d: seq<Byte>, p: nat, n: nat): (v: nat)
    decreases n
  {
    if n == 0 then 0 else (if p < |d| then d[p] else 0) + 256 * Num(d, p + 1, n - 1)
  }

  lemma NumIs(d: seq<Byte>, p: nat)
    ensures U16At(d, p) == Num(d, p, 2) && U32At(d, p) == Num(d, p, 4)
  {
    assert Num(d, p + 3, 1) == At(d, p + 3) + 256 * Num(d, p + 4, 0);
    assert Num(d, p + 2, 2) == At(d, p + 2) + 256 * Num(d, p + 3, 1);
    assert Num(d, p + 1, 1) == At(d, p + 1) + 256 * Num(d, p + 2, 0);
    assert Num(d, p + 1, 3) == At(d, p + 1) + 256 * Num(d, p + 2, 2);
  }

  // ---- What is written ----

  predicate Whole(c: Codec, e: Entry) {
    e.data.Some? && e.size == |e.data.value| && e.crc == c.crc(e.data.value)
  }

  ghost predicate LocalLaid(c: Codec, d: seq<Byte>, p: nat, e: Entry) {
    && e.data.Some?
    && var plain, n := e.data.value, |e.path|;
       var packs := |c.compress(plain)| < |plain|;
       var body := if packs then c.compress(plain) else plain;
       && p + 30 + n + |body| <= |d|
       && d[p..p + 4] == [0x50, 0x4B, 0x03, 0x04]
       && Num(d, p + 4, 2) == 0 && Num(d, p + 6, 2) == 0
       && Num(d, p + 8, 2) == (if packs then 8 else 0)
       && Num(d, p + 10, 2) == e.modTime % 0x1_0000 && Num(d, p + 12, 2) == e.modDate % 0x1_0000
       && Num(d, p + 14, 4) == c.crc(plain) % 0x1_0000_0000
       && Num(d, p + 18, 4) == |body| % 0x1_0000_0000
       && Num(d, p + 22, 4) == |plain| % 0x1_0000_0000
       && Num(d, p + 26, 2) == n % 0x1_0000 && Num(d, p + 28, 2) == 0
       && d[p + 30..p + 30 + n] == e.path && d[p + 30 + n..p + 30 + n + |body|] == body
  }

  ghost predicate CentralLaid(c: Codec, d: seq<Byte>, p: nat, e: Entry, offset: nat) {
    && e.data.Some?
    && var plain, n := e.data.value, |e.path|;
       var packs := |c.compress(plain)| < |plain|;
       && p + 46 + n <= |d|
       && d[p..p + 4] == [0x50, 0x4B, 0x01, 0x02]
       && Num(d, p + 4, 2) == 0 && Num(d, p + 6, 2) == 0 && Num(d, p + 8, 2) == 0
       && Num(d, p + 10, 2) == (if packs then 8 else 0)
       && Num(d, p + 12, 2) == e.modTime % 0x1_0000 && Num(d, p + 14, 2) == e.modDate % 0x1_0000
       && Num(d, p + 16, 4) == c.crc(plain) % 0x1_0000_0000
       && Num(d, p + 20, 4) == (if packs then |c.compress(plain)| else |plain|) % 0x1_0000_0000
       && Num(d, p + 24, 4) == |plain| % 0x1_0000_0000
       && Num(d, p + 28, 2) == n % 0x1_0000
       && Num(d, p + 30, 2) == 0 && Num(d, p + 32, 2) == 0 && Num(d, p + 34, 2) == 0 && Num(d, p + 36, 2) == 0
       && Num(d, p + 38, 4) == 0
       && Num(d, p + 42, 4) == offset % 0x1_0000_0000
       && d[p + 46..p + 46 + n] == e.path
  }

  ghost predicate EndLaid(d: seq<Byte>, p: nat, count: nat, size: nat, offset: nat) {
    && p + 22 == |d|
    && d[p..p + 4] == [0x50, 0x4B, 0x05, 0x06]
    && Num(d, p + 4, 2) == 0 && Num(d, p + 6, 2) == 0
    && Num(d, p + 8, 2) == count % 0x1_0000 && Num(d, p + 10, 2) == count % 0x1_0000
    && Num(d, p + 12, 4) == size % 0x1_0000_0000 && Num(d, p + 16, 4) == offset % 0x1_0000_0000
    && Num(d, p + 20, 2) == 0
  }

  /** How long the local parts of the first `i` entries are */
  function LocalsUpTo(c: Codec, es: seq<Entry>, i: nat): nat
    requires i <= |es|
  {
    if i == 0 then 0
    else
      var e := es[i - 1];
      var plain := if e.data.Some? then e.data.value else [];
      LocalsUpTo(c, es, i - 1) + 30 + |e.path| + Min(|c.compress(plain)|, |plain|)
  }

  function DirectoryUpTo(es: seq<Entry>, i: nat): nat
    requires i <= |es|
  {
    if i == 0 then 0 else DirectoryUpTo(es, i - 1) + 46 + |es[i - 1].path|
  }

  /** `d` is an archive of the entries `es`: their local parts, the directory, and the end record. Its first byte has
      the position `base` in the stream. */
  ghost predicate ZipLaid(c: Codec, es: seq<Entry>, base: nat, d: seq<Byte>) {
    var n, start := |es|, LocalsUpTo(c, es, |es|);
    && (forall i :: 0 <= i < n ==> LocalLaid(c, d, LocalsUpTo(c, es, i), es[i]))
    && (forall i :: 0 <= i < n ==>
          CentralLaid(c, d, start + DirectoryUpTo(es, i), es[i], base + LocalsUpTo(c, es, i)))
    && EndLaid(d, start + DirectoryUpTo(es, n), n, DirectoryUpTo(es, n), base + start)
  }

  lemma SignatureStands(d: seq<Byte>, p: nat, sig: seq<Byte>, rest: seq<Byte>)
    requires Has(d, p, sig + rest)
    ensures p + |sig| <= |d| && d[p..p + |sig|] == sig
  {
    HasBoth(d, p, sig, rest);
  }

  lemma LocalIsLaid(c: Codec, d: seq<Byte>, p: nat, e: Entry)
    requires Whole(c, e) && Has(d, p, LocalPart(c, e))
    ensures LocalLaid(c, d, p, e)
  {
    hide LE16, LE32, Has, Num, U16At, U32At, LocalFront, LocalBack;
    var h := LocalOf(c, e);
    HasBoth(d, p, LocalBytes(h), e.path + Body(c, e));
    HasBoth(d, p + 30, e.path, Body(c, e));
    LocalReadBack(d, p, h);
    LocalNums(d, p);
    LocalSignature(d, p, h);
    HasSlice(d, p + 30, e.path);
    HasSlice(d, p + 30 + |e.path|, Body(c, e));
  }

  lemma HasSlice(d: seq<Byte>, p: nat, s: seq<Byte>)
    requires Has(d, p, s)
    ensures p + |s| <= |d| && d[p..p + |s|] == s
  {
  }

  lemma LocalNums(d: seq<Byte>, p: nat)
    ensures LocalAt(d, p)
         == LocalHeader(Num(d, p, 4), Num(d, p + 4, 2), Num(d, p + 6, 2), Num(d, p + 8, 2), Num(d, p + 10, 2),
                        Num(d, p + 12, 2), Num(d, p + 14, 4), Num(d, p + 18, 4), Num(d, p + 22, 4), Num(d, p + 26, 2),
                        Num(d, p + 28, 2))
  {
    hide Num, U16At, U32At;
    forall q: nat
      ensures U16At(d, q) == Num(d, q, 2) && U32At(d, q) == Num(d, q, 4)
    {
      NumIs(d, q);
    }
  }

  lemma LocalSignature(d: seq<Byte>, p: nat, h: LocalHeader)
    requires Has(d, p, LocalBytes(h)) && h.signature == 0x04034B50
    ensures p + 4 <= |d| && d[p..p + 4] == [0x50, 0x4B, 0x03, 0x04]
  {
    hide LE16, Has;
    var rest := LocalBytes(h)[4..];
    assert LocalBytes(h) == LE32(h.signature) + rest && LE32(h.signature) == [0x50, 0x4B, 0x03, 0x04];
    SignatureStands(d, p, LE32(h.signature), rest);
  }

  lemma CentralIsLaid(c: Codec, d: seq<Byte>, p: nat, e: Entry, offset: nat)
    requires Whole(c, e) && Has(d, p, CentralPart(c, e, offset))
    ensures CentralLaid(c, d, p, e, offset)
  {
    hide LE16, LE32, Has, Num, U16At, U32At, CentralFront, CentralBack;
    var h := CentralOf(c, e, offset);
    HasBoth(d, p, CentralBytes(h), e.path);
    CentralReadBack(d, p, h);
    CentralNums(d, p);
    CentralSignature(d, p, h);
    HasSlice(d, p + 46, e.path);
  }

  lemma CentralNums(d: seq<Byte>, p: nat)
    ensures CentralAt(d, p)
         == CentralHeader(Num(d, p, 4), Num(d, p + 4, 2), Num(d, p + 6, 2), Num(d, p + 8, 2), Num(d, p + 10, 2),
                          Num(d, p + 12, 2), Num(d, p + 14, 2), Num(d, p + 16, 4), Num(d, p + 20, 4),
                          Num(d, p + 24, 4), Num(d, p + 28, 2), Num(d, p + 30, 2), Num(d, p + 32, 2),
                          Num(d, p + 34, 2), Num(d, p + 36, 2), Num(d, p + 38, 4), Num(d, p + 42, 4))
  {
    hide Num, U16At, U32At;
    forall q: nat
      ensures U16At(d, q) == Num(d, q, 2) && U32At(d, q) == Num(d, q, 4)
    {
      NumIs(d, q);
    }
  }

  lemma CentralSignature(d: seq<Byte>, p: nat, h: CentralHeader)
    requires Has(d, p, CentralBytes(h)) && h.signature == 0x02014B50
    ensures p + 4 <= |d| && d[p..p + 4] == [0x50, 0x4B, 0x01, 0x02]
  {
    hide LE16, Has;
    var rest := CentralBytes(h)[4..];
    assert CentralBytes(h) == LE32(h.signature) + rest && LE32(h.signature) == [0x50, 0x4B, 0x01, 0x02];
    SignatureStands(d, p, LE32(h.signature), rest);
  }

  lemma EndNums(d: seq<Byte>, p: nat)
    ensures EndAt(d, p)
         == CentralEnd(Num(d, p, 2), Num(d, p + 2, 2), Num(d, p + 4, 2), Num(d, p + 6, 2), Num(d, p + 8, 4),
                       Num(d, p + 12, 4), Num(d, p + 16, 2))
  {
    hide Num, U16At, U32At;
    forall q: nat
      ensures U16At(d, q) == Num(d, q, 2) && U32At(d, q) == Num(d, q, 4)
    {
      NumIs(d, q);
    }
  }

  lemma {:induction false} LocalsLength(c: Codec, es: seq<Entry>, i: nat)
    requires i <= |es| && forall k :: 0 <= k < |es| ==> Whole(c, es[k])
    ensures |Locals(c, es[..i])| == LocalsUpTo(c, es, i)
  {
    hide LocalBytes;
    if i > 0 {
      LocalsLength(c, es, i - 1);
      assert Init(es[..i]) == es[..i - 1] && Last(es[..i]) == es[i - 1];
    }
  }

  lemma {:induction false} DirectoryLength(c: Codec, es: seq<Entry>, i: nat, base: nat)
    requires i <= |es|
    ensures |Directory(c, es[..i], base)| == DirectoryUpTo(es, i)
  {
    hide CentralBytes, Locals, CentralOf;
    if i > 0 {
      DirectoryLength(c, es, i - 1, base);
      assert Init(es[..i]) == es[..i - 1] && Last(es[..i]) == es[i - 1];
    }
  }

  /** An archive has this layout. */
  lemma ImageLaid(c: Codec, es: seq<Entry>, base: nat)
    requires forall i :: 0 <= i < |es| ==> Whole(c, es[i])
    ensures ZipLaid(c, es, base, Image(c, es, base))
  {
    hide Locals, Directory, Image, LocalsUpTo, DirectoryUpTo, LocalLaid, CentralLaid, EndLaid, LocalPart, CentralPart,
         Has, Whole;
    var d, n := Image(c, es, base), |es|;
    assert es[..n] == es;
    LocalsLength(c, es, n);
    DirectoryLength(c, es, n, base);
    forall i | 0 <= i < n
      ensures LocalLaid(c, d, LocalsUpTo(c, es, i), es[i])
      ensures CentralLaid(c, d, LocalsUpTo(c, es, n) + DirectoryUpTo(es, i), es[i], base + LocalsUpTo(c, es, i))
    {
      LocalsLength(c, es, i);
      DirectoryLength(c, es, i, base);
      ImageParts(c, es, i, base);
      LocalIsLaid(c, d, LocalsUpTo(c, es, i), es[i]);
      CentralIsLaid(c, d, LocalsUpTo(c, es, n) + DirectoryUpTo(es, i), es[i], base + LocalsUpTo(c, es, i));
    }
    EndIsLaid(c, es, base);
  }

  lemma EndIsLaid(c: Codec, es: seq<Entry>, base: nat)
    ensures EndLaid(Image(c, es, base), |Locals(c, es)| + |Directory(c, es, base)|, |es|, |Directory(c, es, base)|,
                    base + |Locals(c, es)|)
  {
    hide Locals, Directory, Image, Has, EndBytes, LE16, Num, U16At, U32At;
    var d := Image(c, es, base);
    EndStands(c, es, base);
    EndReadBack(d, |d| - 18, EndOf(c, es, base));
    EndNums(d, |d| - 18);
    assert LE32(SIG_END) == [0x50, 0x4B, 0x05, 0x06];
    HasSlice(d, |d| - 22, LE32(SIG_END));
  }

  // ---- What is read ----

  /** `k` bytes before its end, the archive has an end record. */
  ghost predicate EndsAt(d: seq<Byte>, k: nat) {
    4 <= k <= |d| && d[|d| - k..|d| - k + 4] == [0x50, 0x4B, 0x05, 0x06]
  }

  /** The directory entry behind the one at `p`: behind its name, its extra field and its comment */
  function Past(d: seq<Byte>, p: nat): nat {
    Min(Min(Min(p + 46, |d|) + Num(d, p + 28, 2), |d|) + Num(d, p + 30, 2) + Num(d, p + 32, 2), |d|)
  }

  function HeaderPos(d: seq<Byte>, p: nat, i: nat): nat
    decreases i
  {
    if i == 0 then p else HeaderPos(d, Past(d, p), i - 1)
  }

  /** The directory entry at `q` is of a folder: its name ends with a slash, and it has no data. */
  predicate IsFolder(d: seq<Byte>, q: nat) {
    var n := Num(d, q + 28, 2);
    n > 0 && q + 46 + n <= |d| && d[q + 46 + n - 1] == 0x2F && Num(d, q + 24, 4) == 0
  }

  /** It has its signature, and the file is stored or deflated and is not encrypted. */
  ghost predicate HeaderFine(d: seq<Byte>, q: nat) {
    && q + 4 <= |d| && d[q..q + 4] == [0x50, 0x4B, 0x01, 0x02]
    && (IsFolder(d, q) || ((Num(d, q + 10, 2) == 0 || Num(d, q + 10, 2) == 8) && Num(d, q + 8, 2) % 2 == 0))
  }

  ghost predicate AllFine(d: seq<Byte>, p: nat, n: nat) {
    forall i: nat :: i < n ==> HeaderFine(d, HeaderPos(d, p, i))
  }

  /** Where the directory is, by the end record at `p`, and how many entries it has */
  function DirectoryFrom(d: seq<Byte>, p: nat): nat {
    Min(Num(d, p + 16, 4), |d|)
  }

  function CountFrom(d: seq<Byte>, p: nat): nat {
    Num(d, p + 10, 2)
  }

  /** The last end record that is not too close to the end is for a single disk, and its directory is fine. */
  ghost predicate OpensAt(d: seq<Byte>, k: nat) {
    && 22 <= k < 2070 && k <= |d| && EndsAt(d, k) && (forall j :: 22 <= j < k ==> !EndsAt(d, j))
    && var p := |d| - k;
       && Num(d, p + 8, 2) == CountFrom(d, p) && AllFine(d, DirectoryFrom(d, p), CountFrom(d, p))
  }

  ghost predicate Opens(d: seq<Byte>) {
    |d| >= 4 && d[..4] == [0x50, 0x4B, 0x03, 0x04] && exists k: nat :: OpensAt(d, k)
  }

  /** What the directory entry at `q` says, and the local part that it points to */
  function EntryAt(d: seq<Byte>, q: nat): Entry {
    var offset := Num(d, q + 42, 4);
    Entry(Padded(d, q + 46, Num(d, q + 28, 2)), Num(d, q + 24, 4), Num(d, q + 16, 4), Num(d, q + 12, 2),
          Num(d, q + 14, 2), Min(offset + 30, |d|) + Num(d, offset + 26, 2) + Num(d, offset + 28, 2),
          Num(d, q + 20, 4), Num(d, q + 10, 2), None)
  }

  /** The last of `n` directory entries from `p` on that has this path and is not a folder */
  function LastWith(d: seq<Byte>, p: nat, n: nat, path: Path): Option<Entry> {
    if n == 0 then None
    else
      var q := HeaderPos(d, p, n - 1);
      if !IsFolder(d, q) && Cmp(path, EntryAt(d, q).path) == 0 then Some(EntryAt(d, q))
      else LastWith(d, p, n - 1, path)
  }

  lemma SignatureIs(d: seq<Byte>, p: nat, sig: seq<Byte>)
    requires |sig| == 4 && sig[3] > 0
    ensures U32At(d, p) == U32At(sig, 0) <==> p + 4 <= |d| && d[p..p + 4] == sig
  {
    SameBytes(At(d, p), At(d, p + 1), At(d, p + 2), At(d, p + 3), sig[0], sig[1], sig[2], sig[3]);
    if p + 4 <= |d| {
      var s := d[p..p + 4];
      assert s == [d[p], d[p + 1], d[p + 2], d[p + 3]] && sig == [sig[0], sig[1], sig[2], sig[3]];
    }
  }

  lemma SameBytes(a: Byte, b: Byte, c: Byte, e: Byte, a': Byte, b': Byte, c': Byte, e': Byte)
    ensures a + 256 * b + 0x1_0000 * c + 0x100_0000 * e == a' + 256 * b' + 0x1_0000 * c' + 0x100_0000 * e'
            <==> a == a' && b == b' && c == c' && e == e'
  {
    LowestByte(a, b + 256 * c + 0x1_0000 * e, a', b' + 256 * c' + 0x1_0000 * e');
    LowestByte(b, c + 256 * e, b', c' + 256 * e');
    LowestByte(c, e, c', e');
  }

  lemma LowestByte(a: Byte, x: nat, a': Byte, x': nat)
    ensures a + 256 * x == a' + 256 * x' <==> a == a' && x == x'
  {
  }

  lemma EndedIs(d: seq<Byte>, k: nat)
    requires k >= 4
    ensures EndedAt(d, k) <==> EndsAt(d, k)
  {
    hide U32At;
    if k <= |d| {
      SignatureIs(d, |d| - k, [0x50, 0x4B, 0x05, 0x06]);
      assert U32At([0x50, 0x4B, 0x05, 0x06], 0) == 0x06054B50 by {
        ThreeNumbers();
      }
    }
  }

  lemma ThreeNumbers()
    ensures U32At([0x50, 0x4B, 0x03, 0x04], 0) == 0x04034B50
    ensures U32At([0x50, 0x4B, 0x01, 0x02], 0) == 0x02014B50
    ensures U32At([0x50, 0x4B, 0x05, 0x06], 0) == 0x06054B50
  {
  }

  /** The search stops at the end record closest to the end. */
  lemma {:induction false} EndPosIs(d: seq<Byte>, k: nat) returns (e: nat)
    requires 4 <= k <= 2070
    ensures k <= e <= 2070 && forall j :: k <= j < e ==> !EndsAt(d, j)
    ensures e < 2070 ==> EndsAt(d, e) && EndPos(d, k) == Some(|d| - e + 4)
    ensures e == 2070 ==> EndPos(d, k) == None
    decreases 2070 - k
  {
    hide EndedAt, EndsAt;
    e := k;
    if k < 2070 {
      EndedIs(d, k);
      EndInside(d, k);
      if !EndsAt(d, k) {
        e := EndPosIs(d, k + 1);
      }
    }
  }

  lemma EndInside(d: seq<Byte>, k: nat)
    requires k >= 4
    ensures EndsAt(d, k) ==> k <= |d| && Min(|d| - k + 4, |d|) == |d| - k + 4
  {
  }

  lemma HeaderRead(d: seq<Byte>, q: nat)
    ensures var h := CentralAt(d, q);
            && (h.signature == SIG_CENTRAL <==> q + 4 <= |d| && d[q..q + 4] == [0x50, 0x4B, 0x01, 0x02])
            && h.compression == Num(d, q + 10, 2) && h.flags == Num(d, q + 8, 2)
            && h.size == Num(d, q + 24, 4) && h.nameSize == Num(d, q + 28, 2)
            && NextPos(d, q) == Past(d, q)
            && EntryFrom(d, h, PathAt(d, q)) == EntryAt(d, q)
  {
    hide Num, U32At, LocalAt, CentralAt;
    CentralNums(d, q);
    ThreeNumbers();
    SignatureIs(d, q, [0x50, 0x4B, 0x01, 0x02]);
    NumIs(d, q);
    PathIs(d, q, CentralAt(d, q).nameSize);
    DataPosIs(d, CentralAt(d, q).relOffset);
  }

  lemma PathIs(d: seq<Byte>, q: nat, n: nat)
    ensures Padded(d, Min(q + 46, |d|), n) == Padded(d, q + 46, n)
  {
  }

  lemma DataPosIs(d: seq<Byte>, offset: nat)
    ensures DataPos(d, offset) == Min(offset + 30, |d|) + Num(d, offset + 26, 2) + Num(d, offset + 28, 2)
  {
    hide Num;
    LocalNums(d, Min(offset, |d|));
    if offset > |d| {
      NothingAt(d, |d| + 26);
      NothingAt(d, |d| + 28);
      NothingAt(d, offset + 26);
      NothingAt(d, offset + 28);
    }
  }

  lemma NothingAt(d: seq<Byte>, p: nat)
    requires p >= |d|
    ensures Num(d, p, 2) == 0
  {
    assert Num(d, p + 1, 1) == 0;
  }

  lemma FolderIs(d: seq<Byte>, q: nat)
    ensures EndsWithSlash(PathAt(d, q)) && CentralAt(d, q).size == 0 <==> IsFolder(d, q)
  {
    hide Num, U16At, U32At, CentralAt;
    HeaderRead(d, q);
    PathIs(d, q, CentralAt(d, q).nameSize);
  }

  /** One turn of the loop over the directory */
  lemma ReadNext(d: seq<Byte>, p: nat, n: nat, es: seq<Entry>)
    requires n > 0
    ensures var es' := if IsFolder(d, p) then es else Put(es, EntryAt(d, p));
            if HeaderFine(d, p) then ReadEntries(d, p, n, es) == ReadEntries(d, Past(d, p), n - 1, es')
            else !ReadEntries(d, p, n, es).0
  {
    hide Num, CentralAt, PathAt, NextPos, EntryFrom, Put, IsFolder, EntryAt, Past;
    HeaderRead(d, p);
    FolderIs(d, p);
  }

  lemma FirstFine(d: seq<Byte>, p: nat, n: nat)
    requires n > 0
    ensures AllFine(d, p, n) <==> HeaderFine(d, p) && AllFine(d, Past(d, p), n - 1)
  {
    hide HeaderFine, Past;
    assert HeaderPos(d, p, 0) == p;
    if HeaderFine(d, p) && AllFine(d, Past(d, p), n - 1) {
      forall i: nat | i < n
        ensures HeaderFine(d, HeaderPos(d, p, i))
      {
        if i > 0 {
          assert HeaderFine(d, HeaderPos(d, Past(d, p), i - 1));
        }
      }
    }
    if AllFine(d, p, n) {
      forall i: nat | i < n - 1
        ensures HeaderFine(d, HeaderPos(d, Past(d, p), i))
      {
        assert HeaderFine(d, HeaderPos(d, p, i + 1));
      }
    }
  }

  lemma {:induction false} ReadsWhenFine(d: seq<Byte>, p: nat, n: nat, es: seq<Entry>)
    ensures ReadEntries(d, p, n, es).0 <==> AllFine(d, p, n)
    decreases n
  {
    hide HeaderFine, Past, Put, IsFolder, EntryAt, AllFine, ReadEntries;
    if n > 0 {
      ReadNext(d, p, n, es);
      FirstFine(d, p, n);
      if HeaderFine(d, p) {
        ReadsWhenFine(d, Past(d, p), n - 1, if IsFolder(d, p) then es else Put(es, EntryAt(d, p)));
      }
    } else {
      NoneFine(d, p, es);
    }
  }

  lemma NoneFine(d: seq<Byte>, p: nat, es: seq<Entry>)
    ensures AllFine(d, p, 0) && ReadEntries(d, p, 0, es) == (true, es)
  {
  }

  lemma {:induction false} LastOrFirst(d: seq<Byte>, p: nat, n: nat, path: Path)
    requires n > 0
    ensures LastWith(d, p, n, path)
         == if LastWith(d, Past(d, p), n - 1, path).Some? then LastWith(d, Past(d, p), n - 1, path)
            else if !IsFolder(d, p) && Cmp(path, EntryAt(d, p).path) == 0 then Some(EntryAt(d, p))
            else None
    decreases n
  {
    hide Past, IsFolder, EntryAt, Cmp;
    if n > 1 {
      assert HeaderPos(d, p, n - 1) == HeaderPos(d, Past(d, p), n - 2);
      LastOrFirst(d, p, n - 1, path);
    } else {
      assert HeaderPos(d, p, 0) == p && LastWith(d, p, 0, path) == None;
    }
  }

  /** Of several entries with the same path, the last one stays. */
  lemma {:induction false} ReadFinds(d: seq<Byte>, p: nat, n: nat, es: seq<Entry>, path: Path)
    requires Sorted(es) && ReadEntries(d, p, n, es).0
    ensures Find(ReadEntries(d, p, n, es).1, path)
         == if LastWith(d, p, n, path).Some? then LastWith(d, p, n, path) else Find(es, path)
    decreases n
  {
    hide HeaderFine, Past, Put, IsFolder, EntryAt, Cmp, Find, Sorted, ReadEntries, LastWith;
    if n > 0 {
      ReadNext(d, p, n, es);
      LastOrFirst(d, p, n, path);
      if IsFolder(d, p) {
        ReadFinds(d, Past(d, p), n - 1, es, path);
      } else {
        PutSorted(es, EntryAt(d, p));
        PutFind(es, EntryAt(d, p), path);
        ReadFinds(d, Past(d, p), n - 1, Put(es, EntryAt(d, p)), path);
      }
    } else {
      NoneFine(d, p, es);
      NoneWith(d, p, path);
    }
  }

  lemma NoneWith(d: seq<Byte>, p: nat, path: Path)
    ensures LastWith(d, p, 0, path) == None
  {
  }

  lemma OneEnd(d: seq<Byte>, k: nat, e: nat)
    requires OpensAt(d, k) && 22 <= e <= 2070 && (e < 2070 ==> EndsAt(d, e))
    requires forall j :: 22 <= j < e ==> !EndsAt(d, j)
    ensures k == e
  {
    hide EndsAt, AllFine, HeaderFine;
  }

  lemma NotEnded(d: seq<Byte>)
    requires EndPos(d, 22) == None
    ensures !ReadDirectory(d).0
  {
    hide EndPos;
  }

  /** What the end record leads to */
  lemma ReadAt(d: seq<Byte>, k: nat)
    requires 22 <= k < 2070 && EndsAt(d, k) && (forall j :: 22 <= j < k ==> !EndsAt(d, j))
    requires EndPos(d, 22) == Some(|d| - k + 4)
    ensures var p := |d| - k;
            if |d| >= 4 && d[..4] == [0x50, 0x4B, 0x03, 0x04] && Num(d, p + 8, 2) == CountFrom(d, p)
            then ReadDirectory(d) == ReadEntries(d, DirectoryFrom(d, p), CountFrom(d, p), [])
            else !ReadDirectory(d).0
    ensures ReadDirectory(d).0 <==> |d| >= 4 && d[..4] == [0x50, 0x4B, 0x03, 0x04] && OpensAt(d, k)
  {
    hide EndPos, ReadEntries, U32At, Num, AllFine, EndAt;
    ThreeNumbers();
    SignatureIs(d, 0, [0x50, 0x4B, 0x03, 0x04]);
    EndInside(d, k);
    var p := |d| - k;
    EndNums(d, p + 4);
    ReadsWhenFine(d, DirectoryFrom(d, p), CountFrom(d, p), []);
  }

  lemma FoundIn(d: seq<Byte>, k: nat, path: Path)
    requires OpensAt(d, k) && ReadDirectory(d).0
    ensures Find(ReadDirectory(d).1, path) == LastWith(d, DirectoryFrom(d, |d| - k), CountFrom(d, |d| - k), path)
  {
    hide EndPos, ReadEntries, ReadDirectory, Num, AllFine, Find, LastWith, DirectoryFrom, CountFrom, EndsAt;
    var e := EndPosIs(d, 22);
    var p := |d| - k;
    ReadAt(d, k);
    ReadFinds(d, DirectoryFrom(d, p), CountFrom(d, p), [], path);
    NoneIn(path);
  }

  /** Which bytes are opened as an archive, and what is found in them */
  lemma OpensExactly(d: seq<Byte>)
    ensures ReadDirectory(d).0 <==> Opens(d)
    ensures ReadDirectory(d).0 ==> forall k: nat, path :: OpensAt(d, k) ==>
              Find(ReadDirectory(d).1, path) == LastWith(d, DirectoryFrom(d, |d| - k), CountFrom(d, |d| - k), path)
  {
    hide ReadDirectory, Find, LastWith, DirectoryFrom, CountFrom, AllFine, EndsAt, Num;
    var e := EndPosIs(d, 22);
    if e < 2070 {
      ReadAt(d, e);
    }
    forall k: nat | OpensAt(d, k)
      ensures k == e
    {
      OneEnd(d, k, e);
    }
    forall k: nat, path | ReadDirectory(d).0 && OpensAt(d, k)
      ensures Find(ReadDirectory(d).1, path) == LastWith(d, DirectoryFrom(d, |d| - k), CountFrom(d, |d| - k), path)
    {
      FoundIn(d, k, path);
    }
    if e == 2070 {
      NotEnded(d);
    }
  }

  lemma NoneIn(path: Path)
    ensures Find([], path) == None
  {
  }
}
