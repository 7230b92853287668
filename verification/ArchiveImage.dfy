/** What serialize_Archive writes, what readDirectory_Archive_ makes of any bytes, and that the second undoes
    the first. */
module ArchiveImage {
  import opened Bytes
  import opened Streams
  import opened ZipRecords
  import opened ArchiveEntries

  const NO_COMPRESSION: nat := 0
  const DEFLATED: nat := 8

  /** Compression, decompression and checksum are those of zlib and crc32.c. */
  datatype Codec = Codec(compress: seq<Byte> -> seq<Byte>, decompress: seq<Byte> -> seq<Byte>, crc: seq<Byte> -> nat)

  ghost predicate Lossless(c: Codec) {
    forall x :: c.decompress(c.compress(x)) == x
  }

  // ---- Writing ----

  function Data(e: Entry): seq<Byte> {
    if e.data.Some? then e.data.value else []
  }

  /** Data is stored as it is when compressing does not make it smaller. */
  predicate Deflates(c: Codec, e: Entry) {
    |c.compress(Data(e))| < e.size
  }

  function Body(c: Codec, e: Entry): seq<Byte> {
    if Deflates(c, e) then c.compress(Data(e)) else Data(e)
  }

  function LocalOf(c: Codec, e: Entry): LocalHeader {
    LocalHeader(SIG_LOCAL, 0, 0, if Deflates(c, e) then DEFLATED else NO_COMPRESSION, e.modTime, e.modDate, e.crc,
                if Deflates(c, e) then |c.compress(Data(e))| else e.size, e.size, |e.path|, 0)
  }

  function CentralOf(c: Codec, e: Entry, offset: nat): CentralHeader {
    var l := LocalOf(c, e);
    CentralHeader(SIG_CENTRAL, 0, 0, 0, l.compression, l.modTime, l.modDate, l.crc, l.compressedSize, l.size,
                  l.nameSize, 0, 0, 0, 0, 0, offset)
  }

  function LocalPart(c: Codec, e: Entry): (r: seq<Byte>)
    ensures |r| == LOCAL_SIZE + |e.path| + |Body(c, e)|
  {
    LocalBytes(LocalOf(c, e)) + (e.path + Body(c, e))
  }

  function CentralPart(c: Codec, e: Entry, offset: nat): (r: seq<Byte>)
    ensures |r| == CENTRAL_SIZE + |e.path|
  {
    CentralBytes(CentralOf(c, e, offset)) + e.path
  }

  function Init(es: seq<Entry>): seq<Entry>
    requires es != []
  {
    es[..|es| - 1]
  }

  function Last(es: seq<Entry>): Entry
    requires es != []
  {
    es[|es| - 1]
  }

  function Locals(c: Codec, es: seq<Entry>): seq<Byte> {
    if es == [] then [] else Locals(c, Init(es)) + LocalPart(c, Last(es))
  }

  function Directory(c: Codec, es: seq<Entry>, base: nat): seq<Byte> {
    if es == [] then []
    else Directory(c, Init(es), base) + CentralPart(c, Last(es), base + |Locals(c, Init(es))|)
  }

  function EndOf(c: Codec, es: seq<Entry>, base: nat): CentralEnd {
    CentralEnd(0, 0, |es|, |es|, |Directory(c, es, base)|, base + |Locals(c, es)|, 0)
  }

  /** A whole archive that starts at `base` in its stream. */
  function Image(c: Codec, es: seq<Entry>, base: nat): seq<Byte> {
    Locals(c, es) + (Directory(c, es, base) + (LE32(SIG_END) + EndBytes(EndOf(c, es, base))))
  }

  // ---- Reading ----

  /** `k` bytes before the end there is the signature of the end record. */
  predicate EndedAt(d: seq<Byte>, k: nat) {
    k <= |d| && U32At(d, |d| - k) == SIG_END
  }

  /** seekToCentralEnd_: the position behind the first signature found, from `k` bytes before the end on. */
  function EndPos(d: seq<Byte>, k: nat): Option<nat>
    decreases MAX_COMMENT + END_SIZE - k
  {
    if k >= MAX_COMMENT + END_SIZE then None
    else if EndedAt(d, k) then Some(Min(|d| - k + 4, |d|))
    else EndPos(d, k + 1)
  }

  predicate EndsWithSlash(p: Path) {
    p != [] && p[|p| - 1] == 0x2f
  }

  /** Where the data of an entry begins, by the local header at `offset`. */
  function DataPos(d: seq<Byte>, offset: nat): nat {
    var p := Min(offset, |d|);
    var h := LocalAt(d, p);
    Min(p + LOCAL_SIZE, |d|) + h.nameSize + h.extraSize
  }

  function EntryFrom(d: seq<Byte>, h: CentralHeader, path: Path): Entry {
    Entry(path, h.size, h.crc, h.modTime, h.modDate, DataPos(d, h.relOffset), h.compressedSize, h.compression, None)
  }

  /** Position behind the name, the extra field and the comment of the central header at `p`. */
  function NextPos(d: seq<Byte>, p: nat): nat {
    var h := CentralAt(d, p);
    Min(Min(Min(p + CENTRAL_SIZE, |d|) + h.nameSize, |d|) + h.extraSize + h.commentSize, |d|)
  }

  function PathAt(d: seq<Byte>, p: nat): Path {
    Padded(d, Min(p + CENTRAL_SIZE, |d|), CentralAt(d, p).nameSize)
  }

  /** `n` central headers from `p` on: whether all are fine, and the entries that they add to `es`. */
  function ReadEntries(d: seq<Byte>, p: nat, n: nat, es: seq<Entry>): (bool, seq<Entry>)
    decreases n
  {
    if n == 0 then (true, es)
    else
      var h, path := CentralAt(d, p), PathAt(d, p);
      if h.signature != SIG_CENTRAL then (false, es)
      else if EndsWithSlash(path) && h.size == 0 then ReadEntries(d, NextPos(d, p), n - 1, es)
      else if h.compression != NO_COMPRESSION && h.compression != DEFLATED then (false, es)
      else if h.flags % 2 == 1 then (false, es)
      else ReadEntries(d, NextPos(d, p), n - 1, Put(es, EntryFrom(d, h, path)))
  }

  function ReadDirectory(d: seq<Byte>): (bool, seq<Entry>) {
    if U32At(d, 0) != SIG_LOCAL then (false, [])
    else if EndPos(d, END_SIZE).None? then (false, [])
    else
      var end := EndAt(d, EndPos(d, END_SIZE).value);
      if end.totalEntries != end.diskEntries then (false, [])
      else ReadEntries(d, Min(end.offset, |d|), end.totalEntries, [])
  }

  /** loadEntry_Archive_ */
  function Load(c: Codec, d: seq<Byte>, e: Entry): seq<Byte> {
    var p := Min(e.archPos, |d|);
    var arch := d[p..Min(p + e.archSize, |d|)];
    if e.compression == DEFLATED then c.decompress(arch) else arch
  }

  // ---- Round trip ----

  /** A directory without data. */
  predicate Skipped(e: Entry) {
    EndsWithSlash(e.path) && e.size == 0
  }

  /** The entry as it is read back. */
  function Reread(c: Codec, e: Entry, offset: nat): Entry {
    Entry(e.path, e.size, e.crc, e.modTime, e.modDate, offset + LOCAL_SIZE + |e.path|, |Body(c, e)|,
          LocalOf(c, e).compression, None)
  }

  /** The entries as they are read back: all but directories without data. */
  function Kept(c: Codec, es: seq<Entry>): seq<Entry> {
    if es == [] then []
    else Kept(c, Init(es)) + if Skipped(Last(es)) then [] else [Reread(c, Last(es), |Locals(c, Init(es))|)]
  }

  /** Sizes, checksums and times that their fields can hold. */
  predicate EntryFits(e: Entry) {
    && |e.path| < LIMIT16 && e.size < LIMIT32 && e.crc < LIMIT32 && e.modTime < LIMIT16 && e.modDate < LIMIT16
    && e.data.Some? && e.size == |e.data.value|
  }

  predicate Storable(c: Codec, es: seq<Entry>) {
    && |es| < LIMIT16 && |Locals(c, es)| < LIMIT32
    && (forall i :: 0 <= i < |es| ==> EntryFits(es[i]))
  }

  lemma {:induction false} LocalStands(c: Codec, es: seq<Entry>, i: nat)
    requires i < |es|
    ensures Has(Locals(c, es), |Locals(c, es[..i])|, LocalPart(c, es[i]))
  {
    hide LocalPart;
    if i == |es| - 1 {
      assert es[..i] == Init(es);
    } else {
      LocalStands(c, Init(es), i);
      assert Init(es)[..i] == es[..i];
      Prefixed(Locals(c, Init(es)), LocalPart(c, Last(es)), |Locals(c, es[..i])|, LocalPart(c, es[i]));
    }
  }

  lemma {:induction false} CentralStands(c: Codec, es: seq<Entry>, i: nat, base: nat)
    requires i < |es|
    ensures Has(Directory(c, es, base), |Directory(c, es[..i], base)|,
                CentralPart(c, es[i], base + |Locals(c, es[..i])|))
    ensures |Directory(c, es[..i + 1], base)| == |Directory(c, es[..i], base)| + CENTRAL_SIZE + |es[i].path|
  {
    hide CentralPart, CentralOf, Locals;
    assert Init(es[..i + 1]) == es[..i];
    if i == |es| - 1 {
      assert es[..i] == Init(es);
    } else {
      CentralStands(c, Init(es), i, base);
      assert Init(es)[..i] == es[..i];
      Prefixed(Directory(c, Init(es), base), CentralPart(c, Last(es), base + |Locals(c, Init(es))|),
               |Directory(c, es[..i], base)|, CentralPart(c, es[i], base + |Locals(c, es[..i])|));
    }
  }

  lemma Prefixed(a: seq<Byte>, b: seq<Byte>, p: nat, s: seq<Byte>)
    requires Has(a, p, s)
    ensures Has(a + b, p, s)
  {
    assert (a + b)[p..p + |s|] == a[p..p + |s|];
  }

  lemma Shifted(a: seq<Byte>, b: seq<Byte>, p: nat, s: seq<Byte>)
    requires Has(b, p, s)
    ensures Has(a + b, |a| + p, s)
  {
    assert (a + b)[|a| + p..|a| + p + |s|] == b[p..p + |s|];
  }

  /** The central header of entry `i` and what it points to are read back as they were meant. */
  lemma OneReadBack(c: Codec, d: seq<Byte>, e: Entry, p: nat, offset: nat)
    requires EntryFits(e) && offset < LIMIT32
    requires Has(d, p, CentralPart(c, e, offset)) && Has(d, offset, LocalPart(c, e))
    ensures CentralAt(d, p) == CentralOf(c, e, offset)
    ensures PathAt(d, p) == e.path && NextPos(d, p) == p + CENTRAL_SIZE + |e.path|
    ensures EntryFrom(d, CentralAt(d, p), e.path) == Reread(c, e, offset)
  {
    hide CentralBytes, LocalBytes, CentralAt, LocalAt;
    HasBoth(d, p, CentralBytes(CentralOf(c, e, offset)), e.path);
    CentralReadBack(d, p, CentralOf(c, e, offset));
    SmallFields(c, e, offset);
    PaddedHas(d, p + CENTRAL_SIZE, e.path);
    HasBoth(d, offset, LocalBytes(LocalOf(c, e)), e.path + Body(c, e));
    LocalReadBack(d, offset, LocalOf(c, e));
  }

  lemma SmallFields(c: Codec, e: Entry, offset: nat)
    requires EntryFits(e) && offset < LIMIT32
    ensures CentralStored(CentralOf(c, e, offset)) == CentralOf(c, e, offset)
    ensures LocalStored(LocalOf(c, e)) == LocalOf(c, e)
    ensures LocalOf(c, e).compressedSize == |Body(c, e)|
  {
  }

  /** The data of an entry is found where its local part was put. */
  lemma DataLoads(c: Codec, d: seq<Byte>, e: Entry, offset: nat)
    requires EntryFits(e) && Lossless(c) && Has(d, offset, LocalPart(c, e))
    ensures Load(c, d, Reread(c, e, offset)) == Data(e)
  {
    HasBoth(d, offset, LocalBytes(LocalOf(c, e)), e.path + Body(c, e));
    HasBoth(d, offset + LOCAL_SIZE, e.path, Body(c, e));
  }

  /** Where the parts of an archive stand. */
  lemma ImageParts(c: Codec, es: seq<Entry>, i: nat, base: nat)
    requires i < |es|
    ensures var d := Image(c, es, base);
            && Has(d, |Locals(c, es[..i])|, LocalPart(c, es[i]))
            && Has(d, |Locals(c, es)| + |Directory(c, es[..i], base)|,
                   CentralPart(c, es[i], base + |Locals(c, es[..i])|))
  {
    hide Locals, Directory, CentralPart, LocalPart;
    LocalStands(c, es, i);
    CentralStands(c, es, i, base);
    var tail := LE32(SIG_END) + EndBytes(EndOf(c, es, base));
    var part := CentralPart(c, es[i], base + |Locals(c, es[..i])|);
    Prefixed(Locals(c, es), Directory(c, es, base) + tail, |Locals(c, es[..i])|, LocalPart(c, es[i]));
    Prefixed(Directory(c, es, base), tail, |Directory(c, es[..i], base)|, part);
    Shifted(Locals(c, es), Directory(c, es, base) + tail, |Directory(c, es[..i], base)|, part);
  }

  /** One turn of the loop over the directory. */
  lemma ReadOne(c: Codec, d: seq<Byte>, e: Entry, p: nat, offset: nat, n: nat, acc: seq<Entry>)
    requires EntryFits(e) && offset < LIMIT32 && n > 0
    requires Has(d, p, CentralPart(c, e, offset)) && Has(d, offset, LocalPart(c, e))
    ensures ReadEntries(d, p, n, acc) ==
            ReadEntries(d, p + CENTRAL_SIZE + |e.path|, n - 1,
                        if Skipped(e) then acc else Put(acc, Reread(c, e, offset)))
  {
    hide CentralPart, LocalPart, CentralAt, PathAt, NextPos, EntryFrom, Put, Reread, EntryFits, Deflates;
    OneReadBack(c, d, e, p, offset);
  }

  /** Reading the directory from entry `i` on adds the entries from there on. */
  lemma {:induction false} ReadBackFrom(c: Codec, es: seq<Entry>, i: nat)
    requires i <= |es| && Storable(c, es) && Sorted(es)
    ensures ReadEntries(Image(c, es, 0), |Locals(c, es)| + |Directory(c, es[..i], 0)|, |es| - i, Kept(c, es[..i]))
            == (true, Kept(c, es))
    decreases |es| - i
  {
    hide Locals, Directory, CentralPart, LocalPart, Image, Put, Reread, EntryFits, Kept, Sorted, ReadEntries;
    if i == |es| {
      assert es[..i] == es;
      ReadNone(Image(c, es, 0), |Locals(c, es)| + |Directory(c, es, 0)|, Kept(c, es));
    } else {
      var offset, p := |Locals(c, es[..i])|, |Locals(c, es)| + |Directory(c, es[..i], 0)|;
      ImageParts(c, es, i, 0);
      LocalsGrow(c, es, i);
      CentralStands(c, es, i, 0);
      ReadOne(c, Image(c, es, 0), es[i], p, offset, |es| - i, Kept(c, es[..i]));
      KeptNext(c, es, i);
      ReadBackFrom(c, es, i + 1);
    }
  }

  lemma ReadNone(d: seq<Byte>, p: nat, es: seq<Entry>)
    ensures ReadEntries(d, p, 0, es) == (true, es)
  {
  }

  lemma KeptNext(c: Codec, es: seq<Entry>, i: nat)
    requires i < |es| && Sorted(es)
    ensures var kept := Kept(c, es[..i]);
            Kept(c, es[..i + 1]) == if Skipped(es[i]) then kept else Put(kept, Reread(c, es[i], |Locals(c, es[..i])|))
  {
    hide Locals, Put, Sorted, Skipped;
    assert Init(es[..i + 1]) == es[..i] && Last(es[..i + 1]) == es[i];
    KeptBefore(c, es, i);
    PutLast(Kept(c, es[..i]), Reread(c, es[i], |Locals(c, es[..i])|));
  }

  lemma {:induction false} LocalsGrow(c: Codec, es: seq<Entry>, i: nat)
    requires i <= |es|
    ensures |Locals(c, es[..i])| <= |Locals(c, es)|
  {
    hide LocalPart;
    if i == |es| {
      assert es[..i] == es;
    } else {
      LocalsGrow(c, Init(es), i);
      assert Init(es)[..i] == es[..i];
    }
  }

  /** What was kept of the first `i` entries comes before entry `i`. */
  lemma KeptBefore(c: Codec, es: seq<Entry>, i: nat)
    requires i < |es| && Sorted(es)
    ensures forall k :: 0 <= k < |Kept(c, es[..i])| ==>
            Cmp(Kept(c, es[..i])[k].path, Reread(c, es[i], |Locals(c, es[..i])|).path) < 0
  {
    forall k | 0 <= k < |Kept(c, es[..i])|
      ensures Cmp(Kept(c, es[..i])[k].path, es[i].path) < 0
    {
      var j := KeptFrom(c, es[..i], k);
      assert es[..i][j] == es[j];
    }
  }

  /** Which entry a kept one was. */
  lemma {:induction false} KeptFrom(c: Codec, es: seq<Entry>, k: nat) returns (j: nat)
    requires k < |Kept(c, es)|
    ensures j < |es| && !Skipped(es[j]) && Kept(c, es)[k] == Reread(c, es[j], |Locals(c, es[..j])|)
  {
    hide Skipped, Reread, Locals;
    if k < |Kept(c, Init(es))| {
      j := KeptFrom(c, Init(es), k);
      assert Init(es)[..j] == es[..j];
    } else {
      j := |es| - 1;
      assert es[..j] == Init(es);
    }
  }

  // ---- The main results ----

  lemma EndStands(c: Codec, es: seq<Entry>, base: nat)
    ensures var d := Image(c, es, base);
            && Has(d, |d| - END_SIZE, LE32(SIG_END)) && Has(d, |d| - END_SIZE + 4, EndBytes(EndOf(c, es, base)))
            && |d| == |Locals(c, es)| + |Directory(c, es, base)| + END_SIZE
  {
    hide Locals, Directory, EndBytes;
    var l, dir, sig, end := Locals(c, es), Directory(c, es, base), LE32(SIG_END), EndBytes(EndOf(c, es, base));
    HasBoth(sig + end, 0, sig, end);
    Shifted(dir, sig + end, 0, sig);
    Shifted(dir, sig + end, 4, end);
    Shifted(l, dir + (sig + end), |dir|, sig);
    Shifted(l, dir + (sig + end), |dir| + 4, end);
  }

  /** Reading an archive that was written at the start of a stream gives its entries again, but for directories
      without data; and an archive without any entry is not recognised. */
  lemma DirectoryReadBack(c: Codec, es: seq<Entry>)
    requires Storable(c, es) && Sorted(es)
    ensures ReadDirectory(Image(c, es, 0)) == if es == [] then (false, []) else (true, Kept(c, es))
  {
    hide Locals, Directory, Image, EndBytes, Kept, ReadEntries, ReadDirectory, U16At, U32At, EndAt, LE32, Has;
    var d := Image(c, es, 0);
    EndStands(c, es, 0);
    Read32(d, |d| - END_SIZE, SIG_END);
    EndReadBack(d, |d| - END_SIZE + 4, EndOf(c, es, 0));
    DirectoryAtEnd(d);
    if es == [] {
      NoLocals(c);
    } else {
      Magic(c, es);
      assert es[..0] == [];
      ReadBackFrom(c, es, 0);
      NoEntries(c);
    }
  }

  /** The end record is where the search begins when there is no comment. */
  lemma DirectoryAtEnd(d: seq<Byte>)
    requires |d| >= END_SIZE && U32At(d, |d| - END_SIZE) == SIG_END
    ensures var end := EndAt(d, |d| - END_SIZE + 4);
            ReadDirectory(d) ==
            if U32At(d, 0) != SIG_LOCAL || end.totalEntries != end.diskEntries then (false, [])
            else ReadEntries(d, Min(end.offset, |d|), end.totalEntries, [])
  {
    hide EndAt, ReadEntries, U32At;
    assert EndedAt(d, END_SIZE);
  }

  lemma NoLocals(c: Codec)
    ensures U32At(Image(c, [], 0), 0) == SIG_END
  {
    var d := Image(c, [], 0);
    EndStands(c, [], 0);
    assert d[0..4] == LE32(SIG_END);
    Read32(d, 0, SIG_END);
  }

  lemma NoEntries(c: Codec)
    ensures Kept(c, []) == [] && Directory(c, [], 0) == []
  {
  }

  lemma Magic(c: Codec, es: seq<Entry>)
    requires es != []
    ensures U32At(Image(c, es, 0), 0) == SIG_LOCAL
  {
    hide Directory, LE16, LE32, U32At;
    var h := LocalOf(c, es[0]);
    ImageParts(c, es, 0, 0);
    assert es[..0] == [] && Locals(c, []) == [];
    var d, rest := Image(c, es, 0), LocalBytes(h)[4..];
    HasBoth(d, 0, LocalBytes(h), es[0].path + Body(c, es[0]));
    assert LocalBytes(h) == LE32(SIG_LOCAL) + rest;
    HasBoth(d, 0, LE32(SIG_LOCAL), rest);
    Read32(d, 0, SIG_LOCAL);
  }
}
