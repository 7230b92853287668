/** The archive of archive.c: an object that is filled and written out, or opened and read. */
module Archives {
  import opened Bytes
  import opened Streams
  import opened ZipRecords
  import opened ArchiveEntries
  import opened ArchiveImage
  import opened ZipLayout

  /** replace_String(path, "\\", "/") */
  function Slashed(p: Path): (r: Path)
    ensures |r| == |p| && forall i :: 0 <= i < |p| ==> r[i] == if p[i] == 0x5C then 0x2F else p[i]
  {
    if p == [] then [] else [if p[0] == 0x5c then 0x2f else p[0]] + Slashed(p[1..])
  }

  /** The entry that findOrAddEntry_Archive_ finds or adds: a new one starts out zeroed. */
  function FoundOrNew(es: seq<Entry>, path: Path): Entry {
    if Present(es, path) then es[Place(es, path)] else Entry(path, 0, 0, 0, 0, 0, 0, 0, None)
  }

  function WithData(c: Codec, e: Entry, data: seq<Byte>, modTime: nat, modDate: nat): Entry {
    e.(data := Some(data), size := |data|, crc := c.crc(data), modTime := modTime, modDate := modDate)
  }

  lemma AddedThenSet(es: seq<Entry>, path: Path, e: Entry)
    requires Sorted(es) && e.path == FoundOrNew(es, path).path
    ensures var es1, k := if Present(es, path) then es else Put(es, FoundOrNew(es, path)), Place(es, path);
            Sorted(es1) && Place(es1, path) == k < |es1| && es1[k] == FoundOrNew(es, path) && es1[k := e] == Put(es, e)
  {
    hide Cmp, Place, Sorted;
    var k := Place(es, path);
    if Present(es, path) {
      PlaceOfOwn(es, k);
    } else {
      NewPlace(es, path, FoundOrNew(es, path));
    }
  }

  lemma PlaceOfOwn(es: seq<Entry>, k: nat)
    requires Sorted(es) && k < |es|
    ensures Place(es, es[k].path) == k && Present(es, es[k].path)
  {
    hide Place;
    CmpFlip(es[k].path, es[k].path);
    FindIs(es, es[k].path, k);
  }

  lemma NewPlace(es: seq<Entry>, path: Path, e: Entry)
    requires Sorted(es) && !Present(es, path) && e.path == path
    ensures var es1, k := Put(es, e), Place(es, path); Sorted(es1) && k < |es1| && es1[k] == e && Place(es1, path) == k
  {
    hide Place;
    CmpFlip(path, path);
    PutSorted(es, e);
    FindIs(Put(es, e), path, Place(es, path));
  }

  /** The entry that is found for a path has that path, up to its terminator. */
  lemma FoundPath(es: seq<Entry>, p: Path, q: Path)
    requires Sorted(es)
    ensures Cmp(q, FoundOrNew(es, p).path) == 0 <==> Cmp(q, p) == 0
  {
    CmpFlip(p, p);
    CmpFlip(q, p);
    CmpFlip(q, FoundOrNew(es, p).path);
    Same(p, FoundOrNew(es, p).path, q);
  }

  lemma NothingWritten(d: seq<Byte>, p: nat)
    requires p <= |d|
    ensures Overwrite(d, p, []) == d
  {
  }

  /** One turn of the first loop of serialize_Archive: the central header is prepared for the second. */
  method WriteEntry(c: Codec, e: Entry, out: Stream, ghost d0: seq<Byte>, ghost p0: nat, ghost acc: seq<Byte>)
    returns (central: CentralHeader)
    requires Whole(c, e) && out.Wrote(d0, p0, acc)
    modifies out
    ensures out.Valid() && out.Wrote(d0, p0, acc + LocalPart(c, e))
    ensures central == CentralOf(c, e, p0 + |acc|)
  {
    hide Overwrite, LocalBytes;
    var comp := c.compress(e.data.value);
    var local := LocalHeader(SIG_LOCAL, 0, 0, NO_COMPRESSION, e.modTime, e.modDate, e.crc, e.size, e.size, |e.path|, 0);
    if |comp| < e.size {
      local := local.(compression := DEFLATED, compressedSize := |comp|);
    } else {
      comp := e.data.value;
    }
    central := CentralHeader(SIG_CENTRAL, 0, 0, 0, local.compression, local.modTime, local.modDate, local.crc,
                             local.compressedSize, local.size, local.nameSize, 0, 0, 0, 0, 0, out.pos);
    WriteLocal(local, out, d0, p0, acc);
    out.Write(e.path, d0, p0, acc + LocalBytes(local));
    out.Write(comp, d0, p0, acc + LocalBytes(local) + e.path);
    assert acc + LocalBytes(local) + e.path + comp == acc + LocalPart(c, e);
  }

  /** One turn of the second loop. */
  method WriteDirectoryEntry(c: Codec, e: Entry, central: CentralHeader, ghost offset: nat,
      out: Stream, ghost d0: seq<Byte>, ghost p0: nat, ghost acc: seq<Byte>)
    requires out.Wrote(d0, p0, acc) && central == CentralOf(c, e, offset)
    modifies out
    ensures out.Valid() && out.Wrote(d0, p0, acc + CentralPart(c, e, offset))
  {
    hide Overwrite, CentralBytes, CentralOf;
    WriteCentral(central, out, d0, p0, acc);
    out.Write(e.path, d0, p0, acc + CentralBytes(central));
    assert acc + CentralBytes(central) + e.path == acc + CentralPart(c, e, offset);
  }

  class Archive {
    const codec: Codec
    var source: Option<Stream>
    var isWritable: bool
    var entries: seq<Entry>

    ghost predicate Valid()
      reads this
    {
      Sorted(entries)
    }

    /** Everything has the size and the checksum of its data, as serialize_Archive needs it. */
    ghost predicate Complete()
      reads this
    {
      forall i :: 0 <= i < |entries| ==> Whole(codec, entries[i])
    }

    constructor (codec: Codec)
      ensures Valid() && this.codec == codec && entries == [] && source.None? && !isWritable
    {
      this.codec := codec;
      source, isWritable, entries := None, false, [];
    }

    method OpenWritable()
      modifies this
      ensures Valid() && Complete() && isWritable && entries == [] && source.None?
    {
      source, isWritable, entries := None, true, [];
    }

    /** setData_Archive; the time is that of the call. */
    method SetData(path: Path, data: seq<Byte>, modTime: nat, modDate: nat)
      requires Valid()
      modifies this`entries
      ensures Valid() && (old(Complete()) ==> Complete())
      ensures isWritable ==>
                var e := WithData(codec, FoundOrNew(old(entries), Slashed(path)), data, modTime, modDate);
                forall q :: Find(entries, q) == (if Cmp(q, Slashed(path)) == 0 then Some(e) else old(Find(entries, q)))
      ensures isWritable ==>
                match Find(entries, Slashed(path))
                case None => false
                case Some(e) =>
                  && Cmp(e.path, Slashed(path)) == 0 && e.data == Some(data) && e.size == |data|
                  && e.crc == codec.crc(data) && e.modTime == modTime && e.modDate == modDate
      ensures !isWritable ==> entries == old(entries)
    {
      hide Put, Place, Cmp, Slashed, Present, Find;
      if isWritable {
        ghost var es, p0 := entries, Slashed(path);
        ghost var e := WithData(codec, FoundOrNew(es, p0), data, modTime, modDate);
        AddedThenSet(es, p0, e);
        var p := Slashed(path);
        var found, pos := Locate(entries, p);
        if !found {
          entries := Insert(entries, Entry(p, 0, 0, 0, 0, 0, 0, 0, None));
        }
        found, pos := Locate(entries, p);
        entries := entries[pos := WithData(codec, entries[pos], data, modTime, modDate)];
        PutSorted(es, e);
        PutEntries(es, e);
        forall q
          ensures Find(entries, q) == if Cmp(q, p) == 0 then Some(e) else Find(es, q)
        {
          PutFind(es, e, q);
          FoundPath(es, p, q);
        }
        CmpFlip(p, p);
        FoundPath(es, p, p);
        CmpFlip(e.path, p);
      }
    }

    /** serialize_Archive */
    method Serialize(out: Stream)
      requires Valid() && Complete() && out.Valid()
      modifies out
      ensures out.Valid() && out.Wrote(old(out.data), old(out.pos), Image(codec, entries, old(out.pos)))
      ensures ZipLaid(codec, entries, old(out.pos), Image(codec, entries, old(out.pos)))
    {
      hide ZipLaid, Image, Sorted, Overwrite, LE32, EndBytes, Locals, Directory, Whole, Centrals;
      ghost var d0, p0, locals, dir := out.data, out.pos, Locals(codec, entries), Directory(codec, entries, out.pos);
      NothingWritten(d0, p0);
      var centralDir := WriteLocals(codec, entries, out, d0, p0);
      var centralStart := out.pos;
      WriteDirectory(codec, entries, centralDir, out, d0, p0);
      out.WriteU32(SIG_END, d0, p0, locals + dir);
      var end := CentralEnd(0, 0, |entries|, |entries|, out.pos - centralStart - 4, centralStart, 0);
      WriteEnd(end, out, d0, p0, locals + dir + LE32(SIG_END));
      ImageIs(codec, entries, p0, end);
      ImageLaid(codec, entries, p0);
    }

    /** openData_Archive and readDirectory_Archive_ */
    method OpenData(data: seq<Byte>) returns (ok: bool)
      requires |data| < SIZE_LIMIT
      modifies this
      ensures (ok, entries) == ReadDirectory(data) && Valid()
      ensures ok <==> Opens(data)
      ensures ok ==> forall k: nat, path :: OpensAt(data, k) ==>
                var end := |data| - k;
                Find(entries, path) == LastWith(data, DirectoryFrom(data, end), CountFrom(data, end), path)
      ensures source.Some? && fresh(source.value) && source.value.data == data
    {
      hide ReadDirectory, Find, LastWith, DirectoryFrom, CountFrom, AllFine, EndsAt, Num;
      var stream := new Stream(data);
      source, isWritable, entries := Some(stream), false, [];
      ok, entries := ReadAll(stream);
      OpensExactly(data);
    }

    /** What there is to load from */
    ghost function SourceData(): seq<Byte>
      reads this, if source.Some? then {source.value} else {}
    {
      if source.Some? then source.value.data else []
    }

    /** loadEntry_Archive_ by way of dataAt_Archive: data of the wrong size is loaded again. A source is needed only for
        loading. */
    method DataAt(index: nat) returns (data: Option<seq<Byte>>)
      requires Valid() && (index < |entries| && ToLoad(entries[index]) ==> source.Some?)
      modifies this`entries, if source.Some? then {source.value} else {}
      ensures Valid() && SourceData() == old(SourceData())
      ensures data == if index < |old(entries)| then Some(Loaded(codec, SourceData(), old(entries)[index])) else None
      ensures index < |old(entries)| ==> entries == old(entries)[index := old(entries)[index].(data := data)]
      ensures index < |old(entries)| && Whole(codec, old(entries)[index]) ==>
                data == old(entries)[index].data && entries == old(entries)
      ensures index >= |old(entries)| ==> entries == old(entries)
    {
      if index >= |entries| {
        return None;
      }
      var e := entries[index];
      if ToLoad(e) {
        var src := source.value;
        src.Seek(e.archPos);
        var arch := src.Read(e.archSize);
        e := e.(data := Some(if e.compression == DEFLATED then codec.decompress(arch) else arch));
        entries := entries[index := e];
      }
      data := e.data;
      assert entries == old(entries)[index := old(entries)[index].(data := data)];
    }
  }

  predicate ToLoad(e: Entry) {
    e.data.None? || |e.data.value| != e.size
  }

  function Loaded(c: Codec, d: seq<Byte>, e: Entry): seq<Byte> {
    if ToLoad(e) then Load(c, d, e) else e.data.value
  }

  // ---- The loops of readDirectory_Archive_ ----

  const SIZE_LIMIT: nat := 0x1_0000_0000_0000_0000

  /** seekToCentralEnd_; in a short stream the difference wraps around to a position behind the end. */
  method SeekToCentralEnd(src: Stream) returns (found: bool)
    requires src.Valid() && |src.data| < SIZE_LIMIT
    modifies src`pos
    ensures src.Valid() && found == EndPos(src.data, END_SIZE).Some?
    ensures found ==> src.pos == EndPos(src.data, END_SIZE).value
  {
    hide U32At;
    for k := END_SIZE to MAX_COMMENT + END_SIZE
      invariant src.Valid() && EndPos(src.data, END_SIZE) == EndPos(src.data, k)
    {
      src.Seek(if k <= |src.data| then |src.data| - k else SIZE_LIMIT + |src.data| - k);
      ghost var p := src.pos;
      var signature := src.ReadU32(p, 0);
      if k > |src.data| {
        NoSignature(src.data);
      }
      if signature == SIG_END {
        return true;
      }
    }
    return false;
  }

  lemma NoSignature(d: seq<Byte>)
    ensures U32At(d, |d|) == 0
  {
  }

  method ReadAll(src: Stream) returns (ok: bool, entries: seq<Entry>)
    requires src.Valid() && |src.data| < SIZE_LIMIT
    modifies src`pos
    ensures src.Valid() && (ok, entries) == ReadDirectory(src.data) && Sorted(entries)
  {
    hide U16At, U32At, EndPos, ReadEntries;
    src.Seek(0);
    var magic := src.ReadU32(0, 0);
    if magic != SIG_LOCAL {
      return false, [];
    }
    var found := SeekToCentralEnd(src);
    if !found {
      return false, [];
    }
    var end := ReadEnd(src);
    if end.totalEntries != end.diskEntries {
      return false, [];
    }
    src.Seek(end.offset);
    ok, entries := ReadHeaders(src, end.totalEntries);
  }

  method ReadHeaders(src: Stream, n: nat) returns (ok: bool, entries: seq<Entry>)
    requires src.Valid()
    modifies src`pos
    ensures src.Valid() && (ok, entries) == ReadEntries(src.data, old(src.pos), n, []) && Sorted(entries)
  {
    hide CentralAt, LocalAt, PathAt, NextPos, DataPos, Put, Padded;
    ok, entries := true, [];
    for index := 0 to n
      invariant src.Valid() && Sorted(entries) && ok
      invariant ReadEntries(src.data, old(src.pos), n, []) == ReadEntries(src.data, src.pos, n - index, entries)
    {
      ghost var p := src.pos;
      var header, path := ReadHeader(src);
      if header.signature != SIG_CENTRAL {
        return false, entries;
      }
      if !EndsWithSlash(path) || header.size > 0 {
        if header.compression != NO_COMPRESSION && header.compression != DEFLATED {
          return false, entries;
        }
        if header.flags % 2 == 1 {
          return false, entries;
        }
        var archPos := ReadDataPos(src, header.relOffset);
        var e := Entry(path, header.size, header.crc, header.modTime, header.modDate, archPos,
                       header.compressedSize, header.compression, None);
        PutSorted(entries, e);
        entries := Insert(entries, e);
      }
    }
  }

  /** A central header with its file name; the extra field and the comment are passed over. */
  method ReadHeader(src: Stream) returns (header: CentralHeader, path: Path)
    requires src.Valid()
    modifies src`pos
    ensures src.Valid() && header == CentralAt(src.data, old(src.pos))
    ensures path == PathAt(src.data, old(src.pos)) && src.pos == NextPos(src.data, old(src.pos))
  {
    hide CentralAt;
    header := ReadCentral(src);
    path := src.ReadPadded(header.nameSize);
    src.Seek(src.pos + header.extraSize + header.commentSize);
  }

  /** A look at the local header, after which the stream is where it was. */
  method ReadDataPos(src: Stream, offset: nat) returns (archPos: nat)
    requires src.Valid()
    modifies src`pos
    ensures src.Valid() && src.pos == old(src.pos) && archPos == DataPos(src.data, offset)
  {
    hide LocalAt;
    var oldPos := src.pos;
    src.Seek(offset);
    var local := ReadLocal(src);
    archPos := src.pos + local.nameSize + local.extraSize;
    src.Seek(oldPos);
  }

  method WriteLocals(c: Codec, es: seq<Entry>, out: Stream, ghost d0: seq<Byte>, ghost p0: nat)
    returns (centralDir: seq<CentralHeader>)
    requires (forall i :: 0 <= i < |es| ==> Whole(c, es[i])) && out.Valid() && out.Wrote(d0, p0, [])
    modifies out
    ensures out.Valid() && out.Wrote(d0, p0, Locals(c, es)) && centralDir == Centrals(c, es, p0)
  {
    hide LocalPart, CentralOf, Whole, Overwrite;
    centralDir := [];
    assert es[..0] == [];
    for i := 0 to |es|
      invariant out.Valid() && out.Wrote(d0, p0, Locals(c, es[..i]))
      invariant centralDir == Centrals(c, es[..i], p0)
    {
      assert Init(es[..i + 1]) == es[..i] && Last(es[..i + 1]) == es[i];
      var central := WriteEntry(c, es[i], out, d0, p0, Locals(c, es[..i]));
      centralDir := centralDir + [central];
    }
    assert es[..|es|] == es;
  }

  method WriteDirectory(c: Codec, es: seq<Entry>, centralDir: seq<CentralHeader>,
      out: Stream, ghost d0: seq<Byte>, ghost p0: nat)
    requires out.Valid() && out.Wrote(d0, p0, Locals(c, es)) && centralDir == Centrals(c, es, p0)
    modifies out
    ensures out.Valid() && out.Wrote(d0, p0, Locals(c, es) + Directory(c, es, p0))
  {
    hide Locals, CentralPart, Centrals, CentralOf, Overwrite;
    assert es[..0] == [] && Locals(c, es) + [] == Locals(c, es);
    for j := 0 to |es|
      invariant out.Valid() && out.Wrote(d0, p0, Locals(c, es) + Directory(c, es[..j], p0))
    {
      CentralsAt(c, es, p0, j);
      assert Init(es[..j + 1]) == es[..j] && Last(es[..j + 1]) == es[j];
      ghost var part := CentralPart(c, es[j], p0 + |Locals(c, es[..j])|);
      WriteDirectoryEntry(c, es[j], centralDir[j], p0 + |Locals(c, es[..j])|, out, d0, p0,
                          Locals(c, es) + Directory(c, es[..j], p0));
      assert Locals(c, es) + Directory(c, es[..j], p0) + part == Locals(c, es) + (Directory(c, es[..j], p0) + part);
    }
    assert es[..|es|] == es;
  }

  // ---- The loops of serialize_Archive ----

  /** The central headers that the first loop prepares. */
  function Centrals(c: Codec, es: seq<Entry>, base: nat): (r: seq<CentralHeader>)
    ensures |r| == |es|
  {
    if es == [] then []
    else Centrals(c, Init(es), base) + [CentralOf(c, Last(es), base + |Locals(c, Init(es))|)]
  }

  lemma {:induction false} CentralsAt(c: Codec, es: seq<Entry>, base: nat, j: nat)
    requires j < |es|
    ensures Centrals(c, es, base)[j] == CentralOf(c, es[j], base + |Locals(c, es[..j])|)
  {
    hide CentralOf, Locals;
    if j < |es| - 1 {
      CentralsAt(c, Init(es), base, j);
      assert Init(es)[..j] == es[..j];
    } else {
      assert es[..j] == Init(es);
    }
  }

  lemma ImageIs(c: Codec, es: seq<Entry>, base: nat, end: CentralEnd)
    requires end == EndOf(c, es, base)
    ensures Locals(c, es) + Directory(c, es, base) + LE32(SIG_END) + EndBytes(end) == Image(c, es, base)
  {
    hide Locals, Directory, LE32, EndBytes;
  }

  // ---- Out and in again ----

  /** `r`, opened from the bytes `d`, stands for what `e` was. */
  predicate Restores(c: Codec, d: seq<Byte>, r: Entry, e: Entry) {
    r.path == e.path && r.size == e.size && r.crc == e.crc && e.data == Some(Loaded(c, d, r))
  }

  /** What is found for a path in an archive that was written and opened again. */
  lemma FoundAgain(c: Codec, es: seq<Entry>, q: Path)
    requires Storable(c, es) && Sorted(es) && Lossless(c)
    ensures Sorted(Kept(c, es))
    ensures var a, b := Find(es, q), Find(Kept(c, es), q);
            if a.None? || Skipped(a.value) then b.None?
            else b.Some? && Restores(c, Image(c, es, 0), b.value, a.value)
  {
    hide Cmp, Image, Locals, Kept, Place;
    KeptSorted(c, es);
    if i :| 0 <= i < |es| && Cmp(q, es[i].path) == 0 && !Skipped(es[i]) {
      var k := KeptAs(c, es, i);
      FindIs(es, q, i);
      FindIs(Kept(c, es), q, k);
      ImageParts(c, es, i, 0);
      DataLoads(c, Image(c, es, 0), es[i], |Locals(c, es[..i])|);
    } else {
      forall k | 0 <= k < |Kept(c, es)|
        ensures Cmp(q, Kept(c, es)[k].path) != 0
      {
        var j := KeptFrom(c, es, k);
      }
      NoneFound(Kept(c, es), q);
    }
  }

  lemma {:induction false} KeptSorted(c: Codec, es: seq<Entry>)
    requires Sorted(es)
    ensures Sorted(Kept(c, es))
  {
    hide Cmp, Locals, Skipped;
    if es != [] {
      KeptSorted(c, Init(es));
      KeptBefore(c, es, |es| - 1);
      assert es[..|es| - 1] == Init(es);
    }
  }

  /** Every entry that is not skipped is kept. */
  lemma {:induction false} KeptAs(c: Codec, es: seq<Entry>, i: nat) returns (k: nat)
    requires i < |es| && !Skipped(es[i])
    ensures k < |Kept(c, es)| && Kept(c, es)[k] == Reread(c, es[i], |Locals(c, es[..i])|)
  {
    hide Locals, Reread, Skipped;
    if i == |es| - 1 {
      assert es[..i] == Init(es);
      k := |Kept(c, Init(es))|;
    } else {
      k := KeptAs(c, Init(es), i);
      assert Init(es)[..i] == es[..i];
    }
  }

  /** An archive is written to an empty stream and opened from its contents: every path leads to the same size,
      checksum and data as before, but for directories without data. */
  method WriteAndOpen(a: Archive) returns (b: Archive, ok: bool)
    requires a.Valid() && a.Complete() && Storable(a.codec, a.entries) && Lossless(a.codec)
    ensures fresh(b) && b.Valid() && b.codec == a.codec && ok == (a.entries != [])
    ensures b.source.Some? && forall q ::
              var e, r := Find(a.entries, q), Find(b.entries, q);
              if e.None? || Skipped(e.value) then r.None?
              else r.Some? && Restores(a.codec, b.source.value.data, r.value, e.value)
  {
    hide Image, Storable, Lossless, Whole, Sorted, Find, ReadDirectory;
    var out := new Stream([]);
    a.Serialize(out);
    Alone(Image(a.codec, a.entries, 0));
    ImageSize(a.codec, a.entries);
    b := new Archive(a.codec);
    ok := b.OpenData(out.data);
    DirectoryReadBack(a.codec, a.entries);
    KeptNone(a.codec);
    forall q: Path
      ensures var e, r := Find(a.entries, q), Find(b.entries, q);
              if e.None? || Skipped(e.value) then r.None?
              else r.Some? && Restores(a.codec, b.source.value.data, r.value, e.value)
    {
      FoundAgain(a.codec, a.entries, q);
    }
  }

  lemma Alone(bytes: seq<Byte>)
    ensures Overwrite([], 0, bytes) == bytes
  {
  }

  lemma KeptNone(c: Codec)
    ensures Kept(c, []) == []
  {
  }

  /** An archive that fits its fields is far from the limit of sizes. */
  lemma ImageSize(c: Codec, es: seq<Entry>)
    requires Storable(c, es)
    ensures |Image(c, es, 0)| < SIZE_LIMIT
  {
    DirectorySize(c, es, 0);
    EndStands(c, es, 0);
  }

  lemma {:induction false} DirectorySize(c: Codec, es: seq<Entry>, base: nat)
    requires forall i :: 0 <= i < |es| ==> |es[i].path| < LIMIT16
    ensures |Directory(c, es, base)| <= |es| * (CENTRAL_SIZE + LIMIT16)
  {
    hide CentralPart;
    if es != [] {
      DirectorySize(c, Init(es), base);
      assert |CentralPart(c, Last(es), base + |Locals(c, Init(es))|)| == CENTRAL_SIZE + |Last(es).path|;
    }
  }
}
