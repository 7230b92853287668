/** The three kinds of records in a ZIP archive (sections 4.3.7, 4.3.12 and 4.3.16 of PKWARE APPNOTE.TXT),
    as archive.c writes and reads them. */
module ZipRecords {
  import opened Bytes
  import opened Streams

  const SIG_LOCAL: nat := 0x04034b50
  const SIG_CENTRAL: nat := 0x02014b50
  const SIG_END: nat := 0x06054b50

  const LOCAL_SIZE: nat := 30
  const CENTRAL_SIZE: nat := 46
  const END_SIZE: nat := 22
  const MAX_COMMENT: nat := 2048

  datatype LocalHeader = LocalHeader(signature: nat, requiredVersion: nat, flags: nat, compression: nat,
                                     modTime: nat, modDate: nat, crc: nat, compressedSize: nat, size: nat,
                                     nameSize: nat, extraSize: nat)

  datatype CentralHeader = CentralHeader(signature: nat, version: nat, requiredVersion: nat, flags: nat,
                                         compression: nat, modTime: nat, modDate: nat, crc: nat,
                                         compressedSize: nat, size: nat, nameSize: nat, extraSize: nat,
                                         commentSize: nat, diskStart: nat, internalAttrib: nat,
                                         externalAttrib: nat, relOffset: nat)

  datatype CentralEnd = CentralEnd(disk: nat, startDisk: nat, diskEntries: nat, totalEntries: nat,
                                   size: nat, offset: nat, commentSize: nat)

  // ---- As bytes ----

  function LocalBytes(h: LocalHeader): (s: seq<Byte>)
    ensures |s| == LOCAL_SIZE
  {
    LocalFront(h) + LocalBack(h)
  }

  function LocalFront(h: LocalHeader): (s: seq<Byte>)
    ensures |s| == 14
  {
    LE32(h.signature) + (LE16(h.requiredVersion) + (LE16(h.flags) + (LE16(h.compression) + (LE16(h.modTime) +
    LE16(h.modDate)))))
  }

  function LocalBack(h: LocalHeader): (s: seq<Byte>)
    ensures |s| == 16
  {
    LE32(h.crc) + (LE32(h.compressedSize) + (LE32(h.size) + (LE16(h.nameSize) + LE16(h.extraSize))))
  }

  function CentralBytes(h: CentralHeader): (s: seq<Byte>)
    ensures |s| == CENTRAL_SIZE
  {
    CentralFront(h) + CentralBack(h)
  }

  function CentralFront(h: CentralHeader): (s: seq<Byte>)
    ensures |s| == 28
  {
    LE32(h.signature) + (LE16(h.version) + (LE16(h.requiredVersion) + (LE16(h.flags) + (LE16(h.compression) +
    (LE16(h.modTime) + (LE16(h.modDate) + (LE32(h.crc) + (LE32(h.compressedSize) + LE32(h.size)))))))))
  }

  function CentralBack(h: CentralHeader): (s: seq<Byte>)
    ensures |s| == 18
  {
    LE16(h.nameSize) + (LE16(h.extraSize) + (LE16(h.commentSize) + (LE16(h.diskStart) +
    (LE16(h.internalAttrib) + (LE32(h.externalAttrib) + LE32(h.relOffset))))))
  }

  /** Without the signature, which is written and looked for separately. */
  function EndBytes(h: CentralEnd): (s: seq<Byte>)
    ensures |s| == END_SIZE - 4
  {
    LE16(h.disk) + (LE16(h.startDisk) + (LE16(h.diskEntries) + (LE16(h.totalEntries) + (LE32(h.size) +
    (LE32(h.offset) + LE16(h.commentSize))))))
  }

  // ---- As read ----

  function LocalAt(d: seq<Byte>, p: nat): LocalHeader {
    LocalHeader(U32At(d, p), U16At(d, p + 4), U16At(d, p + 6), U16At(d, p + 8), U16At(d, p + 10),
                U16At(d, p + 12), U32At(d, p + 14), U32At(d, p + 18), U32At(d, p + 22), U16At(d, p + 26),
                U16At(d, p + 28))
  }

  function CentralAt(d: seq<Byte>, p: nat): CentralHeader {
    CentralHeader(U32At(d, p), U16At(d, p + 4), U16At(d, p + 6), U16At(d, p + 8), U16At(d, p + 10),
                  U16At(d, p + 12), U16At(d, p + 14), U32At(d, p + 16), U32At(d, p + 20), U32At(d, p + 24),
                  U16At(d, p + 28), U16At(d, p + 30), U16At(d, p + 32), U16At(d, p + 34), U16At(d, p + 36),
                  U32At(d, p + 38), U32At(d, p + 42))
  }

  function EndAt(d: seq<Byte>, p: nat): CentralEnd {
    CentralEnd(U16At(d, p), U16At(d, p + 2), U16At(d, p + 4), U16At(d, p + 6), U32At(d, p + 8),
               U32At(d, p + 12), U16At(d, p + 16))
  }

  // ---- Round trips ----

  function Fit16(v: nat): nat {
    v % LIMIT16
  }

  function Fit32(v: nat): nat {
    v % LIMIT32
  }

  lemma Skip16(d: seq<Byte>, p: nat, v: nat, rest: seq<Byte>)
    requires Has(d, p, LE16(v) + rest)
    ensures U16At(d, p) == Fit16(v) && Has(d, p + 2, rest)
  {
    hide LE16, U16At;
    HasBoth(d, p, LE16(v), rest);
    Read16(d, p, v);
  }

  lemma Skip32(d: seq<Byte>, p: nat, v: nat, rest: seq<Byte>)
    requires Has(d, p, LE32(v) + rest)
    ensures U32At(d, p) == Fit32(v) && Has(d, p + 4, rest)
  {
    hide LE32, U32At;
    HasBoth(d, p, LE32(v), rest);
    Read32(d, p, v);
  }

  /** The fields of a written header, each as wide as it is stored. */
  function LocalStored(h: LocalHeader): LocalHeader {
    LocalHeader(Fit32(h.signature), Fit16(h.requiredVersion), Fit16(h.flags), Fit16(h.compression),
                Fit16(h.modTime), Fit16(h.modDate), Fit32(h.crc), Fit32(h.compressedSize), Fit32(h.size),
                Fit16(h.nameSize), Fit16(h.extraSize))
  }

  function CentralStored(h: CentralHeader): CentralHeader {
    CentralHeader(Fit32(h.signature), Fit16(h.version), Fit16(h.requiredVersion), Fit16(h.flags),
                  Fit16(h.compression), Fit16(h.modTime), Fit16(h.modDate), Fit32(h.crc),
                  Fit32(h.compressedSize), Fit32(h.size), Fit16(h.nameSize), Fit16(h.extraSize),
                  Fit16(h.commentSize), Fit16(h.diskStart), Fit16(h.internalAttrib),
                  Fit32(h.externalAttrib), Fit32(h.relOffset))
  }

  function EndStored(h: CentralEnd): CentralEnd {
    CentralEnd(Fit16(h.disk), Fit16(h.startDisk), Fit16(h.diskEntries), Fit16(h.totalEntries),
               Fit32(h.size), Fit32(h.offset), Fit16(h.commentSize))
  }

  lemma LocalReadBack(d: seq<Byte>, p: nat, h: LocalHeader)
    requires Has(d, p, LocalBytes(h))
    ensures LocalAt(d, p) == LocalStored(h)
  {
    hide LE16, LE32, U16At, U32At, Has, Fit16, Fit32;
    HasBoth(d, p, LocalFront(h), LocalBack(h));
    var b5 := LE16(h.modDate);
    var b4 := LE16(h.modTime) + b5;
    var b3 := LE16(h.compression) + b4;
    var b2 := LE16(h.flags) + b3;
    var b1 := LE16(h.requiredVersion) + b2;
    Skip32(d, p, h.signature, b1);
    Skip16(d, p + 4, h.requiredVersion, b2);
    Skip16(d, p + 6, h.flags, b3);
    Skip16(d, p + 8, h.compression, b4);
    Skip16(d, p + 10, h.modTime, b5);
    assert b5 + [] == b5;
    Skip16(d, p + 12, h.modDate, []);
    var c4 := LE16(h.extraSize);
    var c3 := LE16(h.nameSize) + c4;
    var c2 := LE32(h.size) + c3;
    var c1 := LE32(h.compressedSize) + c2;
    Skip32(d, p + 14, h.crc, c1);
    Skip32(d, p + 18, h.compressedSize, c2);
    Skip32(d, p + 22, h.size, c3);
    Skip16(d, p + 26, h.nameSize, c4);
    assert c4 + [] == c4;
    Skip16(d, p + 28, h.extraSize, []);
  }

  lemma CentralReadBack(d: seq<Byte>, p: nat, h: CentralHeader)
    requires Has(d, p, CentralBytes(h))
    ensures CentralAt(d, p) == CentralStored(h)
  {
    hide LE16, LE32, U16At, U32At, Has, Fit16, Fit32;
    HasBoth(d, p, CentralFront(h), CentralBack(h));
    var b9 := LE32(h.size);
    var b8 := LE32(h.compressedSize) + b9;
    var b7 := LE32(h.crc) + b8;
    var b6 := LE16(h.modDate) + b7;
    var b5 := LE16(h.modTime) + b6;
    var b4 := LE16(h.compression) + b5;
    var b3 := LE16(h.flags) + b4;
    var b2 := LE16(h.requiredVersion) + b3;
    var b1 := LE16(h.version) + b2;
    Skip32(d, p, h.signature, b1);
    Skip16(d, p + 4, h.version, b2);
    Skip16(d, p + 6, h.requiredVersion, b3);
    Skip16(d, p + 8, h.flags, b4);
    Skip16(d, p + 10, h.compression, b5);
    Skip16(d, p + 12, h.modTime, b6);
    Skip16(d, p + 14, h.modDate, b7);
    Skip32(d, p + 16, h.crc, b8);
    Skip32(d, p + 20, h.compressedSize, b9);
    assert b9 + [] == b9;
    Skip32(d, p + 24, h.size, []);
    var c6 := LE32(h.relOffset);
    var c5 := LE32(h.externalAttrib) + c6;
    var c4 := LE16(h.internalAttrib) + c5;
    var c3 := LE16(h.diskStart) + c4;
    var c2 := LE16(h.commentSize) + c3;
    var c1 := LE16(h.extraSize) + c2;
    Skip16(d, p + 28, h.nameSize, c1);
    Skip16(d, p + 30, h.extraSize, c2);
    Skip16(d, p + 32, h.commentSize, c3);
    Skip16(d, p + 34, h.diskStart, c4);
    Skip16(d, p + 36, h.internalAttrib, c5);
    Skip32(d, p + 38, h.externalAttrib, c6);
    assert c6 + [] == c6;
    Skip32(d, p + 42, h.relOffset, []);
  }

  lemma EndReadBack(d: seq<Byte>, p: nat, h: CentralEnd)
    requires Has(d, p, EndBytes(h))
    ensures EndAt(d, p) == EndStored(h)
  {
    hide LE16, LE32, U16At, U32At, Has, Fit16, Fit32;
    var b6 := LE16(h.commentSize);
    var b5 := LE32(h.offset) + b6;
    var b4 := LE32(h.size) + b5;
    var b3 := LE16(h.totalEntries) + b4;
    var b2 := LE16(h.diskEntries) + b3;
    var b1 := LE16(h.startDisk) + b2;
    Skip16(d, p, h.disk, b1);
    Skip16(d, p + 2, h.startDisk, b2);
    Skip16(d, p + 4, h.diskEntries, b3);
    Skip16(d, p + 6, h.totalEntries, b4);
    Skip32(d, p + 8, h.size, b5);
    Skip32(d, p + 12, h.offset, b6);
    assert b6 + [] == b6;
    Skip16(d, p + 16, h.commentSize, []);
  }

  // ---- Writing and reading them ----

  /** The first six fields of write_LocalFileHeader_; the other five follow. */
  method WriteLocalFront(h: LocalHeader, out: Stream, ghost d0: seq<Byte>, ghost p0: nat, ghost acc: seq<Byte>)
    requires out.Wrote(d0, p0, acc)
    modifies out
    ensures out.Valid() && out.Wrote(d0, p0, acc + LocalFront(h))
  {
    hide LE16, LE32, Overwrite;
    ghost var a := acc;
    out.WriteU32(h.signature, d0, p0, a);
    a := a + LE32(h.signature);
    out.WriteU16(h.requiredVersion, d0, p0, a);
    a := a + LE16(h.requiredVersion);
    out.WriteU16(h.flags, d0, p0, a);
    a := a + LE16(h.flags);
    out.WriteU16(h.compression, d0, p0, a);
    a := a + LE16(h.compression);
    out.WriteU16(h.modTime, d0, p0, a);
    a := a + LE16(h.modTime);
    out.WriteU16(h.modDate, d0, p0, a);
    a := a + LE16(h.modDate);
    assert a == acc + LocalFront(h);
  }

  method WriteLocalBack(h: LocalHeader, out: Stream, ghost d0: seq<Byte>, ghost p0: nat, ghost acc: seq<Byte>)
    requires out.Wrote(d0, p0, acc)
    modifies out
    ensures out.Valid() && out.Wrote(d0, p0, acc + LocalBack(h))
  {
    hide LE16, LE32, Overwrite;
    ghost var a := acc;
    out.WriteU32(h.crc, d0, p0, a);
    a := a + LE32(h.crc);
    out.WriteU32(h.compressedSize, d0, p0, a);
    a := a + LE32(h.compressedSize);
    out.WriteU32(h.size, d0, p0, a);
    a := a + LE32(h.size);
    out.WriteU16(h.nameSize, d0, p0, a);
    a := a + LE16(h.nameSize);
    out.WriteU16(h.extraSize, d0, p0, a);
    a := a + LE16(h.extraSize);
    assert a == acc + LocalBack(h);
  }

  method WriteLocal(h: LocalHeader, out: Stream, ghost d0: seq<Byte>, ghost p0: nat, ghost acc: seq<Byte>)
    requires out.Wrote(d0, p0, acc)
    modifies out
    ensures out.Valid() && out.Wrote(d0, p0, acc + LocalBytes(h))
  {
    WriteLocalFront(h, out, d0, p0, acc);
    WriteLocalBack(h, out, d0, p0, acc + LocalFront(h));
    assert acc + LocalFront(h) + LocalBack(h) == acc + LocalBytes(h);
  }

  method ReadLocal(src: Stream) returns (h: LocalHeader)
    requires src.Valid()
    modifies src`pos
    ensures src.Valid() && h == LocalAt(src.data, old(src.pos)) && src.pos == Min(old(src.pos) + LOCAL_SIZE, |src.data|)
  {
    hide Min, U16At, U32At;
    ghost var p := src.pos;
    var signature := src.ReadU32(p, 0);
    var requiredVersion := src.ReadU16(p, 4);
    var flags := src.ReadU16(p, 6);
    var compression := src.ReadU16(p, 8);
    var modTime := src.ReadU16(p, 10);
    var modDate := src.ReadU16(p, 12);
    var crc := src.ReadU32(p, 14);
    var compressedSize := src.ReadU32(p, 18);
    var size := src.ReadU32(p, 22);
    var nameSize := src.ReadU16(p, 26);
    var extraSize := src.ReadU16(p, 28);
    h := LocalHeader(signature, requiredVersion, flags, compression, modTime, modDate, crc, compressedSize,
                     size, nameSize, extraSize);
  }

  /** The first ten fields of write_CentralFileHeader_; the other seven follow. */
  lemma FrontFields(h: CentralHeader, acc: seq<Byte>)
    ensures acc + CentralFront(h)
         == acc + LE32(h.signature) + LE16(h.version) + LE16(h.requiredVersion) + LE16(h.flags) + LE16(h.compression) +
            LE16(h.modTime) + LE16(h.modDate) + LE32(h.crc) + LE32(h.compressedSize) + LE32(h.size)
  {
    hide LE16, LE32;
    var sizes := LE32(h.compressedSize) + LE32(h.size);
    var rest := LE16(h.compression) + (LE16(h.modTime) + (LE16(h.modDate) + (LE32(h.crc) + sizes)));
    FourAndRest(acc, LE32(h.signature), LE16(h.version), LE16(h.requiredVersion), LE16(h.flags), rest);
    var acc' := acc + LE32(h.signature) + LE16(h.version) + LE16(h.requiredVersion) + LE16(h.flags);
    FourAndRest(acc', LE16(h.compression), LE16(h.modTime), LE16(h.modDate), LE32(h.crc), sizes);
    var acc'' := acc' + LE16(h.compression) + LE16(h.modTime) + LE16(h.modDate) + LE32(h.crc);
    assert acc'' + sizes == acc'' + LE32(h.compressedSize) + LE32(h.size);
  }

  lemma FourAndRest(acc: seq<Byte>, a: seq<Byte>, b: seq<Byte>, c: seq<Byte>, d: seq<Byte>, rest: seq<Byte>)
    ensures acc + (a + (b + (c + (d + rest)))) == acc + a + b + c + d + rest
  {
  }

  method WriteCentralFront(h: CentralHeader, out: Stream, ghost d0: seq<Byte>, ghost p0: nat, ghost acc: seq<Byte>)
    requires out.Wrote(d0, p0, acc)
    modifies out
    ensures out.Valid() && out.Wrote(d0, p0, acc + CentralFront(h))
  {
    hide LE16, LE32, Overwrite, Stream.Wrote;
    ghost var a := acc;
    out.WriteU32(h.signature, d0, p0, a);
    a := a + LE32(h.signature);
    out.WriteU16(h.version, d0, p0, a);
    a := a + LE16(h.version);
    out.WriteU16(h.requiredVersion, d0, p0, a);
    a := a + LE16(h.requiredVersion);
    out.WriteU16(h.flags, d0, p0, a);
    a := a + LE16(h.flags);
    out.WriteU16(h.compression, d0, p0, a);
    a := a + LE16(h.compression);
    out.WriteU16(h.modTime, d0, p0, a);
    a := a + LE16(h.modTime);
    out.WriteU16(h.modDate, d0, p0, a);
    a := a + LE16(h.modDate);
    out.WriteU32(h.crc, d0, p0, a);
    a := a + LE32(h.crc);
    out.WriteU32(h.compressedSize, d0, p0, a);
    a := a + LE32(h.compressedSize);
    out.WriteU32(h.size, d0, p0, a);
    a := a + LE32(h.size);
    FrontFields(h, acc);
  }

  method WriteCentralBack(h: CentralHeader, out: Stream, ghost d0: seq<Byte>, ghost p0: nat, ghost acc: seq<Byte>)
    requires out.Wrote(d0, p0, acc)
    modifies out
    ensures out.Valid() && out.Wrote(d0, p0, acc + CentralBack(h))
  {
    hide LE16, LE32, Overwrite;
    ghost var a := acc;
    out.WriteU16(h.nameSize, d0, p0, a);
    a := a + LE16(h.nameSize);
    out.WriteU16(h.extraSize, d0, p0, a);
    a := a + LE16(h.extraSize);
    out.WriteU16(h.commentSize, d0, p0, a);
    a := a + LE16(h.commentSize);
    out.WriteU16(h.diskStart, d0, p0, a);
    a := a + LE16(h.diskStart);
    out.WriteU16(h.internalAttrib, d0, p0, a);
    a := a + LE16(h.internalAttrib);
    out.WriteU32(h.externalAttrib, d0, p0, a);
    a := a + LE32(h.externalAttrib);
    out.WriteU32(h.relOffset, d0, p0, a);
    a := a + LE32(h.relOffset);
    assert a == acc + CentralBack(h);
  }

  method WriteCentral(h: CentralHeader, out: Stream, ghost d0: seq<Byte>, ghost p0: nat, ghost acc: seq<Byte>)
    requires out.Wrote(d0, p0, acc)
    modifies out
    ensures out.Valid() && out.Wrote(d0, p0, acc + CentralBytes(h))
  {
    WriteCentralFront(h, out, d0, p0, acc);
    WriteCentralBack(h, out, d0, p0, acc + CentralFront(h));
    assert acc + CentralFront(h) + CentralBack(h) == acc + CentralBytes(h);
  }

  method ReadCentral(src: Stream) returns (h: CentralHeader)
    requires src.Valid()
    modifies src`pos
    ensures src.Valid() && h == CentralAt(src.data, old(src.pos)) &&
            src.pos == Min(old(src.pos) + CENTRAL_SIZE, |src.data|)
  {
    hide Min, U16At, U32At;
    ghost var p := src.pos;
    var signature := src.ReadU32(p, 0);
    var version := src.ReadU16(p, 4);
    var requiredVersion := src.ReadU16(p, 6);
    var flags := src.ReadU16(p, 8);
    var compression := src.ReadU16(p, 10);
    var modTime := src.ReadU16(p, 12);
    var modDate := src.ReadU16(p, 14);
    var crc := src.ReadU32(p, 16);
    var compressedSize := src.ReadU32(p, 20);
    var size := src.ReadU32(p, 24);
    var nameSize := src.ReadU16(p, 28);
    var extraSize := src.ReadU16(p, 30);
    var commentSize := src.ReadU16(p, 32);
    var diskStart := src.ReadU16(p, 34);
    var internalAttrib := src.ReadU16(p, 36);
    var externalAttrib := src.ReadU32(p, 38);
    var relOffset := src.ReadU32(p, 42);
    h := CentralHeader(signature, version, requiredVersion, flags, compression, modTime, modDate, crc,
                       compressedSize, size, nameSize, extraSize, commentSize, diskStart, internalAttrib,
                       externalAttrib, relOffset);
  }

  method WriteEnd(h: CentralEnd, out: Stream, ghost d0: seq<Byte>, ghost p0: nat, ghost acc: seq<Byte>)
    requires out.Wrote(d0, p0, acc)
    modifies out
    ensures out.Valid() && out.Wrote(d0, p0, acc + EndBytes(h))
  {
    hide LE16, LE32, Overwrite;
    ghost var a := acc;
    out.WriteU16(h.disk, d0, p0, a);
    a := a + LE16(h.disk);
    out.WriteU16(h.startDisk, d0, p0, a);
    a := a + LE16(h.startDisk);
    out.WriteU16(h.diskEntries, d0, p0, a);
    a := a + LE16(h.diskEntries);
    out.WriteU16(h.totalEntries, d0, p0, a);
    a := a + LE16(h.totalEntries);
    out.WriteU32(h.size, d0, p0, a);
    a := a + LE32(h.size);
    out.WriteU32(h.offset, d0, p0, a);
    a := a + LE32(h.offset);
    out.WriteU16(h.commentSize, d0, p0, a);
    a := a + LE16(h.commentSize);
    assert a == acc + EndBytes(h);
  }

  method ReadEnd(src: Stream) returns (h: CentralEnd)
    requires src.Valid()
    modifies src`pos
    ensures src.Valid() && h == EndAt(src.data, old(src.pos)) &&
            src.pos == Min(old(src.pos) + (END_SIZE - 4), |src.data|)
  {
    hide Min, U16At, U32At;
    ghost var p := src.pos;
    var disk := src.ReadU16(p, 0);
    var startDisk := src.ReadU16(p, 2);
    var diskEntries := src.ReadU16(p, 4);
    var totalEntries := src.ReadU16(p, 6);
    var size := src.ReadU32(p, 8);
    var offset := src.ReadU32(p, 12);
    var commentSize := src.ReadU16(p, 16);
    h := CentralEnd(disk, startDisk, diskEntries, totalEntries, size, offset, commentSize);
  }
}
