/** The entries of an archive, sorted by path (archive.c and sortedarray.c). */
module ArchiveEntries {
  import opened Bytes

  type Path = seq<Byte>

  /** The seconds, days and so on of a timestamp stay packed as MS-DOS words here. */
  datatype Entry = Entry(path: Path, size: nat, crc: nat, modTime: nat, modDate: nat,
                         archPos: nat, archSize: nat, compression: nat, data: Option<seq<Byte>>)

  // ---- Paths as C strings ----

  function Head(p: Path): Byte {
    if p == [] then 0 else p[0]
  }

  /** cmpString_String: byte by byte up to the first terminator. */
  function Cmp(a: Path, b: Path): int {
    if Head(a) != Head(b) then Head(a) - Head(b)
    else if Head(a) == 0 then 0
    else Cmp(a[1..], b[1..])
  }

  /** The first place where they differ or one of them ends decides. */
  lemma {:induction false} CmpIs(a: Path, b: Path) returns (k: nat)
    ensures forall i :: 0 <= i < k ==> At(a, i) == At(b, i) != 0
    ensures At(a, k) != At(b, k) || At(a, k) == 0
    ensures Cmp(a, b) == At(a, k) - At(b, k)
  {
    k := 0;
    if Head(a) == Head(b) && Head(a) != 0 {
      var j := CmpIs(a[1..], b[1..]);
      k := j + 1;
      forall i | 0 < i <= k
        ensures At(a, i) == At(a[1..], i - 1) && At(b, i) == At(b[1..], i - 1)
      {
      }
    }
  }

  lemma {:induction false} CmpFlip(a: Path, b: Path)
    ensures Cmp(a, b) == -Cmp(b, a)
  {
    if Head(a) == Head(b) && Head(a) != 0 {
      CmpFlip(a[1..], b[1..]);
    }
  }

  lemma {:induction false} CmpChain(a: Path, b: Path, c: Path)
    requires Cmp(a, b) <= 0 && Cmp(b, c) <= 0
    ensures Cmp(a, c) <= 0 && (Cmp(a, b) < 0 || Cmp(b, c) < 0 ==> Cmp(a, c) < 0)
  {
    if Head(a) == Head(b) && Head(b) == Head(c) && Head(a) != 0 {
      CmpChain(a[1..], b[1..], c[1..]);
    }
  }

  // ---- Sorted entries ----

  predicate Sorted(es: seq<Entry>) {
    forall i, j :: 0 <= i < j < |es| ==> Cmp(es[i].path, es[j].path) < 0
  }

  /** How many entries are before `path`. */
  function Place(es: seq<Entry>, path: Path): (k: nat)
    ensures k <= |es|
  {
    if es == [] || Cmp(es[0].path, path) >= 0 then 0 else 1 + Place(es[1..], path)
  }

  lemma {:induction false} PlaceAt(es: seq<Entry>, path: Path, k: nat)
    requires k <= |es| && (forall i :: 0 <= i < k ==> Cmp(es[i].path, path) < 0)
    requires k < |es| ==> Cmp(es[k].path, path) >= 0
    ensures Place(es, path) == k
  {
    if k > 0 {
      PlaceAt(es[1..], path, k - 1);
    }
  }

  predicate Present(es: seq<Entry>, path: Path) {
    var k := Place(es, path);
    k < |es| && Cmp(path, es[k].path) == 0
  }

  /** insert_SortedArray: an entry with the same path is replaced. */
  function Put(es: seq<Entry>, e: Entry): seq<Entry> {
    var k := Place(es, e.path);
    if Present(es, e.path) then es[k := e] else es[..k] + [e] + es[k..]
  }

  lemma {:induction false} PlaceSplits(es: seq<Entry>, path: Path)
    requires Sorted(es)
    ensures var k := Place(es, path);
            && (forall i :: 0 <= i < k ==> Cmp(es[i].path, path) < 0)
            && (forall i :: k <= i < |es| ==> Cmp(es[i].path, path) >= 0)
            && (forall i :: k < i < |es| ==> Cmp(es[i].path, path) > 0)
  {
    if es != [] {
      if Cmp(es[0].path, path) < 0 {
        PlaceSplits(es[1..], path);
        assert forall i :: 0 < i < |es| ==> es[i] == es[1..][i - 1];
      } else {
        forall i | 0 < i < |es|
          ensures Cmp(es[i].path, path) > 0
        {
          CmpFlip(es[0].path, path);
          CmpChain(path, es[0].path, es[i].path);
          CmpFlip(path, es[i].path);
        }
      }
    }
  }

  lemma PutSorted(es: seq<Entry>, e: Entry)
    requires Sorted(es)
    ensures Sorted(Put(es, e))
  {
    hide Cmp, Place;
    var k := Place(es, e.path);
    PlaceSplits(es, e.path);
    forall i | 0 <= i < |es|
      ensures i < k ==> Cmp(es[i].path, e.path) < 0
      ensures i > k || (i == k && !Present(es, e.path)) ==> Cmp(e.path, es[i].path) < 0
    {
      CmpFlip(es[i].path, e.path);
    }
  }

  lemma PutEntries(es: seq<Entry>, e: Entry)
    ensures forall i :: 0 <= i < |Put(es, e)| ==> Put(es, e)[i] == e || Put(es, e)[i] in es
  {
  }

  /** An entry that belongs behind all others goes there. */
  lemma PutLast(es: seq<Entry>, e: Entry)
    requires forall i :: 0 <= i < |es| ==> Cmp(es[i].path, e.path) < 0
    ensures Put(es, e) == es + [e]
  {
    PlaceAt(es, e.path, |es|);
  }

  /** locate_SortedArray */
  method Locate(es: seq<Entry>, path: Path) returns (found: bool, pos: nat)
    requires Sorted(es)
    ensures pos == Place(es, path) && found == Present(es, path)
  {
    PlaceSplits(es, path);
    var start, end := 0, |es|;
    while start < end
      invariant start <= Place(es, path) <= end <= |es|
      invariant Present(es, path) ==> Place(es, path) < end
    {
      var mid := (start + end) / 2;
      var cmp := Cmp(path, es[mid].path);
      CmpFlip(path, es[mid].path);
      if cmp == 0 {
        return true, mid;
      } else if cmp > 0 {
        start := mid + 1;
      } else {
        end := mid;
      }
    }
    return false, start;
  }

  method Insert(es: seq<Entry>, e: Entry) returns (es': seq<Entry>)
    requires Sorted(es)
    ensures es' == Put(es, e)
  {
    var found, pos := Locate(es, e.path);
    es' := if found then es[pos := e] else es[..pos] + [e] + es[pos..];
  }

  // ---- Looking up ----

  /** findPath_Archive_ for a path that is already normalised. */
  function Find(es: seq<Entry>, path: Path): Option<Entry> {
    if Present(es, path) then Some(es[Place(es, path)]) else None
  }

  /** What is found for a path is the one entry with that path. */
  lemma FindIs(es: seq<Entry>, path: Path, k: nat)
    requires Sorted(es) && k < |es| && Cmp(path, es[k].path) == 0
    ensures Find(es, path) == Some(es[k]) && Place(es, path) == k
  {
    CmpFlip(path, es[k].path);
    forall i | 0 <= i < k
      ensures Cmp(es[i].path, path) < 0
    {
      CmpChain(es[i].path, es[k].path, path);
    }
    PlaceAt(es, path, k);
  }

  lemma NoneFound(es: seq<Entry>, path: Path)
    requires Sorted(es) && forall k :: 0 <= k < |es| ==> Cmp(path, es[k].path) != 0
    ensures Find(es, path) == None
  {
  }

  lemma Same(a: Path, b: Path, c: Path)
    requires Cmp(a, b) == 0
    ensures Cmp(a, c) == 0 <==> Cmp(b, c) == 0
  {
    CmpFlip(a, b);
    CmpFlip(a, c);
    CmpFlip(b, c);
    if Cmp(a, c) == 0 {
      CmpChain(b, a, c);
      CmpChain(c, a, b);
    }
    if Cmp(b, c) == 0 {
      CmpChain(a, b, c);
      CmpChain(c, b, a);
    }
  }

  /** Putting an entry changes what is found for its path, and for no other. */
  lemma PutFind(es: seq<Entry>, e: Entry, path: Path)
    requires Sorted(es)
    ensures Find(Put(es, e), path) == if Cmp(path, e.path) == 0 then Some(e) else Find(es, path)
  {
    hide Cmp, Place;
    var k, es' := Place(es, e.path), Put(es, e);
    PutSorted(es, e);
    if Cmp(path, e.path) == 0 {
      FindIs(es', path, k);
    } else if j :| 0 <= j < |es| && Cmp(path, es[j].path) == 0 {
      FindIs(es, path, j);
      if Present(es, e.path) {
        Same(e.path, es[k].path, path);
        CmpFlip(path, es[k].path);
        CmpFlip(e.path, path);
      }
      FindIs(es', path, if j < k || Present(es, e.path) then j else j + 1);
    } else {
      NoneFound(es, path);
      forall i | 0 <= i < |es'|
        ensures Cmp(path, es'[i].path) != 0
      {
        assert es'[i] == e || es'[i] in es;
      }
      NoneFound(es', path);
    }
  }
}
