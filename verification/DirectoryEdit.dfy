/** fatedit's `AppendDirectoryEntry`: adding an entry to a directory. */
module DirectoryEdit {
  import opened Bytes
  import opened Arith
  import opened FatSuper
  import opened FatChains
  import opened FatState
  import opened FatAppend
  import opened FatKept
  import opened FatStream
  import opened Volume
  import opened FileWriter
  import opened FileReader
  import opened ShortName
  import opened Dirent
  import opened Directory

  // ------------------------------------------------------------ the records of a directory

  lemma TwoRecords(x: Record, y: Record)
    ensures Records(x + y) == [x, y]
  {
    RecordsFront(x, y);
    RecordsFront(y, []);
    assert y + [] == y;
  }

  /** Two records written behind the first n. */
  lemma NewRecords(was: seq<byte>, now: seq<byte>, n: nat, x: Record, y: Record) returns (rest: seq<Record>)
    requires RECORD * n <= |was| && was[..RECORD * n] + (x + y) <= now
    ensures n <= |Records(was)| && Records(now) == Records(was)[..n] + ([x, y] + rest)
  {
    var a := was[..RECORD * n];
    var tail := now[|a + (x + y)|..];
    rest := Records(tail);
    PrefixRecords(was, n);
    assert now == a + ((x + y) + tail);
    RecordsConcat(a, n, (x + y) + tail);
    RecordsConcat(x + y, 2, tail);
    TwoRecords(x, y);
  }

  /** A listing with the entry of a new file or directory behind it. */
  function WithNew(before: Listing, name: seq<byte>, isDir: bool, cluster: u32, size: u32): Listing {
    Join(before, Listing([NewEntry(name, isDir, cluster, size)], 1))
  }

  /** `now` starts with the records that make up the directory `was`, the record of the new
      entry, and an end mark. */
  ghost predicate EntryAdded(was: seq<byte>, n: nat, now: seq<byte>, e: Record) {
    RECORD * n <= |was| && was[..RECORD * n] + (e + Zeros(RECORD)) <= now
  }

  /** Scanning the directory then yields the old entries and exactly the new one if and only
      if the name survives its padded form. */
  lemma EntryListed(was: seq<byte>, now: seq<byte>, name: seq<byte>, isDir: bool, cluster: u32, size: u32)
    requires IsShort(name) && Scan(Records(was)).Listing?
    requires EntryAdded(was, Scan(Records(was)).used, now, MakeRecord(name, isDir, cluster, size))
    ensures Scan(Records(now)) == WithNew(Scan(Records(was)), name, isDir, cluster, size) <==> Survives(name)
    ensures Scan(Records(now)) ==
      match ReadBackName(name)
      case None => Fail
      case Some(x) => WithNew(Scan(Records(was)), x, isDir, cluster, size)
  {
    var e := MakeRecord(name, isDir, cluster, size);
    var rest := NewRecords(was, now, Scan(Records(was)).used, e, Zeros(RECORD));
    var xs := [e, Zeros(RECORD)] + rest;
    ScanAppend(Records(was), xs);
    RoundsNew(name, isDir, cluster, size, xs, Scan(Records(was)));
    RoundsRead(name, isDir, cluster, size, xs, Scan(Records(was)));
  }

  // ------------------------------------------------------------ adding an entry

  /** From (d, f) to (d', f') `data` was stored in chain k behind its first `size` bytes; the
      chain has exactly the clusters this needs, and nothing else changed. */
  ghost predicate AddedAt(s: Super, l: Area, k: nat, d: Disk, f: Files, d': Disk, f': Files, size: nat, data: seq<byte>) {
    var added :=
      && Good(s, l, d, f) && Good(s, l, d', f') && OnlyChain(d, f, d', f', l, k)
      && size <= |ChainBytes(s, l, d, f, k)|
      && ChainBytes(s, l, d, f, k)[..size] + data <= ChainBytes(s, l, d', f', k)
      && ChainMatches(l, f'.chains[k], size + |data|);
    added
  }

  /** An append by a writer that was opened at `size`. */
  lemma AddedBy(s: Super, l: Area, k: nat, a: Writer, b: Writer, data: seq<byte>)
    requires Appended(s, l, k, a, b, data) && (0 < b.cur.offset || |b.files.chains[k]| == 1)
    ensures AddedAt(s, l, k, a.disk, a.files, b.disk, b.files, a.cur.totalSize, data)
  {
    assert Open(0);
    StoredPrefix(s, l, k, a);
    StoredPrefix(s, l, k, b);
  }

  lemma StoredPrefix(s: Super, l: Area, k: nat, w: Writer)
    requires Ready(s, l, k, w)
    ensures
      var all := ChainBytes(s, l, w.disk, w.files, k);
      && w.cur.totalSize <= |all| && Stored(s, l, k, w) == all[..w.cur.totalSize] <= all
      && |Stored(s, l, k, w)| == w.cur.totalSize
      && (0 < w.cur.offset || |w.files.chains[k]| == 1 ==> ChainMatches(l, w.files.chains[k], w.cur.totalSize))
  {
    SpanMono(|w.files.chains[k]| - 1, |w.files.chains[k]|, l.clusterSize);
  }

  /** The name field of a new record. */
  method SetNames(name: seq<byte>) returns (field: seq<byte>)
    ensures field == EncodeName(name)
  {
    var pos := FindDot(name);
    var base, ext;
    if pos == |name| {
      base := SetField(name, 8);
      ext := Spaces(3);
    } else {
      base := SetField(name[..pos], 8);
      ext := SetField(name[pos + 1..], 3);
    }
    field := base + ext;
  }

  /** Adds the record of a file or directory, and an end mark, behind the first `size` bytes of
      the directory in chain k.  That works if and only if the chain is exactly as long as that
      size needs, and it and the clusters that can be taken hold both records; in any case no
      other chain changes, nor what the directory held. */
  method AppendDirectoryEntry(
      vol: Volume, cluster: u32, size: u32, isDir: bool, name: seq<byte>, fileCluster: u32, fileSize: u32, ghost k: nat)
    returns (ok: bool)
    requires vol.Valid() && k < |vol.files.chains| && vol.files.chains[k][0] == cluster
    modifies vol`disk, vol`files
    ensures vol.Valid() && OnlyChain(old(vol.disk), old(vol.files), vol.disk, vol.files, vol.area, k)
    ensures ok <==> old(CanAdd(vol.area, vol.disk, vol.files, k, size))
    ensures old(size <= Span(|vol.files.chains[k]|, vol.area.clusterSize)) ==>
      ImageKept(vol.area, old(vol.disk).img, vol.disk.img, old(vol.files).chains, k, size)
    ensures ok ==>
      AddedAt(vol.super, vol.area, k, old(vol.disk), old(vol.files), vol.disk, vol.files, size,
              MakeRecord(name, isDir, fileCluster, fileSize) + Zeros(RECORD))
  {
    ghost var s, l := vol.super, vol.area;
    var ent := NewRecord(name, isDir, fileCluster, fileSize);
    var w := OpenAt(vol, cluster, size, k);
    if w == null {
      Unchanged(s, l, vol.disk, vol.files, k);
      if size <= Span(|vol.files.chains[k]|, l.clusterSize) { SameImage(l, vol.disk.img, vol.files.chains, k, size); }
      return false;
    }
    CanAddBy(l, k, w.State());
    ok := AddRecords(w, ent);
  }

  /** Fills in a record. */
  method NewRecord(name: seq<byte>, isDir: bool, fileCluster: u32, fileSize: u32) returns (ent: Record)
    ensures ent == MakeRecord(name, isDir, fileCluster, fileSize)
  {
    var field := SetNames(name);
    ent := Build(field, if isDir then 0x10 else 0x00,
                 Encode16(fileCluster / 0x1_0000), Encode16(fileCluster % 0x1_0000),
                 Encode32(if isDir then 0 else fileSize));
  }

  /** The record and the end mark. */
  method AddRecords(w: FileWriter, ent: Record) returns (ok: bool)
    requires w.Valid()
    modifies w`cur, w.vol`disk, w.vol`files
    ensures w.Valid()
    ensures OnlyChain(old(w.vol.disk), old(w.vol.files), w.vol.disk, w.vol.files, w.vol.area, w.k)
    ensures ok <==> old(CanTake(w.vol.area, w.k, w.State(), 2 * RECORD))
    ensures ImageKept(w.vol.area, old(w.vol.disk).img, w.vol.disk.img, old(w.vol.files).chains, w.k, old(w.cur).totalSize)
    ensures ok ==>
      AddedAt(w.vol.super, w.vol.area, w.k, old(w.vol.disk), old(w.vol.files), w.vol.disk, w.vol.files,
              old(w.cur).totalSize, ent + Zeros(RECORD))
  {
    ghost var s, l, k, start, written := w.vol.super, w.vol.area, w.k, w.State(), [];
    TwoPieces(ent, Zeros(RECORD));
    ok, written := AppendAll(w, [ent, Zeros(RECORD)]);
    AppendedKeeps(s, l, k, start, w.State(), written);
    OnlyThis(s, l, k, start, w.State(), written);
    if ok {
      AddedBy(s, l, k, start, w.State(), written);
    }
  }

  /** Two records fit behind the first `size` bytes of chain k, which has the clusters these need. */
  ghost predicate CanAdd(l: Area, d: Disk, f: Files, k: nat, size: nat)
    requires k < |f.chains|
  {
    && 0 < l.clusterSize && ChainMatches(l, f.chains[k], size)
    && Clusters(size + 2 * RECORD, l.clusterSize) <= |f.chains[k]| + |Usable(l, d.raw)|
  }

  lemma CanAddBy(l: Area, k: nat, w: Writer)
    requires k < |w.files.chains| && 0 < l.clusterSize && ChainMatches(l, w.files.chains[k], w.cur.totalSize)
    ensures CanTake(l, k, w, 2 * RECORD) <==> CanAdd(l, w.disk, w.files, k, w.cur.totalSize)
  {
  }

  lemma TwoPieces(x: seq<byte>, y: seq<byte>)
    ensures Flatten([x, y]) == x + y
  {
    var c := [x, y];
    assert c[..1] == [x] && [x][..0] == [];
    assert Flatten([x]) == [] + x;
  }

  lemma OnlyThis(s: Super, l: Area, k: nat, a: Writer, b: Writer, data: seq<byte>)
    requires Appended(s, l, k, a, b, data)
    ensures OnlyChain(a.disk, a.files, b.disk, b.files, l, k)
  {
    assert Open(0);
  }

  lemma Unchanged(s: Super, l: Area, d: Disk, f: Files, k: nat)
    requires Good(s, l, d, f) && k < |f.chains|
    ensures OnlyChain(d, f, d, f, l, k)
  {
    assert IsOnlyChain(d, f, d, f, l, k);
  }

  // ------------------------------------------------------------ listing it again

  /** `FileReader rd(cluster, 0xFFFFFFFF)` and `ScanDirectory`: the whole chain is scanned. */
  method ListDirectory(vol: Volume, cluster: u32, ghost k: nat) returns (ok: bool, out: seq<DirEntry>, size: nat)
    requires vol.Valid()
    requires k < |vol.files.chains| && vol.files.chains[k][0] == cluster
    ensures
      var found := Scan(Records(ChainBytes(vol.super, vol.area, vol.disk, vol.files, k)));
      && (ok <==> found.Listing?)
      && (ok ==> found.entries == out && size == RECORD * found.used < U32_LIMIT)
  {
    var rd := new FileReader(vol, cluster, 0xFFFF_FFFF);
    WholeChain(vol.super, vol.area, vol.disk, vol.files, k);
    ok, out, size := ScanDirectory(rd);
    SizeInUse(ChainBytes(vol.super, vol.area, vol.disk, vol.files, k));
  }

  lemma SizeInUse(all: seq<byte>)
    requires |all| < U32_LIMIT
    ensures Scan(Records(all)).Listing? ==> RECORD * Scan(Records(all)).used < U32_LIMIT
  {
    InUseFits(all);
  }

  lemma WholeChain(s: Super, l: Area, d: Disk, f: Files, k: nat)
    requires Good(s, l, d, f) && k < |f.chains|
    ensures Fits(s, l, |d.img|) && 0 < |f.chains[k]| && 0 <= f.chains[k][0] < U32_LIMIT
    ensures |ChainBytes(s, l, d, f, k)| < U32_LIMIT
    ensures
      var p := Place(f.chains[k][0], 0, 0xFFFF_FFFF);
      Readable(d.img, d.raw, l, p) && Rest(d.img, d.raw, l, p) == ChainBytes(s, l, d, f, k)
  {
    RestIsContent(d.img, d.raw, l, f.chains[k], 0xFFFF_FFFF);
    SizeFits(s, l, d, f, k);
    var all := ChainBytes(s, l, d, f, k);
    assert all[..|all|] == all;
  }

  /** `CheckEntryNotInDir`: the name is new to the directory, and its size in use. */
  method CheckEntryNotInDir(vol: Volume, cluster: u32, name: seq<byte>, ghost k: nat) returns (ok: bool, actualSize: nat)
    requires vol.Valid()
    requires k < |vol.files.chains| && vol.files.chains[k][0] == cluster
    ensures
      var found := Scan(Records(ChainBytes(vol.super, vol.area, vol.disk, vol.files, k)));
      && (ok <==> found.Listing? && NotListed(found.entries, name))
      && (ok ==> actualSize == RECORD * found.used < U32_LIMIT)
  {
    var entries;
    ok, entries, actualSize := ListDirectory(vol, cluster, k);
    if ok {
      ok := NameIsNew(entries, name);
    }
  }

  method NameIsNew(entries: seq<DirEntry>, name: seq<byte>) returns (isNew: bool)
    ensures isNew <==> NotListed(entries, name)
  {
    var i := 0;
    while i < |entries|
      invariant 0 <= i <= |entries| && NotListed(entries[..i], name)
    {
      if entries[i].shortName == name || entries[i].longName == name {
        return false;
      }
      i := i + 1;
    }
    assert entries[..|entries|] == entries;
    return true;
  }

  predicate NotListed(entries: seq<DirEntry>, name: seq<byte>) {
    forall i :: 0 <= i < |entries| ==> entries[i].shortName != name && entries[i].longName != name
  }

  /** Checks the directory, adds the entry and lists the directory.  Whenever both steps work,
      the list is the old one plus exactly the new entry if and only if the name survives. */
  method AddAndList(
      vol: Volume, cluster: u32, isDir: bool, name: seq<byte>, fileCluster: u32, fileSize: u32, ghost k: nat)
    returns (added: bool, before: seq<DirEntry>, listed: bool, after: seq<DirEntry>)
    requires vol.Valid() && IsShort(name)
    requires k < |vol.files.chains| && vol.files.chains[k][0] == cluster
    modifies vol`disk, vol`files
    ensures vol.Valid()
    ensures added <==>
      var found := old(Scan(Records(ChainBytes(vol.super, vol.area, vol.disk, vol.files, k))));
      found.Listing? && CanAdd(vol.area, old(vol.disk), old(vol.files), k, RECORD * found.used)
    ensures added ==>
      (Survives(name) <==> listed && after == before + [NewEntry(name, isDir, fileCluster, fileSize)])
  {
    var size;
    listed, after := false, [];
    added, before, size := ListDirectory(vol, cluster, k);
    if !added {
      return;
    }
    ghost var was := ChainBytes(vol.super, vol.area, vol.disk, vol.files, k);
    added := AppendDirectoryEntry(vol, cluster, size, isDir, name, fileCluster, fileSize, k);
    if !added {
      return;
    }
    EntryListed(was, ChainBytes(vol.super, vol.area, vol.disk, vol.files, k), name, isDir, fileCluster, fileSize);
    listed, after, size := ListDirectory(vol, cluster, k);
  }

  /** The next entry can be added if and only if the last one did not end with its cluster:
      there the end mark opened another cluster, which the size in use does not call for. */
  lemma NextMatches(l: Area, ch: Chain, size: nat)
    requires 0 < l.clusterSize && l.clusterSize % RECORD == 0 && size % RECORD == 0
    requires ChainMatches(l, ch, size + 2 * RECORD)
    ensures ChainMatches(l, ch, size + RECORD) <==> (size + RECORD) % l.clusterSize != 0
  {
    var q, m := |ch| - 1, l.clusterSize;
    SpanRecords(q, m);
    WholeRecords(Span(q, m), m, size);
    Remainder(size + RECORD, q, m);
  }

  lemma WholeRecords(y: nat, m: nat, size: nat)
    requires y % RECORD == 0 && m % RECORD == 0 && size % RECORD == 0
    requires size + 2 * RECORD <= y + m && (y == 0 || y < size + 2 * RECORD)
    ensures y <= size + RECORD < y + m
  {
  }

  /** A stretch of clusters holds whole records. */
  lemma {:induction false} SpanRecords(q: nat, m: nat)
    requires m % RECORD == 0
    ensures Span(q, m) % RECORD == 0
  {
    if q > 0 { SpanRecords(q - 1, m); }
  }

  lemma Remainder(x: nat, q: nat, m: nat)
    requires Span(q, m) <= x < Span(q, m) + m
    ensures x % m == x - Span(q, m)
  {
    SpanIsProduct(q, m);
    QuotientIs(x, m, q, x - Span(q, m));
  }
}
