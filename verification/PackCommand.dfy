/** fatedit's `pack` command, and booting from the image it leaves behind. */
module PackCommand {
  import opened Bytes
  import opened FatSuper
  import opened FatState
  import opened FatAppend
  import opened FatKept
  import opened FatCopies
  import opened Volume
  import opened FileWriter
  import opened ShortName
  import opened Dirent
  import opened DirectoryEdit
  import opened LoaderSpec
  import opened Loader
  import opened Lookup
  import opened LoaderFind
  import opened Agreement
  import opened FindAgreement
  import opened EndToEnd

  /** Between (d0, f0) and (d, f) the record e was added to the directory in chain k, to which
      its name was new. */
  ghost predicate EntryPacked(
      s: Super, l: Area, d0: Disk, f0: Files, d: Disk, f: Files, k: nat, name: seq<byte>, e: Record)
  {
    var packed :=
      && Good(s, l, d0, f0) && Good(s, l, d, f) && k < |f0.chains| && k < |f.chains|
      && f0.chains[k] <= f.chains[k] && Clean(d.raw, f.chains[k])
      && IsShort(name) && ListsNew(ChainBytes(s, l, d0, f0, k), name)
      && EntryAdded(ChainBytes(s, l, d0, f0, k), Scan(Records(ChainBytes(s, l, d0, f0, k))).used,
                    ChainBytes(s, l, d, f, k), e);
    packed
  }

  /** The directory can be listed, and the name is not in it. */
  predicate ListsNew(dir: seq<byte>, name: seq<byte>) {
    Scan(Records(dir)).Listing? && NotListed(Scan(Records(dir)).entries, name)
  }

  /** Adding the directory entry leaves the chain of the file alone. */
  lemma FileKept(s: Super, l: Area, d: Disk, f: Files, d': Disk, f': Files, k: nat, j: nat, first: int, data: seq<byte>)
    requires FilePacked(s, l, d, f, j, first, data) && Good(s, l, d', f') && OnlyChain(d, f, d', f', l, k) && j != k
    ensures FilePacked(s, l, d', f', j, first, data) && f'.chains[j] == f.chains[j]
  {
    OtherKept(s, d, f, d', f', l, k, j);
  }

  /** Every old chain but the directory in chain k is as it was. */
  ghost predicate OthersKept(s: Super, l: Area, d0: Disk, f0: Files, d: Disk, f: Files, k: nat)
    requires Good(s, l, d0, f0) && Good(s, l, d, f) && |f.chains| == |f0.chains| + 1
  {
    forall j :: 0 <= j < |f0.chains| && j != k ==> ChainKept(s, l, d0, f0, d, f, j)
  }

  /** The clusters for n bytes and for two more records in the directory, of which `size` bytes
      were in use, were taken from the usable ones, and no others. */
  ghost predicate Spent(l: Area, d0: Disk, f0: Files, d: Disk, f: Files, k: nat, size: nat, n: nat)
    requires k < |f0.chains| && k < |f.chains| == |f0.chains| + 1
  {
    && 0 < l.clusterSize
    && |f.chains[|f0.chains|]| == Clusters(n, l.clusterSize)
    && |f.chains[k]| == Clusters(size + 2 * RECORD, l.clusterSize)
    && |Usable(l, d.raw)| + |f.chains[k]| + Clusters(n, l.clusterSize) == |Usable(l, d0.raw)| + |f0.chains[k]|
  }

  /** From (d0, f0) to (d, f) a file was packed: its data is in a chain of its own, its record in
      the directory in chain k, and every other chain is as it was. */
  ghost predicate PackDone(
      s: Super, l: Area, d0: Disk, f0: Files, d: Disk, f: Files, k: nat, name: seq<byte>, first: u32, data: seq<byte>)
  {
    && |data| < U32_LIMIT && |d.img| == |d0.img| && |d.raw| == |d0.raw| && |f.chains| == |f0.chains| + 1
    && FilePacked(s, l, d, f, |f0.chains|, first, data)
    && EntryPacked(s, l, d0, f0, d, f, k, name, MakeRecord(name, false, first, |data|))
    && Spent(l, d0, f0, d, f, k, InUse(ChainBytes(s, l, d0, f0, k)), |data|)
    && forall u: int {:trigger Open(u)} :: Open(u) && OthersKept(s, l, d0, f0, d, f, k)
  }

  /** After the file is written its entry is added. */
  lemma EntryFollows(
      s: Super, l: Area, d0: Disk, f0: Files, d1: Disk, f1: Files, d: Disk, f: Files, k: nat, name: seq<byte>, e: Record)
    requires ChainAdded(s, l, d0, f0, d1, f1) && k < |f0.chains| && Clean(d0.raw, f0.chains[k])
    requires IsShort(name) && ListsNew(ChainBytes(s, l, d0, f0, k), name)
    requires AddedAt(s, l, k, d1, f1, d, f, InUse(ChainBytes(s, l, d0, f0, k)), e + Zeros(RECORD))
    ensures EntryPacked(s, l, d0, f0, d, f, k, name, e) && f1.chains[k] == f0.chains[k]
    ensures |d.img| == |d0.img| && |d.raw| == |d0.raw|
  {
    assert Open(0);
    assert ChainKept(s, l, d0, f0, d1, f1, k);
  }

  lemma KeptThrough(s: Super, l: Area, d0: Disk, f0: Files, d1: Disk, f1: Files, d: Disk, f: Files, k: nat)
    requires ChainAdded(s, l, d0, f0, d1, f1) && Good(s, l, d, f) && OnlyChain(d1, f1, d, f, l, k)
    ensures |f.chains| == |f0.chains| + 1 && OthersKept(s, l, d0, f0, d, f, k)
  {
    assert Open(0);
    forall j | 0 <= j < |f0.chains| && j != k ensures ChainKept(s, l, d0, f0, d, f, j) {
      assert ChainKept(s, l, d0, f0, d1, f1, j);
      OtherKept(s, d1, f1, d, f, l, k, j);
    }
  }

  lemma PackEnds(
      s: Super, l: Area, d0: Disk, f0: Files, d1: Disk, f1: Files, d: Disk, f: Files, k: nat, name: seq<byte>,
      first: u32, data: seq<byte>)
    requires |data| < U32_LIMIT && FileWritten(s, l, d0, f0, d1, f1, first, data)
    requires k < |f0.chains| && Clean(d0.raw, f0.chains[k])
    requires IsShort(name) && ListsNew(ChainBytes(s, l, d0, f0, k), name)
    requires AddedAt(s, l, k, d1, f1, d, f, InUse(ChainBytes(s, l, d0, f0, k)),
                     MakeRecord(name, false, first, |data|) + Zeros(RECORD))
    ensures PackDone(s, l, d0, f0, d, f, k, name, first, data)
  {
    EntryFollows(s, l, d0, f0, d1, f1, d, f, k, name, MakeRecord(name, false, first, |data|));
    FileKept(s, l, d1, f1, d, f, k, |f0.chains|, first, data);
    KeptThrough(s, l, d0, f0, d1, f1, d, f, k);
    ChainMatchesClusters(l, f.chains[k], InUse(ChainBytes(s, l, d0, f0, k)) + 2 * RECORD);
  }

  /** Room for a file of n bytes and for its record, in a directory of which `size` bytes are in
      use: the directory has the clusters these need, and there are clusters for all that is added. */
  ghost predicate RoomFor(l: Area, d: Disk, f: Files, k: nat, size: nat, n: nat)
    requires k < |f.chains|
  {
    && 0 < l.clusterSize && ChainMatches(l, f.chains[k], size)
    && Clusters(size + 2 * RECORD, l.clusterSize) + Clusters(n, l.clusterSize) <= |f.chains[k]| + |Usable(l, d.raw)|
  }

  /** There is room if and only if the file can be written and then its record be added. */
  lemma RoomForBoth(s: Super, l: Area, d0: Disk, f0: Files, d: Disk, f: Files, k: nat, size: nat, first: int, data: seq<byte>)
    requires FileWritten(s, l, d0, f0, d, f, first, data) && k < |f0.chains|
    ensures k < |f.chains| && (CanAdd(l, d, f, k, size) <==> RoomFor(l, d0, f0, k, size, |data|))
  {
    ParentFirst(s, l, d0, f0, d, f, k);
  }

  lemma NoRoom(l: Area, d: Disk, f: Files, k: nat, size: nat, n: nat)
    requires k < |f.chains| && 0 < l.clusterSize && |Usable(l, d.raw)| < Clusters(n, l.clusterSize)
    ensures !RoomFor(l, d, f, k, size, n)
  {
    if ChainMatches(l, f.chains[k], size) {
      ChainMatchesClusters(l, f.chains[k], size);
      ClustersMono(size, size + 2 * RECORD, l.clusterSize);
    }
  }

  /** What writing the file and then adding its record keep. */
  lemma KeptByBoth(
      s: Super, l: Area, d0: Disk, f0: Files, d1: Disk, f1: Files, d: Disk, k: nat, size: nat)
    requires Good(s, l, d0, f0) && k < |f0.chains| && size <= |ChainBytes(s, l, d0, f0, k)|
    requires ImageKept(l, d0.img, d1.img, f0.chains, |f0.chains|, 0)
    ensures ImageKept(l, d0.img, d1.img, f0.chains, k, size)
    ensures ChainAdded(s, l, d0, f0, d1, f1) && ImageKept(l, d1.img, d.img, f1.chains, k, size) ==>
      ImageKept(l, d0.img, d.img, f0.chains, k, size)
  {
    assert f0.chains + [] == f0.chains;
    OldKept(l, d0.img, d1.img, f0.chains, [], 0, k, size);
    if ChainAdded(s, l, d0, f0, d1, f1) && ImageKept(l, d1.img, d.img, f1.chains, k, size) {
      AddedGrown(s, l, d0, f0, d1, f1, k);
      KeptTwice(l, d0.img, d1.img, d.img, f0.chains, f1.chains, k, size, size);
    }
  }

  lemma AddedGrown(s: Super, l: Area, d0: Disk, f0: Files, d: Disk, f: Files, k: nat)
    requires ChainAdded(s, l, d0, f0, d, f) && k < |f0.chains|
    ensures Grown(f0.chains, f.chains, k)
  {
    assert Open(0);
    forall j | 0 <= j < |f0.chains| ensures f.chains[j] == f0.chains[j] {
      assert ChainKept(s, l, d0, f0, d, f, j);
    }
  }

  /** What a pack command comes to: it refuses with a message, or an exception ends it. */
  datatype PackResult = Packed(first: u32, size: u32) | Refused | Threw

  /** The command refuses exactly a name that is not a short one, or not new to a directory it can
      list, and then changes nothing.  Otherwise it packs the file if and only if there is room
      before it starts; where there is none it throws.  In any case no old file or directory
      loses anything. */
  method PackFile(vol: Volume, parent: u32, name: seq<byte>, chunks: seq<seq<byte>>, ghost k: nat) returns (r: PackResult)
    requires vol.Valid()
    requires k < |vol.files.chains| && vol.files.chains[k][0] == parent && Clean(vol.disk.raw, vol.files.chains[k])
    modifies vol`disk, vol`files
    ensures vol.Valid()
    ensures r.Refused? <==>
      !IsShort(name) || !ListsNew(old(ChainBytes(vol.super, vol.area, vol.disk, vol.files, k)), name)
    ensures r.Refused? ==> vol.disk == old(vol.disk) && vol.files == old(vol.files)
    ensures !r.Refused? ==>
      var size := InUse(old(ChainBytes(vol.super, vol.area, vol.disk, vol.files, k)));
      && (r.Packed? <==> RoomFor(vol.area, old(vol.disk), old(vol.files), k, size, |Flatten(chunks)|))
      && ImageKept(vol.area, old(vol.disk).img, vol.disk.img, old(vol.files).chains, k, size)
    ensures r.Packed? ==>
      && r.size == |Flatten(chunks)|
      && PackDone(vol.super, vol.area, old(vol.disk), old(vol.files), vol.disk, vol.files, k, name, r.first, Flatten(chunks))
  {
    ghost var s, l, d0, f0 := vol.super, vol.area, vol.disk, vol.files;
    var ok := IsShortName(name);
    if !ok {
      return Refused;
    }
    var parentSize, first, size;
    ok, parentSize := CheckEntryNotInDir(vol, parent, name, k);
    if !ok {
      return Refused;
    }
    InUseFits(ChainBytes(s, l, d0, f0, k));
    ok, first, size := WriteFile(vol, chunks);
    KeptByBoth(s, l, d0, f0, vol.disk, vol.files, vol.disk, k, parentSize);
    if !ok {
      NoRoom(l, d0, f0, k, parentSize, |Flatten(chunks)|);
      return Threw;
    }
    RoomForBoth(s, l, d0, f0, vol.disk, vol.files, k, parentSize, first, Flatten(chunks));
    ghost var d1, f1 := vol.disk, vol.files;
    ok := AddFileEntry(vol, parent, parentSize, name, first, size, Flatten(chunks), d0, f0, k);
    KeptByBoth(s, l, d0, f0, d1, f1, vol.disk, k, parentSize);
    r := if ok then Packed(first, size) else Threw;
  }

  /** The last step of packing. */
  method AddFileEntry(
      vol: Volume, parent: u32, parentSize: nat, name: seq<byte>, first: u32, size: u32, ghost data: seq<byte>,
      ghost d0: Disk, ghost f0: Files, ghost k: nat)
    returns (ok: bool)
    requires FileWritten(vol.super, vol.area, d0, f0, vol.disk, vol.files, first, data) && size == |data|
    requires k < |f0.chains| && f0.chains[k] != [] && f0.chains[k][0] == parent && Clean(d0.raw, f0.chains[k])
    requires IsShort(name) && ListsNew(ChainBytes(vol.super, vol.area, d0, f0, k), name)
    requires parentSize == InUse(ChainBytes(vol.super, vol.area, d0, f0, k)) < U32_LIMIT
    requires k < |vol.files.chains|
    modifies vol`disk, vol`files
    ensures vol.Valid()
    ensures ok <==> old(CanAdd(vol.area, vol.disk, vol.files, k, parentSize))
    ensures ImageKept(vol.area, old(vol.disk).img, vol.disk.img, old(vol.files).chains, k, parentSize)
    ensures ok ==> PackDone(vol.super, vol.area, d0, f0, vol.disk, vol.files, k, name, first, data)
  {
    ghost var s, l, d, f := vol.super, vol.area, vol.disk, vol.files;
    ParentFirst(s, l, d0, f0, d, f, k);
    InUseFits(ChainBytes(s, l, d0, f0, k));
    ok := AppendDirectoryEntry(vol, parent, parentSize, false, name, first, size, k);
    if ok {
      PackEnds(s, l, d0, f0, d, f, vol.disk, vol.files, k, name, first, data);
    }
  }

  lemma ParentFirst(s: Super, l: Area, d0: Disk, f0: Files, d: Disk, f: Files, k: nat)
    requires ChainAdded(s, l, d0, f0, d, f) && k < |f0.chains|
    ensures k < |f.chains| && f.chains[k] == f0.chains[k]
  {
    assert Open(0);
    assert ChainKept(s, l, d0, f0, d, f, k);
  }

  // ------------------------------------------------------------ booting from the image

  predicate AllNamed(es: seq<DirEntry>) {
    forall i :: 0 <= i < |es| ==> es[i].shortName != []
  }

  lemma {:induction false} FirstNamedNew(es: seq<DirEntry>, d: DirEntry, name: seq<byte>)
    requires NotListed(es, name) && d.shortName == name != []
    ensures FirstNamed(es + [d], name) == if AllNamed(es) then Found(d) else Cut
  {
    if es == [] {
      assert es + [d] == [d];
    } else {
      assert (es + [d])[1..] == es[1..] + [d];
      FirstNamedNew(es[1..], d, name);
      assert AllNamed(es) <==> es[0].shortName != [] && AllNamed(es[1..]) by {
        assert es == [es[0]] + es[1..];
      }
    }
  }

  /** What a lookup of the new name must give: the new file, unless fatedit listed an entry
      whose record starts with a NUL, at which the loader stops. */
  predicate FindsNew(r: FindResult, es: seq<DirEntry>, first: u32, size: u32) {
    if AllNamed(es) then r.Located? && r.file.cluster == first && r.file.size == size && !IsDirectory(r.file)
    else r == NoEntry
  }

  lemma NewEntryFound(
      s: Super, l: Area, d0: Disk, f0: Files, d1: Disk, f: Files, d: Disk, k: nat, name: seq<byte>, first: u32, size: u32,
      stale: Junk)
    requires EntryPacked(s, l, d0, f0, d1, f, k, name, MakeRecord(name, false, first, size)) && Survives(name)
    requires WrittenBack(s, l, d1, d) && s.bytesPerSector == SECTOR && 0 < s.numFats
    ensures 0 <= f.chains[k][0] < U32_LIMIT
    ensures
      var r := LookUp(d.img, s, f.chains[k][0], name, stale, 0, |f.chains[k]|);
      r.Some? && FindsNew(r.value, Scan(Records(ChainBytes(s, l, d0, f0, k))).entries, first, size)
  {
    var was, now := ChainBytes(s, l, d0, f0, k), ChainBytes(s, l, d1, f, k);
    ChainWrittenBack(s, l, d1, f, k, d);
    EntryListed(was, now, name, false, first, size);
    LoaderFindsListed(s, d.img, d.raw, f.chains[k], name, stale);
    ShortNameChars(name);
    FirstNamedNew(Scan(Records(was)).entries, NewEntry(name, false, first, size), name);
  }

  /** Packs a file into a directory, writes the tables back, boots from the image, looks the name
      up through the loader and reads what it found: the loader finds the file, and reads the
      matching slice of the concatenated chunks for every offset and length. */
  method PackAndBoot(
      vol: Volume, parent: u32, name: seq<byte>, chunks: seq<seq<byte>>, info: seq<byte>,
      fatWindow: seq<byte>, dataWindow: seq<byte>, stale: Junk, offset: u32, size: u32, ghost k: nat)
    returns (packed: PackResult, found: FindResult, ret: int, buffer: seq<byte>)
    requires vol.Valid() && Mounted(vol.super, vol.area, vol.disk)
    requires k < |vol.files.chains| && vol.files.chains[k][0] == parent && Clean(vol.disk.raw, vol.files.chains[k])
    requires vol.super.bytesPerSector == SECTOR && 0 < vol.super.numFats
    requires |info| == 512 && |fatWindow| == SECTOR && |dataWindow| == ClusterSize(vol.super)
    requires Survives(name)
    modifies vol`disk, vol`files
    ensures packed.Refused? <==>
      !IsShort(name) || !ListsNew(old(ChainBytes(vol.super, vol.area, vol.disk, vol.files, k)), name)
    ensures !packed.Refused? ==>
      (packed.Packed? <==>
        RoomFor(vol.area, old(vol.disk), old(vol.files), k,
                InUse(old(ChainBytes(vol.super, vol.area, vol.disk, vol.files, k))), |Flatten(chunks)|))
    ensures packed.Packed? ==>
      var data := Flatten(chunks);
      var listed := old(Scan(Records(ChainBytes(vol.super, vol.area, vol.disk, vol.files, k))));
      && listed.Listing? && (found.Located? <==> AllNamed(listed.entries))
      && (found.Located? && 0 < |data| ==>
           && found.file.size == |data|
           && buffer == data[Min(offset, |data|)..Min(offset + size, |data|)]
           && |buffer| < U32_LIMIT
           && ret == if |buffer| < 0x8000_0000 then |buffer| else |buffer| - 0x1_0000_0000)
  {
    found, ret, buffer := NoEntry, 0, [];
    packed := PackFile(vol, parent, name, chunks, k);
    if !packed.Packed? {
      return;
    }
    ghost var s, l, d, f, data := vol.super, vol.area, vol.disk, vol.files, Flatten(chunks);
    MountedKept(s, l, old(vol.disk), d);
    FinishImage(vol, info);
    NewEntryFound(s, l, old(vol.disk), old(vol.files), d, f, vol.disk, k, name, packed.first, packed.size, stale);
    found, ret, buffer := BootAndRead(vol, parent, name, fatWindow, dataWindow, stale, offset, size, |f.chains[k]|);
    if found.Located? && 0 < |data| {
      ghost var j := |old(vol.files).chains|;
      ChainWrittenBack(s, l, d, f, j, vol.disk);
      LoaderReadsFile(s, vol.disk.img, vol.disk.raw, f.chains[j], data, found.file, offset, size);
    }
  }

  /** The loader's side: looks the name up, and reads what it found. */
  method BootAndRead(
      vol: Volume, parent: u32, name: seq<byte>, fatWindow: seq<byte>, dataWindow: seq<byte>, stale: Junk,
      offset: u32, size: u32, ghost n: nat)
    returns (found: FindResult, ret: int, buffer: seq<byte>)
    requires 0 < vol.super.sectorsPerCluster && |fatWindow| == SECTOR && |dataWindow| == ClusterSize(vol.super)
    requires IsShort(name)
    requires LookUp(vol.disk.img, vol.super, parent, name, stale, 0, n).Some?
    ensures Some(found) == LookUp(vol.disk.img, vol.super, parent, name, stale, 0, n)
    ensures found.Located? ==>
      match ReadFile(vol.disk.img, vol.super, found.file, offset, size)
      case None => ret == -1
      case Some(b) =>
        && buffer == b && |b| < U32_LIMIT
        && ret == if |b| < 0x8000_0000 then |b| else |b| - 0x1_0000_0000
  {
    ret, buffer := 0, [];
    var fs := new FatFs(vol.disk.img, vol.super, {}, fatWindow, dataWindow);
    found := FindInDirectory(fs, FatFile(parent, 0, 0x10), name, stale, n);
    if found.Located? {
      ghost var ok;
      ret, buffer, ok := fs.ReadAt(found.file, offset, size);
    }
  }
}
