/** From the bytes handed to fatedit to the bytes the boot loader reads. */
module EndToEnd {
  import opened Bytes
  import opened Arith
  import opened FatSuper
  import opened FatState
  import opened FatAppend
  import opened FatKept
  import opened FatCopies
  import FsInfo
  import opened LoaderSpec
  import opened Agreement
  import opened Volume
  import opened FileWriter
  import opened Loader

  /** Chain j holds `data` and starts at cluster `first`, in a form the loader can read. */
  ghost predicate FilePacked(s: Super, l: Area, d: Disk, f: Files, j: nat, first: int, data: seq<byte>) {
    var packed :=
      && Good(s, l, d, f) && j < |f.chains| && f.chains[j] != [] && f.chains[j][0] == first
      && Clean(d.raw, f.chains[j]) && data <= ChainBytes(s, l, d, f, j);
    packed
  }

  /** A new file, after all its data was appended. */
  lemma NewFilePacked(s: Super, l: Area, k: nat, a: Writer, b: Writer, data: seq<byte>)
    requires Appended(s, l, k, a, b, data) && Stored(s, l, k, a) == [] && Clean(a.disk.raw, a.files.chains[k])
    requires 0 < b.cur.offset || |b.files.chains[k]| == 1
    ensures FilePacked(s, l, b.disk, b.files, k, b.cur.firstCluster, data) && b.cur.totalSize == |data|
    ensures ChainMatches(l, b.files.chains[k], |data|)
    ensures OnlyChain(a.disk, a.files, b.disk, b.files, l, k)
  {
    assert Open(0);
    assert [] + data == data;
    SpanMono(|b.files.chains[k]| - 1, |b.files.chains[k]|, l.clusterSize);
  }

  /** A chain was added, and every old one is as it was. */
  ghost predicate ChainAdded(s: Super, l: Area, d0: Disk, f0: Files, d: Disk, f: Files) {
    var added :=
      && Good(s, l, d0, f0) && Good(s, l, d, f)
      && |d.img| == |d0.img| && |d.raw| == |d0.raw| && |f.chains| == |f0.chains| + 1
      && forall u: int {:trigger Open(u)} :: Open(u) && OldChainsKept(s, l, d0, f0, d, f);
    added
  }

  ghost predicate OldChainsKept(s: Super, l: Area, d0: Disk, f0: Files, d: Disk, f: Files)
    requires Good(s, l, d0, f0) && Good(s, l, d, f) && |f.chains| == |f0.chains| + 1
  {
    forall k :: 0 <= k < |f0.chains| ==> ChainKept(s, l, d0, f0, d, f, k)
  }

  ghost predicate ChainKept(s: Super, l: Area, d0: Disk, f0: Files, d: Disk, f: Files, k: nat)
    requires Good(s, l, d0, f0) && Good(s, l, d, f) && k < |f0.chains| && k < |f.chains|
  {
    && f.chains[k] == f0.chains[k] && ChainBytes(s, l, d, f, k) == ChainBytes(s, l, d0, f0, k)
    && (Clean(d0.raw, f0.chains[k]) ==> Clean(d.raw, f.chains[k]))
  }

  /** A new chain holds the data, and takes exactly the clusters it needs. */
  ghost predicate FileWritten(s: Super, l: Area, d0: Disk, f0: Files, d: Disk, f: Files, first: int, data: seq<byte>) {
    && ChainAdded(s, l, d0, f0, d, f) && FilePacked(s, l, d, f, |f0.chains|, first, data)
    && 0 < l.clusterSize && |f.chains[|f0.chains|]| == Clusters(|data|, l.clusterSize)
    && |Usable(l, d.raw)| + Clusters(|data|, l.clusterSize) == |Usable(l, d0.raw)|
  }

  /** Starting a new file and filling it leaves all other chains alone. */
  lemma OthersStay(s: Super, l: Area, d0: Disk, f0: Files, a: Writer, b: Writer)
    requires Good(s, l, d0, f0) && a.disk.img == d0.img && CleanStep(d0.raw, a.disk.raw)
    requires |a.files.chains| == |f0.chains| + 1 && a.files.chains[..|f0.chains|] == f0.chains
    requires Good(s, l, a.disk, a.files) && Good(s, l, b.disk, b.files)
    requires OnlyChain(a.disk, a.files, b.disk, b.files, l, |f0.chains|)
    ensures ChainAdded(s, l, d0, f0, b.disk, b.files)
  {
    forall k | 0 <= k < |f0.chains| ensures ChainKept(s, l, d0, f0, b.disk, b.files, k) {
      assert a.files.chains[k] == a.files.chains[..|f0.chains|][k];
      OldChainKept(s, l, d0, f0, a, b, k);
    }
    assert OldChainsKept(s, l, d0, f0, b.disk, b.files);
  }

  lemma FileAdded(s: Super, l: Area, d0: Disk, f0: Files, a: Writer, b: Writer, data: seq<byte>)
    requires Good(s, l, d0, f0) && a.disk.img == d0.img && CleanStep(d0.raw, a.disk.raw)
    requires |a.files.chains| == |f0.chains| + 1 && a.files.chains[..|f0.chains|] == f0.chains
    requires Appended(s, l, |f0.chains|, a, b, data) && Stored(s, l, |f0.chains|, a) == []
    requires Clean(a.disk.raw, a.files.chains[|f0.chains|]) && |a.files.chains[|f0.chains|]| == 1
    requires 0 < b.cur.offset || |b.files.chains[|f0.chains|]| == 1
    requires |Usable(l, a.disk.raw)| + 1 == |Usable(l, d0.raw)|
    ensures FileWritten(s, l, d0, f0, b.disk, b.files, b.cur.firstCluster, data) && b.cur.totalSize == |data|
  {
    var k := |f0.chains|;
    NewFilePacked(s, l, k, a, b, data);
    OthersStay(s, l, d0, f0, a, b);
    ChainMatchesClusters(l, b.files.chains[k], |data|);
  }

  lemma OldChainKept(s: Super, l: Area, d0: Disk, f0: Files, a: Writer, b: Writer, k: nat)
    requires Good(s, l, d0, f0) && k < |f0.chains|
    requires Good(s, l, a.disk, a.files) && a.disk.img == d0.img && CleanStep(d0.raw, a.disk.raw)
    requires |a.files.chains| == |f0.chains| + 1 && a.files.chains[k] == f0.chains[k]
    requires Good(s, l, b.disk, b.files) && OnlyChain(a.disk, a.files, b.disk, b.files, l, |f0.chains|)
    ensures k < |b.files.chains| && ChainKept(s, l, d0, f0, b.disk, b.files, k)
  {
    if Clean(d0.raw, f0.chains[k]) { CleanKept(d0.raw, a.disk.raw, f0.chains[k]); }
    OtherKept(s, a.disk, a.files, b.disk, b.files, l, |f0.chains|, k);
  }

  /** The bytes become a new file if the clusters that can be taken hold them, and only then.  In
      any case every old chain stores what it did. */
  method WriteFile(vol: Volume, chunks: seq<seq<byte>>) returns (ok: bool, first: u32, size: u32)
    requires vol.Valid()
    modifies vol`disk, vol`files
    ensures vol.Valid() && (!ok ==> !HasFree(vol.area, vol.disk.raw))
    ensures ok <==> Clusters(|Flatten(chunks)|, vol.area.clusterSize) <= old(|Usable(vol.area, vol.disk.raw)|)
    ensures ImageKept(vol.area, old(vol.disk).img, vol.disk.img, old(vol.files).chains, |old(vol.files).chains|, 0)
    ensures ok ==>
      && size == |Flatten(chunks)|
      && FileWritten(vol.super, vol.area, old(vol.disk), old(vol.files), vol.disk, vol.files, first, Flatten(chunks))
  {
    first, size := 0, 0;
    ghost var s, l, k, data := vol.super, vol.area, |vol.files.chains|, Flatten(chunks);
    UsableLeft(l, vol.disk.raw);
    SameImage(l, vol.disk.img, vol.files.chains, k, 0);
    var w := NewFile(vol);
    if w == null {
      return false, first, size;
    }
    ghost var start := w.State();
    ghost var written;
    ok, written := AppendAll(w, chunks);
    AppendedKeeps(s, l, w.k, start, w.State(), written);
    OldKept(l, start.disk.img, vol.disk.img, old(vol.files).chains, [[start.cur.firstCluster]], 0, k, 0);
    if ok {
      first, size := w.cur.firstCluster, w.cur.totalSize;
      FileAdded(s, l, old(vol.disk), old(vol.files), start, w.State(), data);
    }
  }

  /** d is the disk after the table of d0 was written back. */
  ghost predicate WrittenBack(s: Super, l: Area, d0: Disk, d: Disk) {
    var written :=
      && Mounted(s, l, d0) && Mounted(s, l, d) && d.raw == d0.raw && |d.img| == |d0.img|
      && HasCopies(d.img, FatStart(s), d.raw, s.numFats)
      && l.base <= |d.img| && d.img[l.base..] == d0.img[l.base..];
    written
  }

  lemma ImageWritten(s: Super, l: Area, d0: Disk, d: Disk, info: Option<seq<byte>>)
    requires Mounted(s, l, d0) && Mounted(s, l, d) && (info.Some? ==> |info.value| == FsInfo.SIZE)
    requires d.raw == d0.raw && d.img == WrittenImage(s, l, d0, info)
    ensures WrittenBack(s, l, d0, d)
  {
    WrittenImageMeans(s, l, d0, info);
  }

  /** The table goes back to the image; an exception for the info sector comes after that. */
  method FinishImage(vol: Volume, info: seq<byte>)
    requires vol.Valid() && Mounted(vol.super, vol.area, vol.disk) && |info| == FsInfo.SIZE
    modifies vol`disk
    ensures WrittenBack(vol.super, vol.area, old(vol.disk), vol.disk)
  {
    ghost var d := vol.disk;
    CopiesFit(vol.super, vol.area, d);
    var written := vol.WriteToImage(info);
    ImageWritten(vol.super, vol.area, d, vol.disk, if written then Some(NewInfo(vol.area, d.raw, info)) else None);
  }

  /** Then the chains that the loader can read are on disk, with what they stored. */
  lemma ChainWrittenBack(s: Super, l: Area, d0: Disk, f: Files, j: nat, d: Disk)
    requires Good(s, l, d0, f) && j < |f.chains| && Clean(d0.raw, f.chains[j])
    requires WrittenBack(s, l, d0, d) && s.bytesPerSector == SECTOR && 0 < s.numFats
    ensures ChainOnDisk(s, d.img, d.raw, f.chains[j])
    ensures Stores(s, d.img, d.raw, f.chains[j]) == ChainBytes(s, l, d0, f, j)
  {
    FirstCopy(s, l, d0, d);
    SameDataArea(d0.img, d.img, l, f.chains[j]);
  }

  /** The first copy of the table is the one the loader reads. */
  lemma FirstCopy(s: Super, l: Area, d0: Disk, d: Disk)
    requires WrittenBack(s, l, d0, d) && s.bytesPerSector == SECTOR && 0 < s.numFats
    ensures OnDisk(s, d.img, d.raw) && l == s.DataArea() && l.Within(|d.img|)
  {
    assert Open(0);
    assert CopyAt(d.img, FatStart(s) + Span(0, |d.raw|), d.raw);
    MulMono(1, s.numFats, s.sectorsPerFat);
    AreaWithin(s, |d.img|);
  }

  /** Packs the chunks into a new file, writes the tables back, boots from the image and reads
      the file through the loader.  If the usable clusters of the volume hold them, and only then,
      all are packed, and the loader returns the matching slice of the concatenated chunks, for
      every offset and length. */
  method PackAndRead(
      vol: Volume, chunks: seq<seq<byte>>, info: seq<byte>, fatWindow: seq<byte>, dataWindow: seq<byte>,
      flags: byte, offset: u32, size: u32)
    returns (packed: bool, ret: int, buffer: seq<byte>)
    requires vol.Valid() && Mounted(vol.super, vol.area, vol.disk)
    requires vol.super.bytesPerSector == SECTOR && 0 < vol.super.numFats
    requires |info| == 512 && |fatWindow| == SECTOR && |dataWindow| == ClusterSize(vol.super)
    modifies vol`disk, vol`files
    ensures packed <==>
      old(Clusters(|Flatten(chunks)|, vol.area.clusterSize) <= |Usable(vol.area, vol.disk.raw)|)
    ensures packed && 0 < |Flatten(chunks)| ==>
      var data := Flatten(chunks);
      && buffer == data[Min(offset, |data|)..Min(offset + size, |data|)]
      && |buffer| < U32_LIMIT && ret == if |buffer| < 0x8000_0000 then |buffer| else |buffer| - 0x1_0000_0000
  {
    ret, buffer := 0, [];
    var first, n;
    packed, first, n := WriteFile(vol, chunks);
    if !packed {
      return;
    }
    ghost var s, l, d, j, data := vol.super, vol.area, vol.disk, |old(vol.files).chains|, Flatten(chunks);
    var f := FatFile(first, n, flags);
    MountedKept(s, l, old(vol.disk), d);
    FinishImage(vol, info);
    ChainWrittenBack(s, l, d, vol.files, j, vol.disk);
    var fs := new FatFs(vol.disk.img, vol.super, {}, fatWindow, dataWindow);
    ghost var ok;
    ret, buffer, ok := fs.ReadAt(f, offset, size);
    if 0 < |data| {
      LoaderReadsFile(s, vol.disk.img, vol.disk.raw, vol.files.chains[j], data, f, offset, size);
    }
  }
}
