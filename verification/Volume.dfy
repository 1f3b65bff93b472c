/** fatedit's `FatReader`: the table held in memory, and the allocation of clusters. */
module Volume {
  import opened Bytes
  import opened FatSuper
  import opened FatChains
  import opened FatRaw
  import opened FatState
  import opened FatCopies
  import FsInfo

  class Volume {
    const super: Super
    /** Where the clusters lie: `BytesPerCluster()` and the bound of the free-cluster scan,
        evaluated once, since the super block does not change. */
    const area: Area
    var disk: Disk
    ghost var files: Files

    ghost predicate Valid()
      reads this
    {
      Good(super, area, disk, files)
    }

    constructor (super: Super, img: seq<byte>, ghost chains: seq<Chain>)
      requires super.Describes(|img|) && Holds(Table(FirstTable(super, img)), chains, super.DataArea())
      ensures Valid() && this.super == super && area == super.DataArea()
      ensures disk == Disk(img, FirstTable(super, img)) && files == Files(chains)
    {
      this.super := super;
      this.area := super.DataArea();
      this.disk := Disk(img, FirstTable(super, img));
      this.files := Files(chains);
      DescribesFits(super, |img|);
    }

    method ClusterFileOffset(index: u32) returns (offset: nat)
      requires Valid() && area.InArea(index)
      ensures offset == area.Pos(index) && offset + area.clusterSize <= |disk.img|
    {
      ClusterRange(area, |disk.img|, index);
      offset := super.ClusterFileOffset(index);
    }

    /** Stores an entry; the guard drops the update exactly when the entry is outside the table. */
    method Set(n: nat, value: u32)
      modifies this`disk
      ensures disk.img == old(disk.img)
      ensures CleanStep(old(disk.raw), disk.raw) && (n < |disk.raw| / 4 ==> TopByte(disk.raw, n) < 0x10)
      ensures Table(disk.raw) ==
        if n < |disk.raw| / 4 then Table(old(disk.raw))[n := Low28(value)] else Table(old(disk.raw))
    {
      var raw := disk.raw;
      var idx := n * 4;
      if |raw| < 4 || idx >= |raw| - 3 {
        return;
      }
      SetEntryTable(raw, n, value);
      var r := value / 0x100;
      var q := r / 0x100;
      raw := raw[idx := value % 0x100];
      raw := raw[idx + 1 := r % 0x100];
      raw := raw[idx + 2 := q % 0x100];
      raw := raw[idx + 3 := q / 0x100 % 0x10];
      assert raw == Overwrite(old(disk.raw), 4 * n, EntryBytes(value));
      disk := disk.(raw := raw);
    }

    /** Looks through the entries from 0 on. */
    method FindFreeCluster() returns (r: Result<u32>)
      requires Valid()
      ensures r == Throws <==> FirstFree(Table(disk.raw), area.count) == Throws
      ensures r == Ok(NO_CLUSTER) <==> FirstFree(Table(disk.raw), area.count) == Ok(None)
      ensures r.Ok? ==> r.value == NextFree(Table(disk.raw), area.count)
      ensures r.Ok? && r.value != NO_CLUSTER ==>
        && IsFree(Table(disk.raw), area, r.value) && r.value < area.count
        && forall j :: 0 <= j < r.value ==> Table(disk.raw)[j] != 0
    {
      var total := area.count;
      if total < 1 {
        return Ok(NO_CLUSTER);
      }
      ghost var t := Table(disk.raw);
      var i := 0;
      while i < total
        invariant 0 <= i <= total
        invariant FirstFree(t, total, i) == FirstFree(t, total)
        invariant forall j :: 0 <= j < i && j < |t| ==> t[j] != 0
      {
        NextIsEntry(disk.raw, i);
        var e := NextClusterInFile(disk.raw, i);
        if e.Throws? {
          return Throws;
        }
        if e.value == 0 {
          return Ok(i);
        }
        i := i + 1;
      }
      return Ok(NO_CLUSTER);
    }

    /** The table update both forms of `AllocateCluster` start with. */
    method TakeFirstFree() returns (r: Result<u32>)
      requires Valid()
      modifies this`disk
      ensures disk.img == old(disk.img)
      ensures r.Throws? <==> !HasFree(area, old(disk.raw))
      ensures r.Throws? ==> disk == old(disk)
      ensures r.Ok? ==>
        && IsFree(Table(old(disk.raw)), area, r.value) && r.value < area.count
        && (forall e :: 0 <= e < r.value ==> Table(old(disk.raw))[e] != 0)
        && Table(disk.raw) == Table(old(disk.raw))[r.value := 0x0FFF_FFF8]
        && CleanStep(old(disk.raw), disk.raw) && Clean(disk.raw, [r.value])
    {
      ScanFindsFree(disk.raw, files.chains, area);
      r := FindFreeCluster();
      if r.Throws? || r.value >= END_OF_CHAIN {
        return Throws;
      }
      Set(r.value, END_OF_CHAIN);
    }

    /** Takes the first free cluster and makes it a chain of its own. */
    method AllocateCluster() returns (r: Result<u32>)
      requires Valid()
      modifies this`disk, this`files
      ensures Valid() && disk.img == old(disk.img) && CleanStep(old(disk.raw), disk.raw)
      ensures r.Throws? <==> !HasFree(area, old(disk.raw))
      ensures r.Throws? ==> disk == old(disk) && files == old(files)
      ensures r.Ok? ==>
        && IsFree(Table(old(disk.raw)), area, r.value) && r.value < area.count
        && (forall e :: 0 <= e < r.value ==> Table(old(disk.raw))[e] != 0)
        && Table(disk.raw) == Table(old(disk.raw))[r.value := 0x0FFF_FFF8]
        && files == Files(old(files).chains + [[r.value]])
        && Clean(disk.raw, [r.value])
    {
      r := TakeFirstFree();
      if r.Ok? {
        StartHolds(Table(old(disk.raw)), files.chains, area, r.value);
        files := Files(files.chains + [[r.value]]);
      }
    }

    /** Takes the first free cluster and links it behind the last cluster of chain k. */
    method AllocateClusterAfter(lastInFile: u32, ghost k: nat) returns (r: Result<u32>)
      requires Valid() && k < |files.chains| && lastInFile == Last(files.chains[k])
      modifies this`disk, this`files
      ensures Valid() && disk.img == old(disk.img) && CleanStep(old(disk.raw), disk.raw)
      ensures r.Throws? <==> !HasFree(area, old(disk.raw))
      ensures r.Throws? ==> disk == old(disk) && files == old(files)
      ensures r.Ok? ==>
        && IsFree(Table(old(disk.raw)), area, r.value) && r.value < area.count
        && (forall e :: 0 <= e < r.value ==> Table(old(disk.raw))[e] != 0)
        && Table(disk.raw) == Table(old(disk.raw))[r.value := 0x0FFF_FFF8][lastInFile := r.value]
        && files == Files(old(files).chains[k := old(files).chains[k] + [r.value]])
        && (Clean(old(disk.raw), old(files).chains[k]) ==> Clean(disk.raw, files.chains[k]))
    {
      ghost var ch := files.chains[k];
      r := TakeFirstFree();
      if r.Throws? {
        return;
      }
      GrowHolds(Table(old(disk.raw)), files.chains, area, k, r.value);
      ghost var mid := disk.raw;
      Set(lastInFile, r.value);
      if Clean(old(disk.raw), ch) {
        CleanKept(old(disk.raw), mid, ch);
        CleanKept(mid, disk.raw, ch);
      }
      CleanKept(mid, disk.raw, [r.value]);
      CleanStepTrans(old(disk.raw), mid, disk.raw);
      files := Files(files.chains[k := ch + [r.value]]);
    }

    method NumFreeClusters() returns (count: u32)
      requires |disk.raw| < U32_LIMIT
      ensures count == FreeEntries(Table(disk.raw)) == |FreeSet(Table(disk.raw))|
    {
      FreeEntriesAre(Table(disk.raw));
      ghost var t := Table(disk.raw);
      count := 0;
      var i := 0;
      while i < |disk.raw| / 4
        invariant 0 <= i <= |t| && count == FreeEntries(t[..i])
      {
        NextIsEntry(disk.raw, i);
        FreeEntriesStep(t, i);
        var e := NextClusterInFile(disk.raw, i);
        if e == Ok(0) {
          count := count + 1;
        }
        i := i + 1;
      }
      assert t[..|t|] == t;
    }

    /** `WriteToImage`: stores the table in every copy, and the info sector with its new counts.
        Where the scan for a free cluster leaves the table it throws, and the info sector stays. */
    method WriteToImage(info: seq<byte>) returns (ok: bool)
      requires Valid() && Mounted(super, area, disk) && |info| == FsInfo.SIZE
      modifies this`disk
      ensures disk.raw == old(disk.raw) && Mounted(super, area, disk)
      ensures ok <==> FirstFree(Table(disk.raw), area.count).Ok?
      ensures disk.img == WrittenImage(super, area, old(disk), if ok then Some(NewInfo(area, disk.raw, info)) else None)
      ensures HasCopies(disk.img, FatStart(super), disk.raw, super.numFats)
      ensures ok ==> InfoRecords(disk.img, super.fsInfoIndex * super.bytesPerSector, info, Table(disk.raw), area.count)
    {
      CopiesFit(super, area, disk);
      var img := WriteCopies(disk.img, FatStart(super), disk.raw, super.numFats);
      var next := FindFreeCluster();
      if next.Throws? {
        disk := disk.(img := img);
        MountedKept(super, area, old(disk), disk);
        WrittenImageMeans(super, area, old(disk), None);
        return false;
      }
      var free := NumFreeClusters();
      var counts := FsInfo.WithCounts(info, next.value, free);
      assert counts == NewInfo(area, disk.raw, info);
      disk := disk.(img := Overwrite(img, InfoStart(super), counts));
      MountedKept(super, area, old(disk), disk);
      WrittenImageMeans(super, area, old(disk), Some(counts));
      InfoIs(super, area, disk.raw, img, info);
      return true;
    }
  }

  /** The info sector that records the first free cluster and the number of free entries. */
  ghost function NewInfo(l: Area, raw: seq<byte>, info: seq<byte>): (r: seq<byte>)
    requires |info| == FsInfo.SIZE && |raw| < U32_LIMIT && l.count < U32_LIMIT
    ensures |r| == FsInfo.SIZE
  {
    FsInfo.WithCounts(info, NextFree(Table(raw), l.count), FreeEntries(Table(raw)))
  }

  /** The cluster recorded as the next free one. */
  function NextFree(t: seq<int>, limit: nat): u32
    requires limit < U32_LIMIT
  {
    match FirstFree(t, limit)
    case Throws => NO_CLUSTER
    case Ok(None) => NO_CLUSTER
    case Ok(Some(c)) => c
  }

  /** The sector at `at` is `info` with the number of free entries of the table, and the first free
      cluster, or 0xFFFFFFF8 if there is none. */
  ghost predicate InfoRecords(img: seq<byte>, at: nat, info: seq<byte>, t: seq<int>, limit: nat) {
    exists next {:trigger FsInfo.HasCounts(img, at, info, |FreeSet(t)|, next)} ::
      && FsInfo.HasCounts(img, at, info, |FreeSet(t)|, next)
      && (if next == 0xFFFF_FFF8 then forall e :: 0 <= e < limit && e < |t| ==> t[e] != 0
          else 0 <= next < limit && next < |t| && t[next] == 0 && forall e :: 0 <= e < next ==> t[e] != 0)
  }

  lemma InfoIs(s: Super, l: Area, raw: seq<byte>, img: seq<byte>, info: seq<byte>)
    requires |info| == FsInfo.SIZE && |raw| < U32_LIMIT && l.count < 0x0080_0000
    requires InfoStart(s) + FsInfo.SIZE <= |img| && FirstFree(Table(raw), l.count).Ok?
    ensures
      var now := Overwrite(img, InfoStart(s), NewInfo(l, raw, info));
      InfoRecords(now, s.fsInfoIndex * s.bytesPerSector, info, Table(raw), l.count)
  {
    var next, free := NextFree(Table(raw), l.count), FreeEntries(Table(raw));
    FreeEntriesAre(Table(raw));
    FsInfo.CountsWritten(img, InfoStart(s), info, next, free);
    NextFreeIs(Table(raw), l.count);
  }

  lemma NextFreeIs(t: seq<int>, limit: nat)
    requires limit < 0x0080_0000 && FirstFree(t, limit).Ok?
    ensures
      var next := NextFree(t, limit);
      if next == 0xFFFF_FFF8 then forall e :: 0 <= e < limit && e < |t| ==> t[e] != 0
      else 0 <= next < limit && next < |t| && t[next] == 0 && forall e :: 0 <= e < next ==> t[e] != 0
  {
  }

  /** `LoadFromImage`: the table in memory is the first copy on disk.  It throws exactly where
      the info sector lies outside the reserved area or lacks its signatures. */
  method LoadFromImage(super: Super, img: seq<byte>, ghost chains: seq<Chain>) returns (vol: Volume?)
    requires super.Describes(|img|) && 0 < super.numFats && Holds(Table(FirstTable(super, img)), chains, super.DataArea())
    ensures vol == null <==>
      var at := super.fsInfoIndex * super.bytesPerSector;
      || super.fsInfoIndex >= super.reservedSectors || at + 512 > |img|
      || WordAt(img, at) != 0x4161_5252 || WordAt(img, at + 484) != 0x6141_7272 || WordAt(img, at + 508) != 0xAA55_0000
    ensures vol != null ==>
      && fresh(vol) && vol.Valid() && vol.super == super && Mounted(super, vol.area, vol.disk)
      && vol.disk.img == img && vol.files == Files(chains)
    // the table is what the first copy on disk is
    ensures vol != null ==>
      var from, n := super.reservedSectors * super.bytesPerSector, super.sectorsPerFat * super.bytesPerSector;
      from + n <= |img| && vol.disk.raw == img[from..from + n]
  {
    TableFits(super, |img|);
    GoodInfoMeans(super, img);
    var ok := CheckInfo(super, img);
    if !ok {
      return null;
    }
    LoadedMounted(super, img);
    vol := new Volume(super, img, chains);
  }

  method CheckInfo(super: Super, img: seq<byte>) returns (ok: bool)
    ensures ok <==> GoodInfo(super, img)
  {
    if super.fsInfoIndex >= super.reservedSectors {
      return false;
    }
    var at := InfoStart(super);
    if at + FsInfo.SIZE > |img| {
      return false;
    }
    return FsInfo.IsValid(img[at..at + FsInfo.SIZE]);
  }

  method WriteCopies(img: seq<byte>, start: nat, raw: seq<byte>, n: nat) returns (r: seq<byte>)
    requires start + Span(n, |raw|) <= |img|
    ensures r == Copied(img, start, raw, n)
  {
    r := img;
    var i, offset := 0, start;
    while i < n
      invariant 0 <= i <= n && offset == start + Span(i, |raw|) <= |img| && r == Copied(img, start, raw, i)
    {
      SpanMono(i, n, |raw|);
      r := Overwrite(r, offset, raw);
      offset := offset + |raw|;
      i := i + 1;
    }
  }
}
