/** The boot loader's `FatFs`, with its one-sector and one-cluster windows. */
module Loader {
  import opened Bytes
  import opened FatSuper
  import opened FatChains
  import opened LoaderSpec

  class FatFs {
    const disk: seq<byte>
    const super: Super
    /** The sector loads that fail, counted from 0. */
    const faults: set<nat>
    var loads: nat
    var cache: Cache

    ghost predicate Valid()
      reads this
    {
      super.sectorsPerCluster > 0 && Shaped(super, cache)
    }

    /** The loads from number a to number b all worked. */
    ghost predicate Quiet(a: nat, b: nat) {
      forall i :: a <= i < b ==> i !in faults
    }

    constructor (disk: seq<byte>, super: Super, faults: set<nat>, fatWindow: seq<byte>, dataWindow: seq<byte>)
      requires super.sectorsPerCluster > 0 && |fatWindow| == SECTOR && |dataWindow| == ClusterSize(super)
      ensures Valid() && Coherent(disk, super, cache) && loads == 0
      ensures this.disk == disk && this.super == super && this.faults == faults
    {
      this.disk := disk;
      this.super := super;
      this.faults := faults;
      loads := 0;
      cache := Cache(fatWindow, dataWindow, NOTHING, NOTHING);
    }

    /** `IBlockDevice::LoadSector`; a failed load leaves the buffer alone. */
    method LoadSector(lba: u32) returns (r: Option<seq<byte>>)
      modifies this`loads
      ensures loads == old(loads) + 1
      ensures r == if old(loads) in faults then None else Sector(disk, lba)
    {
      r := if loads in faults then None else Sector(disk, lba);
      loads := loads + 1;
    }

    method LoadDataCluster(index: u32) returns (ok: bool)
      requires Valid()
      modifies this`loads, this`cache
      ensures Valid() && old(loads) <= loads
      ensures cache.fatSector == old(cache).fatSector && cache.fatWindow == old(cache).fatWindow
      ensures ok && old(Coherent(disk, super, cache)) && index != NOTHING ==>
        && Coherent(disk, super, cache) && cache.dataCluster == index
        && Cluster(disk, super, index) == Some(cache.dataWindow)
      ensures !ok && Quiet(old(loads), loads) ==> Cluster(disk, super, index).None?
      ensures !ok ==>
        HalfLoaded(disk, super, index, old(cache), cache, if loads == old(loads) then 0 else loads - old(loads) - 1)
    {
      if index < 2 {
        assert Overlay(cache.dataWindow, []) == cache.dataWindow;
        return false;
      }
      if index == cache.dataCluster {
        return true;
      }
      ghost var i, head;
      ok, i, head := FillWindow(super.ClusterIndex2Sector(index));
      if ok {
        cache := cache.(dataCluster := index);
      }
    }

    /** The loop over the sectors of a cluster: the first i, which are `head`, are in the window. */
    method FillWindow(lba: u32) returns (ok: bool, ghost i: nat, ghost head: seq<byte>)
      requires Valid()
      modifies this`loads, this`cache
      ensures i <= super.sectorsPerCluster && Sectors(disk, lba, i) == Some(head) && |head| <= |old(cache).dataWindow|
      ensures cache == old(cache).(dataWindow := Overlay(old(cache).dataWindow, head))
      ensures ok ==> i == super.sectorsPerCluster && cache.dataWindow == head && old(loads) <= loads
      ensures !ok ==> loads == old(loads) + i + 1
      ensures !ok && Quiet(old(loads), loads) ==> Sectors(disk, lba, super.sectorsPerCluster).None?
    {
      ghost var was := cache;
      var n := 0;
      i, head := 0, [];
      assert Overlay(was.dataWindow, []) == was.dataWindow;
      while n < super.sectorsPerCluster
        invariant 0 <= n == i <= super.sectorsPerCluster && loads == old(loads) + i
        invariant Sectors(disk, lba, i) == Some(head) && cache == was.(dataWindow := Overlay(was.dataWindow, head))
      {
        var r := LoadSector((lba + n) % U32_LIMIT);
        if r.None? {
          SectorsFail(disk, lba, n, super.sectorsPerCluster);
          return false, i, head;
        }
        OverlayStep(was.dataWindow, head, r.value);
        var w := cache.dataWindow;
        cache := cache.(dataWindow := w[..SECTOR * n] + r.value + w[SECTOR * n + SECTOR..]);
        i, head := i + 1, head + r.value;
        n := n + 1;
      }
      assert cache.dataWindow == head;
      return true, i, head;
    }

    method LoadFatSector(index: u32) returns (ok: bool)
      requires Valid()
      modifies this`loads, this`cache
      ensures Valid() && old(loads) <= loads
      ensures cache.dataCluster == old(cache).dataCluster && cache.dataWindow == old(cache).dataWindow
      ensures !ok ==> cache == old(cache)
      ensures ok && old(Coherent(disk, super, cache)) && index != NOTHING ==>
        Coherent(disk, super, cache) && FatSector(disk, super, index) == Some(cache.fatWindow)
      ensures !ok && Quiet(old(loads), loads) ==> FatSector(disk, super, index).None?
    {
      if index >= super.sectorsPerFat {
        return false;
      }
      if index != cache.fatSector {
        var r := LoadSector((super.reservedSectors + index) % U32_LIMIT);
        if r.None? {
          return false;
        }
        cache := cache.(fatWindow := r.value, fatSector := index);
      }
      return true;
    }

    method ReadFatIndex(index: u32) returns (ok: bool, out: u32)
      requires Valid()
      modifies this`loads, this`cache
      ensures Valid() && old(loads) <= loads
      ensures cache.dataCluster == old(cache).dataCluster && cache.dataWindow == old(cache).dataWindow
      ensures !ok ==> cache == old(cache)
      ensures ok && old(Coherent(disk, super, cache)) ==>
        Coherent(disk, super, cache) && FatIndex(disk, super, index) == Some(out)
      ensures !ok && Quiet(old(loads), loads) ==> FatIndex(disk, super, index).None?
    {
      EntryPlace(index);
      var sector := (index * 4) % U32_LIMIT / SECTOR;
      var offset := (index * 4) % U32_LIMIT % SECTOR;
      out := 0;
      ok := LoadFatSector(sector);
      if ok {
        out := WordAt(cache.fatWindow, offset);
      }
    }

    /** One round of the loop in `ReadAt`. */
    method ReadRound(cluster: u32, offset: u32, size: u32)
      returns (ok: bool, piece: seq<byte>, next: u32, offset': u32, size': u32)
      requires Valid() && size > 0 && cluster < LOADER_STOP
      modifies this`loads, this`cache
      ensures Valid() && old(loads) <= loads
      ensures |piece| + size' == size && offset' + size' < offset + size
      ensures ok && old(Coherent(disk, super, cache)) ==>
        && Coherent(disk, super, cache)
        && Read(disk, super, cluster, offset, size) == Prepend(piece, Read(disk, super, next, offset', size'))
      ensures !ok && old(Coherent(disk, super, cache)) && Quiet(old(loads), loads) ==>
        Read(disk, super, cluster, offset, size).None?
    {
      var m := SECTOR * super.sectorsPerCluster;
      next := cluster;
      if offset < m {
        ok := LoadDataCluster(cluster);
        var diff := Min(m - offset, size);
        piece := cache.dataWindow[offset..offset + diff];
        offset', size' := 0, size - diff;
        PrependEnds(piece, None);
      } else {
        ok := true;
        piece, offset', size' := [], offset - m, size;
        PrependEnds([], Read(disk, super, cluster, offset, size));
      }
      if ok && size' > 0 {
        ok, next := ReadFatIndex(cluster);
        if ok { PrependEnds([], Read(disk, super, next, offset', size')); }
      }
    }

    /** Reads at most `size` bytes of a file; -1 if a load fails. */
    method ReadAt(f: FatFile, offset: u32, size: u32) returns (ret: int, buffer: seq<byte>, ghost ok: bool)
      requires Valid()
      modifies this`loads, this`cache
      ensures Valid() && old(loads) <= loads
      // the count is the number of bytes, in 32 bits with a sign
      ensures ok ==> |buffer| < U32_LIMIT && ret == if |buffer| < 0x8000_0000 then |buffer| else |buffer| - 0x1_0000_0000
      ensures !ok ==> ret == -1
      // whatever was cached before, the bytes are those on disk
      ensures ok && old(Coherent(disk, super, cache)) ==>
        Coherent(disk, super, cache) && ReadFile(disk, super, f, offset, size) == Some(buffer)
      ensures !ok && old(Coherent(disk, super, cache)) && Quiet(old(loads), loads) ==>
        ReadFile(disk, super, f, offset, size).None?
    {
      var want: u32, off: u32 := size, offset;
      buffer, ok := [], true;
      if f.size > 0 {
        if offset >= f.size {
          return 0, buffer, ok;
        }
        if want > f.size - offset {
          want := f.size - offset;
        }
      }
      var cluster: u32 := f.cluster;
      ghost var all, total := ReadFile(disk, super, f, offset, size), want;
      PrependEnds([], all);
      while want > 0 && cluster < LOADER_STOP
        invariant Valid() && old(loads) <= loads && |buffer| + want == total
        invariant old(Coherent(disk, super, cache)) ==>
          Coherent(disk, super, cache) && all == Prepend(buffer, Read(disk, super, cluster, off, want))
        decreases off + want
      {
        var good, piece, next, off', want' := ReadRound(cluster, off, want);
        if !good {
          return -1, buffer, false;
        }
        PrependTwice(buffer, piece, Read(disk, super, next, off', want'));
        buffer, cluster, off, want := buffer + piece, next, off', want';
      }
      PrependEnds(buffer, all);
      return AsInt32(|buffer|), buffer, true;
    }
  }
}
