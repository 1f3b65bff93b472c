/** From files handed to fatedit to a kernel in memory. */
module BootChain {
  import opened Bytes
  import opened FatCopies
  import opened Volume
  import opened ShortName
  import opened Paths
  import opened Lookup
  import opened LoaderSpec
  import opened Loader
  import opened LoaderFind
  import opened LoaderPath
  import opened Multiboot
  import opened KernelFile
  import opened KernelBoot
  import opened PackCommand
  import opened PackLedger
  import opened PackRun

  const SLASH: byte := 0x2F

  /** A short name holds no separator. */
  lemma NameIsComponent(name: seq<byte>)
    requires IsShort(name)
    ensures IsComponent(name)
  {
    if p: nat :| SplitsAt(name, p) {
      assert forall i :: 0 <= i < |name| ==>
        name[i] == if i < p then name[..p][i] else if i == p then DOT else name[p + 1..][i - p - 1];
    }
  }

  /** The path of a file in the root directory. */
  lemma RootPath(name: seq<byte>)
    requires IsShort(name)
    ensures Components([SLASH] + name) == [name]
  {
    NameIsComponent(name);
    SingleComponent(name);
    assert ([SLASH] + name)[1..] == name;
  }

  /** A file that the loader finds in the root directory is what its path leads to. */
  lemma PathLeads(fs: FatFs, e: StoredFile, junk: nat -> Junk, n: nat)
    requires fs.super.sectorsPerCluster > 0 && BootsTo(fs.disk, fs.super, fs.super.rootDirIndex, n, e)
    ensures
      var found := Walk(fs.disk, fs.super, RootDir(fs.super), Components([SLASH] + e.name), junk, 0, n);
      found.Some? && found.value.Located? && LeadsTo(fs, found, e.data)
  {
    var disk, s, data := fs.disk, fs.super, e.data;
    RootPath(e.name);
    WalkOne(disk, s, RootDir(s), e.name, junk, n);
    assert ReadsBack(disk, s, s.rootDirIndex, n, e, junk(0), 0, 0);
    var g := LookUp(disk, s, s.rootDirIndex, e.name, junk(0), 0, n).value.file;
    forall offset: u32, size: u32 | 0 < |data|
      ensures ReadFile(disk, s, g, offset, size) == Some(FileRead(data, offset, size))
    {
      assert ReadsBack(disk, s, s.rootDirIndex, n, e, junk(0), offset, size);
      FileReadIs(data, offset, size);
    }
  }

  lemma FileReadIs(data: seq<byte>, offset: u32, size: u32)
    ensures FileRead(data, offset, size) == data[Min(offset, |data|)..Min(offset + size, |data|)]
  {
  }

  /** Packs files into the root directory, writes the tables back, boots, and gives the command
      `multiboot /NAME` for one of them.  The ledger before the session foretells whether that file
      is packed and whether an exception ends the session.  If it was packed and none did, the
      kernel is in memory, unless the file is no kernel that can be loaded. */
  method PackAndLoadKernel(
      vol: Volume, jobs: seq<Job>, which: nat, info: seq<byte>, fatWindow: seq<byte>, dataWindow: seq<byte>,
      junk: nat -> Junk, stale: seq<byte>, mem: array<byte>, buf: nat, ghost k: nat, ghost was: seq<byte>,
      ghost before: seq<StoredFile>)
    returns (results: seq<PackResult>, threw: bool, ok: bool, entry: u32, ghost p: nat)
    requires vol.Valid() && Mounted(vol.super, vol.area, vol.disk)
    requires Held(vol.super, vol.area, vol.disk, vol.files, k, was, before)
    requires k < |vol.files.chains| && vol.files.chains[k][0] == vol.super.rootDirIndex
    requires vol.super.bytesPerSector == SECTOR && 0 < vol.super.numFats
    requires |info| == 512 && |fatWindow| == SECTOR && |dataWindow| == ClusterSize(vol.super) && |stale| == HEADER
    requires mem.Length <= U32_LIMIT && buf + CHUNK <= mem.Length
    requires which < |jobs| && Survives(jobs[which].name) && Loadable(Flatten(jobs[which].chunks), mem.Length, buf)
    modifies vol`disk, vol`files, mem
    ensures Kinds(results) ==
      Predict(old(LedgerOf(vol.super, vol.area, vol.disk, vol.files, k)), vol.area.clusterSize, jobs)
    ensures threw <==> results != [] && results[|results| - 1].Threw?
    ensures !threw ==> |results| == |jobs|
    ensures !threw && results[which].Packed? ==>
      var data := Flatten(jobs[which].chunks);
      if ok then IsFirst(data, p) && Booted(data, p, old(mem[..]), mem[..], buf, entry) else Unsuitable(data)
  {
    ok, entry, p := false, 0, 0;
    ghost var run, n;
    results, threw, run, n := Session(vol, vol.super.rootDirIndex, jobs, info, k, was, before);
    if threw {
      return;
    }
    if !results[which].Packed? {
      return;
    }
    ghost var data := Flatten(jobs[which].chunks);
    ghost var j := FileOf(jobs[which], results[which].first, run.files);
    var fs := new FatFs(vol.disk.img, vol.super, {}, fatWindow, dataWindow);
    PathLeads(fs, run.files[j], junk, n);
    ok, entry, p := CmdMultiboot(fs, [SLASH] + jobs[which].name, junk, stale, mem, buf, n, data);
  }

  lemma FileOf(job: Job, first: u32, files: seq<StoredFile>) returns (j: nat)
    requires HasFile(job, first, files)
    ensures j < |files| && files[j].name == job.name && files[j].data == Flatten(job.chunks)
  {
    j :| 0 <= j < |files| && files[j].name == job.name && files[j].first == first && files[j].data == Flatten(job.chunks);
  }
}
