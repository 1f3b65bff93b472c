/** A kernel that fatedit stored is served to stage 2. */
module KernelStored {
  import opened Bytes
  import opened FatChains
  import opened LoaderSpec
  import opened Loader
  import opened Agreement
  import opened Multiboot
  import opened KernelFile

  /** The file that starts a chain on disk is what the searches and loads of stage 2 read. */
  lemma StoredFileServes(fs: FatFs, raw: seq<byte>, ch: Chain, data: seq<byte>, f: FatFile)
    requires fs.Valid() && Coherent(fs.disk, fs.super, fs.cache)
    requires ChainOnDisk(fs.super, fs.disk, raw, ch) && data <= Stores(fs.super, fs.disk, raw, ch)
    requires f.cluster == ch[0] && 0 < f.size == |data|
    ensures Serving(fs, f, data)
  {
    forall off: u32, n: u32 ensures ReadFile(fs.disk, fs.super, f, off, n) == Some(FileRead(data, off, n)) {
      LoaderReadsFile(fs.super, fs.disk, raw, ch, data, f, off, n);
      assert FileRead(data, off, n) == data[Min(off, |data|)..Min(off + n, |data|)];
    }
  }
}
