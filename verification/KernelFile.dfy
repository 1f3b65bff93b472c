/** A kernel file that stage 2 reads through the loader. */
module KernelFile {
  import opened Bytes
  import opened Multiboot
  import opened LoaderSpec
  import opened Loader

  /** The size of the buffer that stage 2 reads kernels through. */
  const CHUNK := 1024

  /** The loader is in order, and `data` is what reading the file delivers. */
  ghost predicate Serving(fs: FatFs, f: FatFile, data: seq<byte>)
    reads fs
  {
    var serving :=
      && fs.Valid() && Coherent(fs.disk, fs.super, fs.cache) && f.size == |data|
      && (0 < |data| ==> Delivers(fs, f, data));
    serving
  }

  ghost predicate Delivers(fs: FatFs, f: FatFile, data: seq<byte>)
    requires fs.super.sectorsPerCluster > 0
  {
    forall off: u32, n: u32 {:trigger ReadFile(fs.disk, fs.super, f, off, n)} ::
      ReadFile(fs.disk, fs.super, f, off, n) == Some(FileRead(data, off, n))
  }

  /** One read from the file; it only fails if the loader could not load a sector. */
  method ReadKernel(fs: FatFs, f: FatFile, off: u32, n: u32, ghost data: seq<byte>) returns (ok: bool, bytes: seq<byte>)
    requires Serving(fs, f, data) && 0 < |data| && n < 0x8000_0000
    modifies fs`loads, fs`cache
    ensures old(fs.loads) <= fs.loads
    ensures if ok then Serving(fs, f, data) else !fs.Quiet(old(fs.loads), fs.loads)
    ensures ok ==> bytes == FileRead(data, off, n)
  {
    var ret;
    ghost var good;
    assert ReadFile(fs.disk, fs.super, f, off, n) == Some(FileRead(data, off, n));
    ret, bytes, good := fs.ReadAt(f, off, n);
    ok := ret >= 0;
  }
}
