/** The `multiboot` command of the boot script: find the kernel, find its header, load it. */
module KernelBoot {
  import opened Bytes
  import opened Paths
  import opened Lookup
  import opened LoaderSpec
  import opened Loader
  import opened LoaderFind
  import opened LoaderPath
  import opened Multiboot
  import opened KernelFile
  import opened HeaderSearch
  import opened KernelLoad

  predicate WantsVideo(h: Header) { h.flags / 0x4 % 2 == 1 }

  predicate HasLayout(h: Header) { h.flags / 0x1_0000 % 2 == 1 }

  /** The header at p, which the file has whole. */
  function HeaderOf(data: seq<byte>, p: nat): Header
    requires p + HEADER <= |data|
  {
    Parse(data[p..p + HEADER])
  }

  /** Every aligned magic word starts a whole header, and what the first valid one asks for fits
      memory. */
  ghost predicate Loadable(data: seq<byte>, len: nat, buf: nat) {
    && |data| < U32_LIMIT
    && (forall p: nat :: p % 4 == 0 && MagicAt(data, p) ==> p + HEADER <= |data|)
    && (forall p: nat :: IsFirst(data, p) ==> FitsAt(data, p, len, buf))
  }

  ghost predicate FitsAt(data: seq<byte>, p: nat, len: nat, buf: nat) {
    p + HEADER <= |data| < U32_LIMIT && FitsMemory(HeaderOf(data, p), p, |data|, len, buf)
  }

  /** p is the first header of the file. */
  ghost predicate IsFirst(data: seq<byte>, p: nat) {
    p % 4 == 0 && ValidAt(data, p) && forall q: nat :: q < p && q % 4 == 0 ==> !ValidAt(data, q)
  }

  /** The command cannot load the kernel: the searched part has no header, or its header wants a
      video mode, has no layout, or one that does not fit the file. */
  ghost predicate Unsuitable(data: seq<byte>) {
    || (forall p: nat :: p < |data| && p < MAX_SEARCH && p % 4 == 0 ==> !ValidAt(data, p))
    || exists p: nat :: IsFirst(data, p) && BadHeader(data, p)
  }

  ghost predicate BadHeader(data: seq<byte>, p: nat) {
    p + HEADER <= |data| < U32_LIMIT && !WordsFit(data, p)
  }

  /** What the words of the file say of the kernel whose header is at p: it wants no video mode, has
      a layout, and its addresses are in order. */
  predicate WordsFit(data: seq<byte>, p: nat)
    requires p + HEADER <= |data|
  {
    && WordAt(data, p + 4) / 4 % 2 == 0 && WordAt(data, p + 4) / 0x1_0000 % 2 == 1
    && InOrder(p, |data|, WordAt(data, p + 12), WordAt(data, p + 16), WordAt(data, p + 20), WordAt(data, p + 24),
               WordAt(data, p + 28))
  }

  /** Memory holds the kernel whose header is at p, by the words of the file: from the load address
      on the copied bytes, then zeros for the BSS, and all else but the transfer buffer as it was. */
  ghost predicate Booted(data: seq<byte>, p: nat, was: seq<byte>, now: seq<byte>, buf: nat, entry: int) {
    && p + HEADER <= |data| < U32_LIMIT && WordsFit(data, p) && entry == WordAt(data, p + 28)
    && LoadedBy(was, now, buf, data, p, WordAt(data, p + 12), WordAt(data, p + 16), WordAt(data, p + 20), WordAt(data, p + 24))
  }

  /** The words of the file that make up the header. */
  lemma HeaderWords(data: seq<byte>, p: nat)
    requires p + HEADER <= |data|
    ensures
      var h := HeaderOf(data, p);
      && h.magic == WordAt(data, p) && h.flags == WordAt(data, p + 4) && h.checksum == WordAt(data, p + 8)
      && h.hdrAddr == WordAt(data, p + 12) && h.loadAddr == WordAt(data, p + 16) && h.loadEndAddr == WordAt(data, p + 20)
      && h.bssEndAddr == WordAt(data, p + 24) && h.entryAddr == WordAt(data, p + 28)
  {
    var s := data[p..p + HEADER];
    forall o: nat | o + 4 <= HEADER ensures WordAt(s, o) == WordAt(data, p + o) {
      assert s[o] == data[p + o] && s[o + 1] == data[p + o + 1] && s[o + 2] == data[p + o + 2] && s[o + 3] == data[p + o + 3];
    }
  }

  lemma WholeHeader(data: seq<byte>, p: nat, hdr: seq<byte>, len: nat, buf: nat)
    requires Loadable(data, len, buf) && IsFirst(data, p) && ReadAtPlace(data, p, hdr)
    ensures FitsAt(data, p, len, buf) && Parse(hdr) == HeaderOf(data, p)
  {
    var stale: seq<byte> :| |stale| == HEADER && hdr == ReadHeader(data, p, stale);
    assert FileRead(data, p, HEADER) == data[p..p + HEADER];
    assert hdr == data[p..p + HEADER];
  }

  lemma LoadableComplete(data: seq<byte>, len: nat, buf: nat)
    requires Loadable(data, len, buf)
    ensures Complete(data)
  {
  }

  /** The part behind `FindByPath`: header, flags, loading. */
  method LoadKernelFile(fs: FatFs, f: FatFile, stale: seq<byte>, mem: array<byte>, buf: nat, ghost data: seq<byte>)
    returns (ok: bool, entry: u32, ghost p: nat)
    requires Serving(fs, f, data) && |stale| == HEADER && Loadable(data, mem.Length, buf)
    requires mem.Length <= U32_LIMIT && buf + CHUNK <= mem.Length
    modifies fs`loads, fs`cache, mem
    ensures old(fs.loads) <= fs.loads
    ensures ok ==> IsFirst(data, p) && Booted(data, p, old(mem[..]), mem[..], buf, entry)
    ensures !ok && fs.Quiet(old(fs.loads), fs.loads) ==> Unsuitable(data)
  {
    entry, p := 0, 0;
    LoadableComplete(data, mem.Length, buf);
    var offset, bytes;
    ok, offset, bytes := MBFindHeader(fs, f, stale, data);
    if !ok {
      return;
    }
    p := offset;
    assert IsFirst(data, p);
    WholeHeader(data, p, bytes, mem.Length, buf);
    ghost var mid := fs.loads;
    ok, entry := LoadFound(fs, f, Parse(bytes), offset, mem, buf, data);
    assert fs.Quiet(old(fs.loads), fs.loads) ==> fs.Quiet(mid, fs.loads);
  }

  /** The flags of the header that was found, and loading. */
  method LoadFound(fs: FatFs, f: FatFile, hdr: Header, offset: u32, mem: array<byte>, buf: nat, ghost data: seq<byte>)
    returns (ok: bool, entry: u32)
    requires Serving(fs, f, data) && FitsAt(data, offset, mem.Length, buf) && hdr == HeaderOf(data, offset)
    requires mem.Length <= U32_LIMIT && buf + CHUNK <= mem.Length
    modifies fs`loads, fs`cache, mem
    ensures old(fs.loads) <= fs.loads
    ensures ok ==> Booted(data, offset, old(mem[..]), mem[..], buf, entry)
    ensures !ok && fs.Quiet(old(fs.loads), fs.loads) ==> BadHeader(data, offset)
  {
    entry := 0;
    HeaderWords(data, offset);
    if WantsVideo(hdr) || !HasLayout(hdr) {
      return false, entry;
    }
    ok := MBLoadKernel(fs, f, hdr, offset, mem, buf, data);
    if ok {
      entry := hdr.entryAddr;
    }
  }

  /** What the path leads to, if it leads to a file, is `data`. */
  ghost predicate LeadsTo(fs: FatFs, found: Option<FindResult>, data: seq<byte>)
    requires fs.super.sectorsPerCluster > 0
  {
    match found
    case Some(Located(f)) => f.size == |data| && (0 < |data| ==> Delivers(fs, f, data))
    case _ => true
  }

  /** The kernel whose header comes first in the file is in memory, or there is a reason: a failed
      load, a path that leads nowhere, or a file that cannot be loaded. */
  method CmdMultiboot(
      fs: FatFs, path: seq<byte>, junk: nat -> Junk, stale: seq<byte>, mem: array<byte>, buf: nat,
      ghost n: nat, ghost data: seq<byte>)
    returns (ok: bool, entry: u32, ghost p: nat)
    requires fs.Valid() && Coherent(fs.disk, fs.super, fs.cache) && |stale| == HEADER
    requires Walk(fs.disk, fs.super, RootDir(fs.super), Components(path), junk, 0, n).Some?
    requires LeadsTo(fs, Walk(fs.disk, fs.super, RootDir(fs.super), Components(path), junk, 0, n), data)
    requires mem.Length <= U32_LIMIT && buf + CHUNK <= mem.Length && Loadable(data, mem.Length, buf)
    modifies fs`loads, fs`cache, mem
    ensures old(fs.loads) <= fs.loads
    ensures ok ==> IsFirst(data, p) && Booted(data, p, old(mem[..]), mem[..], buf, entry)
    ensures !ok && fs.Quiet(old(fs.loads), fs.loads) ==>
      || !Walk(fs.disk, fs.super, RootDir(fs.super), Components(path), junk, 0, n).value.Located?
      || Unsuitable(data)
  {
    entry, p := 0, 0;
    var found := FindByPath(fs, path, junk, n);
    if !found.Located? {
      return false, entry, p;
    }
    ghost var mid := fs.loads;
    ok, entry, p := LoadKernelFile(fs, found.file, stale, mem, buf, data);
    assert fs.Quiet(old(fs.loads), fs.loads) ==> fs.Quiet(mid, fs.loads);
  }

  /** A file stops the command exactly if its first 8 KiB have no header, or if the words of the first
      one do not fit. */
  lemma UnsuitableMeans(data: seq<byte>, p: nat)
    requires IsFirst(data, p) && p + HEADER <= |data| < U32_LIMIT
    ensures Unsuitable(data) <==> 8192 <= p || !WordsFit(data, p)
  {
    assert forall q: nat :: IsFirst(data, q) ==> q == p;
  }

  /** If exactly the right number of bytes was copied, text and data lie where the words of the file
      say, the BSS behind them is zero, and all other memory but the transfer buffer is as it was. */
  lemma BootedInPlace(data: seq<byte>, p: nat, was: seq<byte>, now: seq<byte>, buf: nat, entry: int)
    requires Booted(data, p, was, now, buf, entry)
    requires
      var count := WordAt(data, p + 20) - WordAt(data, p + 16);
      Copied(p - (WordAt(data, p + 12) - WordAt(data, p + 16)), count, |data|) == count
    ensures
      KernelAt(data, p, was, now, buf, WordAt(data, p + 12), WordAt(data, p + 16), WordAt(data, p + 20), WordAt(data, p + 24))
  {
  }
}
