/** Inputs at which the code does not do what one would expect; the exact conditions are proved
    where the code is modelled. */
module Surprises {
  import opened Bytes
  import opened FatSuper
  import opened FatChains
  import opened FatRaw
  import opened FatAppend
  import opened ShortName
  import opened Dirent
  import opened Lookup
  import opened LoaderSpec
  import opened LoaderFind
  import opened LoaderLoops
  import opened Agreement
  import HeapBlocks
  import Multiboot
  import KernelLoad
  import DiskGeometry
  import Stage2

  /** A request within three bytes of the 32-bit limit is granted the smallest block. */
  lemma HugeRequestGranted()
    ensures
      var bs := HeapBlocks.Initial(1, 100);
      && HeapBlocks.BestFit(bs, HeapBlocks.Words(0xFFFF_FFFD)) == Some(0)
      && HeapBlocks.Reserve(bs, 0, HeapBlocks.Words(0xFFFF_FFFD))[0].size == 0
  {
    var bs := HeapBlocks.Initial(1, 100);
    HeapBlocks.BestFitUnique(bs, HeapBlocks.Words(0xFFFF_FFFD), 0);
  }

  /** On a volume of nine million sectors cluster 8388607 lies at 4 GiB, and is sought at 0. */
  lemma FarClusterLost()
    ensures
      var s := Super(512, 1, 2, 1, 9_000_000, 1, 2, 1);
      s.ClusterFileOffset(0x007F_FFFF) == 0 && s.DataArea().Pos(0x007F_FFFF) == U32_LIMIT
  {
    SpanIsProduct(0x007F_FFFF - 2, 512);
  }

  /** With a free reserved entry the allocator hands out entry 0, which is no cluster. */
  lemma ReservedEntryTaken(t: seq<int>, limit: nat)
    requires 0 < |t| && t[0] == 0 && 0 < limit
    ensures FirstFree(t, limit) == Ok(Some(0))
  {
  }

  /** With 512-byte clusters the sixteenth entry fills one: the chain is then a cluster longer than
      the 512 bytes in use. */
  lemma SixteenthEntry(a: nat, b: nat)
    ensures
      var l := Area(0, 512, 2);
      ChainMatches(l, [a, b], 480 + 2 * RECORD) && !ChainMatches(l, [a, b], 480 + RECORD)
  {
    var l := Area(0, 512, 2);
    assert Span(1, 512) == 512 && Span(2, 512) == 1024;
  }

  /** A name may start with a space, but comes back as no name at all. */
  lemma SpaceInFront()
    ensures IsShort([SPACE, 0x41]) && DecodeName(EncodeName([SPACE, 0x41])).None?
  {
    var name := [SPACE, 0x41];
    assert IsPart(name, 8);
    assert FindDot(name) == 2 by { assert name[0] != DOT && name[1] != DOT; }
    assert EncodeName(name)[0] == SPACE;
  }

  /** Reading one byte of an empty file returns one. */
  lemma EmptyFileHasByte(s: Super, disk: seq<byte>, raw: seq<byte>, ch: Chain, f: FatFile)
    requires ChainOnDisk(s, disk, raw, ch) && f.cluster == ch[0] && f.size == 0
    ensures s.sectorsPerCluster > 0 && ReadFile(disk, s, f, 0, 1) != Some([])
  {
    EmptyFileReadsGarbage(s, disk, raw, ch, f, 0, 1);
    SpanMono(0, |ch|, s.DataArea().clusterSize);
  }

  /** An entry with a bit above the 28 is a link for fatedit, and an end mark for the loader. */
  lemma TopBitEndsChain()
    ensures
      var raw: seq<byte> := [3, 0, 0, 0x10];
      Table(raw)[0] == 3 && IsLink(Table(raw)[0]) && RawEntry(raw, 0) >= LOADER_STOP
  {
    TableAt([3, 0, 0, 0x10], 0);
  }

  /** An entry below fatedit's end mark is a link for fatedit, and an end mark for the loader. */
  lemma EarlyStop()
    ensures
      var raw: seq<byte> := [0xF0, 0xFF, 0xFF, 0x0F, 0xF7, 0xFF, 0xFF, 0x0F];
      && IsLink(Table(raw)[0]) && RawEntry(raw, 0) >= LOADER_STOP
      && IsLink(Table(raw)[1]) && RawEntry(raw, 1) >= LOADER_STOP
  {
    var raw: seq<byte> := [0xF0, 0xFF, 0xFF, 0x0F, 0xF7, 0xFF, 0xFF, 0x0F];
    TableAt(raw, 0);
    TableAt(raw, 1);
  }

  /** The padded form of KERNEL01.BIN. */
  const KERNEL_FIELD: seq<byte> := [0x4B, 0x45, 0x52, 0x4E, 0x45, 0x4C, 0x30, 0x31, 0x42, 0x49, 0x4E]

  /** KERNEL01.BIN has twelve characters, and needs thirteen bytes: fatedit's buffer has twelve. */
  lemma TwelveCharacters()
    ensures DecodeName(KERNEL_FIELD).Some? && |DecodeName(KERNEL_FIELD).value| == 12 && BufferUse(KERNEL_FIELD) == 13
  {
    NameBuffer(KERNEL_FIELD);
    var f := KERNEL_FIELD;
    assert f[..8][7] == f[7];
    TrimWhole(f[..8]);
    var all := f[..8] + [DOT] + f[8..];
    assert all[|all| - 1] == f[10];
    TrimWhole(all);
  }

  // ------------------------------------------------------------ a lookup without end

  /** The table has entry 2 lead to cluster 2. */
  function LoopTable(): (t: seq<byte>)
    ensures |t| == 512 && WordAt(t, 8) == 2
  {
    var t: seq<byte> := [0, 0, 0, 0, 0, 0, 0, 0, 2, 0, 0, 0] + Zeros(500);
    assert t[8] == 2 && t[9] == 0 && t[10] == 0 && t[11] == 0;
    t
  }

  function Deleted(): (s: seq<byte>)
    ensures |s| == 512 && forall i :: 0 <= i < |s| ==> s[i] == 0xE5
  {
    seq(512, _ => 0xE5)
  }

  /** A boot sector, the table, and cluster 2: a directory of deleted records. */
  function LoopDisk(): (d: seq<byte>)
    ensures |d| == 1536 && d[512..1024] == LoopTable() && d[1024..1536] == Deleted()
  {
    var d := Zeros(512) + LoopTable() + Deleted();
    assert d[512..1024] == LoopTable() && d[1024..1536] == Deleted();
    d
  }

  const LOOP_SUPER := Super(512, 1, 1, 1, 3, 1, 2, 0)

  lemma LoopCluster(disk: seq<byte>)
    requires disk == LoopDisk()
    ensures Cluster(disk, LOOP_SUPER, 2) == Some(Deleted())
  {
    assert LOOP_SUPER.ClusterIndex2Sector(2) == 2;
    assert Sector(disk, 2) == Some(Deleted());
    assert Sectors(disk, 2, 0) == Some([]);
    assert [] + Deleted() == Deleted();
    assert Sectors(disk, 2, 1) == Some(Deleted());
  }

  lemma LoopEntry(disk: seq<byte>, w: seq<byte>, c: u32)
    requires |disk| == 1536 && |w| == 512 && disk[512..1024] == w && WordAt(w, 8) == c == 2
    ensures FatIndex(disk, LOOP_SUPER, c) == Some(c)
  {
    LoopSector(disk, w);
    LoopPlace(c);
    EntryHere(disk, LOOP_SUPER, c, EntrySector(c), EntryOffset(c), w);
  }

  lemma LoopPlace(c: u32)
    requires c == 2
    ensures EntrySector(c) == 0 && EntryOffset(c) == 8
  {
  }

  lemma LoopSector(disk: seq<byte>, w: seq<byte>)
    requires |disk| == 1536 && |w| == 512 && disk[512..1024] == w
    ensures FatSector(disk, LOOP_SUPER, 0) == Some(w)
  {
    assert Sector(disk, 1) == Some(w);
  }

  lemma EntryHere(disk: seq<byte>, s: Super, index: u32, sector: u32, offset: nat, w: seq<byte>)
    requires EntrySector(index) == sector && EntryOffset(index) == offset && FatSector(disk, s, sector) == Some(w)
    ensures FatIndex(disk, s, index) == Some(WordAt(w, offset))
  {
  }

  lemma {:induction false} DeletedRecords(s: seq<byte>)
    requires forall i :: 0 <= i < |s| ==> s[i] == 0xE5
    ensures forall e :: e in Records(s) ==> IsDummy(e) && !IsLast(e)
    decreases |s|
  {
    if |s| >= RECORD { DeletedRecords(s[RECORD..]); }
  }

  /** On a disk whose directory leads back to itself no lookup of any name comes to an end. */
  lemma LookupWithoutEnd(name: seq<byte>, stale: Junk, n: nat)
    ensures LookUp(LoopDisk(), LOOP_SUPER, 2, name, stale, 0, n).None?
  {
    LoopCluster(LoopDisk());
    LoopEntry(LoopDisk(), LoopTable(), 2);
    DeletedRecords(Deleted());
    var live: set<int> := {2};
    assert Trap(LoopDisk(), LOOP_SUPER, name, true, live);
    TrapHolds(LoopDisk(), LOOP_SUPER, 2, name, true, live, stale, 0, n);
  }

  // ------------------------------------------------------------ a partial load

  /** Two clusters of two sectors behind two other sectors; the last sector is missing. */
  function ShortDisk(): (d: seq<byte>)
    ensures |d| == 2560
  {
    Zeros(2048) + Ones(512)
  }

  function Ones(n: nat): (s: seq<byte>)
    ensures |s| == n && forall i :: 0 <= i < n ==> s[i] == 1
  {
    seq(n, _ => 1)
  }

  const SHORT_SUPER := Super(512, 2, 1, 1, 6, 1, 2, 0)

  /** Loading cluster 3 fails at its second sector, and leaves a window that claims to be cluster 2
      but starts with the first sector of cluster 3. */
  lemma PartialLoad(fatWindow: seq<byte>) returns (was: Cache, now: Cache)
    requires |fatWindow| == SECTOR
    ensures Shaped(SHORT_SUPER, was) && Coherent(ShortDisk(), SHORT_SUPER, was) && was.dataCluster == 2
    ensures Cluster(ShortDisk(), SHORT_SUPER, 3).None? && HalfLoaded(ShortDisk(), SHORT_SUPER, 3, was, now, 1)
    ensures !Coherent(ShortDisk(), SHORT_SUPER, now)
  {
    var disk, s := ShortDisk(), SHORT_SUPER;
    was := Cache(fatWindow, Zeros(1024), NOTHING, 2);
    now := was.(dataWindow := Overlay(was.dataWindow, Ones(512)));
    TwoSectors(disk, 2, Zeros(512), Zeros(512));
    TwoSectors(disk, 4, Ones(512), []);
    assert s.ClusterIndex2Sector(2) == 2 && s.ClusterIndex2Sector(3) == 4;
    assert Zeros(512) + Zeros(512) == Zeros(1024);
    assert Zeros(512)[0] != Ones(512)[0];
    FailedLoad(disk, s, was, 3, now, 1);
  }

  /** The sectors at lba, where the second may be missing. */
  lemma TwoSectors(disk: seq<byte>, lba: u32, a: seq<byte>, b: seq<byte>)
    requires disk == ShortDisk() && (lba == 2 || lba == 4)
    requires lba == 2 ==> a == Zeros(512) && b == Zeros(512)
    requires lba == 4 ==> a == Ones(512)
    ensures Sectors(disk, lba, 1) == Some(a)
    ensures Sectors(disk, lba, 2) == if lba == 2 then Some(a + b) else None
  {
    assert disk[512 * lba..512 * lba + 512] == a;
    assert Sectors(disk, lba, 0) == Some([]);
    assert [] + a == a;
    assert Sectors(disk, lba, 1) == Some(a);
    if lba == 2 { assert disk[1536..2048] == b; }
  }

  // ------------------------------------------------------------ an end mark behind a long name

  /** The only part of a long name with this text, for a short name of eleven zeros. */
  predicate IsLonePart(e: Record, text: seq<byte>) {
    IsLong(e) && !IsDummy(e) && !IsLast(e) && IsFinalPart(e) && Sequence(e) == 1 && PartSum(e) == 0 && PartText(e) == text
  }

  lemma LonePart() returns (e: Record)
    ensures IsLonePart(e, [0x41])
  {
    e := [0x41, 0x41, 0, 0, 0, 0, 0, 0, 0, 0, 0, 0x0F] + Zeros(20);
    assert e[13] == 0;
    PartOfOne(e);
  }

  lemma {:induction false} SumOfZeros(s: seq<byte>)
    requires forall i :: 0 <= i < |s| ==> s[i] == 0
    ensures SumOf(s) == 0
  {
    if s != [] { SumOfZeros(s[..|s| - 1]); }
  }

  lemma PartOfOne(e: Record)
    requires e[1] == 0x41 && e[2] == 0 && e[3] == 0 && e[4] == 0
    ensures PartText(e) == [0x41]
  {
    var s := [
      PartChar(e, 1), PartChar(e, 3), PartChar(e, 5), PartChar(e, 7), PartChar(e, 9),
      PartChar(e, 14), PartChar(e, 16), PartChar(e, 18), PartChar(e, 20), PartChar(e, 22), PartChar(e, 24),
      PartChar(e, 28), PartChar(e, 30)];
    assert s[0] == 0x41 && s[1] == 0;
    TextOfOne(s);
  }

  lemma TextOfOne(s: seq<byte>)
    requires |s| > 1 && s[0] != 0 && s[1] == 0
    ensures CString(s) == [s[0]]
  {
    assert s[1..][0] == 0;
    assert CString(s[1..]) == [];
  }

  /** A single part and the record behind it. */
  lemma OnePart(rs: seq<Record>, part: Record, e: Record, text: seq<byte>, d: DirEntry)
    requires |rs| == 2 && rs[0] == part && rs[1] == e
    requires IsLong(part) && !IsDummy(part) && IsFinalPart(part) && Sequence(part) == 1 && PartText(part) == text != []
    requires !IsLong(e) && Checksum(e) == PartSum(part) && ToEntry(e, Some(text)) == Some(d)
    ensures Round(rs) == Listing([d], 2)
  {
    assert LongParts(rs, 1);
    TextOfPart(rs[..1], text);
  }

  lemma TextOfPart(parts: seq<Record>, text: seq<byte>)
    requires |parts| == 1 && PartText(parts[0]) == text != []
    ensures LongText(parts) == Some(text)
  {
    assert parts[1..] == [] && LongText([]) == Some([]);
    assert [] + text == text;
  }

  lemma EndMarkFields(e: Record, text: seq<byte>)
    requires forall i :: 0 <= i < RECORD ==> e[i] == 0
    ensures !IsLong(e) && Checksum(e) == 0 && IsLast(e)
    ensures ToEntry(e, Some(text)) == Some(DirEntry([], text, 0, 0, false))
  {
    SumOfZeros(e[..11]);
    assert e[..11][0] == 0;
    FirstChar(e);
  }

  /** fatedit lists the end mark behind such a part as an entry of that long name, with an empty
      short name; the loader, looking for any name, stops at it. */
  lemma EndMarkListed(rs: seq<Record>, text: seq<byte>, name: seq<byte>, stale: Junk, t: nat)
    requires |rs| == 2 && IsLonePart(rs[0], text) && text != [] && forall i :: 0 <= i < RECORD ==> rs[1][i] == 0
    ensures Round(rs) == Listing([DirEntry([], text, 0, 0, false)], 2)
    ensures Search(rs, name, stale, t) == End
  {
    EndMarkFields(rs[1], text);
    OnePart(rs, rs[0], rs[1], text, DirEntry([], text, 0, 0, false));
    SearchStops(rs, name, stale, t);
  }

  lemma SearchStops(rs: seq<Record>, name: seq<byte>, stale: Junk, t: nat)
    requires |rs| == 2 && IsLong(rs[0]) && !IsLast(rs[0]) && IsLast(rs[1])
    ensures Search(rs, name, stale, t) == End
  {
    assert rs[1..][0] == rs[1];
  }

  // ------------------------------------------------------------ kernels, disks, stage 2

  /** 1000 bytes of a longer file: a whole chunk is copied.  A kernel behind 3000 other bytes is
      copied to the end of the file, as the bound wraps; behind 600 not at all. */
  lemma WrongCounts()
    ensures KernelLoad.Copied(0, 1000, 5000) == 1024
    ensures KernelLoad.Copied(3000, 1000, 5000) == 2000
    ensures KernelLoad.Copied(600, 1000, 5000) == 0
    ensures KernelLoad.Copied(100, 2048, 5000) == 2048
  {
    KernelLoad.CopiedIs(0, 1000, 5000);
    KernelLoad.CopiedIs(3000, (1000 - 3000) % U32_LIMIT, 5000);
    KernelLoad.CopiedIs(600, 400, 5000);
    KernelLoad.CopiedIs(100, 1948, 5000);
  }

  /** A BSS that ends inside the text is accepted. */
  lemma BssInsideText()
    ensures
      var h := Multiboot.Header(Multiboot.MAGIC, 0, 0, 0x10_0000, 0x10_0000, 0x10_1000, 0x10_0800, 0x10_0000);
      h.ExtractMemLayout(0, 0x1000) == Some((0, 0x10_0000, 0x1000)) && h.bssEndAddr < h.loadEndAddr
  {
  }

  /** The first sector of cylinder 1024 is read from cylinder 0. */
  lemma CylinderWraps(drive: byte)
    ensures
      var g := DiskGeometry.DriveGeometry(1024, 16, 63);
      DiskGeometry.Addressed(g, drive, 1024 * 16 * 63) == 0
  {
    var g := DiskGeometry.DriveGeometry(1024, 16, 63);
    DiskGeometry.Packed(g, drive, 1024 * 16 * 63, 1024, 0, 0);
  }

  /** An image of 31 sectors passes the installer's check and fails that of the boot sector. */
  lemma ThirtyOneSectors(w: seq<u32>, reserved: u16)
    requires |w| >= Stage2.HEADER_WORDS && Stage2.Accepts(w, Stage2.SectorCount(w)) && Stage2.SectorCount(w) == 31
    ensures Stage2.VbrLimit(reserved).Some? ==> !Stage2.Accepts(w, Stage2.VbrLimit(reserved).value)
  {
  }

  lemma {:induction false} SumOfNothing(w: seq<u32>, n: nat)
    requires n <= |w| && forall i :: 0 <= i < |w| ==> w[i] == 0
    ensures Stage2.Sum(w, n) == 0
  {
    if n > 0 { SumOfNothing(w, n - 1); }
  }

  /** A sector whose words, with the new header, add up to zero: it cannot be installed. */
  lemma ZeroSumImage(image: seq<u32>)
    requires |image| == 128 && image[7] == U32_LIMIT - Stage2.MAGIC - 1
    requires forall i :: 7 < i < 128 ==> image[i] == 0
    ensures Stage2.Sum(Stage2.Fresh(image, 1), 128) % U32_LIMIT == 0
  {
    var none: seq<u32> := Zeros(128);
    var a := none[0 := Stage2.MAGIC];
    var b := a[2 := 1];
    var w := b[7 := U32_LIMIT - Stage2.MAGIC - 1];
    assert w == Stage2.Fresh(image, 1);
    SumOfNothing(none, 128);
    Stage2.SumUpdate(none, 128, 0, Stage2.MAGIC);
    Stage2.SumUpdate(a, 128, 2, 1);
    Stage2.SumUpdate(b, 128, 7, U32_LIMIT - Stage2.MAGIC - 1);
  }
}
