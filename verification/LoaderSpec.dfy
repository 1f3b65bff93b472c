/** What the boot loader's FAT reader should return: every access goes straight to the disk. */
module LoaderSpec {
  import opened Bytes
  import opened FatSuper
  import opened FatChains

  /** `SectorSize()` of the BIOS block device. */
  const SECTOR := 512

  function Sector(disk: seq<byte>, lba: u32): (r: Option<seq<byte>>)
    ensures r.Some? ==> |r.value| == SECTOR
  {
    if SECTOR * lba + SECTOR <= |disk| then Some(disk[SECTOR * lba..SECTOR * lba + SECTOR]) else None
  }

  /** n sectors from lba on; sector numbers are 32-bit. */
  function Sectors(disk: seq<byte>, lba: u32, n: nat): (r: Option<seq<byte>>)
    ensures r.Some? ==> |r.value| == SECTOR * n
  {
    if n == 0 then Some([])
    else
      match Sectors(disk, lba, n - 1)
      case None => None
      case Some(head) =>
        match Sector(disk, (lba + (n - 1)) % U32_LIMIT)
        case None => None
        case Some(last) => Some(head + last)
  }

  function ClusterSize(s: Super): nat { SECTOR * s.sectorsPerCluster }

  function Cluster(disk: seq<byte>, s: Super, index: u32): (r: Option<seq<byte>>)
    ensures r.Some? ==> |r.value| == ClusterSize(s)
  {
    if index < 2 then None else Sectors(disk, s.ClusterIndex2Sector(index), s.sectorsPerCluster)
  }

  /** The sector of the table that holds entry `index`, and the place of the entry in it:
      `index * 4`, in 32 bits, divided by the sector size. */
  function EntrySector(index: u32): u32 { index % 0x4000_0000 / 128 }

  function EntryOffset(index: u32): (o: nat)
    ensures o + 4 <= SECTOR
  {
    4 * (index % 0x4000_0000 % 128)
  }

  lemma EntryPlace(index: u32)
    ensures EntrySector(index) == (index * 4) % U32_LIMIT / SECTOR
    ensures EntryOffset(index) == (index * 4) % U32_LIMIT % SECTOR
  {
    var k := index % 0x4000_0000;
    assert (index * 4) % U32_LIMIT == 4 * k;
    assert 4 * k / SECTOR == k / 128;
    assert 4 * k % SECTOR == 4 * (k % 128);
  }

  /** The whole 32-bit entry, without the mask fatedit applies. */
  function FatIndex(disk: seq<byte>, s: Super, index: u32): Option<u32> {
    match FatSector(disk, s, EntrySector(index))
    case None => None
    case Some(w) => Some(WordAt(w, EntryOffset(index)))
  }

  function FatSector(disk: seq<byte>, s: Super, index: u32): (r: Option<seq<byte>>)
    ensures r.Some? ==> |r.value| == SECTOR
  {
    if index >= s.sectorsPerFat then None else Sector(disk, (s.reservedSectors + index) % U32_LIMIT)
  }

  /** The bytes of a read from `offset` on, following the links; None where the code returns -1. */
  function Read(disk: seq<byte>, s: Super, cluster: u32, offset: u32, size: u32): Option<seq<byte>>
    requires s.sectorsPerCluster > 0
    decreases offset + size
  {
    var m := ClusterSize(s);
    if size == 0 || cluster >= LOADER_STOP then Some([])
    else if offset < m then
      match Cluster(disk, s, cluster)
      case None => None
      case Some(w) =>
        var n := Min(m - offset, size);
        if n == size then Some(w[offset..offset + n])
        else
          match FatIndex(disk, s, cluster)
          case None => None
          case Some(next) =>
            match Read(disk, s, next, 0, size - n)
            case None => None
            case Some(r) => Some(w[offset..offset + n] + r)
    else
      match FatIndex(disk, s, cluster)
      case None => None
      case Some(next) => Read(disk, s, next, offset - m, size)
  }

  /** What was read so far, in front of what is still to come. */
  function Prepend(done: seq<byte>, r: Option<seq<byte>>): Option<seq<byte>> {
    match r
    case None => None
    case Some(x) => Some(done + x)
  }

  lemma PrependEnds(done: seq<byte>, r: Option<seq<byte>>)
    ensures Prepend([], r) == r && Prepend(done, Some([])) == Some(done)
  {
    if r.Some? { assert [] + r.value == r.value; }
    assert done + [] == done;
  }

  lemma PrependTwice(done: seq<byte>, piece: seq<byte>, r: Option<seq<byte>>)
    ensures Prepend(done, Prepend(piece, r)) == Prepend(done + piece, r)
  {
    if r.Some? { ConcatAssoc(done, piece, r.value); }
  }

  /** `int32_t` of a 32-bit count. */
  function AsInt32(n: u32): int { if n < 0x8000_0000 then n else n - U32_LIMIT }

  datatype FatFile = FatFile(cluster: u32, size: u32, flags: byte)

  /** How much of a request a file's size lets through; size 0 does not limit it. */
  function Clip(f: FatFile, offset: u32, size: u32): u32 {
    if f.size == 0 then size
    else if offset >= f.size then 0
    else Min(size, f.size - offset)
  }

  function ReadFile(disk: seq<byte>, s: Super, f: FatFile, offset: u32, size: u32): Option<seq<byte>>
    requires s.sectorsPerCluster > 0
  {
    Read(disk, s, f.cluster, offset, Clip(f, offset, size))
  }

  // ------------------------------------------------------------ the windows

  const NOTHING: u32 := 0xFFFF_FFFF

  /** The two windows, and which sector and cluster they hold. */
  datatype Cache = Cache(fatWindow: seq<byte>, dataWindow: seq<byte>, fatSector: u32, dataCluster: u32)

  /** Each window that claims to hold something holds what is on disk. */
  ghost predicate Coherent(disk: seq<byte>, s: Super, c: Cache) {
    var coherent :=
      && (c.fatSector != NOTHING ==> FatSector(disk, s, c.fatSector) == Some(c.fatWindow))
      && (c.dataCluster != NOTHING ==> Cluster(disk, s, c.dataCluster) == Some(c.dataWindow));
    coherent
  }

  ghost predicate Shaped(s: Super, c: Cache) {
    |c.fatWindow| == SECTOR && |c.dataWindow| == ClusterSize(s)
  }

  /** The data window after a load that failed behind its first sectors. */
  function Overlay(window: seq<byte>, head: seq<byte>): seq<byte>
    requires |head| <= |window|
  {
    head + window[|head|..]
  }

  /** Loading one more sector into the window. */
  lemma OverlayStep(window: seq<byte>, head: seq<byte>, x: seq<byte>)
    requires |head| + |x| <= |window|
    ensures
      var w := Overlay(window, head);
      w[..|head|] + x + w[|head| + |x|..] == Overlay(window, head + x)
  {
    var w := Overlay(window, head);
    assert w[..|head|] == head;
    assert w[|head| + |x|..] == window[|head| + |x|..];
    assert head + x + window[|head| + |x|..] == Overlay(window, head + x);
  }

  /** `now` keeps the index of `was` over a data window whose head holds the first i sectors of
      another cluster. */
  ghost predicate HalfLoaded(disk: seq<byte>, s: Super, index: u32, was: Cache, now: Cache, i: nat) {
    match Sectors(disk, s.ClusterIndex2Sector(index), i)
    case None => false
    case Some(head) => |head| <= |was.dataWindow| && now == was.(dataWindow := Overlay(was.dataWindow, head))
  }

  /** One missing sector is enough. */
  lemma {:induction false} SectorsFail(disk: seq<byte>, lba: u32, i: nat, n: nat)
    requires i < n
    ensures Sector(disk, (lba + i) % U32_LIMIT).None? ==> Sectors(disk, lba, n).None?
    decreases n
  {
    if i < n - 1 { SectorsFail(disk, lba, i, n - 1); }
  }

  /** The first sectors of a stretch. */
  lemma {:induction false} SectorsPrefix(disk: seq<byte>, lba: u32, i: nat, n: nat)
    requires i <= n && Sectors(disk, lba, n).Some?
    ensures Sectors(disk, lba, i) == Some(Sectors(disk, lba, n).value[..SECTOR * i])
    decreases n
  {
    var all := Sectors(disk, lba, n).value;
    if i < n {
      SectorsPrefix(disk, lba, i, n - 1);
      var head := Sectors(disk, lba, n - 1).value;
      assert head[..SECTOR * i] == all[..SECTOR * i];
    } else {
      assert all[..SECTOR * i] == all;
    }
  }

  /** A load that fails behind its first i sectors keeps `currentDataCluster`.  The windows are
      still coherent if and only if nothing was cached, or both clusters start with the same
      i sectors on disk. */
  lemma FailedLoad(disk: seq<byte>, s: Super, c: Cache, index: u32, now: Cache, i: nat)
    requires Shaped(s, c) && Coherent(disk, s, c) && i <= s.sectorsPerCluster
    requires HalfLoaded(disk, s, index, c, now, i)
    ensures
      Coherent(disk, s, now) <==>
      || c.dataCluster == NOTHING
      || Sectors(disk, s.ClusterIndex2Sector(c.dataCluster), i) == Sectors(disk, s.ClusterIndex2Sector(index), i)
  {
    var head := Sectors(disk, s.ClusterIndex2Sector(index), i).value;
    if c.dataCluster != NOTHING {
      SectorsPrefix(disk, s.ClusterIndex2Sector(c.dataCluster), i, s.sectorsPerCluster);
      OverlaySame(c.dataWindow, head);
    }
  }

  lemma OverlaySame(window: seq<byte>, head: seq<byte>)
    requires |head| <= |window|
    ensures Overlay(window, head) == window <==> head == window[..|head|]
  {
    assert Overlay(window, head)[..|head|] == head;
    assert window == window[..|head|] + window[|head|..];
  }
}
