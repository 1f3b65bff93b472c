/** The two FAT32 implementations agree: what fatedit stored in a chain is what the boot
    loader reads from it. */
module Agreement {
  import opened Bytes
  import opened Arith
  import opened FatSuper
  import opened FatChains
  import opened FatRaw
  import opened FatContent
  import opened FatState
  import opened LoaderSpec

  /** An image of 512-byte sectors whose first table copy is `raw`. */
  ghost predicate OnDisk(s: Super, disk: seq<byte>, raw: seq<byte>) {
    && s.bytesPerSector == SECTOR && s.Describes(|disk|)
    && s.reservedSectors + s.sectorsPerFat < U32_LIMIT
    && FatEnd(s) <= |disk| && disk[FatStart(s)..FatEnd(s)] == raw
  }

  /** Sectors that lie on the disk are loaded as one stretch. */
  lemma {:induction false} SectorsAreSlice(disk: seq<byte>, lba: u32, n: nat)
    requires lba + n < U32_LIMIT && SECTOR * lba + SECTOR * n <= |disk|
    ensures Sectors(disk, lba, n) == Some(disk[SECTOR * lba..SECTOR * lba + SECTOR * n])
  {
    if n == 0 {
      assert disk[SECTOR * lba..SECTOR * lba] == [];
    } else {
      SectorsAreSlice(disk, lba, n - 1);
      var a, b := SECTOR * lba, SECTOR * lba + SECTOR * (n - 1);
      assert (lba + (n - 1)) % U32_LIMIT == lba + (n - 1);
      assert SECTOR * (lba + (n - 1)) == b && b + SECTOR == SECTOR * lba + SECTOR * n;
      SliceJoin(disk, a, b, b + SECTOR);
    }
  }

  /** And only those. */
  lemma {:induction false} SectorsOnDisk(disk: seq<byte>, lba: u32, n: nat)
    requires lba + n < U32_LIMIT
    ensures Sectors(disk, lba, n).Some? <==> n == 0 || 512 * (lba + n) <= |disk|
  {
    if n > 0 {
      SectorsOnDisk(disk, lba, n - 1);
      assert (lba + (n - 1)) % U32_LIMIT == lba + (n - 1);
    }
  }

  /** The entry the loader reads for cluster c: four bytes of the first copy of the table, wherever
      the table and the disk have them, and a failure exactly elsewhere. */
  lemma FatIndexIs(disk: seq<byte>, s: Super, c: u32)
    requires c < 0x4000_0000 && s.reservedSectors + s.sectorsPerFat < U32_LIMIT
    ensures
      var at := 512 * (s.reservedSectors + c / 128);
      if c / 128 < s.sectorsPerFat && at + 512 <= |disk|
      then FatIndex(disk, s, c) == Some(WordAt(disk, at + 4 * (c % 128)))
      else FatIndex(disk, s, c) == None
  {
    var q, r := c / 128, c % 128;
    PlaceOf(c);
    SectorOfTable(disk, s, q);
    if q < s.sectorsPerFat && 512 * (s.reservedSectors + q) + 512 <= |disk| {
      WordOfSector(disk, 512 * (s.reservedSectors + q), 4 * r);
    }
  }

  lemma PlaceOf(c: u32)
    requires c < 0x4000_0000
    ensures EntrySector(c) == c / 128 && EntryOffset(c) == 4 * (c % 128)
  {
  }

  lemma SectorOfTable(disk: seq<byte>, s: Super, q: u32)
    requires s.reservedSectors + s.sectorsPerFat < U32_LIMIT
    ensures
      var at := 512 * (s.reservedSectors + q);
      FatSector(disk, s, q) == if q < s.sectorsPerFat && at + 512 <= |disk| then Some(disk[at..at + 512]) else None
  {
    if q < s.sectorsPerFat { assert (s.reservedSectors + q) % U32_LIMIT == s.reservedSectors + q; }
  }

  lemma WordOfSector(disk: seq<byte>, at: nat, o: nat)
    requires at + 512 <= |disk| && o + 4 <= 512
    ensures WordAt(disk[at..at + 512], o) == WordAt(disk, at + o)
  {
    var w := disk[at..at + 512];
    assert w[o] == disk[at + o] && w[o + 1] == disk[at + o + 1] && w[o + 2] == disk[at + o + 2] && w[o + 3] == disk[at + o + 3];
  }

  /** The loader finds a cluster where fatedit put it. */
  lemma ClusterAgrees(s: Super, disk: seq<byte>, c: nat)
    requires s.bytesPerSector == SECTOR && s.Describes(|disk|) && s.DataArea().InArea(c)
    ensures s.DataArea().Within(|disk|) && 0 <= c < U32_LIMIT
    ensures Cluster(disk, s, c) == Some(ClusterBytes(disk, s.DataArea(), c))
  {
    var l := s.DataArea();
    AreaWithin(s, |disk|);
    ClusterRange(l, |disk|, c);
    OffsetInArea(s, |disk|, c);
    LbaOf(s, |disk|, c);
    SectorsAreSlice(disk, s.ClusterIndex2Sector(c), s.sectorsPerCluster);
  }

  lemma LbaOf(s: Super, len: nat, c: nat)
    requires s.bytesPerSector == SECTOR && s.Describes(len) && s.DataArea().InArea(c)
    ensures 0 <= c < U32_LIMIT
    ensures SECTOR * s.ClusterIndex2Sector(c) == s.DataArea().Pos(c)
    ensures s.ClusterIndex2Sector(c) + s.sectorsPerCluster < U32_LIMIT
    ensures s.BytesPerCluster() == ClusterSize(s)
  {
    var l := s.DataArea();
    CountSmall(s, len);
    var first := s.reservedSectors + s.numFats * s.sectorsPerFat;
    DivMul(s.sectorCount - first, s.sectorsPerCluster);
    MulMono(c - 2, l.count, s.sectorsPerCluster);
    SectorExact(s, c);
    MulThree(c - 2, s.sectorsPerCluster, SECTOR);
    SpanIsProduct(c - 2, s.sectorsPerCluster * SECTOR);
  }

  /** The loader reads the entry that fatedit stored. */
  lemma EntryAgrees(s: Super, disk: seq<byte>, raw: seq<byte>, c: u32)
    requires OnDisk(s, disk, raw) && c < |raw| / 4 && c < 0x4000_0000
    ensures FatIndex(disk, s, c) == Some(RawEntry(raw, c))
  {
    var k, o := c / 128, 4 * (c % 128);
    EntrySplit(c, s.sectorsPerFat, |raw|);
    FatSectorIs(s, disk, raw, k);
    WordOfSlice(raw, SECTOR * k, SECTOR * k + SECTOR, o);
  }

  lemma EntrySplit(c: u32, sectors: nat, len: nat)
    requires c < len / 4 && c < 0x4000_0000 && len == SECTOR * sectors
    ensures EntrySector(c) == c / 128 < sectors && EntryOffset(c) == 4 * (c % 128)
    ensures 4 * c == SECTOR * (c / 128) + 4 * (c % 128)
  {
  }

  lemma WordOfSlice(s: seq<byte>, a: nat, b: nat, o: nat)
    requires a <= b <= |s| && o + 4 <= b - a
    ensures WordAt(s[a..b], o) == WordAt(s, a + o)
  {
  }

  lemma FatSectorIs(s: Super, disk: seq<byte>, raw: seq<byte>, k: nat)
    requires s.bytesPerSector == SECTOR && FatEnd(s) <= |disk| && disk[FatStart(s)..FatEnd(s)] == raw
    requires s.reservedSectors + s.sectorsPerFat < U32_LIMIT
    requires k < s.sectorsPerFat
    ensures SECTOR * k + SECTOR <= |raw|
    ensures FatSector(disk, s, k) == Some(raw[SECTOR * k..SECTOR * k + SECTOR])
  {
    var start, fats, r := FatStart(s), s.sectorsPerFat, s.reservedSectors;
    assert start == SECTOR * r && FatEnd(s) == SECTOR * r + SECTOR * fats;
    assert (r + k) % U32_LIMIT == r + k;
    SectorOfSlice(disk, raw, start, r + k, k);
  }

  lemma SectorOfSlice(disk: seq<byte>, x: seq<byte>, start: nat, lba: u32, k: nat)
    requires start + |x| <= |disk| && x == disk[start..start + |x|] && SECTOR * k + SECTOR <= |x|
    requires SECTOR * lba == start + SECTOR * k
    ensures Sector(disk, lba) == Some(x[SECTOR * k..SECTOR * k + SECTOR])
  {
    SliceOfSlice(disk, x, start, SECTOR * k, SECTOR);
  }

  // ------------------------------------------------------------ reading a chain

  /** Seen through the loader, cluster i of the chain is slice i of `all`, and the entries
      link the clusters of the chain. */
  ghost predicate MirroredAt(s: Super, disk: seq<byte>, ch: Chain, all: seq<byte>, i: nat) {
    && i < |ch| && 2 <= ch[i] < LOADER_STOP
    && (match Cluster(disk, s, ch[i]) case None => false case Some(w) => IsSlice(all, Span(i, ClusterSize(s)), w))
    && (match FatIndex(disk, s, ch[i])
        case None => false
        case Some(e) => if i + 1 < |ch| then e == ch[i + 1] else LOADER_STOP <= e)
  }

  ghost predicate Mirrored(s: Super, disk: seq<byte>, ch: Chain, all: seq<byte>) {
    var mirrored :=
      && 0 < s.sectorsPerCluster && |all| == Span(|ch|, ClusterSize(s))
      && forall i :: 0 <= i < |ch| ==> MirroredAt(s, disk, ch, all, i);
    mirrored
  }

  /** A read from this cluster on returns data; taken apart only where `Open` is mentioned. */
  ghost predicate ReadsAs(s: Super, disk: seq<byte>, c: int, off: u32, size: u32, data: seq<byte>) {
    forall u: int {:trigger Open(u)} ::
      Open(u) && 0 < s.sectorsPerCluster && 0 <= c < U32_LIMIT && Read(disk, s, c, off, size) == Some(data)
  }

  /** Nothing is asked for, or the chain has ended. */
  lemma ReadsNothing(s: Super, disk: seq<byte>, c: u32, off: u32, size: u32)
    requires 0 < s.sectorsPerCluster && (size == 0 || LOADER_STOP <= c)
    ensures ReadsAs(s, disk, c, off, size, [])
  {
    assert Read(disk, s, c, off, size) == Some([]);
  }

  /** The cluster is passed over. */
  lemma ReadsOn(s: Super, disk: seq<byte>, c: u32, off: u32, size: u32, next: u32, data: seq<byte>)
    requires 0 < s.sectorsPerCluster && ClusterSize(s) <= off && 0 < size && c < LOADER_STOP
    requires FatIndex(disk, s, c) == Some(next) && ReadsAs(s, disk, next, off - ClusterSize(s), size, data)
    ensures ReadsAs(s, disk, c, off, size, data)
  {
    assert Open(0);
    assert Read(disk, s, c, off, size) == Some(data);
  }

  /** A piece of the cluster, and what follows. */
  lemma ReadsPiece(s: Super, disk: seq<byte>, c: u32, off: u32, size: u32, w: seq<byte>, next: u32, data: seq<byte>)
    requires 0 < s.sectorsPerCluster && off < ClusterSize(s) && 0 < size && c < LOADER_STOP
    requires Cluster(disk, s, c) == Some(w) && FatIndex(disk, s, c) == Some(next)
    requires
      var n := Min(ClusterSize(s) - off, size);
      if n == size then data == w[off..off + n]
      else n <= |data| && data[..n] == w[off..off + n] && ReadsAs(s, disk, next, 0, size - n, data[n..])
    ensures ReadsAs(s, disk, c, off, size, data)
  {
    assert Open(0);
    var n := Min(ClusterSize(s) - off, size);
    ReadUnfolds(s, disk, c, off, size);
    assert n < size ==> data == data[..n] + data[n..];
    assert Read(disk, s, c, off, size) == Some(data);
  }

  lemma {:induction false} ReadMirrored(
      s: Super, disk: seq<byte>, ch: Chain, all: seq<byte>, i: nat, off: u32, size: u32, from: nat, to: nat)
    requires Mirrored(s, disk, ch, all) && i < |ch|
    requires from == Min(Span(i, ClusterSize(s)) + off, |all|)
    requires to == Min(Span(i, ClusterSize(s)) + off + size, |all|)
    ensures from <= to <= |all| && ReadsAs(s, disk, ch[i], off, size, all[from..to])
    decreases |ch| - i
  {
    var m := ClusterSize(s);
    SpanMono(i, |ch|, m);
    assert MirroredAt(s, disk, ch, all, i);
    if size == 0 {
      assert all[from..to] == [];
      ReadsNothing(s, disk, ch[i], off, size);
    } else if off < m {
      ReadHere(s, disk, ch, all, i, off, size, from, to);
    } else {
      var next := FatIndex(disk, s, ch[i]).value;
      if i + 1 < |ch| {
        ReadMirrored(s, disk, ch, all, i + 1, off - m, size, from, to);
      } else {
        assert all[from..to] == [];
        ReadsNothing(s, disk, next, off - m, size);
      }
      ReadsOn(s, disk, ch[i], off, size, next, all[from..to]);
    }
  }

  /** The part of the read that lies in cluster i, and what follows. */
  lemma {:induction false} ReadHere(
      s: Super, disk: seq<byte>, ch: Chain, all: seq<byte>, i: nat, off: u32, size: u32, from: nat, to: nat)
    requires Mirrored(s, disk, ch, all) && i < |ch| && 0 < size && off < ClusterSize(s)
    requires MirroredAt(s, disk, ch, all, i)
    requires from == Min(Span(i, ClusterSize(s)) + off, |all|)
    requires to == Min(Span(i, ClusterSize(s)) + off + size, |all|)
    ensures from <= to <= |all| && ReadsAs(s, disk, ch[i], off, size, all[from..to])
    decreases |ch| - i, 0
  {
    var n, next := Min(ClusterSize(s) - off, size), FatIndex(disk, s, ch[i]).value;
    HereSlice(s, disk, ch, all, i, off, size, from, to);
    var data := all[from..to];
    assert data[..n] == all[from..from + n] && data[n..] == all[from + n..to];
    if n < size && i + 1 < |ch| {
      ReadMirrored(s, disk, ch, all, i + 1, 0, size - n, from + n, to);
    } else if n < size {
      assert data[n..] == [];
      ReadsNothing(s, disk, next, 0, size - n);
    } else {
      assert data == data[..n];
    }
    ReadsPiece(s, disk, ch[i], off, size, Cluster(disk, s, ch[i]).value, next, data);
  }

  lemma HereSlice(s: Super, disk: seq<byte>, ch: Chain, all: seq<byte>, i: nat, off: u32, size: u32, from: nat, to: nat)
    requires Mirrored(s, disk, ch, all) && MirroredAt(s, disk, ch, all, i) && 0 < size && off < ClusterSize(s)
    requires from == Min(Span(i, ClusterSize(s)) + off, |all|)
    requires to == Min(Span(i, ClusterSize(s)) + off + size, |all|)
    ensures
      var m, n := ClusterSize(s), Min(ClusterSize(s) - off, size);
      && from == Span(i, m) + off && from + n <= to <= |all| && Span(i + 1, m) == Span(i, m) + m
      && (n == size || i + 1 == |ch| ==> to == from + n)
      && Cluster(disk, s, ch[i]).value[off..off + n] == all[from..from + n]
  {
    var m := ClusterSize(s);
    SpanMono(i, |ch|, m);
    SpanMono(i + 1, |ch|, m);
    SliceOfSlice(all, Cluster(disk, s, ch[i]).value, Span(i, m), off, Min(m - off, size));
  }

  lemma ReadUnfolds(s: Super, disk: seq<byte>, c: u32, off: u32, size: u32)
    requires 0 < s.sectorsPerCluster && 0 < size && off < ClusterSize(s) && c < LOADER_STOP
    requires Cluster(disk, s, c).Some? && FatIndex(disk, s, c).Some?
    ensures
      var n, w := Min(ClusterSize(s) - off, size), Cluster(disk, s, c).value;
      Read(disk, s, c, off, size) ==
      if n == size then Some(w[off..off + n])
      else Prepend(w[off..off + n], Read(disk, s, FatIndex(disk, s, c).value, 0, size - n))
  {
  }

  /** A clean chain on disk is mirrored by its content. */
  lemma ChainMirrored(s: Super, disk: seq<byte>, raw: seq<byte>, ch: Chain)
    requires OnDisk(s, disk, raw) && IsChain(Table(raw), ch) && InArea(s.DataArea(), ch) && Clean(raw, ch)
    ensures s.DataArea().Within(|disk|) && Mirrored(s, disk, ch, Content(disk, s.DataArea(), ch))
  {
    var l := s.DataArea();
    AreaWithin(s, |disk|);
    ContentCovers(disk, l, ch);
    var all := Content(disk, l, ch);
    LbaOf(s, |disk|, ch[0]);
    forall i | 0 <= i < |ch| ensures MirroredAt(s, disk, ch, all, i) {
      ClusterAgrees(s, disk, ch[i]);
      EntryAgrees(s, disk, raw, ch[i]);
      CleanEntry(raw, ch[i]);
    }
  }

  /** Every read of the loader returns the matching slice of what the chain stores. */
  lemma ReadsSlice(s: Super, disk: seq<byte>, ch: Chain, all: seq<byte>, off: u32, size: u32)
    requires Mirrored(s, disk, ch, all) && ch != []
    ensures 0 <= ch[0] < U32_LIMIT
    ensures Read(disk, s, ch[0], off, size) == Some(all[Min(off, |all|)..Min(off + size, |all|)])
  {
    ReadMirrored(s, disk, ch, all, 0, off, size, Min(off, |all|), Min(off + size, |all|));
    assert Open(0);
  }

  /** A non-empty file whose data starts the chain is read back exactly. */
  lemma ReadsPrefix(s: Super, disk: seq<byte>, ch: Chain, all: seq<byte>, data: seq<byte>, f: FatFile, off: u32, size: u32)
    requires Mirrored(s, disk, ch, all) && ch != [] && data <= all
    requires f.cluster == ch[0] && 0 < f.size == |data|
    ensures ReadFile(disk, s, f, off, size) == Some(data[Min(off, |data|)..Min(off + size, |data|)])
  {
    var n := Clip(f, off, size);
    ReadsSlice(s, disk, ch, all, off, n);
    if off < |data| {
      assert all[..|data|] == data;
      assert all[off..off + n] == data[off..off + n];
    } else {
      assert all[Min(off, |all|)..Min(off, |all|)] == [];
      assert data[|data|..|data|] == [];
    }
  }

  /** A chain of the table that the loader reads without bits fatedit would mask. */
  ghost predicate ChainOnDisk(s: Super, disk: seq<byte>, raw: seq<byte>, ch: Chain) {
    var onDisk := OnDisk(s, disk, raw) && IsChain(Table(raw), ch) && InArea(s.DataArea(), ch) && Clean(raw, ch);
    onDisk
  }

  /** What the clusters of a chain store. */
  ghost function Stores(s: Super, disk: seq<byte>, raw: seq<byte>, ch: Chain): seq<byte>
    requires ChainOnDisk(s, disk, raw, ch)
  {
    AreaWithin(s, |disk|);
    Content(disk, s.DataArea(), ch)
  }

  /** A non-empty file that fatedit stored is read back exactly, for every offset and length. */
  lemma LoaderReadsFile(
      s: Super, disk: seq<byte>, raw: seq<byte>, ch: Chain, data: seq<byte>, f: FatFile, off: u32, size: u32)
    requires ChainOnDisk(s, disk, raw, ch) && data <= Stores(s, disk, raw, ch)
    requires f.cluster == ch[0] && 0 < f.size == |data|
    ensures s.sectorsPerCluster > 0
    ensures ReadFile(disk, s, f, off, size) == Some(data[Min(off, |data|)..Min(off + size, |data|)])
  {
    ChainMirrored(s, disk, raw, ch);
    ReadsPrefix(s, disk, ch, Stores(s, disk, raw, ch), data, f, off, size);
  }

  /** An empty file has no size limit for the loader: any read of it returns bytes of its
      cluster that nobody wrote, where a correct reader returns none. */
  lemma EmptyFileReadsGarbage(s: Super, disk: seq<byte>, raw: seq<byte>, ch: Chain, f: FatFile, off: u32, size: u32)
    requires ChainOnDisk(s, disk, raw, ch) && f.cluster == ch[0] && f.size == 0
    ensures s.sectorsPerCluster > 0
    ensures ReadFile(disk, s, f, off, size) == Some([]) <==> size == 0 || off >= |Stores(s, disk, raw, ch)|
  {
    ChainMirrored(s, disk, raw, ch);
    var all := Stores(s, disk, raw, ch);
    ReadsSlice(s, disk, ch, all, off, size);
    var r := all[Min(off, |all|)..Min(off + size, |all|)];
    assert |r| == Min(off + size, |all|) - Min(off, |all|);
  }
}
