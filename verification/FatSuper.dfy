/** The geometry part of the FAT32 super block, with the 32-bit arithmetic of its getters. */
module FatSuper {
  import opened Bytes
  import opened Arith

  datatype Super = Super(
    bytesPerSector: u16,
    sectorsPerCluster: byte,
    reservedSectors: u16,
    numFats: byte,
    sectorCount: u32,
    sectorsPerFat: u32,
    rootDirIndex: u32,
    fsInfoIndex: u16)
  {
    function BytesPerCluster(): nat { sectorsPerCluster * bytesPerSector }

    function FirstDataSector(): u32 {
      (reservedSectors + numFats * sectorsPerFat) % U32_LIMIT
    }

    function ClusterIndex2Sector(n: u32): u32 {
      if n <= 2 then FirstDataSector()
      else ((n - 2) * sectorsPerCluster + FirstDataSector()) % U32_LIMIT
    }

    /** The product is taken in 32 bits, although the result is a 64-bit offset. */
    function ClusterFileOffset(n: u32): u32 {
      (ClusterIndex2Sector(n) * bytesPerSector) % U32_LIMIT
    }

    /** How many table entries `FindFreeCluster` looks at; 0 when it gives up at once. */
    function FreeScanLimit(): nat
      requires sectorsPerCluster > 0
    {
      var fatSectors := (sectorsPerFat * numFats) % U32_LIMIT;
      if sectorCount <= fatSectors then 0
      else if sectorCount - fatSectors <= reservedSectors then 0
      else (sectorCount - fatSectors - reservedSectors) / sectorsPerCluster
    }

    /** The volume this super block describes has a data area, lies below 4 GiB, and fits an image
        of `len` bytes; the image may be longer. */
    ghost predicate Describes(len: nat) {
      && bytesPerSector >= 512
      && sectorsPerCluster > 0
      && sectorCount * bytesPerSector <= len && sectorCount * bytesPerSector < U32_LIMIT
      && reservedSectors + numFats * sectorsPerFat < sectorCount
    }

    function DataArea(): Area
      requires sectorsPerCluster > 0 && reservedSectors + numFats * sectorsPerFat < sectorCount
    {
      var first := reservedSectors + numFats * sectorsPerFat;
      Area(first * bytesPerSector, BytesPerCluster(), (sectorCount - first) / sectorsPerCluster)
    }
  }

  /** Where the clusters 2 .. count + 1 lie in the image, in unbounded arithmetic. */
  datatype Area = Area(base: nat, clusterSize: nat, count: nat) {
    predicate InArea(c: int) { 2 <= c < count + 2 }

    function Pos(c: int): (p: nat)
      requires c >= 2
    {
      base + Span(c - 2, clusterSize)
    }

    ghost predicate Within(len: nat) { 0 < clusterSize && base + Span(count, clusterSize) <= len }
  }

  /** The bytes in n clusters of m bytes: the product, built up one cluster at a time. */
  function Span(n: nat, m: nat): nat {
    if n == 0 then 0 else Span(n - 1, m) + m
  }

  lemma {:induction false} SpanIsProduct(n: nat, m: nat)
    ensures Span(n, m) == n * m
  {
    if n > 0 {
      SpanIsProduct(n - 1, m);
      assert n * m == (n - 1) * m + m;
    }
  }

  lemma {:induction false} SpanMono(a: nat, b: nat, m: nat)
    requires a <= b
    ensures Span(a, m) <= Span(b, m)
    ensures a < b ==> Span(a, m) + m <= Span(b, m)
    decreases b
  {
    if a < b {
      SpanMono(a, b - 1, m);
    }
  }

  /** Two clusters of the data area do not overlap and stay inside the image. */
  lemma ClusterRange(l: Area, len: nat, c: int)
    requires l.Within(len) && l.InArea(c)
    ensures l.base <= l.Pos(c) && l.Pos(c) + l.clusterSize <= len
  {
    SpanMono(c - 2, l.count, l.clusterSize);
  }

  lemma ClustersApart(l: Area, c: int, d: int)
    requires 2 <= c < d
    ensures l.Pos(c) + l.clusterSize <= l.Pos(d)
  {
    SpanMono(c - 2, d - 2, l.clusterSize);
  }

  lemma AreaWithin(s: Super, len: nat)
    requires s.Describes(len)
    ensures s.DataArea().Within(len) && s.DataArea().Within(s.sectorCount * s.bytesPerSector)
    ensures s.FreeScanLimit() == s.DataArea().count
  {
    var first := s.reservedSectors + s.numFats * s.sectorsPerFat;
    var l, d, spc, bps := s.DataArea(), s.sectorCount - first, s.sectorsPerCluster, s.bytesPerSector;
    DivMul(d, spc);
    MulMono(l.count * spc, d, bps);
    MulThree(l.count, spc, bps);
    MulSub(s.sectorCount, first, bps);
    MulMono(1, spc, bps);
    SpanIsProduct(l.count, l.clusterSize);
    ScanLimit(s);
  }

  lemma ScanLimit(s: Super)
    requires s.sectorsPerCluster > 0 && s.reservedSectors + s.numFats * s.sectorsPerFat < s.sectorCount
    ensures s.FreeScanLimit() == s.DataArea().count
  {
    MulMono(0, s.numFats, s.sectorsPerFat);
    var m := s.numFats * s.sectorsPerFat;
    assert s.sectorsPerFat * s.numFats == m;
    assert m % U32_LIMIT == m;
  }

  /** The code's offset of a cluster is its position exactly when that position is below 4 GiB. */
  lemma OffsetExact(s: Super, c: u32)
    requires s.sectorsPerCluster > 0 && s.reservedSectors + s.numFats * s.sectorsPerFat < s.sectorCount
    requires 2 <= c && s.reservedSectors + s.numFats * s.sectorsPerFat + (c - 2) * s.sectorsPerCluster < U32_LIMIT
    ensures s.ClusterFileOffset(c) == s.DataArea().Pos(c) <==> s.DataArea().Pos(c) < U32_LIMIT
  {
    var first := s.reservedSectors + s.numFats * s.sectorsPerFat;
    var sector := first + (c - 2) * s.sectorsPerCluster;
    SectorExact(s, c);
    SpanIsProduct(c - 2, s.sectorsPerCluster * s.bytesPerSector);
    MulThree(c - 2, s.sectorsPerCluster, s.bytesPerSector);
    MulAdd(first, (c - 2) * s.sectorsPerCluster, s.bytesPerSector);
    assert s.DataArea().Pos(c) == sector * s.bytesPerSector;
    MulMono(0, sector, s.bytesPerSector);
  }

  lemma SectorExact(s: Super, c: u32)
    requires 2 <= c && s.reservedSectors + s.numFats * s.sectorsPerFat + (c - 2) * s.sectorsPerCluster < U32_LIMIT
    ensures 0 <= s.reservedSectors + s.numFats * s.sectorsPerFat
    ensures 0 <= (c - 2) * s.sectorsPerCluster
    ensures s.ClusterIndex2Sector(c) == s.reservedSectors + s.numFats * s.sectorsPerFat + (c - 2) * s.sectorsPerCluster
  {
    MulMono(0, c - 2, s.sectorsPerCluster);
    MulMono(0, s.numFats, s.sectorsPerFat);
    assert c == 2 ==> (c - 2) * s.sectorsPerCluster == 0;
  }

  /** On an image below 4 GiB the code finds every cluster of the data area. */
  lemma OffsetInArea(s: Super, len: nat, c: int)
    requires s.Describes(len) && s.DataArea().InArea(c)
    ensures 0 <= c < U32_LIMIT && s.ClusterFileOffset(c) == s.DataArea().Pos(c)
    ensures s.DataArea().Pos(c) + s.BytesPerCluster() <= len
  {
    var l := s.DataArea();
    var first := s.reservedSectors + s.numFats * s.sectorsPerFat;
    AreaWithin(s, len);
    ClusterRange(l, s.sectorCount * s.bytesPerSector, c);
    CountSmall(s, len);
    MulMono(c - 2, l.count, s.sectorsPerCluster);
    OffsetExact(s, c);
  }

  lemma CountSmall(s: Super, len: nat)
    requires s.Describes(len)
    ensures s.DataArea().count <= s.sectorCount < 0x0080_0000
  {
    MulMono(512, s.bytesPerSector, s.sectorCount);
    assert 512 * s.sectorCount < U32_LIMIT;
    MulMono(0, s.numFats, s.sectorsPerFat);
    DivMul(s.sectorCount - (s.reservedSectors + s.numFats * s.sectorsPerFat), s.sectorsPerCluster);
  }

  /** What the editing code needs to know about an image of len bytes: the clusters of l lie
      inside it, and the 32-bit offset computation finds them. */
  ghost predicate Fits(s: Super, l: Area, len: nat) {
    && l.Within(len) && l.base + Span(l.count, l.clusterSize) < U32_LIMIT
    && l.count < 0x0080_0000
    && forall c: u32 {:trigger s.ClusterFileOffset(c)} :: l.InArea(c) ==> s.ClusterFileOffset(c) == l.Pos(c)
  }

  lemma DescribesFits(s: Super, len: nat)
    requires s.Describes(len)
    ensures Fits(s, s.DataArea(), len)
  {
    AreaWithin(s, len);
    CountSmall(s, len);
    forall c: u32 | s.DataArea().InArea(c) ensures s.ClusterFileOffset(c) == s.DataArea().Pos(c) {
      OffsetInArea(s, len, c);
    }
  }
}
