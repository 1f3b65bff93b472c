/** Writing the table back: every copy on disk becomes the table in memory. */
module FatCopies {
  import opened Bytes
  import opened Arith
  import opened FatSuper
  import opened FatChains
  import opened FatContent
  import opened FatState
  import FsInfo

  /** What `LoadFromImage` checked and set up: the table in memory has the size the super
      block says, and the info sector lies in the reserved area. */
  ghost predicate IsMounted(s: Super, l: Area, d: Disk) {
    && s.Describes(|d.img|) && l == s.DataArea()
    && FatStart(s) + |d.raw| == FatEnd(s) && |d.raw| < U32_LIMIT
    && s.fsInfoIndex < s.reservedSectors
  }

  /** The same, taken apart only where `Open` is mentioned. */
  ghost predicate Mounted(s: Super, l: Area, d: Disk) {
    && |d.raw| < U32_LIMIT && l.count < U32_LIMIT && 0 < s.sectorsPerCluster
    && forall u: int {:trigger Open(u)} :: Open(u) && IsMounted(s, l, d)
  }

  lemma MountedKept(s: Super, l: Area, a: Disk, b: Disk)
    requires Mounted(s, l, a) && |a.img| == |b.img| && |a.raw| == |b.raw|
    ensures Mounted(s, l, b)
  {
    assert Open(0);
    assert IsMounted(s, l, b);
  }

  /** All copies together end where the data area begins. */
  lemma CopiesFit(s: Super, l: Area, d: Disk)
    requires Mounted(s, l, d)
    ensures FatStart(s) + Span(s.numFats, |d.raw|) == l.base <= |d.img|
    ensures InfoStart(s) + FsInfo.SIZE <= FatStart(s)
  {
    assert Open(0);
    var n, f, b := s.numFats, s.sectorsPerFat, s.bytesPerSector;
    SpanIsProduct(n, |d.raw|);
    MulThree(n, f, b);
    MulAdd(s.reservedSectors, n * f, b);
    MulMono(s.fsInfoIndex + 1, s.reservedSectors, b);
    MulAdd(s.fsInfoIndex, 1, b);
    AreaWithin(s, |d.img|);
  }

  /** The first copy of the table lies inside the volume. */
  lemma TableFits(s: Super, len: nat)
    requires s.Describes(len) && 0 < s.numFats
    ensures FatEnd(s) <= len && FatEnd(s) - FatStart(s) < U32_LIMIT
  {
    MulMono(1, s.numFats, s.sectorsPerFat);
    MulMono(s.reservedSectors + s.sectorsPerFat, s.sectorCount, s.bytesPerSector);
    MulAdd(s.reservedSectors, s.sectorsPerFat, s.bytesPerSector);
    MulMono(0, s.reservedSectors, s.bytesPerSector);
  }

  /** The image with n copies of the table from `start` on. */
  function Copied(img: seq<byte>, start: nat, raw: seq<byte>, n: nat): (r: seq<byte>)
    requires start + Span(n, |raw|) <= |img|
    ensures |r| == |img|
  {
    if n == 0 then img
    else Overwrite(Copied(img, start, raw, n - 1), start + Span(n - 1, |raw|), raw)
  }

  /** A copy of the table at p; taken apart only where `Open` is mentioned. */
  ghost predicate CopyAt(img: seq<byte>, p: nat, raw: seq<byte>) {
    forall u: int {:trigger Open(u)} :: Open(u) && IsSlice(img, p, raw)
  }

  /** n copies of the table, one after the other. */
  ghost predicate HasCopies(img: seq<byte>, start: nat, raw: seq<byte>, n: nat) {
    forall i :: 0 <= i < n ==> CopyAt(img, start + Span(i, |raw|), raw)
  }

  lemma CopyKept(img: seq<byte>, p: nat, data: seq<byte>, q: nat, raw: seq<byte>)
    requires p + |data| <= |img| && CopyAt(img, q, raw) && (q + |raw| <= p || p + |data| <= q)
    ensures CopyAt(Overwrite(img, p, data), q, raw)
  {
    assert Open(0);
    OverwriteElsewhere(img, p, data, q, q + |raw|);
    assert IsSlice(Overwrite(img, p, data), q, raw);
  }

  lemma CopyHere(img: seq<byte>, p: nat, raw: seq<byte>)
    requires p + |raw| <= |img|
    ensures CopyAt(Overwrite(img, p, raw), p, raw)
  {
    assert Overwrite(img, p, raw)[p..p + |raw|] == raw;
    assert IsSlice(Overwrite(img, p, raw), p, raw);
  }

  /** A write in front of the copies does not touch them. */
  lemma CopiesKept(img: seq<byte>, p: nat, data: seq<byte>, start: nat, raw: seq<byte>, n: nat)
    requires p + |data| <= start <= |img| && HasCopies(img, start, raw, n)
    ensures HasCopies(Overwrite(img, p, data), start, raw, n)
  {
    forall i | 0 <= i < n ensures CopyAt(Overwrite(img, p, data), start + Span(i, |raw|), raw) {
      CopyKept(img, p, data, start + Span(i, |raw|), raw);
    }
  }

  /** One more copy, behind the others. */
  lemma CopyAdded(img: seq<byte>, after: seq<byte>, start: nat, raw: seq<byte>, n: nat)
    requires start + Span(n, |raw|) + |raw| <= |img| && HasCopies(img, start, raw, n)
    requires after == Overwrite(img, start + Span(n, |raw|), raw)
    ensures HasCopies(after, start, raw, n + 1)
  {
    forall i | 0 <= i < n + 1 ensures CopyAt(after, start + Span(i, |raw|), raw) {
      SpanMono(i, n, |raw|);
      CopyOrKept(img, start + Span(n, |raw|), start + Span(i, |raw|), raw);
    }
  }

  lemma CopyOrKept(img: seq<byte>, p: nat, q: nat, raw: seq<byte>)
    requires p + |raw| <= |img| && (q == p || (CopyAt(img, q, raw) && q + |raw| <= p))
    ensures CopyAt(Overwrite(img, p, raw), q, raw)
  {
    if q == p { CopyHere(img, p, raw); } else { CopyKept(img, p, raw, q, raw); }
  }

  /** Every copy reads as the table. */
  lemma {:induction false} CopiedReads(img: seq<byte>, start: nat, raw: seq<byte>, n: nat)
    requires start + Span(n, |raw|) <= |img|
    ensures HasCopies(Copied(img, start, raw, n), start, raw, n)
  {
    if n > 0 {
      CopiedReads(img, start, raw, n - 1);
      CopyAdded(Copied(img, start, raw, n - 1), Copied(img, start, raw, n), start, raw, n - 1);
    }
  }

  /** Nothing behind the copies changes. */
  lemma {:induction false} CopiedTail(img: seq<byte>, start: nat, raw: seq<byte>, n: nat, end: nat)
    requires start + Span(n, |raw|) <= end <= |img|
    ensures Copied(img, start, raw, n)[end..] == img[end..]
  {
    if n > 0 {
      CopiedTail(img, start, raw, n - 1, end);
      OverwriteBefore(Copied(img, start, raw, n - 1), start + Span(n - 1, |raw|), raw, end);
    }
  }

  /** Nothing in front of the copies changes. */
  lemma {:induction false} CopiedBehind(img: seq<byte>, start: nat, raw: seq<byte>, n: nat, a: nat, b: nat)
    requires start + Span(n, |raw|) <= |img| && a <= b <= start
    ensures Copied(img, start, raw, n)[a..b] == img[a..b]
  {
    if n > 0 {
      CopiedBehind(img, start, raw, n - 1, a, b);
      OverwriteElsewhere(Copied(img, start, raw, n - 1), start + Span(n - 1, |raw|), raw, a, b);
    }
  }

  /** Images that agree from the data area on store the same in every chain. */
  lemma SameDataArea(a: seq<byte>, b: seq<byte>, l: Area, ch: Chain)
    requires |a| == |b| && l.Within(|a|) && l.base <= |a| && a[l.base..] == b[l.base..] && InArea(l, ch)
    ensures Content(a, l, ch) == Content(b, l, ch)
  {
    forall i | 0 <= i < |ch| ensures ClusterBytes(a, l, ch[i]) == ClusterBytes(b, l, ch[i]) {
      ClusterRange(l, |a|, ch[i]);
      SliceFromTail(a, b, l.base, l.Pos(ch[i]), l.Pos(ch[i]) + l.clusterSize);
    }
    ContentFrame(a, b, l, ch);
  }

  lemma SliceFromTail(a: seq<byte>, b: seq<byte>, base: nat, p: nat, q: nat)
    requires |a| == |b| && base <= p <= q <= |a| && a[base..] == b[base..]
    ensures a[p..q] == b[p..q]
  {
    assert forall i :: p <= i < q ==> a[i] == a[base..][i - base] && b[i] == b[base..][i - base];
  }

  /** All copies written from `start` on, then the info sector in front of them. */
  lemma WrittenBackReads(img: seq<byte>, start: nat, raw: seq<byte>, n: nat, p: nat, info: seq<byte>, base: nat)
    requires p + |info| <= start && start + Span(n, |raw|) == base <= |img|
    ensures
      var img' := Overwrite(Copied(img, start, raw, n), p, info);
      |img'| == |img| && img'[base..] == img[base..] && HasCopies(img', start, raw, n)
  {
    CopiedReads(img, start, raw, n);
    CopiedTail(img, start, raw, n, base);
    CopiesKept(Copied(img, start, raw, n), p, info, start, raw, n);
    OverwriteBefore(Copied(img, start, raw, n), p, info, base);
  }

  /** Where the info sector lies. */
  function InfoStart(s: Super): nat { s.fsInfoIndex * s.bytesPerSector }

  /** The info sector lies in the reserved area and has its signatures. */
  predicate GoodInfo(s: Super, img: seq<byte>) {
    && s.fsInfoIndex < s.reservedSectors && InfoStart(s) + FsInfo.SIZE <= |img|
    && FsInfo.IsValid(img[InfoStart(s)..InfoStart(s) + FsInfo.SIZE])
  }

  /** Where the signatures are in the image. */
  lemma GoodInfoMeans(s: Super, img: seq<byte>)
    ensures
      var at := s.fsInfoIndex * s.bytesPerSector;
      GoodInfo(s, img) <==>
        && s.fsInfoIndex < s.reservedSectors && at + 512 <= |img|
        && WordAt(img, at) == 0x4161_5252 && WordAt(img, at + 484) == 0x6141_7272 && WordAt(img, at + 508) == 0xAA55_0000
  {
    var at := InfoStart(s);
    if at + 512 <= |img| {
      SliceWord(img, at, 0);
      SliceWord(img, at, 484);
      SliceWord(img, at, 508);
    }
  }

  lemma SliceWord(img: seq<byte>, at: nat, p: nat)
    requires at + 512 <= |img| && p + 4 <= 512
    ensures WordAt(img[at..at + 512], p) == WordAt(img, at + p)
  {
    var w := img[at..at + 512];
    assert w[p] == img[at + p] && w[p + 1] == img[at + p + 1] && w[p + 2] == img[at + p + 2] && w[p + 3] == img[at + p + 3];
  }

  /** What loading sets up. */
  lemma LoadedMounted(s: Super, img: seq<byte>)
    requires s.Describes(|img|) && 0 < s.numFats && GoodInfo(s, img)
    ensures Mounted(s, s.DataArea(), Disk(img, FirstTable(s, img)))
  {
    TableFits(s, |img|);
    CountSmall(s, |img|);
    assert IsMounted(s, s.DataArea(), Disk(img, FirstTable(s, img)));
  }

  /** The first copy of the table on disk. */
  function FirstTable(s: Super, img: seq<byte>): seq<byte> {
    if FatEnd(s) <= |img| then img[FatStart(s)..FatEnd(s)] else []
  }

  /** The image after all copies, and possibly the info sector, were written. */
  ghost function WrittenImage(s: Super, l: Area, d: Disk, info: Option<seq<byte>>): (r: seq<byte>)
    requires Mounted(s, l, d) && (info.Some? ==> |info.value| == FsInfo.SIZE)
    ensures |r| == |d.img|
  {
    CopiesFit(s, l, d);
    var img := Copied(d.img, FatStart(s), d.raw, s.numFats);
    if info.None? then img else Overwrite(img, InfoStart(s), info.value)
  }

  /** Each copy is the table, nothing from the data area on changes, and the info sector is the
      new one, if one was written. */
  lemma WrittenImageMeans(s: Super, l: Area, d: Disk, info: Option<seq<byte>>)
    requires Mounted(s, l, d) && (info.Some? ==> |info.value| == FsInfo.SIZE)
    ensures InfoStart(s) + FsInfo.SIZE <= FatStart(s) <= l.base <= |d.img|
    ensures
      var img, at := WrittenImage(s, l, d, info), InfoStart(s);
      && HasCopies(img, FatStart(s), d.raw, s.numFats) && img[l.base..] == d.img[l.base..]
      && img[at..at + FsInfo.SIZE] == if info.Some? then info.value else d.img[at..at + FsInfo.SIZE]
  {
    CopiesFit(s, l, d);
    var img, at := Copied(d.img, FatStart(s), d.raw, s.numFats), InfoStart(s);
    CopiedReads(d.img, FatStart(s), d.raw, s.numFats);
    CopiedTail(d.img, FatStart(s), d.raw, s.numFats, l.base);
    CopiedBehind(d.img, FatStart(s), d.raw, s.numFats, at, at + FsInfo.SIZE);
    if info.Some? {
      WrittenBackReads(d.img, FatStart(s), d.raw, s.numFats, at, info.value, l.base);
      OverwriteInside(img, at, info.value, at, at + FsInfo.SIZE);
      OverwriteAll(img[at..at + FsInfo.SIZE], info.value);
    }
  }
}
