/** What appending to one chain means for the whole volume. */
module FatAppend {
  import opened Bytes
  import opened FatSuper
  import opened FatChains
  import opened FatRaw
  import opened FatContent
  import opened FatState

  /** Nothing below the data area and no cluster outside ch differs. */
  ghost predicate SameOutside(a: seq<byte>, b: seq<byte>, l: Area, ch: Chain) {
    && |a| == |b| && l.Within(|a|) && l.base <= |a|
    && a[..l.base] == b[..l.base]
    && forall c :: l.InArea(c) && c !in ch ==> ClusterBytes(b, l, c) == ClusterBytes(a, l, c)
  }

  lemma WriteSameOutside(a: seq<byte>, b: seq<byte>, l: Area, ch: Chain, c: nat, off: nat, data: seq<byte>)
    requires IsWrite(a, b, l, c, off, data) && c in ch
    ensures SameOutside(a, b, l, ch)
  {
    ClusterRange(l, |a|, c);
    OverwriteElsewhere(a, l.Pos(c) + off, data, 0, l.base);
    assert a[0..l.base] == a[..l.base] && b[0..l.base] == b[..l.base];
    forall e | l.InArea(e) && e !in ch ensures ClusterBytes(b, l, e) == ClusterBytes(a, l, e) {
      WriteOther(a, b, l, c, off, data, e);
    }
  }

  /** A chain disjoint from the written one reads as before. */
  lemma SameOutsideContent(a: seq<byte>, b: seq<byte>, l: Area, ch: Chain, other: Chain)
    requires SameOutside(a, b, l, ch) && InArea(l, other) && Disjoint(ch, other)
    ensures Content(b, l, other) == Content(a, l, other)
  {
    forall i | 0 <= i < |other| ensures ClusterBytes(a, l, other[i]) == ClusterBytes(b, l, other[i]) {
      assert other[i] !in ch;
    }
    ContentFrame(a, b, l, other);
  }

  /** The only chain that may differ between two lists is chain k, which may have grown. */
  ghost predicate GrownAt(before: seq<Chain>, after: seq<Chain>, k: nat) {
    && k < |before| && |after| == |before|
    && before[k] <= after[k]
    && forall j :: 0 <= j < |before| && j != k ==> after[j] == before[j]
  }

  /** A chain grew from ch to ch': its new clusters were free, and entries outside it are as they
      were. */
  ghost predicate EntriesKept(t: seq<int>, t': seq<int>, l: Area, ch: Chain, ch': Chain) {
    && |t'| == |t|
    && (forall e :: 0 <= e < |t| && e !in ch' ==> t'[e] == t[e])
    && (forall i :: |ch| <= i < |ch'| ==> IsFree(t, l, ch'[i]) && ch'[i] < l.count)
  }

  lemma EntriesKeptTrans(t: seq<int>, t1: seq<int>, t2: seq<int>, l: Area, ch: Chain, ch1: Chain, ch2: Chain)
    requires EntriesKept(t, t1, l, ch, ch1) && EntriesKept(t1, t2, l, ch1, ch2) && ch <= ch1 <= ch2
    requires IsChain(t1, ch1)
    ensures EntriesKept(t, t2, l, ch, ch2)
  {
    forall e | 0 <= e < |t| && e !in ch2 ensures t2[e] == t[e] { assert e !in ch1; }
    forall i | |ch| <= i < |ch2| ensures IsFree(t, l, ch2[i]) && ch2[i] < l.count {
      if i < |ch1| { assert ch2[i] == ch1[i]; } else { FreeOutside(t1, ch1, ch2[i]); }
    }
  }

  /** What writing to chain k may change: the chain grows by free clusters, its clusters are
      written, and no new entry has bits above the 28.  No other entry of the table changes, and
      the clusters that are left are fewer by those the chain took. */
  ghost predicate IsOnlyChain(a: Disk, fa: Files, b: Disk, fb: Files, l: Area, k: nat) {
    && CleanStep(a.raw, b.raw) && GrownAt(fa.chains, fb.chains, k)
    && EntriesKept(Table(a.raw), Table(b.raw), l, fa.chains[k], fb.chains[k])
    && |Usable(l, b.raw)| + |fb.chains[k]| == |Usable(l, a.raw)| + |fa.chains[k]|
    && SameOutside(a.img, b.img, l, fb.chains[k])
    && (Clean(a.raw, fa.chains[k]) ==> Clean(b.raw, fb.chains[k]))
  }

  /** The same, taken apart only where `Open` is mentioned. */
  ghost predicate OnlyChain(a: Disk, fa: Files, b: Disk, fb: Files, l: Area, k: nat) {
    && |b.img| == |a.img| && |b.raw| == |a.raw| && l.Within(|a.img|)
    && k < |fa.chains| == |fb.chains| && fa.chains[k] <= fb.chains[k]
    && |Usable(l, b.raw)| + |fb.chains[k]| == |Usable(l, a.raw)| + |fa.chains[k]|
    && forall u: int {:trigger Open(u)} :: Open(u) && IsOnlyChain(a, fa, b, fb, l, k)
  }

  lemma OnlyChainTrans(a: Disk, fa: Files, b: Disk, fb: Files, c: Disk, fc: Files, l: Area, k: nat)
    requires OnlyChain(a, fa, b, fb, l, k) && OnlyChain(b, fb, c, fc, l, k) && IsChain(Table(b.raw), fb.chains[k])
    ensures OnlyChain(a, fa, c, fc, l, k)
  {
    assert Open(0);
    EntriesKeptTrans(Table(a.raw), Table(b.raw), Table(c.raw), l, fa.chains[k], fb.chains[k], fc.chains[k]);
    CleanStepTrans(a.raw, b.raw, c.raw);
    forall e | l.InArea(e) && e !in fc.chains[k] ensures ClusterBytes(c.img, l, e) == ClusterBytes(a.img, l, e) {
      assert e !in fb.chains[k];
    }
    assert IsOnlyChain(a, fa, c, fc, l, k);
  }

  /** Every other file and directory of the volume reads as before. */
  lemma OnlyChainOthers(a: Disk, fa: Files, b: Disk, fb: Files, l: Area, k: nat, j: nat)
    requires OnlyChain(a, fa, b, fb, l, k) && Holds(Table(b.raw), fb.chains, l) && j < |fb.chains| && j != k
    ensures fb.chains[j] == fa.chains[j] && InArea(l, fb.chains[j])
    ensures Content(b.img, l, fb.chains[j]) == Content(a.img, l, fa.chains[j])
  {
    assert Open(0);
    assert Disjoint(fb.chains[if j < k then j else k], fb.chains[if j < k then k else j]);
    SameOutsideContent(a.img, b.img, l, fb.chains[k], fb.chains[j]);
  }

  /** What chain k of a volume stores. */
  ghost function ChainBytes(s: Super, l: Area, d: Disk, f: Files, k: nat): seq<byte>
    requires Good(s, l, d, f) && k < |f.chains|
  {
    Content(d.img, l, f.chains[k])
  }

  /** Writing to chain k leaves chain j as it was. */
  lemma OtherKept(s: Super, a: Disk, fa: Files, b: Disk, fb: Files, l: Area, k: nat, j: nat)
    requires Good(s, l, a, fa) && Good(s, l, b, fb) && OnlyChain(a, fa, b, fb, l, k) && j < |fb.chains| && j != k
    ensures fb.chains[j] == fa.chains[j] && ChainBytes(s, l, b, fb, j) == ChainBytes(s, l, a, fa, j)
    ensures Clean(a.raw, fa.chains[j]) ==> Clean(b.raw, fb.chains[j])
  {
    assert Open(0);
    OnlyChainOthers(a, fa, b, fb, l, k, j);
    if Clean(a.raw, fa.chains[j]) { CleanKept(a.raw, b.raw, fa.chains[j]); }
  }

  /** The bytes of a chain fit the image, hence the 32-bit size field. */
  lemma SizeFits(super: Super, l: Area, d: Disk, f: Files, k: nat)
    requires Good(super, l, d, f) && k < |f.chains|
    ensures Span(|f.chains[k]|, l.clusterSize) <= |d.img| && Span(|f.chains[k]|, l.clusterSize) < U32_LIMIT
  {
    ChainFits(Table(d.raw), f.chains[k], l.count);
    SpanMono(|f.chains[k]|, l.count, l.clusterSize);
  }

  /** Where a writer stands. */
  datatype Cursor = Cursor(cluster: u32, offset: nat, firstCluster: u32, totalSize: u32)

  /** The cursor is at the end of what was written to chain k. */
  ghost predicate AtEnd(l: Area, f: Files, k: nat, cur: Cursor) {
    && k < |f.chains| && f.chains[k] != []
    && cur.firstCluster == f.chains[k][0] && cur.cluster == Last(f.chains[k])
    && cur.offset <= l.clusterSize
    && cur.totalSize == Span(|f.chains[k]| - 1, l.clusterSize) + cur.offset
  }

  /** The first totalSize bytes of the chain. */
  ghost function Written(super: Super, l: Area, d: Disk, f: Files, k: nat, cur: Cursor): seq<byte>
    requires Good(super, l, d, f) && AtEnd(l, f, k, cur)
  {
    Content(d.img, l, f.chains[k])[..cur.totalSize]
  }

  /** The volume and the cursor of one writer. */
  datatype Writer = Writer(disk: Disk, files: Files, cur: Cursor)

  ghost predicate Ready(super: Super, l: Area, k: nat, w: Writer) {
    var ready := Good(super, l, w.disk, w.files) && AtEnd(l, w.files, k, w.cur);
    ready
  }

  ghost function Stored(super: Super, l: Area, k: nat, w: Writer): seq<byte>
    requires Ready(super, l, k, w)
  {
    Written(super, l, w.disk, w.files, k, w.cur)
  }

  /** From a to b exactly `data` was appended to chain k: its content is the old content followed
      by data, and no other chain, cluster or byte of the reserved and FAT areas changed. */
  ghost predicate Extends(super: Super, l: Area, k: nat, a: Writer, b: Writer, data: seq<byte>) {
    var longer :=
      && Ready(super, l, k, a) && Ready(super, l, k, b)
      && OnlyChain(a.disk, a.files, b.disk, b.files, l, k)
      && Stored(super, l, k, b) == Stored(super, l, k, a) + data;
    longer
  }

  /** The same, taken apart only where `Open` is mentioned. */
  ghost predicate Appended(super: Super, l: Area, k: nat, a: Writer, b: Writer, data: seq<byte>) {
    var appended :=
      && Ready(super, l, k, a) && Ready(super, l, k, b)
      && forall u: int {:trigger Open(u)} :: Open(u) && Extends(super, l, k, a, b, data);
    appended
  }

  lemma AppendedNothing(super: Super, l: Area, k: nat, a: Writer)
    requires Ready(super, l, k, a)
    ensures Appended(super, l, k, a, a, [])
  {
    assert l.base <= |a.disk.img|;
    assert IsOnlyChain(a.disk, a.files, a.disk, a.files, l, k);
    assert Extends(super, l, k, a, a, []);
  }

  lemma AppendedTwice(super: Super, l: Area, k: nat, a: Writer, b: Writer, c: Writer, x: seq<byte>, y: seq<byte>)
    requires Appended(super, l, k, a, b, x) && Appended(super, l, k, b, c, y)
    ensures Appended(super, l, k, a, c, x + y)
  {
    assert Open(0);
    OnlyChainTrans(a.disk, a.files, b.disk, b.files, c.disk, c.files, l, k);
    var w := Stored(super, l, k, a);
    ConcatAssoc(w, x, y);
    assert Extends(super, l, k, a, c, x + y);
  }

  /** The state after `WriteAt` of data at the cursor. */
  function AfterChunk(l: Area, w: Writer, data: seq<byte>): Writer
    requires w.cur.cluster >= 2 && l.Pos(w.cur.cluster) + w.cur.offset + |data| <= |w.disk.img|
  {
    Writer(
      w.disk.(img := Overwrite(w.disk.img, l.Pos(w.cur.cluster) + w.cur.offset, data)),
      w.files,
      w.cur.(offset := w.cur.offset + |data|, totalSize := (w.cur.totalSize + |data|) % U32_LIMIT))
  }

  /** The write goes into the last cluster of the chain, behind what it holds. */
  lemma ChunkFits(super: Super, l: Area, k: nat, w: Writer, data: seq<byte>)
    requires Ready(super, l, k, w) && w.cur.offset + |data| <= l.clusterSize
    ensures l.InArea(w.cur.cluster) && l.Pos(w.cur.cluster) + w.cur.offset + |data| <= |w.disk.img|
    ensures Ready(super, l, k, AfterChunk(l, w, data)) && AfterChunk(l, w, data).cur.totalSize == w.cur.totalSize + |data|
  {
    ClusterRange(l, |w.disk.img|, w.cur.cluster);
    SizeFits(super, l, w.disk, w.files, k);
  }

  lemma ChunkStored(super: Super, l: Area, k: nat, w: Writer, data: seq<byte>)
    requires Ready(super, l, k, w) && w.cur.offset + |data| <= l.clusterSize
    requires l.InArea(w.cur.cluster) && l.Pos(w.cur.cluster) + w.cur.offset + |data| <= |w.disk.img|
    ensures
      var ch, img := w.files.chains[k], AfterChunk(l, w, data).disk.img;
      && |img| == |w.disk.img| && w.cur.totalSize + |data| <= Span(|ch|, l.clusterSize)
      && Content(img, l, ch)[..w.cur.totalSize + |data|] == Content(w.disk.img, l, ch)[..w.cur.totalSize] + data
      && SameOutside(w.disk.img, img, l, ch)
  {
    var d, ch, n, c, off := w.disk, w.files.chains[k], |w.files.chains[k]| - 1, w.cur.cluster, w.cur.offset;
    forall i | 0 <= i < n ensures ch[..n][i] != c { ChainAcyclic(Table(d.raw), ch, i, n); }
    var img := Overwrite(d.img, l.Pos(c) + off, data);
    assert IsWrite(d.img, img, l, c, off, data);
    WriteSameOutside(d.img, img, l, ch, c, off, data);
    WriteAppends(d.img, img, l, ch, off, data);
  }

  lemma ChunkAppends(super: Super, l: Area, k: nat, w: Writer, data: seq<byte>)
    requires Ready(super, l, k, w) && w.cur.offset + |data| <= l.clusterSize
    ensures l.InArea(w.cur.cluster) && l.Pos(w.cur.cluster) + w.cur.offset + |data| <= |w.disk.img|
    ensures Appended(super, l, k, w, AfterChunk(l, w, data), data)
  {
    ChunkFits(super, l, k, w, data);
    ChunkStored(super, l, k, w, data);
    assert IsOnlyChain(w.disk, w.files, AfterChunk(l, w, data).disk, w.files, l, k);
    assert Extends(super, l, k, w, AfterChunk(l, w, data), data);
  }

  /** Linking a fresh cluster c behind chain k changes nothing else. */
  lemma ClusterOnly(l: Area, k: nat, a: Disk, fa: Files, d: Disk, f: Files, last: int, c: u32)
    requires k < |fa.chains| && fa.chains[k] != [] && last == Last(fa.chains[k]) && IsChain(Table(a.raw), fa.chains[k])
    requires d.img == a.img && l.Within(|a.img|) && l.base <= |a.img| && CleanStep(a.raw, d.raw)
    requires f == Files(fa.chains[k := fa.chains[k] + [c]])
    requires Clean(a.raw, fa.chains[k]) ==> Clean(d.raw, f.chains[k])
    requires IsFree(Table(a.raw), l, c) && c < l.count && Table(d.raw) == Table(a.raw)[c := END_OF_CHAIN][last := c]
    ensures OnlyChain(a, fa, d, f, l, k)
  {
    UsableTaken(l, a.raw, d.raw, c, last);
    assert last in f.chains[k] && c in f.chains[k];
    assert IsOnlyChain(a, fa, d, f, l, k);
  }

  /** A full writer that moves to a fresh cluster has written what it had before. */
  lemma ClusterAdded(super: Super, l: Area, k: nat, w: Writer, d: Disk, f: Files, c: u32)
    requires Ready(super, l, k, w) && w.cur.offset == l.clusterSize
    requires Good(super, l, d, f) && d.img == w.disk.img && CleanStep(w.disk.raw, d.raw)
    requires f == Files(w.files.chains[k := w.files.chains[k] + [c]])
    requires Clean(w.disk.raw, w.files.chains[k]) ==> Clean(d.raw, f.chains[k])
    requires IsFree(Table(w.disk.raw), l, c) && c < l.count
    requires Table(d.raw) == Table(w.disk.raw)[c := END_OF_CHAIN][w.cur.cluster := c]
    ensures Appended(super, l, k, w, Writer(d, f, w.cur.(cluster := c, offset := 0)), [])
  {
    var ch, ch' := w.files.chains[k], f.chains[k];
    assert ch'[..|ch|] == ch;
    ClusterOnly(l, k, w.disk, w.files, d, f, w.cur.cluster, c);
    assert Extends(super, l, k, w, Writer(d, f, w.cur.(cluster := c, offset := 0)), []);
  }

  /** One more piece of data, after the first pos bytes of it have been appended. */
  lemma ChunkStep(super: Super, l: Area, k: nat, a: Writer, b: Writer, data: seq<byte>, pos: nat, n: nat)
    requires pos + n <= |data| && Appended(super, l, k, a, b, data[..pos]) && b.cur.offset + n <= l.clusterSize
    ensures l.InArea(b.cur.cluster) && l.Pos(b.cur.cluster) + b.cur.offset + n <= |b.disk.img|
    ensures Appended(super, l, k, a, AfterChunk(l, b, data[pos..pos + n]), data[..pos + n])
  {
    var chunk := data[pos..pos + n];
    SliceStep(data, pos, n);
    ChunkAppends(super, l, k, b, chunk);
    AppendedTwice(super, l, k, a, b, AfterChunk(l, b, chunk), data[..pos], chunk);
  }

  lemma SliceStep(data: seq<byte>, pos: nat, n: nat)
    requires pos + n <= |data|
    ensures data[..pos + n] == data[..pos] + data[pos..pos + n]
  {
  }

  /** A chain of exactly the clusters that `size` bytes need, and at least one. */
  predicate ChainMatches(l: Area, ch: Chain, size: nat) {
    && ch != [] && size <= Span(|ch|, l.clusterSize)
    && (|ch| == 1 || Span(|ch| - 1, l.clusterSize) < size)
  }

  /** How many clusters n bytes take: max(1, ceil(n / m)). */
  function Clusters(n: nat, m: nat): (c: nat)
    requires 0 < m
    ensures 1 <= c
  {
    if n <= m then 1 else 1 + Clusters(n - m, m)
  }

  /** The least number, but at least one, with room for n bytes. */
  lemma {:induction false} ClustersLeast(n: nat, m: nat, c: nat)
    requires 0 < m && 1 <= c
    ensures Clusters(n, m) <= c <==> n <= Span(c, m)
    decreases n
  {
    if n > m && c > 1 {
      ClustersLeast(n - m, m, c - 1);
    }
  }

  lemma ChainMatchesClusters(l: Area, ch: Chain, size: nat)
    requires 0 < l.clusterSize && ch != []
    ensures ChainMatches(l, ch, size) <==> |ch| == Clusters(size, l.clusterSize)
  {
    ClustersLeast(size, l.clusterSize, |ch|);
    if |ch| > 1 { ClustersLeast(size, l.clusterSize, |ch| - 1); }
  }

  /** The clusters a writer can reach: those of its chain, and those it can still take. */
  ghost function Reach(l: Area, k: nat, w: Writer): nat
    requires k < |w.files.chains|
  {
    |w.files.chains[k]| + |Usable(l, w.disk.raw)|
  }

  /** They hold n more bytes. */
  ghost predicate CanTake(l: Area, k: nat, w: Writer, n: nat)
    requires k < |w.files.chains|
  {
    0 < l.clusterSize && Clusters(w.cur.totalSize + n, l.clusterSize) <= Reach(l, k, w)
  }

  /** What an append did to the numbers of a writer. */
  lemma AppendedMeasure(super: Super, l: Area, k: nat, a: Writer, b: Writer, data: seq<byte>)
    requires Appended(super, l, k, a, b, data)
    ensures 0 < l.clusterSize && k < |a.files.chains| && k < |b.files.chains| && Reach(l, k, b) == Reach(l, k, a)
    ensures b.cur.totalSize == a.cur.totalSize + |data| && b.cur.totalSize <= Span(|b.files.chains[k]|, l.clusterSize)
    ensures CanTake(l, k, a, |data|)
  {
    AppendedNumbers(super, l, k, a, b, data);
    var chain, reach := |b.files.chains[k]|, Reach(l, k, a);
    EndNumbers(l.clusterSize, b.cur.totalSize, chain, reach, b.cur.totalSize);
  }

  lemma AppendedNumbers(super: Super, l: Area, k: nat, a: Writer, b: Writer, data: seq<byte>)
    requires Appended(super, l, k, a, b, data)
    ensures 0 < l.clusterSize && k < |a.files.chains| && k < |b.files.chains| && Reach(l, k, b) == Reach(l, k, a)
    ensures b.cur.totalSize == a.cur.totalSize + |data| && b.cur.totalSize <= Span(|b.files.chains[k]|, l.clusterSize)
    ensures 1 <= |b.files.chains[k]| <= Reach(l, k, a)
    ensures b.cur.offset == l.clusterSize ==> b.cur.totalSize == Span(|b.files.chains[k]|, l.clusterSize)
  {
    assert Open(0);
    assert |Stored(super, l, k, b)| == |Stored(super, l, k, a)| + |data|;
    StoredLength(super, l, k, a);
    StoredLength(super, l, k, b);
  }

  /** `size` bytes were written to the first `chain` of the clusters within reach; n were wanted. */
  lemma EndNumbers(m: nat, size: nat, chain: nat, reach: nat, n: nat)
    requires 0 < m && 1 <= chain <= reach && size <= Span(chain, m) && size <= n
    requires size == n || (size == Span(chain, m) && chain == reach)
    ensures size == n <==> Clusters(n, m) <= reach
  {
    ClustersLeast(n, m, reach);
    SpanMono(chain, reach, m);
  }

  /** Where an append stops: behind all data if that fits the clusters within reach, else where
      these are full. */
  lemma AppendEnds(super: Super, l: Area, k: nat, a: Writer, b: Writer, data: seq<byte>, pos: nat)
    requires pos <= |data| && Appended(super, l, k, a, b, data[..pos])
    requires pos == |data| || (b.cur.offset == l.clusterSize && !HasFree(l, b.disk.raw))
    ensures 0 < l.clusterSize && k < |a.files.chains| && k < |b.files.chains| && Reach(l, k, b) == Reach(l, k, a)
    ensures b.cur.totalSize == a.cur.totalSize + pos
    ensures pos == |data| <==> CanTake(l, k, a, |data|)
    ensures pos < |data| ==> a.cur.totalSize + pos == Span(Reach(l, k, a), l.clusterSize)
  {
    AppendedNumbers(super, l, k, a, b, data[..pos]);
    EndsAt(l, k, a, b, |data|, pos);
  }

  lemma EndsAt(l: Area, k: nat, a: Writer, b: Writer, n: nat, pos: nat)
    requires 0 < l.clusterSize && k < |a.files.chains| && k < |b.files.chains| && Reach(l, k, b) == Reach(l, k, a)
    requires b.cur.totalSize == a.cur.totalSize + pos <= Span(|b.files.chains[k]|, l.clusterSize) && pos <= n
    requires 1 <= |b.files.chains[k]|
    requires pos == n || (b.cur.totalSize == Span(|b.files.chains[k]|, l.clusterSize) && !HasFree(l, b.disk.raw))
    ensures pos == n <==> CanTake(l, k, a, n)
    ensures pos < n ==> a.cur.totalSize + pos == Span(Reach(l, k, a), l.clusterSize)
  {
    UsableLeft(l, b.disk.raw);
    EndNumbers(l.clusterSize, b.cur.totalSize, |b.files.chains[k]|, Reach(l, k, a), a.cur.totalSize + n);
  }

  lemma {:induction false} ClustersMono(a: nat, b: nat, m: nat)
    requires a <= b && 0 < m
    ensures Clusters(a, m) <= Clusters(b, m)
  {
    if a > m { ClustersMono(a - m, b - m, m); }
  }

  /** No room for the next part means no room for all. */
  lemma CannotTake(l: Area, k: nat, a: Writer, b: Writer, done: nat, n: nat, all: nat)
    requires k < |a.files.chains| && k < |b.files.chains| && Reach(l, k, b) == Reach(l, k, a)
    requires b.cur.totalSize == a.cur.totalSize + done && done + n <= all && !CanTake(l, k, b, n)
    ensures !CanTake(l, k, a, all)
  {
    if 0 < l.clusterSize { ClustersMono(b.cur.totalSize + n, a.cur.totalSize + all, l.clusterSize); }
  }

  lemma StoredLength(super: Super, l: Area, k: nat, w: Writer)
    requires Ready(super, l, k, w)
    ensures |Stored(super, l, k, w)| == w.cur.totalSize <= Span(|w.files.chains[k]|, l.clusterSize)
  {
    SpanMono(|w.files.chains[k]| - 1, |w.files.chains[k]|, l.clusterSize);
  }

  lemma ClusterStep(super: Super, l: Area, k: nat, a: Writer, b: Writer, c: Writer, data: seq<byte>)
    requires Appended(super, l, k, a, b, data) && Appended(super, l, k, b, c, [])
    ensures Appended(super, l, k, a, c, data)
  {
    AppendedTwice(super, l, k, a, b, c, data, []);
    assert data + [] == data;
  }
}
