/** What a volume still holds when an operation was broken off: the files whose chains were not
    written, and what stood in front of the place where one was appended to. */
module FatKept {
  import opened Bytes
  import opened FatSuper
  import opened FatChains
  import opened FatContent
  import opened FatState
  import opened FatAppend

  /** The first clusters of a chain hold the first part of its content. */
  lemma {:induction false} ContentPrefix(img: seq<byte>, l: Area, ch: Chain, ch': Chain)
    requires l.Within(|img|) && InArea(l, ch') && ch <= ch'
    ensures Span(|ch|, l.clusterSize) <= Span(|ch'|, l.clusterSize)
    ensures Content(img, l, ch')[..Span(|ch|, l.clusterSize)] == Content(img, l, ch)
    decreases |ch'|
  {
    SpanMono(|ch|, |ch'|, l.clusterSize);
    if |ch| < |ch'| {
      var n := |ch'| - 1;
      ContentPrefix(img, l, ch, ch'[..n]);
      SpanMono(|ch|, n, l.clusterSize);
    } else {
      assert ch == ch';
    }
  }

  /** The first `size` bytes that a chain stores are the same in both images. */
  ghost predicate StartKept(l: Area, a: seq<byte>, b: seq<byte>, ch: Chain, size: nat) {
    && |a| == |b| && l.Within(|a|) && InArea(l, ch) && size <= Span(|ch|, l.clusterSize)
    && Content(b, l, ch)[..size] == Content(a, l, ch)[..size]
  }

  /** So are those of a chain that this one is the beginning of. */
  lemma ShorterKept(l: Area, a: seq<byte>, b: seq<byte>, ch: Chain, ch': Chain, size: nat)
    requires |a| == |b| && l.Within(|a|) && InArea(l, ch') && ch <= ch' && size <= Span(|ch|, l.clusterSize)
    ensures StartKept(l, a, b, ch, size) <==> StartKept(l, a, b, ch', size)
  {
    ContentPrefix(a, l, ch, ch');
    ContentPrefix(b, l, ch, ch');
    CutTwice(Content(a, l, ch'), Span(|ch|, l.clusterSize), size);
    CutTwice(Content(b, l, ch'), Span(|ch|, l.clusterSize), size);
  }

  lemma CutTwice(s: seq<byte>, n: nat, size: nat)
    requires size <= n <= |s|
    ensures s[..n][..size] == s[..size]
  {
  }

  /** How much of chain j is kept when chain k was appended to behind `size` bytes. */
  function KeptSize(l: Area, chains: seq<Chain>, k: nat, size: nat, j: nat): nat
    requires j < |chains|
  {
    if j == k then size else Span(|chains[j]|, l.clusterSize)
  }

  ghost predicate AllKept(l: Area, a: seq<byte>, b: seq<byte>, chains: seq<Chain>, k: nat, size: nat) {
    && |a| == |b| && l.Within(|a|) && l.base <= |a| && a[..l.base] == b[..l.base]
    && forall j :: 0 <= j < |chains| ==> StartKept(l, a, b, chains[j], KeptSize(l, chains, k, size, j))
  }

  /** Nothing in front of the data area differs, no chain but k, and nothing in the first `size`
      bytes of that; taken apart only where `Open` is mentioned. */
  ghost predicate ImageKept(l: Area, a: seq<byte>, b: seq<byte>, chains: seq<Chain>, k: nat, size: nat) {
    forall u: int {:trigger Open(u)} :: Open(u) && AllKept(l, a, b, chains, k, size)
  }

  lemma SameImage(l: Area, a: seq<byte>, chains: seq<Chain>, k: nat, size: nat)
    requires l.Within(|a|) && l.base <= |a| && (k < |chains| ==> size <= Span(|chains[k]|, l.clusterSize))
    requires forall j :: 0 <= j < |chains| ==> InArea(l, chains[j])
    ensures ImageKept(l, a, a, chains, k, size)
  {
    assert AllKept(l, a, a, chains, k, size);
  }

  /** An append keeps all that was there before. */
  lemma AppendedKeeps(super: Super, l: Area, k: nat, a: Writer, b: Writer, data: seq<byte>)
    requires Appended(super, l, k, a, b, data)
    ensures ImageKept(l, a.disk.img, b.disk.img, a.files.chains, k, a.cur.totalSize)
  {
    assert Open(0);
    forall j | 0 <= j < |a.files.chains|
      ensures StartKept(l, a.disk.img, b.disk.img, a.files.chains[j], KeptSize(l, a.files.chains, k, a.cur.totalSize, j))
    {
      if j == k {
        AppendedStart(super, l, k, a, b, data);
      } else {
        OnlyChainOthers(a.disk, a.files, b.disk, b.files, l, k, j);
      }
    }
    assert AllKept(l, a.disk.img, b.disk.img, a.files.chains, k, a.cur.totalSize);
  }

  lemma AppendedStart(super: Super, l: Area, k: nat, a: Writer, b: Writer, data: seq<byte>)
    requires Extends(super, l, k, a, b, data)
    ensures StartKept(l, a.disk.img, b.disk.img, a.files.chains[k], a.cur.totalSize)
  {
    var ch, ch', size := a.files.chains[k], b.files.chains[k], a.cur.totalSize;
    StoredLength(super, l, k, a);
    StoredLength(super, l, k, b);
    ContentPrefix(b.disk.img, l, ch, ch');
    assert Stored(super, l, k, b)[..size] == Stored(super, l, k, a);
    CutTwice(Content(b.disk.img, l, ch'), b.cur.totalSize, size);
    CutTwice(Content(b.disk.img, l, ch'), Span(|ch|, l.clusterSize), size);
  }

  /** A chain that was added behind the others may be anything. */
  lemma OldKept(l: Area, a: seq<byte>, b: seq<byte>, chains: seq<Chain>, more: seq<Chain>, size: nat, k: nat, size': nat)
    requires ImageKept(l, a, b, chains + more, |chains|, size)
    requires k < |chains| ==> size' <= Span(|chains[k]|, l.clusterSize)
    ensures ImageKept(l, a, b, chains, k, size')
  {
    assert Open(0);
    var all := chains + more;
    forall j | 0 <= j < |chains| ensures StartKept(l, a, b, chains[j], KeptSize(l, chains, k, size', j)) {
      assert all[j] == chains[j];
      assert StartKept(l, a, b, all[j], KeptSize(l, all, |chains|, size, j));
      LessKept(l, a, b, chains[j], Span(|chains[j]|, l.clusterSize), KeptSize(l, chains, k, size', j));
    }
    assert AllKept(l, a, b, chains, k, size');
  }

  lemma LessKept(l: Area, a: seq<byte>, b: seq<byte>, ch: Chain, size: nat, size': nat)
    requires StartKept(l, a, b, ch, size) && size' <= size
    ensures StartKept(l, a, b, ch, size')
  {
    CutTwice(Content(a, l, ch), size, size');
    CutTwice(Content(b, l, ch), size, size');
  }

  /** The old chains are still there; only chain k may have grown. */
  ghost predicate Grown(before: seq<Chain>, after: seq<Chain>, k: nat) {
    && k < |before| <= |after| && before[k] <= after[k]
    && forall j :: 0 <= j < |before| && j != k ==> after[j] == before[j]
  }

  lemma GrownTwice(a: seq<Chain>, b: seq<Chain>, c: seq<Chain>, k: nat)
    requires Grown(a, b, k) && Grown(b, c, k)
    ensures Grown(a, c, k)
  {
  }

  /** What one operation kept, and the next one kept of its outcome. */
  lemma KeptTwice(
      l: Area, a: seq<byte>, b: seq<byte>, c: seq<byte>, chains: seq<Chain>, chains': seq<Chain>, k: nat, size: nat, size': nat)
    requires ImageKept(l, a, b, chains, k, size) && ImageKept(l, b, c, chains', k, size')
    requires Grown(chains, chains', k) && size <= size'
    ensures ImageKept(l, a, c, chains, k, size)
  {
    assert Open(0);
    forall j | 0 <= j < |chains| ensures StartKept(l, a, c, chains[j], KeptSize(l, chains, k, size, j)) {
      assert StartKept(l, a, b, chains[j], KeptSize(l, chains, k, size, j));
      assert StartKept(l, b, c, chains'[j], KeptSize(l, chains', k, size', j));
      if j == k {
        LessKept(l, b, c, chains'[k], size', size);
        ShorterKept(l, b, c, chains[k], chains'[k], size);
      }
    }
    assert AllKept(l, a, c, chains, k, size);
  }
}
