/** What a chain of clusters stores, and how writes to the image change it. */
module FatContent {
  import opened Bytes
  import opened FatSuper
  import opened FatChains

  function ClusterBytes(img: seq<byte>, l: Area, c: nat): (s: seq<byte>)
    requires l.Within(|img|) && l.InArea(c)
    ensures |s| == l.clusterSize
  {
    ClusterRange(l, |img|, c);
    img[l.Pos(c)..l.Pos(c) + l.clusterSize]
  }

  ghost predicate InArea(l: Area, ch: Chain) {
    forall i :: 0 <= i < |ch| ==> l.InArea(ch[i])
  }

  /** The clusters of a chain, one after the other. */
  function Content(img: seq<byte>, l: Area, ch: Chain): (s: seq<byte>)
    requires l.Within(|img|) && InArea(l, ch)
    ensures |s| == Span(|ch|, l.clusterSize)
  {
    if ch == [] then []
    else
      var n := |ch| - 1;
      Content(img, l, ch[..n]) + ClusterBytes(img, l, ch[n])
  }

  /** Cluster i of the chain is slice i of its content. */
  lemma {:induction false} ContentSlice(img: seq<byte>, l: Area, ch: Chain, i: nat)
    requires l.Within(|img|) && InArea(l, ch) && i < |ch|
    ensures Span(i, l.clusterSize) + l.clusterSize <= Span(|ch|, l.clusterSize)
    ensures
      var p := Span(i, l.clusterSize);
      Content(img, l, ch)[p..p + l.clusterSize] == ClusterBytes(img, l, ch[i])
    decreases |ch|
  {
    var n := |ch| - 1;
    SpanMono(i, |ch|, l.clusterSize);
    if i < n {
      ContentSlice(img, l, ch[..n], i);
      SpanMono(i, n, l.clusterSize);
    }
  }

  /** `all` is made of the clusters of the chain. */
  ghost predicate Covers(img: seq<byte>, l: Area, ch: Chain, all: seq<byte>)
    requires l.Within(|img|) && InArea(l, ch)
  {
    && |all| == Span(|ch|, l.clusterSize)
    && forall i :: 0 <= i < |ch| ==> IsSlice(all, Span(i, l.clusterSize), ClusterBytes(img, l, ch[i]))
  }

  predicate IsSlice(all: seq<byte>, from: nat, x: seq<byte>) {
    from + |x| <= |all| && all[from..from + |x|] == x
  }

  lemma ContentCovers(img: seq<byte>, l: Area, ch: Chain)
    requires l.Within(|img|) && InArea(l, ch)
    ensures Covers(img, l, ch, Content(img, l, ch))
  {
    forall i | 0 <= i < |ch|
      ensures IsSlice(Content(img, l, ch), Span(i, l.clusterSize), ClusterBytes(img, l, ch[i]))
    {
      SliceAt(img, l, ch, i);
    }
  }

  lemma SliceAt(img: seq<byte>, l: Area, ch: Chain, i: nat)
    requires l.Within(|img|) && InArea(l, ch) && i < |ch|
    ensures IsSlice(Content(img, l, ch), Span(i, l.clusterSize), ClusterBytes(img, l, ch[i]))
  {
    ContentSlice(img, l, ch, i);
  }

  /** Content depends on the bytes of its own clusters only. */
  lemma {:induction false} ContentFrame(a: seq<byte>, b: seq<byte>, l: Area, ch: Chain)
    requires |a| == |b| && l.Within(|a|) && InArea(l, ch)
    requires forall i :: 0 <= i < |ch| ==> ClusterBytes(a, l, ch[i]) == ClusterBytes(b, l, ch[i])
    ensures Content(a, l, ch) == Content(b, l, ch)
    decreases |ch|
  {
    if ch != [] {
      var n := |ch| - 1;
      forall i | 0 <= i < n ensures ClusterBytes(a, l, ch[..n][i]) == ClusterBytes(b, l, ch[..n][i]) {
        assert ch[..n][i] == ch[i];
      }
      ContentFrame(a, b, l, ch[..n]);
    }
  }

  /** A write inside cluster c. */
  ghost predicate IsWrite(a: seq<byte>, b: seq<byte>, l: Area, c: nat, off: nat, data: seq<byte>) {
    && l.Within(|a|) && l.InArea(c) && off + |data| <= l.clusterSize
    && l.Pos(c) + off + |data| <= |a|
    && b == Overwrite(a, l.Pos(c) + off, data)
  }

  lemma WriteOther(a: seq<byte>, b: seq<byte>, l: Area, c: nat, off: nat, data: seq<byte>, d: nat)
    requires IsWrite(a, b, l, c, off, data) && l.InArea(d) && d != c
    ensures ClusterBytes(b, l, d) == ClusterBytes(a, l, d)
  {
    ClusterRange(l, |a|, d);
    if c < d { ClustersApart(l, c, d); } else { ClustersApart(l, d, c); }
    OverwriteElsewhere(a, l.Pos(c) + off, data, l.Pos(d), l.Pos(d) + l.clusterSize);
  }

  lemma WriteSame(a: seq<byte>, b: seq<byte>, l: Area, c: nat, off: nat, data: seq<byte>)
    requires IsWrite(a, b, l, c, off, data)
    ensures ClusterBytes(b, l, c) == Overwrite(ClusterBytes(a, l, c), off, data)
  {
    ClusterRange(l, |a|, c);
    OverwriteInside(a, l.Pos(c) + off, data, l.Pos(c), l.Pos(c) + l.clusterSize);
  }

  /** A write to a cluster outside the chain does not show in its content. */
  lemma WriteElsewhere(a: seq<byte>, b: seq<byte>, l: Area, c: nat, off: nat, data: seq<byte>, ch: Chain)
    requires IsWrite(a, b, l, c, off, data) && InArea(l, ch) && c !in ch
    ensures Content(b, l, ch) == Content(a, l, ch)
  {
    forall i | 0 <= i < |ch| ensures ClusterBytes(a, l, ch[i]) == ClusterBytes(b, l, ch[i]) {
      WriteOther(a, b, l, c, off, data, ch[i]);
    }
    ContentFrame(a, b, l, ch);
  }

  /** Filling up the last cluster appends to what the chain held before. */
  lemma WriteAppends(a: seq<byte>, b: seq<byte>, l: Area, ch: Chain, off: nat, data: seq<byte>)
    requires 0 < |ch| && InArea(l, ch) && ch[|ch| - 1] !in ch[..|ch| - 1]
    requires IsWrite(a, b, l, ch[|ch| - 1], off, data)
    ensures
      var total := Span(|ch| - 1, l.clusterSize) + off;
      && total + |data| <= Span(|ch|, l.clusterSize)
      && Content(b, l, ch)[..total + |data|] == Content(a, l, ch)[..total] + data
      && Content(b, l, ch)[total + |data|..] == Content(a, l, ch)[total + |data|..]
  {
    var n := |ch| - 1;
    WriteElsewhere(a, b, l, ch[n], off, data, ch[..n]);
    WriteSame(a, b, l, ch[n], off, data);
    AppendTail(Content(a, l, ch[..n]), ClusterBytes(a, l, ch[n]), ClusterBytes(b, l, ch[n]), off, data);
  }

  lemma AppendTail(p: seq<byte>, x: seq<byte>, y: seq<byte>, off: nat, data: seq<byte>)
    requires off + |data| <= |x| && y == Overwrite(x, off, data)
    ensures (p + y)[..|p| + off + |data|] == (p + x)[..|p| + off] + data
    ensures (p + y)[|p| + off + |data|..] == (p + x)[|p| + off + |data|..]
  {
    var i, j := |p| + off, |p| + off + |data|;
    assert (p + y)[..j] == p + y[..off + |data|];
    assert (p + x)[..i] == p + x[..off];
    assert y[..off + |data|] == x[..off] + data;
    assert (p + y)[j..] == y[off + |data|..] && (p + x)[j..] == x[off + |data|..];
  }
}
