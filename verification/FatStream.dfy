/** The bytes a reader that follows the links of a table has still to deliver. */
module FatStream {
  import opened Bytes
  import opened FatSuper
  import opened FatChains
  import opened FatRaw
  import opened FatContent

  /** Where a reader stands; `size` is what its file still declares. */
  datatype Place = Place(cluster: u32, offset: nat, size: u32)

  /** Clusters of the data area that have entries, and that no link leads out of.  The links
      between them may form cycles. */
  ghost predicate ClosedUnder(t: seq<int>, l: Area, live: set<int>) {
    forall c :: c in live ==> l.InArea(c) && c < |t| && (IsLink(t[c]) ==> t[c] in live)
  }

  /** Following the links from c never leaves the data area; the rest of the table is free. */
  ghost predicate Walkable(t: seq<int>, l: Area, c: int) {
    exists live: set<int> :: c in live && ClosedUnder(t, l, live)
  }

  lemma WalkableHere(t: seq<int>, l: Area, c: int)
    requires Walkable(t, l, c)
    ensures l.InArea(c) && c < |t| && (IsLink(t[c]) ==> Walkable(t, l, t[c]))
  {
  }

  /** The clusters of a chain are such a set. */
  lemma ChainWalkable(t: seq<int>, l: Area, ch: Chain, i: nat)
    requires IsChain(t, ch) && InArea(l, ch) && i < |ch|
    ensures Walkable(t, l, ch[i])
  {
    var live: set<int> := set j | 0 <= j < |ch| :: ch[j];
    forall c | c in live ensures l.InArea(c) && c < |t| && (IsLink(t[c]) ==> t[c] in live) {
      var j :| 0 <= j < |ch| && ch[j] == c;
      if j + 1 < |ch| { assert t[ch[j]] == ch[j + 1]; }
    }
    assert ch[i] in live && ClosedUnder(t, l, live);
  }

  ghost predicate Readable(img: seq<byte>, raw: seq<byte>, l: Area, p: Place) {
    l.Within(|img|) && (p.size > 0 ==> Walkable(Table(raw), l, p.cluster))
  }

  /** `DataLeftInCluster` */
  function Left(l: Area, p: Place): nat {
    var avail := if p.offset < l.clusterSize then l.clusterSize - p.offset else 0;
    Min(avail, p.size)
  }

  /** The next n bytes of the current cluster. */
  ghost function Chunk(img: seq<byte>, l: Area, p: Place, n: nat): seq<byte>
    requires l.Within(|img|) && l.InArea(p.cluster) && p.offset + n <= l.clusterSize
  {
    ClusterBytes(img, l, p.cluster)[p.offset..p.offset + n]
  }

  function Skip(p: Place, n: nat): Place
    requires n <= p.size
  {
    p.(offset := p.offset + n, size := p.size - n)
  }

  /** The rest of the stream: cut at the declared size, or where the links end.  On a cyclic
      table the clusters repeat until the size is used up. */
  ghost function Rest(img: seq<byte>, raw: seq<byte>, l: Area, p: Place): seq<byte>
    requires Readable(img, raw, l, p)
    decreases p.size, if p.offset < l.clusterSize then 0 else 1
  {
    if p.size == 0 then []
    else if p.offset < l.clusterSize then
      var n := Min(l.clusterSize - p.offset, p.size);
      Chunk(img, l, p, n) + Rest(img, raw, l, Skip(p, n))
    else
      var e := Table(raw)[p.cluster];
      if IsLink(e) then Rest(img, raw, l, Place(e, 0, p.size)) else []
  }

  /** Taking part of the current cluster leaves the rest of the stream. */
  lemma TakeSome(img: seq<byte>, raw: seq<byte>, l: Area, p: Place, n: nat)
    requires Readable(img, raw, l, p) && 0 < n <= Left(l, p)
    ensures Readable(img, raw, l, Skip(p, n))
    ensures Rest(img, raw, l, p) == Chunk(img, l, p, n) + Rest(img, raw, l, Skip(p, n))
  {
    var m, q := Left(l, p), Skip(p, n);
    if n < m {
      assert Left(l, q) == m - n && Skip(q, m - n) == Skip(p, m);
      SliceJoin(ClusterBytes(img, l, p.cluster), p.offset, p.offset + n, p.offset + m);
      var x, y, z := Chunk(img, l, p, n), Chunk(img, l, q, m - n), Rest(img, raw, l, Skip(p, m));
      ConcatAssoc(x, y, z);
    }
  }

  /** `NextCluster`: to the linked cluster, or to the end of the stream. */
  function NextPlace(raw: seq<byte>, p: Place): Result<Place> {
    if p.size == 0 then Ok(Place(0, 0, 0))
    else
      match NextClusterInFile(raw, p.cluster)
      case Throws => Throws
      case Ok(e) => if e < 2 || e >= END_OF_CHAIN then Ok(Place(0, 0, 0)) else Ok(Place(e, 0, p.size))
  }

  lemma NextPlaceRest(img: seq<byte>, raw: seq<byte>, l: Area, p: Place)
    requires Readable(img, raw, l, p) && l.count < 0x0080_0000 && (p.size == 0 || p.offset >= l.clusterSize)
    ensures NextPlace(raw, p).Ok? && Readable(img, raw, l, NextPlace(raw, p).value)
    ensures Rest(img, raw, l, NextPlace(raw, p).value) == Rest(img, raw, l, p)
  {
    if p.size > 0 { NextIsEntry(raw, p.cluster); }
  }

  /** Between p0 and p the reader has delivered data. */
  ghost predicate Delivered(img: seq<byte>, raw: seq<byte>, l: Area, p0: Place, p: Place, data: seq<byte>) {
    var delivered :=
      && Readable(img, raw, l, p0) && Readable(img, raw, l, p)
      && Rest(img, raw, l, p0) == data + Rest(img, raw, l, p);
    delivered
  }

  lemma DeliverChunk(img: seq<byte>, raw: seq<byte>, l: Area, p0: Place, p: Place, data: seq<byte>, n: nat)
    requires Delivered(img, raw, l, p0, p, data) && 0 < n <= Left(l, p)
    ensures l.Within(|img|) && l.InArea(p.cluster)
    ensures Delivered(img, raw, l, p0, Skip(p, n), data + Chunk(img, l, p, n))
  {
    TakeSome(img, raw, l, p, n);
    var x, y := Chunk(img, l, p, n), Rest(img, raw, l, Skip(p, n));
    ConcatAssoc(data, x, y);
  }

  lemma DeliverNext(img: seq<byte>, raw: seq<byte>, l: Area, p0: Place, p: Place, data: seq<byte>)
    requires Delivered(img, raw, l, p0, p, data) && l.count < 0x0080_0000 && Left(l, p) == 0
    ensures NextPlace(raw, p).Ok? && Delivered(img, raw, l, p0, NextPlace(raw, p).value, data)
    ensures Left(l, NextPlace(raw, p).value) == 0 ==> Rest(img, raw, l, NextPlace(raw, p).value) == []
  {
    NextPlaceRest(img, raw, l, p);
  }

  /** A piece of a cluster is a piece of what the cluster is part of. */
  lemma ChunkOfSlice(img: seq<byte>, l: Area, all: seq<byte>, c: nat, p: Place, n: nat, from: nat)
    requires l.Within(|img|) && l.InArea(p.cluster) && p.offset + n <= l.clusterSize
    requires IsSlice(all, c, ClusterBytes(img, l, p.cluster)) && from == c + p.offset
    ensures from + n <= |all| && Chunk(img, l, p, n) == all[from..from + n]
  {
    SliceOfSlice(all, ClusterBytes(img, l, p.cluster), c, p.offset, n);
  }

  /** The reader has exactly `data` still to deliver; taken apart only where `Open` is mentioned. */
  ghost predicate Yields(img: seq<byte>, raw: seq<byte>, l: Area, p: Place, data: seq<byte>) {
    forall u: int {:trigger Open(u)} :: Open(u) && Readable(img, raw, l, p) && Rest(img, raw, l, p) == data
  }

  lemma YieldsNothing(img: seq<byte>, raw: seq<byte>, l: Area, p: Place)
    requires l.Within(|img|) && p.size == 0
    ensures Yields(img, raw, l, p, [])
  {
    assert Rest(img, raw, l, p) == [];
  }

  /** The rest of the current cluster, and what follows it. */
  lemma YieldsMore(img: seq<byte>, raw: seq<byte>, l: Area, p: Place, n: nat, all: seq<byte>, from: nat, to: nat)
    requires Readable(img, raw, l, p) && 0 < n == Left(l, p) && from + n <= to <= |all|
    requires Chunk(img, l, p, n) == all[from..from + n] && Yields(img, raw, l, Skip(p, n), all[from + n..to])
    ensures Yields(img, raw, l, p, all[from..to])
  {
    assert Open(0);
    TakeSome(img, raw, l, p, n);
    SliceJoin(all, from, from + n, to);
  }

  /** At the end of a cluster: what the next one yields, or nothing behind an end mark. */
  lemma YieldsNext(img: seq<byte>, raw: seq<byte>, l: Area, p: Place, data: seq<byte>)
    requires Readable(img, raw, l, p) && 0 < p.size && p.offset >= l.clusterSize
    ensures p.cluster < |raw| / 4
    ensures
      var e := Table(raw)[p.cluster];
      if IsLink(e) then
        e < U32_LIMIT && (Yields(img, raw, l, Place(e, 0, p.size), data) ==> Yields(img, raw, l, p, data))
      else Yields(img, raw, l, p, [])
  {
    WalkableHere(Table(raw), l, p.cluster);
    var e := Table(raw)[p.cluster];
    if !IsLink(e) {
      assert Rest(img, raw, l, p) == [];
    } else if Yields(img, raw, l, Place(e, 0, p.size), data) {
      assert Open(0);
      assert Rest(img, raw, l, p) == data;
    }
  }

  /** `all` is made of the clusters of a chain of the table; taken apart only where `Open` is
      mentioned. */
  ghost predicate ChainHolds(img: seq<byte>, raw: seq<byte>, l: Area, ch: Chain, all: seq<byte>) {
    forall u: int {:trigger Open(u)} ::
      Open(u) && l.Within(|img|) && IsChain(Table(raw), ch) && InArea(l, ch) && Covers(img, l, ch, all)
  }

  /** The reader stands in cluster i of a chain whose clusters make up `all`, with the bytes
      from..to still to come. */
  ghost predicate OnChain(
      img: seq<byte>, raw: seq<byte>, l: Area, ch: Chain, all: seq<byte>, i: nat, p: Place, from: nat, to: nat)
  {
    && ChainHolds(img, raw, l, ch, all)
    && i < |ch| && p.cluster == ch[i] && p.offset <= l.clusterSize
    && from == Span(i, l.clusterSize) + p.offset && to == Min(from + p.size, |all|)
  }

  lemma OnChainReadable(
      img: seq<byte>, raw: seq<byte>, l: Area, ch: Chain, all: seq<byte>, i: nat, p: Place, from: nat, to: nat)
    requires OnChain(img, raw, l, ch, all, i, p, from, to)
    ensures Readable(img, raw, l, p) && from <= to <= |all|
  {
    assert Open(0);
    ChainWalkable(Table(raw), l, ch, i);
    SpanMono(i, |ch|, l.clusterSize);
  }

  /** Reading on inside the cluster. */
  lemma OnChainData(
      img: seq<byte>, raw: seq<byte>, l: Area, ch: Chain, all: seq<byte>, i: nat, p: Place, from: nat, to: nat)
    requires OnChain(img, raw, l, ch, all, i, p, from, to) && 0 < Left(l, p)
    ensures l.Within(|img|) && l.InArea(p.cluster)
    ensures
      var n := Left(l, p);
      && from + n <= to && OnChain(img, raw, l, ch, all, i, Skip(p, n), from + n, to)
      && Chunk(img, l, p, n) == all[from..from + n]
  {
    assert Open(0);
    SpanMono(i, |ch|, l.clusterSize);
    ChunkOfSlice(img, l, all, Span(i, l.clusterSize), p, Left(l, p), from);
  }

  /** Moving on to the next cluster. */
  lemma OnChainLink(
      img: seq<byte>, raw: seq<byte>, l: Area, ch: Chain, all: seq<byte>, i: nat, p: Place, from: nat, to: nat)
    requires OnChain(img, raw, l, ch, all, i, p, from, to) && p.offset == l.clusterSize && i + 1 < |ch|
    ensures p.cluster < |raw| / 4 && Table(raw)[p.cluster] == ch[i + 1] && IsLink(ch[i + 1])
    ensures OnChain(img, raw, l, ch, all, i + 1, Place(ch[i + 1], 0, p.size), from, to)
  {
    assert Open(0);
    assert Table(raw)[ch[i]] == ch[i + 1];
  }

  /** The end of the chain. */
  lemma OnChainEnd(
      img: seq<byte>, raw: seq<byte>, l: Area, ch: Chain, all: seq<byte>, i: nat, p: Place, from: nat, to: nat)
    requires OnChain(img, raw, l, ch, all, i, p, from, to) && p.offset == l.clusterSize && i + 1 == |ch|
    ensures p.cluster < |raw| / 4 && !IsLink(Table(raw)[p.cluster]) && from == to
  {
    assert Open(0);
  }

  lemma {:induction false} RestIsCovered(
      img: seq<byte>, raw: seq<byte>, l: Area, ch: Chain, all: seq<byte>, i: nat, p: Place, from: nat, to: nat)
    requires OnChain(img, raw, l, ch, all, i, p, from, to)
    ensures from <= to <= |all| && Yields(img, raw, l, p, all[from..to])
    decreases p.size, |ch| - i
  {
    OnChainReadable(img, raw, l, ch, all, i, p, from, to);
    if p.size == 0 {
      YieldsNothing(img, raw, l, p);
      assert all[from..to] == [];
    } else if p.offset < l.clusterSize {
      var n := Left(l, p);
      OnChainData(img, raw, l, ch, all, i, p, from, to);
      RestIsCovered(img, raw, l, ch, all, i, Skip(p, n), from + n, to);
      YieldsMore(img, raw, l, p, n, all, from, to);
    } else {
      if i + 1 < |ch| {
        OnChainLink(img, raw, l, ch, all, i, p, from, to);
        RestIsCovered(img, raw, l, ch, all, i + 1, Place(ch[i + 1], 0, p.size), from, to);
      } else {
        OnChainEnd(img, raw, l, ch, all, i, p, from, to);
        assert all[from..to] == [];
      }
      YieldsNext(img, raw, l, p, all[from..to]);
    }
  }

  /** From the start of a chain the stream is its content, cut at the declared size. */
  lemma RestIsContent(img: seq<byte>, raw: seq<byte>, l: Area, ch: Chain, size: u32)
    requires l.Within(|img|) && IsChain(Table(raw), ch) && InArea(l, ch)
    ensures Readable(img, raw, l, Place(ch[0], 0, size))
    ensures
      var all := Content(img, l, ch);
      Rest(img, raw, l, Place(ch[0], 0, size)) == all[..Min(size, |all|)]
  {
    ContentCovers(img, l, ch);
    RestIsCovered(img, raw, l, ch, Content(img, l, ch), 0, Place(ch[0], 0, size), 0, Min(size, |Content(img, l, ch)|));
    assert Open(0);
  }
}
