/** fatedit's `FileWriter`: appends bytes to a chain, taking clusters as needed. */
module FileWriter {
  import opened Bytes
  import opened FatSuper
  import opened FatChains
  import opened FatRaw
  import opened FatState
  import opened FatAppend
  import opened Volume

  class FileWriter {
    const vol: Volume
    var cur: Cursor
    /** Which of the volume's chains this is. */
    ghost const k: nat

    ghost function State(): Writer
      reads this, vol
    {
      Writer(vol.disk, vol.files, cur)
    }

    ghost predicate Shape()
      reads this, vol
    {
      Ready(vol.super, vol.area, k, State())
    }

    /** Between calls the chain has max(1, ceil(totalSize / cluster size)) clusters. */
    ghost predicate Valid()
      reads this, vol
    {
      Shape() && (0 < cur.offset || |vol.files.chains[k]| == 1)
    }

    /** What has been written so far. */
    ghost function Contents(): seq<byte>
      reads this, vol
      requires Shape()
    {
      Stored(vol.super, vol.area, k, State())
    }

    constructor (vol: Volume, cur: Cursor, ghost k: nat)
      ensures this.vol == vol && this.cur == cur && this.k == k
    {
      this.vol := vol;
      this.cur := cur;
      this.k := k;
    }

    /** `_cluster = fat.AllocateCluster(_cluster)` for a writer that filled its cluster. */
    method NextCluster() returns (ok: bool)
      requires Shape() && cur.offset == vol.area.clusterSize
      modifies this`cur, vol`disk, vol`files
      ensures ok == old(HasFree(vol.area, vol.disk.raw))
      ensures !ok ==> State() == old(State())
      ensures ok ==> cur.offset == 0
      ensures Appended(vol.super, vol.area, k, old(State()), State(), [])
    {
      var r := vol.AllocateClusterAfter(cur.cluster, k);
      if r.Throws? {
        AppendedNothing(vol.super, vol.area, k, State());
        return false;
      }
      ClusterAdded(vol.super, vol.area, k, old(State()), vol.disk, vol.files, r.value);
      cur := cur.(cluster := r.value, offset := 0);
      ok := true;
    }

    /** One `WriteAt` into the current cluster. */
    method WriteChunk(data: seq<byte>)
      requires Shape() && cur.offset + |data| <= vol.area.clusterSize
      requires vol.area.Pos(cur.cluster) + cur.offset + |data| <= |vol.disk.img|
      modifies this`cur, vol`disk
      ensures State() == AfterChunk(vol.area, old(State()), data)
    {
      var at := vol.ClusterFileOffset(cur.cluster);
      vol.disk := vol.disk.(img := Overwrite(vol.disk.img, at + cur.offset, data));
      cur := cur.(offset := cur.offset + |data|, totalSize := (cur.totalSize + |data|) % U32_LIMIT);
    }

    /** One round of the loop in `Append`: fills the current cluster, or takes another one. */
    method AppendRound(data: seq<byte>, pos: nat, ghost start: Writer) returns (ok: bool, n: nat)
      requires pos < |data| && Appended(vol.super, vol.area, k, start, State(), data[..pos])
      modifies this`cur, vol`disk, vol`files
      ensures pos + n <= |data| && Appended(vol.super, vol.area, k, start, State(), data[..pos + n])
      ensures n > 0 ==> cur.offset > 0
      ensures ok && n == 0 ==> cur.offset == 0 < old(cur.offset)
      ensures !ok ==>
        n == 0 && State() == old(State()) && cur.offset == vol.area.clusterSize && !HasFree(vol.area, vol.disk.raw)
    {
      var diff := vol.area.clusterSize - cur.offset;
      if diff > |data| - pos {
        diff := |data| - pos;
      }
      if diff == 0 {
        ok := NextCluster();
        ClusterStep(vol.super, vol.area, k, start, old(State()), State(), data[..pos]);
        return ok, 0;
      }
      ChunkStep(vol.super, vol.area, k, start, State(), data, pos, diff);
      WriteChunk(data[pos..pos + diff]);
      return true, diff;
    }

    /** Appends all data if the clusters of the chain and those that can still be taken hold it;
        otherwise it fills them and throws. */
    method Append(data: seq<byte>) returns (ok: bool, ghost written: nat)
      requires Valid()
      modifies this`cur, vol`disk, vol`files
      ensures Valid()
      ensures ok <==> old(CanTake(vol.area, k, State(), |data|))
      ensures written <= |data| && (ok <==> written == |data|)
      ensures !ok ==> old(cur.totalSize) + written == Span(old(Reach(vol.area, k, State())), vol.area.clusterSize)
      ensures !ok ==> !HasFree(vol.area, vol.disk.raw)
      ensures Appended(vol.super, vol.area, k, old(State()), State(), data[..written])
    {
      var pos := 0;
      ok := true;
      AppendedNothing(vol.super, vol.area, k, State());
      while ok && pos < |data|
        invariant 0 <= pos <= |data|
        invariant Appended(vol.super, vol.area, k, old(State()), State(), data[..pos])
        invariant pos == |data| || !ok ==> 0 < cur.offset || |vol.files.chains[k]| == 1
        invariant !ok ==> pos < |data| && cur.offset == vol.area.clusterSize && !HasFree(vol.area, vol.disk.raw)
        decreases ok, |data| - pos, cur.offset
      {
        var n;
        ok, n := AppendRound(data, pos, old(State()));
        pos := pos + n;
      }
      written := pos;
      AppendEnds(vol.super, vol.area, k, old(State()), State(), data, pos);
    }
  }

  /** `FileWriter()`: a new, empty file on a cluster of its own; null if none is free. */
  method NewFile(vol: Volume) returns (w: FileWriter?)
    requires vol.Valid()
    modifies vol`disk, vol`files
    ensures vol.Valid() && vol.disk.img == old(vol.disk.img) && CleanStep(old(vol.disk.raw), vol.disk.raw)
    ensures w == null <==> !old(HasFree(vol.area, vol.disk.raw))
    ensures w == null ==> vol.disk == old(vol.disk) && vol.files == old(vol.files)
    ensures w != null ==> fresh(w) && w.vol == vol && w.Valid() && w.cur.totalSize == 0 && w.Contents() == []
    ensures w != null ==>
      && w.k == |old(vol.files).chains| && vol.files == Files(old(vol.files).chains + [[w.cur.firstCluster]])
      && IsFree(Table(old(vol.disk.raw)), vol.area, w.cur.firstCluster) && w.cur.firstCluster < vol.area.count
      && (forall e :: 0 <= e < w.cur.firstCluster ==> Table(old(vol.disk.raw))[e] != 0)
      && Table(vol.disk.raw) == Table(old(vol.disk.raw))[w.cur.firstCluster := 0x0FFF_FFF8]
      && |Usable(vol.area, vol.disk.raw)| + 1 == |Usable(vol.area, old(vol.disk.raw))|
      && Clean(vol.disk.raw, vol.files.chains[w.k])
  {
    var r := vol.AllocateCluster();
    if r.Throws? {
      return null;
    }
    UsableTaken(vol.area, old(vol.disk.raw), vol.disk.raw, r.value, r.value);
    w := new FileWriter(vol, Cursor(r.value, 0, r.value, 0), |vol.files.chains| - 1);
  }

  /** `Append` of every chunk in turn, up to the one that throws.  All are written if and only if
      the clusters of the chain and those that can still be taken hold them. */
  method AppendAll(w: FileWriter, chunks: seq<seq<byte>>) returns (ok: bool, ghost written: seq<byte>)
    requires w.Valid()
    modifies w`cur, w.vol`disk, w.vol`files
    ensures w.Valid() && Appended(w.vol.super, w.vol.area, w.k, old(w.State()), w.State(), written)
    ensures ok <==> old(CanTake(w.vol.area, w.k, w.State(), |Flatten(chunks)|))
    ensures ok ==> written == Flatten(chunks)
    ensures !ok ==> !HasFree(w.vol.area, w.vol.disk.raw)
  {
    ghost var s, l, start := w.vol.super, w.vol.area, w.State();
    AppendedNothing(s, l, w.k, start);
    written := [];
    var i := 0;
    while i < |chunks|
      invariant 0 <= i <= |chunks| && w.Valid() && written == Flatten(chunks[..i])
      invariant Appended(s, l, w.k, start, w.State(), written)
    {
      ghost var before := w.State();
      var good, n := w.Append(chunks[i]);
      AppendedMeasure(s, l, w.k, start, before, written);
      AppendedTwice(s, l, w.k, start, before, w.State(), written, chunks[i][..n]);
      FlattenPrefix(chunks, i);
      written := written + chunks[i][..n];
      if !good {
        CannotTake(l, w.k, start, before, |written| - n, |chunks[i]|, |Flatten(chunks)|);
        return false, written;
      }
      assert chunks[i][..n] == chunks[i];
      FlattenSnoc(chunks[..i], chunks[i]);
      assert chunks[..i + 1] == chunks[..i] + [chunks[i]];
      i := i + 1;
    }
    assert chunks[..|chunks|] == chunks;
    AppendedMeasure(s, l, w.k, start, w.State(), written);
    return true, written;
  }

  /** Follows the chain for as long as more than a cluster remains.  Some(c, rest): the chain
      ends in cluster c, of which `rest` bytes are in use. */
  method FindEnd(raw: seq<byte>, l: Area, idx: u32, size: u32, ghost ch: Chain) returns (r: Option<(u32, nat)>)
    requires 0 < l.clusterSize && IsChain(Table(raw), ch) && ch[0] == idx
    ensures r.Some? <==> ChainMatches(l, ch, size)
    ensures r.Some? ==>
      && r.value.0 == Last(ch) && r.value.1 <= l.clusterSize
      && size == Span(|ch| - 1, l.clusterSize) + r.value.1 && (|ch| == 1 || 0 < r.value.1)
  {
    var cluster, rest := idx, size;
    ghost var i, m := 0, l.clusterSize;
    while rest > l.clusterSize
      invariant 0 <= i < |ch| && cluster == ch[i] && rest + Span(i, m) == size && (i > 0 ==> 0 < rest)
      decreases rest
    {
      ChainNext(raw, ch, i);
      var ent := NextClusterInFile(raw, cluster);
      if ent.Throws? || ent.value < 2 || ent.value >= END_OF_CHAIN {
        return None;
      }
      cluster := ent.value;
      rest := rest - l.clusterSize;
      i := i + 1;
    }
    ChainNext(raw, ch, i);
    var ent := NextClusterInFile(raw, cluster);
    if ent.Throws? || ent.value < END_OF_CHAIN {
      SpanMono(i + 1, |ch| - 1, m);
      return None;
    }
    return Some((cluster, rest));
  }

  /** `FileWriter(idx, size)`: continues chain k behind its first `size` bytes.  It throws
      unless the chain has exactly the clusters that many bytes need. */
  method OpenAt(vol: Volume, idx: u32, size: u32, ghost k: nat) returns (w: FileWriter?)
    requires vol.Valid() && k < |vol.files.chains| && vol.files.chains[k][0] == idx
    ensures w != null <==> ChainMatches(vol.area, vol.files.chains[k], size)
    ensures w != null ==> fresh(w) && w.vol == vol && w.k == k && w.Valid()
    ensures w != null ==> w.cur.totalSize == size && w.cur.firstCluster == idx
  {
    var r := FindEnd(vol.disk.raw, vol.area, idx, size, vol.files.chains[k]);
    if r.None? {
      return null;
    }
    w := new FileWriter(vol, Cursor(r.value.0, r.value.1, idx, size), k);
  }
}
