/** fatedit's `FileReader`. */
module FileReader {
  import opened Bytes
  import opened FatSuper
  import opened FatContent
  import opened FatStream
  import opened Volume

  function Sum(sizes: seq<nat>): nat {
    if sizes == [] then 0 else Sum(sizes[..|sizes| - 1]) + sizes[|sizes| - 1]
  }

  lemma SumSnoc(sizes: seq<nat>, i: nat)
    requires i < |sizes|
    ensures Sum(sizes[..i + 1]) == Sum(sizes[..i]) + sizes[i]
  {
    assert sizes[..i + 1][..i] == sizes[..i];
  }

  class FileReader {
    const vol: Volume
    var place: Place
    var totalRead: nat

    ghost predicate Valid()
      reads this, vol
    {
      && Fits(vol.super, vol.area, |vol.disk.img|)
      && Readable(vol.disk.img, vol.disk.raw, vol.area, place)
    }

    /** What further reads will deliver. */
    ghost function Remaining(): seq<byte>
      reads this, vol
      requires Valid()
    {
      Rest(vol.disk.img, vol.disk.raw, vol.area, place)
    }

    constructor (vol: Volume, idx: u32, size: u32)
      ensures this.vol == vol && place == Place(idx, 0, size) && totalRead == 0
    {
      this.vol := vol;
      place := Place(idx, 0, size);
      totalRead := 0;
    }

    /** One `ReadAt` from the current cluster. */
    method ReadChunk(n: nat) returns (chunk: seq<byte>)
      requires Valid() && 0 < n <= Left(vol.area, place)
      ensures vol.area.Within(|vol.disk.img|) && vol.area.InArea(place.cluster)
      ensures chunk == Chunk(vol.disk.img, vol.area, place, n) && |chunk| == n
    {
      ghost var img, l := vol.disk.img, vol.area;
      ClusterRange(l, |img|, place.cluster);
      SliceOfSlice(img, ClusterBytes(img, l, place.cluster), l.Pos(place.cluster), place.offset, n);
      var offset := vol.super.ClusterFileOffset(place.cluster) + place.offset;
      chunk := vol.disk.img[offset..offset + n];
    }

    /** Delivers the next `size` bytes of the stream, or all that is left of it. */
    method Read(size: nat) returns (data: seq<byte>)
      requires Valid()
      modifies this`place, this`totalRead
      ensures Valid() && totalRead == old(totalRead) + |data|
      ensures old(Remaining()) == data + Remaining()
      ensures |data| == Min(size, |old(Remaining())|)
    {
      ghost var img, raw, l := vol.disk.img, vol.disk.raw, vol.area;
      data := [];
      assert Delivered(img, raw, l, place, place, []);
      while |data| < size
        invariant |data| <= size && totalRead == old(totalRead) && Delivered(img, raw, l, old(place), place, data)
        decreases size - |data|
      {
        var diff := Left(vol.area, place);
        if diff == 0 {
          DeliverNext(img, raw, l, old(place), place, data);
          place := NextPlace(vol.disk.raw, place).value;
          diff := Left(vol.area, place);
          if diff == 0 {
            break;
          }
        }
        if diff > size - |data| {
          diff := size - |data|;
        }
        DeliverChunk(img, raw, l, old(place), place, data, diff);
        var chunk := ReadChunk(diff);
        data := data + chunk;
        place := Skip(place, diff);
      }
      totalRead := totalRead + |data|;
    }

    /** Whatever the request sizes, the pieces are consecutive and add up to the stream. */
    method ReadPieces(sizes: seq<nat>) returns (pieces: seq<seq<byte>>)
      requires Valid()
      modifies this`place, this`totalRead
      ensures Valid() && |pieces| == |sizes|
      ensures old(Remaining()) == Flatten(pieces) + Remaining()
      ensures |Flatten(pieces)| == Min(Sum(sizes), |old(Remaining())|)
    {
      pieces := [];
      for i := 0 to |sizes|
        invariant Valid() && |pieces| == i
        invariant old(Remaining()) == Flatten(pieces) + Remaining()
        invariant |Flatten(pieces)| == Min(Sum(sizes[..i]), |old(Remaining())|)
      {
        ghost var before := Flatten(pieces);
        var piece := Read(sizes[i]);
        FlattenSnoc(pieces, piece);
        SumSnoc(sizes, i);
        pieces := pieces + [piece];
        ConcatAssoc(before, piece, Remaining());
      }
      assert sizes[..|sizes|] == sizes;
    }
  }
}
