/** The info sector of a volume: the number of free clusters, and where to look for one. */
module FsInfo {
  import opened Bytes

  const SIZE := 512

  /** The three signatures are in place. */
  predicate IsValid(info: seq<byte>)
    requires |info| == SIZE
  {
    WordAt(info, 0) == 0x4161_5252 && WordAt(info, 484) == 0x6141_7272 && WordAt(info, 508) == 0xAA55_0000
  }

  /** After `SetNextFreeCluster` and `SetNumFreeCluster`. */
  function WithCounts(info: seq<byte>, next: u32, free: u32): (r: seq<byte>)
    requires |info| == SIZE
    ensures |r| == SIZE
  {
    Overwrite(Overwrite(info, 492, Encode32(next)), 488, Encode32(free))
  }

  /** Both numbers read back, and the sector stays valid. */
  lemma CountsReadBack(info: seq<byte>, next: u32, free: u32)
    requires |info| == SIZE
    ensures
      var r := WithCounts(info, next, free);
      WordAt(r, 488) == free && WordAt(r, 492) == next && (IsValid(r) <==> IsValid(info))
  {
    var a := Overwrite(info, 492, Encode32(next));
    var r := Overwrite(a, 488, Encode32(free));
    WrittenWord(info, 492, next);
    WrittenWord(a, 488, free);
    OtherWord(a, 488, free, 492);
    OtherWord(info, 492, next, 0);
    OtherWord(info, 492, next, 484);
    OtherWord(info, 492, next, 508);
    OtherWord(a, 488, free, 0);
    OtherWord(a, 488, free, 484);
    OtherWord(a, 488, free, 508);
  }

  lemma WrittenWord(s: seq<byte>, p: nat, v: u32)
    requires p + 4 <= |s|
    ensures WordAt(Overwrite(s, p, Encode32(v)), p) == v
  {
    var e, r := Encode32(v), Overwrite(s, p, Encode32(v));
    assert r[p] == e[0] && r[p + 1] == e[1] && r[p + 2] == e[2] && r[p + 3] == e[3];
    Encode32RoundTrip(v);
  }

  lemma OtherWord(s: seq<byte>, p: nat, v: u32, q: nat)
    requires p + 4 <= |s| && q + 4 <= |s| && (q + 4 <= p || p + 4 <= q)
    ensures WordAt(Overwrite(s, p, Encode32(v)), q) == WordAt(s, q)
  {
    var r := Overwrite(s, p, Encode32(v));
    assert r[q] == s[q] && r[q + 1] == s[q + 1] && r[q + 2] == s[q + 2] && r[q + 3] == s[q + 3];
  }

  /** The sector of an image that starts at `at` has these counts, and is `info` otherwise. */
  ghost predicate HasCounts(img: seq<byte>, at: nat, info: seq<byte>, free: int, next: int) {
    && at + 512 <= |img| && |info| == 512
    && WordAt(img, at + 488) == free && WordAt(img, at + 492) == next
    && forall i :: 0 <= i < 488 || 496 <= i < 512 ==> img[at + i] == info[i]
  }

  lemma CountsWritten(img: seq<byte>, at: nat, info: seq<byte>, next: u32, free: u32)
    requires |info| == SIZE && at + SIZE <= |img|
    ensures HasCounts(Overwrite(img, at, WithCounts(info, next, free)), at, info, free, next)
  {
    var c := WithCounts(info, next, free);
    CountsReadBack(info, next, free);
    WordInside(img, at, c, 488);
    WordInside(img, at, c, 492);
    CountsOthers(info, next, free);
  }

  lemma WordInside(s: seq<byte>, p: nat, data: seq<byte>, q: nat)
    requires p + |data| <= |s| && q + 4 <= |data|
    ensures WordAt(Overwrite(s, p, data), p + q) == WordAt(data, q)
  {
    var r := Overwrite(s, p, data);
    assert r[p + q] == data[q] && r[p + q + 1] == data[q + 1] && r[p + q + 2] == data[q + 2] && r[p + q + 3] == data[q + 3];
  }

  lemma CountsOthers(info: seq<byte>, next: u32, free: u32)
    requires |info| == SIZE
    ensures forall i :: 0 <= i < 488 || 496 <= i < 512 ==> WithCounts(info, next, free)[i] == info[i]
  {
  }
}
