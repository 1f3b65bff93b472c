/** Bytes, little-endian words and slices, shared by every on-disk structure. */
module Bytes {

  type byte = x: int | 0 <= x < 256
  type u16 = x: int | 0 <= x < 0x1_0000
  type u32 = x: int | 0 <= x < U32_LIMIT

  const U32_LIMIT := 0x1_0000_0000

  datatype Option<+T> = None | Some(value: T)

  /** The value of a call, or the exception that ended it. */
  datatype Result<+T> = Ok(value: T) | Throws

  /** Always true.  A definition `forall u {:trigger Open(u)} :: Open(u) && P` says P, but proofs
      look into it only where they mention `Open`. */
  ghost predicate Open(u: int) { true }

  function Min(a: int, b: int): int { if a <= b then a else b }

  function Word16(b0: byte, b1: byte): u16 { b0 + 0x100 * b1 }

  function Word32(b0: byte, b1: byte, b2: byte, b3: byte): u32 {
    b0 + 0x100 * b1 + 0x1_0000 * b2 + 0x100_0000 * b3
  }

  /** The 32-bit little-endian word at byte position p. */
  function WordAt(s: seq<byte>, p: nat): u32
    requires p + 4 <= |s|
  {
    Word32(s[p], s[p + 1], s[p + 2], s[p + 3])
  }

  function Encode32(v: u32): (s: seq<byte>)
    ensures |s| == 4
  {
    var r := v / 0x100;
    var q := r / 0x100;
    [v % 0x100, r % 0x100, q % 0x100, q / 0x100]
  }

  function Encode16(v: u16): (s: seq<byte>)
    ensures |s| == 2
  {
    [v % 0x100, v / 0x100]
  }

  lemma Encode32RoundTrip(v: u32)
    ensures WordAt(Encode32(v), 0) == v
  {
  }

  lemma Encode16RoundTrip(v: u16)
    ensures Word16(Encode16(v)[0], Encode16(v)[1]) == v
  {
  }

  /** `data` written over s from position p on. */
  function Overwrite(s: seq<byte>, p: nat, data: seq<byte>): (r: seq<byte>)
    requires p + |data| <= |s|
    ensures |r| == |s|
  {
    s[..p] + data + s[p + |data|..]
  }

  /** A slice that the written range does not meet reads as before. */
  lemma OverwriteElsewhere(s: seq<byte>, p: nat, data: seq<byte>, a: nat, b: nat)
    requires p + |data| <= |s| && a <= b <= |s| && (b <= p || p + |data| <= a)
    ensures Overwrite(s, p, data)[a..b] == s[a..b]
  {
  }

  lemma OverwriteBefore(s: seq<byte>, p: nat, data: seq<byte>, a: nat)
    requires p + |data| <= a <= |s|
    ensures Overwrite(s, p, data)[a..] == s[a..]
  {
    var r := Overwrite(s, p, data);
    assert forall i :: a <= i < |s| ==> r[i] == s[i];
  }

  /** A slice that contains the written range. */
  lemma OverwriteInside(s: seq<byte>, p: nat, data: seq<byte>, a: nat, b: nat)
    requires a <= p && p + |data| <= b <= |s|
    ensures Overwrite(s, p, data)[a..b] == Overwrite(s[a..b], p - a, data)
  {
  }

  lemma OverwriteAll(s: seq<byte>, data: seq<byte>)
    requires |s| == |data|
    ensures Overwrite(s, 0, data) == data
  {
  }

  /** A slice x of s, and a slice of x. */
  lemma SliceOfSlice(s: seq<byte>, x: seq<byte>, c: nat, a: nat, n: nat)
    requires c + |x| <= |s| && x == s[c..c + |x|] && a + n <= |x|
    ensures x[a..a + n] == s[c + a..c + a + n]
  {
    var y := s[c + a..c + a + n];
    assert forall i :: 0 <= i < |y| ==> x[a..a + n][i] == y[i];
  }

  lemma ConcatAssoc(a: seq<byte>, b: seq<byte>, c: seq<byte>)
    ensures (a + b) + c == a + (b + c)
  {
  }

  lemma SliceJoin(s: seq<byte>, a: nat, b: nat, c: nat)
    requires a <= b <= c <= |s|
    ensures s[a..b] + s[b..c] == s[a..c]
  {
  }

  function Zeros(n: nat): (s: seq<byte>)
    ensures |s| == n && forall i :: 0 <= i < n ==> s[i] == 0
  {
    seq(n, _ => 0)
  }

  function Flatten(chunks: seq<seq<byte>>): seq<byte> {
    if chunks == [] then [] else Flatten(chunks[..|chunks| - 1]) + chunks[|chunks| - 1]
  }

  /** The first i + 1 pieces are no longer than all of them. */
  lemma {:induction false} FlattenPrefix(chunks: seq<seq<byte>>, i: nat)
    requires i < |chunks|
    ensures |Flatten(chunks[..i])| + |chunks[i]| <= |Flatten(chunks)|
    decreases |chunks|
  {
    var n := |chunks| - 1;
    if i < n {
      FlattenPrefix(chunks[..n], i);
      assert chunks[..n][..i] == chunks[..i];
    }
  }

  lemma FlattenSnoc(chunks: seq<seq<byte>>, c: seq<byte>)
    ensures Flatten(chunks + [c]) == Flatten(chunks) + c
  {
    assert (chunks + [c])[..|chunks|] == chunks;
  }
}
