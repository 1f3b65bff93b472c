/** The multiboot header of a kernel image. */
module Multiboot {
  import opened Bytes

  const MAGIC: u32 := 0x1BAD_B002
  /** The size of a header with the address fields, and of the part that is checked. */
  const HEADER := 32
  const CHECKED := 12

  datatype Header = Header(
    magic: u32, flags: u32, checksum: u32,
    hdrAddr: u32, loadAddr: u32, loadEndAddr: u32, bssEndAddr: u32, entryAddr: u32)
  {
    /** `~(magic + flags) + 1` in 32 bits. */
    predicate IsValid() {
      var sum := (magic + flags) % U32_LIMIT;
      magic == MAGIC && checksum == (U32_LIMIT - 1 - sum + 1) % U32_LIMIT
    }

    /** Start in the file, start in memory and number of bytes to load. */
    function ExtractMemLayout(hdrFileOffset: u32, filesize: u32): Option<(u32, u32, u32)> {
      if loadEndAddr <= loadAddr then None
      else
        var count := loadEndAddr - loadAddr;
        if bssEndAddr < loadAddr then None
        else if hdrAddr < loadAddr || hdrAddr >= loadEndAddr then None
        else if entryAddr < loadAddr || entryAddr >= loadEndAddr then None
        else
          var hdrMemOffset := hdrAddr - loadAddr;
          if hdrMemOffset > hdrFileOffset then None
          else
            var fileStart := if hdrFileOffset > hdrMemOffset then hdrFileOffset - hdrMemOffset else 0;
            if count <= (filesize - fileStart) % U32_LIMIT then Some((fileStart, loadAddr, count)) else None
    }

    function BSSSize(): u32 { if bssEndAddr > loadEndAddr then bssEndAddr - loadEndAddr else 0 }
  }

  /** Section 3.1.2 of the Multiboot Specification: magic, flags and checksum add up to zero. */
  predicate AddsUp(magic: u32, flags: u32, checksum: u32) {
    magic == 0x1BAD_B002 && (magic + flags + checksum) % U32_LIMIT == 0
  }

  lemma ChecksumMeaning(h: Header)
    ensures h.IsValid() <==> AddsUp(h.magic, h.flags, h.checksum)
  {
    var sum := (h.magic + h.flags) % U32_LIMIT;
    assert (h.magic + h.flags + h.checksum) % U32_LIMIT == (sum + h.checksum) % U32_LIMIT;
  }

  /** Load, header, entry and end addresses are in order, and a file of that size, with the header
      at `offset`, holds all bytes to load. */
  predicate InOrder(offset: int, filesize: int, hdr: int, load: int, loadEnd: int, bssEnd: int, entry: int) {
    && load <= hdr < loadEnd && load <= entry < loadEnd && load <= bssEnd
    && 0 <= offset - (hdr - load) && offset - (hdr - load) + (loadEnd - load) <= filesize
  }

  /** For a header found inside the file: the layout is accepted exactly when its addresses are in
      order; the bytes then put the header at the address it declares. */
  lemma LayoutMeaning(h: Header, offset: u32, filesize: u32)
    requires offset <= filesize
    ensures
      h.ExtractMemLayout(offset, filesize).Some? <==>
      InOrder(offset, filesize, h.hdrAddr, h.loadAddr, h.loadEndAddr, h.bssEndAddr, h.entryAddr)
    ensures
      match h.ExtractMemLayout(offset, filesize)
      case None => true
      case Some((fileStart, memStart, count)) =>
        && memStart == h.loadAddr && memStart + count == h.loadEndAddr && 0 < count
        && fileStart == offset - (h.hdrAddr - h.loadAddr) && fileStart + count <= filesize
        && fileStart <= offset < fileStart + count && memStart + (offset - fileStart) == h.hdrAddr
  {
    if offset > h.hdrAddr - h.loadAddr >= 0 {
      var fileStart := offset - (h.hdrAddr - h.loadAddr);
      assert (filesize - fileStart) % U32_LIMIT == filesize - fileStart;
    }
  }

  /** The header in memory: eight little-endian words. */
  function Parse(s: seq<byte>): Header
    requires |s| == HEADER
  {
    Header(WordAt(s, 0), WordAt(s, 4), WordAt(s, 8), WordAt(s, 12), WordAt(s, 16), WordAt(s, 20), WordAt(s, 24), WordAt(s, 28))
  }

  predicate MagicAt(data: seq<byte>, p: nat) { p + 4 <= |data| && WordAt(data, p) == MAGIC }

  /** The file holds a header at p: magic, flags and checksum are there, and they are right. */
  predicate ValidAt(data: seq<byte>, p: nat) {
    p + 12 <= |data| && AddsUp(WordAt(data, p), WordAt(data, p + 4), WordAt(data, p + 8))
  }

  /** A successful read: `n` bytes from p on, as far as the file has them. */
  function FileRead(data: seq<byte>, p: nat, n: nat): (r: seq<byte>)
    ensures |r| == if p >= |data| then 0 else Min(n, |data| - p)
  {
    if p >= |data| then [] else data[p..Min(p + n, |data|)]
  }

  /** Reading a header into `stale`; at the end of the file the rest of it keeps its old bytes. */
  function ReadHeader(data: seq<byte>, p: nat, stale: seq<byte>): (r: seq<byte>)
    requires |stale| == HEADER
    ensures |r| == HEADER
  {
    var x := FileRead(data, p, HEADER);
    x + stale[|x|..]
  }

  lemma HeaderWord(data: seq<byte>, p: nat, stale: seq<byte>, o: nat)
    requires |stale| == HEADER && o + 4 <= HEADER && p + o + 4 <= |data|
    ensures WordAt(ReadHeader(data, p, stale), o) == WordAt(data, p + o)
  {
  }

  /** Where the checked words are in the file, the check tells whether it has a header there. */
  lemma HeaderChecked(data: seq<byte>, p: nat, stale: seq<byte>)
    requires |stale| == HEADER && p + CHECKED <= |data|
    ensures Parse(ReadHeader(data, p, stale)).IsValid() <==> ValidAt(data, p)
  {
    HeaderWord(data, p, stale, 0);
    HeaderWord(data, p, stale, 4);
    HeaderWord(data, p, stale, 8);
    ChecksumMeaning(Parse(ReadHeader(data, p, stale)));
  }

  /** The checksum that goes with some flags. */
  function Needed(flags: u32): u32 { (U32_LIMIT - (MAGIC + flags) % U32_LIMIT) % U32_LIMIT }

  /** The file ends inside the checked words, and what it has of them fits a valid header. */
  predicate CutOff(data: seq<byte>, p: nat) {
    && p + 4 <= |data| < p + CHECKED
    && (|data| > p + 8 ==> data[p + 8..] == Encode32(Needed(WordAt(data, p + 4)))[..|data| - p - 8])
  }

  lemma {:induction false} Encode32Unique(b0: byte, b1: byte, b2: byte, b3: byte)
    ensures Encode32(Word32(b0, b1, b2, b3)) == [b0, b1, b2, b3]
  {
    var v := Word32(b0, b1, b2, b3);
    var r: int := b1 + 0x100 * b2 + 0x1_0000 * b3;
    assert v == 0x100 * r + b0;
    assert v / 0x100 == r && v % 0x100 == b0;
    var q: int := b2 + 0x100 * b3;
    assert r == 0x100 * q + b1;
    assert r / 0x100 == q && r % 0x100 == b1;
    assert q / 0x100 == b3 && q % 0x100 == b2;
  }

  lemma ValidHeader(h: Header)
    ensures h.IsValid() <==> h.magic == MAGIC && h.checksum == Needed(h.flags)
  {
  }

  /** The bytes of a header that was read at p. */
  lemma HeaderBytes(data: seq<byte>, p: nat, stale: seq<byte>)
    requires |stale| == HEADER && p <= |data|
    ensures
      var r := ReadHeader(data, p, stale);
      forall i :: 0 <= i < HEADER ==> r[i] == if p + i < |data| then data[p + i] else stale[i]
  {
  }

  /** Old bytes can complete what the file has to a valid header if and only if it is cut off. */
  lemma Fooled(data: seq<byte>, p: nat, stale: seq<byte>)
    requires MagicAt(data, p) && |data| < p + CHECKED && |stale| == HEADER
    requires Parse(ReadHeader(data, p, stale)).IsValid()
    ensures CutOff(data, p)
  {
    var r := ReadHeader(data, p, stale);
    ValidHeader(Parse(r));
    if |data| > p + 8 {
      HeaderBytes(data, p, stale);
      HeaderWord(data, p, stale, 4);
      Encode32Unique(r[8], r[9], r[10], r[11]);
      assert Encode32(Needed(WordAt(data, p + 4))) == [r[8], r[9], r[10], r[11]];
    }
  }

  lemma FoolingBytes(data: seq<byte>, p: nat) returns (stale: seq<byte>)
    requires MagicAt(data, p) && CutOff(data, p)
    ensures |stale| == HEADER && Parse(ReadHeader(data, p, stale)).IsValid()
  {
    var zero := Zeros(HEADER);
    var need := Needed(WordAt(ReadHeader(data, p, zero), 4));
    var e := Encode32(need);
    stale := Zeros(8) + e + Zeros(20);
    var r := ReadHeader(data, p, stale);
    HeaderWord(data, p, stale, 0);
    HeaderBytes(data, p, stale);
    HeaderBytes(data, p, zero);
    assert WordAt(r, 4) == WordAt(ReadHeader(data, p, zero), 4) by {
      assert forall i :: 4 <= i < 8 ==> r[i] == ReadHeader(data, p, zero)[i];
    }
    if |data| > p + 8 { HeaderWord(data, p, zero, 4); }
    ChecksumCompleted(data, p, stale, e);
    Encode32RoundTrip(need);
    ValidHeader(Parse(r));
  }

  lemma ChecksumCompleted(data: seq<byte>, p: nat, stale: seq<byte>, e: seq<byte>)
    requires |stale| == HEADER && |e| == 4 && stale[8..12] == e && p + 4 <= |data| < p + CHECKED
    requires |data| > p + 8 ==> data[p + 8..] == e[..|data| - p - 8]
    ensures WordAt(ReadHeader(data, p, stale), 8) == WordAt(e, 0)
  {
    HeaderBytes(data, p, stale);
    var r := ReadHeader(data, p, stale);
    forall i | 0 <= i < 4 ensures r[8 + i] == e[i] {
      assert e[i] == stale[8..12][i] == stale[8 + i];
      if p + 8 + i < |data| { assert data[p + 8 + i] == data[p + 8..][i] == e[i]; }
    }
  }

  /** Behind the magic word the check tells whether the file has a header there, whatever memory
      held before, if and only if the header is not cut off. */
  lemma ShortHeader(data: seq<byte>, p: nat)
    requires MagicAt(data, p)
    ensures
      (forall stale: seq<byte> {:trigger ReadHeader(data, p, stale)} :: |stale| == HEADER ==>
        (Parse(ReadHeader(data, p, stale)).IsValid() <==> ValidAt(data, p)))
      <==> !CutOff(data, p)
  {
    forall stale: seq<byte> | |stale| == HEADER && !CutOff(data, p)
      ensures Parse(ReadHeader(data, p, stale)).IsValid() <==> ValidAt(data, p)
    {
      if p + CHECKED <= |data| {
        HeaderChecked(data, p, stale);
      } else if Parse(ReadHeader(data, p, stale)).IsValid() {
        Fooled(data, p, stale);
      }
    }
    if CutOff(data, p) {
      var stale := FoolingBytes(data, p);
      assert Parse(ReadHeader(data, p, stale)).IsValid();
    }
  }
}
