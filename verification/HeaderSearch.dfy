/** Stage 2 looks for the multiboot header of a kernel file. */
module HeaderSearch {
  import opened Bytes
  import opened Arith
  import opened Multiboot
  import opened LoaderSpec
  import opened Loader
  import opened KernelFile

  const MAX_SEARCH := 8192

  /** Every aligned magic word is followed by a whole header; in a file of whole words the words
      that are checked are enough. */
  ghost predicate Complete(data: seq<byte>) {
    forall p: nat :: p % 4 == 0 && MagicAt(data, p) ==>
      p + HEADER <= |data| || (p + CHECKED <= |data| && |data| % 4 == 0)
  }

  ghost predicate Key(p: nat) { true }

  /** `valid` is `ValidAt`, looked up only where `Key` is mentioned. */
  ghost predicate Marks(valid: nat -> bool, data: seq<byte>) {
    forall p: nat {:trigger Key(p)} :: Key(p) && (valid(p) <==> ValidAt(data, p))
  }

  /** No header starts at a multiple of four below `limit`. */
  ghost predicate NoneBelow(valid: nat -> bool, limit: nat) {
    forall p: nat {:trigger valid(p)} :: p < limit && p % 4 == 0 ==> !valid(p)
  }

  /** Where the search may go on: behind `from`, at a word, or at the end of the file. */
  ghost predicate Resumes(size: nat, from: nat, ret: nat) {
    0 < ret && from + ret <= size && (ret % 4 == 0 || from + ret == size)
  }

  lemma WordsChecked(valid: nat -> bool, size: nat, from: nat, i: nat, ret: nat)
    requires forall p: nat {:trigger valid(p)} :: valid(p) ==> p + CHECKED <= size
    requires from % 4 == 0 && Resumes(size, from, ret) && i >= ret / 4 && NoneBelow(valid, from + 4 * i)
    ensures NoneBelow(valid, from + ret) && ((from + ret) % 4 == 0 || from + ret == size)
  {
    WholeWords(i, ret);
    CoversWords(valid, size, from, i, ret, ret % 4 == 0);
    AlignedSum(from, ret);
  }

  lemma CoversWords(valid: nat -> bool, size: nat, from: nat, i: nat, ret: nat, whole: bool)
    requires forall p: nat {:trigger valid(p)} :: valid(p) ==> p + CHECKED <= size
    requires 4 * i + 3 >= ret && (whole ==> 4 * i >= ret) && (whole || from + ret == size)
    requires NoneBelow(valid, from + 4 * i)
    ensures NoneBelow(valid, from + ret)
  {
  }

  lemma AlignedSum(a: nat, b: nat)
    requires a % 4 == 0
    ensures b % 4 == 0 ==> (a + b) % 4 == 0
  {
    if b % 4 == 0 { QuotientIs(a + b, 4, a / 4 + b / 4, 0); }
  }

  lemma WholeWords(i: nat, ret: nat)
    requires i >= ret / 4
    ensures 4 * i + 3 >= ret && (ret % 4 == 0 ==> 4 * i >= ret)
  {
  }

  lemma NextWord(valid: nat -> bool, from: nat, i: nat)
    requires from % 4 == 0 && NoneBelow(valid, from + 4 * i) && !valid(from + 4 * i)
    ensures NoneBelow(valid, from + 4 * (i + 1))
  {
  }

  lemma MarksInside(valid: nat -> bool, data: seq<byte>)
    requires Marks(valid, data)
    ensures forall p: nat {:trigger valid(p)} :: valid(p) ==> p + CHECKED <= |data|
  {
    forall p: nat | valid(p) ensures p + CHECKED <= |data| { assert Key(p); }
  }

  lemma CompleteAt(data: seq<byte>, p: nat)
    requires Complete(data) && p % 4 == 0 && MagicAt(data, p)
    ensures p + CHECKED <= |data| && (p + HEADER <= |data| || |data| % 4 == 0)
  {
  }

  /** How far a header read gets in a complete file. */
  lemma HeaderLength(data: seq<byte>, p: nat)
    requires p % 4 == 0 && p + CHECKED <= |data| && (p + HEADER <= |data| || |data| % 4 == 0)
    ensures
      var ret := |FileRead(data, p, HEADER)|;
      0 < ret && p + ret <= |data| && ret % 4 == 0
  {
  }

  /** What a magic word means if the file is complete: the check is right, and the shorter read
      says where to go on. */
  lemma HitChecked(data: seq<byte>, p: nat, hdr: seq<byte>)
    requires Complete(data) && p % 4 == 0 && MagicAt(data, p) && |hdr| == HEADER
    ensures Parse(ReadHeader(data, p, hdr)).IsValid() <==> ValidAt(data, p)
    ensures
      var ret := |FileRead(data, p, HEADER)|;
      0 < ret && p + ret <= |data| && ret % 4 == 0
  {
    CompleteAt(data, p);
    HeaderLength(data, p);
    HeaderChecked(data, p, hdr);
  }

  /** The words of the chunk at `from` up to number i were looked at. */
  ghost predicate Going(valid: nat -> bool, data: seq<byte>, from: nat, i: nat, ret: nat) {
    var going :=
      && Complete(data) && Marks(valid, data) && from % 4 == 0
      && Resumes(|data|, from, ret) && NoneBelow(valid, from + 4 * i);
    going
  }

  /** The header was read at p, over some old bytes. */
  ghost predicate ReadAtPlace(data: seq<byte>, p: nat, hdr: seq<byte>) {
    exists stale: seq<byte> :: |stale| == HEADER && hdr == ReadHeader(data, p, stale)
  }

  /** The first header of the file, as it was read. */
  ghost predicate FirstHeader(valid: nat -> bool, data: seq<byte>, p: nat, hdr: seq<byte>) {
    var first := p % 4 == 0 && valid(p) && NoneBelow(valid, p) && ReadAtPlace(data, p, hdr);
    first
  }

  ghost predicate NoHeader(valid: nat -> bool, size: nat, limit: nat) {
    var none := NoneBelow(valid, limit) && (limit % 4 == 0 || limit == size);
    none
  }

  lemma ChunkStarts(valid: nat -> bool, data: seq<byte>, from: nat)
    requires Complete(data) && Marks(valid, data) && NoHeader(valid, |data|, from) && from < |data|
    ensures Going(valid, data, from, 0, |FileRead(data, from, CHUNK)|)
  {
  }

  lemma NoMagic(valid: nat -> bool, data: seq<byte>, from: nat, i: nat, ret: nat)
    requires Going(valid, data, from, i, ret) && from + 4 * i + 4 <= |data| && WordAt(data, from + 4 * i) != MAGIC
    ensures Going(valid, data, from, i + 1, ret)
  {
    assert Key(from + 4 * i);
    NextWord(valid, from, i);
  }

  lemma MagicFound(valid: nat -> bool, data: seq<byte>, from: nat, i: nat, ret: nat, stale: seq<byte>)
    requires Going(valid, data, from, i, ret) && MagicAt(data, from + 4 * i) && |stale| == HEADER
    ensures
      var p := from + 4 * i;
      var hdr, ret' := ReadHeader(data, p, stale), |FileRead(data, p, HEADER)|;
      if Parse(hdr).IsValid() then FirstHeader(valid, data, p, hdr) else Going(valid, data, from, i + 1, ret')
  {
    var p := from + 4 * i;
    HitChecked(data, p, stale);
    assert Key(p);
    if !ValidAt(data, p) { NextWord(valid, from, i); }
  }

  lemma ChunkEnds(valid: nat -> bool, data: seq<byte>, from: nat, i: nat, ret: nat)
    requires Going(valid, data, from, i, ret) && i >= ret / 4
    ensures NoHeader(valid, |data|, from + ret)
  {
    MarksInside(valid, data);
    WordsChecked(valid, |data|, from, i, ret);
  }

  /** The loop over the words of one chunk.  Reading a header replaces the length that bounds the
      loop, so that a false hit shortens the step to 32 bytes. */
  method ScanChunk(
      fs: FatFs, f: FatFile, from: nat, buffer: seq<byte>, stale: seq<byte>, ghost data: seq<byte>, ghost valid: nat -> bool)
    returns (ok: bool, hit: Option<nat>, hdr: seq<byte>, ret: nat)
    requires Serving(fs, f, data)
    requires from < |data| && buffer == FileRead(data, from, CHUNK) && |stale| == HEADER
    modifies fs`loads, fs`cache
    ensures old(fs.loads) <= fs.loads && |hdr| == HEADER
    ensures if ok then Serving(fs, f, data) && 0 < ret else !fs.Quiet(old(fs.loads), fs.loads)
    ensures ok && Going(valid, data, from, 0, |buffer|) ==>
      match hit
      case None => NoHeader(valid, |data|, from + ret)
      case Some(i) => FirstHeader(valid, data, from + 4 * i, hdr)
  {
    ghost var good := Going(valid, data, from, 0, |buffer|);
    hdr, ret := stale, |buffer|;
    var i := 0;
    while i < ret / 4
      invariant Serving(fs, f, data) && old(fs.loads) <= fs.loads
      invariant 0 < ret <= |buffer| && |hdr| == HEADER
      invariant good ==> Going(valid, data, from, i, ret)
      decreases |buffer| - i
    {
      ChunkWord(data, from, buffer, i);
      if WordAt(buffer, 4 * i) == MAGIC {
        var isHeader;
        ok, isHeader, hdr, ret := CheckHeader(fs, f, from, i, hdr, data, valid, ret);
        if !ok {
          return false, None, hdr, 0;
        }
        if isHeader {
          return true, Some(i), hdr, ret;
        }
      } else if good {
        NoMagic(valid, data, from, i, ret);
      }
      i := i + 1;
    }
    if good { ChunkEnds(valid, data, from, i, ret); }
    return true, None, hdr, ret;
  }

  lemma ChunkWord(data: seq<byte>, from: nat, buffer: seq<byte>, i: nat)
    requires from < |data| && buffer == FileRead(data, from, CHUNK) && 4 * i + 4 <= |buffer|
    ensures from + 4 * i + 4 <= |data| && WordAt(buffer, 4 * i) == WordAt(data, from + 4 * i)
  {
  }

  /** Reads a header, over what the variable held, and checks it. */
  method CheckHeader(
      fs: FatFs, f: FatFile, from: nat, i: nat, stale: seq<byte>, ghost data: seq<byte>, ghost valid: nat -> bool,
      ghost bound: nat)
    returns (ok: bool, isHeader: bool, hdr: seq<byte>, ret: nat)
    requires Serving(fs, f, data) && |stale| == HEADER && MagicAt(data, from + 4 * i)
    modifies fs`loads, fs`cache
    ensures old(fs.loads) <= fs.loads && |hdr| == HEADER
    ensures if ok then Serving(fs, f, data) else !fs.Quiet(old(fs.loads), fs.loads)
    ensures ok ==> 0 < ret <= HEADER && from + 4 * i + ret <= |data|
    ensures ok && Going(valid, data, from, i, bound) ==>
      if isHeader then FirstHeader(valid, data, from + 4 * i, hdr) else Going(valid, data, from, i + 1, ret)
  {
    if Going(valid, data, from, i, bound) { MagicFound(valid, data, from, i, bound, stale); }
    var x;
    ok, x := ReadKernel(fs, f, from + 4 * i, HEADER, data);
    if !ok || |x| == 0 {
      return false, false, stale, 0;
    }
    hdr, ret := x + stale[|x|..], |x|;
    isHeader := Parse(hdr).IsValid();
  }

  /** The search, in terms of a function that marks the headers of the file. */
  method FindMarked(fs: FatFs, f: FatFile, stale: seq<byte>, ghost data: seq<byte>, ghost valid: nat -> bool)
    returns (found: bool, offset: nat, hdr: seq<byte>)
    requires Serving(fs, f, data) && |stale| == HEADER && Marks(valid, data)
    modifies fs`loads, fs`cache
    ensures old(fs.loads) <= fs.loads && |hdr| == HEADER
    ensures found ==> Serving(fs, f, data)
    ensures found && Complete(data) ==> FirstHeader(valid, data, offset, hdr)
    ensures !found && Complete(data) && fs.Quiet(old(fs.loads), fs.loads) ==> NoneBelow(valid, Min(|data|, MAX_SEARCH))
  {
    var scanSize := if f.size > MAX_SEARCH then MAX_SEARCH else f.size;
    hdr, offset := stale, 0;
    while offset < scanSize
      invariant Serving(fs, f, data) && old(fs.loads) <= fs.loads && |hdr| == HEADER
      invariant Complete(data) ==> NoHeader(valid, |data|, offset)
      decreases scanSize - offset
    {
      var ok, buffer := ReadKernel(fs, f, offset, CHUNK, data);
      if !ok || |buffer| == 0 {
        return false, offset, hdr;
      }
      if Complete(data) { ChunkStarts(valid, data, offset); }
      var hit, ret;
      ok, hit, hdr, ret := ScanChunk(fs, f, offset, buffer, hdr, data, valid);
      if !ok {
        return false, offset, hdr;
      }
      if hit.Some? {
        return true, offset + 4 * hit.value, hdr;
      }
      offset := offset + ret;
    }
    return false, offset, hdr;
  }

  /** Terminates for every file.  In a complete file the offset found is the first multiple of
      four with a header, and if none is found none starts in the searched part. */
  method MBFindHeader(fs: FatFs, f: FatFile, stale: seq<byte>, ghost data: seq<byte>)
    returns (found: bool, offset: nat, hdr: seq<byte>)
    requires Serving(fs, f, data) && |stale| == HEADER
    modifies fs`loads, fs`cache
    ensures old(fs.loads) <= fs.loads && |hdr| == HEADER
    ensures found ==> Serving(fs, f, data)
    ensures found && Complete(data) ==>
      && offset % 4 == 0 && ValidAt(data, offset) && ReadAtPlace(data, offset, hdr)
      && forall p: nat :: p < offset && p % 4 == 0 ==> !ValidAt(data, p)
    ensures !found && Complete(data) && fs.Quiet(old(fs.loads), fs.loads) ==>
      forall p: nat :: p < |data| && p < 8192 && p % 4 == 0 ==> !ValidAt(data, p)
  {
    ghost var valid := Marking(data);
    found, offset, hdr := FindMarked(fs, f, stale, data, valid);
    assert Key(offset);
    MarkedBelow(valid, data, offset);
    MarkedBelow(valid, data, Min(|data|, MAX_SEARCH));
  }

  lemma Marking(data: seq<byte>) returns (valid: nat -> bool)
    ensures Marks(valid, data)
  {
    valid := (p: nat) => ValidAt(data, p);
  }

  lemma MarkedBelow(valid: nat -> bool, data: seq<byte>, limit: nat)
    requires Marks(valid, data)
    ensures NoneBelow(valid, limit) ==> forall p: nat :: p < limit && p % 4 == 0 ==> !ValidAt(data, p)
  {
    forall p: nat | NoneBelow(valid, limit) && p < limit && p % 4 == 0 ensures !ValidAt(data, p) { assert Key(p); }
  }
}
