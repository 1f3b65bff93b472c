/** Stage 2 loads a kernel into memory and clears its BSS. */
module KernelLoad {
  import opened Bytes
  import opened Multiboot
  import opened LoaderSpec
  import opened Loader
  import opened KernelFile
  import opened MemoryCopy

  // ------------------------------------------------------------ how much is copied

  /** The bytes that whole chunks from `offset` on deliver before `bound` or the end of the file. */
  function CopiedFrom(offset: nat, bound: nat, size: nat): (n: nat)
    ensures offset <= size ==> offset + n <= size
    decreases size - offset
  {
    if offset >= bound || offset >= size then 0
    else
      var n := Min(CHUNK, size - offset);
      n + CopiedFrom(offset + n, bound, size)
  }

  /** The loop ends at `count - fileStart`, in 32 bits, although it starts at `fileStart`. */
  function Copied(fileStart: u32, count: u32, size: u32): (n: nat)
    ensures fileStart <= size ==> fileStart + n <= size
  {
    CopiedFrom(fileStart, (count - fileStart) % U32_LIMIT, size)
  }

  /** The distance to the bound, rounded up to whole chunks and cut at the end of the file. */
  lemma {:induction false} CopiedIs(offset: nat, bound: nat, size: nat)
    requires offset <= size
    ensures CopiedFrom(offset, bound, size) ==
      if offset >= bound then 0 else Min((bound - offset + 1023) / 1024 * 1024, size - offset)
    decreases size - offset
  {
    if offset < bound && offset < size {
      CopiedIs(offset + Min(CHUNK, size - offset), bound, size);
    }
  }

  /** Exactly the `count` bytes are copied if and only if the distance g from the start to the
      bound, rounded up to chunks, is that count, or the file ends there and g does not stop the
      loop before. */
  lemma CopiedExactly(fileStart: u32, count: u32, size: u32)
    requires 0 < count && fileStart + count <= size
    ensures
      var g := (count - fileStart) % U32_LIMIT - fileStart;
      Copied(fileStart, count, size) == count <==>
      || (count % 1024 == 0 && count - 1024 < g <= count)
      || (fileStart + count == size && (count - 1) / 1024 * 1024 < g)
  {
    var bound := (count - fileStart) % U32_LIMIT;
    CopiedIs(fileStart, bound, size);
    if fileStart < bound { RoundedUp(bound - fileStart, count); }
  }

  lemma RoundedUp(g: nat, count: nat)
    requires 0 < g && 0 < count
    ensures
      var r := (g + (CHUNK - 1)) / CHUNK * CHUNK;
      && (r == count <==> count % CHUNK == 0 && count - CHUNK < g <= count)
      && (r >= count <==> (count - 1) / CHUNK * CHUNK < g)
  {
    var a, k := (g + (CHUNK - 1)) / CHUNK, (count - 1) / CHUNK;
    assert CHUNK * (a - 1) < g <= CHUNK * a;
    assert CHUNK * k < count <= CHUNK * (k + 1);
    assert count % CHUNK == 0 <==> count == CHUNK * (k + 1);
  }

  /** For a kernel at the start of its file: its size is a multiple of the chunk size, or that of
      the file. */
  lemma CopiedFromStart(count: u32, size: u32)
    requires 0 < count <= size
    ensures Copied(0, count, size) == count <==> count % CHUNK == 0 || count == size
  {
    CopiedExactly(0, count, size);
  }

  // ------------------------------------------------------------ memory after loading

  /** Text at `load`, and zeros behind it. */
  function Placed(was: seq<byte>, load: nat, text: seq<byte>, bss: nat): (m: seq<byte>)
    requires load + |text| + bss <= |was|
    ensures |m| == |was|
  {
    Overwrite(Overwrite(was, load, text), load + |text|, Zeros(bss))
  }

  lemma PlacedAt(was: seq<byte>, load: nat, text: seq<byte>, bss: nat, a: nat)
    requires load + |text| + bss <= |was| && a < |was|
    ensures Placed(was, load, text, bss)[a] ==
      if load <= a < load + |text| then text[a - load]
      else if load + |text| <= a < load + |text| + bss then 0
      else was[a]
  {
  }

  /** What the specification asks for: the text and data in place, and the BSS zero. */
  lemma PlacedMeans(was: seq<byte>, load: nat, text: seq<byte>, bss: nat)
    requires load + |text| + bss <= |was|
    ensures
      var m, end := Placed(was, load, text, bss), load + |text|;
      && m[load..end] == text && m[end..end + bss] == Zeros(bss)
      && m[..load] == was[..load] && m[end + bss..] == was[end + bss..]
  {
    var m := Placed(was, load, text, bss);
    forall a | 0 <= a < |was|
      ensures m[a] == if load <= a < load + |text| then text[a - load]
                      else if load + |text| <= a < load + |text| + bss then 0 else was[a]
    {
      PlacedAt(was, load, text, bss, a);
    }
  }

  /** Loading n bytes instead of `count` makes no difference for this file and this memory. */
  ghost predicate SameLoad(data: seq<byte>, was: seq<byte>, start: nat, load: nat, bss: nat, count: nat, n: nat)
    requires start + count <= |data| && start + n <= |data|
    requires load + count + bss <= |was| && load + n + bss <= |was|
  {
    Placed(was, load, data[start..start + n], bss) == Placed(was, load, data[start..start + count], bss)
  }

  /** Whatever the file and the memory hold, the memory comes out right if and only if exactly
      `count` bytes are copied. */
  lemma LoadExact(size: nat, len: nat, start: nat, load: nat, bss: nat, count: nat, n: nat)
    requires start + count <= size && start + n <= size && load + count + bss <= len && load + n + bss <= len
    ensures
      (forall data: seq<byte>, was: seq<byte> :: |data| == size && |was| == len ==>
        SameLoad(data, was, start, load, bss, count, n))
      <==> n == count
  {
    if n != count {
      var data, was := Fill(size, 1), Fill(len, 2);
      Differ(data, was, start, load, bss, count, n);
      assert !SameLoad(data, was, start, load, bss, count, n);
    }
  }

  function Fill(n: nat, c: byte): (s: seq<byte>)
    ensures |s| == n && forall i :: 0 <= i < n ==> s[i] == c
  {
    seq(n, _ => c)
  }

  lemma Differ(data: seq<byte>, was: seq<byte>, start: nat, load: nat, bss: nat, count: nat, n: nat)
    requires start + count <= |data| && start + n <= |data|
    requires load + count + bss <= |was| && load + n + bss <= |was| && n != count
    requires (forall i :: 0 <= i < |data| ==> data[i] == 1) && (forall i :: 0 <= i < |was| ==> was[i] == 2)
    ensures !SameLoad(data, was, start, load, bss, count, n)
  {
    var x, y := data[start..start + n], data[start..start + count];
    var a := if n > count then load + count else load + count - 1;
    PlacedAt(was, load, x, bss, a);
    PlacedAt(was, load, y, bss, a);
  }

  // ------------------------------------------------------------ the loop

  /** Memory in which the transfer buffer holds b and the text so far is in place. */
  ghost function Partly(was: seq<byte>, buf: nat, b: seq<byte>, load: nat, text: seq<byte>): (m: seq<byte>)
    requires buf + |b| <= |was| && load + |text| <= |was|
    ensures |m| == |was|
  {
    Overwrite(Overwrite(was, buf, b), load, text)
  }

  predicate Apart(buf: nat, load: nat, end: nat) { buf + CHUNK <= load || end <= buf }

  lemma PartlyAt(was: seq<byte>, buf: nat, b: seq<byte>, load: nat, text: seq<byte>, a: nat)
    requires buf + |b| <= |was| && load + |text| <= |was| && a < |was|
    ensures Partly(was, buf, b, load, text)[a] ==
      if load <= a < load + |text| then text[a - load] else if buf <= a < buf + |b| then b[a - buf] else was[a]
  {
  }

  /** One more chunk goes through the buffer. */
  lemma ChunkMoved(was: seq<byte>, buf: nat, b: seq<byte>, load: nat, text: seq<byte>, chunk: seq<byte>)
    requires |b| == CHUNK && |chunk| <= CHUNK && buf + CHUNK <= |was| && load + |text| + |chunk| <= |was|
    requires Apart(buf, load, load + |text| + |chunk|)
    ensures
      var m := Overwrite(Partly(was, buf, b, load, text), buf, chunk);
      && m[buf..buf + |chunk|] == chunk
      && Overwrite(m, load + |text|, chunk) == Partly(was, buf, Overwrite(b, 0, chunk), load, text + chunk)
  {
    var p, b' := Partly(was, buf, b, load, text), Overwrite(b, 0, chunk);
    var m := Overwrite(p, buf, chunk);
    var x, y := Overwrite(m, load + |text|, chunk), Partly(was, buf, b', load, text + chunk);
    forall a | 0 <= a < |was| ensures x[a] == y[a] {
      PartlyAt(was, buf, b, load, text, a);
      PartlyAt(was, buf, b', load, text + chunk, a);
    }
  }

  /** The bytes of a read land in memory. */
  method StoreBytes(mem: array<byte>, at: nat, bytes: seq<byte>)
    requires at + |bytes| <= mem.Length
    modifies mem
    ensures mem[..] == Overwrite(old(mem[..]), at, bytes)
  {
    ghost var was := mem[..];
    var i := 0;
    while i < |bytes|
      invariant 0 <= i <= |bytes|
      invariant forall a :: 0 <= a < mem.Length ==> mem[a] == if at <= a < at + i then bytes[a - at] else was[a]
    {
      mem[at + i] := bytes[i];
      i := i + 1;
    }
  }

  /** Memory after `text` was moved through the buffer; taken apart only where `Open` is mentioned. */
  ghost predicate PartLoaded(was: seq<byte>, now: seq<byte>, buf: nat, load: nat, text: seq<byte>) {
    forall u: int {:trigger Open(u)} ::
      Open(u) && exists b: seq<byte> :: |b| == CHUNK && IsPartly(was, now, buf, b, load, text)
  }

  ghost predicate IsPartly(was: seq<byte>, now: seq<byte>, buf: nat, b: seq<byte>, load: nat, text: seq<byte>) {
    buf + |b| <= |was| && load + |text| <= |was| && now == Partly(was, buf, b, load, text)
  }

  lemma NothingLoaded(was: seq<byte>, buf: nat, load: nat)
    requires buf + CHUNK <= |was| && load <= |was|
    ensures PartLoaded(was, was, buf, load, [])
  {
    var b := was[buf..buf + CHUNK];
    assert Partly(was, buf, b, load, []) == was;
    assert IsPartly(was, was, buf, b, load, []);
  }

  /** One chunk, through the buffer to its place. */
  method MoveChunk(mem: array<byte>, buf: nat, load: nat, chunk: seq<byte>, at: nat, ghost was: seq<byte>, ghost text: seq<byte>)
    requires PartLoaded(was, mem[..], buf, load, text) && at == load + |text|
    requires |chunk| <= CHUNK && at + |chunk| <= mem.Length && Apart(buf, load, at + |chunk|)
    modifies mem
    ensures PartLoaded(was, mem[..], buf, load, text + chunk)
  {
    PartMoved(was, mem[..], buf, load, text, chunk);
    Transfer(mem, buf, chunk, at);
  }

  lemma PartMoved(was: seq<byte>, now: seq<byte>, buf: nat, load: nat, text: seq<byte>, chunk: seq<byte>)
    requires PartLoaded(was, now, buf, load, text) && |chunk| <= CHUNK && load + |text| + |chunk| <= |now|
    requires Apart(buf, load, load + |text| + |chunk|)
    ensures buf + |chunk| <= |now|
    ensures PartLoaded(was, Overwrite(Overwrite(now, buf, chunk), load + |text|, chunk), buf, load, text + chunk)
  {
    assert Open(0);
    var b: seq<byte> :| |b| == CHUNK && IsPartly(was, now, buf, b, load, text);
    ChunkMoved(was, buf, b, load, text, chunk);
    var after := Overwrite(Overwrite(now, buf, chunk), load + |text|, chunk);
    assert after == Partly(was, buf, Overwrite(b, 0, chunk), load, text + chunk);
    assert IsPartly(was, after, buf, Overwrite(b, 0, chunk), load, text + chunk);
  }

  /** `ReadAt` into the buffer, and the copy out of it. */
  method Transfer(mem: array<byte>, buf: nat, chunk: seq<byte>, at: nat)
    requires buf + |chunk| <= mem.Length && at + |chunk| <= mem.Length
    modifies mem
    ensures mem[..] == Overwrite(Overwrite(old(mem[..]), buf, chunk), at, chunk)
  {
    ghost var was := mem[..];
    StoreBytes(mem, buf, chunk);
    ghost var m := Overwrite(was, buf, chunk);
    assert m[buf..buf + |chunk|] == chunk;
    assert mem[buf..buf + |chunk|] == mem[..][buf..buf + |chunk|];
    CopyMemory32(mem, at, buf, |chunk|);
  }

  /** 32-bit addition. */
  function Add32(a: u32, b: u32): u32 { if a + b < U32_LIMIT then a + b else a + b - U32_LIMIT }

  lemma CopiedStep(start: nat, offset: nat, bound: nat, data: seq<byte>, chunk: seq<byte>)
    requires start <= offset < bound && offset <= |data| && chunk == FileRead(data, offset, CHUNK)
    ensures CopiedFrom(offset, bound, |data|) == |chunk| + CopiedFrom(offset + |chunk|, bound, |data|)
    ensures offset + |chunk| <= |data| && data[start..offset + |chunk|] == data[start..offset] + chunk
    ensures |chunk| <= CHUNK && (|chunk| == 0 ==> CopiedFrom(offset, bound, |data|) == 0)
  {
  }

  /** The copy loop: everything from `start` on that lies in front of the bound. */
  method CopyChunks(fs: FatFs, f: FatFile, mem: array<byte>, buf: nat, load: u32, start: u32, bound: u32, ghost data: seq<byte>)
    returns (ok: bool, end: u32)
    requires Serving(fs, f, data) && start <= |data| && 0 < |data|
    requires mem.Length <= U32_LIMIT && buf + CHUNK <= mem.Length
    requires load + CopiedFrom(start, bound, |data|) <= mem.Length
    requires Apart(buf, load, load + CopiedFrom(start, bound, |data|))
    modifies fs`loads, fs`cache, mem
    ensures old(fs.loads) <= fs.loads
    ensures if ok then Serving(fs, f, data) else !fs.Quiet(old(fs.loads), fs.loads)
    ensures ok ==>
      var n := CopiedFrom(start, bound, |data|);
      end == Add32(load, n) && PartLoaded(old(mem[..]), mem[..], buf, load, data[start..start + n])
  {
    ghost var was, total := mem[..], CopiedFrom(start, bound, |data|);
    NothingLoaded(was, buf, load);
    ghost var text := data[start..start];
    assert text == [];
    var offset: u32 := start;
    end := load;
    while offset < bound
      invariant start <= offset <= |data| && Serving(fs, f, data) && old(fs.loads) <= fs.loads
      invariant offset - start + CopiedFrom(offset, bound, |data|) == total
      invariant end == Add32(load, offset - start)
      invariant text == data[start..offset] && PartLoaded(was, mem[..], buf, load, text)
      decreases |data| - offset
    {
      var chunk;
      ok, chunk := ReadKernel(fs, f, offset, CHUNK, data);
      if !ok {
        return;
      }
      CopiedStep(start, offset, bound, data, chunk);
      if |chunk| == 0 {
        return true, end;
      }
      MoveChunk(mem, buf, load, chunk, end, was, text);
      text := text + chunk;
      end := Add32(end, |chunk|);
      offset := offset + |chunk|;
    }
    return true, end;
  }

  /** Memory after loading: apart from the transfer buffer, only the text and the zeros behind
      it are new. */
  ghost predicate Loaded(was: seq<byte>, now: seq<byte>, buf: nat, load: nat, text: seq<byte>, bss: nat) {
    forall u: int {:trigger Open(u)} ::
      Open(u) && exists b: seq<byte> :: |b| == CHUNK && IsLoaded(was, now, buf, b, load, text, bss)
  }

  ghost predicate IsLoaded(was: seq<byte>, now: seq<byte>, buf: nat, b: seq<byte>, load: nat, text: seq<byte>, bss: nat) {
    && buf + |b| <= |was| && load + |text| + bss <= |was|
    && now == Placed(Overwrite(was, buf, b), load, text, bss)
  }

  lemma Cleared(was: seq<byte>, now: seq<byte>, buf: nat, load: nat, text: seq<byte>, bss: nat)
    requires PartLoaded(was, now, buf, load, text) && load + |text| + bss <= |now|
    ensures Loaded(was, Overwrite(now, load + |text|, Zeros(bss)), buf, load, text, bss)
  {
    assert Open(0);
    var b: seq<byte> :| |b| == CHUNK && IsPartly(was, now, buf, b, load, text);
    assert IsLoaded(was, Overwrite(now, load + |text|, Zeros(bss)), buf, b, load, text, bss);
  }

  /** In memory the text is followed by zeros, and outside text, zeros and buffer nothing changed. */
  ghost predicate MemoryHolds(was: seq<byte>, now: seq<byte>, buf: int, load: int, text: seq<byte>, zeros: int) {
    && 0 <= load && 0 <= zeros && load + |text| + zeros <= |now| == |was|
    && now[load..load + |text|] == text
    && (forall a :: load + |text| <= a < load + |text| + zeros ==> now[a] == 0)
    && forall a :: 0 <= a < |was| && !(load <= a < load + |text| + zeros) && !(buf <= a < buf + 1024) ==> now[a] == was[a]
  }

  lemma LoadedMeans(was: seq<byte>, now: seq<byte>, buf: nat, load: nat, text: seq<byte>, bss: nat)
    requires Loaded(was, now, buf, load, text, bss)
    ensures MemoryHolds(was, now, buf, load, text, bss)
  {
    assert Open(0);
    var b: seq<byte> :| |b| == CHUNK && IsLoaded(was, now, buf, b, load, text, bss);
    PlacedMeans(Overwrite(was, buf, b), load, text, bss);
    var zeros := now[load + |text|..load + |text| + bss];
    assert forall a :: load + |text| <= a < load + |text| + bss ==> now[a] == zeros[a - load - |text|];
    forall a | 0 <= a < |was| && !(load <= a < load + |text| + bss) && !(buf <= a < buf + CHUNK)
      ensures now[a] == was[a]
    {
      Untouched(was, buf, b, load, text, bss, a);
    }
  }

  lemma Untouched(was: seq<byte>, buf: nat, b: seq<byte>, load: nat, text: seq<byte>, bss: nat, a: nat)
    requires buf + |b| <= |was| && load + |text| + bss <= |was| && a < |was|
    requires !(load <= a < load + |text| + bss) && !(buf <= a < buf + |b|)
    ensures Placed(Overwrite(was, buf, b), load, text, bss)[a] == was[a]
  {
    PlacedAt(Overwrite(was, buf, b), load, text, bss, a);
  }

  /** The memory that loading touches exists and does not meet the transfer buffer. */
  ghost predicate FitsMemory(hdr: Header, offset: u32, size: u32, len: nat, buf: nat) {
    match hdr.ExtractMemLayout(offset, size)
    case None => true
    case Some((start, load, count)) =>
      var end := load + Copied(start, count, size) + hdr.BSSSize();
      end <= len && Apart(buf, load, end)
  }

  /** From `load` on lie the bytes of the file that were copied, behind them as many zeros as there
      are addresses from `loadEnd` to `bssEnd`; all other memory but the buffer is as it was. */
  ghost predicate LoadedBy(
      was: seq<byte>, now: seq<byte>, buf: int, data: seq<byte>, offset: int, hdr: int, load: int, loadEnd: int, bssEnd: int)
  {
    && 0 <= offset - (hdr - load) < U32_LIMIT && 0 <= loadEnd - load < U32_LIMIT && |data| < U32_LIMIT
    && var start := offset - (hdr - load);
       var n := Copied(start, loadEnd - load, |data|);
       && start + n <= |data|
       && MemoryHolds(was, now, buf, load, data[start..start + n], if bssEnd > loadEnd then bssEnd - loadEnd else 0)
  }

  /** Loads the bytes that the layout of the header asks for, and clears the BSS behind them. */
  method MBLoadKernel(fs: FatFs, f: FatFile, hdr: Header, offset: u32, mem: array<byte>, buf: nat, ghost data: seq<byte>)
    returns (ok: bool)
    requires Serving(fs, f, data) && offset <= |data|
    requires mem.Length <= U32_LIMIT && buf + CHUNK <= mem.Length && FitsMemory(hdr, offset, |data|, mem.Length, buf)
    modifies fs`loads, fs`cache, mem
    ensures old(fs.loads) <= fs.loads
    ensures !ok ==> hdr.ExtractMemLayout(offset, |data|).None? || !fs.Quiet(old(fs.loads), fs.loads)
    ensures !ok && fs.Quiet(old(fs.loads), fs.loads) ==>
      !InOrder(offset, |data|, hdr.hdrAddr, hdr.loadAddr, hdr.loadEndAddr, hdr.bssEndAddr, hdr.entryAddr)
    ensures ok ==>
      match hdr.ExtractMemLayout(offset, |data|)
      case None => false
      case Some((start, load, count)) =>
        var n := Copied(start, count, |data|);
        start + n <= |data| && Loaded(old(mem[..]), mem[..], buf, load, data[start..start + n], hdr.BSSSize())
    ensures ok ==>
      && InOrder(offset, |data|, hdr.hdrAddr, hdr.loadAddr, hdr.loadEndAddr, hdr.bssEndAddr, hdr.entryAddr)
      && LoadedBy(old(mem[..]), mem[..], buf, data, offset, hdr.hdrAddr, hdr.loadAddr, hdr.loadEndAddr, hdr.bssEndAddr)
  {
    LayoutMeaning(hdr, offset, |data|);
    var layout := hdr.ExtractMemLayout(offset, f.size);
    if layout.None? {
      return false;
    }
    var (start, load, count) := layout.value;
    ok := LoadAt(fs, f, mem, buf, load, start, (count - start) % U32_LIMIT, hdr.BSSSize(), data);
    if ok { ByAddresses(hdr, offset, data, old(mem[..]), mem[..], buf); }
  }

  /** The layout, by the addresses of the header. */
  lemma ByAddresses(hdr: Header, offset: u32, data: seq<byte>, was: seq<byte>, now: seq<byte>, buf: nat)
    requires offset <= |data| < U32_LIMIT && hdr.ExtractMemLayout(offset, |data|).Some?
    requires
      var (start, load, count) := hdr.ExtractMemLayout(offset, |data|).value;
      var n := Copied(start, count, |data|);
      start + n <= |data| && Loaded(was, now, buf, load, data[start..start + n], hdr.BSSSize())
    ensures LoadedBy(was, now, buf, data, offset, hdr.hdrAddr, hdr.loadAddr, hdr.loadEndAddr, hdr.bssEndAddr)
  {
    LayoutMeaning(hdr, offset, |data|);
    var (start, load, count) := hdr.ExtractMemLayout(offset, |data|).value;
    LoadedMeans(was, now, buf, load, data[start..start + Copied(start, count, |data|)], hdr.BSSSize());
  }

  /** Copies, then clears. */
  method LoadAt(
      fs: FatFs, f: FatFile, mem: array<byte>, buf: nat, load: u32, start: u32, bound: u32, bss: u32, ghost data: seq<byte>)
    returns (ok: bool)
    requires Serving(fs, f, data) && start <= |data| && 0 < |data|
    requires mem.Length <= U32_LIMIT && buf + CHUNK <= mem.Length
    requires load + CopiedFrom(start, bound, |data|) + bss <= mem.Length
    requires Apart(buf, load, load + CopiedFrom(start, bound, |data|) + bss)
    modifies fs`loads, fs`cache, mem
    ensures old(fs.loads) <= fs.loads
    ensures !ok ==> !fs.Quiet(old(fs.loads), fs.loads)
    ensures ok ==>
      Loaded(old(mem[..]), mem[..], buf, load, data[start..start + CopiedFrom(start, bound, |data|)], bss)
  {
    ghost var was, n := mem[..], CopiedFrom(start, bound, |data|);
    var end;
    ok, end := CopyChunks(fs, f, mem, buf, load, start, bound, data);
    if ok {
      Cleared(was, mem[..], buf, load, data[start..start + n], bss);
      ClearAt(mem, end, bss, load + n);
    }
  }

  /** `ClearMemory32` at a 32-bit address. */
  method ClearAt(mem: array<byte>, at: u32, size: nat, ghost meant: nat)
    requires meant + size <= mem.Length <= U32_LIMIT && (at == meant || (meant == U32_LIMIT && at == 0))
    modifies mem
    ensures mem[..] == Overwrite(old(mem[..]), meant, Zeros(size))
  {
    ghost var was := mem[..];
    ClearMemory32(mem, at, size);
    if meant == U32_LIMIT { assert Overwrite(was, at, Zeros(size)) == was == Overwrite(was, meant, Zeros(size)); }
  }

  /** With exactly the right number of bytes copied, the kernel is where its header says: text
      and data from loadAddr to loadEndAddr, zeros from there to bssEndAddr, and no other byte of
      memory but those of the transfer buffer is touched. */
  lemma KernelInPlace(hdr: Header, offset: u32, data: seq<byte>, was: seq<byte>, now: seq<byte>, buf: nat)
    requires offset <= |data| < U32_LIMIT && hdr.ExtractMemLayout(offset, |data|).Some?
    requires
      var (start, load, count) := hdr.ExtractMemLayout(offset, |data|).value;
      && Copied(start, count, |data|) == count && start + count <= |data|
      && Loaded(was, now, buf, load, data[start..start + count], hdr.BSSSize())
    ensures KernelAt(data, offset, was, now, buf, hdr.hdrAddr, hdr.loadAddr, hdr.loadEndAddr, hdr.bssEndAddr)
  {
    ByAddresses(hdr, offset, data, was, now, buf);
    LayoutMeaning(hdr, offset, |data|);
  }

  /** The kernel whose header lies at `offset` in the file is at the addresses of that header. */
  ghost predicate KernelAt(
      data: seq<byte>, offset: int, was: seq<byte>, now: seq<byte>, buf: int, hdr: int, load: int, loadEnd: int, bssEnd: int)
  {
    var start := offset - (hdr - load);
    && 0 <= load <= hdr < loadEnd <= |now| == |was| && bssEnd <= |now|
    && 0 <= start && start + (loadEnd - load) <= |data| && now[load..loadEnd] == data[start..start + (loadEnd - load)]
    && (forall a :: loadEnd <= a < bssEnd ==> now[a] == 0)
    && forall a :: 0 <= a < |was| && !(load <= a < loadEnd) && !(loadEnd <= a < bssEnd) && !(buf <= a < buf + 1024) ==>
         now[a] == was[a]
  }
}
