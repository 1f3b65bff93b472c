/** The stage-2 heap seen as a list of blocks.

    The allocator keeps its bookkeeping inside the memory it hands out: every
    block starts with a two-word header, and the headers form a chain.  This
    module describes what the chain means, as a sequence of blocks, and what
    `malloc` and `free` do to that sequence.  Module `Heap` proves that the
    code, which only sees words of memory, does exactly this.
  */
module HeapBlocks {
  import opened Bytes

  /** Words in a header: the byte address of the next header, then the flags. */
  const HEADER := 2
  /** A block: the word index of its header, the words after the header, and
      whether it may be handed out.  All headers are word aligned, so byte
      addresses are four times word indices. */
  datatype Block = Block(addr: int, size: int, free: bool) {
    function End(): int { addr + HEADER + size }
    /** The byte address a client of this block holds. */
    function Data(): int { 4 * (addr + HEADER) }
  }

  /** The blocks fill the words [lo, hi) without gap or overlap. */
  ghost predicate Tiling(bs: seq<Block>, lo: int, hi: int) {
    && 0 < |bs|
    && bs[0].addr == lo
    && bs[|bs| - 1].End() == hi
    && (forall i :: 0 <= i < |bs| ==> bs[i].size >= 0)
    && (forall i :: 0 <= i < |bs| - 1 ==> bs[i].End() == bs[i + 1].addr)
  }

  ghost predicate NoAdjacentFree(bs: seq<Block>) {
    forall i :: 0 <= i < |bs| - 1 ==> !(bs[i].free && bs[i + 1].free)
  }

  /** What holds between any two calls into the heap. */
  ghost predicate Settled(bs: seq<Block>, lo: int, hi: int) {
    Tiling(bs, lo, hi) && NoAdjacentFree(bs)
  }

  lemma {:induction false} TilingOrdered(bs: seq<Block>, lo: int, hi: int, i: int, j: int)
    requires Tiling(bs, lo, hi) && 0 <= i < j < |bs|
    ensures bs[i].End() <= bs[j].addr
    decreases j - i
  {
    if i + 1 < j {
      TilingOrdered(bs, lo, hi, i + 1, j);
    }
  }

  lemma TilingBounds(bs: seq<Block>, lo: int, hi: int, i: int)
    requires Tiling(bs, lo, hi) && 0 <= i < |bs|
    ensures lo <= bs[i].addr && bs[i].End() <= hi
  {
    if 0 < i { TilingOrdered(bs, lo, hi, 0, i); }
    if i < |bs| - 1 { TilingOrdered(bs, lo, hi, i, |bs| - 1); }
  }

  /** Two different blocks share no word: payloads are pairwise disjoint, and no
      payload meets any header. */
  lemma BlocksDisjoint(bs: seq<Block>, lo: int, hi: int, i: int, j: int)
    requires Tiling(bs, lo, hi) && 0 <= i < |bs| && 0 <= j < |bs| && i != j
    ensures bs[i].End() <= bs[j].addr || bs[j].End() <= bs[i].addr
    ensures bs[i].addr != bs[j].addr
  {
    if i < j { TilingOrdered(bs, lo, hi, i, j); } else { TilingOrdered(bs, lo, hi, j, i); }
  }

  /** Header plus payload words over the list. */
  function TotalWords(bs: seq<Block>): int {
    if bs == [] then 0 else HEADER + bs[0].size + TotalWords(bs[1..])
  }

  lemma {:induction false} TilingTotal(bs: seq<Block>, lo: int, hi: int)
    requires Tiling(bs, lo, hi)
    ensures TotalWords(bs) == hi - lo
  {
    if |bs| > 1 {
      TilingTail(bs, lo, hi);
      TilingTotal(bs[1..], bs[1].addr, hi);
    } else {
      assert bs[1..] == [];
    }
  }

  // ------------------------------------------------------------ requests

  /** `count` bytes rounded up to whole words, in the 32 bits of `size_t`. */
  function RoundUp(count: u32): u32 {
    if count % 4 != 0 then (count + (4 - count % 4)) % U32_LIMIT else count
  }

  /** The words a request for `count` bytes asks for. */
  function Words(count: u32): (n: nat)
    ensures 4 * n == RoundUp(count)
    ensures count <= 0xFFFF_FFFC ==> count <= 4 * n < count + 4
    ensures count > 0xFFFF_FFFC ==> n == 0
  {
    RoundUp(count) / 4
  }

  predicate Fits(b: Block, n: int) { b.free && b.size >= n }

  /** Block k is the earliest among the smallest free blocks that hold n words. */
  ghost predicate IsBestFit(bs: seq<Block>, n: int, k: int) {
    && 0 <= k < |bs|
    && Fits(bs[k], n)
    && forall j :: 0 <= j < |bs| && Fits(bs[j], n) ==>
        bs[k].size < bs[j].size || (bs[k].size == bs[j].size && k <= j)
  }

  function BestFit(bs: seq<Block>, n: int): (r: Option<nat>)
    ensures r.None? <==> forall j :: 0 <= j < |bs| ==> !Fits(bs[j], n)
    ensures r.Some? ==> IsBestFit(bs, n, r.value)
  {
    if bs == [] then None
    else
      var last := |bs| - 1;
      var r := BestFit(bs[..last], n);
      if Fits(bs[last], n) && (r.None? || bs[last].size < bs[r.value].size) then Some(last) else r
  }

  /** One step of the scan that looks for the best fit. */
  lemma BestFitStep(bs: seq<Block>, n: int, i: nat)
    requires i < |bs|
    ensures
      var r := BestFit(bs[..i], n);
      BestFit(bs[..i + 1], n) ==
      if Fits(bs[i], n) && (r.None? || bs[i].size < bs[r.value].size) then Some(i) else r
  {
    assert bs[..i + 1][..i] == bs[..i];
  }

  lemma BestFitUnique(bs: seq<Block>, n: int, k: int)
    requires IsBestFit(bs, n, k)
    ensures BestFit(bs, n) == Some(k)
  {
    assert Fits(bs[k], n);
  }

  /** Block k handed out for n words: split when the rest can carry a header and a word. */
  function Reserve(bs: seq<Block>, k: nat, n: int): seq<Block>
    requires k < |bs|
  {
    var b := bs[k];
    if b.size - n >= HEADER + 1 then
      bs[..k] + [Block(b.addr, n, false), Block(b.addr + HEADER + n, b.size - n - HEADER, true)] + bs[k + 1..]
    else
      bs[k := b.(free := false)]
  }

  lemma ReserveKeeps(bs: seq<Block>, lo: int, hi: int, k: nat, n: int)
    requires Settled(bs, lo, hi) && k < |bs| && Fits(bs[k], n) && 0 <= n
    ensures Settled(Reserve(bs, k, n), lo, hi)
    ensures var b := Reserve(bs, k, n)[k]; b.addr == bs[k].addr && b.size >= n && !b.free
  {
    var r := Reserve(bs, k, n);
    var b := bs[k];
    if b.size - n >= HEADER + 1 {
      assert forall i :: 0 <= i < k ==> r[i] == bs[i];
      assert forall i :: k + 1 < i < |r| ==> r[i] == bs[i - 1];
    }
  }

  /** The block that `malloc` hands out holds the requested bytes if and only if rounding the
      request up did not wrap around. */
  lemma ReservedHolds(bs: seq<Block>, lo: int, hi: int, count: u32, k: nat)
    requires Tiling(bs, lo, hi) && 0 <= lo && 4 * hi < U32_LIMIT && IsBestFit(bs, Words(count), k)
    ensures
      var b := Reserve(bs, k, Words(count))[k];
      4 * b.size >= count <==> count <= 0xFFFF_FFFC
  {
    TilingBounds(bs, lo, hi, k);
  }

  // ------------------------------------------------------------ coalescing

  function Merged(a: Block, b: Block): Block { Block(a.addr, a.size + HEADER + b.size, true) }

  /** Every run of neighbouring free blocks melted into one. */
  function Coalesce(bs: seq<Block>): (r: seq<Block>)
    ensures bs != [] ==> r != [] && r[0].addr == bs[0].addr && r[0].free == bs[0].free
  {
    if |bs| <= 1 then bs
    else
      var r := Coalesce(bs[1..]);
      if bs[0].free && r[0].free then [Merged(bs[0], r[0])] + r[1..] else [bs[0]] + r
  }

  function MergeAt(bs: seq<Block>, i: nat): seq<Block>
    requires i + 1 < |bs|
  {
    bs[..i] + [Merged(bs[i], bs[i + 1])] + bs[i + 2..]
  }

  lemma MergeFirst(bs: seq<Block>)
    requires 1 < |bs| && bs[0].free && bs[1].free
    ensures Coalesce(MergeAt(bs, 0)) == Coalesce(bs)
  {
    var a, b, t := bs[0], bs[1], bs[2..];
    assert MergeAt(bs, 0) == [Merged(a, b)] + t && bs[1..][1..] == t;
    assert MergeAt(bs, 0)[1..] == t;
    if t != [] {
      var r := Coalesce(t);
      if r[0].free {
        assert Coalesce(bs[1..]) == [Merged(b, r[0])] + r[1..];
        assert Coalesce(bs) == [Merged(a, Merged(b, r[0]))] + r[1..];
      } else {
        assert Coalesce(bs[1..]) == [b] + r;
        assert Coalesce(bs) == [Merged(a, b)] + r;
      }
    }
  }

  /** Melting any one free pair first does not change the outcome. */
  lemma {:induction false} MergeAtCoalesce(bs: seq<Block>, i: nat)
    requires i + 1 < |bs| && bs[i].free && bs[i + 1].free
    ensures Coalesce(MergeAt(bs, i)) == Coalesce(bs)
    decreases i
  {
    if i == 0 {
      MergeFirst(bs);
    } else {
      MergeAtCoalesce(bs[1..], i - 1);
      assert MergeAt(bs[1..], i - 1) == MergeAt(bs, i)[1..];
    }
  }

  lemma MergeAtTiling(bs: seq<Block>, lo: int, hi: int, i: nat)
    requires Tiling(bs, lo, hi) && i + 1 < |bs|
    ensures Tiling(MergeAt(bs, i), lo, hi)
  {
    var m := MergeAt(bs, i);
    assert forall j :: 0 <= j < i ==> m[j] == bs[j];
    assert forall j :: i < j < |m| ==> m[j] == bs[j + 1];
  }

  lemma {:induction false} CoalesceIdle(bs: seq<Block>)
    requires NoAdjacentFree(bs)
    ensures Coalesce(bs) == bs
  {
    if |bs| > 1 {
      assert NoAdjacentFree(bs[1..]) by {
        forall i | 0 <= i < |bs| - 2 ensures !(bs[1..][i].free && bs[1..][i + 1].free) {
          assert bs[1..][i] == bs[i + 1] && bs[1..][i + 1] == bs[i + 2];
        }
      }
      CoalesceIdle(bs[1..]);
      assert bs == [bs[0]] + bs[1..];
    }
  }

  /** A block in front of a settled list whose first block it may not merge with. */
  lemma PrependSettled(b: Block, r: seq<Block>, mid: int, hi: int)
    requires Settled(r, mid, hi) && b.size >= 0
    requires b.End() == mid && !(b.free && r[0].free)
    ensures Settled([b] + r, b.addr, hi)
  {
    var c := [b] + r;
    assert forall i :: 0 < i < |c| ==> c[i] == r[i - 1];
  }

  /** A free block melted into the free first block of a settled list. */
  lemma AbsorbSettled(b: Block, r: seq<Block>, mid: int, hi: int)
    requires Settled(r, mid, hi) && b.size >= 0
    requires b.End() == mid && r[0].free
    ensures Settled([Merged(b, r[0])] + r[1..], b.addr, hi)
  {
    var c := [Merged(b, r[0])] + r[1..];
    assert forall i :: 0 < i < |c| ==> c[i] == r[i];
    assert c[0].End() == r[0].End();
  }

  lemma TilingTail(bs: seq<Block>, lo: int, hi: int)
    requires Tiling(bs, lo, hi) && |bs| > 1
    ensures Tiling(bs[1..], bs[1].addr, hi)
  {
    var t := bs[1..];
    assert forall i :: 0 <= i < |t| ==> t[i] == bs[i + 1];
  }

  lemma {:induction false} CoalesceSettles(bs: seq<Block>, lo: int, hi: int)
    requires Tiling(bs, lo, hi)
    ensures Settled(Coalesce(bs), lo, hi)
  {
    if |bs| > 1 {
      TilingTail(bs, lo, hi);
      CoalesceSettles(bs[1..], bs[1].addr, hi);
      var r := Coalesce(bs[1..]);
      assert bs[0].End() == bs[0 + 1].addr;
      if bs[0].free && r[0].free {
        AbsorbSettled(bs[0], r, bs[1].addr, hi);
      } else {
        PrependSettled(bs[0], r, bs[1].addr, hi);
      }
    }
  }

  // ------------------------------------------------------------ live blocks

  /** The blocks in use. */
  ghost function Live(bs: seq<Block>): set<Block> {
    set b | b in bs && !b.free
  }

  lemma {:induction false} CoalesceLive(bs: seq<Block>)
    ensures Live(Coalesce(bs)) == Live(bs)
  {
    if |bs| > 1 {
      CoalesceLive(bs[1..]);
      var r := Coalesce(bs[1..]);
      var c := Coalesce(bs);
      assert bs == [bs[0]] + bs[1..];
      assert r == [r[0]] + r[1..];
      forall b ensures b in Live(c) <==> b in Live(bs) {
        assert b in Live(bs) <==> (b == bs[0] && !b.free) || b in Live(bs[1..]);
        if bs[0].free && r[0].free {
          assert b in c <==> b == Merged(bs[0], r[0]) || b in r[1..];
        } else {
          assert b in c <==> b == bs[0] || b in r;
        }
      }
    }
  }

  lemma ReleaseLive(bs: seq<Block>, lo: int, hi: int, k: nat)
    requires Tiling(bs, lo, hi) && k < |bs| && !bs[k].free
    ensures Live(bs[k := bs[k].(free := true)]) == Live(bs) - {bs[k]}
  {
    var r := bs[k := bs[k].(free := true)];
    forall b ensures b in Live(r) <==> b in Live(bs) - {bs[k]} {
      if b in Live(bs) && b != bs[k] {
        var i :| 0 <= i < |bs| && bs[i] == b;
        assert r[i] == b;
      }
      if b in Live(r) {
        var i :| 0 <= i < |r| && r[i] == b;
        assert i != k && bs[i] == b;
        BlocksDisjoint(bs, lo, hi, i, k);
      }
    }
  }

  lemma ReserveLive(bs: seq<Block>, k: nat, n: int)
    requires k < |bs| && bs[k].free
    ensures Live(Reserve(bs, k, n)) == Live(bs) + {Reserve(bs, k, n)[k]}
  {
    var r := Reserve(bs, k, n);
    forall b ensures b in Live(r) <==> b in Live(bs) + {r[k]} {
      if b in Live(bs) {
        var i :| 0 <= i < |bs| && bs[i] == b;
        assert i != k;
        assert b == r[if i < k || |r| == |bs| then i else i + 1];
      }
      if b in Live(r) {
        var i :| 0 <= i < |r| && r[i] == b;
        assert i == k || b == bs[if i < k || |r| == |bs| then i else i - 1];
      }
    }
  }

  // ------------------------------------------------------------ whole runs

  datatype Op = Malloc(count: u32) | Free(ptr: int)

  /** Some live block's payload starts at ptr. */
  ghost predicate IsLivePtr(bs: seq<Block>, ptr: int) {
    exists k :: 0 <= k < |bs| && !bs[k].free && bs[k].Data() == ptr
  }

  ghost function LiveIndex(bs: seq<Block>, ptr: int): (k: nat)
    requires IsLivePtr(bs, ptr)
    ensures k < |bs| && !bs[k].free && bs[k].Data() == ptr
  {
    var k :| 0 <= k < |bs| && !bs[k].free && bs[k].Data() == ptr; k
  }

  lemma LiveIndexUnique(bs: seq<Block>, lo: int, hi: int, k: nat)
    requires Tiling(bs, lo, hi) && k < |bs| && !bs[k].free
    ensures IsLivePtr(bs, bs[k].Data()) && LiveIndex(bs, bs[k].Data()) == k
  {
    var j := LiveIndex(bs, bs[k].Data());
    if j != k { BlocksDisjoint(bs, lo, hi, j, k); }
  }

  ghost function Release(bs: seq<Block>, k: nat): seq<Block>
    requires k < |bs|
  {
    Coalesce(bs[k := bs[k].(free := true)])
  }

  /** What one call does to the block list; `free` takes null or a live pointer. */
  ghost predicate OpAllowed(bs: seq<Block>, op: Op) {
    op.Free? ==> op.ptr == 0 || IsLivePtr(bs, op.ptr)
  }

  ghost function Apply(bs: seq<Block>, op: Op): seq<Block>
    requires OpAllowed(bs, op)
  {
    match op
    case Malloc(count) =>
      var n := Words(count);
      (match BestFit(bs, n) case None => bs case Some(k) => Reserve(bs, k, n))
    case Free(ptr) =>
      if ptr == 0 then bs else Release(bs, LiveIndex(bs, ptr))
  }

  /** What reserving n words of block k leaves: a block in use at its place, with less than a header
      of two words and one word more than was asked for, and every other block as it was.  The words that are not
      handed out are one free block behind it. */
  ghost predicate CarvedAs(bs: seq<Block>, after: seq<Block>, k: nat, n: int, got: Block) {
    && k < |bs| && k < |after| && after[k] == got
    && got.addr == bs[k].addr && !got.free && n <= got.size < n + 3
    && after[..k] == bs[..k]
    && if got.size == bs[k].size then after[k + 1..] == bs[k + 1..]
       else
         && got.size == n && k + 1 < |after| && after[k + 1].free && after[k + 1].size >= 1
         && after[k + 1].addr == got.addr + 2 + n
         && after[k + 1].addr + 2 + after[k + 1].size == bs[k].addr + 2 + bs[k].size
         && after[k + 2..] == bs[k + 1..]
  }

  ghost predicate Carved(bs: seq<Block>, after: seq<Block>, k: nat, n: int) {
    exists got :: CarvedAs(bs, after, k, n, got)
  }

  /** What malloc promises: null, and nothing changes, exactly when no free block is large enough.
      Otherwise the earliest smallest adequate block is handed out, no larger than it must be, and
      exactly one block is live that was not: the one at ptr. */
  ghost predicate IsGrant(bs: seq<Block>, after: seq<Block>, count: u32, ptr: int) {
    && (ptr == 0 <==> forall j :: 0 <= j < |bs| && bs[j].free ==> bs[j].size < Words(count))
    && (ptr == 0 ==> after == bs)
    && (ptr != 0 ==> exists k, b :: IsBestFit(bs, Words(count), k) && AddsLive(bs, after, k, Words(count), ptr, b))
  }

  /** The same, taken apart only where `Open` is mentioned. */
  ghost predicate Grants(bs: seq<Block>, after: seq<Block>, count: u32, ptr: int) {
    forall u: int {:trigger Open(u)} :: Open(u) && IsGrant(bs, after, count, ptr)
  }

  ghost predicate AddsLive(bs: seq<Block>, after: seq<Block>, k: nat, n: int, ptr: int, b: Block) {
    && CarvedAs(bs, after, k, n, b) && ptr == 4 * b.addr + 8
    && b !in Live(bs) && Live(after) == Live(bs) + {b}
  }

  lemma ReserveCarves(bs: seq<Block>, k: nat, n: int)
    requires k < |bs| && Fits(bs[k], n) && 0 <= n
    ensures k < |Reserve(bs, k, n)| && CarvedAs(bs, Reserve(bs, k, n), k, n, Reserve(bs, k, n)[k])
    ensures Carved(bs, Reserve(bs, k, n), k, n)
  {
    var r := Reserve(bs, k, n);
    assert r[..k] == bs[..k];
    if bs[k].size - n >= HEADER + 1 {
      assert r[k + 2..] == bs[k + 1..];
    } else {
      assert r[k + 1..] == bs[k + 1..];
    }
    assert CarvedAs(bs, r, k, n, r[k]);
  }

  lemma GrantsNothing(bs: seq<Block>, count: u32)
    requires forall j :: 0 <= j < |bs| ==> !Fits(bs[j], Words(count))
    ensures Grants(bs, bs, count, 0) && Apply(bs, Malloc(count)) == bs
  {
    assert forall j :: 0 <= j < |bs| && bs[j].free ==> !Fits(bs[j], Words(count));
    assert IsGrant(bs, bs, count, 0);
  }

  lemma GrantsBest(bs: seq<Block>, lo: int, hi: int, count: u32, k: nat)
    requires 0 < lo && Settled(bs, lo, hi) && IsBestFit(bs, Words(count), k)
    ensures Apply(bs, Malloc(count)) == Reserve(bs, k, Words(count))
    ensures Grants(bs, Reserve(bs, k, Words(count)), count, bs[k].Data())
  {
    var n := Words(count);
    var after := Reserve(bs, k, n);
    BestFitUnique(bs, n, k);
    TilingBounds(bs, lo, hi, k);
    ReserveKeeps(bs, lo, hi, k, n);
    ReserveLive(bs, k, n);
    if after[k] in Live(bs) {
      var j :| 0 <= j < |bs| && bs[j] == after[k];
      BlocksDisjoint(bs, lo, hi, j, k);
    }
    ReserveCarves(bs, k, n);
    assert AddsLive(bs, after, k, n, bs[k].Data(), after[k]);
    assert IsGrant(bs, after, count, bs[k].Data());
  }

  lemma ApplyKeeps(bs: seq<Block>, lo: int, hi: int, op: Op)
    requires Settled(bs, lo, hi) && OpAllowed(bs, op)
    ensures Settled(Apply(bs, op), lo, hi)
  {
    match op
    case Malloc(count) =>
      var r := BestFit(bs, Words(count));
      if r.Some? { ReserveKeeps(bs, lo, hi, r.value, Words(count)); }
    case Free(ptr) =>
      if ptr != 0 {
        var k := LiveIndex(bs, ptr);
        var rel := bs[k := bs[k].(free := true)];
        CoalesceSettles(rel, lo, hi);
      }
  }

  ghost predicate RunAllowed(bs: seq<Block>, ops: seq<Op>)
    decreases ops
  {
    ops == [] || (OpAllowed(bs, ops[0]) && RunAllowed(Apply(bs, ops[0]), ops[1..]))
  }

  ghost function Run(bs: seq<Block>, ops: seq<Op>): seq<Block>
    requires RunAllowed(bs, ops)
    decreases ops
  {
    if ops == [] then bs else Run(Apply(bs, ops[0]), ops[1..])
  }

  function Initial(lo: int, hi: int): seq<Block> { [Block(lo, hi - lo - HEADER, true)] }

  /** Every run keeps the arena tiled, coalesced and of constant total size. */
  lemma {:induction false} RunKeeps(bs: seq<Block>, lo: int, hi: int, ops: seq<Op>)
    requires Settled(bs, lo, hi) && RunAllowed(bs, ops)
    ensures Settled(Run(bs, ops), lo, hi)
    ensures TotalWords(Run(bs, ops)) == TotalWords(bs) == hi - lo
    decreases ops
  {
    TilingTotal(bs, lo, hi);
    if ops != [] {
      ApplyKeeps(bs, lo, hi, ops[0]);
      RunKeeps(Apply(bs, ops[0]), lo, hi, ops[1..]);
    }
  }

  // ------------------------------------------------------------ undoing

  /** Releasing a block that was just reserved gives the old list back. */
  lemma ReserveRelease(bs: seq<Block>, k: nat, n: int)
    requires NoAdjacentFree(bs) && k < |bs| && Fits(bs[k], n)
    ensures Release(Reserve(bs, k, n), k) == bs
  {
    var r := Reserve(bs, k, n);
    var rel := r[k := r[k].(free := true)];
    CoalesceIdle(bs);
    if bs[k].size - n >= HEADER + 1 {
      assert Merged(rel[k], rel[k + 1]) == bs[k];
      assert MergeAt(rel, k) == bs;
      MergeAtCoalesce(rel, k);
    } else {
      assert rel == bs;
    }
  }

  /** malloc followed at once by free of the result restores the exact block list. */
  lemma MallocFreeRestores(bs: seq<Block>, lo: int, hi: int, count: u32)
    requires 0 < lo && Settled(bs, lo, hi) && BestFit(bs, Words(count)).Some?
    ensures
      var ptr := bs[BestFit(bs, Words(count)).value].Data();
      RunAllowed(bs, [Malloc(count), Free(ptr)]) && Run(bs, [Malloc(count), Free(ptr)]) == bs
  {
    var n := Words(count);
    var k := BestFit(bs, n).value;
    var ptr := bs[k].Data();
    var r := Reserve(bs, k, n);
    TilingBounds(bs, lo, hi, k);
    ReserveKeeps(bs, lo, hi, k, n);
    LiveIndexUnique(r, lo, hi, k);
    ReserveRelease(bs, k, n);
    assert Apply(bs, Malloc(count)) == r && Apply(r, Free(ptr)) == bs;
    RunTwo(bs, Malloc(count), Free(ptr));
  }

  lemma RunOne(bs: seq<Block>, op: Op)
    requires OpAllowed(bs, op)
    ensures RunAllowed(bs, [op]) && Run(bs, [op]) == Apply(bs, op)
  {
    var none := [op][1..];
    assert none == [];
    assert RunAllowed(Apply(bs, op), none) && Run(Apply(bs, op), none) == Apply(bs, op);
  }

  lemma RunTwo(bs: seq<Block>, a: Op, b: Op)
    requires OpAllowed(bs, a) && OpAllowed(Apply(bs, a), b)
    ensures RunAllowed(bs, [a, b]) && Run(bs, [a, b]) == Apply(Apply(bs, a), b)
  {
    RunOne(Apply(bs, a), b);
    var rest := [a, b][1..];
    assert rest == [b];
    assert RunAllowed(Apply(bs, a), rest) && Run(Apply(bs, a), rest) == Apply(Apply(bs, a), b);
  }

  /** Frees of pairwise different pointers. */
  ghost predicate AllFrees(ops: seq<Op>) {
    && (forall i :: 0 <= i < |ops| ==> ops[i].Free? && ops[i].ptr != 0)
    && (forall i, j :: 0 <= i < j < |ops| ==> ops[i].ptr != ops[j].ptr)
  }

  /** The pointers of the live blocks. */
  ghost function LivePtrs(bs: seq<Block>): set<int> {
    set b | b in Live(bs) :: b.Data()
  }

  lemma FreePtrs(bs: seq<Block>, lo: int, hi: int, ptr: int)
    requires Tiling(bs, lo, hi) && ptr != 0 && IsLivePtr(bs, ptr)
    ensures LivePtrs(Apply(bs, Free(ptr))) == LivePtrs(bs) - {ptr}
  {
    var k := LiveIndex(bs, ptr);
    ReleaseLive(bs, lo, hi, k);
    CoalesceLive(bs[k := bs[k].(free := true)]);
    var after := Apply(bs, Free(ptr));
    assert Live(after) == Live(bs) - {bs[k]};
    forall p ensures p in LivePtrs(after) <==> p in LivePtrs(bs) - {ptr} {
      if p in LivePtrs(bs) {
        var b :| b in Live(bs) && b.Data() == p;
        if p != ptr { assert b in Live(after); }
      }
      if p in LivePtrs(after) {
        var b :| b in Live(after) && b.Data() == p;
        var j :| 0 <= j < |bs| && bs[j] == b;
        if j != k { BlocksDisjoint(bs, lo, hi, j, k); }
      }
    }
  }

  lemma LivePtrsComplete(bs: seq<Block>)
    ensures forall i :: 0 <= i < |bs| && !bs[i].free ==> bs[i].Data() in LivePtrs(bs)
  {
    assert forall i :: 0 <= i < |bs| && !bs[i].free ==> bs[i] in Live(bs);
  }

  lemma TwoFree(bs: seq<Block>)
    ensures |bs| > 1 && bs[0].free && bs[1].free ==> !NoAdjacentFree(bs)
  {
    if |bs| > 1 && bs[0].free && bs[1].free {
      assert bs[0].free && bs[0 + 1].free;
    }
  }

  lemma FreedRest(ops: seq<Op>, live: set<int>)
    requires AllFrees(ops) && ops != []
    requires live == set i | 0 <= i < |ops| :: ops[i].ptr
    ensures live - {ops[0].ptr} == set i | 0 <= i < |ops[1..]| :: ops[1..][i].ptr
  {
    var rest := ops[1..];
    assert forall i :: 0 < i < |ops| ==> ops[i] == rest[i - 1];
    assert forall i :: 0 <= i < |rest| ==> ops[i + 1] == rest[i];
  }

  /** After the first of the frees the others are left. */
  lemma FirstFreed(bs: seq<Block>, lo: int, hi: int, ops: seq<Op>)
    requires Settled(bs, lo, hi) && AllFrees(ops) && ops != [] && OpAllowed(bs, ops[0])
    requires LivePtrs(bs) == set i | 0 <= i < |ops| :: ops[i].ptr
    ensures Settled(Apply(bs, ops[0]), lo, hi) && AllFrees(ops[1..])
    ensures LivePtrs(Apply(bs, ops[0])) == set i | 0 <= i < |ops[1..]| :: ops[1..][i].ptr
  {
    FreePtrs(bs, lo, hi, ops[0].ptr);
    ApplyKeeps(bs, lo, hi, ops[0]);
    FreedRest(ops, LivePtrs(bs));
  }

  lemma FirstAllowed(bs: seq<Block>, ops: seq<Op>)
    requires AllFrees(ops) && ops != [] && LivePtrs(bs) == set i | 0 <= i < |ops| :: ops[i].ptr
    ensures OpAllowed(bs, ops[0])
  {
    assert ops[0].ptr in LivePtrs(bs);
    var b :| b in Live(bs) && b.Data() == ops[0].ptr;
    assert exists k :: 0 <= k < |bs| && bs[k] == b;
  }

  /** Freeing every live block, in whatever order, is allowed and leaves the single initial block. */
  lemma {:induction false} FreeAllRestores(bs: seq<Block>, lo: int, hi: int, ops: seq<Op>)
    requires Settled(bs, lo, hi) && AllFrees(ops)
    requires LivePtrs(bs) == set i | 0 <= i < |ops| :: ops[i].ptr
    ensures RunAllowed(bs, ops) && Run(bs, ops) == Initial(lo, hi)
    decreases ops
  {
    if ops == [] {
      LivePtrsComplete(bs);
      TwoFree(bs);
    } else {
      FirstAllowed(bs, ops);
      FirstFreed(bs, lo, hi, ops);
      FreeAllRestores(Apply(bs, ops[0]), lo, hi, ops[1..]);
    }
  }
}
