/** The stage-2 heap as the code runs it: headers are words of the memory that is
    being handed out, and every scan follows the `_next` words. */
module Heap {
  import opened Bytes
  import opened HeapBlocks

  /** The header of block b, as stored: the address of the next header, then the flags. */
  ghost predicate HeaderAt(mem: seq<u32>, b: Block) {
    && 0 <= b.addr
    && b.addr + 1 < |mem|
    && mem[b.addr] == 4 * b.End()
    && mem[b.addr + 1] == (if b.free then 0 else 1)
  }

  ghost predicate Encodes(mem: seq<u32>, bs: seq<Block>) {
    forall i :: 0 <= i < |bs| ==> HeaderAt(mem, bs[i])
  }

  ghost predicate Arena(mem: seq<u32>, lo: int, hi: int) {
    0 < lo && hi <= |mem| && 4 * hi < U32_LIMIT
  }

  /** Word w lies in block b, header included. */
  ghost predicate InBlock(b: Block, w: int) { b.addr <= w < b.End() }

  /** Nothing but the words of b differs. */
  ghost predicate ChangedOnly(before: seq<u32>, after: seq<u32>, b: Block) {
    && |after| == |before|
    && forall w :: 0 <= w < |before| && !InBlock(b, w) ==> after[w] == before[w]
  }

  /** The blocks in `live` keep every word, and so does memory outside [lo, hi). */
  ghost predicate Kept(before: seq<u32>, after: seq<u32>, live: set<Block>, lo: int, hi: int) {
    && |after| == |before|
    && (forall b, w :: b in live && InBlock(b, w) && 0 <= w < |before| ==> after[w] == before[w])
    && (forall w :: 0 <= w < |before| && !(lo <= w < hi) ==> after[w] == before[w])
  }

  lemma ChangedOnlyKept(before: seq<u32>, after: seq<u32>, bs: seq<Block>, lo: int, hi: int, k: nat)
    requires Tiling(bs, lo, hi) && k < |bs| && bs[k].free && ChangedOnly(before, after, bs[k])
    ensures Kept(before, after, Live(bs), lo, hi)
  {
    TilingBounds(bs, lo, hi, k);
    forall b, w | b in Live(bs) && InBlock(b, w) && 0 <= w < |before| ensures after[w] == before[w] {
      var j :| 0 <= j < |bs| && bs[j] == b;
      BlocksDisjoint(bs, lo, hi, j, k);
    }
  }

  lemma KeptTransitive(m0: seq<u32>, m1: seq<u32>, m2: seq<u32>, live: set<Block>, lo: int, hi: int)
    requires Kept(m0, m1, live, lo, hi) && Kept(m1, m2, live, lo, hi)
    ensures Kept(m0, m2, live, lo, hi)
  {
  }

  /** Headers of the other blocks survive a change inside block k. */
  lemma EncodesOthers(before: seq<u32>, after: seq<u32>, bs: seq<Block>, lo: int, hi: int, k: nat)
    requires Tiling(bs, lo, hi) && k < |bs| && Encodes(before, bs) && ChangedOnly(before, after, bs[k])
    ensures forall j :: 0 <= j < |bs| && j != k ==> HeaderAt(after, bs[j])
  {
    forall j | 0 <= j < |bs| && j != k ensures HeaderAt(after, bs[j]) {
      BlocksDisjoint(bs, lo, hi, j, k);
      assert HeaderAt(before, bs[j]);
      assert !InBlock(bs[k], bs[j].addr) && !InBlock(bs[k], bs[j].addr + 1);
    }
  }

  lemma MergeLive(bs: seq<Block>, i: nat)
    requires i + 1 < |bs| && bs[i].free && bs[i + 1].free
    ensures Live(MergeAt(bs, i)) == Live(bs) && Coalesce(MergeAt(bs, i)) == Coalesce(bs)
  {
    MergeAtCoalesce(bs, i);
    CoalesceLive(bs);
    CoalesceLive(MergeAt(bs, i));
  }

  // ------------------------------------------------------------ runs with clients

  datatype State = State(mem: seq<u32>, bs: seq<Block>)

  /** A call into the heap, or a client storing a word through a pointer it holds. */
  datatype Event = Call(op: Op) | Store(w: int, value: u32)

  ghost predicate Good(s: State, lo: int, hi: int) {
    Arena(s.mem, lo, hi) && Settled(s.bs, lo, hi) && Encodes(s.mem, s.bs)
  }

  ghost predicate InPayload(b: Block, w: int) { b.addr + HEADER <= w < b.End() }

  /** What one event may do; `Malloc` and `Free` below promise exactly the Call case. */
  ghost predicate Step(s: State, ev: Event, t: State, lo: int, hi: int) {
    match ev
    case Call(op) =>
      && OpAllowed(s.bs, op) && t.bs == Apply(s.bs, op)
      && Encodes(t.mem, t.bs) && Kept(s.mem, t.mem, Live(s.bs) * Live(t.bs), lo, hi)
    case Store(w, value) =>
      && (exists b :: b in Live(s.bs) && InPayload(b, w)) && 0 <= w < |s.mem|
      && t == State(s.mem[w := value], s.bs)
  }

  /** A store through a live pointer hits no header. */
  lemma StoreKeepsHeaders(s: State, w: int, value: u32, b: Block, lo: int, hi: int)
    requires Good(s, lo, hi) && b in Live(s.bs) && InPayload(b, w) && 0 <= w < |s.mem|
    ensures Encodes(s.mem[w := value], s.bs)
  {
    var k :| 0 <= k < |s.bs| && s.bs[k] == b;
    forall i | 0 <= i < |s.bs| ensures HeaderAt(s.mem[w := value], s.bs[i]) {
      assert HeaderAt(s.mem, s.bs[i]);
      if i != k { BlocksDisjoint(s.bs, lo, hi, i, k); }
    }
  }

  lemma StepKeepsGood(s: State, ev: Event, t: State, lo: int, hi: int)
    requires Good(s, lo, hi) && Step(s, ev, t, lo, hi)
    ensures Good(t, lo, hi)
  {
    match ev
    case Call(op) => ApplyKeeps(s.bs, lo, hi, op);
    case Store(w, value) =>
      var b :| b in Live(s.bs) && InPayload(b, w);
      StoreKeepsHeaders(s, w, value, b, lo, hi);
  }

  ghost predicate Trace(states: seq<State>, events: seq<Event>, lo: int, hi: int) {
    && |states| == |events| + 1
    && Good(states[0], lo, hi)
    && forall i :: 0 <= i < |events| ==> Step(states[i], events[i], states[i + 1], lo, hi)
  }

  /** Over any run of calls and client stores the header chain stays intact, and a word
      of a block that stays live changes only through a store to that very word. */
  lemma {:induction false} RunSafe(states: seq<State>, events: seq<Event>, lo: int, hi: int, b: Block, w: int)
    requires Trace(states, events, lo, hi)
    ensures forall i :: 0 <= i < |states| ==> Good(states[i], lo, hi)
    ensures |states[|events|].mem| == |states[0].mem|
    ensures
      && InPayload(b, w) && 0 <= w < |states[0].mem|
      && (forall i :: 0 <= i < |states| ==> b in Live(states[i].bs))
      && (forall i :: 0 <= i < |events| ==> !(events[i].Store? && events[i].w == w))
      ==> states[|events|].mem[w] == states[0].mem[w]
    decreases |events|
  {
    if events != [] {
      var n := |events| - 1;
      var ss, es := states[..n + 1], events[..n];
      assert Trace(ss, es, lo, hi) by {
        forall i | 0 <= i < |es| ensures Step(ss[i], es[i], ss[i + 1], lo, hi) {
          assert Step(states[i], events[i], states[i + 1], lo, hi);
        }
      }
      RunSafe(ss, es, lo, hi, b, w);
      assert Good(ss[n], lo, hi);
      assert Step(states[n], events[n], states[n + 1], lo, hi);
      StepKeepsGood(states[n], events[n], states[n + 1], lo, hi);
      forall i | 0 <= i < |states| ensures Good(states[i], lo, hi) {
        if i <= n { assert Good(ss[i], lo, hi); }
      }
      LastStep(states[n], events[n], states[n + 1], lo, hi, b, w);
    }
  }

  lemma LastStep(s: State, ev: Event, t: State, lo: int, hi: int, b: Block, w: int)
    requires Step(s, ev, t, lo, hi)
    ensures |t.mem| == |s.mem|
    ensures
      InPayload(b, w) && 0 <= w < |s.mem| && b in Live(s.bs) && b in Live(t.bs) && !(ev.Store? && ev.w == w)
      ==> t.mem[w] == s.mem[w]
  {
    if InPayload(b, w) && b in Live(s.bs) && b in Live(t.bs) {
      assert b in Live(s.bs) * Live(t.bs) && InBlock(b, w);
    }
  }

  /** Memory after block b was taken for n words. */
  ghost function ReservedMem(m: seq<u32>, b: Block, n: int): seq<u32>
    requires HeaderAt(m, b) && b.size >= n >= 0 && b.End() <= |m| && 4 * b.End() < U32_LIMIT
  {
    var w, ent := b.addr, b.addr + HEADER + n;
    if b.size - n >= HEADER + 1 then
      m[ent := 4 * b.End()][ent + 1 := 0][w := 4 * ent][w + 1 := 1]
    else
      m[w + 1 := 1]
  }

  lemma ReservedMemEncodes(m: seq<u32>, bs: seq<Block>, lo: int, hi: int, k: nat, n: int)
    requires Settled(bs, lo, hi) && Arena(m, lo, hi) && Encodes(m, bs)
    requires k < |bs| && Fits(bs[k], n) && n >= 0
    ensures HeaderAt(m, bs[k]) && bs[k].End() <= hi
    ensures Encodes(ReservedMem(m, bs[k], n), Reserve(bs, k, n))
    ensures ChangedOnly(m, ReservedMem(m, bs[k], n), bs[k])
  {
    TilingBounds(bs, lo, hi, k);
    assert HeaderAt(m, bs[k]);
    var m' := ReservedMem(m, bs[k], n);
    var r := Reserve(bs, k, n);
    assert ChangedOnly(m, m', bs[k]);
    EncodesOthers(m, m', bs, lo, hi, k);
    assert HeaderAt(m', r[k]);
    if bs[k].size - n >= HEADER + 1 {
      assert HeaderAt(m', r[k + 1]);
      assert forall i :: 0 <= i < k ==> r[i] == bs[i];
      assert forall i :: k + 1 < i < |r| ==> r[i] == bs[i - 1];
    }
  }

  lemma ReleasedMemEncodes(m: seq<u32>, bs: seq<Block>, lo: int, hi: int, k: nat)
    requires Tiling(bs, lo, hi) && Arena(m, lo, hi) && Encodes(m, bs) && k < |bs| && !bs[k].free
    ensures HeaderAt(m, bs[k])
    ensures
      var m', r := m[bs[k].addr + 1 := 0], bs[k := bs[k].(free := true)];
      Encodes(m', r) && Tiling(r, lo, hi) && Kept(m, m', Live(r), lo, hi)
  {
    TilingBounds(bs, lo, hi, k);
    assert HeaderAt(m, bs[k]);
    var m', r := m[bs[k].addr + 1 := 0], bs[k := bs[k].(free := true)];
    assert ChangedOnly(m, m', bs[k]);
    EncodesOthers(m, m', bs, lo, hi, k);
    assert HeaderAt(m', r[k]);
    assert ChangedOnly(m, m', r[k]);
    ChangedOnlyKept(m, m', r, lo, hi, k);
  }

  lemma MergedMemEncodes(m: seq<u32>, bs: seq<Block>, lo: int, hi: int, i: nat)
    requires Tiling(bs, lo, hi) && Arena(m, lo, hi) && Encodes(m, bs)
    requires i + 1 < |bs| && bs[i].free && bs[i + 1].free
    ensures HeaderAt(m, bs[i]) && 0 <= bs[i + 1].End() <= hi
    ensures
      var m', r := m[bs[i].addr := 4 * bs[i + 1].End()], MergeAt(bs, i);
      Encodes(m', r) && Tiling(r, lo, hi) && Kept(m, m', Live(bs), lo, hi)
  {
    TilingBounds(bs, lo, hi, i);
    TilingBounds(bs, lo, hi, i + 1);
    assert HeaderAt(m, bs[i]);
    var m', r := m[bs[i].addr := 4 * bs[i + 1].End()], MergeAt(bs, i);
    MergeAtTiling(bs, lo, hi, i);
    assert ChangedOnly(m, m', bs[i]);
    EncodesOthers(m, m', bs, lo, hi, i);
    ChangedOnlyKept(m, m', bs, lo, hi, i);
    assert HeaderAt(m', r[i]);
    assert forall j :: 0 <= j < i ==> r[j] == bs[j];
    assert forall j :: i < j < |r| ==> r[j] == bs[j + 1];
  }

  class Allocator {
    const mem: array<u32>
    var heap: int
    var heapEnd: int
    ghost var blocks: seq<Block>
    ghost var lo: int  // `heap` and `heapEnd` as word indices
    ghost var hi: int

    /** The chain in memory is the block list, which tiles the arena. */
    ghost predicate Chained()
      reads this, mem
    {
      && heap == 4 * lo && heapEnd == 4 * hi
      && Arena(mem[..], lo, hi)
      && Tiling(blocks, lo, hi)
      && Encodes(mem[..], blocks)
    }

    ghost predicate Valid()
      reads this, mem
    {
      Chained() && NoAdjacentFree(blocks)
    }

    // HeapEntry, for the header at byte address e

    ghost predicate IsEntry(e: int)
      reads mem
    {
      0 <= e && e / 4 + 1 < mem.Length
    }

    function Next(e: int): int
      reads mem
      requires IsEntry(e)
    {
      mem[e / 4]
    }

    predicate IsFree(e: int)
      reads mem
      requires IsEntry(e)
    {
      mem[e / 4 + 1] % 2 == 0
    }

    /** Payload bytes. */
    function Size(e: int): int
      reads mem
      requires IsEntry(e)
    {
      (Next(e) - e - 4 * HEADER) % U32_LIMIT
    }

    method InitEntry(e: int, next: u32)
      requires IsEntry(e)
      modifies mem
      ensures mem[..] == old(mem[..])[e / 4 := next][e / 4 + 1 := 0]
    {
      mem[e / 4] := next;
      mem[e / 4 + 1] := 0;
    }

    /** In the chain, the header fields read back the block. */
    lemma ReadsBack(k: nat)
      requires Chained() && k < |blocks|
      ensures var b := blocks[k]; var e := 4 * b.addr;
        && 0 < e && e / 4 == b.addr && IsEntry(e) && b.End() <= hi
        && Next(e) == 4 * b.End() && IsFree(e) == b.free
    {
      TilingBounds(blocks, lo, hi, k);
      assert HeaderAt(mem[..], blocks[k]);
    }

    lemma SizeReadsBack(k: nat)
      requires Chained() && k < |blocks|
      ensures IsEntry(4 * blocks[k].addr) && Size(4 * blocks[k].addr) == 4 * blocks[k].size
    {
      ReadsBack(k);
    }

    /** Only past the last block does the scan pointer equal the end of the arena. */
    lemma ReadsBackEnd(i: nat)
      requires Chained() && i <= |blocks|
      ensures i < |blocks| ==> 4 * blocks[i].addr != heapEnd
    {
      if i < |blocks| { ReadsBack(i); }
    }

    constructor (memory: array<u32>, basePtr: int, maxSize: u32)
      requires 0 < basePtr && basePtr % 4 == 0 && 4 * HEADER <= maxSize
      requires basePtr + maxSize <= 4 * memory.Length && basePtr + maxSize < U32_LIMIT
      modifies memory
      ensures mem == memory && Valid()
      ensures heap == basePtr && heapEnd == basePtr + maxSize - maxSize % 4
      ensures blocks == Initial(heap / 4, heapEnd / 4)
      ensures ChangedOnly(old(memory[..]), memory[..], blocks[0])
    {
      mem := memory;
      heap := basePtr;
      heapEnd := basePtr + (maxSize - maxSize % 4);
      lo := basePtr / 4;
      hi := (basePtr + (maxSize - maxSize % 4)) / 4;
      blocks := Initial(basePtr / 4, (basePtr + (maxSize - maxSize % 4)) / 4);
      new;
      InitEntry(heap, heapEnd);
      assert HeaderAt(mem[..], blocks[0]);
    }

    /** The header writes of `Reserve`, for n bytes. */
    method Carve(e: int, n: u32, ghost b: Block)
      requires HeaderAt(mem[..], b) && 4 * b.addr == e && b.free
      requires b.End() <= mem.Length && 4 * b.End() < U32_LIMIT && n % 4 == 0 && n <= 4 * b.size == Size(e)
      modifies mem
      ensures mem[..] == ReservedMem(old(mem[..]), b, n / 4)
    {
      if Size(e) - n >= 4 * HEADER + 4 {
        var ent := e + 4 * HEADER + n;
        InitEntry(ent, Next(e));
        mem[e / 4] := ent;
      }
      mem[e / 4 + 1] := mem[e / 4 + 1] - mem[e / 4 + 1] % 2 + 1;
    }

    /** Takes n bytes out of the block at e, or returns null if it is taken or too small. */
    method Reserve(e: int, n: u32, ghost k: nat) returns (ptr: int)
      requires Valid() && k < |blocks| && 4 * blocks[k].addr == e && n % 4 == 0
      modifies mem, this`blocks
      ensures Valid()
      ensures ptr == 0 <==> !old(blocks[k]).free || old(blocks[k]).size < n / 4
      ensures ptr == 0 ==> mem[..] == old(mem[..]) && blocks == old(blocks)
      ensures ptr != 0 ==> ptr == old(blocks[k]).Data() && blocks == HeapBlocks.Reserve(old(blocks), k, n / 4)
      ensures ptr != 0 ==> Carved(old(blocks), blocks, k, n / 4)
      ensures Kept(old(mem[..]), mem[..], Live(old(blocks)), lo, hi)
    {
      ReadsBack(k);
      SizeReadsBack(k);
      if !IsFree(e) || n > Size(e) {
        return 0;
      }
      ReserveKeeps(blocks, lo, hi, k, n / 4);
      ReserveCarves(blocks, k, n / 4);
      ReservedMemEncodes(mem[..], blocks, lo, hi, k, n / 4);
      Carve(e, n, blocks[k]);
      ChangedOnlyKept(old(mem[..]), mem[..], blocks, lo, hi, k);
      blocks := HeapBlocks.Reserve(blocks, k, n / 4);
      ptr := e + 4 * HEADER;
    }

    /** The scan of `malloc`: the header of the best fit for n bytes, or null. */
    method FindBest(n: u32) returns (found: int)
      requires Valid() && n % 4 == 0
      ensures found == 0 <==> forall j :: 0 <= j < |blocks| ==> !Fits(blocks[j], n / 4)
      ensures found != 0 ==> exists k :: IsBestFit(blocks, n / 4, k) && found == 4 * blocks[k].addr
    {
      found := 0;
      ghost var best: Option<nat> := None;
      var it := heap;
      ghost var i := 0;
      while it != heapEnd
        invariant 0 <= i <= |blocks|
        invariant it == if i < |blocks| then 4 * blocks[i].addr else heapEnd
        invariant best == BestFit(blocks[..i], n / 4)
        invariant found == 0 <==> best.None?
        invariant best.Some? ==> best.value < i && found == 4 * blocks[best.value].addr
        decreases |blocks| - i
      {
        ReadsBack(i);
        SizeReadsBack(i);
        if best.Some? { SizeReadsBack(best.value); }
        BestFitStep(blocks, n / 4, i);
        if IsFree(it) && Size(it) >= n {
          if found == 0 || Size(it) < Size(found) {
            found := it;
            best := Some(i);
          }
        }
        it := Next(it);
        i := i + 1;
      }
      ReadsBackEnd(i);
      assert blocks[..i] == blocks;
      assert best.Some? ==> IsBestFit(blocks, n / 4, best.value);
    }

    method Malloc(count: u32) returns (ptr: int)
      requires Valid()
      modifies mem, this`blocks
      ensures Valid() && Grants(old(blocks), blocks, count, ptr)
      // no live block loses a word
      ensures Kept(old(mem[..]), mem[..], Live(old(blocks)), lo, hi)
      ensures ptr == 0 ==> mem[..] == old(mem[..])
      ensures Step(State(old(mem[..]), old(blocks)), Call(Op.Malloc(count)), State(mem[..], blocks), lo, hi)
    {
      var n := RoundUp(count);
      var found := FindBest(n);
      if found == 0 {
        GrantsNothing(blocks, count);
        return 0;
      }
      ghost var k :| IsBestFit(blocks, Words(count), k) && found == 4 * blocks[k].addr;
      GrantsBest(blocks, lo, hi, count, k);
      ptr := Reserve(found, n, k);
    }

    method TryConsolidate(e: int, ghost i: nat) returns (merged: bool)
      requires Chained() && i + 1 < |blocks| && 4 * blocks[i].addr == e
      modifies mem, this`blocks
      ensures Chained()
      ensures merged <==> old(blocks[i].free && blocks[i + 1].free)
      ensures merged ==> blocks == MergeAt(old(blocks), i)
      ensures !merged ==> blocks == old(blocks) && mem[..] == old(mem[..])
      ensures Kept(old(mem[..]), mem[..], Live(old(blocks)), lo, hi)
    {
      ReadsBack(i);
      ReadsBack(i + 1);
      var next := Next(e);
      merged := false;
      if IsFree(e) && IsFree(next) {
        MergedMemEncodes(mem[..], blocks, lo, hi, i);
        ghost var after: u32 := 4 * blocks[i + 1].End();
        mem[e / 4] := Next(next);
        assert mem[..] == old(mem[..])[e / 4 := after];
        blocks := MergeAt(blocks, i);
        merged := true;
      }
    }

    /** One pass from the head: melts the first free pair, or finds none. */
    method ConsolidateFirst() returns (merged: bool, ghost i: nat)
      requires Chained()
      modifies mem, this`blocks
      ensures Chained()
      ensures merged ==>
        && i + 1 < |old(blocks)| && old(blocks)[i].free && old(blocks)[i + 1].free
        && blocks == MergeAt(old(blocks), i)
      ensures !merged ==> blocks == old(blocks) && NoAdjacentFree(blocks)
      ensures Kept(old(mem[..]), mem[..], Live(old(blocks)), lo, hi)
    {
      var ent := heap;
      i := 0;
      ReadsBack(0);
      merged := false;
      while Next(ent) != heapEnd
        invariant 0 <= i < |blocks| && ent == 4 * blocks[i].addr
        invariant blocks == old(blocks) && mem[..] == old(mem[..]) && Chained()
        invariant IsEntry(ent) && Next(ent) == 4 * blocks[i].End()
        invariant forall j :: 0 <= j < i ==> !(blocks[j].free && blocks[j + 1].free)
        decreases |blocks| - i
      {
        ReadsBackEnd(i);
        assert i + 1 < |blocks|;
        merged := TryConsolidate(ent, i);
        if merged {
          return;
        }
        ReadsBack(i + 1);
        ent := Next(ent);
        i := i + 1;
      }
      if i < |blocks| - 1 { ReadsBackEnd(i + 1); }
    }

    method Release(e: int, ghost k: nat)
      requires Chained() && k < |blocks| && !blocks[k].free && 4 * blocks[k].addr == e
      modifies mem, this`blocks
      ensures Chained() && blocks == old(blocks)[k := old(blocks[k]).(free := true)]
      ensures Kept(old(mem[..]), mem[..], Live(blocks), lo, hi)
    {
      ReadsBack(k);
      ReleasedMemEncodes(mem[..], blocks, lo, hi, k);
      mem[e / 4 + 1] := mem[e / 4 + 1] - mem[e / 4 + 1] % 2;
      assert mem[..] == old(mem[..])[blocks[k].addr + 1 := 0];
      blocks := blocks[k := blocks[k].(free := true)];
    }

    /** Passes from the head until one melts nothing: the order of the merges does not matter. */
    method ConsolidateAll()
      requires Chained()
      modifies mem, this`blocks
      ensures Valid() && blocks == Coalesce(old(blocks))
      ensures Live(blocks) == Live(old(blocks))
      ensures Kept(old(mem[..]), mem[..], Live(blocks), lo, hi)
    {
      while true
        invariant Chained() && Coalesce(blocks) == Coalesce(old(blocks)) && Live(blocks) == Live(old(blocks))
        invariant Kept(old(mem[..]), mem[..], Live(old(blocks)), lo, hi)
        decreases |blocks|
      {
        ghost var mid, bs := mem[..], blocks;
        var merged, i := ConsolidateFirst();
        KeptTransitive(old(mem[..]), mid, mem[..], Live(bs), lo, hi);
        if !merged {
          break;
        }
        MergeLive(bs, i);
      }
      CoalesceIdle(blocks);
    }

    method Free(ptr: int)
      requires Valid() && OpAllowed(blocks, Op.Free(ptr))
      modifies mem, this`blocks
      ensures Valid()
      ensures blocks == Apply(old(blocks), Op.Free(ptr))
      // every other live block keeps header and payload
      ensures Kept(old(mem[..]), mem[..], Live(blocks), lo, hi)
      ensures Step(State(old(mem[..]), old(blocks)), Call(Op.Free(ptr)), State(mem[..], blocks), lo, hi)
    {
      if ptr == 0 {
        return;
      }
      Release(ptr - 4 * HEADER, LiveIndex(blocks, ptr));
      ghost var mid := mem[..];
      ConsolidateAll();
      KeptTransitive(old(mem[..]), mid, mem[..], Live(blocks), lo, hi);
    }
  }
}
