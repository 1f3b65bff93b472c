/** Moving and clearing memory in protected mode. */
module MemoryCopy {
  import opened Bytes

  /** Byte a of the memory after `count` bytes were moved from src to dst. */
  function MovedByte(was: seq<byte>, dst: nat, src: nat, count: nat, a: nat): byte
    requires src + count <= |was| && a < |was|
  {
    if dst <= a < dst + count then was[src + (a - dst)] else was[a]
  }

  /** Copies `count` bytes; source and destination may overlap. */
  method CopyMemory32(mem: array<byte>, dst: nat, src: nat, count: nat)
    requires dst + count <= mem.Length && src + count <= mem.Length
    modifies mem
    ensures mem[..] == Overwrite(old(mem[..]), dst, old(mem[src..src + count]))
  {
    ghost var was := mem[..];
    if dst == src || count == 0 {
      assert mem[..] == Overwrite(was, dst, was[src..src + count]);
      return;
    }
    if dst < src {
      CopyUp(mem, dst, src, count);
    } else {
      CopyDown(mem, dst, src, count);
    }
    assert mem[..] == Overwrite(was, dst, was[src..src + count]);
  }

  method CopyUp(mem: array<byte>, dst: nat, src: nat, count: nat)
    requires dst < src && src + count <= mem.Length
    modifies mem
    ensures forall a :: 0 <= a < mem.Length ==> mem[a] == MovedByte(old(mem[..]), dst, src, count, a)
  {
    ghost var was := mem[..];
    var d, s, n := dst, src, count;
    while n > 0
      invariant 0 <= n <= count && d == dst + (count - n) && s == src + (count - n)
      invariant forall a :: 0 <= a < mem.Length ==> mem[a] == MovedByte(was, dst, src, count - n, a)
    {
      n := n - 1;
      mem[d] := mem[s];
      d, s := d + 1, s + 1;
    }
  }

  method CopyDown(mem: array<byte>, dst: nat, src: nat, count: nat)
    requires src < dst && dst + count <= mem.Length
    modifies mem
    ensures forall a :: 0 <= a < mem.Length ==> mem[a] == MovedByte(old(mem[..]), dst, src, count, a)
  {
    ghost var was := mem[..];
    var d, s, n := dst + count - 1, src + count - 1, count;
    while n > 0
      invariant 0 <= n <= count && d == dst + n - 1 && s == src + n - 1
      invariant forall a :: 0 <= a < mem.Length ==> mem[a] == MovedByte(was, dst + n, src + n, count - n, a)
    {
      n := n - 1;
      mem[d] := mem[s];
      d, s := d - 1, s - 1;
    }
  }

  method ClearMemory32(mem: array<byte>, dst: nat, size: nat)
    requires dst + size <= mem.Length
    modifies mem
    ensures mem[..] == Overwrite(old(mem[..]), dst, Zeros(size))
  {
    ghost var was := mem[..];
    var ptr, n := dst, size;
    while n > 0
      invariant 0 <= n <= size && ptr == dst + (size - n)
      invariant forall a :: 0 <= a < |was| ==> mem[a] == if dst <= a < ptr then 0 else was[a]
    {
      n := n - 1;
      mem[ptr] := 0;
      ptr := ptr + 1;
    }
  }
}
