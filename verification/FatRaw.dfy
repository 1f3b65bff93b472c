/** The table as bytes: how entries are read and written. */
module FatRaw {
  import opened Bytes
  import opened Arith
  import opened FatChains

  /** The 32-bit word of entry n, as the loader reads it. */
  function RawEntry(raw: seq<byte>, n: nat): u32
    requires n < |raw| / 4
  {
    WordAt(raw, 4 * n)
  }

  /** The 28 bits of entry n that fatedit looks at. */
  function Entry(raw: seq<byte>, n: nat): (e: int)
    requires n < |raw| / 4
    ensures 0 <= e < 0x1000_0000
  {
    RawEntry(raw, n) % 0x1000_0000
  }

  /** The first n entries. */
  function Entries(raw: seq<byte>, n: nat): (t: seq<int>)
    requires n <= |raw| / 4
    ensures |t| == n
  {
    if n == 0 then [] else Entries(raw, n - 1) + [Entry(raw, n - 1)]
  }

  function Table(raw: seq<byte>): (t: seq<int>)
    ensures |t| == |raw| / 4
  {
    Entries(raw, |raw| / 4)
  }

  lemma {:induction false} EntriesAt(raw: seq<byte>, n: nat, i: nat)
    requires i < n <= |raw| / 4
    ensures Entries(raw, n)[i] == Entry(raw, i)
  {
    if i < n - 1 {
      EntriesAt(raw, n - 1, i);
    }
  }

  lemma TableAt(raw: seq<byte>, i: nat)
    requires i < |raw| / 4
    ensures Table(raw)[i] == Entry(raw, i)
  {
    EntriesAt(raw, |raw| / 4, i);
  }

  /** The chain successor of cluster n; an index outside the table throws. */
  function NextClusterInFile(raw: seq<byte>, n: u32): Result<u32> {
    var idx := (n * 4) % U32_LIMIT;
    if idx + 3 < |raw| then Ok(WordAt(raw, idx) % 0x1000_0000) else Throws
  }

  lemma NextIsRaw(raw: seq<byte>, n: u32)
    requires n < 0x4000_0000
    ensures NextClusterInFile(raw, n) == if n < |raw| / 4 then Ok(Entry(raw, n)) else Throws
  {
    assert (n * 4) % U32_LIMIT == 4 * n;
    QuarterBound(n, |raw|);
  }

  lemma QuarterBound(n: nat, len: nat)
    ensures n < len / 4 <==> 4 * n + 3 < len
  {
  }

  lemma NextIsEntry(raw: seq<byte>, n: u32)
    requires n < 0x4000_0000
    ensures NextClusterInFile(raw, n) == if n < |raw| / 4 then Ok(Table(raw)[n]) else Throws
  {
    NextIsRaw(raw, n);
    if n < |raw| / 4 { TableAt(raw, n); }
  }

  /** The lower 28 bits. */
  function Low28(value: u32): u32 { if value < 0x1000_0000 then value else value % 0x1000_0000 }

  /** The four bytes stored for a new entry value; the top nibble is cleared. */
  function EntryBytes(value: u32): (s: seq<byte>)
    ensures |s| == 4
  {
    var r := value / 0x100;
    var q := r / 0x100;
    [value % 0x100, r % 0x100, q % 0x100, q / 0x100 % 0x10]
  }

  /** Only 28 bits of a value are stored. */
  lemma EntryBytesValue(value: u32)
    ensures WordAt(EntryBytes(value), 0) == Low28(value)
  {
    var r := value / 0x100;
    var q := r / 0x100;
    CutTop(value, value % 0x100 + 0x100 * (r % 0x100) + 0x1_0000 * (q % 0x100), q / 0x100);
  }

  /** The lower 24 bits and what is above them. */
  lemma CutTop(value: u32, low: nat, top: nat)
    requires value == low + 0x100_0000 * top && low < 0x100_0000
    ensures Low28(value) == low + 0x100_0000 * (top % 0x10)
  {
    QuotientIs(value, 0x1000_0000, top / 0x10, low + 0x100_0000 * (top % 0x10));
  }

  /** The byte that holds the four bits fatedit ignores. */
  function TopByte(raw: seq<byte>, n: nat): byte
    requires n < |raw| / 4
  {
    raw[4 * n + 3]
  }

  /** The loader and fatedit read the same number if and only if those bits are clear. */
  lemma CleanEntry(raw: seq<byte>, n: nat)
    requires n < |raw| / 4
    ensures RawEntry(raw, n) == Table(raw)[n] <==> TopByte(raw, n) < 0x10
  {
    TableAt(raw, n);
    TopNibble(raw[4 * n], raw[4 * n + 1], raw[4 * n + 2], raw[4 * n + 3]);
  }

  /** What is a link for fatedit ends a chain for the loader exactly if one of those bits is set, or
      if the entry lies between the loader's end mark and fatedit's. */
  lemma LinkEndsChain(raw: seq<byte>, n: nat)
    requires n < |raw| / 4 && IsLink(Table(raw)[n])
    ensures LOADER_STOP <= RawEntry(raw, n) <==> 0x10 <= TopByte(raw, n) || 0x0FFF_FFF0 <= Table(raw)[n] <= 0x0FFF_FFF7
  {
    CleanEntry(raw, n);
    TableAt(raw, n);
  }

  lemma TopNibble(b0: byte, b1: byte, b2: byte, b3: byte)
    ensures Word32(b0, b1, b2, b3) < 0x1000_0000 <==> b3 < 0x10
  {
  }

  lemma SetEntryRaw(raw: seq<byte>, n: nat, value: u32, m: nat)
    requires n < |raw| / 4 && m < |raw| / 4
    ensures 4 * n + 4 <= |raw|
    ensures
      var raw' := Overwrite(raw, 4 * n, EntryBytes(value));
      && Entry(raw', m) == (if m == n then Low28(value) else Entry(raw, m))
      && (if m == n then TopByte(raw', m) < 0x10 else TopByte(raw', m) == TopByte(raw, m))
  {
    var raw' := Overwrite(raw, 4 * n, EntryBytes(value));
    if m == n {
      var w := raw'[4 * n..4 * n + 4];
      assert w == EntryBytes(value);
      EntryBytesValue(value);
      assert WordAt(raw', 4 * n) == WordAt(w, 0);
    } else {
      assert 4 * m + 4 <= 4 * n || 4 * n + 4 <= 4 * m;
    }
  }

  /** Storing an entry changes that entry of the table and no other. */
  lemma SetEntryTable(raw: seq<byte>, n: nat, value: u32)
    requires n < |raw| / 4
    ensures 4 * n + 4 <= |raw|
    ensures
      var raw' := Overwrite(raw, 4 * n, EntryBytes(value));
      && Table(raw') == Table(raw)[n := Low28(value)]
      && TopByte(raw', n) < 0x10
      && forall m :: 0 <= m < |raw| / 4 && m != n ==> TopByte(raw', m) == TopByte(raw, m)
  {
    var raw' := Overwrite(raw, 4 * n, EntryBytes(value));
    forall m | 0 <= m < |raw| / 4
      ensures Table(raw')[m] == Table(raw)[n := Low28(value)][m]
      ensures if m == n then TopByte(raw', m) < 0x10 else TopByte(raw', m) == TopByte(raw, m)
    {
      SetEntryRaw(raw, n, value, m);
      TableAt(raw', m);
      TableAt(raw, m);
    }
  }

  /** Looking up cluster i of a chain gives the next cluster, or an end mark for the last one. */
  lemma ChainNext(raw: seq<byte>, ch: Chain, i: nat)
    requires IsChain(Table(raw), ch) && i < |ch|
    ensures NextClusterInFile(raw, ch[i]).Ok?
    ensures
      var e := NextClusterInFile(raw, ch[i]).value;
      if i + 1 < |ch| then e == ch[i + 1] && IsLink(e) else IsEnd(e)
  {
    NextIsEntry(raw, ch[i]);
  }
}
