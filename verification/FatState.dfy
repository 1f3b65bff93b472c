/** The state of a volume that fatedit works on, and what holds of it between operations. */
module FatState {
  import opened Bytes
  import opened FatSuper
  import opened FatChains
  import opened FatRaw
  import opened FatContent

  /** The entries of the chain have no bits above the 28 that fatedit uses. */
  ghost predicate Clean(raw: seq<byte>, ch: Chain) {
    forall i :: 0 <= i < |ch| ==> ch[i] < |raw| / 4 && TopByte(raw, ch[i]) < 0x10
  }

  /** A table update that sets no bit above the 28. */
  ghost predicate CleanStep(raw: seq<byte>, raw': seq<byte>) {
    && |raw'| == |raw|
    && forall m :: 0 <= m < |raw| / 4 ==> TopByte(raw', m) == TopByte(raw, m) || TopByte(raw', m) < 0x10
  }

  lemma CleanStepTrans(a: seq<byte>, b: seq<byte>, c: seq<byte>)
    requires CleanStep(a, b) && CleanStep(b, c)
    ensures CleanStep(a, c)
  {
  }

  lemma CleanKept(raw: seq<byte>, raw': seq<byte>, ch: Chain)
    requires CleanStep(raw, raw') && Clean(raw, ch)
    ensures Clean(raw', ch)
  {
  }

  /** What the code returns for "no free cluster": 0x0FFFFFFF8 cut to 32 bits. */
  const NO_CLUSTER: u32 := 0xFFFF_FFF8

  /** A table that holds the given chains, all inside the data area, and whose two
      reserved entries are in use. */
  ghost predicate Holds(t: seq<int>, chains: seq<Chain>, l: Area) {
    && |t| >= 2 && t[0] != 0 && t[1] != 0
    && Forest(t, chains)
    && forall k :: 0 <= k < |chains| ==> InArea(l, chains[k])
  }

  ghost predicate IsFree(t: seq<int>, l: Area, c: int) {
    l.InArea(c) && c < |t| && c < LOADER_STOP && t[c] == 0
  }

  lemma StartHolds(t: seq<int>, chains: seq<Chain>, l: Area, c: nat)
    requires Holds(t, chains, l) && IsFree(t, l, c)
    ensures Holds(t[c := END_OF_CHAIN], chains + [[c]], l)
  {
    StartChain(t, chains, c);
  }

  lemma GrowHolds(t: seq<int>, chains: seq<Chain>, l: Area, k: nat, c: nat)
    requires Holds(t, chains, l) && k < |chains| && IsFree(t, l, c)
    ensures
      var last := Last(chains[k]);
      last < |t| && Holds(t[c := END_OF_CHAIN][last := c], chains[k := chains[k] + [c]], l)
  {
    GrowChain(t, chains, k, c);
  }

  /** The byte range of the first table copy. */
  function FatStart(s: Super): nat { s.reservedSectors * s.bytesPerSector }

  function FatEnd(s: Super): (e: nat)
    ensures FatStart(s) <= e
  {
    FatStart(s) + s.sectorsPerFat * s.bytesPerSector
  }

  /** The image file and the table held in memory (`_fatRaw`). */
  datatype Disk = Disk(img: seq<byte>, raw: seq<byte>)

  /** The chains of the files and directories of a volume. */
  datatype Files = Files(chains: seq<Chain>)

  ghost predicate Good(super: Super, l: Area, d: Disk, files: Files) {
    var good := Fits(super, l, |d.img|) && Holds(Table(d.raw), files.chains, l);
    good
  }

  /** A cluster that the allocator can take is free.  It never takes the last two of the data
      area: cluster numbers start at 2, but the scan ends at the number of clusters. */
  ghost predicate HasFree(l: Area, raw: seq<byte>) {
    exists c :: IsFree(Table(raw), l, c) && c < l.count
  }

  /** The clusters that the allocator can still take. */
  ghost function Usable(l: Area, raw: seq<byte>): set<int> {
    set c: int | 2 <= c < l.count && IsFree(Table(raw), l, c)
  }

  lemma UsableLeft(l: Area, raw: seq<byte>)
    ensures HasFree(l, raw) <==> 0 < |Usable(l, raw)|
  {
    if c :| IsFree(Table(raw), l, c) && c < l.count { assert c in Usable(l, raw); }
    if 0 < |Usable(l, raw)| {
      var c :| c in Usable(l, raw);
    }
  }

  /** Taking one of them, with or without linking a used cluster to it, leaves the others. */
  lemma UsableTaken(l: Area, raw: seq<byte>, raw': seq<byte>, c: int, last: int)
    requires IsFree(Table(raw), l, c) && c < l.count && 0 <= last < |Table(raw)|
    requires
      || Table(raw') == Table(raw)[c := END_OF_CHAIN]
      || (Table(raw)[last] != 0 && Table(raw') == Table(raw)[c := END_OF_CHAIN][last := c])
    ensures Usable(l, raw') == Usable(l, raw) - {c} && |Usable(l, raw')| + 1 == |Usable(l, raw)|
  {
    assert c in Usable(l, raw);
    forall e ensures e in Usable(l, raw') <==> e in Usable(l, raw) - {c} {
    }
  }

  /** The scan finds an entry if and only if there is such a cluster. */
  lemma ScanFindsFree(raw: seq<byte>, chains: seq<Chain>, l: Area)
    requires Holds(Table(raw), chains, l) && l.count < 0x0080_0000
    ensures HasFree(l, raw) <==> FirstFree(Table(raw), l.count).Ok? && FirstFree(Table(raw), l.count).value.Some?
  {
    var t := Table(raw);
    if FirstFree(t, l.count).Ok? && FirstFree(t, l.count).value.Some? {
      FirstFreeIsCluster(t, l.count);
      assert IsFree(t, l, FirstFree(t, l.count).value.value);
    }
  }

  /** With free clusters left the allocator finds none if and only if they are the last two. */
  lemma LastTwoUnused(raw: seq<byte>, l: Area)
    requires exists c :: IsFree(Table(raw), l, c)
    ensures !HasFree(l, raw) <==> forall c :: IsFree(Table(raw), l, c) ==> c == l.count || c == l.count + 1
  {
  }
}
