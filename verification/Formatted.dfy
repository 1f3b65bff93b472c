/** The state fatedit finds on a freshly formatted volume: where the invariant starts. */
module Formatted {
  import opened Bytes
  import opened FatSuper
  import opened FatChains
  import opened FatRaw
  import opened FatState
  import opened FatContent
  import opened FatAppend
  import opened FatCopies
  import opened ShortName
  import opened Dirent
  import opened PackLedger
  import opened PackRun

  /** The two reserved entries are in use, and the root directory has one cluster. */
  ghost predicate IsFresh(raw: seq<byte>, root: nat) {
    && 2 <= root < |raw| / 4 && root < LOADER_STOP
    && Entry(raw, 0) != 0 && Entry(raw, 1) != 0 && IsEnd(Entry(raw, root)) && TopByte(raw, root) < 0x10
  }

  /** Such a table is a forest whose only chain is the root directory, which both programs read
      in the same way. */
  lemma FreshVolume(raw: seq<byte>, l: Area, root: nat)
    requires IsFresh(raw, root) && l.InArea(root)
    ensures Holds(Table(raw), [[root]], l) && Clean(raw, [root])
  {
    var t := Table(raw);
    forall c | 0 <= c < |t| ensures t[c] == Entry(raw, c) { TableAt(raw, c); }
  }

  // ------------------------------------------------------------ an example

  const END_BYTES: seq<byte> := [0xF8, 0xFF, 0xFF, 0x0F]

  /** One sector of table: two reserved entries, the root directory, and free entries. */
  function FreshTable(): (raw: seq<byte>)
    ensures |raw| == 512
  {
    END_BYTES + END_BYTES + END_BYTES + Zeros(500)
  }

  lemma EndEntry(raw: seq<byte>, c: nat)
    requires c < |raw| / 4
    requires raw[4 * c] == 0xF8 && raw[4 * c + 1] == 0xFF && raw[4 * c + 2] == 0xFF && raw[4 * c + 3] == 0x0F
    ensures Entry(raw, c) == 0x0FFF_FFF8
  {
  }

  lemma FreeEntry(raw: seq<byte>, c: nat)
    requires c < |raw| / 4
    requires raw[4 * c] == 0 && raw[4 * c + 1] == 0 && raw[4 * c + 2] == 0 && raw[4 * c + 3] == 0
    ensures Entry(raw, c) == 0
  {
  }

  lemma FreshBytes(raw: seq<byte>)
    requires raw == FreshTable()
    ensures raw[0] == raw[4] == raw[8] == 0xF8 && raw[1] == raw[5] == raw[9] == 0xFF
    ensures raw[2] == raw[6] == raw[10] == 0xFF && raw[3] == raw[7] == raw[11] == 0x0F
    ensures forall i :: 12 <= i < 512 ==> raw[i] == 0
  {
  }

  lemma FreshEntry(raw: seq<byte>, c: nat)
    requires raw == FreshTable() && c < 128
    ensures Entry(raw, c) == if c < 3 then 0x0FFF_FFF8 else 0
  {
    FreshBytes(raw);
    if c < 3 { EndEntry(raw, c); } else { FreeEntry(raw, c); }
  }

  lemma FreshTableIs()
    ensures IsFresh(FreshTable(), 2)
  {
    var raw := FreshTable();
    assert raw[11] == END_BYTES[3];
    forall c | 0 <= c < 128 ensures Entry(raw, c) == if c < 3 then 0x0FFF_FFF8 else 0 {
      FreshEntry(raw, c);
    }
  }

  function SmallSuper(clusters: nat): Super
    requires clusters <= 100
  {
    Super(512, 1, 2, 1, 3 + clusters, 1, 2, 1)
  }

  lemma SmallDescribes(clusters: nat)
    requires 1 <= clusters <= 100
    ensures SmallSuper(clusters).Describes(512 * (3 + clusters))
    ensures SmallSuper(clusters).DataArea() == Area(1536, 512, clusters)
  {
  }

  lemma SmallMounted(clusters: nat, d: Disk)
    requires 1 <= clusters <= 100 && |d.img| == 512 * (3 + clusters) && |d.raw| == 512
    ensures Mounted(SmallSuper(clusters), Area(1536, 512, clusters), d)
  {
    SmallDescribes(clusters);
    assert IsMounted(SmallSuper(clusters), Area(1536, 512, clusters), d);
  }

  /** Small volumes show that what the theorems about packing and booting ask for can be had. */
  lemma SmallVolume(clusters: nat) returns (s: Super, l: Area, d: Disk)
    requires 1 <= clusters <= 100
    ensures s.bytesPerSector == 512 && s.numFats == 1 && s.sectorsPerCluster == 1 && l.count == clusters
    ensures Mounted(s, l, d) && Good(s, l, d, Files([[2]]))
    ensures Clean(d.raw, [2]) && Held(s, l, d, Files([[2]]), 0, ChainBytes(s, l, d, Files([[2]]), 0), [])
    ensures l.clusterSize == 512 && LedgerOf(s, l, d, Files([[2]]), 0) == FreshLedger(clusters)
  {
    s, l, d := SmallSuper(clusters), Area(1536, 512, clusters), Disk(Zeros(512 * (3 + clusters)), FreshTable());
    SmallDescribes(clusters);
    SmallMounted(clusters, d);
    DescribesFits(s, |d.img|);
    FreshTableIs();
    FreshVolume(d.raw, l, 2);
    SmallVolumeHolds(s, l, d);
    FreshUsable(l);
    FreshLedgerIs(s, l, d, Files([[2]]));
  }

  /** A directory that starts with a NUL is empty. */
  lemma EmptyDirectory(all: seq<byte>)
    requires RECORD <= |all| && all[0] == 0
    ensures Scan(Records(all)) == Listing([], 0)
  {
    assert Records(all)[0] == all[..RECORD];
  }

  /** Its root directory is one that pack commands can start from. */
  lemma SmallVolumeHolds(s: Super, l: Area, d: Disk)
    requires Good(s, l, d, Files([[2]])) && Clean(d.raw, [2]) && l.clusterSize == 512
    requires forall i :: 0 <= i < |d.img| ==> d.img[i] == 0
    ensures Held(s, l, d, Files([[2]]), 0, ChainBytes(s, l, d, Files([[2]]), 0), [])
    ensures Scan(Records(ChainBytes(s, l, d, Files([[2]]), 0))) == Listing([], 0)
  {
    var f := Files([[2]]);
    ContentCovers(d.img, l, f.chains[0]);
    ClusterRange(l, |d.img|, 2);
    var all := ChainBytes(s, l, d, f, 0);
    assert Span(0, 512) == 0 && IsSlice(all, Span(0, l.clusterSize), ClusterBytes(d.img, l, f.chains[0][0]));
    assert all[0] == all[0..512][0];
    EmptyDirectory(all);
    assert Holding(s, l, d, f, 0, all, []);
  }

  /** On a volume of three clusters with an empty root directory two clusters are free, and
      nothing can be allocated. */
  lemma TwoFreeNoneFound() returns (raw: seq<byte>, l: Area)
    ensures IsFresh(raw, 2) && l == SmallSuper(3).DataArea()
    ensures IsFree(Table(raw), l, 3) && IsFree(Table(raw), l, 4) && !HasFree(l, raw)
  {
    raw, l := FreshTable(), SmallSuper(3).DataArea();
    FreshTableIs();
    SmallDescribes(3);
    forall c: nat | c < 128 ensures Entry(raw, c) == if c < 3 then 0x0FFF_FFF8 else 0 { FreshEntry(raw, c); }
    FreshEntries(raw);
  }

  /** The entries of a table, by its bytes. */
  lemma FreshEntries(raw: seq<byte>)
    requires |raw| == 512 && forall c: nat :: c < 128 ==> Entry(raw, c) == if c < 3 then 0x0FFF_FFF8 else 0
    ensures |Table(raw)| == 128 && forall c :: 0 <= c < 128 ==> Table(raw)[c] == if c < 3 then 0x0FFF_FFF8 else 0
  {
    forall c | 0 <= c < 128 ensures Table(raw)[c] == if c < 3 then 0x0FFF_FFF8 else 0 { TableAt(raw, c); }
  }

  function Range(a: int, b: int): (r: set<int>)
    ensures forall c :: c in r <==> a <= c < b
    ensures |r| == if a <= b then b - a else 0
    decreases b - a
  {
    if a < b then Range(a, b - 1) + {b - 1} else {}
  }

  /** All clusters but that of the root directory and the last two can be taken. */
  lemma FreshUsable(l: Area)
    requires l.count <= 100
    ensures |Usable(l, FreshTable())| == if l.count <= 3 then 0 else l.count - 3
  {
    var raw := FreshTable();
    forall c: nat | c < 128 ensures Entry(raw, c) == if c < 3 then 0x0FFF_FFF8 else 0 { FreshEntry(raw, c); }
    FreshEntries(raw);
    assert Usable(l, raw) == Range(3, l.count);
  }

  /** The ledger of a small, freshly formatted volume. */
  function FreshLedger(clusters: nat): Ledger {
    Ledger(if clusters <= 3 then 0 else clusters - 3, 1, 0, Some({}))
  }

  lemma FreshLedgerIs(s: Super, l: Area, d: Disk, f: Files)
    requires Good(s, l, d, f) && |f.chains| == 1 && |f.chains[0]| == 1
    requires |Usable(l, d.raw)| == FreshLedger(l.count).free
    requires Scan(Records(ChainBytes(s, l, d, f, 0))) == Listing([], 0)
    ensures LedgerOf(s, l, d, f, 0) == FreshLedger(l.count)
  {
    assert Names([]) == {};
  }

  /** There a file of n bytes is packed if and only if it fits all clusters but the directory's and
      the last two, one byte hence if and only if there are four clusters or more. */
  lemma FreshFits(clusters: nat, name: seq<byte>, n: nat)
    requires IsShort(name)
    ensures
      FateOf(FreshLedger(clusters), 512, name, n)
      == if 4 <= clusters && n <= Span(clusters - 3, 512) then WillPack else WillThrow
  {
    if 4 <= clusters { ClustersLeast(n, 512, clusters - 3); }
  }

  /** However many clusters are free, no run of commands packs more than sixteen files into an
      empty directory of clusters of 512 bytes. */
  lemma SixteenFiles(s: Super, l: Area, d: Disk, f: Files, k: nat, jobs: seq<Job>)
    requires Good(s, l, d, f) && k < |f.chains| && l.clusterSize == 512
    requires Scan(Records(ChainBytes(s, l, d, f, k))) == Listing([], 0)
    ensures Packings(Predict(LedgerOf(s, l, d, f, k), 512, jobs)) <= 16
  {
    var g := LedgerOf(s, l, d, f, k);
    assert g.used == 0 && g.names.Some?;
    assert Span(1, 512) == 512 by { assert Span(0, 512) == 0; }
    PacksEnd(g, 512, 1, jobs);
  }
}
