/** What decides the outcome of pack commands: a few numbers, and the names in the directory. */
module PackLedger {
  import opened Bytes
  import opened FatSuper
  import opened FatState
  import opened FatAppend
  import opened ShortName
  import opened Dirent
  import opened DirectoryEdit
  import opened PackCommand

  /** One pack command: a name, and the contents of the file in the chunks they are read in. */
  datatype Job = Job(name: seq<byte>, chunks: seq<seq<byte>>)

  /** The clusters that can be taken, those of the directory, its records in use and the names in
      it; none if it cannot be listed. */
  datatype Ledger = Ledger(free: nat, dir: nat, used: nat, names: Option<set<seq<byte>>>)

  datatype Fate = WillPack | WillRefuse | WillThrow

  /** Room for n bytes and one more record. */
  predicate Room(g: Ledger, m: nat, n: nat)
    requires 0 < m
  {
    && g.dir == Clusters(RECORD * g.used, m)
    && Clusters(RECORD * g.used + 2 * RECORD, m) + Clusters(n, m) <= g.dir + g.free
  }

  /** What a command comes to. */
  ghost function FateOf(g: Ledger, m: nat, name: seq<byte>, n: nat): Fate
    requires 0 < m
  {
    if !IsShort(name) || g.names.None? || name in g.names.value then WillRefuse
    else if Room(g, m, n) then WillPack
    else WillThrow
  }

  /** What is left after a file of n bytes was packed and its record is read back as `back`. */
  ghost function Taken(g: Ledger, m: nat, back: Option<seq<byte>>, n: nat): Ledger
    requires 0 < m && g.names.Some? && Room(g, m, n)
  {
    var dir := Clusters(RECORD * g.used + 2 * RECORD, m);
    var free := g.dir + g.free - dir - Clusters(n, m);
    match back
    case None => Ledger(free, dir, 0, None)
    case Some(x) => Ledger(free, dir, g.used + 1, Some(g.names.value + {x}))
  }

  /** What a command leaves if it packs: the name in the directory is the one that is read back. */
  ghost function After(g: Ledger, m: nat, name: seq<byte>, n: nat): Ledger
    requires 0 < m && FateOf(g, m, name, n).WillPack?
  {
    Taken(g, m, ReadBackName(name), n)
  }

  /** What a run of commands comes to, up to the first that throws. */
  ghost function Predict(g: Ledger, m: nat, jobs: seq<Job>): seq<Fate>
    requires 0 < m
    decreases |jobs|
  {
    if jobs == [] then []
    else
      var name, n := jobs[0].name, |Flatten(jobs[0].chunks)|;
      match FateOf(g, m, name, n)
      case WillThrow => [WillThrow]
      case WillRefuse => [WillRefuse] + Predict(g, m, jobs[1..])
      case WillPack => [WillPack] + Predict(After(g, m, name, n), m, jobs[1..])
  }

  // ------------------------------------------------------------ a full cluster ends all packing

  function Packings(fates: seq<Fate>): nat {
    if fates == [] then 0 else (if fates[0].WillPack? then 1 else 0) + Packings(fates[1..])
  }

  lemma FateFirst(x: Fate, rest: seq<Fate>)
    ensures Packings([x] + rest) == (if x.WillPack? then 1 else 0) + Packings(rest)
  {
    assert ([x] + rest)[1..] == rest;
  }

  /** A directory whose records fill q clusters exactly, but which has one more. */
  predicate Spoilt(g: Ledger, m: nat, q: nat)
    requires 0 < m
  {
    g.names.None? || (RECORD * g.used == Span(q, m) && q < g.dir)
  }

  lemma SpoiltNoRoom(g: Ledger, m: nat, q: nat, n: nat)
    requires 0 < m && 1 <= q && RECORD * g.used == Span(q, m) && q < g.dir
    ensures !Room(g, m, n)
  {
    ClustersLeast(Span(q, m), m, q);
  }

  lemma {:induction false} SpoiltPacksNothing(g: Ledger, m: nat, q: nat, jobs: seq<Job>)
    requires 0 < m && 1 <= q && Spoilt(g, m, q)
    ensures Packings(Predict(g, m, jobs)) == 0
  {
    if jobs != [] {
      var name, n := jobs[0].name, |Flatten(jobs[0].chunks)|;
      if g.names.Some? { SpoiltNoRoom(g, m, q, n); }
      SpoiltPacksNothing(g, m, q, jobs[1..]);
      FateFirst(FateOf(g, m, name, n), if FateOf(g, m, name, n).WillThrow? then [] else Predict(g, m, jobs[1..]));
    }
  }

  /** Where a record ends with its cluster the end mark opens another cluster, and no command packs
      a file into that directory any more: once the records in use fit q clusters but do not fill
      them, there will never be more than fit these. */
  lemma {:induction false} PacksEnd(g: Ledger, m: nat, q: nat, jobs: seq<Job>)
    requires 0 < m && m % RECORD == 0 && 1 <= q
    requires g.names.Some? ==> RECORD * g.used < Span(q, m)
    ensures g.names.Some? ==> RECORD * (g.used + Packings(Predict(g, m, jobs))) <= Span(q, m)
    ensures g.names.None? ==> Packings(Predict(g, m, jobs)) == 0
    decreases |jobs|, 0
  {
    if jobs != [] {
      var name, n, rest := jobs[0].name, |Flatten(jobs[0].chunks)|, jobs[1..];
      var fate := FateOf(g, m, name, n);
      if fate.WillPack? {
        var h := After(g, m, name, n);
        SpanRecords(q, m);
        NextRecord(g.used, Span(q, m));
        PacksEndAfter(h, m, q, g.used, rest);
        FateFirst(fate, Predict(h, m, rest));
      } else if fate.WillRefuse? {
        PacksEnd(g, m, q, rest);
        FateFirst(fate, Predict(g, m, rest));
      } else {
        FateFirst(fate, []);
        assert [fate] + [] == [fate];
      }
    }
  }

  lemma NextRecord(u: nat, b: nat)
    requires b % RECORD == 0 && RECORD * u < b
    ensures RECORD * u + RECORD <= b
  {
  }

  /** The same behind the record that made it u + 1 records. */
  lemma {:induction false} PacksEndAfter(h: Ledger, m: nat, q: nat, u: nat, jobs: seq<Job>)
    requires 0 < m && m % RECORD == 0 && 1 <= q && RECORD * u + RECORD <= Span(q, m)
    requires h.names.Some? ==> h.used == u + 1 && h.dir == Clusters(RECORD * u + 2 * RECORD, m)
    ensures RECORD * (u + 1 + Packings(Predict(h, m, jobs))) <= Span(q, m)
    decreases |jobs|, 1
  {
    if h.names.Some? && RECORD * u + RECORD < Span(q, m) {
      PacksEnd(h, m, q, jobs);
    } else {
      ClustersLeast(RECORD * u + 2 * RECORD, m, q);
      SpoiltPacksNothing(h, m, q, jobs);
    }
  }

  // ------------------------------------------------------------ the ledger of a volume

  /** The short and long names of some entries. */
  function Names(es: seq<DirEntry>): set<seq<byte>> {
    (set e | e in es :: e.shortName) + (set e | e in es :: e.longName)
  }

  lemma NamesAre(es: seq<DirEntry>, name: seq<byte>)
    ensures NotListed(es, name) <==> name !in Names(es)
  {
  }

  lemma NamesMore(es: seq<DirEntry>, d: DirEntry)
    requires d.longName == d.shortName
    ensures Names(es + [d]) == Names(es) + {d.shortName}
  {
    forall x ensures x in Names(es + [d]) <==> x in Names(es) + {d.shortName} {
      NamesAre(es + [d], x);
      NamesAre(es, x);
      assert (es + [d])[|es|] == d;
      assert forall i :: 0 <= i < |es| ==> (es + [d])[i] == es[i];
    }
  }

  ghost function LedgerWith(free: nat, dir: nat, listing: Listing): Ledger {
    match listing
    case Fail => Ledger(free, dir, 0, None)
    case Listing(es, used) => Ledger(free, dir, used, Some(Names(es)))
  }

  ghost function LedgerOf(s: Super, l: Area, d: Disk, f: Files, k: nat): Ledger
    requires Good(s, l, d, f) && k < |f.chains|
  {
    LedgerWith(|Usable(l, d.raw)|, |f.chains[k]|, Scan(Records(ChainBytes(s, l, d, f, k))))
  }

  /** The fate that the ledger gives is what `PackFile` promises. */
  lemma FateIs(s: Super, l: Area, d: Disk, f: Files, k: nat, name: seq<byte>, n: nat)
    requires Good(s, l, d, f) && k < |f.chains|
    ensures 0 < l.clusterSize
    ensures
      var fate, dir := FateOf(LedgerOf(s, l, d, f, k), l.clusterSize, name, n), ChainBytes(s, l, d, f, k);
      && (fate.WillRefuse? <==> !IsShort(name) || !ListsNew(dir, name))
      && (fate.WillPack? <==> IsShort(name) && ListsNew(dir, name) && RoomFor(l, d, f, k, InUse(dir), n))
  {
    var dir := ChainBytes(s, l, d, f, k);
    if Scan(Records(dir)).Listing? {
      NamesAre(Scan(Records(dir)).entries, name);
      RoomIs(l, d, f, k, Scan(Records(dir)), n);
    }
  }

  lemma RoomIs(l: Area, d: Disk, f: Files, k: nat, listing: Listing, n: nat)
    requires k < |f.chains| && f.chains[k] != [] && 0 < l.clusterSize && listing.Listing?
    ensures
      Room(LedgerWith(|Usable(l, d.raw)|, |f.chains[k]|, listing), l.clusterSize, n)
      <==> RoomFor(l, d, f, k, RECORD * listing.used, n)
  {
    ChainMatchesClusters(l, f.chains[k], RECORD * listing.used);
  }

  lemma LedgerGrown(
      free: nat, dir: nat, was: Listing, free': nat, dir': nat, now: Listing, m: nat, back: Option<seq<byte>>, first: u32, n: u32)
    requires 0 < m && was.Listing? && Room(LedgerWith(free, dir, was), m, n)
    requires dir' == Clusters(RECORD * was.used + 2 * RECORD, m) && free' + dir' + Clusters(n, m) == free + dir
    requires now == match back { case None => Fail case Some(x) => WithNew(was, x, false, first, n) }
    ensures LedgerWith(free', dir', now) == Taken(LedgerWith(free, dir, was), m, back, n)
  {
    if back.Some? { NamesMore(was.entries, NewEntry(back.value, false, first, n)); }
  }

  lemma LedgerPacked(
      s: Super, l: Area, d0: Disk, f0: Files, d: Disk, f: Files, k: nat, name: seq<byte>, first: u32, data: seq<byte>)
    requires PackDone(s, l, d0, f0, d, f, k, name, first, data)
    requires 0 < l.clusterSize && FateOf(LedgerOf(s, l, d0, f0, k), l.clusterSize, name, |data|).WillPack?
    ensures LedgerOf(s, l, d, f, k) == After(LedgerOf(s, l, d0, f0, k), l.clusterSize, name, |data|)
  {
    var was, now := ChainBytes(s, l, d0, f0, k), ChainBytes(s, l, d, f, k);
    EntryListed(was, now, name, false, first, |data|);
    LedgerGrown(|Usable(l, d0.raw)|, |f0.chains[k]|, Scan(Records(was)), |Usable(l, d.raw)|, |f.chains[k]|,
                Scan(Records(now)), l.clusterSize, ReadBackName(name), first, |data|);
  }
}
