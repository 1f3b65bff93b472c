/** The boot loader finds what fatedit lists. */
module FindAgreement {
  import opened Bytes
  import opened FatSuper
  import opened FatChains
  import opened FatContent
  import opened ShortName
  import opened Dirent
  import opened Lookup
  import opened LoaderSpec
  import opened LoaderFind
  import opened Agreement

  /** A cluster in front of the rest of the directory. */
  lemma ClusterFirst(w: seq<byte>, n: nat, rest: seq<byte>, name: seq<byte>, stale: Junk, t: nat)
    requires |w| == SECTOR * n
    ensures
      var h := Search(Records(w), name, stale, t);
      Search(Records(w + rest), name, stale, t) == if h == GoOn then Search(Records(rest), name, stale, t + |Records(w)|) else h
  {
    assert |w| == RECORD * (16 * n);
    RecordsConcat(w, 16 * n, rest);
    SearchConcat(Records(w), Records(rest), name, stale, t);
  }

  /** The same inside the bytes of a chain. */
  lemma SearchTail(all: seq<byte>, p: nat, w: seq<byte>, n: nat, name: seq<byte>, stale: Junk, t: nat)
    returns (h: Hit, h': Hit, rest: seq<byte>)
    requires IsSlice(all, p, w) && |w| == SECTOR * n
    ensures h == Search(Records(w), name, stale, t) && h' == Search(Records(rest), name, stale, t + |Records(w)|)
    ensures rest == all[p + |w|..] && Search(Records(all[p..]), name, stale, t) == if h == GoOn then h' else h
  {
    rest := all[p + |w|..];
    assert all[p..] == w + rest;
    ClusterFirst(w, n, rest, name, stale, t);
    h, h' := Search(Records(w), name, stale, t), Search(Records(rest), name, stale, t + |Records(w)|);
  }

  /** From this cluster on the lookup decides as h does; taken apart only where `Open` is mentioned. */
  ghost predicate Finds(disk: seq<byte>, s: Super, index: int, name: seq<byte>, stale: Junk, t: nat, n: nat, h: Hit) {
    forall u: int {:trigger Open(u)} ::
      Open(u) && 0 <= index < U32_LIMIT && LookUp(disk, s, index, name, stale, t, n) == Some(Outcome(h))
  }

  /** A cluster whose link leads to the rest of the directory. */
  lemma FindsHere(
      disk: seq<byte>, s: Super, index: u32, name: seq<byte>, stale: Junk, t: nat, n: nat, w: seq<byte>, next: u32,
      h: Hit, h': Hit)
    requires 0 < n && index < LOADER_STOP && Cluster(disk, s, index) == Some(w) && FatIndex(disk, s, index) == Some(next)
    requires h == Search(Records(w), name, stale, t)
    requires Finds(disk, s, next, name, stale, t + |Records(w)|, n - 1, h')
    ensures Finds(disk, s, index, name, stale, t, n, if h == GoOn then h' else h)
  {
    assert Open(0);
    LookUpHere(disk, s, index, name, stale, t, n, w, next, h);
  }

  lemma FindsNothing(disk: seq<byte>, s: Super, index: u32, name: seq<byte>, stale: Junk, t: nat, n: nat, h: Hit)
    requires LOADER_STOP <= index && h == GoOn
    ensures Finds(disk, s, index, name, stale, t, n, h)
  {
    assert LookUp(disk, s, index, name, stale, t, n) == Some(Outcome(h));
  }

  lemma NothingLeft(rest: seq<byte>, name: seq<byte>, stale: Junk, t: nat)
    requires |rest| == 0
    ensures Search(Records(rest), name, stale, t) == GoOn
  {
    assert Records(rest) == [];
  }

  /** Looking up a name from cluster i of the chain on. */
  lemma {:induction false} FindMirrored(
      s: Super, disk: seq<byte>, ch: Chain, all: seq<byte>, i: nat, name: seq<byte>, stale: Junk, t: nat)
    requires Mirrored(s, disk, ch, all) && i < |ch|
    ensures Span(i, ClusterSize(s)) <= |all|
    ensures Finds(disk, s, ch[i], name, stale, t, |ch| - i, Search(Records(all[Span(i, ClusterSize(s))..]), name, stale, t))
    decreases |ch| - i
  {
    assert MirroredAt(s, disk, ch, all, i);
    var w, next := Cluster(disk, s, ch[i]).value, FatIndex(disk, s, ch[i]).value;
    var h, h', rest := ClusterDecides(s, disk, ch, all, i, name, stale, t);
    if i + 1 < |ch| {
      FindMirrored(s, disk, ch, all, i + 1, name, stale, t + |Records(w)|);
    } else {
      NothingLeft(rest, name, stale, t + |Records(w)|);
      FindsNothing(disk, s, next, name, stale, t + |Records(w)|, 0, h');
    }
    FindsHere(disk, s, ch[i], name, stale, t, |ch| - i, w, next, h, h');
  }

  /** The hit in cluster i, and the one in the clusters behind it. */
  lemma ClusterDecides(s: Super, disk: seq<byte>, ch: Chain, all: seq<byte>, i: nat, name: seq<byte>, stale: Junk, t: nat)
    returns (h: Hit, h': Hit, rest: seq<byte>)
    requires Mirrored(s, disk, ch, all) && MirroredAt(s, disk, ch, all, i)
    ensures
      var w := Cluster(disk, s, ch[i]).value;
      h == Search(Records(w), name, stale, t) && h' == Search(Records(rest), name, stale, t + |Records(w)|)
    ensures Span(i, ClusterSize(s)) <= Span(i + 1, ClusterSize(s)) <= |all| && rest == all[Span(i + 1, ClusterSize(s))..]
    ensures Search(Records(all[Span(i, ClusterSize(s))..]), name, stale, t) == if h == GoOn then h' else h
  {
    var m, w := ClusterSize(s), Cluster(disk, s, ch[i]).value;
    SpanMono(i + 1, |ch|, m);
    h, h', rest := SearchTail(all, Span(i, m), w, s.sectorsPerCluster, name, stale, t);
  }

  /** The loader's result is the entry found in fatedit's listing. */
  predicate SameFile(r: FindResult, m: Match) {
    match m
    case Found(d) =>
      && r.Located? && r.file.cluster == d.firstCluster && r.file.size == d.size
      && (IsDirectory(r.file) <==> d.isDirectory)
    case Cut => r == NoEntry
    case NotThere => r == NoEntry
  }

  /** On a directory that fatedit can list, the loader finds for every short name the first
      entry of that name, and nothing if there is none. */
  lemma LoaderFindsListed(s: Super, disk: seq<byte>, raw: seq<byte>, ch: Chain, name: seq<byte>, stale: Junk)
    requires ChainOnDisk(s, disk, raw, ch) && IsShort(name)
    requires Scan(Records(Stores(s, disk, raw, ch))).Listing?
    ensures 0 <= ch[0] < U32_LIMIT
    ensures
      var r := LookUp(disk, s, ch[0], name, stale, 0, |ch|);
      r.Some? && SameFile(r.value, FirstNamed(Scan(Records(Stores(s, disk, raw, ch))).entries, name))
  {
    var all := Stores(s, disk, raw, ch);
    ChainMirrored(s, disk, raw, ch);
    FindMirrored(s, disk, ch, all, 0, name, stale, 0);
    assert Open(0);
    assert all[0..] == all;
    LookupAgrees(Records(all), name, stale, 0);
    OutcomeSame(Search(Records(all), name, stale, 0), FirstNamed(Scan(Records(all)).entries, name));
  }

  /** A directory that starts with the records in use of `was` leads to every file listed there. */
  lemma LoaderFindsKept(s: Super, disk: seq<byte>, raw: seq<byte>, ch: Chain, was: seq<byte>, name: seq<byte>, stale: Junk)
    requires ChainOnDisk(s, disk, raw, ch) && IsShort(name)
    requires Scan(Records(was)).Listing? && InUse(was) <= |was| && was[..InUse(was)] <= Stores(s, disk, raw, ch)
    requires FirstNamed(Scan(Records(was)).entries, name).Found?
    ensures 0 <= ch[0] < U32_LIMIT
    ensures
      var r := LookUp(disk, s, ch[0], name, stale, 0, |ch|);
      r.Some? && SameFile(r.value, FirstNamed(Scan(Records(was)).entries, name))
  {
    var all := Stores(s, disk, raw, ch);
    ChainMirrored(s, disk, raw, ch);
    FindMirrored(s, disk, ch, all, 0, name, stale, 0);
    assert Open(0);
    assert all[0..] == all;
    SearchKept(was, all, name, stale, 0);
    OutcomeSame(Search(Records(all), name, stale, 0), FirstNamed(Scan(Records(was)).entries, name));
  }

  lemma SearchKept(was: seq<byte>, all: seq<byte>, name: seq<byte>, stale: Junk, t: nat)
    requires IsShort(name) && Scan(Records(was)).Listing?
    requires InUse(was) <= |was| && was[..InUse(was)] <= all
    requires FirstNamed(Scan(Records(was)).entries, name).Found?
    ensures SameResult(Search(Records(all), name, stale, t), FirstNamed(Scan(Records(was)).entries, name))
  {
    var n := Scan(Records(was)).used;
    PrefixRecords(was, n);
    PrefixRecords(all, n);
    assert all[..RECORD * n] == was[..RECORD * n];
    PrefixAgrees(Records(was), name, stale, t);
    FoundInFront(Records(all), n, name, stale, t, FirstNamed(Scan(Records(was)).entries, name));
  }

  lemma OutcomeSame(h: Hit, m: Match)
    requires SameResult(h, m)
    ensures SameFile(Outcome(h), m)
  {
  }
}
