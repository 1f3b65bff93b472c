/** The boot loader's `FindInDirectory` and `FindByPath`. */
module LoaderFind {
  import opened Bytes
  import opened FatSuper
  import opened FatChains
  import opened ShortName
  import opened Dirent
  import opened Lookup
  import opened LoaderSpec
  import opened Loader

  datatype FindResult = Located(file: FatFile) | NameInvalid | IOError | NoEntry | NotDir

  predicate IsDirectory(f: FatFile) { f.flags / 0x10 % 2 == 1 }

  function RootDir(s: Super): FatFile { FatFile(s.rootDirIndex, 0, 0x10) }

  /** What a hit in a cluster means; running off the last cluster finds nothing. */
  function Outcome(h: Hit): FindResult {
    match h
    case Hit(e) => Located(FatFile(ClusterIndex(e), Size(e), e[11]))
    case End => NoEntry
    case GoOn => NoEntry
  }

  /** The lookup without windows, one cluster after the other; None if n clusters do not decide
      it.  Nothing bounds how many the loader goes through: see `LoaderLoops`. */
  function LookUp(disk: seq<byte>, s: Super, index: u32, name: seq<byte>, stale: Junk, t: nat, n: nat): Option<FindResult>
    decreases n
  {
    if index >= LOADER_STOP then Some(NoEntry)
    else if n == 0 then None
    else
      match Cluster(disk, s, index)
      case None => Some(IOError)
      case Some(w) =>
        match FatIndex(disk, s, index)
        case None => Some(IOError)
        case Some(next) =>
          var h := Search(Records(w), name, stale, t);
          if h == GoOn then LookUp(disk, s, next, name, stale, t + |Records(w)|, n - 1) else Some(Outcome(h))
  }

  /** More clusters do not change a decided lookup. */
  lemma {:induction false} LookUpStable(
      disk: seq<byte>, s: Super, index: u32, name: seq<byte>, stale: Junk, t: nat, n: nat, m: nat)
    requires LookUp(disk, s, index, name, stale, t, n).Some? && n <= m
    ensures LookUp(disk, s, index, name, stale, t, m) == LookUp(disk, s, index, name, stale, t, n)
    decreases n
  {
    if index < LOADER_STOP && Cluster(disk, s, index).Some? && FatIndex(disk, s, index).Some? {
      var rs := Records(Cluster(disk, s, index).value);
      if Search(rs, name, stale, t) == GoOn {
        LookUpStable(disk, s, FatIndex(disk, s, index).value, name, stale, t + |rs|, n - 1, m - 1);
      }
    }
  }

  /** What one cluster of a directory decides. */
  lemma LookUpHere(
      disk: seq<byte>, s: Super, index: u32, name: seq<byte>, stale: Junk, t: nat, n: nat, w: seq<byte>, next: u32, h: Hit)
    requires 0 < n && index < LOADER_STOP && Cluster(disk, s, index) == Some(w) && FatIndex(disk, s, index) == Some(next)
    requires h == Search(Records(w), name, stale, t)
    ensures LookUp(disk, s, index, name, stale, t, n) ==
      if h == GoOn then LookUp(disk, s, next, name, stale, t + |Records(w)|, n - 1) else Some(Outcome(h))
  {
  }

  /** What was found is what a record of the directory says, byte by byte; the record is a short one
      of that name, or the name buffer held the name when it was looked at. */
  ghost predicate SaysSo(e: Record, name: seq<byte>, stale: Junk, f: FatFile) {
    && f.cluster == 0x1_0000 * Word16(e[20], e[21]) + Word16(e[26], e[27]) && f.size == WordAt(e, 28) && f.flags == e[11]
    && e[0] != 0 && e[0] != 0xE5 && e[11] % 16 != 15
    && (NameOf(e) == Some(name) || (NameOf(e).None? && exists t: nat :: stale(t) == name))
  }

  lemma {:induction false} HitSays(rs: seq<Record>, name: seq<byte>, stale: Junk, t: nat, e: Record)
    requires Search(rs, name, stale, t) == Hit(e)
    ensures e in rs && SaysSo(e, name, stale, FatFile(ClusterIndex(e), Size(e), e[11]))
  {
    if !(!IsLong(rs[0]) && !IsDummy(rs[0]) && Seen(rs[0], stale(t)) == name) {
      HitSays(rs[1..], name, stale, t + 1, e);
    }
  }

  /** The lookup finds f; taken apart only where `Open` is mentioned. */
  ghost predicate Finding(disk: seq<byte>, s: Super, index: u32, name: seq<byte>, stale: Junk, t: nat, n: nat, f: FatFile) {
    forall u: int {:trigger Open(u)} :: Open(u) && LookUp(disk, s, index, name, stale, t, n) == Some(Located(f))
  }

  lemma FindingStep(disk: seq<byte>, s: Super, index: u32, name: seq<byte>, stale: Junk, t: nat, n: nat, f: FatFile)
    returns (w: seq<byte>, next: u32, h: Hit)
    requires Finding(disk, s, index, name, stale, t, n, f)
    ensures n > 0 && Cluster(disk, s, index) == Some(w) && h == Search(Records(w), name, stale, t)
    ensures if h == GoOn then Finding(disk, s, next, name, stale, t + |Records(w)|, n - 1, f)
            else h.Hit? && f == FatFile(ClusterIndex(h.e), Size(h.e), h.e[11])
  {
    assert Open(0);
    w, next := Cluster(disk, s, index).value, FatIndex(disk, s, index).value;
    h := Search(Records(w), name, stale, t);
    LookUpHere(disk, s, index, name, stale, t, n, w, next, h);
  }

  lemma {:induction false} FindingSays(
      disk: seq<byte>, s: Super, index: u32, name: seq<byte>, stale: Junk, t: nat, n: nat, f: FatFile)
    returns (c: u32, e: Record)
    requires Finding(disk, s, index, name, stale, t, n, f)
    ensures Cluster(disk, s, c).Some? && e in Records(Cluster(disk, s, c).value) && SaysSo(e, name, stale, f)
    decreases n
  {
    var w, next, h := FindingStep(disk, s, index, name, stale, t, n, f);
    if h == GoOn {
      c, e := FindingSays(disk, s, next, name, stale, t + |Records(w)|, n - 1, f);
    } else {
      c, e := index, h.e;
      HitSays(Records(w), name, stale, t, e);
    }
  }

  lemma LocatedSays(
      disk: seq<byte>, s: Super, index: u32, name: seq<byte>, stale: Junk, t: nat, n: nat, f: FatFile)
    returns (c: u32, e: Record)
    requires LookUp(disk, s, index, name, stale, t, n) == Some(Located(f))
    ensures Cluster(disk, s, c).Some? && e in Records(Cluster(disk, s, c).value) && SaysSo(e, name, stale, f)
  {
    c, e := FindingSays(disk, s, index, name, stale, t, n, f);
  }

  /** The checks in front of the lookup. */
  ghost function LookIn(disk: seq<byte>, s: Super, f: FatFile, name: seq<byte>, stale: Junk, n: nat): Option<FindResult> {
    if !IsShort(name) then Some(NameInvalid)
    else if !IsDirectory(f) then Some(NotDir)
    else LookUp(disk, s, f.cluster, name, stale, 0, n)
  }

  lemma RecordsSplit(w: seq<byte>)
    requires |w| >= RECORD
    ensures Records(w) == [w[..RECORD]] + Records(w[RECORD..])
  {
  }

  /** Searching these bytes ends in h; taken apart only where `Open` is mentioned. */
  ghost predicate Decides(bytes: seq<byte>, name: seq<byte>, stale: Junk, t: nat, h: Hit) {
    forall u: int {:trigger Open(u)} :: Open(u) && Search(Records(bytes), name, stale, t) == h
  }

  /** The first record decides, or the search goes on behind it. */
  lemma SearchStep(rest: seq<byte>, e: Record, name: seq<byte>, stale: Junk, t: nat, h: Hit)
    requires |rest| >= RECORD && rest[..RECORD] == e && Decides(rest, name, stale, t, h)
    ensures
      if IsLast(e) then h == End
      else if !IsLong(e) && !IsDummy(e) && Seen(e, stale(t)) == name then h == Hit(e)
      else Decides(rest[RECORD..], name, stale, t + 1, h)
  {
    assert Open(0);
    RecordsSplit(rest);
    var rs := Records(rest);
    assert rs[0] == e && rs[1..] == Records(rest[RECORD..]);
  }

  lemma SearchEnds(rest: seq<byte>, name: seq<byte>, stale: Junk, t: nat, h: Hit)
    requires |rest| < RECORD && Decides(rest, name, stale, t, h)
    ensures h == GoOn
  {
    assert Open(0);
    assert Records(rest) == [];
  }

  lemma WindowStep(window: seq<byte>, i: nat)
    requires RECORD * i + RECORD <= |window|
    ensures
      var rest := window[RECORD * i..];
      && RECORD <= |rest| && rest[..RECORD] == window[RECORD * i..RECORD * i + RECORD]
      && rest[RECORD..] == window[RECORD * (i + 1)..]
  {
  }

  /** The loop over the records of the data window; t records were looked at before. */
  method SearchWindow(window: seq<byte>, name: seq<byte>, stale: Junk, t: nat) returns (h: Hit)
    ensures h == Search(Records(window), name, stale, t)
  {
    ghost var goal := Search(Records(window), name, stale, t);
    var max := |window| / RECORD;
    var i := 0;
    assert window[0..] == window;
    while i < max
      invariant 0 <= i <= max && Decides(window[RECORD * i..], name, stale, t + i, goal)
    {
      ghost var rest := window[RECORD * i..];
      var e: Record := window[RECORD * i..RECORD * i + RECORD];
      WindowStep(window, i);
      SearchStep(rest, e, name, stale, t + i, goal);
      if IsLast(e) {
        return End;
      }
      if !IsLong(e) && !IsDummy(e) && Seen(e, stale(t + i)) == name {
        return Hit(e);
      }
      i := i + 1;
    }
    SearchEnds(window[RECORD * max..], name, stale, t + max, goal);
    return GoOn;
  }

  /** `LoadDataCluster` and `ReadFatIndex` for one cluster of a directory. */
  method LoadDirCluster(fs: FatFs, index: u32) returns (ok: bool, next: u32)
    requires fs.Valid() && Coherent(fs.disk, fs.super, fs.cache) && index < LOADER_STOP
    modifies fs`loads, fs`cache
    ensures fs.Valid() && old(fs.loads) <= fs.loads
    ensures ok ==>
      && Coherent(fs.disk, fs.super, fs.cache) && Cluster(fs.disk, fs.super, index) == Some(fs.cache.dataWindow)
      && FatIndex(fs.disk, fs.super, index) == Some(next)
    ensures !ok && fs.Quiet(old(fs.loads), fs.loads) ==>
      Cluster(fs.disk, fs.super, index).None? || FatIndex(fs.disk, fs.super, index).None?
  {
    next := 0;
    ok := fs.LoadDataCluster(index);
    if ok {
      ok, next := fs.ReadFatIndex(index);
    }
  }

  /** r is the result of a lookup that gives `spec` on disk. */
  ghost predicate Answered(fs: FatFs, r: FindResult, spec: Option<FindResult>, loads: nat)
    reads fs
  {
    && (r != IOError ==> Coherent(fs.disk, fs.super, fs.cache) && spec == Some(r))
    && (r == IOError && fs.Quiet(loads, fs.loads) ==> spec == Some(IOError))
  }

  /** One round of the loop in `FindInDirectory`: a result, or the next cluster. */
  method FindRound(fs: FatFs, index: u32, name: seq<byte>, stale: Junk, t: nat, ghost n: nat)
    returns (r: Option<FindResult>, next: u32, t': nat, ghost m: nat)
    requires fs.Valid() && Coherent(fs.disk, fs.super, fs.cache) && index < LOADER_STOP
    requires LookUp(fs.disk, fs.super, index, name, stale, t, n).Some?
    modifies fs`loads, fs`cache
    ensures fs.Valid() && old(fs.loads) <= fs.loads
    ensures r.None? ==>
      && Coherent(fs.disk, fs.super, fs.cache) && m < n
      && LookUp(fs.disk, fs.super, index, name, stale, t, n) == LookUp(fs.disk, fs.super, next, name, stale, t', m)
    ensures r.Some? ==> Answered(fs, r.value, LookUp(fs.disk, fs.super, index, name, stale, t, n), old(fs.loads))
  {
    var ok;
    ok, next := LoadDirCluster(fs, index);
    m := n - 1;
    if !ok {
      return Some(IOError), next, t, m;
    }
    var h := SearchWindow(fs.cache.dataWindow, name, stale, t);
    t' := t + |Records(fs.cache.dataWindow)|;
    return if h != GoOn then Some(Outcome(h)) else None, next, t', m;
  }

  /** Whatever the windows held, the result is that of the lookup on disk; an I/O error without
      a failed load is one there too.  The search is one that n clusters decide. */
  method FindInDirectory(fs: FatFs, dir: FatFile, name: seq<byte>, stale: Junk, ghost n: nat)
    returns (r: FindResult)
    requires fs.Valid() && Coherent(fs.disk, fs.super, fs.cache)
    requires LookIn(fs.disk, fs.super, dir, name, stale, n).Some?
    modifies fs`loads, fs`cache
    ensures fs.Valid() && old(fs.loads) <= fs.loads
    ensures Answered(fs, r, LookIn(fs.disk, fs.super, dir, name, stale, n), old(fs.loads))
    // a name that is no short one is refused first, then a file that is no directory
    ensures !IsShort(name) ==> r == NameInvalid
    ensures IsShort(name) && dir.flags / 0x10 % 2 == 0 ==> r == NotDir
    ensures IsShort(name) && dir.flags / 0x10 % 2 == 1 ==>
      Answered(fs, r, LookUp(fs.disk, fs.super, dir.cluster, name, stale, 0, n), old(fs.loads))
  {
    ghost var spec := LookIn(fs.disk, fs.super, dir, name, stale, n);
    var short := IsShortName(name);
    if !short {
      return NameInvalid;
    }
    if !IsDirectory(dir) {
      return NotDir;
    }
    var index: u32, t := dir.cluster, 0;
    ghost var m := n;
    while index < LOADER_STOP
      invariant fs.Valid() && Coherent(fs.disk, fs.super, fs.cache) && old(fs.loads) <= fs.loads
      invariant spec.Some? && spec == LookUp(fs.disk, fs.super, index, name, stale, t, m)
      decreases m
    {
      var found;
      found, index, t, m := FindRound(fs, index, name, stale, t, m);
      if found.Some? {
        return found.value;
      }
    }
    return NoEntry;
  }
}
