/** When the boot loader looks for a name for ever.  `FindInDirectory` follows the links of a
    directory until it finds the name, an end mark or an end of the chain; nothing bounds how many
    it follows. */
module LoaderLoops {
  import opened Bytes
  import opened FatSuper
  import opened FatChains
  import opened Dirent
  import opened ShortName
  import opened Lookup
  import opened LoaderSpec
  import opened LoaderFind
  import opened LoaderPath

  /** No number of clusters decides the lookup. */
  ghost predicate Undecided(disk: seq<byte>, s: Super, c: u32, name: seq<byte>, stale: Junk, t: nat) {
    forall n: nat :: LookUp(disk, s, c, name, stale, t, n).None?
  }

  /** The search goes on behind this record; behind one without a readable name only if the name
      buffer does not hold the name by chance. */
  predicate PassedOver(e: Record, name: seq<byte>, strict: bool) {
    && !IsLast(e)
    && (IsLong(e) || IsDummy(e) || match NameOf(e) { case None => !strict case Some(x) => x != name })
  }

  /** A cluster from which the search goes on to one of `live`. */
  ghost predicate LeadsInto(disk: seq<byte>, s: Super, name: seq<byte>, strict: bool, live: set<int>, c: int) {
    && 0 <= c < LOADER_STOP && Cluster(disk, s, c).Some? && FatIndex(disk, s, c).Some?
    && FatIndex(disk, s, c).value in live
    && forall e :: e in Records(Cluster(disk, s, c).value) ==> PassedOver(e, name, strict)
  }

  /** No link leads out of these clusters, and no record in them ends the search. */
  ghost predicate Trap(disk: seq<byte>, s: Super, name: seq<byte>, strict: bool, live: set<int>) {
    forall c {:trigger LeadsInto(disk, s, name, strict, live, c)} ::
      c in live ==> LeadsInto(disk, s, name, strict, live, c)
  }

  ghost predicate Trapped(disk: seq<byte>, s: Super, c: u32, name: seq<byte>, strict: bool) {
    exists live: set<int> :: c in live && Trap(disk, s, name, strict, live)
  }

  /** The search goes through all of these records if and only if each is passed over. */
  lemma {:induction false} SearchPasses(rs: seq<Record>, name: seq<byte>, strict: bool, stale: Junk, t: nat)
    requires strict || forall u: nat :: stale(u) != name
    requires forall e :: e in rs ==> PassedOver(e, name, strict)
    ensures Search(rs, name, stale, t) == GoOn
  {
    if rs != [] {
      assert PassedOver(rs[0], name, strict);
      SearchPasses(rs[1..], name, strict, stale, t + 1);
    }
  }

  lemma {:induction false} PassedBySearch(rs: seq<Record>, name: seq<byte>, strict: bool, stale: Junk, t: nat)
    requires Search(rs, name, stale, t) == GoOn
    requires strict ==> forall u: nat :: stale(u) == name
    ensures forall e :: e in rs ==> PassedOver(e, name, strict)
  {
    if rs != [] {
      PassedBySearch(rs[1..], name, strict, stale, t + 1);
      assert PassedOver(rs[0], name, strict);
    }
  }

  /** In a trap no lookup comes to an end. */
  lemma {:induction false} TrapHolds(
      disk: seq<byte>, s: Super, c: u32, name: seq<byte>, strict: bool, live: set<int>, stale: Junk, t: nat, n: nat)
    requires c in live && Trap(disk, s, name, strict, live)
    requires strict || forall u: nat :: stale(u) != name
    ensures LookUp(disk, s, c, name, stale, t, n).None?
    decreases n
  {
    assert LeadsInto(disk, s, name, strict, live, c);
    if n > 0 {
      var w, next := Cluster(disk, s, c).value, FatIndex(disk, s, c).value;
      SearchPasses(Records(w), name, strict, stale, t);
      LookUpHere(disk, s, c, name, stale, t, n, w, next, GoOn);
      TrapHolds(disk, s, next, name, strict, live, stale, t + |Records(w)|, n - 1);
    }
  }

  ghost predicate MayGoOn(disk: seq<byte>, s: Super, c: int, name: seq<byte>, stale: Junk) {
    0 <= c < LOADER_STOP && exists t: nat :: Undecided(disk, s, c, name, stale, t)
  }

  /** The clusters from which a lookup may go on for ever. */
  ghost function Endless(disk: seq<byte>, s: Super, name: seq<byte>, stale: Junk): (live: set<int>)
    ensures forall c :: c in live ==> 0 <= c < LOADER_STOP
  {
    set c: int | 0 <= c < LOADER_STOP && MayGoOn(disk, s, c, name, stale)
  }

  lemma OneCluster(disk: seq<byte>, s: Super, c: u32, name: seq<byte>, stale: Junk, t: nat)
    requires LookUp(disk, s, c, name, stale, t, 1).None?
    ensures c < LOADER_STOP && Cluster(disk, s, c).Some? && FatIndex(disk, s, c).Some?
    ensures Search(Records(Cluster(disk, s, c).value), name, stale, t) == GoOn
  {
  }

  lemma EndlessGoesOn(disk: seq<byte>, s: Super, c: u32, name: seq<byte>, stale: Junk, t: nat)
    requires Undecided(disk, s, c, name, stale, t)
    ensures c < LOADER_STOP && Cluster(disk, s, c).Some? && FatIndex(disk, s, c).Some?
    ensures
      var rs := Records(Cluster(disk, s, c).value);
      && Search(rs, name, stale, t) == GoOn
      && Undecided(disk, s, FatIndex(disk, s, c).value, name, stale, t + |rs|)
  {
    assert LookUp(disk, s, c, name, stale, t, 1).None?;
    OneCluster(disk, s, c, name, stale, t);
    var w, next := Cluster(disk, s, c).value, FatIndex(disk, s, c).value;
    var u := t + |Records(w)|;
    forall n: nat ensures LookUp(disk, s, next, name, stale, u, n).None? {
      LookUpHere(disk, s, c, name, stale, t, n + 1, w, next, GoOn);
    }
  }

  /** These are a trap. */
  lemma EndlessTraps(disk: seq<byte>, s: Super, name: seq<byte>, strict: bool, stale: Junk)
    requires strict ==> forall u: nat :: stale(u) == name
    ensures Trap(disk, s, name, strict, Endless(disk, s, name, stale))
  {
    var live := Endless(disk, s, name, stale);
    forall c | c in live ensures LeadsInto(disk, s, name, strict, live, c) {
      var t: nat :| Undecided(disk, s, c, name, stale, t);
      EndlessGoesOn(disk, s, c, name, stale, t);
      PassedBySearch(Records(Cluster(disk, s, c).value), name, strict, stale, t);
      EndlessGoesOn(disk, s, FatIndex(disk, s, c).value, name, stale, t + |Records(Cluster(disk, s, c).value)|);
    }
  }

  lemma UndecidedTrapped(disk: seq<byte>, s: Super, c: u32, name: seq<byte>, strict: bool, stale: Junk)
    requires Undecided(disk, s, c, name, stale, 0) && (strict ==> forall u: nat :: stale(u) == name)
    ensures Trapped(disk, s, c, name, strict)
  {
    EndlessGoesOn(disk, s, c, name, stale, 0);
    EndlessTraps(disk, s, name, strict, stale);
    assert c in Endless(disk, s, name, stale);
  }

  /** Whatever the name buffer holds the lookup goes on for ever, if and only if the cluster lies in
      a trap in which every short record can be read and is named otherwise. */
  lemma AlwaysEndless(disk: seq<byte>, s: Super, c: u32, name: seq<byte>)
    ensures (forall stale: Junk :: Undecided(disk, s, c, name, stale, 0)) <==> Trapped(disk, s, c, name, true)
  {
    if forall stale: Junk :: Undecided(disk, s, c, name, stale, 0) {
      var same: Junk := (t: nat) => name;
      assert Undecided(disk, s, c, name, same, 0);
      UndecidedTrapped(disk, s, c, name, true, same);
    }
    if live: set<int> :| c in live && Trap(disk, s, name, true, live) {
      forall stale: Junk, n: nat ensures LookUp(disk, s, c, name, stale, 0, n).None? {
        TrapHolds(disk, s, c, name, true, live, stale, 0, n);
      }
    }
  }

  /** For some contents of the buffer it does, if and only if the cluster lies in a trap in which
      no short record that can be read has the name; so on any other disk every lookup is decided. */
  lemma SometimesEndless(disk: seq<byte>, s: Super, c: u32, name: seq<byte>)
    requires IsShort(name)
    ensures (exists stale: Junk :: Undecided(disk, s, c, name, stale, 0)) <==> Trapped(disk, s, c, name, false)
  {
    ShortNameChars(name);
    if stale: Junk :| Undecided(disk, s, c, name, stale, 0) {
      UndecidedTrapped(disk, s, c, name, false, stale);
    }
    if live: set<int> :| c in live && Trap(disk, s, name, false, live) {
      var empty: Junk := (t: nat) => [];
      forall n: nat ensures LookUp(disk, s, c, name, empty, 0, n).None? {
        TrapHolds(disk, s, c, name, false, live, empty, 0, n);
      }
      assert Undecided(disk, s, c, name, empty, 0);
    }
  }

  // ------------------------------------------------------------ paths

  ghost predicate LookInEnds(disk: seq<byte>, s: Super, f: FatFile, name: seq<byte>, stale: Junk) {
    exists n: nat :: LookIn(disk, s, f, name, stale, n).Some?
  }

  lemma LookInEndsIf(disk: seq<byte>, s: Super, f: FatFile, name: seq<byte>, stale: Junk)
    ensures
      LookInEnds(disk, s, f, name, stale)
      <==> IsShort(name) && IsDirectory(f) ==> !Undecided(disk, s, f.cluster, name, stale, 0)
  {
    if IsShort(name) && IsDirectory(f) {
      if n: nat :| LookUp(disk, s, f.cluster, name, stale, 0, n).Some? {
        assert LookIn(disk, s, f, name, stale, n).Some?;
      }
    } else {
      assert LookIn(disk, s, f, name, stale, 0).Some?;
    }
  }

  lemma LookInSame(disk: seq<byte>, s: Super, f: FatFile, name: seq<byte>, stale: Junk, n: nat, m: nat)
    requires LookIn(disk, s, f, name, stale, n).Some? && (n <= m || LookIn(disk, s, f, name, stale, m).Some?)
    ensures LookIn(disk, s, f, name, stale, m) == LookIn(disk, s, f, name, stale, n)
  {
    if IsShort(name) && IsDirectory(f) {
      if n <= m {
        LookUpStable(disk, s, f.cluster, name, stale, 0, n, m);
      } else {
        LookUpStable(disk, s, f.cluster, name, stale, 0, m, n);
      }
    }
  }

  /** What a lookup that ends comes to. */
  ghost function Answer(disk: seq<byte>, s: Super, f: FatFile, name: seq<byte>, stale: Junk): FindResult
    requires LookInEnds(disk, s, f, name, stale)
  {
    var n: nat :| LookIn(disk, s, f, name, stale, n).Some?;
    LookIn(disk, s, f, name, stale, n).value
  }

  ghost predicate WalkEnds(disk: seq<byte>, s: Super, f: FatFile, path: seq<seq<byte>>, stale: nat -> Junk, i: nat) {
    exists n: nat :: Walk(disk, s, f, path, stale, i, n).Some?
  }

  /** The walk along a path meets a lookup without end. */
  ghost predicate Stuck(disk: seq<byte>, s: Super, f: FatFile, path: seq<seq<byte>>, stale: nat -> Junk, i: nat)
    decreases |path|
  {
    && path != []
    && (LookInEnds(disk, s, f, path[0], stale(i)) ==>
         var r := Answer(disk, s, f, path[0], stale(i));
         r.Located? && Stuck(disk, s, r.file, path[1..], stale, i + 1))
  }

  lemma {:induction false} WalkStable(
      disk: seq<byte>, s: Super, f: FatFile, path: seq<seq<byte>>, stale: nat -> Junk, i: nat, n: nat, m: nat)
    requires Walk(disk, s, f, path, stale, i, n).Some? && n <= m
    ensures Walk(disk, s, f, path, stale, i, m) == Walk(disk, s, f, path, stale, i, n)
    decreases |path|
  {
    if path != [] {
      LookInSame(disk, s, f, path[0], stale(i), n, m);
      var r := LookIn(disk, s, f, path[0], stale(i), n);
      if r.value.Located? { WalkStable(disk, s, r.value.file, path[1..], stale, i + 1, n, m); }
    }
  }

  /** Behind a component that is found the rest of the path decides. */
  lemma WalkOn(
      disk: seq<byte>, s: Super, f: FatFile, path: seq<seq<byte>>, stale: nat -> Junk, i: nat, n0: nat, g: FatFile)
    requires path != [] && LookIn(disk, s, f, path[0], stale(i), n0) == Some(Located(g))
    ensures WalkEnds(disk, s, f, path, stale, i) <==> WalkEnds(disk, s, g, path[1..], stale, i + 1)
  {
    if n: nat :| Walk(disk, s, f, path, stale, i, n).Some? {
      LookInSame(disk, s, f, path[0], stale(i), n0, n);
      assert Walk(disk, s, g, path[1..], stale, i + 1, n).Some?;
    }
    var rest, j := path[1..], i + 1;
    if n: nat :| Walk(disk, s, g, rest, stale, j, n).Some? {
      var m := n + n0;
      LookInSame(disk, s, f, path[0], stale(i), n0, m);
      WalkStable(disk, s, g, rest, stale, j, n, m);
      assert Walk(disk, s, f, path, stale, i, m).Some?;
    }
  }

  /** Some number of clusters decides the walk if and only if it meets no lookup without end. */
  lemma {:induction false} WalkDecided(
      disk: seq<byte>, s: Super, f: FatFile, path: seq<seq<byte>>, stale: nat -> Junk, i: nat)
    ensures WalkEnds(disk, s, f, path, stale, i) <==> !Stuck(disk, s, f, path, stale, i)
    decreases |path|
  {
    if path == [] {
      assert Walk(disk, s, f, path, stale, i, 0).Some?;
    } else if n0: nat :| LookIn(disk, s, f, path[0], stale(i), n0).Some? {
      var r := LookIn(disk, s, f, path[0], stale(i), n0).value;
      AnswerIs(disk, s, f, path[0], stale(i), n0);
      if r.Located? {
        WalkOn(disk, s, f, path, stale, i, n0, r.file);
        WalkDecided(disk, s, r.file, path[1..], stale, i + 1);
      } else {
        assert Walk(disk, s, f, path, stale, i, n0).Some?;
      }
    }
  }

  lemma AnswerIs(disk: seq<byte>, s: Super, f: FatFile, name: seq<byte>, stale: Junk, n: nat)
    requires LookIn(disk, s, f, name, stale, n).Some?
    ensures LookInEnds(disk, s, f, name, stale)
    ensures Answer(disk, s, f, name, stale) == LookIn(disk, s, f, name, stale, n).value
  {
    var m: nat :| LookIn(disk, s, f, name, stale, m) == Some(Answer(disk, s, f, name, stale));
    LookInSame(disk, s, f, name, stale, n, m);
  }
}
