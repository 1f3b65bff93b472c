/** The boot loader's `FindByPath`: one lookup for each component of a path. */
module LoaderPath {
  import opened Bytes
  import opened FatSuper
  import opened Paths
  import opened ShortName
  import opened Lookup
  import opened LoaderSpec
  import opened Loader
  import opened LoaderFind

  /** Looks up one component after the other and stops at the first that is not found; i counts
      the lookups, each of which may find other junk in its name buffer. */
  ghost function Walk(disk: seq<byte>, s: Super, f: FatFile, path: seq<seq<byte>>, stale: nat -> Junk, i: nat, n: nat): Option<FindResult>
    decreases |path|
  {
    if path == [] then Some(Located(f))
    else
      var r := LookIn(disk, s, f, path[0], stale(i), n);
      if r.Some? && r.value.Located? then Walk(disk, s, r.value.file, path[1..], stale, i + 1, n) else r
  }

  lemma WalkStep(disk: seq<byte>, s: Super, f: FatFile, c: seq<byte>, rest: seq<seq<byte>>, stale: nat -> Junk, i: nat, n: nat)
    ensures
      var r := LookIn(disk, s, f, c, stale(i), n);
      Walk(disk, s, f, [c] + rest, stale, i, n) ==
      if r.Some? && r.value.Located? then Walk(disk, s, r.value.file, rest, stale, i + 1, n) else r
  {
    assert ([c] + rest)[1..] == rest;
  }

  lemma WalkOne(disk: seq<byte>, s: Super, f: FatFile, c: seq<byte>, stale: nat -> Junk, n: nat)
    ensures Walk(disk, s, f, [c], stale, 0, n) == LookIn(disk, s, f, c, stale(0), n)
  {
    assert [c] == [c] + [];
    WalkStep(disk, s, f, c, [], stale, 0, n);
    assert forall g, i :: Walk(disk, s, g, [], stale, i, n) == Some(Located(g));
  }

  /** Copies the component at the start of a path that starts with no separator into the name
      buffer; None if it does not fit. */
  method CopyComponent(path: seq<byte>) returns (name: Option<seq<byte>>)
    requires path != [] && !IsSep(path[0])
    ensures Components(path) == [path[..Run(path)]] + Components(path[Run(path)..])
    ensures if Run(path) > 12 then name.None? else name == Some(path[..Run(path)])
  {
    var i := 0;
    while i < |path| && !IsSep(path[i])
      invariant 0 <= i <= |path| && i <= 12 && forall j :: 0 <= j < i ==> !IsSep(path[j])
    {
      if i >= 12 {
        assert Run(path) > 12;
        return None;
      }
      i := i + 1;
    }
    RunIs(path, i);
    return Some(path[..i]);
  }

  /** One round of the loop: looks up the first component of the path. */
  method FindStep(fs: FatFs, f: FatFile, path: seq<byte>, stale: nat -> Junk, i: nat, ghost n: nat)
    returns (r: FindResult, rest: seq<byte>)
    requires fs.Valid() && Coherent(fs.disk, fs.super, fs.cache) && path != [] && !IsSep(path[0])
    requires Walk(fs.disk, fs.super, f, Components(path), stale, i, n).Some?
    modifies fs`loads, fs`cache
    ensures fs.Valid() && old(fs.loads) <= fs.loads
    ensures r.Located? ==>
      && Coherent(fs.disk, fs.super, fs.cache) && |rest| < |path|
      && Walk(fs.disk, fs.super, f, Components(path), stale, i, n)
         == Walk(fs.disk, fs.super, r.file, Components(rest), stale, i + 1, n)
    ensures !r.Located? ==> Answered(fs, r, Walk(fs.disk, fs.super, f, Components(path), stale, i, n), old(fs.loads))
  {
    ghost var c := path[..Run(path)];
    rest := path;
    var name := CopyComponent(path);
    WalkStep(fs.disk, fs.super, f, c, Components(path[Run(path)..]), stale, i, n);
    if name.None? {
      TooLong(c);
      return NameInvalid, rest;
    }
    rest := path[|name.value|..];
    r := FindInDirectory(fs, f, name.value, stale(i), n);
  }

  /** Skips separators. */
  method SkipSlashes(path: seq<byte>) returns (rest: seq<byte>)
    ensures |rest| <= |path| && Components(rest) == Components(path)
    ensures path != [] && IsSep(path[0]) ==> |rest| < |path|
    ensures rest == [] || !IsSep(rest[0])
  {
    var i := 0;
    while i < |path| && IsSep(path[i])
      invariant 0 <= i <= |path| && forall j :: 0 <= j < i ==> IsSep(path[j])
    {
      i := i + 1;
    }
    SkipSeparators(path, i);
    return path[i..];
  }

  /** A path of separators leads to the root directory of the super block. */
  lemma RootOnly(disk: seq<byte>, s: Super, path: seq<byte>, stale: nat -> Junk, n: nat)
    requires forall i :: 0 <= i < |path| ==> path[i] == '/' as int || path[i] == '\\' as int
    ensures Walk(disk, s, RootDir(s), Components(path), stale, 0, n) == Some(Located(FatFile(s.rootDirIndex, 0, 0x10)))
  {
    SkipSeparators(path, |path|);
    assert Components(path[|path|..]) == [];
  }

  /** The result is that of looking up the components of the path from the root directory on,
      with the same error where the walk stops. */
  method FindByPath(fs: FatFs, path: seq<byte>, stale: nat -> Junk, ghost n: nat) returns (r: FindResult)
    requires fs.Valid() && Coherent(fs.disk, fs.super, fs.cache)
    requires Walk(fs.disk, fs.super, RootDir(fs.super), Components(path), stale, 0, n).Some?
    modifies fs`loads, fs`cache
    ensures fs.Valid() && old(fs.loads) <= fs.loads
    ensures Answered(fs, r, Walk(fs.disk, fs.super, RootDir(fs.super), Components(path), stale, 0, n), old(fs.loads))
  {
    ghost var spec := Walk(fs.disk, fs.super, RootDir(fs.super), Components(path), stale, 0, n);
    var out, name, i := RootDir(fs.super), path, 0;
    while name != []
      invariant fs.Valid() && Coherent(fs.disk, fs.super, fs.cache) && old(fs.loads) <= fs.loads
      invariant spec.Some? && spec == Walk(fs.disk, fs.super, out, Components(name), stale, i, n)
      decreases |name|
    {
      if IsSep(name[0]) {
        name := SkipSlashes(name);
        continue;
      }
      r, name := FindStep(fs, out, name, stale, i, n);
      if !r.Located? {
        return;
      }
      out, i := r.file, i + 1;
    }
    return Located(out);
  }
}
