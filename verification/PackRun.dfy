/** Any number of pack commands, one after the other. */
module PackRun {
  import opened Bytes
  import opened FatSuper
  import opened FatChains
  import opened FatState
  import opened FatAppend
  import opened FatKept
  import opened FatCopies
  import opened Volume
  import opened ShortName
  import opened Dirent
  import opened DirectoryEdit
  import opened LoaderSpec
  import opened Lookup
  import opened LoaderFind
  import opened Agreement
  import opened FindAgreement
  import opened EndToEnd
  import opened PackCommand
  import opened PackLedger

  /** A file of the directory: its name, the chain that holds it, the first cluster, its bytes. */
  datatype StoredFile = StoredFile(name: seq<byte>, chain: nat, first: u32, data: seq<byte>)

  /** The file is stored, and its name leads to it in the listing. */
  ghost predicate InDirectory(s: Super, l: Area, d: Disk, f: Files, k: nat, listed: seq<DirEntry>, e: StoredFile) {
    && e.chain != k && |e.data| < U32_LIMIT && IsShort(e.name)
    && FilePacked(s, l, d, f, e.chain, e.first, e.data)
    && FirstNamed(listed, e.name) == Found(NewEntry(e.name, false, e.first, |e.data|))
  }

  /** `dir` starts with the records that are in use in `was`, none of which stands for an entry
      without a name. */
  predicate Leads(was: seq<byte>, dir: seq<byte>) {
    && Scan(Records(was)).Listing? && AllNamed(Scan(Records(was)).entries)
    && InUse(was) <= |was| && was[..InUse(was)] <= dir
  }

  /** `was` is what the directory in chain k stored when it could last be listed, and all these
      files were in it. */
  ghost predicate Holding(s: Super, l: Area, d: Disk, f: Files, k: nat, was: seq<byte>, files: seq<StoredFile>) {
    && Good(s, l, d, f) && k < |f.chains| && Clean(d.raw, f.chains[k])
    && var dir := ChainBytes(s, l, d, f, k);
       && Leads(was, dir) && (Scan(Records(dir)).Listing? ==> dir == was)
       && forall i :: 0 <= i < |files| ==> InDirectory(s, l, d, f, k, Scan(Records(was)).entries, files[i])
  }

  /** Packing another file keeps those that were there. */
  lemma StoredKept(
      s: Super, l: Area, d0: Disk, f0: Files, d: Disk, f: Files, k: nat, listed: seq<DirEntry>, more: seq<DirEntry>, e: StoredFile)
    requires Good(s, l, d0, f0) && Good(s, l, d, f) && |f.chains| == |f0.chains| + 1
    requires OthersKept(s, l, d0, f0, d, f, k) && InDirectory(s, l, d0, f0, k, listed, e)
    ensures InDirectory(s, l, d, f, k, listed + more, e)
  {
    assert ChainKept(s, l, d0, f0, d, f, e.chain);
    FirstNamedConcat(listed, more, e.name);
  }

  /** The directory after a file was packed: one entry more, under the name that is read back.
      Without one the directory cannot be listed any more, but the old records stay in place. */
  lemma PackedListing(before: seq<byte>, now: seq<byte>, name: seq<byte>, first: u32, size: u32)
    returns (was: seq<byte>, more: seq<DirEntry>)
    requires IsShort(name) && Scan(Records(before)).Listing? && AllNamed(Scan(Records(before)).entries)
    requires EntryAdded(before, Scan(Records(before)).used, now, MakeRecord(name, false, first, size))
    ensures Leads(was, now) && (Scan(Records(now)).Listing? ==> now == was) && InUse(before) <= InUse(was)
    ensures Scan(Records(was)).entries == Scan(Records(before)).entries + more
    ensures more == match ReadBackName(name) { case None => [] case Some(x) => [NewEntry(x, false, first, size)] }
  {
    EntryListed(before, now, name, false, first, size);
    match ReadBackName(name)
    case None =>
      was, more := before, [];
      LeadsOn(before, now, MakeRecord(name, false, first, size));
    case Some(x) =>
      was, more := now, [NewEntry(x, false, first, size)];
      ReadBackNamed(name);
      InUseFits(now);
  }

  lemma LeadsOn(before: seq<byte>, now: seq<byte>, e: Record)
    requires Scan(Records(before)).Listing? && AllNamed(Scan(Records(before)).entries)
    requires EntryAdded(before, Scan(Records(before)).used, now, e)
    ensures Leads(before, now)
  {
    InUseFits(before);
    assert before[..InUse(before)] <= now;
  }

  /** The files in the directory after one more was packed; it is found under its name if and
      only if that survives. */
  function WithFile(files: seq<StoredFile>, chain: nat, name: seq<byte>, first: u32, data: seq<byte>): seq<StoredFile> {
    if Survives(name) then files + [StoredFile(name, chain, first, data)] else files
  }

  lemma HoldingMore(
      s: Super, l: Area, d0: Disk, f0: Files, d: Disk, f: Files, k: nat, was: seq<byte>, files: seq<StoredFile>,
      name: seq<byte>, first: u32, data: seq<byte>)
    returns (now: seq<byte>)
    requires Holding(s, l, d0, f0, k, was, files) && PackDone(s, l, d0, f0, d, f, k, name, first, data)
    ensures Holding(s, l, d, f, k, now, WithFile(files, |f0.chains|, name, first, data)) && InUse(was) <= InUse(now)
  {
    var more;
    now, more := PackedListing(ChainBytes(s, l, d0, f0, k), ChainBytes(s, l, d, f, k), name, first, |data|);
    var before, e := Scan(Records(was)).entries, StoredFile(name, |f0.chains|, first, data);
    assert Open(0);
    var all := WithFile(files, |f0.chains|, name, first, data);
    forall i | 0 <= i < |all| ensures InDirectory(s, l, d, f, k, before + more, all[i]) {
      if i < |files| {
        StoredKept(s, l, d0, f0, d, f, k, before, more, files[i]);
      } else {
        NameRoundTrip(name);
        ShortNameChars(name);
        FirstNamedNew(before, NewEntry(name, false, first, |data|), name);
      }
    }
  }

  // ------------------------------------------------------------ what the loader then sees

  /** Looking the name up leads to a file that reads as the matching slice of the data. */
  ghost predicate ReadsBack(
      disk: seq<byte>, s: Super, dir: u32, n: nat, e: StoredFile, stale: Junk, offset: u32, size: u32)
    requires s.sectorsPerCluster > 0
  {
    match LookUp(disk, s, dir, e.name, stale, 0, n)
    case Some(Located(g)) =>
      && g.cluster == e.first && g.size == |e.data| && !IsDirectory(g)
      && (0 < |e.data| ==>
           ReadFile(disk, s, g, offset, size) == Some(e.data[Min(offset, |e.data|)..Min(offset + size, |e.data|)]))
    case _ => false
  }

  /** The same for every offset and length, and whatever the name buffers hold. */
  ghost predicate BootsTo(disk: seq<byte>, s: Super, dir: u32, n: nat, e: StoredFile)
    requires s.sectorsPerCluster > 0
  {
    && IsShort(e.name) && |e.data| < U32_LIMIT
    && forall stale: Junk, offset: u32, size: u32 {:trigger ReadsBack(disk, s, dir, n, e, stale, offset, size)} ::
         ReadsBack(disk, s, dir, n, e, stale, offset, size)
  }

  /** What stands in the records in use of `was` is found in any directory that starts with them,
      and read back if its chain is on disk. */
  lemma StoredBoots(s: Super, disk: seq<byte>, raw: seq<byte>, dir: Chain, was: seq<byte>, ch: Chain, e: StoredFile)
    requires ChainOnDisk(s, disk, raw, dir) && Leads(was, Stores(s, disk, raw, dir))
    requires ChainOnDisk(s, disk, raw, ch) && e.data <= Stores(s, disk, raw, ch) && ch[0] == e.first
    requires IsShort(e.name) && |e.data| < U32_LIMIT && 0 < s.sectorsPerCluster
    requires FirstNamed(Scan(Records(was)).entries, e.name) == Found(NewEntry(e.name, false, e.first, |e.data|))
    ensures 0 <= dir[0] < U32_LIMIT && BootsTo(disk, s, dir[0], |dir|, e)
  {
    ShortStart(s, disk, raw, dir);
    forall stale: Junk, offset: u32, size: u32 ensures ReadsBack(disk, s, dir[0], |dir|, e, stale, offset, size) {
      LoaderFindsKept(s, disk, raw, dir, was, e.name, stale);
      if 0 < |e.data| {
        var g := LookUp(disk, s, dir[0], e.name, stale, 0, |dir|).value.file;
        LoaderReadsFile(s, disk, raw, ch, e.data, g, offset, size);
      }
    }
  }

  lemma ShortStart(s: Super, disk: seq<byte>, raw: seq<byte>, ch: Chain)
    requires ChainOnDisk(s, disk, raw, ch)
    ensures 0 <= ch[0] < U32_LIMIT
  {
    ChainMirrored(s, disk, raw, ch);
    ReadsSlice(s, disk, ch, Stores(s, disk, raw, ch), 0, 0);
  }

  /** After the tables are written back the loader finds and reads every file of the directory. */
  lemma HeldBoots(
      s: Super, l: Area, d0: Disk, f: Files, d: Disk, k: nat, was: seq<byte>, files: seq<StoredFile>, i: nat)
    requires Holding(s, l, d0, f, k, was, files) && i < |files|
    requires WrittenBack(s, l, d0, d) && s.bytesPerSector == SECTOR && 0 < s.numFats
    ensures 0 < s.sectorsPerCluster && 0 <= f.chains[k][0] < U32_LIMIT
    ensures BootsTo(d.img, s, f.chains[k][0], |f.chains[k]|, files[i])
  {
    ChainWrittenBack(s, l, d0, f, k, d);
    var e := files[i];
    ChainWrittenBack(s, l, d0, f, e.chain, d);
    StoredBoots(s, d.img, d.raw, f.chains[k], was, f.chains[e.chain], e);
  }

  /** As long as the tables are not written back the loader goes by the old ones, whatever was
      written to the image: a chain of theirs is still on disk, with the part that was kept. */
  lemma KeptOnDisk(s: Super, l: Area, d: Disk, f: Files, img: seq<byte>, k: nat, size: nat, j: nat)
    requires Mounted(s, l, d) && OnDisk(s, d.img, d.raw) && Good(s, l, d, f) && 0 < s.numFats
    requires ImageKept(l, d.img, img, f.chains, k, size) && j < |f.chains| && Clean(d.raw, f.chains[j])
    ensures ChainOnDisk(s, img, d.raw, f.chains[j])
    ensures
      var n := KeptSize(l, f.chains, k, size, j);
      && n <= |ChainBytes(s, l, d, f, j)| == |Stores(s, img, d.raw, f.chains[j])|
      && Stores(s, img, d.raw, f.chains[j])[..n] == ChainBytes(s, l, d, f, j)[..n]
  {
    CopiesFit(s, l, d);
    FrontKept(s, l, d, f, img, k, size);
    assert Open(0);
    assert StartKept(l, d.img, img, f.chains[j], KeptSize(l, f.chains, k, size, j));
  }

  /** The tables in the image are as they were. */
  lemma FrontKept(s: Super, l: Area, d: Disk, f: Files, img: seq<byte>, k: nat, size: nat)
    requires Mounted(s, l, d) && OnDisk(s, d.img, d.raw) && ImageKept(l, d.img, img, f.chains, k, size) && 0 < s.numFats
    requires FatStart(s) + Span(s.numFats, |d.raw|) == l.base <= |d.img|
    ensures OnDisk(s, img, d.raw) && l == s.DataArea()
  {
    assert Open(0);
    SpanMono(1, s.numFats, |d.raw|);
    assert FatEnd(s) <= l.base;
    assert img[FatStart(s)..FatEnd(s)] == img[..l.base][FatStart(s)..FatEnd(s)];
    assert d.img[FatStart(s)..FatEnd(s)] == d.img[..l.base][FatStart(s)..FatEnd(s)];
  }

  /** So the loader still finds and reads every file that was there before. */
  lemma KeptBoots(
      s: Super, l: Area, d: Disk, f: Files, img: seq<byte>, k: nat, was: seq<byte>, files: seq<StoredFile>, i: nat)
    requires Mounted(s, l, d) && OnDisk(s, d.img, d.raw) && 0 < s.numFats
    requires Holding(s, l, d, f, k, was, files) && i < |files|
    requires ImageKept(l, d.img, img, f.chains, k, InUse(was))
    ensures 0 < s.sectorsPerCluster && 0 <= f.chains[k][0] < U32_LIMIT
    ensures BootsTo(img, s, f.chains[k][0], |f.chains[k]|, files[i])
  {
    var e, dir := files[i], f.chains[k];
    KeptOnDisk(s, l, d, f, img, k, InUse(was), k);
    KeptOnDisk(s, l, d, f, img, k, InUse(was), e.chain);
    var now, n := Stores(s, img, d.raw, dir), InUse(was);
    assert now[..n] == was[..n];
    var all, all' := ChainBytes(s, l, d, f, e.chain), Stores(s, img, d.raw, f.chains[e.chain]);
    assert all[..|all|] == all && all'[..|all|] == all';
    StoredBoots(s, img, d.raw, dir, was, f.chains[e.chain], e);
  }

  // ------------------------------------------------------------ the commands

  /** `Holding`, taken apart only where `Open` is mentioned. */
  ghost predicate Held(s: Super, l: Area, d: Disk, f: Files, k: nat, was: seq<byte>, files: seq<StoredFile>) {
    forall u: int {:trigger Open(u)} :: Open(u) && Holding(s, l, d, f, k, was, files)
  }

  /** Every job that was packed, under a name that survives, is among the files. */
  ghost predicate Recorded(jobs: seq<Job>, results: seq<PackResult>, files: seq<StoredFile>) {
    && |results| <= |jobs|
    && forall i :: 0 <= i < |results| && results[i].Packed? && Survives(jobs[i].name) ==>
         HasFile(jobs[i], results[i].first, files)
  }

  ghost predicate HasFile(job: Job, first: u32, files: seq<StoredFile>) {
    exists j :: 0 <= j < |files| && files[j].name == job.name && files[j].first == first && files[j].data == Flatten(job.chunks)
  }

  lemma RecordedMore(jobs: seq<Job>, results: seq<PackResult>, files: seq<StoredFile>, r: PackResult, more: seq<StoredFile>)
    requires Recorded(jobs, results, files) && |results| < |jobs|
    requires r.Packed? && Survives(jobs[|results|].name) ==> HasFile(jobs[|results|], r.first, files + more)
    ensures Recorded(jobs, results + [r], files + more)
  {
    var rs := results + [r];
    forall i | 0 <= i < |rs| && rs[i].Packed? && Survives(jobs[i].name) ensures HasFile(jobs[i], rs[i].first, files + more) {
      if i < |results| {
        var j :| 0 <= j < |files| && files[j].name == jobs[i].name && files[j].first == results[i].first
                 && files[j].data == Flatten(jobs[i].chunks);
        assert (files + more)[j] == files[j];
      }
    }
  }

  /** What fatedit keeps between commands. */
  datatype State = State(disk: Disk, files: Files)

  /** What one command does; `PackFile` promises exactly this. */
  ghost predicate IsStep(s: Super, l: Area, k: nat, a: State, job: Job, r: PackResult, b: State) {
    && Good(s, l, a.disk, a.files) && Good(s, l, b.disk, b.files) && k < |a.files.chains|
    && var dir, n := ChainBytes(s, l, a.disk, a.files, k), |Flatten(job.chunks)|;
       match r
       case Refused => b == a && (!IsShort(job.name) || !ListsNew(dir, job.name))
       case Threw =>
         && IsShort(job.name) && ListsNew(dir, job.name) && !RoomFor(l, a.disk, a.files, k, InUse(dir), n)
         && ImageKept(l, a.disk.img, b.disk.img, a.files.chains, k, InUse(dir))
       case Packed(first, _) =>
         && IsShort(job.name) && ListsNew(dir, job.name) && RoomFor(l, a.disk, a.files, k, InUse(dir), n)
         && ImageKept(l, a.disk.img, b.disk.img, a.files.chains, k, InUse(dir))
         && PackDone(s, l, a.disk, a.files, b.disk, b.files, k, job.name, first, Flatten(job.chunks))
  }

  /** The same, taken apart only where `Open` is mentioned. */
  ghost predicate Step(s: Super, l: Area, k: nat, a: State, job: Job, r: PackResult, b: State) {
    forall u: int {:trigger Open(u)} :: Open(u) && IsStep(s, l, k, a, job, r, b)
  }

  /** The states between the commands of a run. */
  ghost predicate Trace(s: Super, l: Area, k: nat, states: seq<State>, jobs: seq<Job>, results: seq<PackResult>) {
    && |states| == |results| + 1 <= |jobs| + 1
    && forall i :: 0 <= i < |results| ==> Step(s, l, k, states[i], jobs[i], results[i], states[i + 1])
  }

  lemma TraceMore(
      s: Super, l: Area, k: nat, states: seq<State>, jobs: seq<Job>, results: seq<PackResult>, r: PackResult, b: State)
    requires Trace(s, l, k, states, jobs, results) && |results| < |jobs|
    requires Step(s, l, k, states[|results|], jobs[|results|], r, b)
    ensures Trace(s, l, k, states + [b], jobs, results + [r])
  {
    var ts, rs := states + [b], results + [r];
    forall i | 0 <= i < |rs| ensures Step(s, l, k, ts[i], jobs[i], rs[i], ts[i + 1]) {
      if i < |results| { assert Step(s, l, k, states[i], jobs[i], results[i], states[i + 1]); }
    }
  }

  /** One command of a run. */
  method PackNext(vol: Volume, parent: u32, job: Job, ghost k: nat) returns (r: PackResult)
    requires vol.Valid()
    requires k < |vol.files.chains| && vol.files.chains[k][0] == parent && Clean(vol.disk.raw, vol.files.chains[k])
    modifies vol`disk, vol`files
    ensures vol.Valid()
    ensures Step(vol.super, vol.area, k, State(old(vol.disk), old(vol.files)), job, r, State(vol.disk, vol.files))
  {
    ghost var a := State(vol.disk, vol.files);
    r := PackFile(vol, parent, job.name, job.chunks, k);
    assert IsStep(vol.super, vol.area, k, a, job, r, State(vol.disk, vol.files));
  }

  // ------------------------------------------------------------ the outcome of a run

  function Kind(r: PackResult): Fate {
    match r
    case Packed(_, _) => WillPack
    case Refused => WillRefuse
    case Threw => WillThrow
  }

  function Kinds(rs: seq<PackResult>): seq<Fate> { seq(|rs|, i requires 0 <= i < |rs| => Kind(rs[i])) }

  /** The ledger of a state tells what a command comes to, and the ledger it leaves. */
  lemma StepFate(s: Super, l: Area, k: nat, a: State, job: Job, r: PackResult, b: State)
    requires Step(s, l, k, a, job, r, b)
    ensures 0 < l.clusterSize && Good(s, l, a.disk, a.files) && k < |a.files.chains|
    ensures
      var g, n := LedgerOf(s, l, a.disk, a.files, k), |Flatten(job.chunks)|;
      && FateOf(g, l.clusterSize, job.name, n) == Kind(r)
      && (r.Packed? ==>
           && Good(s, l, b.disk, b.files) && k < |b.files.chains|
           && LedgerOf(s, l, b.disk, b.files, k) == After(g, l.clusterSize, job.name, n))
  {
    assert Open(0);
    FateIs(s, l, a.disk, a.files, k, job.name, |Flatten(job.chunks)|);
    if r.Packed? {
      LedgerPacked(s, l, a.disk, a.files, b.disk, b.files, k, job.name, r.first, Flatten(job.chunks));
    }
  }

  /** What is left to come, after these results. */
  ghost predicate Foretold(fates: seq<Fate>, g: Ledger, m: nat, jobs: seq<Job>, results: seq<PackResult>) {
    0 < m && |results| <= |jobs| && fates == Kinds(results) + Predict(g, m, jobs[|results|..])
  }

  lemma ForetoldFirst(g: Ledger, m: nat, jobs: seq<Job>)
    requires 0 < m
    ensures Foretold(Predict(g, m, jobs), g, m, jobs, [])
  {
    assert jobs[0..] == jobs;
    assert Kinds([]) + Predict(g, m, jobs) == Predict(g, m, jobs);
  }

  lemma ForetoldMore(fates: seq<Fate>, g: Ledger, m: nat, jobs: seq<Job>, results: seq<PackResult>, r: PackResult)
    requires Foretold(fates, g, m, jobs, results) && |results| < |jobs|
    requires FateOf(g, m, jobs[|results|].name, |Flatten(jobs[|results|].chunks)|) == Kind(r)
    ensures r.Threw? ==> fates == Kinds(results + [r])
    ensures r.Refused? ==> Foretold(fates, g, m, jobs, results + [r])
    ensures r.Packed? ==>
      var job := jobs[|results|];
      Foretold(fates, After(g, m, job.name, |Flatten(job.chunks)|), m, jobs, results + [r])
  {
    var i := |results|;
    var jobs' := jobs[i..];
    assert jobs'[0] == jobs[i] && jobs'[1..] == jobs[i + 1..];
    var rest := PredictFirst(g, m, jobs');
    KindsMore(fates, results, r, rest);
  }

  lemma KindsMore(fates: seq<Fate>, results: seq<PackResult>, r: PackResult, rest: seq<Fate>)
    requires fates == Kinds(results) + ([Kind(r)] + rest)
    ensures fates == Kinds(results + [r]) + rest && (rest == [] ==> fates == Kinds(results + [r]))
  {
    assert Kinds(results + [r]) == Kinds(results) + [Kind(r)];
  }

  lemma PredictFirst(g: Ledger, m: nat, jobs: seq<Job>) returns (rest: seq<Fate>)
    requires 0 < m && jobs != []
    ensures
      var name, n := jobs[0].name, |Flatten(jobs[0].chunks)|;
      && Predict(g, m, jobs) == [FateOf(g, m, name, n)] + rest
      && rest == match FateOf(g, m, name, n)
                 case WillThrow => []
                 case WillRefuse => Predict(g, m, jobs[1..])
                 case WillPack => Predict(After(g, m, name, n), m, jobs[1..])
  {
    rest := Predict(g, m, jobs)[1..];
  }

  // ------------------------------------------------------------ what a run keeps

  /** A run of commands: the states between them, their results, what the directory held when it
      could last be listed, and the files that were then found in it. */
  datatype Run = Run(states: seq<State>, results: seq<PackResult>, was: seq<byte>, files: seq<StoredFile>) {
    function End(): State
      requires states != []
    {
      states[|states| - 1]
    }
  }

  /** Every file packed so far, and each of those there before, is still in the directory; and of
      the image nothing is lost that was there before. */
  ghost predicate IsKept(s: Super, l: Area, k: nat, jobs: seq<Job>, was: seq<byte>, before: seq<StoredFile>, run: Run) {
    && Trace(s, l, k, run.states, jobs, run.results)
    && var a, b := run.states[0], run.End();
       && Mounted(s, l, b.disk) && Held(s, l, b.disk, b.files, k, run.was, run.files)
       && Grown(a.files.chains, b.files.chains, k) && InUse(was) <= InUse(run.was)
       && ImageKept(l, a.disk.img, b.disk.img, a.files.chains, k, InUse(was))
       && before <= run.files && Recorded(jobs, run.results, run.files)
  }

  /** The same, taken apart only where `Open` is mentioned. */
  ghost predicate Kept(s: Super, l: Area, k: nat, jobs: seq<Job>, was: seq<byte>, before: seq<StoredFile>, run: Run) {
    forall u: int {:trigger Open(u)} :: Open(u) && IsKept(s, l, k, jobs, was, before, run)
  }

  lemma KeptFirst(s: Super, l: Area, k: nat, jobs: seq<Job>, was: seq<byte>, before: seq<StoredFile>, a: State)
    requires Mounted(s, l, a.disk) && Held(s, l, a.disk, a.files, k, was, before)
    ensures Kept(s, l, k, jobs, was, before, Run([a], [], was, before))
  {
    HeldImage(s, l, a, k, was, before);
    assert Open(0);
    assert IsKept(s, l, k, jobs, was, before, Run([a], [], was, before));
  }

  lemma HeldImage(s: Super, l: Area, a: State, k: nat, was: seq<byte>, files: seq<StoredFile>)
    requires Held(s, l, a.disk, a.files, k, was, files)
    ensures ImageKept(l, a.disk.img, a.disk.img, a.files.chains, k, InUse(was))
  {
    assert Open(0);
    SameImage(l, a.disk.img, a.files.chains, k, InUse(was));
  }

  /** In every case a command keeps the records in use, and all other chains. */
  lemma StepImage(
      s: Super, l: Area, k: nat, a: State, job: Job, r: PackResult, b: State, was: seq<byte>, files: seq<StoredFile>)
    requires Step(s, l, k, a, job, r, b) && Held(s, l, a.disk, a.files, k, was, files)
    ensures ImageKept(l, a.disk.img, b.disk.img, a.files.chains, k, InUse(was))
  {
    HeldImage(s, l, a, k, was, files);
    assert Open(0);
  }

  /** A command that does not throw keeps all files, and adds its own. */
  lemma StepHolds(
      s: Super, l: Area, k: nat, a: State, job: Job, r: PackResult, b: State, was: seq<byte>, files: seq<StoredFile>)
    returns (now: seq<byte>, more: seq<StoredFile>)
    requires Step(s, l, k, a, job, r, b) && !r.Threw?
    requires Held(s, l, a.disk, a.files, k, was, files) && Mounted(s, l, a.disk)
    ensures Mounted(s, l, b.disk) && Held(s, l, b.disk, b.files, k, now, files + more)
    ensures Grown(a.files.chains, b.files.chains, k) && InUse(was) <= InUse(now)
    ensures r.Packed? && Survives(job.name) ==> HasFile(job, r.first, files + more)
  {
    assert Open(0);
    if r.Packed? {
      var data, j := Flatten(job.chunks), |a.files.chains|;
      now := HoldingMore(s, l, a.disk, a.files, b.disk, b.files, k, was, files, job.name, r.first, data);
      more := if Survives(job.name) then [StoredFile(job.name, j, r.first, data)] else [];
      assert files + more == WithFile(files, j, job.name, r.first, data);
      assert Survives(job.name) ==> (files + more)[|files|] == more[0];
      PackGrown(s, l, a.disk, a.files, b.disk, b.files, k, job.name, r.first, data);
      MountedKept(s, l, a.disk, b.disk);
    } else {
      now, more := was, [];
      assert files + more == files;
    }
  }

  lemma PackGrown(
      s: Super, l: Area, d0: Disk, f0: Files, d: Disk, f: Files, k: nat, name: seq<byte>, first: u32, data: seq<byte>)
    requires PackDone(s, l, d0, f0, d, f, k, name, first, data)
    ensures Grown(f0.chains, f.chains, k)
  {
    assert Open(0);
    forall j | 0 <= j < |f0.chains| && j != k ensures f.chains[j] == f0.chains[j] {
      assert ChainKept(s, l, d0, f0, d, f, j);
    }
  }

  /** Even a command that throws loses nothing that was there before. */
  lemma KeptLast(
      s: Super, l: Area, k: nat, jobs: seq<Job>, was: seq<byte>, before: seq<StoredFile>, run: Run, r: PackResult, b: State)
    requires Kept(s, l, k, jobs, was, before, run) && run.states != [] && |run.results| < |jobs|
    requires Step(s, l, k, run.End(), jobs[|run.results|], r, b)
    ensures Trace(s, l, k, run.states + [b], jobs, run.results + [r])
    ensures ImageKept(l, run.states[0].disk.img, b.disk.img, run.states[0].files.chains, k, InUse(was))
  {
    assert Open(0);
    var a, o := run.states[0], run.End();
    StepImage(s, l, k, o, jobs[|run.results|], r, b, run.was, run.files);
    TraceMore(s, l, k, run.states, jobs, run.results, r, b);
    KeptTwice(l, a.disk.img, o.disk.img, b.disk.img, a.files.chains, o.files.chains, k, InUse(was), InUse(run.was));
  }

  lemma KeptMore(
      s: Super, l: Area, k: nat, jobs: seq<Job>, was: seq<byte>, before: seq<StoredFile>, run: Run, r: PackResult, b: State)
    returns (next: Run)
    requires Kept(s, l, k, jobs, was, before, run) && run.states != [] && |run.results| < |jobs|
    requires Step(s, l, k, run.End(), jobs[|run.results|], r, b) && !r.Threw?
    ensures Kept(s, l, k, jobs, was, before, next)
    ensures next.states == run.states + [b] && next.results == run.results + [r]
  {
    KeptLast(s, l, k, jobs, was, before, run, r, b);
    assert Open(0);
    var a, o := run.states[0], run.End();
    var now, more := StepHolds(s, l, k, o, jobs[|run.results|], r, b, run.was, run.files);
    next := Run(run.states + [b], run.results + [r], now, run.files + more);
    RecordedMore(jobs, run.results, run.files, r, more);
    GrownTwice(a.files.chains, o.files.chains, b.files.chains, k);
    assert IsKept(s, l, k, jobs, was, before, next);
  }

  /** The next command can start where the last one ended. */
  lemma KeptStart(s: Super, l: Area, k: nat, jobs: seq<Job>, was: seq<byte>, before: seq<StoredFile>, run: Run)
    requires Kept(s, l, k, jobs, was, before, run)
    ensures Trace(s, l, k, run.states, jobs, run.results)
    ensures
      var a, b := run.states[0], run.End();
      && k < |a.files.chains| && k < |b.files.chains| && Good(s, l, b.disk, b.files) && Clean(b.disk.raw, b.files.chains[k])
      && a.files.chains[k] <= b.files.chains[k]
  {
    assert Open(0);
  }

  /** No command of the run has thrown, and these fates are its results with those to come. */
  ghost predicate Going(
      s: Super, l: Area, k: nat, jobs: seq<Job>, was: seq<byte>, before: seq<StoredFile>, fates: seq<Fate>, run: Run)
  {
    && Kept(s, l, k, jobs, was, before, run) && run.states != [] && |run.results| <= |jobs|
    && (run.results != [] ==> !run.results[|run.results| - 1].Threw?)
    && var b := run.End();
       && Good(s, l, b.disk, b.files) && k < |b.files.chains|
       && Foretold(fates, LedgerOf(s, l, b.disk, b.files, k), l.clusterSize, jobs, run.results)
  }

  /** The last command of the run has thrown. */
  ghost predicate Broken(s: Super, l: Area, k: nat, jobs: seq<Job>, was: seq<byte>, fates: seq<Fate>, run: Run) {
    && run.results != [] && run.results[|run.results| - 1].Threw?
    && Trace(s, l, k, run.states, jobs, run.results) && fates == Kinds(run.results)
    && ImageKept(l, run.states[0].disk.img, run.End().disk.img, run.states[0].files.chains, k, InUse(was))
  }

  lemma RunStep(
      s: Super, l: Area, k: nat, jobs: seq<Job>, was: seq<byte>, before: seq<StoredFile>, fates: seq<Fate>, run: Run,
      r: PackResult, b: State)
    returns (next: Run)
    requires Going(s, l, k, jobs, was, before, fates, run) && |run.results| < |jobs|
    requires Step(s, l, k, run.End(), jobs[|run.results|], r, b)
    ensures next.states == run.states + [b] && next.results == run.results + [r]
    ensures if r.Threw? then Broken(s, l, k, jobs, was, fates, next) else Going(s, l, k, jobs, was, before, fates, next)
  {
    var o, job := run.End(), jobs[|run.results|];
    StepFate(s, l, k, o, job, r, b);
    ForetoldMore(fates, LedgerOf(s, l, o.disk, o.files, k), l.clusterSize, jobs, run.results, r);
    if r.Threw? {
      KeptLast(s, l, k, jobs, was, before, run, r, b);
      next := Run(run.states + [b], run.results + [r], was, before);
    } else {
      next := KeptMore(s, l, k, jobs, was, before, run, r, b);
      KeptStart(s, l, k, jobs, was, before, next);
      if r.Refused? { RefusedSame(s, l, k, o, job, r, b); }
    }
  }

  lemma RefusedSame(s: Super, l: Area, k: nat, a: State, job: Job, r: PackResult, b: State)
    requires Step(s, l, k, a, job, r, b) && r.Refused?
    ensures b == a
  {
    assert Open(0);
  }

  lemma RunStarts(
      s: Super, l: Area, k: nat, jobs: seq<Job>, was: seq<byte>, before: seq<StoredFile>, fates: seq<Fate>, a: State)
    requires Mounted(s, l, a.disk) && Held(s, l, a.disk, a.files, k, was, before)
    requires Good(s, l, a.disk, a.files) && k < |a.files.chains| && 0 < l.clusterSize
    requires fates == Predict(LedgerOf(s, l, a.disk, a.files, k), l.clusterSize, jobs)
    ensures Going(s, l, k, jobs, was, before, fates, Run([a], [], was, before))
  {
    KeptFirst(s, l, k, jobs, was, before, a);
    ForetoldFirst(LedgerOf(s, l, a.disk, a.files, k), l.clusterSize, jobs);
  }

  lemma RunEnds(
      s: Super, l: Area, k: nat, jobs: seq<Job>, was: seq<byte>, before: seq<StoredFile>, fates: seq<Fate>, run: Run)
    requires Going(s, l, k, jobs, was, before, fates, run) && |run.results| == |jobs|
    ensures fates == Kinds(run.results) && Trace(s, l, k, run.states, jobs, run.results)
  {
    KeptStart(s, l, k, jobs, was, before, run);
    assert jobs[|jobs|..] == [];
    assert fates + [] == fates && Kinds(run.results) + [] == Kinds(run.results);
  }

  /** Packs the jobs in turn, to the end or to the first exception.  The ledger of the volume
      before the run foretells the kind of every result; every file packed so far under a name that
      survives, and every one that was there, is in the directory with all its data; and an
      exception loses nothing that was there before. */
  method PackAll(vol: Volume, parent: u32, jobs: seq<Job>, ghost k: nat, ghost was: seq<byte>, ghost before: seq<StoredFile>)
    returns (results: seq<PackResult>, threw: bool, ghost run: Run)
    requires vol.Valid() && Mounted(vol.super, vol.area, vol.disk)
    requires Held(vol.super, vol.area, vol.disk, vol.files, k, was, before)
    requires k < |vol.files.chains| && vol.files.chains[k][0] == parent
    modifies vol`disk, vol`files
    ensures vol.Valid() && Trace(vol.super, vol.area, k, run.states, jobs, results) && run.results == results
    ensures run.states[0] == State(old(vol.disk), old(vol.files)) && run.End() == State(vol.disk, vol.files)
    ensures Kinds(results) ==
      Predict(old(LedgerOf(vol.super, vol.area, vol.disk, vol.files, k)), vol.area.clusterSize, jobs)
    ensures threw <==> results != [] && results[|results| - 1].Threw?
    ensures threw ==> ImageKept(vol.area, old(vol.disk).img, vol.disk.img, old(vol.files).chains, k, InUse(was))
    ensures !threw ==>
      && |results| == |jobs| && Kept(vol.super, vol.area, k, jobs, was, before, run)
      && k < |vol.files.chains| && vol.files.chains[k][0] == parent
  {
    ghost var s, l, a := vol.super, vol.area, State(vol.disk, vol.files);
    ghost var fates := Predict(LedgerOf(s, l, vol.disk, vol.files, k), l.clusterSize, jobs);
    results, threw, run := [], false, Run([a], [], was, before);
    RunStarts(s, l, k, jobs, was, before, fates, a);
    while |results| < |jobs|
      invariant vol.Valid() && run.results == results && Going(s, l, k, jobs, was, before, fates, run)
      invariant run.states[0] == a && run.End() == State(vol.disk, vol.files)
      invariant k < |vol.files.chains| && vol.files.chains[k][0] == parent
      decreases |jobs| - |results|
    {
      KeptStart(s, l, k, jobs, was, before, run);
      var r := PackNext(vol, parent, jobs[|results|], k);
      run := RunStep(s, l, k, jobs, was, before, fates, run, r, State(vol.disk, vol.files));
      results, threw := results + [r], r.Threw?;
      if threw {
        return;
      }
      KeptStart(s, l, k, jobs, was, before, run);
    }
    RunEnds(s, l, k, jobs, was, before, fates, run);
  }
  lemma KeptAllBoot(
      s: Super, l: Area, k: nat, jobs: seq<Job>, was: seq<byte>, before: seq<StoredFile>, run: Run, d: Disk)
    requires Kept(s, l, k, jobs, was, before, run) && run.states != [] && WrittenBack(s, l, run.End().disk, d)
    requires s.bytesPerSector == SECTOR && 0 < s.numFats
    ensures 0 < s.sectorsPerCluster && before <= run.files && Recorded(jobs, run.results, run.files)
    ensures k < |run.End().files.chains| && run.End().files.chains[k] != []
    ensures 0 <= run.End().files.chains[k][0] < U32_LIMIT
    ensures AllBoot(d.img, s, run.End().files.chains[k][0], |run.End().files.chains[k]|, run.files)
  {
    assert Open(0);
    var b := run.End();
    forall i | 0 <= i < |run.files| ensures BootsTo(d.img, s, b.files.chains[k][0], |b.files.chains[k]|, run.files[i]) {
      HeldBoots(s, l, b.disk, b.files, d, k, run.was, run.files, i);
    }
    DirStart(s, l, b.disk, b.files, k, d);
  }

  lemma DirStart(s: Super, l: Area, d0: Disk, f: Files, k: nat, d: Disk)
    requires Good(s, l, d0, f) && k < |f.chains| && Clean(d0.raw, f.chains[k])
    requires WrittenBack(s, l, d0, d) && s.bytesPerSector == SECTOR && 0 < s.numFats
    ensures 0 <= f.chains[k][0] < U32_LIMIT
  {
    ChainWrittenBack(s, l, d0, f, k, d);
    ShortStart(s, d.img, d.raw, f.chains[k]);
  }

  /** The loader finds and reads each of the files. */
  ghost predicate AllBoot(disk: seq<byte>, s: Super, dir: u32, n: nat, files: seq<StoredFile>)
    requires s.sectorsPerCluster > 0
  {
    forall i :: 0 <= i < |files| ==> BootsTo(disk, s, dir, n, files[i])
  }

  lemma KeptImageBoots(
      s: Super, l: Area, a: State, img: seq<byte>, k: nat, was: seq<byte>, before: seq<StoredFile>, dir: u32)
    requires Mounted(s, l, a.disk) && OnDisk(s, a.disk.img, a.disk.raw) && 0 < s.numFats
    requires Held(s, l, a.disk, a.files, k, was, before)
    requires k < |a.files.chains| && a.files.chains[k] != [] && a.files.chains[k][0] == dir
    requires ImageKept(l, a.disk.img, img, a.files.chains, k, InUse(was))
    ensures AllBoot(img, s, dir, |a.files.chains[k]|, before)
  {
    assert Open(0);
    forall i | 0 <= i < |before| ensures BootsTo(img, s, dir, |a.files.chains[k]|, before[i]) {
      KeptBoots(s, l, a.disk, a.files, img, k, was, before, i);
    }
  }

  /** A whole session: pack commands, then the tables go back to the image.  The ledger before it
      foretells every result, hence also whether an exception ends the session.  If none does, the
      loader finds every file packed under a name that survives, and every one that was there, by
      its name, and reads it back for every offset and length.  Otherwise the tables stay as they
      were on disk, and the loader still finds and reads every file that was there. */
  method Session(
      vol: Volume, parent: u32, jobs: seq<Job>, info: seq<byte>, ghost k: nat, ghost was: seq<byte>,
      ghost before: seq<StoredFile>)
    returns (results: seq<PackResult>, threw: bool, ghost run: Run, ghost n: nat)
    requires vol.Valid() && Mounted(vol.super, vol.area, vol.disk)
    requires Held(vol.super, vol.area, vol.disk, vol.files, k, was, before)
    requires k < |vol.files.chains| && vol.files.chains[k][0] == parent
    requires vol.super.bytesPerSector == SECTOR && 0 < vol.super.numFats && |info| == 512
    modifies vol`disk, vol`files
    ensures Trace(vol.super, vol.area, k, run.states, jobs, results)
    ensures run.states[0] == State(old(vol.disk), old(vol.files))
    ensures Kinds(results) ==
      Predict(old(LedgerOf(vol.super, vol.area, vol.disk, vol.files, k)), vol.area.clusterSize, jobs)
    ensures threw <==> results != [] && results[|results| - 1].Threw?
    ensures !threw ==>
      && |results| == |jobs| && before <= run.files && Recorded(jobs, results, run.files)
      && AllBoot(vol.disk.img, vol.super, parent, n, run.files)
    ensures threw && old(OnDisk(vol.super, vol.disk.img, vol.disk.raw)) ==>
      AllBoot(vol.disk.img, vol.super, parent, old(|vol.files.chains[k]|), before)
  {
    ghost var s, l, a := vol.super, vol.area, State(vol.disk, vol.files);
    n := 0;
    results, threw, run := PackAll(vol, parent, jobs, k, was, before);
    if !threw {
      n := |vol.files.chains[k]|;
      KeptMounted(s, l, k, jobs, was, before, run);
      FinishImage(vol, info);
      KeptAllBoot(s, l, k, jobs, was, before, run, vol.disk);
    } else if OnDisk(s, a.disk.img, a.disk.raw) {
      KeptImageBoots(s, l, a, vol.disk.img, k, was, before, parent);
    }
  }

  lemma KeptMounted(s: Super, l: Area, k: nat, jobs: seq<Job>, was: seq<byte>, before: seq<StoredFile>, run: Run)
    requires Kept(s, l, k, jobs, was, before, run) && run.states != []
    ensures Mounted(s, l, run.End().disk)
  {
    assert Open(0);
  }
}
