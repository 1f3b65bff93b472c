/** Looking a name up in a directory: what the boot loader does with the records, and how that
    relates to the entries fatedit lists. */
module Lookup {
  import opened Bytes
  import opened ShortName
  import opened Dirent

  /** The outcome of going through some records. */
  datatype Hit = Hit(e: Record) | End | GoOn

  /** What an unfilled name buffer holds when the t-th record of a lookup is compared. */
  type Junk = nat -> seq<byte>

  /** The name a record is compared under.  For one that starts with a space `NameToString` fills
      no buffer, and the comparison sees whatever the buffer held. */
  function Seen(e: Record, stale: seq<byte>): seq<byte> {
    match NameOf(e)
    case None => stale
    case Some(n) => n
  }

  function Search(rs: seq<Record>, name: seq<byte>, stale: Junk, t: nat): Hit {
    if rs == [] then GoOn
    else if IsLast(rs[0]) then End
    else if !IsLong(rs[0]) && !IsDummy(rs[0]) && Seen(rs[0], stale(t)) == name then Hit(rs[0])
    else Search(rs[1..], name, stale, t + 1)
  }

  lemma {:induction false} SearchConcat(a: seq<Record>, b: seq<Record>, name: seq<byte>, stale: Junk, t: nat)
    ensures Search(a + b, name, stale, t) ==
      if Search(a, name, stale, t) == GoOn then Search(b, name, stale, t + |a|) else Search(a, name, stale, t)
  {
    if a == [] {
      assert a + b == b;
    } else {
      assert (a + b)[1..] == a[1..] + b;
      SearchConcat(a[1..], b, name, stale, t + 1);
    }
  }

  // ------------------------------------------------------------ entries

  datatype Match = Found(d: DirEntry) | Cut | NotThere

  /** The first entry of that short name.  An entry with an empty name, whose record starts with
      a NUL, looks like the end of the directory. */
  function FirstNamed(es: seq<DirEntry>, name: seq<byte>): Match {
    if es == [] then NotThere
    else if es[0].shortName == [] then Cut
    else if es[0].shortName == name then Found(es[0])
    else FirstNamed(es[1..], name)
  }

  lemma {:induction false} FirstNamedConcat(a: seq<DirEntry>, b: seq<DirEntry>, name: seq<byte>)
    ensures FirstNamed(a + b, name) ==
      if FirstNamed(a, name) == NotThere then FirstNamed(b, name) else FirstNamed(a, name)
  {
    if a == [] {
      assert a + b == b;
    } else {
      assert (a + b)[1..] == a[1..] + b;
      FirstNamedConcat(a[1..], b, name);
    }
  }

  /** Both found the same, or neither found anything. */
  predicate SameAnswer(h: Hit, m: Match) {
    match h
    case Hit(e) => m.Found? && m.d.firstCluster == ClusterIndex(e) && m.d.size == Size(e) && m.d.isDirectory == IsDir(e)
    case End => m.Cut?
    case GoOn => m.NotThere?
  }

  /** A short record and the entry it stands for. */
  lemma OneRecord(e: Record, d: DirEntry, long: Option<seq<byte>>, name: seq<byte>, stale: Junk, t: nat)
    requires IsShort(name) && !IsLong(e) && ToEntry(e, long) == Some(d)
    ensures SameAnswer(Search([e], name, stale, t), FirstNamed([d], name))
  {
    NameBytes(name);
    FirstChar(e);
    assert [e][1..] == [] && [d][1..] == [];
    assert Search([e], name, stale, t) ==
      if IsLast(e) then End else if !IsDummy(e) && d.shortName == name then Hit(e) else GoOn;
    assert FirstNamed([d], name) ==
      if d.shortName == [] then Cut else if d.shortName == name then Found(d) else NotThere;
  }

  lemma NameBytes(name: seq<byte>)
    requires IsShort(name)
    ensures name != [] && name[0] != 0xE5
  {
    ShortNameChars(name);
    assert |name| > 0 && IsValidFatChar(name[0]) by {
      if p: nat :| SplitsAt(name, p) { assert name[..p][0] == name[0]; }
    }
  }

  /** The first character of a listed name is the first byte of its record. */
  lemma FirstChar(e: Record)
    requires NameOf(e).Some?
    ensures if IsLast(e) then NameOf(e).value == [] else NameOf(e).value != [] && NameOf(e).value[0] == e[0]
  {
    var f := e[..11];
    assert f[0] == e[0];
    TrimKeepsFirst(f[..8], e[0]);
    TrimKeepsFirst(TrimEnd(f[..8]) + [DOT] + f[8..], e[0]);
  }

  lemma TrimKeepsFirst(s: seq<byte>, c: byte)
    requires s != [] && s[0] == c != SPACE
    ensures TrimEnd(s) != [] && TrimEnd(s)[0] == c
  {
  }

  // ------------------------------------------------------------ whole directories

  /** The loader passes over the parts of a long name. */
  lemma {:induction false} PartsSkipped(ps: seq<Record>, name: seq<byte>, stale: Junk, t: nat)
    requires forall i :: 0 <= i < |ps| ==> IsLong(ps[i]) && !IsLast(ps[i])
    ensures Search(ps, name, stale, t) == GoOn
  {
    if ps != [] { PartsSkipped(ps[1..], name, stale, t + 1); }
  }

  lemma DummySkipped(e: Record, name: seq<byte>, stale: Junk, t: nat)
    requires IsDummy(e)
    ensures Search([e], name, stale, t) == GoOn
  {
    assert [e][1..] == [];
    assert !IsLast([e][0]) && IsDummy([e][0]);
  }

  lemma LongRound(rs: seq<Record>, n: nat, d: DirEntry, text: seq<byte>, name: seq<byte>, stale: Junk, t: nat)
    requires IsShort(name) && n < |rs| && LongParts(rs, n) && !IsLong(rs[n]) && ToEntry(rs[n], Some(text)) == Some(d)
    ensures SameAnswer(Search(rs[..n + 1], name, stale, t), FirstNamed([d], name))
  {
    var ps, e := rs[..n], rs[n];
    assert forall i :: 0 <= i < n ==> ps[i] == rs[i] && Sequence(rs[i]) == n - i;
    PartsSkipped(ps, name, stale, t);
    assert rs[..n + 1] == ps + [e];
    SearchConcat(ps, [e], name, stale, t);
    OneRecord(e, d, Some(text), name, stale, t + n);
  }

  /** On the records of one round the loader finds what fatedit lists for them. */
  lemma RoundAnswers(rs: seq<Record>, name: seq<byte>, stale: Junk, t: nat)
    requires IsShort(name) && rs != [] && !IsLast(rs[0]) && Round(rs).Listing?
    ensures SameAnswer(Search(rs[..Round(rs).used], name, stale, t), FirstNamed(Round(rs).entries, name))
  {
    assert rs[..1] == [rs[0]];
    if IsDummy(rs[0]) {
      DummySkipped(rs[0], name, stale, t);
    } else if !IsLong(rs[0]) {
      OneRecord(rs[0], Round(rs).entries[0], None, name, stale, t);
    } else {
      var n := Sequence(rs[0]);
      LongRound(rs, n, Round(rs).entries[0], LongText(rs[..n]).value, name, stale, t);
    }
  }

  ghost predicate Answers(round: seq<Record> -> Listing, name: seq<byte>, stale: Junk) {
    forall rs: seq<Record>, t: nat {:trigger AnswersAt(round, rs, name, stale, t)} ::
      AnswersAt(round, rs, name, stale, t)
  }

  ghost predicate AnswersAt(round: seq<Record> -> Listing, rs: seq<Record>, name: seq<byte>, stale: Junk, t: nat) {
    rs != [] && !IsLast(rs[0]) && round(rs).Listing? ==>
      && round(rs).used <= |rs|
      && SameAnswer(Search(rs[..round(rs).used], name, stale, t), FirstNamed(round(rs).entries, name))
  }

  lemma RoundsAnswer(name: seq<byte>, stale: Junk)
    requires IsShort(name)
    ensures Answers(Round, name, stale)
  {
    forall rs: seq<Record>, t: nat ensures AnswersAt(Round, rs, name, stale, t) {
      if rs != [] && !IsLast(rs[0]) && Round(rs).Listing? { RoundAnswers(rs, name, stale, t); }
    }
  }

  /** The loader's walk over the first m records agrees with the entries listed for them, and
      behind them the directory ends. */
  ghost predicate DoesAgree(rs: seq<Record>, m: nat, es: seq<DirEntry>, name: seq<byte>, stale: Junk, t: nat) {
    && m <= |rs| && SameAnswer(Search(rs[..m], name, stale, t), FirstNamed(es, name))
    && (m < |rs| ==> IsLast(rs[m]))
  }

  /** The same, taken apart only where `Open` is mentioned. */
  ghost predicate Agrees(rs: seq<Record>, m: nat, es: seq<DirEntry>, name: seq<byte>, stale: Junk, t: nat) {
    forall u: int {:trigger Open(u)} :: Open(u) && DoesAgree(rs, m, es, name, stale, t)
  }

  lemma EndAgrees(rs: seq<Record>, name: seq<byte>, stale: Junk, t: nat)
    requires rs == [] || IsLast(rs[0])
    ensures Agrees(rs, 0, [], name, stale, t)
  {
    assert rs[..0] == [];
    assert DoesAgree(rs, 0, [], name, stale, t);
  }

  lemma JoinAnswers(
      rs: seq<Record>, k: nat, xs: seq<DirEntry>, m: nat, ys: seq<DirEntry>, name: seq<byte>, stale: Junk, t: nat)
    requires k <= |rs| && SameAnswer(Search(rs[..k], name, stale, t), FirstNamed(xs, name))
    requires Agrees(rs[k..], m, ys, name, stale, t + k)
    ensures Agrees(rs, k + m, xs + ys, name, stale, t)
  {
    assert Open(0);
    assert rs[..k + m] == rs[..k] + rs[k..][..m];
    SearchConcat(rs[..k], rs[k..][..m], name, stale, t);
    FirstNamedConcat(xs, ys, name);
    assert DoesAgree(rs, k + m, xs + ys, name, stale, t);
  }

  lemma {:induction false} RoundsAgree(
      round: seq<Record> -> Listing, rs: seq<Record>, done: Listing, name: seq<byte>, stale: Junk, t: nat)
    returns (m: nat, es: seq<DirEntry>)
    requires Answers(round, name, stale) && Rounds(round, rs, done).Listing?
    ensures done.Listing? && Rounds(round, rs, done) == Listing(done.entries + es, done.used + m)
    ensures Agrees(rs, m, es, name, stale, t)
    decreases |rs|
  {
    RoundsUsed(round, rs, done);
    if rs == [] || IsLast(rs[0]) {
      m, es := 0, [];
      EndAgrees(rs, name, stale, t);
      assert done.entries + [] == done.entries;
    } else {
      var first := round(rs);
      assert AnswersAt(round, rs, name, stale, t);
      var m', es' := RoundsAgree(round, rs[first.used..], Join(done, first), name, stale, t + first.used);
      m, es := first.used + m', first.entries + es';
      JoinAnswers(rs, first.used, first.entries, m', es', name, stale, t);
      assert done.entries + es == (done.entries + first.entries) + es';
    }
  }

  /** The answer for a whole directory, where running off its end is like its end mark. */
  predicate SameResult(h: Hit, m: Match) {
    SameAnswer(h, m) || (h == End && m == NotThere)
  }

  /** For every short name the loader finds the first entry fatedit lists under that short
      name, or both find none; only entries behind one with an empty name stay invisible. */
  lemma LookupAgrees(rs: seq<Record>, name: seq<byte>, stale: Junk, t: nat)
    requires IsShort(name) && Scan(rs).Listing?
    ensures SameResult(Search(rs, name, stale, t), FirstNamed(Scan(rs).entries, name))
  {
    RoundsAnswer(name, stale);
    ResultAgrees(Round, rs, name, stale, t);
  }

  /** What is listed is decided by the records in use, whatever follows them. */
  lemma PrefixAgrees(rs: seq<Record>, name: seq<byte>, stale: Junk, t: nat)
    requires IsShort(name) && Scan(rs).Listing?
    ensures Scan(rs).used <= |rs|
    ensures SameAnswer(Search(rs[..Scan(rs).used], name, stale, t), FirstNamed(Scan(rs).entries, name))
  {
    RoundsAnswer(name, stale);
    PrefixAnswer(Round, rs, name, stale, t);
  }

  lemma PrefixAnswer(round: seq<Record> -> Listing, rs: seq<Record>, name: seq<byte>, stale: Junk, t: nat)
    requires Answers(round, name, stale) && Rounds(round, rs, NO_ENTRIES).Listing?
    ensures
      var listing := Rounds(round, rs, NO_ENTRIES);
      && listing.used <= |rs|
      && SameAnswer(Search(rs[..listing.used], name, stale, t), FirstNamed(listing.entries, name))
  {
    var m, es := RoundsAgree(round, rs, NO_ENTRIES, name, stale, t);
    assert Open(0);
    assert [] + es == es;
  }

  lemma FoundInFront(rs: seq<Record>, n: nat, name: seq<byte>, stale: Junk, t: nat, m: Match)
    requires n <= |rs| && SameAnswer(Search(rs[..n], name, stale, t), m) && m.Found?
    ensures SameAnswer(Search(rs, name, stale, t), m)
  {
    assert rs == rs[..n] + rs[n..];
    SearchConcat(rs[..n], rs[n..], name, stale, t);
  }

  lemma ResultAgrees(round: seq<Record> -> Listing, rs: seq<Record>, name: seq<byte>, stale: Junk, t: nat)
    requires Answers(round, name, stale) && Rounds(round, rs, NO_ENTRIES).Listing?
    ensures SameResult(Search(rs, name, stale, t), FirstNamed(Rounds(round, rs, NO_ENTRIES).entries, name))
  {
    var m, es := RoundsAgree(round, rs, NO_ENTRIES, name, stale, t);
    assert Open(0);
    assert [] + es == es;
    EndOfRecords(rs, m, name, stale, t);
  }

  /** Behind the listed records there is nothing, or the end mark. */
  lemma EndOfRecords(rs: seq<Record>, m: nat, name: seq<byte>, stale: Junk, t: nat)
    requires m <= |rs| && (m < |rs| ==> IsLast(rs[m]))
    ensures
      var h := Search(rs[..m], name, stale, t);
      Search(rs, name, stale, t) == if h == GoOn && m < |rs| then End else h
  {
    assert rs == rs[..m] + rs[m..];
    SearchConcat(rs[..m], rs[m..], name, stale, t);
  }
}
