/** fatedit's directory code: reading a directory, and adding an entry to it. */
module Directory {
  import opened Bytes
  import opened ShortName
  import opened Dirent
  import opened FileReader

  /** Reading a record takes it off the front. */
  lemma RecordsFront(chunk: seq<byte>, rest: seq<byte>)
    requires |chunk| == RECORD
    ensures Records(chunk + rest) == [chunk] + Records(rest)
  {
    RecordsConcat(chunk, 1, rest);
    assert chunk[RECORD..] == [] && chunk[..RECORD] == chunk;
  }

  /** One `rd.Read` of 32 bytes; None when the directory ends before, and then how much was read. */
  method ReadRecord(rd: FileReader) returns (r: Option<Record>, overread: nat)
    requires rd.Valid()
    modifies rd`place, rd`totalRead
    ensures rd.Valid()
    ensures r.None? ==> Records(old(rd.Remaining())) == [] && rd.totalRead == old(rd.totalRead) + overread
    ensures r.Some? ==>
      && Records(old(rd.Remaining())) == [r.value] + Records(rd.Remaining())
      && rd.totalRead == old(rd.totalRead) + RECORD
  {
    var data := rd.Read(RECORD);
    if |data| < RECORD {
      return None, |data|;
    }
    RecordsFront(data, rd.Remaining());
    return Some(data), 0;
  }

  /** The parts after the first; None if the directory ends, or one is no middle part. */
  method ReadParts(rd: FileReader, first: Record, count: nat) returns (parts: Option<seq<Record>>)
    requires rd.Valid() && 1 <= count
    modifies rd`place, rd`totalRead
    ensures rd.Valid()
    ensures
      var rs := [first] + Records(old(rd.Remaining()));
      match parts
      case Some(ps) =>
        && |ps| == count <= |rs| && ps == rs[..count] && Records(rd.Remaining()) == rs[count..]
        && (forall i :: 1 <= i < count ==> IsLong(rs[i]) && !IsFinalPart(rs[i]))
        && rd.totalRead == old(rd.totalRead) + RECORD * (count - 1)
      case None => |rs| < count || exists i :: 1 <= i < count && (!IsLong(rs[i]) || IsFinalPart(rs[i]))
  {
    ghost var rs := [first] + Records(rd.Remaining());
    var list := [first];
    var i := 1;
    while i < count
      invariant 1 <= i <= count && rd.Valid()
      invariant |list| == i <= |rs| && list == rs[..i] && Records(rd.Remaining()) == rs[i..]
      invariant forall j :: 1 <= j < i ==> IsLong(rs[j]) && !IsFinalPart(rs[j])
      invariant rd.totalRead == old(rd.totalRead) + RECORD * (i - 1)
    {
      var r, n := ReadRecord(rd);
      if r.None? {
        return None;
      }
      assert rs[i..] == [r.value] + Records(rd.Remaining());
      assert rs[i] == r.value;
      if !IsLong(r.value) || IsFinalPart(r.value) {
        return None;
      }
      assert rs[i + 1..] == rs[i..][1..];
      list := list + [r.value];
      i := i + 1;
    }
    return Some(list);
  }

  /** The check of the reversed list: numbers count up from one, all checksums agree. */
  method PartsInOrder(parts: seq<Record>, sum: byte) returns (ok: bool)
    ensures ok <==> forall i :: 0 <= i < |parts| ==> Sequence(parts[i]) == |parts| - i && PartSum(parts[i]) == sum
  {
    var i := 0;
    while i < |parts|
      invariant 0 <= i <= |parts|
      invariant forall j :: |parts| - i <= j < |parts| ==> Sequence(parts[j]) == |parts| - j && PartSum(parts[j]) == sum
    {
      var p := parts[|parts| - 1 - i];
      if Sequence(p) != i + 1 || PartSum(p) != sum {
        return false;
      }
      i := i + 1;
    }
    return true;
  }

  method JoinTexts(parts: seq<Record>) returns (text: Option<seq<byte>>)
    ensures text == LongText(parts)
  {
    var name := [];
    var i := |parts|;
    while 0 < i
      invariant 0 <= i <= |parts| && LongText(parts[i..]) == Some(name)
    {
      i := i - 1;
      var t := PartText(parts[i]);
      assert parts[i..][1..] == parts[i + 1..];
      if t == [] {
        NoText(parts, i);
        return None;
      }
      name := name + t;
    }
    return Some(name);
  }

  lemma {:induction false} NoText(parts: seq<Record>, i: nat)
    requires i < |parts| && LongText(parts[i..]).None?
    ensures LongText(parts).None?
    decreases i
  {
    if i > 0 {
      assert parts[i..] == parts[1..][i - 1..];
      NoText(parts[1..], i - 1);
    } else {
      assert parts[0..] == parts;
    }
  }

  /** The same, as one round of the scan. */
  method ReadEntryRound(rd: FileReader, first: Record, ghost round: seq<Record> -> Listing)
    returns (entry: Option<(DirEntry, nat)>)
    requires rd.Valid() && IsRound(round) && !IsDummy(first)
    modifies rd`place, rd`totalRead
    ensures rd.Valid()
    ensures
      var rs := [first] + Records(old(rd.Remaining()));
      match entry
      case None => round(rs) == Fail
      case Some((d, n)) =>
        && round(rs) == Listing([d], n) && 1 <= n <= |rs| && Records(rd.Remaining()) == rs[n..]
        && rd.totalRead == old(rd.totalRead) + RECORD * (n - 1)
  {
    ghost var rs := [first] + Records(rd.Remaining());
    entry := ReadEntry(rd, first);
    assert Shown(rs);
  }

  /** Reads the rest of the entry that starts with record `first`. */
  method ReadEntry(rd: FileReader, first: Record) returns (entry: Option<(DirEntry, nat)>)
    requires rd.Valid()
    modifies rd`place, rd`totalRead
    ensures rd.Valid()
    ensures
      var rs := [first] + Records(old(rd.Remaining()));
      && entry == EntryAt(rs)
      && (entry.Some? ==>
           && Records(rd.Remaining()) == rs[entry.value.1..]
           && rd.totalRead == old(rd.totalRead) + RECORD * (entry.value.1 - 1))
  {
    ghost var rs := [first] + Records(rd.Remaining());
    var short, count, text := first, 0, None;
    if IsLong(first) {
      count := Sequence(first);
      var sum := PartSum(first);
      if !IsFinalPart(first) || count < 1 {
        return None;
      }
      var parts := ReadParts(rd, first, count);
      if parts.None? {
        return None;
      }
      var inOrder := PartsInOrder(parts.value, sum);
      if !inOrder {
        OutOfOrder(rs, parts.value, sum);
        return None;
      }
      assert LongParts(rs, count) by { InOrder(rs, parts.value, sum); }
      var r, n := ReadRecord(rd);
      if r.None? {
        assert |rs| == count;
        return None;
      }
      short := r.value;
      assert rs[count] == rs[count..][0] && rs[count + 1..] == rs[count..][1..];
      if IsLong(short) || Checksum(short) != sum {
        return None;
      }
      text := JoinTexts(parts.value);
      if text.None? {
        return None;
      }
    }
    var d := ShortEntry(short, text);
    if d.None? {
      return None;
    }
    return Some((d.value, count + 1));
  }

  /** The entry of a short record. */
  method ShortEntry(e: Record, long: Option<seq<byte>>) returns (d: Option<DirEntry>)
    ensures d == ToEntry(e, long)
  {
    var name := ReadName(e);
    if name.None? {
      return None;
    }
    return Some(
      DirEntry(name.value, if long.Some? then long.value else name.value, Size(e), ClusterIndex(e), IsDir(e)));
  }

  /** The name of a short record, through a buffer that is large enough. */
  method ReadName(e: Record) returns (name: Option<seq<byte>>)
    ensures name == NameOf(e)
  {
    var buffer := new byte[13];
    var field := e[..11];
    NameBuffer(field);
    var ok := NameToString(field, buffer);
    if !ok {
      return None;
    }
    var s := ReadCString(buffer, DecodeName(field).value);
    return Some(s);
  }

  /** What a `char *` to the buffer stands for. */
  method ReadCString(buffer: array<byte>, ghost chars: seq<byte>) returns (s: seq<byte>)
    requires InBuffer(buffer[..], chars)
    ensures s == CString(chars)
  {
    var n := 0;
    assert buffer[|chars|] == 0;
    while buffer[n] != 0
      invariant n <= |chars| && forall i :: 0 <= i < n ==> buffer[i] != 0
      decreases |chars| - n
    {
      n := n + 1;
    }
    BufferEnds(buffer[..], chars, n);
    s := buffer[..n];
  }

  lemma BufferEnds(buffer: seq<byte>, s: seq<byte>, n: nat)
    requires InBuffer(buffer, s) && n <= |s| && buffer[n] == 0 && forall i :: 0 <= i < n ==> buffer[i] != 0
    ensures CString(s) == buffer[..n]
  {
    assert forall i :: 0 <= i < |s| ==> buffer[..|s|][i] == s[i];
    CStringIs(s, n);
    assert s[..n] == buffer[..n];
  }

  lemma InOrder(rs: seq<Record>, parts: seq<Record>, sum: byte)
    requires |parts| <= |rs| && parts == rs[..|parts|] && parts != [] && IsLong(rs[0]) && IsFinalPart(rs[0])
    requires PartSum(rs[0]) == sum
    requires forall i :: 1 <= i < |parts| ==> IsLong(rs[i]) && !IsFinalPart(rs[i])
    requires forall i :: 0 <= i < |parts| ==> Sequence(parts[i]) == |parts| - i && PartSum(parts[i]) == sum
    ensures LongParts(rs, |parts|)
  {
    assert forall i :: 0 <= i < |parts| ==> parts[i] == rs[i];
  }

  lemma OutOfOrder(rs: seq<Record>, parts: seq<Record>, sum: byte)
    requires |parts| <= |rs| && parts == rs[..|parts|] && parts != [] && PartSum(rs[0]) == sum
    requires !(forall i :: 0 <= i < |parts| ==> Sequence(parts[i]) == |parts| - i && PartSum(parts[i]) == sum)
    ensures !LongParts(rs, |parts|)
  {
    assert forall i :: 0 <= i < |parts| ==> parts[i] == rs[i];
  }

  // ------------------------------------------------------------ the scan

  /** The scan of `all` has listed `out` in its first `used` records, and goes on with `rest`. */
  ghost predicate Scanned(
      round: seq<Record> -> Listing, all: seq<Record>, rest: seq<Record>, out: seq<DirEntry>, used: nat)
  {
    var scanned := IsRound(round) && Rounds(round, all, NO_ENTRIES) == Rounds(round, rest, Listing(out, used));
    scanned
  }

  lemma ScanStarts(round: seq<Record> -> Listing, all: seq<Record>)
    requires IsRound(round)
    ensures Scanned(round, all, all, [], 0)
  {
  }

  /** One round that took n records. */
  lemma ScanMore(
      round: seq<Record> -> Listing, all: seq<Record>, rs: seq<Record>, rest: seq<Record>,
      out: seq<DirEntry>, used: nat, more: seq<DirEntry>, n: nat)
    requires Scanned(round, all, rs, out, used) && rs != [] && !IsLast(rs[0])
    requires round(rs) == Listing(more, n) && 1 <= n <= |rs| && rest == rs[n..]
    ensures Scanned(round, all, rest, out + more, used + n)
  {
  }

  lemma ScanEnds(round: seq<Record> -> Listing, all: seq<Record>, rs: seq<Record>, out: seq<DirEntry>, used: nat)
    requires Scanned(round, all, rs, out, used) && (rs == [] || IsLast(rs[0]))
    ensures Scan(all) == Listing(out, used)
  {
    RoundsSame(round, all, NO_ENTRIES);
  }

  lemma ScanFails(round: seq<Record> -> Listing, all: seq<Record>, rs: seq<Record>, out: seq<DirEntry>, used: nat)
    requires Scanned(round, all, rs, out, used) && rs != [] && !IsLast(rs[0]) && round(rs) == Fail
    ensures Scan(all) == Fail
  {
    RoundsSame(round, all, NO_ENTRIES);
  }

  datatype Progress = More(entries: seq<DirEntry>) | End(overread: nat) | Broken

  /** One round of the loop in `ScanDirectory`. */
  method ScanRound(rd: FileReader, ghost round: seq<Record> -> Listing) returns (p: Progress, ghost n: nat)
    requires rd.Valid() && IsRound(round)
    modifies rd`place, rd`totalRead
    ensures rd.Valid()
    ensures
      var rs := Records(old(rd.Remaining()));
      match p
      case More(more) =>
        && rs != [] && !IsLast(rs[0]) && round(rs) == Listing(more, n) && 1 <= n <= |rs|
        && Records(rd.Remaining()) == rs[n..] && rd.totalRead == old(rd.totalRead) + RECORD * n
      case End(overread) => (rs == [] || IsLast(rs[0])) && rd.totalRead == old(rd.totalRead) + overread
      case Broken => rs != [] && !IsLast(rs[0]) && round(rs) == Fail
  {
    ghost var rs := Records(rd.Remaining());
    n := 0;
    var r, overread := ReadRecord(rd);
    if r.None? {
      return End(overread), n;
    }
    if IsDummy(r.value) {
      assert Shown(rs);
      assert rs[1..] == Records(rd.Remaining());
      return More([]), 1;
    }
    if IsLast(r.value) {
      return End(RECORD), n;
    }
    var entry := ReadEntryRound(rd, r.value, round);
    if entry.None? {
      return Broken, n;
    }
    return More([entry.value.0]), entry.value.1;
  }

  method ScanDirectory(rd: FileReader) returns (ok: bool, out: seq<DirEntry>, totalRead: nat)
    requires rd.Valid()
    modifies rd`place, rd`totalRead
    ensures rd.Valid()
    ensures ok <==> Scan(Records(old(rd.Remaining()))).Listing?
    ensures ok ==>
      exists n :: Scan(Records(old(rd.Remaining()))) == Listing(out, n) && totalRead == old(rd.totalRead) + RECORD * n
  {
    out := [];
    assert IsRound(Round);
    ghost var round: seq<Record> -> Listing :| IsRound(round);
    ghost var all, used: nat := Records(rd.Remaining()), 0;
    ScanStarts(round, all);
    while true
      invariant rd.Valid() && rd.totalRead == old(rd.totalRead) + RECORD * used
      invariant Scanned(round, all, Records(rd.Remaining()), out, used)
      decreases |Records(rd.Remaining())|
    {
      ghost var rs := Records(rd.Remaining());
      var p, n := ScanRound(rd, round);
      match p
      case Broken =>
        ScanFails(round, all, rs, out, used);
        return false, out, 0;
      case End(overread) =>
        ScanEnds(round, all, rs, out, used);
        return true, out, rd.totalRead - overread;
      case More(more) =>
        ScanMore(round, all, rs, Records(rd.Remaining()), out, used, more, n);
        out := out + more;
        used := used + n;
    }
  }
}
