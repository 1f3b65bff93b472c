/** Directory records of 32 bytes, short and long, and how a directory is made of them. */
module Dirent {
  import opened Bytes
  import opened ShortName

  const RECORD := 32

  type Record = s: seq<byte> | |s| == RECORD witness Zeros(RECORD)

  /** The characters up to the first NUL. */
  function CString(s: seq<byte>): (r: seq<byte>)
    ensures r <= s && 0 !in r
  {
    if s == [] || s[0] == 0 then [] else [s[0]] + CString(s[1..])
  }

  lemma {:induction false} CStringWhole(s: seq<byte>)
    requires 0 !in s
    ensures CString(s) == s
  {
    if s != [] { CStringWhole(s[1..]); }
  }

  lemma {:induction false} CStringIs(s: seq<byte>, n: nat)
    requires n <= |s| && (n < |s| ==> s[n] == 0) && forall i :: 0 <= i < n ==> s[i] != 0
    ensures CString(s) == s[..n]
  {
    if n > 0 {
      CStringIs(s[1..], n - 1);
      assert s[..n] == [s[0]] + s[1..][..n - 1];
    }
  }

  // ------------------------------------------------------------ short records

  predicate IsLast(e: Record) { e[0] == 0x00 }

  predicate IsDummy(e: Record) { e[0] == 0xE5 }

  /** All four low flag bits set. */
  predicate IsLong(e: Record) { e[11] % 0x10 == 0x0F }

  predicate IsDir(e: Record) { e[11] / 0x10 % 2 == 1 }

  function ClusterIndex(e: Record): u32 { 0x1_0000 * Word16(e[20], e[21]) + Word16(e[26], e[27]) }

  function Size(e: Record): u32 { WordAt(e, 28) }

  /** The name as a C string; None where `NameToString` returns false. */
  function NameOf(e: Record): Option<seq<byte>> {
    match DecodeName(e[..11])
    case None => None
    case Some(s) => Some(CString(s))
  }

  /** Rotate right, then add, over the name bytes. */
  function SumOf(s: seq<byte>): byte {
    if s == [] then 0
    else
      var sum := SumOf(s[..|s| - 1]);
      ((sum % 2) * 0x80 + sum / 2 + s[|s| - 1]) % 0x100
  }

  function Checksum(e: Record): byte { SumOf(e[..11]) }

  /** Name field, flags, cluster index and size in their places; everything else is zero. */
  function Build(name: seq<byte>, flags: byte, hi: seq<byte>, lo: seq<byte>, size: seq<byte>): Record
    requires |name| == 11 && |hi| == 2 && |lo| == 2 && |size| == 4
  {
    name + [flags] + Zeros(8) + hi + Zeros(4) + lo + size
  }

  /** The record `AppendDirectoryEntry` builds; only files carry a size. */
  function MakeRecord(name: seq<byte>, isDir: bool, cluster: u32, size: u32): Record {
    Build(EncodeName(name), if isDir then 0x10 else 0x00,
          Encode16(cluster / 0x1_0000), Encode16(cluster % 0x1_0000), Encode32(if isDir then 0 else size))
  }

  lemma BuildParts(name: seq<byte>, flags: byte, hi: seq<byte>, lo: seq<byte>, size: seq<byte>)
    requires |name| == 11 && |hi| == 2 && |lo| == 2 && |size| == 4
    ensures
      var e := Build(name, flags, hi, lo, size);
      && e[..11] == name && e[0] == name[0] && e[11] == flags
      && ClusterIndex(e) == 0x1_0000 * Word16(hi[0], hi[1]) + Word16(lo[0], lo[1])
      && Size(e) == WordAt(size, 0)
  {
    var e := Build(name, flags, hi, lo, size);
    assert e[..11] == name;
    assert e[20] == hi[0] && e[21] == hi[1] && e[26] == lo[0] && e[27] == lo[1];
    assert e[28] == size[0] && e[29] == size[1] && e[30] == size[2] && e[31] == size[3];
  }

  lemma RecordFields(name: seq<byte>, isDir: bool, cluster: u32, size: u32)
    ensures
      var e := MakeRecord(name, isDir, cluster, size);
      && e[..11] == EncodeName(name) && e[0] == EncodeName(name)[0]
      && !IsLong(e) && (IsDir(e) <==> isDir)
      && ClusterIndex(e) == cluster && Size(e) == if isDir then 0 else size
  {
    var h: u16, o: u16, z: u32 := cluster / 0x1_0000, cluster % 0x1_0000, if isDir then 0 else size;
    var f: byte := if isDir then 0x10 else 0x00;
    FieldValues(EncodeName(name), f, h, o, z);
    assert cluster == 0x1_0000 * h + o;
  }

  /** Where everything is in a new record: eleven bytes of name, the directory bit, the high half of
      the cluster at 20, its low half at 26, the size at 28, and zeros. */
  lemma RecordBytes(name: seq<byte>, isDir: bool, cluster: u32, size: u32)
    ensures
      var e := MakeRecord(name, isDir, cluster, size);
      && e[..11] == EncodeName(name) && e[11] == (if isDir then 16 else 0)
      && Word16(e[20], e[21]) == cluster / 0x1_0000 && Word16(e[26], e[27]) == cluster % 0x1_0000
      && WordAt(e, 28) == (if isDir then 0 else size)
      && forall i :: 12 <= i < 20 || 22 <= i < 26 ==> e[i] == 0
  {
    var h: u16, o: u16, z: u32 := cluster / 0x1_0000, cluster % 0x1_0000, if isDir then 0 else size;
    var f: byte := if isDir then 0x10 else 0x00;
    var hi, lo, zs := Encode16(h), Encode16(o), Encode32(z);
    BytesOf(EncodeName(name), f, hi, lo, zs);
    Encode16RoundTrip(h);
    Encode16RoundTrip(o);
    Encode32RoundTrip(z);
  }

  lemma BytesOf(name: seq<byte>, flags: byte, hi: seq<byte>, lo: seq<byte>, size: seq<byte>)
    requires |name| == 11 && |hi| == 2 && |lo| == 2 && |size| == 4
    ensures
      var e := Build(name, flags, hi, lo, size);
      && e[..11] == name && e[11] == flags && e[20] == hi[0] && e[21] == hi[1] && e[26] == lo[0] && e[27] == lo[1]
      && e[28] == size[0] && e[29] == size[1] && e[30] == size[2] && e[31] == size[3]
      && forall i :: 12 <= i < 20 || 22 <= i < 26 ==> e[i] == 0
  {
  }

  /** The flags of a record, bit by bit: a part of a long name has the four lowest, a directory the
      next one. */
  lemma FlagBits(e: Record, hi: nat, b4: nat, low: nat)
    requires e[11] == 32 * hi + 16 * b4 + low && low < 16 && b4 < 2
    ensures (IsLong(e) <==> low == 15) && (IsDir(e) <==> b4 == 1)
  {
    var q := 2 * hi + b4;
    assert e[11] == 16 * q + low;
    assert q % 2 == b4;
  }

  lemma FieldValues(name: seq<byte>, f: byte, h: u16, o: u16, z: u32)
    requires |name| == 11 && (f == 0x00 || f == 0x10)
    ensures
      var e := Build(name, f, Encode16(h), Encode16(o), Encode32(z));
      && e[..11] == name && e[0] == name[0] && !IsLong(e) && (IsDir(e) <==> f == 0x10)
      && ClusterIndex(e) == 0x1_0000 * h + o && Size(e) == z
  {
    BuildParts(name, f, Encode16(h), Encode16(o), Encode32(z));
    Encode16RoundTrip(h);
    Encode16RoundTrip(o);
    Encode32RoundTrip(z);
  }

  // ------------------------------------------------------------ long records

  predicate IsFinalPart(e: Record) { e[0] / 0x40 % 2 == 1 }

  function Sequence(e: Record): nat { e[0] % 0x40 }

  function PartSum(e: Record): byte { e[13] }

  function PartChar(e: Record, p: nat): byte
    requires p + 1 < RECORD
  {
    var x := Word16(e[p], e[p + 1]);
    if (0 < x < 0x20) || x >= 0x7F then 0x3F else x
  }

  function PartChars(e: Record): (s: seq<byte>)
    ensures |s| == 13
  {
    [
      PartChar(e, 1), PartChar(e, 3), PartChar(e, 5), PartChar(e, 7), PartChar(e, 9),
      PartChar(e, 14), PartChar(e, 16), PartChar(e, 18), PartChar(e, 20), PartChar(e, 22), PartChar(e, 24),
      PartChar(e, 28), PartChar(e, 30)]
  }

  /** The 13 characters of a part, up to a NUL. */
  function PartText(e: Record): seq<byte> { CString(PartChars(e)) }

  // ------------------------------------------------------------ fatedit's listing

  datatype DirEntry = DirEntry(
    shortName: seq<byte>, longName: seq<byte>, size: u32, firstCluster: u32, isDirectory: bool)

  /** The whole records of a stretch of bytes. */
  function Records(s: seq<byte>): (rs: seq<Record>)
    decreases |s|
  {
    if |s| < RECORD then [] else [s[..RECORD]] + Records(s[RECORD..])
  }

  /** Records that start on a record boundary can be taken apart. */
  lemma {:induction false} RecordsConcat(a: seq<byte>, n: nat, b: seq<byte>)
    requires |a| == RECORD * n
    ensures Records(a + b) == Records(a) + Records(b) && |Records(a)| == n
    decreases n
  {
    if n == 0 {
      assert a + b == b && Records(a) == [];
    } else {
      var t := a[RECORD..];
      RecordsConcat(t, n - 1, b);
      assert (a + b)[..RECORD] == a[..RECORD] && (a + b)[RECORD..] == t + b;
      assert ([a[..RECORD]] + Records(t)) + Records(b) == [a[..RECORD]] + (Records(t) + Records(b));
    }
  }

  /** The first n records are the parts of one long name, last part first. */
  predicate LongParts(rs: seq<Record>, n: nat)
    requires n <= |rs|
  {
    && 1 <= n && IsFinalPart(rs[0])
    && (forall i :: 0 <= i < n ==> IsLong(rs[i]) && Sequence(rs[i]) == n - i && PartSum(rs[i]) == PartSum(rs[0]))
    && (forall i :: 1 <= i < n ==> !IsFinalPart(rs[i]))
  }

  /** The texts of the parts, joined from the last one read to the first; None if one is empty. */
  function LongText(parts: seq<Record>): Option<seq<byte>> {
    if parts == [] then Some([])
    else
      match LongText(parts[1..])
      case None => None
      case Some(front) =>
        var t := PartText(parts[0]);
        if t == [] then None else Some(front + t)
  }

  /** A short record with the long name found in front of it, if any. */
  function ToEntry(e: Record, long: Option<seq<byte>>): Option<DirEntry> {
    match NameOf(e)
    case None => None
    case Some(name) =>
      Some(DirEntry(name, if long.Some? then long.value else name, Size(e), ClusterIndex(e), IsDir(e)))
  }

  /** The entry at the start of rs, and how many records it takes; None where the scan fails. */
  function EntryAt(rs: seq<Record>): (r: Option<(DirEntry, nat)>)
    requires rs != []
    ensures r.Some? ==> 1 <= r.value.1 <= |rs|
  {
    if !IsLong(rs[0]) then
      match ToEntry(rs[0], None)
      case None => None
      case Some(d) => Some((d, 1))
    else
      var n := Sequence(rs[0]);
      if |rs| < n + 1 || !LongParts(rs, n) then None
      else if IsLong(rs[n]) || Checksum(rs[n]) != PartSum(rs[0]) then None
      else
        match LongText(rs[..n])
        case None => None
        case Some(text) =>
          match ToEntry(rs[n], Some(text))
          case None => None
          case Some(d) => Some((d, n + 1))
  }

  /** The entries of a directory, and the number of records in front of its end. */
  datatype Listing = Fail | Listing(entries: seq<DirEntry>, used: nat)

  /** A listing with the outcome of one more round. */
  function Join(a: Listing, b: Listing): Listing {
    if a.Fail? || b.Fail? then Fail else Listing(a.entries + b.entries, a.used + b.used)
  }

  /** What one round of the scan contributes: nothing for a deleted record, else one entry. */
  function Round(rs: seq<Record>): (r: Listing)
    ensures r.Listing? ==> 1 <= r.used <= |rs|
  {
    if rs == [] then Fail
    else if IsDummy(rs[0]) then Listing([], 1)
    else
      match EntryAt(rs)
      case None => Fail
      case Some((d, n)) => Listing([d], n)
  }

  /** Rounds until the end mark or the end of the records, adding to what was found before. */
  function Rounds(round: seq<Record> -> Listing, rs: seq<Record>, done: Listing): Listing
    decreases |rs|
  {
    if rs == [] || IsLast(rs[0]) then done
    else
      match round(rs)
      case Fail => Fail
      case Listing(_, n) => if 1 <= n <= |rs| then Rounds(round, rs[n..], Join(done, round(rs))) else Fail
  }

  const NO_ENTRIES := Listing([], 0)

  /** The listing of a directory; a malformed record makes it fail. */
  function Scan(rs: seq<Record>): Listing { Rounds(Round, rs, NO_ENTRIES) }

  lemma {:induction false} RoundsUsed(round: seq<Record> -> Listing, rs: seq<Record>, done: Listing)
    requires Rounds(round, rs, done).Listing?
    ensures done.Listing? && done.used <= Rounds(round, rs, done).used <= done.used + |rs|
    decreases |rs|
  {
    if rs != [] && !IsLast(rs[0]) {
      RoundsUsed(round, rs[round(rs).used..], Join(done, round(rs)));
    }
  }

  ghost predicate SameStart(rs: seq<Record>, ts: seq<Record>, k: nat) {
    k <= |rs| && k <= |ts| && ts[..k] == rs[..k]
  }

  /** A round depends on the records it takes only. */
  ghost predicate Local(round: seq<Record> -> Listing) {
    forall rs: seq<Record>, ts: seq<Record>, k: nat {:trigger SameStart(rs, ts, k), round(rs)} ::
      round(rs).Listing? && round(rs).used == k && SameStart(rs, ts, k) ==> round(ts) == round(rs)
  }

  lemma RoundLocal()
    ensures Local(Round)
  {
    forall rs: seq<Record>, ts: seq<Record>, k: nat | Round(rs).Listing? && Round(rs).used == k && SameStart(rs, ts, k)
      ensures Round(ts) == Round(rs)
    {
      RoundPrefix(rs, ts);
    }
  }

  lemma RoundPrefix(rs: seq<Record>, ts: seq<Record>)
    requires Round(rs).Listing? && SameStart(rs, ts, Round(rs).used)
    ensures Round(ts) == Round(rs)
  {
    var k := Round(rs).used;
    assert forall i :: 0 <= i < k ==> ts[i] == ts[..k][i] && rs[i] == rs[..k][i];
    if IsLong(rs[0]) && !IsDummy(rs[0]) {
      assert ts[..k - 1] == rs[..k - 1];
    }
  }

  /** Rounds that start over behind the end of a directory go on where they left off. */
  lemma {:induction false} RoundsAppend(
      round: seq<Record> -> Listing, rs: seq<Record>, done: Listing, xs: seq<Record>, v: nat)
    requires Local(round) && Rounds(round, rs, done).Listing?
    requires done.Listing? && done.used + v == Rounds(round, rs, done).used
    ensures v <= |rs| && Rounds(round, rs[..v] + xs, done) == Rounds(round, xs, Rounds(round, rs, done))
    decreases |rs|
  {
    RoundsUsed(round, rs, done);
    if rs == [] || IsLast(rs[0]) {
      assert rs[..0] + xs == xs;
    } else {
      var first := round(rs);
      var k := first.used;
      RoundsUsed(round, rs[k..], Join(done, first));
      RoundsAppend(round, rs[k..], Join(done, first), xs, v - k);
      ReplaceTail(rs, k, v, xs);
    }
  }

  lemma ReplaceTail(rs: seq<Record>, k: nat, u: nat, xs: seq<Record>)
    requires k <= u <= |rs|
    ensures SameStart(rs, rs[..u] + xs, k) && (rs[..u] + xs)[k..] == rs[k..][..u - k] + xs
  {
    var ts := rs[..u] + xs;
    assert ts[..k] == rs[..k];
    assert ts[k..] == rs[k..][..u - k] + xs;
  }

  /** Replacing what follows the end of a directory adds to its listing. */
  lemma ScanAppend(rs: seq<Record>, xs: seq<Record>)
    requires Scan(rs).Listing?
    ensures Scan(rs).used <= |rs|
    ensures Scan(rs[..Scan(rs).used] + xs) == Rounds(Round, xs, Scan(rs))
  {
    RoundLocal();
    RoundsAppend(Round, rs, NO_ENTRIES, xs, Scan(rs).used);
  }

  ghost predicate Shown(rs: seq<Record>) { true }

  /** `round` is `Round`, looked up only where `Shown` is mentioned: proofs about whole scans
      need not see what one round does. */
  ghost predicate IsRound(round: seq<Record> -> Listing) {
    forall rs: seq<Record> {:trigger Shown(rs)} :: Shown(rs) && round(rs) == Round(rs)
  }

  lemma {:induction false} RoundsSame(round: seq<Record> -> Listing, rs: seq<Record>, done: Listing)
    requires IsRound(round)
    ensures Rounds(round, rs, done) == Rounds(Round, rs, done)
    decreases |rs|
  {
    assert Shown(rs);
    if rs != [] && !IsLast(rs[0]) && Round(rs).Listing? {
      RoundsSame(round, rs[Round(rs).used..], Join(done, Round(rs)));
    }
  }

  lemma PrefixRecords(all: seq<byte>, n: nat)
    requires RECORD * n <= |all|
    ensures n <= |Records(all)| && Records(all)[..n] == Records(all[..RECORD * n])
  {
    var a, b := all[..RECORD * n], all[RECORD * n..];
    assert all == a + b;
    RecordsConcat(a, n, b);
  }

  lemma {:induction false} RecordsLength(all: seq<byte>)
    ensures RECORD * |Records(all)| <= |all|
    decreases |all|
  {
    if |all| >= RECORD { RecordsLength(all[RECORD..]); }
  }

  /** The bytes of a directory that can be listed which its records take. */
  function InUse(dir: seq<byte>): nat {
    if Scan(Records(dir)).Listing? then RECORD * Scan(Records(dir)).used else 0
  }

  lemma InUseFits(dir: seq<byte>)
    ensures InUse(dir) <= |dir|
  {
    RecordsLength(dir);
    if Scan(Records(dir)).Listing? { RoundsUsed(Round, Records(dir), NO_ENTRIES); }
  }

  // ------------------------------------------------------------ a new entry

  /** The entry that the record of a new file or directory stands for. */
  function NewEntry(name: seq<byte>, isDir: bool, cluster: u32, size: u32): DirEntry {
    DirEntry(name, name, if isDir then 0 else size, cluster, isDir)
  }

  lemma ShortNameChars(name: seq<byte>)
    requires IsShort(name)
    ensures name != [] && 0 !in name && 0x20 <= EncodeName(name)[0] <= 0x7E
  {
    var p := FindDot(name);
    if p < |name| {
      OneDotOf(name, p);
      assert name == name[..p] + [DOT] + name[p + 1..];
    } else {
      assert name[..p] == name;
    }
  }

  /** One record and the end mark. */
  lemma RoundsOne(round: seq<Record> -> Listing, xs: seq<Record>, done: Listing)
    requires 2 <= |xs| && !IsLast(xs[0]) && IsLast(xs[1]) && done.Listing?
    requires round(xs).Listing? ==> round(xs).used == 1
    ensures Rounds(round, xs, done) == Join(done, round(xs))
  {
    assert xs[1..][0] == xs[1];
  }

  lemma JoinOne(done: Listing, a: Listing, d: DirEntry)
    requires done.Listing? && (a.Listing? ==> a.used == 1 && |a.entries| == 1)
    ensures Join(done, a) == Join(done, Listing([d], 1)) <==> a == Listing([d], 1)
  {
    if a.Listing? {
      var x, y := done.entries + a.entries, done.entries + [d];
      assert x[|done.entries|] == a.entries[0] && y[|done.entries|] == d;
    }
  }

  /** The name that a new record is read back under; None if none is. */
  function ReadBackName(name: seq<byte>): Option<seq<byte>> { DecodeName(EncodeName(name)) }

  lemma ReadBackNamed(name: seq<byte>)
    requires IsShort(name) && ReadBackName(name).Some?
    ensures ReadBackName(name).value != [] && CString(ReadBackName(name).value) == ReadBackName(name).value
  {
    var f := EncodeName(name);
    DecodedChars(name);
    CStringWhole(ReadBackName(name).value);
    assert f[..8][0] == f[0] && f[0] != SPACE;
    assert (TrimEnd(f[..8]) + [DOT] + f[8..])[0] == f[0];
  }

  /** The round that reads a new record. */
  lemma RoundRead(name: seq<byte>, isDir: bool, cluster: u32, size: u32, xs: seq<Record>)
    requires IsShort(name) && xs != [] && xs[0] == MakeRecord(name, isDir, cluster, size)
    ensures !IsLast(xs[0])
    ensures Round(xs) ==
      match ReadBackName(name)
      case None => Fail
      case Some(x) => Listing([NewEntry(x, isDir, cluster, size)], 1)
  {
    ShortNameChars(name);
    RecordFields(name, isDir, cluster, size);
    if ReadBackName(name).Some? { ReadBackNamed(name); }
  }

  /** A new record, followed by the end mark, adds one entry to a listing, under the name that is
      read back; without one the scan fails. */
  lemma RoundsRead(name: seq<byte>, isDir: bool, cluster: u32, size: u32, xs: seq<Record>, done: Listing)
    requires IsShort(name) && done.Listing?
    requires 2 <= |xs| && xs[0] == MakeRecord(name, isDir, cluster, size) && xs[1] == Zeros(RECORD)
    ensures Rounds(Round, xs, done) ==
      match ReadBackName(name)
      case None => Fail
      case Some(x) => Join(done, Listing([NewEntry(x, isDir, cluster, size)], 1))
  {
    RoundRead(name, isDir, cluster, size, xs);
    RoundsOne(Round, xs, done);
  }

  /** That is exactly the new entry if and only if the name survives. */
  lemma RoundsNew(name: seq<byte>, isDir: bool, cluster: u32, size: u32, xs: seq<Record>, done: Listing)
    requires IsShort(name) && done.Listing?
    requires 2 <= |xs| && xs[0] == MakeRecord(name, isDir, cluster, size) && xs[1] == Zeros(RECORD)
    ensures
      Rounds(Round, xs, done) == Join(done, Listing([NewEntry(name, isDir, cluster, size)], 1)) <==> Survives(name)
    ensures Rounds(Round, xs, done).Listing? ==> Rounds(Round, xs, done).used == done.used + 1
  {
    RoundsRead(name, isDir, cluster, size, xs, done);
    NameRoundTrip(name);
    if ReadBackName(name).Some? {
      JoinOne(done, Listing([NewEntry(ReadBackName(name).value, isDir, cluster, size)], 1), NewEntry(name, isDir, cluster, size));
    }
  }

  /** Decoding the field of a short name yields no NUL. */
  lemma DecodedChars(name: seq<byte>)
    requires IsShort(name) && DecodeName(EncodeName(name)).Some?
    ensures 0 !in DecodeName(EncodeName(name)).value
  {
    ShortNameChars(name);
    var f := EncodeName(name);
    assert forall i :: 0 <= i < 11 ==> f[i] != 0 by {
      var p := FindDot(name);
      assert forall i :: 0 <= i < |name| ==> name[i] in name;
    }
    assert 0 !in f[..8] && 0 !in f[8..];
    assert 0 !in TrimEnd(f[..8]) + [DOT] + f[8..];
  }
}
