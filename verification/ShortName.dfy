/** 8.3 names: which ones are allowed, and the padded form in which a directory stores them. */
module ShortName {
  import opened Bytes

  const SPACE: byte := 0x20
  const DOT: byte := 0x2E

  predicate IsValidFatChar(c: byte) {
    && 0x20 <= c <= 0x7E
    && !(0x61 <= c <= 0x7A)                                             // a-z
    && !(0x3A <= c <= 0x3F)                                             // :;<=>?
    && c != 0x7C && c != 0x5C && c != 0x2F && c != 0x22 && c != 0x2A    // | \ / " *
    && c != 0x2B && c != 0x2C && c != 0x5B && c != 0x5D                 // + , [ ]
  }

  /** The characters of a short name, but for the dot: space, digits, capital letters and
      ! # $ % & ' ( ) - @ ^ _ ` { } ~ */
  predicate IsNameChar(c: byte) {
    || c == ' ' as int || c == '!' as int || '#' as int <= c <= ')' as int || c == '-' as int
    || '0' as int <= c <= '9' as int || '@' as int <= c <= 'Z' as int || '^' as int <= c <= '`' as int
    || c == '{' as int || c == '}' as int || c == '~' as int
  }

  /** One of these is a name on its own, and no other character is in one. */
  lemma NameChars(name: seq<byte>, c: byte)
    ensures IsShort([c]) <==> IsNameChar(c)
    ensures IsShort(name) ==> forall i :: 0 <= i < |name| ==> IsNameChar(name[i]) || name[i] == '.' as int
  {
    assert IsPart([c], 8) <==> IsNameChar(c) by { assert [c][0] == c; }
    if p: nat :| SplitsAt(name, p) {
      assert forall i :: 0 <= i < |name| ==>
        name[i] == if i < p then name[..p][i] else if i == p then DOT else name[p + 1..][i - p - 1];
    }
  }

  /** Of these characters one to eight are a name; with a dot at p there are one to eight in front of
      it and one to three behind it. */
  lemma NameLengths(name: seq<byte>, p: nat)
    requires p <= |name| && (p < |name| ==> name[p] == '.' as int)
    requires forall i :: 0 <= i < |name| && i != p ==> IsNameChar(name[i])
    ensures IsShort(name) <==> if p == |name| then 1 <= p <= 8 else 1 <= p <= 8 && 1 <= |name| - p - 1 <= 3
  {
    if q: nat :| SplitsAt(name, q) {
      assert q == p;
    }
    if p < |name| {
      var base, ext := name[..p], name[p + 1..];
      assert forall i :: 0 <= i < |base| ==> base[i] == name[i];
      assert forall i :: 0 <= i < |ext| ==> ext[i] == name[p + 1 + i];
      assert IsPart(base, 8) <==> 1 <= p <= 8;
      assert IsPart(ext, 3) <==> 1 <= |ext| <= 3;
      assert SplitsAt(name, p) <==> IsPart(base, 8) && IsPart(ext, 3);
      assert name[p] == DOT && !IsPart(name, 8);
    }
  }

  /** One to n allowed characters without a dot. */
  predicate IsPart(s: seq<byte>, n: nat) {
    0 < |s| <= n && forall i :: 0 <= i < |s| ==> IsValidFatChar(s[i]) && s[i] != DOT
  }

  /** The grammar of short names: a base of up to 8 characters, or base, dot and extension. */
  ghost predicate IsShort(name: seq<byte>) {
    IsPart(name, 8) || exists p: nat :: SplitsAt(name, p)
  }

  /** name is a base, a dot at position p, and an extension. */
  predicate SplitsAt(name: seq<byte>, p: nat) {
    p < |name| && name[p] == DOT && IsPart(name[..p], 8) && IsPart(name[p + 1..], 3)
  }

  /** `IsShortName`, for a C string without its terminating NUL. */
  method IsShortName(name: seq<byte>) returns (r: bool)
    ensures r <==> IsShort(name)
  {
    var len := |name|;
    if len == 0 || len > 12 {
      TooLong(name);
      return false;
    }
    var dotPos := -1;
    var i := 0;
    while i < len
      invariant 0 <= i <= len && -1 <= dotPos < i
      invariant forall j :: 0 <= j < i ==> IsValidFatChar(name[j])
      invariant forall j :: 0 <= j < i ==> (name[j] == DOT <==> j == dotPos)
    {
      if !IsValidFatChar(name[i]) {
        BadChar(name, i);
        return false;
      }
      if name[i] == DOT {
        if dotPos >= 0 {
          TwoDots(name, dotPos, i);
          return false;
        }
        dotPos := i;
      }
      i := i + 1;
    }
    if dotPos < 0 {
      NoDot(name);
      return len <= 8;
    }
    if dotPos == 0 || dotPos == len - 1 {
      OneDot(name, dotPos);
      return false;
    }
    OneDot(name, dotPos);
    if dotPos > 8 || len - dotPos > 4 {
      return false;
    }
    assert SplitsAt(name, dotPos);
    return true;
  }

  lemma TooLong(name: seq<byte>)
    requires |name| == 0 || |name| > 12
    ensures !IsShort(name)
  {
    forall p: nat | p < |name| ensures !SplitsAt(name, p) { assert |name| == p + 1 + |name[p + 1..]|; }
  }

  lemma BadChar(name: seq<byte>, i: nat)
    requires i < |name| && !IsValidFatChar(name[i])
    ensures !IsShort(name)
  {
    forall p: nat | p < |name| ensures !SplitsAt(name, p) {
      if i < p { assert name[..p][i] == name[i]; }
      if i > p { assert name[p + 1..][i - p - 1] == name[i]; }
    }
  }

  lemma TwoDots(name: seq<byte>, a: nat, b: nat)
    requires a < b < |name| && name[a] == DOT && name[b] == DOT
    ensures !IsShort(name)
  {
    forall p: nat | p < |name| ensures !SplitsAt(name, p) {
      if a < p { assert name[..p][a] == DOT; }
      if p < b { assert name[p + 1..][b - p - 1] == DOT; }
    }
  }

  lemma NoDot(name: seq<byte>)
    requires forall i :: 0 <= i < |name| ==> name[i] != DOT
    ensures IsShort(name) <==> IsPart(name, 8)
  {
  }

  lemma OneDot(name: seq<byte>, p: nat)
    requires p < |name| && forall i :: 0 <= i < |name| ==> (name[i] == DOT <==> i == p)
    ensures IsShort(name) <==> SplitsAt(name, p)
  {
    assert name[p] == DOT;
  }

  // ------------------------------------------------------------ padded fields

  function Spaces(n: nat): (s: seq<byte>)
    ensures |s| == n
  {
    seq(n, _ => SPACE)
  }

  /** `FixedLengthString::Set`: cut or padded to n characters. */
  function Pad(s: seq<byte>, n: nat): (r: seq<byte>)
    ensures |r| == n
  {
    if |s| >= n then s[..n] else s + Spaces(n - |s|)
  }

  method SetField(value: seq<byte>, n: nat) returns (raw: seq<byte>)
    ensures raw == Pad(value, n)
  {
    raw := [];
    var i := 0;
    while i < n && i < |value|
      invariant 0 <= i <= n && i <= |value| && raw == value[..i]
    {
      raw := raw + [value[i]];
      i := i + 1;
    }
    ghost var k := i;
    while i < n
      invariant k <= i <= n && |raw| == i && raw[..k] == value[..k]
      invariant forall j :: k <= j < i ==> raw[j] == SPACE
    {
      raw := raw + [SPACE];
      i := i + 1;
    }
    assert raw == Pad(value, n) by {
      if k < n {
        assert k == |value|;
        assert raw == value + raw[k..];
        assert raw[k..] == Spaces(n - k);
      }
    }
  }

  /** Without the spaces at the end. */
  function TrimEnd(s: seq<byte>): (r: seq<byte>)
    ensures r <= s
    ensures r == [] || r[|r| - 1] != SPACE
    ensures forall i :: |r| <= i < |s| ==> s[i] == SPACE
  {
    if s != [] && s[|s| - 1] == SPACE then TrimEnd(s[..|s| - 1]) else s
  }

  /** The only prefix that ends in no space and leaves nothing but spaces behind. */
  lemma TrimEndUnique(s: seq<byte>, r: seq<byte>)
    requires r <= s && (r == [] || r[|r| - 1] != SPACE) && forall i :: |r| <= i < |s| ==> s[i] == SPACE
    ensures TrimEnd(s) == r
  {
    var t := TrimEnd(s);
    assert r != [] ==> s[|r| - 1] == r[|r| - 1];
    assert t != [] ==> s[|t| - 1] == t[|t| - 1];
  }

  lemma TrimPad(s: seq<byte>, n: nat)
    requires |s| <= n
    ensures TrimEnd(Pad(s, n)) == TrimEnd(s)
  {
    var t := TrimEnd(s);
    assert forall i :: |s| <= i < n ==> Pad(s, n)[i] == SPACE;
    TrimEndUnique(Pad(s, n), t);
  }

  /** The position of the first dot, or the length. */
  function FindDot(name: seq<byte>): (p: nat)
    ensures p <= |name| && (p < |name| ==> name[p] == DOT)
    ensures forall i :: 0 <= i < p ==> name[i] != DOT
  {
    if name == [] then 0 else if name[0] == DOT then 0 else 1 + FindDot(name[1..])
  }

  /** How `AppendDirectoryEntry` stores a name: split at the first dot, both parts padded. */
  function EncodeName(name: seq<byte>): (r: seq<byte>)
    ensures |r| == 11
  {
    var p := FindDot(name);
    if p == |name| then Pad(name, 8) + Spaces(3) else Pad(name[..p], 8) + Pad(name[p + 1..], 3)
  }

  /** `NameToString` on the eleven bytes; None where it returns false. */
  function DecodeName(field: seq<byte>): Option<seq<byte>>
    requires |field| == 11
  {
    if field[0] == SPACE then None
    else if field[8] != SPACE then Some(TrimEnd(TrimEnd(field[..8]) + [DOT] + field[8..]))
    else Some(TrimEnd(field[..8]))
  }

  /** How many bytes of its buffer `NameToString` writes, with the NUL at the end. */
  function BufferUse(field: seq<byte>): (n: nat)
    requires |field| == 11
  {
    match DecodeName(field)
    case None => 0
    case Some(name) =>
      var base := |TrimEnd(field[..8])|;
      var copied := if field[8] == SPACE || base < 4 then 8 else base + 4;
      if |name| < copied then copied else |name| + 1
  }

  /** Thirteen bytes are always enough; a buffer of twelve is too small exactly for a name of eight
      and three characters, whose NUL is then written behind it. */
  lemma NameBuffer(field: seq<byte>)
    requires |field| == 11
    ensures BufferUse(field) <= 13
    ensures DecodeName(field).Some? ==>
      && |DecodeName(field).value| < BufferUse(field)
      && (BufferUse(field) <= 12 <==> field[7] == SPACE || field[8] == SPACE || field[10] == SPACE)
      && (BufferUse(field) <= 12 <==> |DecodeName(field).value| + 1 <= 12)
  {
    if DecodeName(field).Some? {
      var base := TrimEnd(field[..8]);
      var all := base + [DOT] + field[8..];
      assert |base| == 8 <==> field[7] != SPACE by {
        assert |base| == 8 ==> base[7] == field[7];
      }
      assert |TrimEnd(all)| == |all| <==> field[10] != SPACE by {
        assert all[|all| - 1] == field[10];
        TrimWhole(all);
      }
    }
  }

  /** The character loops of `NameToString`: the buffer first holds the base, then the dot and the
      extension, and spaces at the end are cut off by moving back. */
  method NameToString(field: seq<byte>, buffer: array<byte>) returns (ok: bool)
    requires |field| == 11 && BufferUse(field) <= buffer.Length
    modifies buffer
    ensures ok <==> DecodeName(field).Some?
    ensures !ok ==> buffer[..] == old(buffer[..])
    ensures ok ==> InBuffer(buffer[..], DecodeName(field).value)
    ensures SameFrom(old(buffer[..]), buffer[..], BufferUse(field))
  {
    if field[0] == SPACE {
      return false;
    }
    NameBuffer(field);
    ghost var was, n := buffer[..], BufferUse(field);
    var idx := CopyBase(field[..8], buffer);
    SameLater(was, was, buffer[..], 8, n);
    if field[8] != SPACE {
      ghost var mid := buffer[..];
      idx := AddExtension(field[8..], buffer, idx);
      SameLater(was, mid, buffer[..], |TrimEnd(field[..8])| + 4, n);
    }
    ghost var last := buffer[..];
    EndName(buffer, idx);
    SameLater(was, last, buffer[..], idx + 1, n);
    return true;
  }

  /** From n on both are the same. */
  ghost predicate SameFrom(a: seq<byte>, b: seq<byte>, n: nat) {
    |a| == |b| && forall i :: n <= i < |a| ==> b[i] == a[i]
  }

  lemma SameLater(a: seq<byte>, b: seq<byte>, c: seq<byte>, k: nat, n: nat)
    requires SameFrom(a, b, n) && SameFrom(b, c, k) && k <= n
    ensures SameFrom(a, c, n)
  {
  }

  method CopyBase(base: seq<byte>, buffer: array<byte>) returns (idx: nat)
    requires |base| <= buffer.Length
    modifies buffer
    ensures idx <= |base| && buffer[..idx] == TrimEnd(base) && SameFrom(old(buffer[..]), buffer[..], |base|)
  {
    CopyTo(base, buffer, 0);
    assert [] + base == base;
    assert buffer[..|base|] == base;
    idx := TrimBuffer(buffer, |base|);
  }

  method EndName(buffer: array<byte>, idx: nat)
    requires idx < buffer.Length
    modifies buffer
    ensures InBuffer(buffer[..], old(buffer[..idx])) && SameFrom(old(buffer[..]), buffer[..], idx + 1)
  {
    ghost var name := buffer[..idx];
    buffer[idx] := 0;
    assert buffer[..][..idx] == name;
  }

  /** Appends the dot and the extension to the idx characters in the buffer. */
  method AddExtension(ext: seq<byte>, buffer: array<byte>, idx: nat) returns (end: nat)
    requires idx + 1 + |ext| <= buffer.Length
    modifies buffer
    ensures end <= idx + 1 + |ext| && buffer[..end] == TrimEnd(old(buffer[..idx]) + [DOT] + ext)
    ensures SameFrom(old(buffer[..]), buffer[..], idx + 1 + |ext|)
  {
    ghost var dotted, all := buffer[..idx] + [DOT], buffer[..idx] + [DOT] + ext;
    var n := idx + 1 + |ext|;
    buffer[idx] := DOT;
    ghost var mid := buffer[..];
    assert buffer[..idx + 1] == dotted;
    CopyTo(ext, buffer, idx + 1);
    assert buffer[..n] == all;
    SameLater(mid, mid, buffer[..], n, n);
    end := TrimBuffer(buffer, n);
  }

  /** The buffer starts with the name and a NUL. */
  predicate InBuffer(buffer: seq<byte>, name: seq<byte>) {
    |name| < |buffer| && buffer[..|name|] == name && buffer[|name|] == 0
  }

  method CopyTo(s: seq<byte>, buffer: array<byte>, at: nat)
    requires at + |s| <= buffer.Length
    modifies buffer
    ensures buffer[..at + |s|] == old(buffer[..at]) + s && SameFrom(old(buffer[..]), buffer[..], at + |s|)
  {
    var i := 0;
    while i < |s|
      invariant 0 <= i <= |s| && buffer[..at + i] == old(buffer[..at]) + s[..i]
      invariant SameFrom(old(buffer[..]), buffer[..], at + i)
    {
      buffer[at + i] := s[i];
      i := i + 1;
    }
  }

  /** Moves back over the spaces in front of `from`. */
  method TrimBuffer(buffer: array<byte>, from: nat) returns (idx: nat)
    requires from <= buffer.Length
    ensures idx <= from && buffer[..idx] == TrimEnd(buffer[..from])
  {
    idx := from;
    while idx > 0 && buffer[idx - 1] == SPACE
      invariant 0 <= idx <= from && TrimEnd(buffer[..idx]) == TrimEnd(buffer[..from])
    {
      assert buffer[..idx][..idx - 1] == buffer[..idx - 1];
      idx := idx - 1;
    }
  }

  predicate NoOuterSpace(s: seq<byte>) {
    s != [] ==> s[0] != SPACE && s[|s| - 1] != SPACE
  }

  /** Neither part of the name starts or ends with a space. */
  predicate Survives(name: seq<byte>) {
    var p := FindDot(name);
    NoOuterSpace(name[..p]) && (p < |name| ==> NoOuterSpace(name[p + 1..]))
  }

  lemma TrimWhole(s: seq<byte>)
    requires s != []
    ensures TrimEnd(s) == s <==> s[|s| - 1] != SPACE
  {
  }

  /** A short name comes back from the padded form exactly when no part has an outer space. */
  lemma NameRoundTrip(name: seq<byte>)
    requires IsShort(name)
    ensures DecodeName(EncodeName(name)) == Some(name) <==> Survives(name)
  {
    var p := FindDot(name);
    if p == |name| {
      PlainRoundTrip(name);
    } else {
      OneDotOf(name, p);
      SplitRoundTrip(name, p);
    }
  }

  lemma OneDotOf(name: seq<byte>, p: nat)
    requires IsShort(name) && p == FindDot(name) < |name|
    ensures SplitsAt(name, p)
  {
    assert name[p] == DOT;
    var q: nat :| SplitsAt(name, q);
    SplitDots(name, q, p);
  }

  /** The dot between base and extension is the only one. */
  lemma SplitDots(name: seq<byte>, q: nat, i: nat)
    requires SplitsAt(name, q) && i < |name| && name[i] == DOT
    ensures i == q
  {
  }

  lemma PlainRoundTrip(name: seq<byte>)
    requires FindDot(name) == |name| && 0 < |name| <= 8
    ensures DecodeName(EncodeName(name)) == Some(name) <==> Survives(name)
  {
    var f := EncodeName(name);
    assert f[..8] == Pad(name, 8) && f[8] == SPACE && f[0] == name[0];
    TrimPad(name, 8);
    TrimWhole(name);
    assert name[..|name|] == name;
  }

  lemma SplitRoundTrip(name: seq<byte>, p: nat)
    requires p == FindDot(name) && SplitsAt(name, p)
    ensures DecodeName(EncodeName(name)) == Some(name) <==> Survives(name)
  {
    var a, b := name[..p], name[p + 1..];
    assert name == a + [DOT] + b;
    DecodeSplit(a, b);
    TrimWhole(a);
    TrimWhole(b);
    if TrimEnd(a) + [DOT] + TrimEnd(b) == name {
      SameSplit(TrimEnd(a), TrimEnd(b), a, b);
    }
  }

  lemma DecodeSplit(a: seq<byte>, b: seq<byte>)
    requires 0 < |a| <= 8 && 0 < |b| <= 3
    ensures DecodeName(Pad(a, 8) + Pad(b, 3)) ==
      if a[0] == SPACE then None
      else if b[0] == SPACE then Some(TrimEnd(a))
      else Some(TrimEnd(a) + [DOT] + TrimEnd(b))
  {
    var f := Pad(a, 8) + Pad(b, 3);
    assert f[..8] == Pad(a, 8) && f[8..] == Pad(b, 3) && f[0] == a[0] && f[8] == b[0];
    TrimPad(a, 8);
    if b[0] != SPACE { JoinTrim(TrimEnd(a), b); }
  }

  /** Trimming behind the dot trims the extension only. */
  lemma JoinTrim(t: seq<byte>, b: seq<byte>)
    requires 0 < |b| <= 3 && b[0] != SPACE
    ensures TrimEnd(t + [DOT] + Pad(b, 3)) == t + [DOT] + TrimEnd(b)
  {
    TrimPad(b, 3);
    var e := TrimEnd(b);
    assert e != [];
    var s, r := t + [DOT] + Pad(b, 3), t + [DOT] + e;
    assert forall i :: |r| <= i < |s| ==> s[i] == Pad(b, 3)[i - |t| - 1];
    TrimEndUnique(s, r);
  }

  lemma SameSplit(t: seq<byte>, e: seq<byte>, a: seq<byte>, b: seq<byte>)
    requires t + [DOT] + e == a + [DOT] + b && t <= a && e <= b
    ensures t == a && e == b
  {
    assert |t| + |e| == |a| + |b|;
  }

  /** Different surviving names have different padded forms. */
  lemma EncodingInjective(x: seq<byte>, y: seq<byte>)
    requires IsShort(x) && Survives(x) && IsShort(y) && Survives(y) && EncodeName(x) == EncodeName(y)
    ensures x == y
  {
    NameRoundTrip(x);
    NameRoundTrip(y);
  }
}
