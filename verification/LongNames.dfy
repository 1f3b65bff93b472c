/** Long names as other systems store them, and what fatedit's scan makes of them: the checksum that
    ties the parts to their short record, and the text they carry. */
module LongNames {
  import opened Bytes
  import opened ShortName
  import opened Dirent

  // ------------------------------------------------------------ the checksum

  /** The eight bits of x, rotated right by one place. */
  function RotatedOnce(x: byte): byte { x / 2 + x % 2 * 128 }

  /** By n places. */
  function Rotated(x: byte, n: nat): byte { if n == 0 then x else RotatedOnce(Rotated(x, n - 1)) }

  lemma By2(x: byte)
    ensures RotatedOnce(x / 2 + x % 2 * 128) == x / 4 + x % 4 * 64
  {
    var a, b, c := x / 4, x / 2 % 2, x % 2;
    assert x == 4 * a + 2 * b + c;
  }

  lemma By4(x: byte)
    ensures RotatedOnce(x / 4 + x % 4 * 64) == x / 8 + x % 8 * 32
  {
    var a, b, c := x / 8, x / 4 % 2, x % 4;
    assert x == 8 * a + 4 * b + c;
  }

  lemma By8(x: byte)
    ensures RotatedOnce(x / 8 + x % 8 * 32) == x / 16 + x % 16 * 16
  {
    var a, b, c := x / 16, x / 8 % 2, x % 8;
    assert x == 16 * a + 8 * b + c;
  }

  lemma By16(x: byte)
    ensures RotatedOnce(x / 16 + x % 16 * 16) == x / 32 + x % 32 * 8
  {
    var a, b, c := x / 32, x / 16 % 2, x % 16;
    assert x == 32 * a + 16 * b + c;
  }

  lemma By32(x: byte)
    ensures RotatedOnce(x / 32 + x % 32 * 8) == x / 64 + x % 64 * 4
  {
    var a, b, c := x / 64, x / 32 % 2, x % 32;
    assert x == 64 * a + 32 * b + c;
  }

  lemma By64(x: byte)
    ensures RotatedOnce(x / 64 + x % 64 * 4) == x / 128 + x % 128 * 2
  {
    var a, b, c := x / 128, x / 64 % 2, x % 64;
    assert x == 128 * a + 64 * b + c;
  }

  lemma By128(x: byte)
    ensures RotatedOnce(x / 128 + x % 128 * 2) == x
  {
  }

  lemma RotatedLow(x: byte)
    ensures Rotated(x, 1) == x / 2 + x % 2 * 128 && Rotated(x, 2) == x / 4 + x % 4 * 64 && Rotated(x, 3) == x / 8 + x % 8 * 32
  {
    assert Rotated(x, 1) == RotatedOnce(x) && Rotated(x, 2) == RotatedOnce(Rotated(x, 1));
    By2(x);
    By4(x);
  }

  lemma RotatedMiddle(x: byte)
    ensures Rotated(x, 4) == x / 16 + x % 16 * 16 && Rotated(x, 5) == x / 32 + x % 32 * 8
  {
    RotatedLow(x);
    assert Rotated(x, 4) == RotatedOnce(Rotated(x, 3)) && Rotated(x, 5) == RotatedOnce(Rotated(x, 4));
    By8(x);
    By16(x);
  }

  lemma RotatedSix(x: byte)
    ensures Rotated(x, 6) == x / 64 + x % 64 * 4
  {
    RotatedMiddle(x);
    assert Rotated(x, 6) == RotatedOnce(Rotated(x, 5));
    By32(x);
  }

  lemma RotatedSeven(x: byte)
    ensures Rotated(x, 7) == x / 128 + x % 128 * 2
  {
    RotatedSix(x);
    assert Rotated(x, 7) == RotatedOnce(Rotated(x, 6));
    By64(x);
  }

  lemma RotatedEight(x: byte)
    ensures Rotated(x, 8) == x
  {
    RotatedSeven(x);
    assert Rotated(x, 8) == RotatedOnce(Rotated(x, 7));
    By128(x);
  }

  function Pow2(k: nat): (p: nat)
    ensures 0 < p
  {
    if k == 0 then 1 else 2 * Pow2(k - 1)
  }

  lemma Pow2Table()
    ensures Pow2(0) == 1 && Pow2(1) == 2 && Pow2(2) == 4 && Pow2(3) == 8 && Pow2(4) == 16
    ensures Pow2(5) == 32 && Pow2(6) == 64 && Pow2(7) == 128 && Pow2(8) == 256
  {
    assert Pow2(4) == 2 * Pow2(3);
    assert Pow2(8) == 2 * Pow2(7);
  }

  /** Rotating by k < 8 places moves the k lowest bits to the top. */
  lemma RotatedIs(x: byte, k: nat)
    requires k < 8
    ensures Rotated(x, k) == x / Pow2(k) + x % Pow2(k) * Pow2(8 - k)
  {
    Pow2Table();
    Moved(x, k, Pow2(k), Pow2(8 - k));
  }

  lemma Moved(x: byte, k: nat, p: nat, q: nat)
    requires 0 < p
    requires (k == 0 && p == 1 && q == 256) || (k == 1 && p == 2 && q == 128) || (k == 2 && p == 4 && q == 64)
             || (k == 3 && p == 8 && q == 32) || (k == 4 && p == 16 && q == 16) || (k == 5 && p == 32 && q == 8)
             || (k == 6 && p == 64 && q == 4) || (k == 7 && p == 128 && q == 2)
    ensures Rotated(x, k) == x / p + x % p * q
  {
    if k == 0 {
      assert x / 1 + x % 1 * 256 == x;
    } else if k <= 3 {
      MovedLow(x, k, p, q);
    } else if k <= 5 {
      MovedMiddle(x, k, p, q);
    } else {
      MovedHigh(x, k, p, q);
    }
  }

  lemma MovedLow(x: byte, k: nat, p: nat, q: nat)
    requires (k == 1 && p == 2 && q == 128) || (k == 2 && p == 4 && q == 64) || (k == 3 && p == 8 && q == 32)
    ensures Rotated(x, k) == x / p + x % p * q
  {
    RotatedLow(x);
  }

  lemma MovedMiddle(x: byte, k: nat, p: nat, q: nat)
    requires (k == 4 && p == 16 && q == 16) || (k == 5 && p == 32 && q == 8)
    ensures Rotated(x, k) == x / p + x % p * q
  {
    RotatedMiddle(x);
  }

  lemma MovedHigh(x: byte, k: nat, p: nat, q: nat)
    requires (k == 6 && p == 64 && q == 4) || (k == 7 && p == 128 && q == 2)
    ensures Rotated(x, k) == x / p + x % p * q
  {
    RotatedSix(x);
    RotatedSeven(x);
  }

  lemma {:induction false} RotatedTwice(x: byte, n: nat, m: nat)
    ensures Rotated(Rotated(x, n), m) == Rotated(x, n + m)
  {
    if m > 0 { RotatedTwice(x, n, m - 1); }
  }

  /** After eight places the bits are back. */
  lemma {:induction false} RotatedPeriod(x: byte, n: nat)
    ensures Rotated(x, n) == Rotated(x, n % 8)
    decreases n
  {
    if 8 <= n {
      RotatedEight(x);
      RotatedTwice(x, 8, n - 8);
      RotatedPeriod(x, n - 8);
      LessEight(n);
    } else {
      LessEight(n);
    }
  }

  lemma LessEight(n: nat)
    ensures if n < 8 then n % 8 == n else n % 8 == (n - 8) % 8
  {
  }

  lemma LastAdded(s: seq<byte>, c: byte)
    ensures SumOf(s + [c]) == (RotatedOnce(SumOf(s)) + c) % 0x100
  {
    assert (s + [c])[..|s|] == s;
  }

  /** A NUL rotates the sum by one place. */
  lemma NulRotates(s: seq<byte>)
    ensures SumOf(s + [0]) == RotatedOnce(SumOf(s))
  {
    LastAdded(s, 0);
    Unchanged(RotatedOnce(SumOf(s)));
  }

  lemma Unchanged(x: byte)
    ensures (x + 0) % 0x100 == x
  {
  }

  /** Any other byte is added to that. */
  lemma SumAdds(s: seq<byte>, c: byte)
    ensures SumOf(s + [c]) == (SumOf(s + [0]) + c) % 0x100
  {
    var sum := SumOf(s);
    LastAdded(s, c);
    NulRotates(s);
  }

  /** Behind n NULs the sum is rotated by n places. */
  lemma {:induction false} SumRotates(s: seq<byte>, n: nat)
    ensures SumOf(s + Zeros(n)) == Rotated(SumOf(s), n)
  {
    if n == 0 {
      assert s + Zeros(0) == s;
    } else {
      SumRotates(s, n - 1);
      var t := s + Zeros(n - 1);
      assert s + Zeros(n) == t + [0];
      NulRotates(t);
    }
  }

  /** The checksum of a name whose only other byte than NUL is c, at place i: c, rotated right by
      one place for each byte behind it. */
  lemma OneByteSum(name: seq<byte>, i: nat, c: byte)
    requires |name| == 11 && i < 11 && name[i] == c && forall j :: 0 <= j < 11 && j != i ==> name[j] == 0
    ensures
      var k := (10 - i) % 8;
      SumOf(name) == c / Pow2(k) + c % Pow2(k) * Pow2(8 - k)
  {
    OneByteRotated(name, i, c);
    RotatedPeriod(c, 10 - i);
    RotatedIs(c, (10 - i) % 8);
  }

  lemma OneByteRotated(name: seq<byte>, i: nat, c: byte)
    requires |name| == 11 && i < 11 && name[i] == c && forall j :: 0 <= j < 11 && j != i ==> name[j] == 0
    ensures SumOf(name) == Rotated(c, 10 - i)
  {
    var head := Zeros(i) + [c];
    OnlyLast(i, c);
    SumRotates(head, 10 - i);
    assert name == head + Zeros(10 - i);
  }

  lemma OnlyLast(n: nat, c: byte)
    ensures SumOf(Zeros(n) + [c]) == c
  {
    ZerosSum(n + 1);
    assert Zeros(n) + [0] == Zeros(n + 1);
    SumAdds(Zeros(n), c);
  }

  lemma {:induction false} ZerosSum(n: nat)
    ensures SumOf(Zeros(n)) == 0
  {
    if n > 0 {
      ZerosSum(n - 1);
      assert Zeros(n) == Zeros(n - 1) + [0];
      NulRotates(Zeros(n - 1));
    }
  }

  /** The checksum of one more byte. */
  lemma SumStep(name: seq<byte>, i: nat)
    requires i < |name|
    ensures SumOf(name[..i + 1]) == (RotatedOnce(SumOf(name[..i])) + name[i]) % 0x100
  {
    assert name[..i + 1] == name[..i] + [name[i]];
    LastAdded(name[..i], name[i]);
  }

  /** The padded form of README.TXT. */
  const README_FIELD: seq<byte> := [0x52, 0x45, 0x41, 0x44, 0x4D, 0x45, 0x20, 0x20, 0x54, 0x58, 0x54]

  /** The first i bytes have this checksum; taken apart only where `Open` is mentioned. */
  ghost predicate SumIs(name: seq<byte>, i: nat, x: byte) {
    forall u: int {:trigger Open(u)} :: Open(u) && i <= |name| && SumOf(name[..i]) == x
  }

  lemma SumNext(name: seq<byte>, i: nat, x: byte, c: byte, y: byte)
    requires SumIs(name, i, x) && i < |name| && name[i] == c && y == (x / 2 + x % 2 * 128 + c) % 0x100
    ensures SumIs(name, i + 1, y)
  {
    assert Open(0);
    SumStep(name, i);
  }

  lemma NoSum(name: seq<byte>)
    ensures SumIs(name, 0, 0)
  {
    assert name[..0] == [];
  }

  lemma ReadmeSum()
    ensures SumOf(README_FIELD) == 0x73
  {
    var f := README_FIELD;
    NoSum(f);
    SumNext(f, 0, 0x00, 0x52, 0x52);
    SumNext(f, 1, 0x52, 0x45, 0x6E);
    SumNext(f, 2, 0x6E, 0x41, 0x78);
    SumNext(f, 3, 0x78, 0x44, 0x80);
    SumNext(f, 4, 0x80, 0x4D, 0x8D);
    SumNext(f, 5, 0x8D, 0x45, 0x0B);
    SumNext(f, 6, 0x0B, 0x20, 0xA5);
    SumNext(f, 7, 0xA5, 0x20, 0xF2);
    SumNext(f, 8, 0xF2, 0x54, 0xCD);
    SumNext(f, 9, 0xCD, 0x58, 0x3E);
    SumNext(f, 10, 0x3E, 0x54, 0x73);
    assert Open(0);
    assert f[..11] == f;
  }

  // ------------------------------------------------------------ the parts

  /** Characters of two bytes each. */
  function Units(s: seq<u16>): (r: seq<byte>)
    ensures |r| == 2 * |s|
  {
    if s == [] then [] else Encode16(s[0]) + Units(s[1..])
  }

  lemma {:induction false} UnitAt(s: seq<u16>, i: nat)
    requires i < |s|
    ensures Word16(Units(s)[2 * i], Units(s)[2 * i + 1]) == s[i]
  {
    if i == 0 {
      Encode16RoundTrip(s[0]);
    } else {
      UnitAt(s[1..], i - 1);
    }
  }

  /** The text of a part, filled up with a NUL and 0xFFFF. */
  function Filled(t: seq<u16>): (cs: seq<u16>)
    requires |t| <= 13
    ensures |cs| == 13
  {
    if |t| == 13 then t else t + [0] + seq(12 - |t|, _ => 0xFFFF)
  }

  /** A part of a long name: its number, in the last part with the bit 0x40, five characters, the
      flags 0x0F, a zero, the checksum of the short name, six characters, two zeros and two
      characters. */
  function MakePart(number: nat, last: bool, sum: byte, cs: seq<u16>): Record
    requires 1 <= number < 64 && |cs| == 13
  {
    [number + if last then 0x40 else 0] + Units(cs[..5]) + [0x0F, 0, sum] + Units(cs[5..11]) + [0, 0] + Units(cs[11..])
  }

  lemma PartFields(number: nat, last: bool, sum: byte, cs: seq<u16>)
    requires 1 <= number < 64 && |cs| == 13
    ensures
      var e := MakePart(number, last, sum, cs);
      && IsLong(e) && !IsLast(e) && !IsDummy(e) && PartSum(e) == sum
      && Sequence(e) == number && (IsFinalPart(e) <==> last)
  {
    var e := MakePart(number, last, sum, cs);
    assert e[0] == number + if last then 0x40 else 0;
    assert e[11] == 0x0F && e[13] == sum;
  }

  /** What the scan makes of a character: printable ASCII stays. */
  function Shown(c: u16): byte { if c == 0 || 0x20 <= c <= 0x7E then c else 0x3F }

  function ShownAll(t: seq<u16>): (s: seq<byte>)
    ensures |s| == |t|
  {
    seq(|t|, i requires 0 <= i < |t| => Shown(t[i]))
  }

  /** Where character i of a part lies. */
  function CharPlace(i: nat): nat
    requires i < 13
  {
    if i < 5 then 1 + 2 * i else if i < 11 then 14 + 2 * (i - 5) else 28 + 2 * (i - 11)
  }

  lemma PartCharAt(number: nat, last: bool, sum: byte, cs: seq<u16>, i: nat)
    requires 1 <= number < 64 && |cs| == 13 && i < 13
    ensures PartChar(MakePart(number, last, sum, cs), CharPlace(i)) == Shown(cs[i])
  {
    var e, p := MakePart(number, last, sum, cs), CharPlace(i);
    if i < 5 {
      UnitAt(cs[..5], i);
      assert e[p] == Units(cs[..5])[2 * i] && e[p + 1] == Units(cs[..5])[2 * i + 1];
    } else if i < 11 {
      UnitAt(cs[5..11], i - 5);
      assert e[p] == Units(cs[5..11])[2 * (i - 5)] && e[p + 1] == Units(cs[5..11])[2 * (i - 5) + 1];
    } else {
      UnitAt(cs[11..], i - 11);
      assert e[p] == Units(cs[11..])[2 * (i - 11)] && e[p + 1] == Units(cs[11..])[2 * (i - 11) + 1];
    }
  }

  lemma PartTextIs(number: nat, last: bool, sum: byte, t: seq<u16>)
    requires 1 <= number < 64 && |t| <= 13 && 0 !in t
    ensures PartText(MakePart(number, last, sum, Filled(t))) == ShownAll(t)
  {
    var cs := Filled(t);
    forall i | 0 <= i < 13 ensures PartChar(MakePart(number, last, sum, cs), CharPlace(i)) == Shown(cs[i]) {
      PartCharAt(number, last, sum, cs, i);
    }
    TextIs(MakePart(number, last, sum, cs), cs);
    FilledText(t);
  }

  lemma TextIs(e: Record, cs: seq<u16>)
    requires |cs| == 13 && forall i :: 0 <= i < 13 ==> PartChar(e, CharPlace(i)) == Shown(cs[i])
    ensures PartText(e) == CString(ShownAll(cs))
  {
    forall i | 0 <= i < 13 ensures PartChars(e)[i] == ShownAll(cs)[i] { CharsAt(e, i); }
    assert PartChars(e) == ShownAll(cs);
  }

  lemma CharsAt(e: Record, i: nat)
    requires i < 13
    ensures PartChars(e)[i] == PartChar(e, CharPlace(i))
  {
  }

  lemma FilledText(t: seq<u16>)
    requires |t| <= 13 && 0 !in t
    ensures CString(ShownAll(Filled(t))) == ShownAll(t)
  {
    var s := ShownAll(Filled(t));
    assert forall i :: 0 <= i < |t| ==> s[i] == Shown(t[i]) && t[i] in t;
    CStringIs(s, |t|);
    assert s[..|t|] == ShownAll(t);
  }

  // ------------------------------------------------------------ a whole name

  /** The parts of a name from number k on, the last part first. */
  function LongRecords(t: seq<u16>, sum: byte, k: nat): seq<Record>
    requires t != [] && 1 <= k < 64 && |t| <= 13 * (64 - k)
    decreases |t|
  {
    if |t| <= 13 then [MakePart(k, true, sum, Filled(t))]
    else LongRecords(t[13..], sum, k + 1) + [MakePart(k, false, sum, Filled(t[..13]))]
  }

  lemma {:induction false} PartsInPlace(t: seq<u16>, sum: byte, k: nat)
    requires t != [] && 1 <= k < 64 && |t| <= 13 * (64 - k)
    ensures
      var rs := LongRecords(t, sum, k);
      && 1 <= |rs| && k + |rs| <= 64 && IsFinalPart(rs[0])
      && (forall i :: 0 <= i < |rs| ==> IsLong(rs[i]) && !IsLast(rs[i]) && !IsDummy(rs[i]) && PartSum(rs[i]) == sum)
      && (forall i :: 0 <= i < |rs| ==> Sequence(rs[i]) == k + |rs| - 1 - i)
      && (forall i :: 1 <= i < |rs| ==> !IsFinalPart(rs[i]))
    decreases |t|
  {
    if |t| <= 13 {
      PartFields(k, true, sum, Filled(t));
    } else {
      PartsInPlace(t[13..], sum, k + 1);
      PartFields(k, false, sum, Filled(t[..13]));
    }
  }

  lemma ShownConcat(a: seq<u16>, b: seq<u16>)
    ensures ShownAll(a + b) == ShownAll(a) + ShownAll(b)
  {
  }

  /** Joined, the texts of the parts are the name. */
  lemma {:induction false} PartsText(t: seq<u16>, sum: byte, k: nat)
    requires t != [] && 1 <= k < 64 && |t| <= 13 * (64 - k) && 0 !in t
    ensures LongText(LongRecords(t, sum, k)) == Some(ShownAll(t))
    decreases |t|
  {
    if |t| <= 13 {
      PartTextIs(k, true, sum, t);
      OneText(MakePart(k, true, sum, Filled(t)));
    } else {
      var a, b := t[..13], t[13..];
      assert 0 !in a && 0 !in b;
      PartsText(b, sum, k + 1);
      var e, ps := MakePart(k, false, sum, Filled(a)), LongRecords(b, sum, k + 1);
      PartTextIs(k, false, sum, a);
      TextSnoc(ps, e);
      ShownConcat(a, b);
      assert a + b == t;
    }
  }

  lemma OneText(e: Record)
    requires PartText(e) != []
    ensures LongText([e]) == Some(PartText(e))
  {
    assert [e][1..] == [] && LongText([]) == Some([]);
    assert [] + PartText(e) == PartText(e);
  }

  lemma FirstPart(ps: seq<Record>, rest: seq<Record>)
    requires ps != [] && rest == ps[1..]
    ensures LongText(ps).Some? <==> LongText(rest).Some? && PartText(ps[0]) != []
    ensures LongText(ps).Some? ==> LongText(ps).value == LongText(rest).value + PartText(ps[0])
  {
  }

  /** A part with a lower number puts its text in front. */
  lemma {:induction false} TextSnoc(ps: seq<Record>, e: Record)
    requires PartText(e) != [] && LongText(ps).Some?
    ensures LongText(ps + [e]) == Some(PartText(e) + LongText(ps).value)
  {
    if ps == [] {
      OneText(e);
      assert [] + [e] == [e] && PartText(e) + [] == PartText(e);
    } else {
      TextSnoc(ps[1..], e);
      FirstPart(ps, ps[1..]);
      FirstPart(ps + [e], ps[1..] + [e]);
      ConcatAssoc(PartText(e), LongText(ps[1..]).value, PartText(ps[0]));
    }
  }

  /** Parts in order, and a short record behind them. */
  lemma GroupRound(rs: seq<Record>, n: nat, text: seq<byte>, name: seq<byte>)
    requires n < |rs| && LongParts(rs, n) && Sequence(rs[0]) == n && !IsDummy(rs[0])
    requires LongText(rs[..n]) == Some(text) && !IsLong(rs[n]) && NameOf(rs[n]) == Some(name)
    ensures Round(rs) ==
      if PartSum(rs[0]) == SumOf(rs[n][..11])
      then Listing([DirEntry(name, text, Size(rs[n]), ClusterIndex(rs[n]), IsDir(rs[n]))], n + 1)
      else Fail
  {
  }

  /** The round of the scan that reads the parts and the short record behind them: exactly the entry
      with the long name, if the parts carry the checksum of the short one, and else failure. */
  lemma LongGroupRound(t: seq<u16>, sum: byte, e: Record, rest: seq<Record>)
    requires t != [] && |t| <= 13 * 63 && 0 !in t && !IsLong(e) && NameOf(e).Some?
    ensures
      var ps := LongRecords(t, sum, 1);
      && !IsLast((ps + [e] + rest)[0])
      && Round(ps + [e] + rest) ==
         if sum == SumOf(e[..11])
         then Listing([DirEntry(NameOf(e).value, ShownAll(t), Size(e), ClusterIndex(e), IsDir(e))], |ps| + 1)
         else Fail
  {
    var ps := LongRecords(t, sum, 1);
    var n, rs := |ps|, ps + [e] + rest;
    PartsInPlace(t, sum, 1);
    PartsText(t, sum, 1);
    assert forall i :: 0 <= i < n ==> rs[i] == ps[i];
    assert rs[..n] == ps && rs[n] == e;
    GroupRound(rs, n, ShownAll(t), NameOf(e).value);
  }

  /** Only such a group is read: the round of the scan that starts with a part of a long name gives an
      entry only if all of this holds of the bytes. */
  lemma LongGroupOnly(rs: seq<Record>)
    requires rs != [] && rs[0][0] != 0xE5 && rs[0][11] % 16 == 15 && Round(rs).Listing?
    ensures
      var n: nat := rs[0][0] % 64;
      && 1 <= n < |rs| && Round(rs).used == n + 1 && rs[0][0] / 64 % 2 == 1 && rs[n][11] % 16 != 15
      && (forall i :: 0 <= i < n ==> rs[i][11] % 16 == 15 && rs[i][0] % 64 == n - i && rs[i][13] == SumOf(rs[n][..11]))
      && (forall i :: 1 <= i < n ==> rs[i][0] / 64 % 2 == 0)
      && LongText(rs[..n]).Some? && DecodeName(rs[n][..11]).Some?
  {
    var n: nat := rs[0][0] % 64;
    assert LongParts(rs, n);
    forall i | 1 <= i < n ensures rs[i][0] / 64 % 2 == 0 { assert !IsFinalPart(rs[i]); }
  }

  /** A deleted record is passed over. */
  lemma DeletedSkipped(rs: seq<Record>)
    requires rs != [] && rs[0][0] == 0xE5
    ensures Round(rs) == Listing([], 1)
  {
  }

  /** A single round. */
  lemma OnlyRound(round: seq<Record> -> Listing, rs: seq<Record>, n: nat)
    requires rs != [] && !IsLast(rs[0]) && n <= |rs| && (n == |rs| || IsLast(rs[n]))
    requires round(rs).Listing? ==> 1 <= round(rs).used == n
    ensures Rounds(round, rs, NO_ENTRIES) == round(rs)
  {
    if round(rs).Listing? {
      assert n < |rs| ==> rs[n..][0] == rs[n];
      assert [] + round(rs).entries == round(rs).entries;
    }
  }

  /** At the end of a directory: the scan lists exactly that entry, or fails. */
  lemma LongGroupListed(t: seq<u16>, sum: byte, e: Record, rest: seq<Record>)
    requires t != [] && |t| <= 13 * 63 && 0 !in t && !IsLong(e) && NameOf(e).Some?
    requires rest == [] || IsLast(rest[0])
    ensures
      var ps := LongRecords(t, sum, 1);
      Scan(ps + [e] + rest) ==
      if sum == SumOf(e[..11])
      then Listing([DirEntry(NameOf(e).value, ShownAll(t), Size(e), ClusterIndex(e), IsDir(e))], |ps| + 1)
      else Fail
  {
    var n := |LongRecords(t, sum, 1)|;
    var rs := LongRecords(t, sum, 1) + [e] + rest;
    LongGroupRound(t, sum, e, rest);
    assert n + 1 < |rs| ==> rs[n + 1] == rest[0];
    OnlyRound(Round, rs, n + 1);
  }

  /** The long name of README.TXT is listed if its parts carry 0x73, and makes the scan fail if they
      carry anything else. */
  lemma ReadmeListed(t: seq<u16>, sum: byte, e: Record)
    requires t != [] && |t| <= 13 * 63 && 0 !in t && !IsLong(e) && e[..11] == README_FIELD && NameOf(e).Some?
    ensures
      var found := Scan(LongRecords(t, sum, 1) + [e]);
      if sum == 0x73 then found.Listing? && |found.entries| == 1 && found.entries[0].longName == ShownAll(t) else found.Fail?
  {
    ReadmeSum();
    LongGroupListed(t, sum, e, []);
    assert LongRecords(t, sum, 1) + [e] + [] == LongRecords(t, sum, 1) + [e];
  }
}
