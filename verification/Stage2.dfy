/** The header of the stage 2 image, and the checksum that covers the whole image. */
module Stage2 {
  import opened Bytes
  import opened Arith

  const MAGIC: u32 := 0xD0D0_CACA
  const WORDS_PER_SECTOR := 128
  /** The words of the header: magic, checksum, sector count with boot drive, partition entry. */
  const HEADER_WORDS := 7

  /** The sum of the first n words, without cutting it to 32 bits. */
  function Sum(w: seq<u32>, n: nat): nat
    requires n <= |w|
  {
    if n == 0 then 0 else Sum(w, n - 1) + w[n - 1]
  }

  lemma {:induction false} SumUpdate(w: seq<u32>, n: nat, i: nat, v: u32)
    requires n <= |w| && i < |w|
    ensures Sum(w[i := v], n) == if i < n then Sum(w, n) - w[i] + v else Sum(w, n)
  {
    if n > 0 { SumUpdate(w, n - 1, i, v); }
  }

  /** The low half of the third word. */
  function SectorCount(w: seq<u32>): u16
    requires |w| >= HEADER_WORDS
  {
    w[2] % 0x1_0000
  }

  /** An image that holds all the sectors it counts. */
  ghost predicate Whole(w: seq<u32>) {
    |w| >= HEADER_WORDS && WORDS_PER_SECTOR * SectorCount(w) <= |w|
  }

  /** What `Verify` should decide. */
  ghost predicate Accepts(w: seq<u32>, maxSectors: nat)
    requires |w| >= HEADER_WORDS
  {
    && w[0] == 0xD0D0_CACA && 1 <= SectorCount(w) <= maxSectors && Whole(w)
    && w[1] != 0 && Sum(w, WORDS_PER_SECTOR * SectorCount(w)) % U32_LIMIT == 0
  }

  class Stage2Header {
    /** The memory from the header on. */
    var words: seq<u32>

    ghost predicate Valid()
      reads this
    {
      |words| >= HEADER_WORDS
    }

    constructor (words: seq<u32>)
      requires |words| >= HEADER_WORDS
      ensures this.words == words && Valid()
    {
      this.words := words;
    }

    /** Placement of a fresh header over the start of the image. */
    method Initialize()
      requires Valid()
      modifies this
      ensures Valid() && words == [MAGIC, 0, 0, 0, 0, 0, 0] + old(words)[HEADER_WORDS..]
    {
      words := [MAGIC, 0, 0, 0, 0, 0, 0] + words[HEADER_WORDS..];
    }

    /** Sectors for `size` bytes, in 16 bits. */
    method SetSectorCount(size: u32)
      requires Valid()
      modifies this
      ensures Valid() && words == old(words)[2 := words[2]]
      ensures words[2] / 0x1_0000 == old(words)[2] / 0x1_0000
      ensures SectorCount(words) == (size + 511) / 512 % 0x1_0000
    {
      RoundedUp(size);
      var high := words[2] / 0x1_0000;
      var count := size / 512 % 0x1_0000;
      words := words[2 := high * 0x1_0000 + count];
      if size % 512 != 0 {
        words := words[2 := high * 0x1_0000 + (count + 1) % 0x1_0000];
      }
    }

    method ComputeChecksum() returns (acc: u32)
      requires Valid() && Whole(words)
      ensures acc == Sum(words, WORDS_PER_SECTOR * SectorCount(words)) % U32_LIMIT
    {
      var count := SectorCount(words) * WORDS_PER_SECTOR;
      var i := 0;
      acc := 0;
      while i < count
        invariant 0 <= i <= count && acc == Sum(words, i) % U32_LIMIT
      {
        AddMod(Sum(words, i), words[i]);
        acc := (acc + words[i]) % U32_LIMIT;
        i := i + 1;
      }
    }

    /** The checksum makes the sum zero; it is zero itself if the sum already was. */
    method UpdateChecksum()
      requires Valid() && Whole(words)
      modifies this
      ensures Valid() && words == old(words)[1 := words[1]] && Whole(words)
      ensures SectorCount(words) > 0 ==> Sum(words, WORDS_PER_SECTOR * SectorCount(words)) % U32_LIMIT == 0
      ensures words[1] == 0 <==> Sum(words[1 := 0], WORDS_PER_SECTOR * SectorCount(words)) % U32_LIMIT == 0
    {
      words := words[1 := 0];
      ghost var zeroed, n := words, WORDS_PER_SECTOR * SectorCount(words);
      var sum := ComputeChecksum();
      var checksum := (U32_LIMIT - 1 - sum + 1) % U32_LIMIT;
      words := words[1 := checksum];
      assert words[1 := 0] == zeroed;
      SumUpdate(zeroed, n, 1, checksum);
      Complement(Sum(zeroed, n));
    }

    /** The words are only read if the sector count is within the limit, up to which they were
        loaded. */
    method Verify(maxSectors: nat) returns (ok: bool)
      requires Valid() && (SectorCount(words) <= maxSectors ==> Whole(words))
      ensures ok <==> Accepts(words, maxSectors)
    {
      if words[0] != MAGIC {
        return false;
      }
      var count := SectorCount(words);
      if count == 0 || count > maxSectors {
        return false;
      }
      var sum := ComputeChecksum();
      return words[1] != 0 && sum == 0;
    }
  }

  /** Counting the broken sector in 16 bits. */
  lemma RoundedUp(size: nat)
    ensures
      var count := size / 512 % 0x1_0000;
      (size + 511) / 512 % 0x1_0000 == if size % 512 == 0 then count else (count + 1) % 0x1_0000
  {
    var q, r := size / 512, size % 512;
    QuotientIs(size + 511, 512, if r == 0 then q else q + 1, if r == 0 then 511 else r - 1);
    NextModulo(q);
  }

  lemma NextModulo(q: nat)
    ensures (q + 1) % 0x1_0000 == (q % 0x1_0000 + 1) % 0x1_0000
  {
  }

  lemma AddMod(a: nat, b: u32)
    ensures (a % U32_LIMIT + b) % U32_LIMIT == (a + b) % U32_LIMIT
  {
    var q, r := a / U32_LIMIT, a % U32_LIMIT;
    var s := r + b;
    QuotientIs(a + b, U32_LIMIT, q + s / U32_LIMIT, s % U32_LIMIT);
  }

  lemma Complement(s: nat)
    ensures
      var c := (U32_LIMIT - 1 - s % U32_LIMIT + 1) % U32_LIMIT;
      (s + c) % U32_LIMIT == 0 && (c == 0 <==> s % U32_LIMIT == 0)
  {
    var c: u32 := (U32_LIMIT - 1 - s % U32_LIMIT + 1) % U32_LIMIT;
    AddMod(s, c);
  }

  /** Changing one covered word of an accepted image, other than the one with the sector count,
      makes every later check fail. */
  lemma TamperDetected(w: seq<u32>, maxSectors: nat, i: nat, v: u32, max': nat)
    requires |w| >= HEADER_WORDS && Accepts(w, maxSectors)
    requires i < WORDS_PER_SECTOR * SectorCount(w) && i != 2 && v != w[i]
    ensures Whole(w[i := v]) && !Accepts(w[i := v], max')
  {
    var n := WORDS_PER_SECTOR * SectorCount(w);
    SumUpdate(w, n, i, v);
    OneWordOff(Sum(w, n), w[i], v);
  }

  /** The same for the boot drive, the upper half of the word with the sector count. */
  lemma DriveChangeDetected(w: seq<u32>, maxSectors: nat, v: u32, max': nat)
    requires |w| >= HEADER_WORDS && Accepts(w, maxSectors) && v != w[2] && v % 0x1_0000 == SectorCount(w)
    ensures Whole(w[2 := v]) && !Accepts(w[2 := v], max')
  {
    var n := WORDS_PER_SECTOR * SectorCount(w);
    SumUpdate(w, n, 2, v);
    OneWordOff(Sum(w, n), w[2], v);
  }

  lemma OneWordOff(s: nat, a: u32, b: u32)
    requires s % U32_LIMIT == 0 && a != b && 0 <= s - a + b
    ensures (s - a + b) % U32_LIMIT != 0
  {
    var q := s / U32_LIMIT;
    if b > a {
      QuotientIs(s - a + b, U32_LIMIT, q, b - a);
    } else {
      QuotientIs(s - a + b, U32_LIMIT, q - 1, U32_LIMIT - a + b);
    }
  }

  /** The image after a fresh header and the sector count were put in place. */
  function Fresh(image: seq<u32>, sectors: u16): seq<u32>
    requires |image| >= HEADER_WORDS
  {
    [MAGIC, 0, sectors, 0, 0, 0, 0] + image[HEADER_WORDS..]
  }

  /** `installfat` on an image of whole sectors.  The image is accepted if and only if its 16-bit
      sector count is not zero and the words it covers, without the checksum, do not add up to zero. */
  method Install(image: seq<u32>) returns (ok: bool, hdr: Stage2Header)
    requires 0 < |image| < 0x4000_0000 && |image| % WORDS_PER_SECTOR == 0
    ensures hdr.Valid() && Whole(hdr.words) && SectorCount(hdr.words) == |image| / WORDS_PER_SECTOR % 0x1_0000
    ensures hdr.words == Fresh(image, SectorCount(hdr.words))[1 := hdr.words[1]]
    ensures |hdr.words| == |image| && hdr.words[0] == 0xD0D0_CACA && hdr.words[2] == |image| / 128 % 0x1_0000
    ensures (forall i :: 3 <= i < 7 ==> hdr.words[i] == 0) && hdr.words[7..] == image[7..]
    ensures ok <==> Accepts(hdr.words, SectorCount(hdr.words))
    ensures
      var n := WORDS_PER_SECTOR * SectorCount(hdr.words);
      ok <==> 0 < n && Sum(Fresh(image, SectorCount(hdr.words)), n) % U32_LIMIT != 0
  {
    hdr := new Stage2Header(image);
    hdr.Initialize();
    hdr.SetSectorCount(4 * |image|);
    var sectors := SectorCount(hdr.words);
    Sectors(|image|);
    assert hdr.words == Fresh(image, sectors);
    hdr.UpdateChecksum();
    assert hdr.words[1 := 0] == Fresh(image, sectors);
    ok := hdr.Verify(sectors);
  }

  lemma Sectors(words: nat)
    requires words % WORDS_PER_SECTOR == 0
    ensures (4 * words + 511) / 512 == words / WORDS_PER_SECTOR
    ensures WORDS_PER_SECTOR * (words / WORDS_PER_SECTOR % 0x1_0000) <= words
  {
    var k := words / WORDS_PER_SECTOR;
    QuotientIs(4 * words + 511, 512, k, 511);
  }

  /** The words that are summed lie in the buffer for `size` bytes if and only if these are whole
      sectors, or so many that their count wraps. */
  lemma SumInBuffer(size: nat)
    ensures 512 * ((size + 511) / 512 % 0x1_0000) <= size <==> size % 512 == 0 || size > 0xFFFF * 512
  {
    var q, r := size / 512, size % 512;
    var n := if r == 0 then q else q + 1;
    QuotientIs(size + 511, 512, n, if r == 0 then 511 else r - 1);
  }

  /** How many sectors the boot sector loads and lets the image have. */
  function VbrLimit(reserved: u16): Option<nat> {
    if reserved < 3 then None else Some(if reserved - 2 > 30 then 30 else reserved - 2)
  }

  /** The boot sector accepts an installed image exactly if it is no larger than what it loads;
      the installer itself checks no such limit. */
  lemma VbrAccepts(w: seq<u32>, reserved: u16)
    requires |w| >= HEADER_WORDS && Accepts(w, SectorCount(w))
    ensures
      VbrLimit(reserved).Some? && Accepts(w, VbrLimit(reserved).value)
      <==> SectorCount(w) <= 30 && SectorCount(w) + 2 <= reserved
  {
  }
}
