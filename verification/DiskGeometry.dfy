/** Sector addresses: linear, cylinder/head/sector, and the registers of INT 13h. */
module DiskGeometry {
  import opened Bytes
  import opened Arith

  /** Three bytes: head; sector and the upper two bits of the cylinder; the rest of the cylinder. */
  datatype CHSPacked = CHSPacked(lo: byte, mid: byte, hi: byte) {
    function Head(): byte { lo }
    function Sector(): byte { mid % 64 }
    function Cylinder(): u16 { mid / 64 * 256 + hi }

    function SetHead(value: byte): CHSPacked { this.(lo := value) }
    function SetSector(value: byte): CHSPacked { this.(mid := mid / 64 * 64 + value % 64) }
    function SetCylinder(value: u16): CHSPacked {
      this.(mid := value / 256 % 4 * 64 + mid % 64, hi := value % 256)
    }
  }

  /** Each setter changes its own field, to the bits that the field has room for. */
  lemma FieldsIndependent(p: CHSPacked, head: byte, sector: byte, cylinder: u16)
    ensures
      var q := p.SetCylinder(cylinder).SetHead(head).SetSector(sector);
      q.Cylinder() == cylinder % 1024 && q.Head() == head && q.Sector() == sector % 64
  {
    var c := cylinder / 256;
    assert cylinder % 1024 == c % 4 * 256 + cylinder % 256;
  }

  /** Cylinder, head and sector are cut to the types of the setters. */
  function Pack(c: nat, h: nat, s: nat): CHSPacked { Fields(c % 0x1_0000, h % 0x100, s % 0x100) }

  function Fields(c: u16, h: byte, s: byte): CHSPacked { CHSPacked(0, 0, 0).SetCylinder(c).SetHead(h).SetSector(s) }

  lemma FieldsRead(c: u16, h: byte, s: byte)
    ensures Fields(c, h, s).Cylinder() == c % 1024 && Fields(c, h, s).Head() == h && Fields(c, h, s).Sector() == s % 64
  {
    FieldsIndependent(CHSPacked(0, 0, 0), h, s, c);
  }

  lemma PackFields(c: nat, h: nat, s: nat)
    requires h < 256 && s < 64
    ensures Pack(c, h, s).Cylinder() == c % 1024 && Pack(c, h, s).Head() == h && Pack(c, h, s).Sector() == s
  {
    var c16: u16, h8: byte, s8: byte := c % 0x1_0000, h % 0x100, s % 0x100;
    assert h8 == h && s8 == s && s8 % 64 == s;
    FieldsRead(c16, h8, s8);
    CylinderCut(c);
  }

  lemma CylinderCut(c: nat)
    ensures c % 0x1_0000 % 1024 == c % 1024
  {
    var q, m := c / 0x1_0000, c % 0x1_0000;
    QuotientIs(c, 1024, 64 * q + m / 1024, m % 1024);
  }

  datatype DriveGeometry = DriveGeometry(cylinders: u16, headsPerCylinder: u16, sectorsPerTrack: u16) {
    /** What the BIOS can report: up to 1024 cylinders, 256 heads and 63 sectors. */
    predicate Legal() {
      1 <= cylinders <= 1024 && 1 <= headsPerCylinder <= 256 && 1 <= sectorsPerTrack <= 63
    }

    function LBA2CHS(lba: u32): CHSPacked
      requires 0 < headsPerCylinder && 0 < sectorsPerTrack
    {
      PositiveProduct(headsPerCylinder, sectorsPerTrack);
      Pack(lba / (headsPerCylinder * sectorsPerTrack), lba / sectorsPerTrack % headsPerCylinder, lba % sectorsPerTrack + 1)
    }

    /** The sector that a cylinder, head and sector number stand for. */
    function Linear(c: nat, h: nat, s: nat): int { (c * headsPerCylinder + h) * sectorsPerTrack + s - 1 }
  }

  /** CX and DX for the sector read.  Shifting the cylinder by eight bits drops its upper two,
      which are put behind the sector number instead. */
  function Cx(p: CHSPacked): u16 { p.Cylinder() % 256 * 256 + p.Cylinder() / 256 % 4 * 64 + p.Sector() }

  function Dx(p: CHSPacked, drive: byte): u16 { p.Head() * 256 + drive }

  /** How the BIOS reads the registers: cylinder in CH and the upper bits of CL, sector in the
      lower six bits of CL, head in DH, drive in DL. */
  function BiosCylinder(cx: u16): nat { cx / 256 + cx / 64 % 4 * 256 }
  function BiosSector(cx: u16): nat { cx % 64 }
  function BiosHead(dx: u16): nat { dx / 256 }
  function BiosDrive(dx: u16): nat { dx % 256 }

  lemma RegistersDecode(p: CHSPacked, drive: byte)
    ensures BiosCylinder(Cx(p)) == p.Cylinder() && BiosSector(Cx(p)) == p.Sector()
    ensures BiosHead(Dx(p, drive)) == p.Head() && BiosDrive(Dx(p, drive)) == drive
  {
    CylinderSplits(p.mid / 64, p.hi, p.Sector());
  }

  lemma CylinderSplits(top: nat, low: byte, sector: nat)
    requires top < 4 && sector < 64
    ensures
      var c := top * 256 + low;
      var cx := c % 256 * 256 + c / 256 % 4 * 64 + sector;
      cx / 256 == low && cx / 64 % 4 == top && cx % 64 == sector
  {
    var c := top * 256 + low;
    QuotientIs(c, 256, top, low);
    var cx := low * 256 + top * 64 + sector;
    QuotientIs(cx, 256, low, top * 64 + sector);
    QuotientIs(cx, 64, low * 4 + top, sector);
    QuotientIs(low * 4 + top, 4, low, top);
  }

  /** The sector the BIOS reads when asked for lba. */
  function Addressed(g: DriveGeometry, drive: byte, lba: u32): int
    requires 0 < g.headsPerCylinder && 0 < g.sectorsPerTrack
  {
    var p := g.LBA2CHS(lba);
    g.Linear(BiosCylinder(Cx(p)), BiosHead(Dx(p, drive)), BiosSector(Cx(p)))
  }

  /** Dividing by heads times sectors is dividing twice, and the three digits give lba back. */
  lemma Digits(lba: nat, h: nat, s: nat)
    requires 0 < h && 0 < s
    ensures 0 < h * s && lba / (h * s) == lba / s / h
    ensures lba == (lba / s / h * h + lba / s % h) * s + lba % s
  {
    var q, r := lba / s, lba % s;
    var c, e := q / h, q % h;
    assert q == c * h + e && lba == q * s + r;
    PositiveProduct(h, s);
    RemainderBound(e, h, s, r);
    MulAdd(c * h, e, s);
    MulThree(c, h, s);
    QuotientIs(lba, h * s, c, e * s + r);
  }

  lemma RemainderBound(e: nat, h: nat, s: nat, r: nat)
    requires e < h && r < s
    ensures 0 <= e * s + r < h * s
  {
    assert e * s + s == (e + 1) * s;
    assert (e + 1) * s <= h * s;
  }

  /** Within 1024 cylinders, and only there, the BIOS reads the sector that was asked for. */
  lemma AddressRoundTrip(g: DriveGeometry, drive: byte, lba: u32)
    requires 1 <= g.headsPerCylinder <= 256 && 1 <= g.sectorsPerTrack <= 63
    ensures 0 < g.headsPerCylinder * g.sectorsPerTrack
    ensures Addressed(g, drive, lba) == lba <==> lba / (g.headsPerCylinder * g.sectorsPerTrack) < 1024
  {
    var h, s := g.headsPerCylinder, g.sectorsPerTrack;
    Digits(lba, h, s);
    var c, e, r := lba / s / h, lba / s % h, lba % s;
    Packed(g, drive, lba, c, e, r);
    assert Addressed(g, drive, lba) == (c % 1024 * h + e) * s + r;
    WrappedDiffers(c, e, r, h, s);
  }

  lemma Packed(g: DriveGeometry, drive: byte, lba: u32, c: nat, e: nat, r: nat)
    requires 1 <= g.headsPerCylinder <= 256 && 1 <= g.sectorsPerTrack <= 63
    requires 0 < g.headsPerCylinder * g.sectorsPerTrack && c == lba / (g.headsPerCylinder * g.sectorsPerTrack)
    requires e == lba / g.sectorsPerTrack % g.headsPerCylinder && r == lba % g.sectorsPerTrack
    ensures Addressed(g, drive, lba) == g.Linear(c % 1024, e, r + 1)
  {
    PackFields(c, e, r + 1);
    RegistersDecode(g.LBA2CHS(lba), drive);
  }

  lemma WrappedDiffers(c: nat, e: nat, r: nat, h: nat, s: nat)
    requires 0 < h && 0 < s
    ensures (c % 1024 * h + e) * s + r == (c * h + e) * s + r <==> c < 1024
  {
    var d := c - c % 1024;
    assert (c * h + e) * s - (c % 1024 * h + e) * s == d * h * s;
    if c >= 1024 { assert d * h > 0; assert d * h * s > 0; }
  }

  /** On a drive with a legal geometry every sector is read where it is asked for, so different
      sectors never share an address. */
  lemma AddressesDistinct(g: DriveGeometry, drive: byte, a: u32, b: u32)
    requires g.Legal()
    requires a < g.cylinders * (g.headsPerCylinder * g.sectorsPerTrack)
    requires b < g.cylinders * (g.headsPerCylinder * g.sectorsPerTrack)
    ensures Addressed(g, drive, a) == a && Addressed(g, drive, b) == b
    ensures
      var p, q := g.LBA2CHS(a), g.LBA2CHS(b);
      Cx(p) == Cx(q) && Dx(p, drive) == Dx(q, drive) ==> a == b
  {
    AddressRoundTrip(g, drive, a);
    AddressRoundTrip(g, drive, b);
    QuotientBelow(a, g.headsPerCylinder * g.sectorsPerTrack, g.cylinders);
    QuotientBelow(b, g.headsPerCylinder * g.sectorsPerTrack, g.cylinders);
  }

  /** The geometry from the registers that the BIOS returns. */
  function ReadDriveParameters(cx: u16, dx: u16): DriveGeometry {
    DriveGeometry((cx / 64 % 4 * 256 + cx / 256) % 0x1_0000 + 1, dx / 256 + 1, cx % 64)
  }

  /** It is a legal one exactly if the reported track is not empty, and it says what the BIOS
      reports as the last cylinder, head and sector. */
  lemma ParametersLegal(cx: u16, dx: u16)
    ensures ReadDriveParameters(cx, dx).Legal() <==> cx % 64 != 0
    ensures ReadDriveParameters(cx, dx) == DriveGeometry(BiosCylinder(cx) + 1, BiosHead(dx) + 1, BiosSector(cx))
  {
  }
}
