// struct zb_prm: what the bootloader remembers about the two images, at the start of the last sector of slot 0.
module Params {
  import opened Bytes
  import opened CmdLog
  import opened Ctr
  import opened Flash
  import opened Header

  const PRM_BYTES: nat := 24
  const EMPTY_U32: nat := 0xffff_ffff

  datatype Prm = Prm(pri_ld_address: nat, sec_ld_address: nat, slt0_crc32: nat, slt1_crc32: nat,
                     slt0_ver: nat, slt1_ver: nat)

  function PrmBytes(p: Prm): (r: seq<byte>)
    ensures |r| == PRM_BYTES
  {
    PutU32(p.pri_ld_address) + PutU32(p.sec_ld_address) + PutU32(p.slt0_crc32)
    + PutU32(p.slt1_crc32) + PutU32(p.slt0_ver) + PutU32(p.slt1_ver)
  }

  function U32At(mem: seq<byte>, off: int): nat {
    U32(At(mem, off), At(mem, off + 1), At(mem, off + 2), At(mem, off + 3))
  }

  function PrmAt(mem: seq<byte>, off: int): Prm {
    Prm(U32At(mem, off), U32At(mem, off + 4), U32At(mem, off + 8),
        U32At(mem, off + 12), U32At(mem, off + 16), U32At(mem, off + 20))
  }

  // zb_prm_read: nothing is there when the first word is blank.
  function PrmRead(mem: seq<byte>, area: Area): Option<Prm> {
    var p := PrmAt(mem, area.Slt0End());
    if p.pri_ld_address == EMPTY_U32 then None else Some(p)
  }

  // zb_img_conv_version_u32: the fields do not overlap, so the bitwise or is a sum.
  function VersionU32(v: ImgVer): nat {
    0x100_0000 * v.major + 0x1_0000 * v.minor + v.revision
  }

  // The packed order is the lexicographic order of major, minor, revision; the build number does not count.
  lemma VersionOrder(a: ImgVer, b: ImgVer)
    requires a.revision < 0x1_0000 && b.revision < 0x1_0000
    ensures VersionU32(a) < VersionU32(b) <==>
              (|| a.major < b.major
               || (a.major == b.major && a.minor < b.minor)
               || (a.major == b.major && a.minor == b.minor && a.revision < b.revision))
    ensures VersionU32(a) == VersionU32(b) <==> (a.major == b.major && a.minor == b.minor && a.revision == b.revision)
  {}

  // The packed version spells the fields, most significant octet first.
  lemma VersionOctets(v: ImgVer)
    requires v.revision < 0x1_0000
    ensures BigEndian(VersionU32(v), 4) == [v.major, v.minor] + BigEndian(v.revision, 2)
  {
    var n := VersionU32(v);
    assert n % 256 == v.revision % 256 && n / 256 == 0x1_0000 * v.major + 0x100 * v.minor + v.revision / 256;
    assert n / 256 % 256 == v.revision / 256 && n / 256 / 256 == 0x100 * v.major + v.minor;
    assert n / 256 / 256 % 256 == v.minor && n / 256 / 256 / 256 == v.major;
    assert BigEndian(n, 1) == [n % 256] && BigEndian(n / 256 / 256 / 256, 1) == [v.major];
    assert BigEndian(n / 256 / 256, 2) == BigEndian(n / 256 / 256 / 256, 1) + [v.minor];
    assert BigEndian(n / 256, 3) == BigEndian(n / 256 / 256, 2) + [v.revision / 256];
    assert BigEndian(v.revision / 256, 1) == [v.revision / 256];
    assert BigEndian(v.revision, 2) == BigEndian(v.revision / 256, 1) + [v.revision % 256];
  }

  // The words in flash, in the order of struct zb_prm.
  lemma PrmOctets(p: Prm, k: nat)
    requires k < 6
    ensures PrmBytes(p)[4 * k..4 * k + 4] == PutU32([p.pri_ld_address, p.sec_ld_address, p.slt0_crc32, p.slt1_crc32,
                                                     p.slt0_ver, p.slt1_ver][k])
  {
    hide PutU32;
  }

  // Erased flash holds no parameters.
  lemma BlankPrm(mem: seq<byte>, area: Area)
    requires Blank(mem, area.Slt0End(), area.Slt0End() + PRM_BYTES)
    ensures PrmRead(mem, area).None?
  {}

  ghost predicate PrmFits(p: Prm) {
    && p.pri_ld_address < 0x1_0000_0000 && p.sec_ld_address < 0x1_0000_0000 && p.slt0_crc32 < 0x1_0000_0000
    && p.slt1_crc32 < 0x1_0000_0000 && p.slt0_ver < 0x1_0000_0000 && p.slt1_ver < 0x1_0000_0000
  }

  lemma PrmRoundTrip(mem: seq<byte>, off: nat, p: Prm)
    requires PrmFits(p) && off + PRM_BYTES <= |mem|
    ensures PrmAt(Put(mem, off, PrmBytes(p)), off) == p
  {
    hide PutU32, U32;
    var m := Put(mem, off, PrmBytes(p));
    WordRoundTrip(m, off, p.pri_ld_address);
    WordRoundTrip(m, off + 4, p.sec_ld_address);
    WordRoundTrip(m, off + 8, p.slt0_crc32);
    WordRoundTrip(m, off + 12, p.slt1_crc32);
    WordRoundTrip(m, off + 16, p.slt0_ver);
    WordRoundTrip(m, off + 20, p.slt1_ver);
  }

  lemma WordRoundTrip(m: seq<byte>, off: nat, n: nat)
    requires n < 0x1_0000_0000
    requires forall i :: 0 <= i < 4 ==> At(m, off + i) == PutU32(n)[i]
    ensures U32At(m, off) == n
  {
    var s := PutU32(n);
    assert At(m, off + 0) == s[0] && At(m, off + 1) == s[1] && At(m, off + 2) == s[2] && At(m, off + 3) == s[3];
    U32RoundTrip(n);
  }

  lemma SamePrmAt(a: seq<byte>, b: seq<byte>, off: int)
    requires SameOn(a, b, off, off + PRM_BYTES)
    ensures PrmAt(a, off) == PrmAt(b, off)
  {
    hide U32;
  }
}
