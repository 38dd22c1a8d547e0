// Where the octets of the two images are at every point of a swap, and that every step keeps them.
module Images {
  import opened Bytes
  import opened CmdLog
  import opened Ctr
  import opened Digest
  import opened Flash
  import opened Header
  import opened Move
  import opened Params
  import opened Swap

  // The situation when a swap starts: the image info in use and the contents of flash.
  // In an in-place swap `to` and `fr` are the same image in slot 1.
  datatype Setup = Setup(cr: Crypto, area: Area, info: SwpInfo, inplace: bool, mem0: seq<byte>)
  {
    // Lengths of the old image (in `to`) and, for a classic swap, of the new one (in `fr`).
    function OldLen(): int { info.EndTo() }
    function NewLen(): int { if inplace then 0 else info.EndFr() }
    function To(): int { info.to.hdr_start }
    function Fr(): int { info.fr.hdr_start }

    // The images as they were, and what becomes of them: one counter mode pass from the encryption start.
    function Old(): seq<byte> { Slice(mem0, To(), Max(0, OldLen())) }
    function New(): seq<byte> { Slice(mem0, Fr(), Max(0, NewLen())) }
    function OldOut(): seq<byte> { Transform(cr.aes, info.to, Old()) }
    function NewOut(): seq<byte> { Transform(cr.aes, info.fr, New()) }

    function OldSectors(): nat requires area.sector > 0 { Sectors(OldLen(), area.sector) }
    function NewSectors(): nat requires area.sector > 0 { Sectors(NewLen(), area.sector) }
    function AllSectors(): nat requires area.sector > 0 { Max(OldSectors(), NewSectors()) }

    // What the swap relies on: where the images are, and that their sectors can be counted in one octet.
    ghost predicate Ok() {
      Placed() && AllSectors() <= 255
    }

    ghost predicate Placed() {
      && area.Ok() && |mem0| == area.flash_size
      && info.to.hdr_start <= info.to.end && info.fr.hdr_start <= info.fr.end
      && EncOk(info.to) && EncOk(info.fr)
      && info.fr.hdr_start == area.slt1_offset
      && (if inplace then
            info.to == info.fr && info.fr.is_valid && info.fr.hdr_start <= info.fr.enc_start <= info.fr.end
          else info.to.hdr_start == area.slt0_offset)
      && OldLen() + area.sector <= ToSize() && OldLen() + area.sector <= area.slt1_size
      && NewLen() + area.sector <= area.slt0_size && NewLen() + area.sector <= area.slt1_size
    }

    function ToSize(): nat { if inplace then area.slt1_size else area.slt0_size }

    // What counting the turns in P1 and P2 needs, of images right or wrong.
    ghost predicate Countable() {
      area.sector > 0 && AllSectors() <= 255 && (inplace ==> info.EndTo() == info.EndFr())
    }
  }

  // Nothing is encrypted, or the encrypted part starts on a 16-octet boundary of the slot.
  predicate EncOk(i: ImgInfo) {
    i.end <= i.enc_start || (i.enc_start - i.hdr_start) % 16 == 0
  }

  function Sectors(len: int, sector: nat): (n: nat)
    requires sector > 0
  {
    if len <= 0 then 0 else (len - 1) / sector + 1
  }

  // A position in the machine: phase and offset of the current sector.
  datatype Pos = Pos(phase: byte, off: nat)

  function PosOf(sector: nat, cmd: Cmd): Pos {
    Pos(Phase(cmd.cmd2), cmd.cmd3 * sector)
  }

  // The whole image after one move between the slots.
  function Transform(aes: Aes, info: ImgInfo, img: seq<byte>): (r: seq<byte>)
    ensures |r| == |img|
  {
    seq<byte>(|img|, i requires 0 <= i < |img| =>
      Crypt(aes, info.enc_key, info.enc_start, info.hdr_start + i, img[i]))
  }

  // ----- where everything is: a function of phase and sector alone -----

  // Octets [lo, hi) of an image are at base + lo and on.
  ghost predicate Holds(mem: seq<byte>, base: int, lo: int, hi: int, img: seq<byte>) {
    forall a {:trigger At(mem, a)} :: lo <= a - base < hi && a - base < |img| && base <= a
        ==> At(mem, a) == img[a - base]
  }

  // Places of the old image: to slot `t`, from slot `f`, spare sector size `s`.
  ghost predicate OldPlaces(mem: seq<byte>, p: Pos, t: int, f: int, s: int, img: seq<byte>, out: seq<byte>) {
    match p.phase
    case 0x10 => Holds(mem, t, 0, |img|, img)
    case 0x12 => Holds(mem, t, 0, p.off + s, img) && Holds(mem, t + s, p.off + s, |img|, img)
    case 0x14 => Holds(mem, f, 0, p.off, out) && Holds(mem, t + s, p.off, |img|, img)
    case 0x16 => Holds(mem, f, 0, p.off, out) && Holds(mem, t + s, p.off, |img|, img)
    case _ => Holds(mem, f, 0, |img|, out)
  }

  // Places of the new image.
  ghost predicate NewPlaces(mem: seq<byte>, p: Pos, t: int, f: int, s: int, img: seq<byte>, out: seq<byte>) {
    match p.phase
    case 0x10 => Holds(mem, f, 0, |img|, img)
    case 0x12 => Holds(mem, f, 0, |img|, img)
    case 0x14 => Holds(mem, t, 0, p.off, out) && Holds(mem, f, p.off, |img|, img)
    case 0x16 => Holds(mem, t, 0, p.off + s, out) && Holds(mem, f, p.off + s, |img|, img)
    case _ => Holds(mem, t, 0, |img|, out)
  }

  // What a swap leaves alone.
  ghost predicate Untouched(su: Setup, p: Pos, mem: seq<byte>) {
    && |mem| == su.area.flash_size
    && (su.OldLen() <= 0 ==> Holds(mem, su.Fr(), 0, su.NewLen(), su.New()))
    && (su.inplace ==> SameOn(mem, su.mem0, su.area.slt0_offset, su.area.Slt0End()))
    && (p.phase == CMD2_SWP_START ==>
          && SameOn(mem, su.mem0, su.area.slt0_offset, su.area.slt0_offset + su.area.slt0_size)
          && SameOn(mem, su.mem0, su.area.slt1_offset, su.area.slt1_offset + su.area.slt1_size))
  }

  // Every octet of both images is intact at its place.
  ghost predicate Intact(su: Setup, p: Pos, mem: seq<byte>) {
    && OldPlaces(mem, p, su.To(), su.Fr(), su.area.sector, su.Old(), su.OldOut())
    && NewPlaces(mem, p, su.To(), su.Fr(), su.area.sector, su.New(), su.NewOut())
    && Untouched(su, p, mem)
  }

  // ----- one sector -----

  lemma SectorMoveAt(aes: Aes, mem: seq<byte>, sector: nat, mc: MoveCmd, len: nat)
    requires len <= sector && mc.to_off + sector <= |mem|
    requires Apart(mc.fr_off, len, mc.to_off, sector)
    requires (mc.fr_eoff - mc.fr_off) % 16 == 0 || mc.fr_off + len <= mc.fr_eoff
    ensures var r := SectorMove(aes, mem, sector, mc, len);
            && SameOutside(mem, r, mc.to_off, mc.to_off + sector)
            && forall a {:trigger At(r, a)} :: mc.to_off <= a < mc.to_off + len ==>
                 At(r, a)
                 == Crypt(aes, mc.key, mc.fr_eoff, mc.fr_off + (a - mc.to_off), At(mem, mc.fr_off + (a - mc.to_off)))
  {
    hide MoveData, Crypt;
    var e := Erased(mem, mc.to_off, sector);
    var r := SectorMove(aes, mem, sector, mc, len);
    forall a | mc.to_off <= a < mc.to_off + len
      ensures At(r, a)
           == Crypt(aes, mc.key, mc.fr_eoff, mc.fr_off + (a - mc.to_off), At(mem, mc.fr_off + (a - mc.to_off)))
    {
      MoveDataIsCrypt(aes, e, mc, len, a - mc.to_off);
      assert At(e, mc.fr_off + (a - mc.to_off)) == At(mem, mc.fr_off + (a - mc.to_off));
    }
  }

  // Moving an image in memory together with its encryption start does not change what becomes of its octets.
  lemma CryptShift(aes: Aes, key: seq<byte>, e: int, p: int, b: byte, d: int)
    ensures Crypt(aes, key, e + d, p + d, b) == Crypt(aes, key, e, p, b)
  {
    hide Xor, Keystream;
  }

  lemma IntactLength(su: Setup, p: Pos, mem: seq<byte>)
    requires Intact(su, p, mem)
    ensures |mem| == su.area.flash_size
  {
    hide OldPlaces, NewPlaces, Transform;
  }

  // ----- what each step keeps, slot by slot -----

  // Two slots that do not overlap, or one and the same.
  ghost predicate Slots(t: int, tsize: int, f: int, fsize: int, same: bool) {
    if same then t == f && tsize == fsize else t + tsize <= f || f + fsize <= t
  }

  lemma MoveUpOld(mem: seq<byte>, r: seq<byte>, t: int, f: int, s: int, off: int, img: seq<byte>, out: seq<byte>)
    requires s > 0 && 0 <= off
    requires OldPlaces(mem, Pos(CMD2_MOVE_UP, off), t, f, s, img, out)
    requires SameOutside(mem, r, t + off + s, t + off + 2 * s)
    requires forall a {:trigger At(r, a)} :: t + off + s <= a < t + off + 2 * s ==> At(r, a) == At(mem, a - s)
    ensures off >= s ==> OldPlaces(r, Pos(CMD2_MOVE_UP, off - s), t, f, s, img, out)
    ensures off == 0 ==> OldPlaces(r, Pos(CMD2_SWP_P1, 0), t, f, s, img, out)
    ensures off == 0 ==> OldPlaces(r, Pos(CMD2_SWP_P2, 0), t, f, s, img, out)
  {}

  lemma MoveUpNew(mem: seq<byte>, r: seq<byte>, t: int, f: int, s: int, off: int, size: int, fsize: int,
                  img: seq<byte>, out: seq<byte>)
    requires s > 0 && 0 <= off && off + 2 * s <= size && |img| <= fsize && |out| == |img|
    requires |img| > 0 ==> Slots(t, size, f, fsize, false)
    requires NewPlaces(mem, Pos(CMD2_MOVE_UP, off), t, f, s, img, out)
    requires SameOutside(mem, r, t + off + s, t + off + 2 * s)
    ensures off >= s ==> NewPlaces(r, Pos(CMD2_MOVE_UP, off - s), t, f, s, img, out)
    ensures off == 0 ==> NewPlaces(r, Pos(CMD2_SWP_P1, 0), t, f, s, img, out)
    ensures |img| == 0 ==> NewPlaces(r, Pos(CMD2_SWP_P2, 0), t, f, s, img, out)
  {}

  // Phase 1 puts a sector of the new image where the old one has moved away.
  lemma P1Old(mem: seq<byte>, r: seq<byte>, t: int, f: int, s: int, off: int, size: int, fsize: int,
              img: seq<byte>, out: seq<byte>)
    requires s > 0 && 0 <= off && off + s <= size && |img| + s <= size && |img| <= fsize
    requires Slots(t, size, f, fsize, false)
    requires OldPlaces(mem, Pos(CMD2_SWP_P1, off), t, f, s, img, out)
    requires SameOutside(mem, r, t + off, t + off + s)
    ensures OldPlaces(r, Pos(CMD2_SWP_P2, off), t, f, s, img, out)
  {}

  lemma P1New(mem: seq<byte>, r: seq<byte>, t: int, f: int, s: int, off: int, size: int, fsize: int,
              img: seq<byte>, out: seq<byte>)
    requires s > 0 && 0 <= off && off + s <= size && |img| <= fsize && |out| == |img|
    requires Slots(t, size, f, fsize, false)
    requires NewPlaces(mem, Pos(CMD2_SWP_P1, off), t, f, s, img, out)
    requires SameOutside(mem, r, t + off, t + off + s)
    requires Holds(r, t, off, off + s, out)
    ensures NewPlaces(r, Pos(CMD2_SWP_P2, off), t, f, s, img, out)
  {}

  // Phase 2 puts a sector of the old image where the new one has moved away; in place it trails one sector behind.
  lemma P2Old(mem: seq<byte>, r: seq<byte>, t: int, f: int, s: int, off: int, size: int, fsize: int, same: bool,
              img: seq<byte>, out: seq<byte>)
    requires s > 0 && 0 <= off && off + s <= fsize && |img| + s <= size
    requires Slots(t, size, f, fsize, same)
    requires OldPlaces(mem, Pos(CMD2_SWP_P2, off), t, f, s, img, out)
    requires SameOutside(mem, r, f + off, f + off + s)
    requires Holds(r, f, off, off + s, out)
    ensures OldPlaces(r, Pos(CMD2_SWP_P1, off + s), t, f, s, img, out)
    ensures OldPlaces(r, Pos(CMD2_SWP_P2, off + s), t, f, s, img, out)
  {}

  lemma P2New(mem: seq<byte>, r: seq<byte>, t: int, f: int, s: int, off: int, size: int, fsize: int,
              img: seq<byte>, out: seq<byte>)
    requires s > 0 && 0 <= off && off + s <= fsize && |img| <= size && |out| == |img|
    requires |img| > 0 ==> Slots(t, size, f, fsize, false)
    requires NewPlaces(mem, Pos(CMD2_SWP_P2, off), t, f, s, img, out)
    requires SameOutside(mem, r, f + off, f + off + s)
    ensures NewPlaces(r, Pos(CMD2_SWP_P1, off + s), t, f, s, img, out)
    ensures |img| == 0 ==> NewPlaces(r, Pos(CMD2_SWP_P2, off + s), t, f, s, img, out)
  {}

  // ----- arithmetic of sectors -----

  lemma SectorsFacts(len: int, sector: nat, k: nat)
    requires sector > 0
    ensures k * sector < len <==> k < Sectors(len, sector)
  {
    if len > 0 {
      var q := (len - 1) / sector;
      assert len - 1 == q * sector + (len - 1) % sector;
      if k <= q {
        assert k * sector <= q * sector by { MulMonotone(k, q, sector); }
      } else {
        assert (q + 1) * sector <= k * sector by { MulMonotone(q + 1, k, sector); }
        assert (q + 1) * sector == q * sector + sector;
      }
    } else {
      assert k * sector >= 0 by { MulMonotone(0, k, sector); }
    }
  }

  lemma MulMonotone(a: int, b: int, c: nat)
    requires a <= b
    ensures a * c <= b * c
  {
    assert b * c - a * c == (b - a) * c;
  }

  // Slots are whole sectors: an image that leaves one sector free leaves room above each of its sectors.
  lemma SectorRoom(k: nat, sector: nat, len: int, size: nat)
    requires sector > 0 && size % sector == 0 && len + sector <= size && k * sector < len
    ensures k * sector + 2 * sector <= size
  {
    var c := size / sector;
    assert size == c * sector && (c - 1) * sector == size - sector;
    if k + 2 > c {
      MulMonotone(c - 1, k, sector);
    } else {
      assert (k + 2) * sector <= c * sector by { MulMonotone(k + 2, c, sector); }
      assert (k + 2) * sector == k * sector + 2 * sector;
    }
  }

  lemma {:induction false} SectorAligned(k: nat, sector: nat)
    requires sector % 16 == 0
    ensures (k * sector) % 16 == 0
  {
    if k > 0 {
      SectorAligned(k - 1, sector);
      NextSector(k - 1, sector);
      SumOf16((k - 1) * sector, sector);
    }
  }

  lemma SumOf16(a: int, b: int)
    requires a % 16 == 0 && b % 16 == 0
    ensures (a + b) % 16 == 0
  {}

  lemma NextSector(k: nat, sector: nat)
    ensures (k + 1) * sector == k * sector + sector
  {}

  // ----- the commands of a run -----

  // The commands a run writes: the sector numbers stay within the images.
  ghost predicate CmdOk(su: Setup, cmd: Cmd)
    requires su.area.sector > 0
  {
    && cmd.cmd1 != CMD1_ERROR
    && Inplace(cmd.cmd2) == su.inplace
    && match Phase(cmd.cmd2)
       case 0x10 => true
       case 0x12 => cmd.cmd3 < su.OldSectors()
       case 0x14 => !su.inplace && cmd.cmd3 <= su.AllSectors()
       case 0x16 => cmd.cmd3 <= su.AllSectors()
       case 0x18 => true
       case 0x19 => true
       case 0x1f => true
       case _ => false
  }

  // How many turns of the loop are left.
  function Remaining(su: Setup, cmd: Cmd): int
    requires su.area.sector > 0
  {
    var m, n, k := su.OldSectors(), su.AllSectors(), cmd.cmd3;
    match Phase(cmd.cmd2)
    case 0x10 =>
      if !su.inplace then m + 2 * n + 4 else if su.info.fr.enc_start == su.info.fr.end then 3 else 2 * m + 4
    case 0x12 => if su.inplace then k + m + 4 else k + 2 * n + 4
    case 0x14 => 2 * (n - k) + 3
    case 0x16 => if su.inplace then m - k + 3 else if k < n then 2 * (n - k) + 2 else 3
    case 0x18 => 2
    case 0x19 => 1
    case _ => 0
  }

  lemma PhaseBits(phase: byte, inplace: bool)
    requires 0x10 <= phase < 0x20
    ensures Phase(WithInplace(phase, inplace)) == phase
    ensures Inplace(WithInplace(phase, inplace)) == inplace
  {}

  lemma NextFromStart(su: Setup, cmd: Cmd)
    requires su.Ok() && CmdOk(su, cmd) && Phase(cmd.cmd2) == CMD2_SWP_START
    ensures NextCmd(su.area.sector, su.info, cmd) ==
            if su.inplace && su.info.fr.enc_start == su.info.fr.end
                then Cmd(cmd.cmd1, WithInplace(CMD2_SWP_P3, true), 0)
            else if su.OldSectors() == 0 then Cmd(cmd.cmd1, WithInplace(CMD2_SWP_P1, su.inplace), 0)
            else Cmd(cmd.cmd1, WithInplace(CMD2_MOVE_UP, su.inplace), su.OldSectors() - 1)
  {
    hide Inplace, WithInplace, Phase;
  }

  lemma NextFromP1(su: Setup, cmd: Cmd)
    requires su.Countable() && CmdOk(su, cmd) && Phase(cmd.cmd2) == CMD2_SWP_P1
    ensures NextCmd(su.area.sector, su.info, cmd) ==
            Cmd(cmd.cmd1, WithInplace(if cmd.cmd3 < su.AllSectors() then CMD2_SWP_P2 else CMD2_SWP_P3, false), cmd.cmd3)
  {
    hide Inplace, WithInplace, Phase, Sectors;
    SectorsFacts(su.info.EndTo(), su.area.sector, cmd.cmd3);
    SectorsFacts(su.info.EndFr(), su.area.sector, cmd.cmd3);
  }

  lemma NextFromP2(su: Setup, cmd: Cmd)
    requires su.Countable() && CmdOk(su, cmd) && Phase(cmd.cmd2) == CMD2_SWP_P2
    ensures NextCmd(su.area.sector, su.info, cmd) ==
            if cmd.cmd3 < su.AllSectors() then
              Cmd(cmd.cmd1, WithInplace(if su.inplace then CMD2_SWP_P2 else CMD2_SWP_P1, su.inplace), cmd.cmd3 + 1)
            else Cmd(cmd.cmd1, WithInplace(CMD2_SWP_P3, su.inplace), cmd.cmd3)
  {
    hide Inplace, WithInplace, Phase, Sectors;
    SectorsFacts(su.info.EndTo(), su.area.sector, cmd.cmd3);
    SectorsFacts(su.info.EndFr(), su.area.sector, cmd.cmd3);
    SectorsFacts(0, su.area.sector, 0);
    assert su.inplace ==> su.AllSectors() == su.OldSectors();
  }

  // An in-place image with an encrypted part is not empty.
  lemma InplaceNotEmpty(su: Setup)
    requires su.Ok() && su.inplace && su.info.fr.enc_start != su.info.fr.end && su.info.fr.enc_start <= su.info.fr.end
    requires su.info.fr.hdr_start <= su.info.fr.enc_start
    ensures su.OldSectors() > 0
  {
    SectorsFacts(su.OldLen(), su.area.sector, 0);
  }

  // Sector numbers fit the octet that holds them, and every turn brings the run one turn closer to its end.
  lemma NextCmdOk(su: Setup, cmd: Cmd)
    requires su.Ok() && CmdOk(su, cmd) && Going(cmd.cmd2)
    ensures var next := NextCmd(su.area.sector, su.info, cmd);
            CmdOk(su, next) && Remaining(su, next) == Remaining(su, cmd) - 1 && next.cmd1 == cmd.cmd1
  {
    var next := NextCmd(su.area.sector, su.info, cmd);
    var k := cmd.cmd3;
    forall phase: byte, inplace | 0x10 <= phase < 0x20
      ensures Phase(WithInplace(phase, inplace)) == phase && Inplace(WithInplace(phase, inplace)) == inplace
    {
      PhaseBits(phase, inplace);
    }
    hide Inplace, WithInplace, Sectors;
    match Phase(cmd.cmd2)
    case 0x10 =>
      NextFromStart(su, cmd);
    case 0x14 =>
      NextFromP1(su, cmd);
    case 0x16 =>
      NextFromP2(su, cmd);
    case _ =>
  }

  // From P1 on this needs no more than lengths that can be counted.
  lemma NextCounts(su: Setup, cmd: Cmd)
    requires su.Countable() && CmdOk(su, cmd) && Going(cmd.cmd2)
    requires Phase(cmd.cmd2) != CMD2_SWP_START && Phase(cmd.cmd2) != CMD2_MOVE_UP
    ensures var next := NextCmd(su.area.sector, su.info, cmd);
            && CmdOk(su, next) && Remaining(su, next) == Remaining(su, cmd) - 1
            && Phase(next.cmd2) != CMD2_SWP_START && Phase(next.cmd2) != CMD2_MOVE_UP
            && (Phase(next.cmd2) == CMD2_SWP_P1 || Phase(next.cmd2) == CMD2_SWP_P2 ==>
                  && (Phase(cmd.cmd2) == CMD2_SWP_P1 || Phase(cmd.cmd2) == CMD2_SWP_P2)
                  && cmd.cmd3 <= next.cmd3
                  && (Phase(cmd.cmd2) == CMD2_SWP_P2 ==> next.cmd3 == cmd.cmd3 + 1))
  {
    forall phase: byte, inplace | 0x10 <= phase < 0x20
      ensures Phase(WithInplace(phase, inplace)) == phase && Inplace(WithInplace(phase, inplace)) == inplace
    {
      PhaseBits(phase, inplace);
    }
    hide Inplace, WithInplace, Sectors;
    if Phase(cmd.cmd2) == CMD2_SWP_P1 {
      NextFromP1(su, cmd);
    } else if Phase(cmd.cmd2) == CMD2_SWP_P2 {
      NextFromP2(su, cmd);
    }
  }

  lemma OkCounts(su: Setup)
    requires su.Ok()
    ensures su.Countable()
  {
    hide Sectors, EncOk;
  }

  // ----- a whole step -----

  // The two slots and the swap status area, as ranges.
  lemma SlotsApart(su: Setup)
    requires su.Ok()
    ensures var s := su.area.sector;
            && s > 0 && s % 16 == 0
            && Slots(su.To(), su.ToSize(), su.Fr(), su.area.slt1_size, su.inplace)
            && 0 <= su.To() && su.To() + su.ToSize() <= su.area.flash_size
            && 0 <= su.Fr() && su.Fr() + su.area.slt1_size <= su.area.flash_size
            && su.ToSize() % s == 0 && su.area.slt1_size % s == 0
            && |su.Old()| == Max(0, su.OldLen()) == |su.OldOut()| && |su.New()| == Max(0, su.NewLen()) == |su.NewOut()|
  {
    hide Transform, EncOk;
  }

  lemma OkArea(su: Setup)
    requires su.Ok()
    ensures su.area.Ok() && su.area.sector > 0
  {}

  lemma PlaceFacts(su: Setup)
    requires su.Ok()
    ensures su.area.Ok() && su.area.sector > 0 && su.Fr() == su.area.slt1_offset && su.OldLen() == su.info.EndTo()
    ensures var s := su.area.sector;
            && su.NewLen() + s <= su.area.slt0_size && su.NewLen() + s <= su.area.slt1_size
            && su.OldLen() + s <= su.ToSize() && su.OldLen() + s <= su.area.slt1_size
    ensures su.inplace ==>
              su.NewLen() == 0 && |su.New()| == 0 && su.To() == su.area.slt1_offset && su.ToSize() == su.area.slt1_size
    ensures !su.inplace ==>
              su.To() == su.area.slt0_offset && su.ToSize() == su.area.slt0_size && su.NewLen() == su.info.EndFr()
    ensures Apart(su.area.slt0_offset, su.area.slt0_size, su.area.slt1_offset, su.area.slt1_size)
    ensures su.area.sector <= su.area.slt0_size && su.area.sector <= su.area.slt1_size
  {
    hide Sectors, EncOk;
  }

  lemma UntouchedKept(su: Setup, p: Pos, q: Pos, mem: seq<byte>, r: seq<byte>, lo: int, hi: int)
    requires Untouched(su, p, mem) && SameOutside(mem, r, lo, hi) && q.phase != CMD2_SWP_START
    requires su.OldLen() <= 0 ==> hi <= su.Fr() || su.Fr() + su.NewLen() <= lo
    requires su.inplace ==> hi <= su.area.slt0_offset || su.area.Slt0End() <= lo
    ensures Untouched(su, q, r)
  {
    hide Slice;
  }

  // Where the machine goes from phase and offset.
  lemma PosAfterMoveUp(su: Setup, cmd: Cmd)
    requires su.Ok() && CmdOk(su, cmd) && Phase(cmd.cmd2) == CMD2_MOVE_UP
    ensures PosOf(su.area.sector, NextCmd(su.area.sector, su.info, cmd))
         == if cmd.cmd3 == 0 then Pos(if su.inplace then CMD2_SWP_P2 else CMD2_SWP_P1, 0)
            else Pos(CMD2_MOVE_UP, (cmd.cmd3 - 1) * su.area.sector)
  {
    PhaseBits(CMD2_SWP_P1, su.inplace);
    PhaseBits(CMD2_SWP_P2, su.inplace);
    PhaseBits(CMD2_MOVE_UP, su.inplace);
    hide Inplace, WithInplace, Sectors, Area.Ok;
  }

  lemma MoveUpData(aes: Aes, mem: seq<byte>, s: nat, info: SwpInfo, off: nat)
    requires s > 0 && info.to.hdr_start + off + 2 * s <= |mem|
    ensures var r := SectorMove(aes, mem, s, MoveUpCmd(s, info, off), s);
            var t := info.to.hdr_start;
            && SameOutside(mem, r, t + off + s, t + off + 2 * s)
            && forall a {:trigger At(r, a)} :: t + off + s <= a < t + off + 2 * s ==> At(r, a) == At(mem, a - s)
  {
    hide SectorMove, Xor, Keystream;
    SectorMoveAt(aes, mem, s, MoveUpCmd(s, info, off), s);
  }

  lemma MoveUpNumbers(su: Setup, cmd: Cmd, mem: seq<byte>, off: nat)
    requires su.Ok() && CmdOk(su, cmd) && Phase(cmd.cmd2) == CMD2_MOVE_UP && off == cmd.cmd3 * su.area.sector
    ensures var s := su.area.sector;
            && s > 0 && 0 < su.OldLen() && su.To() + su.ToSize() <= su.area.flash_size && off + 2 * s <= su.ToSize()
            && StepMem(su.cr, su.area, su.info, cmd, mem)
                == SectorMove(su.cr.aes, mem, s, MoveUpCmd(s, su.info, off), s)
            && Target(su.area, su.info, cmd) == (su.To() + off + s, su.To() + off + 2 * s)
            && PosOf(s, cmd) == Pos(CMD2_MOVE_UP, off)
            && (if cmd.cmd3 == 0 then
                  off == 0 && PosOf(s, NextCmd(s, su.info, cmd)) == Pos(if su.inplace then CMD2_SWP_P2
                      else CMD2_SWP_P1, 0)
                else
                  off >= s && PosOf(s, NextCmd(s, su.info, cmd)) == Pos(CMD2_MOVE_UP, off - s))
  {
    var s, k := su.area.sector, cmd.cmd3;
    PosAfterMoveUp(su, cmd);
    SlotsApart(su);
    SectorsFacts(su.OldLen(), s, k);
    SectorRoom(k, s, su.OldLen(), su.ToSize());
    if k > 0 {
      NextSector(k - 1, s);
      MulMonotone(0, k - 1, s);
    }
    hide SectorMove, Setup.Ok, Sectors, NextCmd, Inplace, WithInplace;
  }

  lemma MoveUpStep(su: Setup, cmd: Cmd, mem: seq<byte>)
    requires su.Ok() && CmdOk(su, cmd) && Phase(cmd.cmd2) == CMD2_MOVE_UP
    requires Intact(su, PosOf(su.area.sector, cmd), mem)
    ensures Intact(su, PosOf(su.area.sector, NextCmd(su.area.sector, su.info, cmd)),
                   StepMem(su.cr, su.area, su.info, cmd, mem))
    ensures var (lo, hi) := Target(su.area, su.info, cmd);
            SameOutside(mem, StepMem(su.cr, su.area, su.info, cmd, mem), lo, hi)
  {
    hide Intact, SectorMove, Setup.Ok, NextCmd, StepMem, Target, CmdOk, Sectors, Phase, PosOf, SameOutside,
         Setup.OldLen, Setup.NewLen, Setup.ToSize;
    var s, off := su.area.sector, cmd.cmd3 * su.area.sector;
    IntactLength(su, PosOf(s, cmd), mem);
    MoveUpNumbers(su, cmd, mem, off);
    MoveUpData(su.cr.aes, mem, s, su.info, off);
    MoveUpAssemble(su, off, mem, StepMem(su.cr, su.area, su.info, cmd, mem), PosOf(s, NextCmd(s, su.info, cmd)));
  }

  lemma MoveUpAssemble(su: Setup, off: nat, mem: seq<byte>, r: seq<byte>, q: Pos)
    requires su.Ok() && su.OldLen() > 0 && Intact(su, Pos(CMD2_MOVE_UP, off), mem)
    requires var s := su.area.sector;
             && off + 2 * s <= su.ToSize()
             && SameOutside(mem, r, su.To() + off + s, su.To() + off + 2 * s)
             && forall a {:trigger At(r, a)} :: su.To() + off + s <= a < su.To() + off + 2 * s
                 ==> At(r, a) == At(mem, a - s)
    requires || (off >= su.area.sector && q == Pos(CMD2_MOVE_UP, off - su.area.sector))
             || (off == 0 && q == Pos(if su.inplace then CMD2_SWP_P2 else CMD2_SWP_P1, 0))
    ensures Intact(su, q, r)
  {
    var s := su.area.sector;
    SlotsApart(su);
    assert su.inplace ==> su.To() == su.area.slt1_offset && su.ToSize() == su.area.slt1_size && su.NewLen() == 0;
    assert Apart(su.area.slt0_offset, su.area.slt0_size, su.area.slt1_offset, su.area.slt1_size);
    assert su.NewLen() <= su.area.slt1_size;
    hide Setup.Ok, Transform, Slice, Sectors, OldPlaces, NewPlaces;
    MoveUpOld(mem, r, su.To(), su.Fr(), s, off, su.Old(), su.OldOut());
    MoveUpNew(mem, r, su.To(), su.Fr(), s, off, su.ToSize(), su.area.slt1_size, su.New(), su.NewOut());
    UntouchedKept(su, Pos(CMD2_MOVE_UP, off), q, mem, r, su.To() + off + s, su.To() + off + 2 * s);
  }

  lemma PosAfterP1(su: Setup, cmd: Cmd)
    requires su.Ok() && CmdOk(su, cmd) && Phase(cmd.cmd2) == CMD2_SWP_P1
    ensures var off := cmd.cmd3 * su.area.sector;
            PosOf(su.area.sector, NextCmd(su.area.sector, su.info, cmd)) ==
              Pos(if off < su.NewLen() || off < su.OldLen() then CMD2_SWP_P2 else CMD2_SWP_P3, off)
  {
    PhaseBits(CMD2_SWP_P2, su.inplace);
    PhaseBits(CMD2_SWP_P3, su.inplace);
    hide Inplace, WithInplace, Sectors, Area.Ok;
  }

  // A sector of an image, read at src + off and moved to dst + off, comes out as that part of the transformed image.
  lemma SectorOut(aes: Aes, mem: seq<byte>, s: nat, mc: MoveCmd, len: nat, info: ImgInfo, img: seq<byte>,
                  src: int, dst: int, off: nat)
    requires mc.key == info.enc_key && mc.fr_eoff == info.enc_start + (src - info.hdr_start)
    requires mc.fr_off == src + off && mc.to_off == dst + off && mc.to_off + s <= |mem|
    requires len <= s && off + len <= |img| && (len == s || off + len == |img|)
    requires Apart(mc.fr_off, len, mc.to_off, s)
    requires (mc.fr_eoff - mc.fr_off) % 16 == 0 || mc.fr_off + len <= mc.fr_eoff
    requires Holds(mem, src, off, |img|, img)
    ensures var r := SectorMove(aes, mem, s, mc, len);
            SameOutside(mem, r, dst + off, dst + off + s) && Holds(r, dst, off, off + s, Transform(aes, info, img))
  {
    hide SectorMove, Crypt, Xor, Keystream;
    SectorMoveAt(aes, mem, s, mc, len);
    var r := SectorMove(aes, mem, s, mc, len);
    forall a {:trigger At(r, a)} | dst + off <= a < dst + off + len
      ensures At(r, a) == Transform(aes, info, img)[a - dst]
    {
      var i := a - dst;
      assert mc.fr_off + (a - mc.to_off) == src + i == (info.hdr_start + i) + (src - info.hdr_start);
      assert At(mem, src + i) == img[i];
      CryptShift(aes, info.enc_key, info.enc_start, info.hdr_start + i, img[i], src - info.hdr_start);
    }
  }

  lemma P1Ready(su: Setup, off: nat)
    requires su.Ok() && !su.inplace && off < su.NewLen() && off % 16 == 0
    requires off + su.area.sector <= su.area.slt0_size
    ensures var mc, len := P1Cmd(su.info, off), Min(su.info.EndFr() - off, su.area.sector);
            && Apart(mc.fr_off, len, mc.to_off, su.area.sector) && 0 < len
            && ((mc.fr_eoff - mc.fr_off) % 16 == 0 || mc.fr_off + len <= mc.fr_eoff)
            && mc.fr_off + len <= su.Fr() + su.NewLen() && mc.to_off + su.area.sector <= su.area.flash_size
            && |su.New()| == su.NewLen() && mc.to_off == su.To() + off && mc.fr_off == su.Fr() + off
            && (off + su.area.sector <= su.NewLen() ==> len == su.area.sector)
            && (su.NewLen() < off + su.area.sector ==> off + len == su.NewLen())
  {
    hide Slice;
    if su.info.fr.enc_start < su.info.fr.end {
      DifferenceOf16(su.info.fr.enc_start - su.Fr(), off);
    }
  }

  lemma P1Data(su: Setup, off: nat, mem: seq<byte>)
    requires su.Ok() && !su.inplace && off < su.NewLen() && off % 16 == 0
    requires off + su.area.sector <= su.area.slt0_size && off < su.area.slt1_size && |mem| == su.area.flash_size
    requires Intact(su, Pos(CMD2_SWP_P1, off), mem)
    ensures var s := su.area.sector;
            var r := SectorMove(su.cr.aes, mem, s, P1Cmd(su.info, off), Min(su.info.EndFr() - off, s));
            && SameOutside(mem, r, su.To() + off, su.To() + off + s)
            && Holds(r, su.To(), off, off + s, su.NewOut())
  {
    var s := su.area.sector;
    var mc := P1Cmd(su.info, off);
    var len := Min(su.info.EndFr() - off, s);
    P1Ready(su, off);
    SlotsApart(su);
    hide Setup.Ok, Transform, Slice;
    SectorOut(su.cr.aes, mem, s, mc, len, su.info.fr, su.New(), su.Fr(), su.To(), off);
  }

  lemma DifferenceOf16(a: int, b: int)
    requires a % 16 == 0 && b % 16 == 0
    ensures (a - b) % 16 == 0
  {}

  lemma P1Numbers(su: Setup, cmd: Cmd, mem: seq<byte>, off: nat)
    requires su.Ok() && CmdOk(su, cmd) && Phase(cmd.cmd2) == CMD2_SWP_P1 && off == cmd.cmd3 * su.area.sector
    ensures var s := su.area.sector;
            && !su.inplace && off % 16 == 0 && PosOf(s, cmd) == Pos(CMD2_SWP_P1, off)
            && (if off < su.NewLen() then
                  && off + s <= su.area.slt0_size && off < su.area.slt1_size
                  && StepMem(su.cr, su.area, su.info, cmd, mem)
                     == SectorMove(su.cr.aes, mem, s, P1Cmd(su.info, off), Min(su.info.EndFr() - off, s))
                  && Target(su.area, su.info, cmd) == (su.To() + off, su.To() + off + s)
                  && PosOf(s, NextCmd(s, su.info, cmd)) == Pos(CMD2_SWP_P2, off)
                else
                  && StepMem(su.cr, su.area, su.info, cmd, mem) == mem && Target(su.area, su.info, cmd) == (0, 0)
                  && PosOf(s, NextCmd(s, su.info, cmd)) == Pos(if off < su.OldLen() then CMD2_SWP_P2
                      else CMD2_SWP_P3, off))
  {
    hide Setup.Ok, CmdOk, StepMem, Target, SectorMove, Sectors, NextCmd, Phase, Setup.OldLen, Setup.NewLen;
    P1Room(su, cmd);
    P1StepIs(su, cmd, mem, off);
    PosAfterP1(su, cmd);
  }

  lemma P1Room(su: Setup, cmd: Cmd)
    requires su.Ok() && CmdOk(su, cmd) && Phase(cmd.cmd2) == CMD2_SWP_P1
    ensures var s, off := su.area.sector, cmd.cmd3 * su.area.sector;
            && !su.inplace && s > 0 && off % 16 == 0
            && (off < su.NewLen() ==> off + s <= su.area.slt0_size && off < su.area.slt1_size)
  {
    var s, k := su.area.sector, cmd.cmd3;
    SectorAligned(k, s);
    if k * s < su.NewLen() {
      SectorRoom(k, s, su.NewLen(), su.area.slt0_size);
    }
    hide Sectors, EncOk, Inplace;
  }

  // What StepMem and Target say in phase 1.
  lemma P1StepIs(su: Setup, cmd: Cmd, mem: seq<byte>, off: nat)
    requires Phase(cmd.cmd2) == CMD2_SWP_P1 && off == cmd.cmd3 * su.area.sector && !su.inplace
    ensures var s := su.area.sector;
            && PosOf(s, cmd) == Pos(CMD2_SWP_P1, off)
            && (if off < su.NewLen() then
                  && StepMem(su.cr, su.area, su.info, cmd, mem)
                     == SectorMove(su.cr.aes, mem, s, P1Cmd(su.info, off), Min(su.info.EndFr() - off, s))
                  && Target(su.area, su.info, cmd) == (su.To() + off, su.To() + off + s)
                else
                  StepMem(su.cr, su.area, su.info, cmd, mem) == mem && Target(su.area, su.info, cmd) == (0, 0))
  {
    hide SectorMove, Phase;
  }

  lemma P1Step(su: Setup, cmd: Cmd, mem: seq<byte>)
    requires su.Ok() && CmdOk(su, cmd) && Phase(cmd.cmd2) == CMD2_SWP_P1
    requires Intact(su, PosOf(su.area.sector, cmd), mem)
    ensures Intact(su, PosOf(su.area.sector, NextCmd(su.area.sector, su.info, cmd)),
                   StepMem(su.cr, su.area, su.info, cmd, mem))
    ensures var (lo, hi) := Target(su.area, su.info, cmd);
            SameOutside(mem, StepMem(su.cr, su.area, su.info, cmd, mem), lo, hi)
  {
    hide Intact, SectorMove, Setup.Ok, NextCmd, StepMem, Target, CmdOk, Sectors, Phase, PosOf, Setup.OldLen,
         Setup.NewLen, Setup.ToSize;
    var s, off := su.area.sector, cmd.cmd3 * su.area.sector;
    PlaceFacts(su);
    IntactLength(su, PosOf(s, cmd), mem);
    P1Numbers(su, cmd, mem, off);
    if off < su.NewLen() {
      P1Data(su, off, mem);
      P1Assemble(su, off, mem, StepMem(su.cr, su.area, su.info, cmd, mem));
    } else {
      P1Skip(su, off, mem, PosOf(s, NextCmd(s, su.info, cmd)).phase);
    }
  }

  lemma P1Assemble(su: Setup, off: nat, mem: seq<byte>, r: seq<byte>)
    requires su.Ok() && !su.inplace && Intact(su, Pos(CMD2_SWP_P1, off), mem)
    requires off + su.area.sector <= su.area.slt0_size
    requires SameOutside(mem, r, su.To() + off, su.To() + off + su.area.sector)
    requires Holds(r, su.To(), off, off + su.area.sector, su.NewOut())
    ensures Intact(su, Pos(CMD2_SWP_P2, off), r)
  {
    hide Setup.Ok, Transform, Slice, OldPlaces, NewPlaces, Area.Ok, Setup.OldLen, Setup.NewLen, Setup.ToSize, Setup.To,
         Setup.Fr;
    var s := su.area.sector;
    SlotsApart(su);
    PlaceFacts(su);
    P1Old(mem, r, su.To(), su.Fr(), s, off, su.ToSize(), su.area.slt1_size, su.Old(), su.OldOut());
    P1New(mem, r, su.To(), su.Fr(), s, off, su.ToSize(), su.area.slt1_size, su.New(), su.NewOut());
    UntouchedKept(su, Pos(CMD2_SWP_P1, off), Pos(CMD2_SWP_P2, off), mem, r, su.To() + off, su.To() + off + s);
  }

  // A turn without a move: the image that is already through just waits for the other one.
  lemma P1Skip(su: Setup, off: nat, mem: seq<byte>, phase: byte)
    requires su.Ok() && !su.inplace && Intact(su, Pos(CMD2_SWP_P1, off), mem) && su.NewLen() <= off
    requires phase == CMD2_SWP_P2 || (phase == CMD2_SWP_P3 && su.OldLen() <= off)
    ensures Intact(su, Pos(phase, off), mem)
  {
    SlotsApart(su);
    hide Setup.Ok, Transform, Slice;
  }

  lemma PosAfterP2(su: Setup, cmd: Cmd, off: nat)
    requires su.Ok() && CmdOk(su, cmd) && Phase(cmd.cmd2) == CMD2_SWP_P2 && off == cmd.cmd3 * su.area.sector
    ensures su.area.sector > 0
    ensures PosOf(su.area.sector, NextCmd(su.area.sector, su.info, cmd)) ==
              if off < su.OldLen() then Pos(if su.inplace then CMD2_SWP_P2 else CMD2_SWP_P1, off + su.area.sector)
              else if off < su.NewLen() then Pos(CMD2_SWP_P1, off + su.area.sector)
              else Pos(CMD2_SWP_P3, off)
  {
    var s, k := su.area.sector, cmd.cmd3;
    PhaseBits(CMD2_SWP_P1, su.inplace);
    PhaseBits(CMD2_SWP_P2, su.inplace);
    PhaseBits(CMD2_SWP_P3, su.inplace);
    NextSector(k, s);
    NextFromP2(su, cmd);
    SectorsFacts(su.OldLen(), s, k);
    SectorsFacts(su.NewLen(), s, k);
    assert su.inplace ==> su.NewLen() == 0 && k * s >= 0;
    hide Inplace, WithInplace, Sectors, Area.Ok, NextCmd;
  }

  lemma P2Ready(su: Setup, off: nat)
    requires su.Ok() && off < su.OldLen() && off % 16 == 0
    requires off + su.area.sector <= su.area.slt1_size
    ensures var mc, len := P2Cmd(su.area.sector, su.info, off), Min(su.info.EndTo() - off, su.area.sector);
            && Apart(mc.fr_off, len, mc.to_off, su.area.sector) && 0 < len
            && ((mc.fr_eoff - mc.fr_off) % 16 == 0 || mc.fr_off + len <= mc.fr_eoff)
            && mc.fr_off + len <= su.To() + su.area.sector + su.OldLen()
                && mc.to_off + su.area.sector <= su.area.flash_size
            && |su.Old()| == su.OldLen() && mc.to_off == su.Fr() + off && mc.fr_off == su.To() + su.area.sector + off
            && (off + su.area.sector <= su.OldLen() ==> len == su.area.sector)
            && (su.OldLen() < off + su.area.sector ==> off + len == su.OldLen())
  {
    hide Slice;
    if su.info.to.enc_start < su.info.to.end {
      DifferenceOf16(su.info.to.enc_start - su.To(), off);
    }
  }

  lemma P2Data(su: Setup, off: nat, mem: seq<byte>)
    requires su.Ok() && off < su.OldLen() && off % 16 == 0
    requires off + su.area.sector <= su.area.slt1_size && |mem| == su.area.flash_size
    requires Intact(su, Pos(CMD2_SWP_P2, off), mem)
    ensures var s := su.area.sector;
            var r := SectorMove(su.cr.aes, mem, s, P2Cmd(s, su.info, off), Min(su.info.EndTo() - off, s));
            && SameOutside(mem, r, su.Fr() + off, su.Fr() + off + s)
            && Holds(r, su.Fr(), off, off + s, su.OldOut())
  {
    hide Setup.Ok, Transform, Slice, SectorMove, Area.Ok, Setup.OldLen, Setup.NewLen, Setup.ToSize;
    var s := su.area.sector;
    P2Ready(su, off);
    SlotsApart(su);
    OldHeld(su, off, mem);
    SectorOut(su.cr.aes, mem, s, P2Cmd(s, su.info, off), Min(su.info.EndTo() - off, s), su.info.to, su.Old(),
        su.To() + s,
              su.Fr(), off);
  }

  lemma OldHeld(su: Setup, off: nat, mem: seq<byte>)
    requires Intact(su, Pos(CMD2_SWP_P2, off), mem)
    ensures Holds(mem, su.To() + su.area.sector, off, |su.Old()|, su.Old())
  {
    hide Setup.Ok, Transform, Slice, NewPlaces, Untouched, Holds;
  }

  lemma P2Numbers(su: Setup, cmd: Cmd, mem: seq<byte>, off: nat)
    requires su.Ok() && CmdOk(su, cmd) && Phase(cmd.cmd2) == CMD2_SWP_P2 && off == cmd.cmd3 * su.area.sector
    ensures var s := su.area.sector;
            && off % 16 == 0 && PosOf(s, cmd) == Pos(CMD2_SWP_P2, off)
            && (if off < su.OldLen() then
                  && off + s <= su.area.slt1_size
                  && StepMem(su.cr, su.area, su.info, cmd, mem)
                     == SectorMove(su.cr.aes, mem, s, P2Cmd(s, su.info, off), Min(su.info.EndTo() - off, s))
                  && Target(su.area, su.info, cmd) == (su.Fr() + off, su.Fr() + off + s)
                  && PosOf(s, NextCmd(s, su.info, cmd)) == Pos(if su.inplace then CMD2_SWP_P2 else CMD2_SWP_P1, off + s)
                else
                  && StepMem(su.cr, su.area, su.info, cmd, mem) == mem && Target(su.area, su.info, cmd) == (0, 0)
                  && PosOf(s, NextCmd(s, su.info, cmd))
                     == if off < su.NewLen() then Pos(CMD2_SWP_P1, off + s) else Pos(CMD2_SWP_P3, off))
  {
    hide Setup.Ok, CmdOk, StepMem, Target, SectorMove, Sectors, NextCmd, Phase, Setup.OldLen, Setup.NewLen;
    P2StepIs(su, cmd, mem, off);
    PosAfterP2(su, cmd, off);
    P2Room(su, cmd.cmd3);
  }

  lemma P2Room(su: Setup, k: nat)
    requires su.Ok()
    ensures var s := su.area.sector;
            s > 0 && (k * s) % 16 == 0 && (k * s < su.OldLen() ==> k * s + s <= su.area.slt1_size)
  {
    SectorAligned(k, su.area.sector);
    if k * su.area.sector < su.OldLen() {
      SectorRoom(k, su.area.sector, su.OldLen(), su.area.slt1_size);
    }
    hide Sectors, EncOk;
  }

  // What StepMem and Target say in phase 2.
  lemma P2StepIs(su: Setup, cmd: Cmd, mem: seq<byte>, off: nat)
    requires Phase(cmd.cmd2) == CMD2_SWP_P2 && off == cmd.cmd3 * su.area.sector
    ensures var s := su.area.sector;
            && PosOf(s, cmd) == Pos(CMD2_SWP_P2, off)
            && (if off < su.OldLen() then
                  && StepMem(su.cr, su.area, su.info, cmd, mem)
                     == SectorMove(su.cr.aes, mem, s, P2Cmd(s, su.info, off), Min(su.info.EndTo() - off, s))
                  && Target(su.area, su.info, cmd) == (su.Fr() + off, su.Fr() + off + s)
                else
                  StepMem(su.cr, su.area, su.info, cmd, mem) == mem && Target(su.area, su.info, cmd) == (0, 0))
  {
    hide SectorMove, Phase;
  }

  lemma P2Step(su: Setup, cmd: Cmd, mem: seq<byte>)
    requires su.Ok() && CmdOk(su, cmd) && Phase(cmd.cmd2) == CMD2_SWP_P2
    requires Intact(su, PosOf(su.area.sector, cmd), mem)
    ensures Intact(su, PosOf(su.area.sector, NextCmd(su.area.sector, su.info, cmd)),
                   StepMem(su.cr, su.area, su.info, cmd, mem))
    ensures var (lo, hi) := Target(su.area, su.info, cmd);
            SameOutside(mem, StepMem(su.cr, su.area, su.info, cmd, mem), lo, hi)
  {
    hide Intact, SectorMove, Setup.Ok, NextCmd, StepMem, Target, CmdOk, Sectors, Phase, PosOf, Setup.OldLen,
         Setup.NewLen, Setup.ToSize;
    var s, off := su.area.sector, cmd.cmd3 * su.area.sector;
    PlaceFacts(su);
    IntactLength(su, PosOf(s, cmd), mem);
    P2Numbers(su, cmd, mem, off);
    assert su.inplace ==> su.NewLen() == 0;
    if off < su.OldLen() {
      P2Data(su, off, mem);
      P2Assemble(su, off, mem, StepMem(su.cr, su.area, su.info, cmd, mem));
    } else {
      P2Skip(su, off, mem, PosOf(s, NextCmd(s, su.info, cmd)));
    }
  }

  lemma P2Assemble(su: Setup, off: nat, mem: seq<byte>, r: seq<byte>)
    requires su.Ok() && off < su.OldLen() && Intact(su, Pos(CMD2_SWP_P2, off), mem)
    requires off + su.area.sector <= su.area.slt1_size
    requires SameOutside(mem, r, su.Fr() + off, su.Fr() + off + su.area.sector)
    requires Holds(r, su.Fr(), off, off + su.area.sector, su.OldOut())
    ensures Intact(su, Pos(if su.inplace then CMD2_SWP_P2 else CMD2_SWP_P1, off + su.area.sector), r)
  {
    hide Setup.Ok, Transform, Slice, OldPlaces, NewPlaces, Area.Ok, Setup.OldLen, Setup.NewLen, Setup.ToSize, Setup.To,
         Setup.Fr, Untouched, SameOutside, Holds;
    var s := su.area.sector;
    var p, q := Pos(CMD2_SWP_P2, off), Pos(if su.inplace then CMD2_SWP_P2 else CMD2_SWP_P1, off + s);
    SlotsApart(su);
    PlaceFacts(su);
    P2Old(mem, r, su.To(), su.Fr(), s, off, su.ToSize(), su.area.slt1_size, su.inplace, su.Old(), su.OldOut());
    P2New(mem, r, su.To(), su.Fr(), s, off, su.ToSize(), su.area.slt1_size, su.New(), su.NewOut());
    UntouchedKept(su, p, q, mem, r, su.Fr() + off, su.Fr() + off + s);
  }

  lemma P2Skip(su: Setup, off: nat, mem: seq<byte>, q: Pos)
    requires su.Ok() && Intact(su, Pos(CMD2_SWP_P2, off), mem) && su.OldLen() <= off
    requires (q == Pos(CMD2_SWP_P1, off + su.area.sector) && !su.inplace) || (q == Pos(CMD2_SWP_P3, off)
        && su.NewLen() <= off)
    ensures Intact(su, q, mem)
  {
    SlotsApart(su);
    hide Setup.Ok, Transform, Slice;
  }

  lemma OldPlacesKept(mem: seq<byte>, r: seq<byte>, p: Pos, t: int, f: int, s: int, img: seq<byte>, out: seq<byte>,
                      lo: int, hi: int)
    requires OldPlaces(mem, p, t, f, s, img, out) && SameOutside(mem, r, lo, hi) && |out| == |img|
    requires hi <= t || t + |img| <= lo
    requires hi <= t + s || t + s + |img| <= lo
    requires hi <= f || f + |img| <= lo
    ensures OldPlaces(r, p, t, f, s, img, out)
  {}

  lemma NewPlacesKept(mem: seq<byte>, r: seq<byte>, p: Pos, t: int, f: int, s: int, img: seq<byte>, out: seq<byte>,
                      lo: int, hi: int)
    requires NewPlaces(mem, p, t, f, s, img, out) && SameOutside(mem, r, lo, hi) && |out| == |img|
    requires hi <= t || t + |img| <= lo
    requires hi <= f || f + |img| <= lo
    ensures NewPlaces(r, p, t, f, s, img, out)
  {}

  // Changes outside both slots do not matter to the images.
  lemma IntactOutside(su: Setup, p: Pos, mem: seq<byte>, r: seq<byte>, lo: int, hi: int)
    requires su.Ok() && Intact(su, p, mem) && SameOutside(mem, r, lo, hi) && lo <= hi
    requires Apart(lo, hi - lo, su.area.slt0_offset, su.area.slt0_size)
    requires Apart(lo, hi - lo, su.area.slt1_offset, su.area.slt1_size)
    ensures Intact(su, p, r)
  {
    OutsideBothSlots(su, lo, hi);
    assert Untouched(su, p, r) by {
      hide Transform, Slice, Sectors, OldPlaces, NewPlaces;
    }
    hide Setup.Ok, Transform, Slice, Sectors, OldPlaces, NewPlaces, Untouched;
    OldPlacesKept(mem, r, p, su.To(), su.Fr(), su.area.sector, su.Old(), su.OldOut(), lo, hi);
    NewPlacesKept(mem, r, p, su.To(), su.Fr(), su.area.sector, su.New(), su.NewOut(), lo, hi);
  }

  lemma OutsideBothSlots(su: Setup, lo: int, hi: int)
    requires su.Ok() && lo <= hi
    requires Apart(lo, hi - lo, su.area.slt0_offset, su.area.slt0_size)
    requires Apart(lo, hi - lo, su.area.slt1_offset, su.area.slt1_size)
    ensures hi <= su.To() || su.To() + |su.Old()| <= lo
    ensures hi <= su.To() + su.area.sector || su.To() + su.area.sector + |su.Old()| <= lo
    ensures hi <= su.Fr() || su.Fr() + |su.Old()| <= lo
    ensures hi <= su.To() || su.To() + |su.New()| <= lo
    ensures hi <= su.Fr() || su.Fr() + |su.New()| <= lo
    ensures |su.OldOut()| == |su.Old()| && |su.NewOut()| == |su.New()|
  {
    SlotsApart(su);
    hide Transform, Slice, EncOk, Sectors;
  }

  // The last sector of either slot holds no part of an image once the images are in their places.
  lemma LastSectorErased(su: Setup, p: Pos, q: Pos, mem: seq<byte>, r: seq<byte>, lo: int)
    requires su.Ok() && Intact(su, p, mem) && SameOutside(mem, r, lo, lo + su.area.sector)
    requires p.phase == CMD2_SWP_P3 || p.phase == CMD2_SWP_P4
    requires q.phase == CMD2_SWP_P4 || q.phase == CMD2_SWP_END || q.phase == CMD2_SWP_P3
    requires lo == su.area.Slt0End() || lo == su.area.Slt1End()
    ensures Intact(su, q, r)
  {
    hide Setup.Ok, Transform, Slice, Sectors, Area.Ok, Setup.OldLen, Setup.NewLen, Setup.ToSize, Setup.To, Setup.Fr;
    var s := su.area.sector;
    SlotsApart(su);
    PlaceFacts(su);
    assert lo + s <= su.Fr() || su.Fr() + |su.Old()| <= lo;
    assert |su.New()| > 0 ==> lo + s <= su.To() || su.To() + |su.New()| <= lo;
    assert |su.New()| > 0 ==> lo + s <= su.Fr() || su.Fr() + |su.New()| <= lo;
    assert lo == su.area.Slt0End() || lo + s <= su.area.slt0_offset || su.area.slt0_offset + su.area.slt0_size <= lo;
    LastSectorParts(su, p, q, mem, r, lo);
  }

  lemma LastSectorParts(su: Setup, p: Pos, q: Pos, mem: seq<byte>, r: seq<byte>, lo: int)
    requires Intact(su, p, mem) && SameOutside(mem, r, lo, lo + su.area.sector) && su.area.sector > 0
    requires p.phase == CMD2_SWP_P3 || p.phase == CMD2_SWP_P4
    requires q.phase == CMD2_SWP_P4 || q.phase == CMD2_SWP_END || q.phase == CMD2_SWP_P3
    requires lo + su.area.sector <= su.Fr() || su.Fr() + |su.Old()| <= lo
    requires |su.New()| > 0 ==> lo + su.area.sector <= su.To() || su.To() + |su.New()| <= lo
    requires |su.New()| > 0 ==> lo + su.area.sector <= su.Fr() || su.Fr() + |su.New()| <= lo
    requires lo == su.area.Slt0End() || lo + su.area.sector <= su.area.slt0_offset
             || su.area.slt0_offset + su.area.slt0_size <= lo
    ensures Intact(su, q, r)
  {
    hide Transform, Slice;
  }

  // ----- the parameters and the record of phase 3 -----

  // Everything phase 3 writes is in the last sector of slot 0.
  lemma P3Inside(cr: Crypto, area: Area, mem: seq<byte>, cmd: Cmd)
    requires area.Ok() && |mem| == area.flash_size
    ensures SameOutside(mem, P3Mem(cr, area, mem, cmd), area.Slt0End(), area.Slt0End() + area.sector)
    ensures LogCommands(P3Mem(cr, area, mem, cmd), Slt0Log(area))
         == [P3Record(cr, area, Erased(mem, area.Slt0End(), area.sector), cmd)]
    ensures TailBlank(P3Mem(cr, area, mem, cmd), Slt0Log(area))
    ensures P3Mem(cr, area, mem, cmd)
         == Put(Put(Erased(mem, area.Slt0End(), area.sector), area.Slt0End(),
                    PrmBytes(P3Prm(cr, area, Inplace(cmd.cmd2), Erased(mem, area.Slt0End(), area.sector)))),
                area.Slt0End() + PRM_BYTES, Record(P3Record(cr, area, Erased(mem, area.Slt0End(), area.sector), cmd)))
  {
    var log := Slt0Log(area);
    Slt0LogOk(area);
    var e := Erased(mem, area.Slt0End(), area.sector);
    var p := Put(e, area.Slt0End(), PrmBytes(P3Prm(cr, area, Inplace(cmd.cmd2), e)));
    hide Area.Ok, P3Prm, P3Record, PrmBytes, Record, Commands, FirstFree, Records;
    assert Blank(p, log.start, log.end);
    ErasedLog(p, log, area.block);
    ErasedFree(p, log, area.block);
    AppendAddsLast(p, log, P3Record(cr, area, e, cmd), area.block);
    assert [] + [P3Record(cr, area, e, cmd)] == [P3Record(cr, area, e, cmd)];
  }

  lemma ErasedFree(mem: seq<byte>, log: Log, block: nat)
    requires log.Ok(block) && Blank(mem, log.start, log.end)
    ensures FirstFree(mem, log.start, log) == log.start && Room(mem, log) > 0
  {}

  lemma Slt0LogOk(area: Area)
    requires area.Ok()
    ensures var log := Slt0Log(area);
            && log.Ok(area.block) && log.start == area.Slt0End() + PRM_BYTES
            && log.end == area.Slt0End() + area.sector && 0 <= area.Slt0End() && log.end <= area.flash_size
  {
    EndAligned(area.slt0_offset, area.slt0_size, area.sector, area.block);
    hide LowBits;
    AlignedSum(area.block, area.Slt0End(), PRM_BYTES);
    Prm24(area.block);
    StrideIs(area.block);
    Eighths(area.sector);
    WholeRecords(Slt0Log(area), area.sector - PRM_BYTES);
  }

  lemma SwapLogOk(area: Area)
    requires area.Ok()
    ensures var log := SwapLog(area); log.Ok(area.block) && log.end <= area.flash_size && log.start < log.end
  {
    SectorMultiple16(area.swpstat_offset, area.sector);
    SectorMultiple16(area.swpstat_size, area.sector);
    Aligned16(area.block, area.swpstat_offset);
    StrideIs(area.block);
    Eighths(area.swpstat_size);
    WholeRecords(SwapLog(area), area.swpstat_size);
  }

  lemma Slt1LogOk(area: Area)
    requires area.Ok()
    ensures var log := Slt1Log(area);
            log.Ok(area.block) && log.start == area.Slt1End() && log.end == area.Slt1End() + area.sector
                && log.end <= area.flash_size
  {
    EndAligned(area.slt1_offset, area.slt1_size, area.sector, area.block);
    StrideIs(area.block);
    Eighths(area.sector);
    WholeRecords(Slt1Log(area), area.sector);
  }

  lemma Prm24(w: nat)
    requires BlockOk(w)
    ensures Aligned(w, PRM_BYTES)
  {}

  lemma StrideIs(w: nat)
    requires BlockOk(w)
    ensures Stride(w) == AlignSize(w, 4)
  {}

  lemma WholeRecords(log: Log, n: nat)
    requires log.stride == 4 || log.stride == 8
    requires n % 8 == 0
    ensures log.Whole(n)
  {
    assert n == 4 * (2 * (n / 8));
  }

  lemma Eighths(n: int)
    requires n % 16 == 0
    ensures n % 8 == 0 && (n - 24) % 8 == 0
  {
    assert n == 8 * (2 * (n / 16)) && n - 24 == 8 * (2 * (n / 16) - 3);
  }

  lemma EndAligned(off: nat, size: nat, sector: nat, w: nat)
    requires BlockOk(w) && sector > 0 && sector % 16 == 0 && off % sector == 0 && size % sector == 0
    ensures Aligned(w, off + size - sector)
  {
    SectorMultiple16(off, sector);
    SectorMultiple16(size, sector);
    SumOf16(off, size);
    DifferenceOf16(off + size, sector);
    Aligned16(w, off + size - sector);
  }

  lemma SectorMultiple16(x: nat, sector: nat)
    requires sector > 0 && sector % 16 == 0 && x % sector == 0
    ensures x % 16 == 0
  {
    SectorAligned(x / sector, sector);
    ProductOf(x, sector);
  }

  lemma ProductOf(x: nat, d: nat)
    requires d > 0 && x % d == 0
    ensures x == x / d * d
  {}
}
