// The swap machine of zb_img_cmd_proc (zepboot/src/zb_move.c) as functions: which command follows which, and what
// each step does to flash.
module Swap {
  import opened Bytes
  import opened CmdLog
  import opened Ctr
  import opened Digest
  import opened Flash
  import opened Header
  import opened Move
  import opened Params

  const CMD1_ERROR: byte := 0x80
  const CMD1_MASK_SWP_PERM: byte := 0x01
  const CMD1_MASK_SWP_REQUEST: byte := 0x10
  const CMD1_MASK_BT0_REQUEST: byte := 0x20
  const CMD2_MASK_INPLACE: byte := 0x20
  const CMD2_SWP_START: byte := 0x10
  const CMD2_MOVE_UP: byte := 0x12
  const CMD2_SWP_P1: byte := 0x14
  const CMD2_SWP_P2: byte := 0x16
  const CMD2_SWP_P3: byte := 0x18
  const CMD2_SWP_P4: byte := 0x19
  const CMD2_SWP_END: byte := 0x1f

  // cmd2 & CMD2_MASK_INPLACE
  predicate Inplace(cmd2: byte) {
    cmd2 / CMD2_MASK_INPLACE % 2 == 1
  }

  // cmd2 & ~CMD2_MASK_INPLACE
  function Phase(cmd2: byte): byte {
    if Inplace(cmd2) then cmd2 - CMD2_MASK_INPLACE else cmd2
  }

  // cmd2 | CMD2_MASK_INPLACE, when asked for
  function WithInplace(phase: byte, inplace: bool): byte {
    if inplace && !Inplace(phase) then phase + CMD2_MASK_INPLACE else phase
  }

  // cmd1 & CMD1_MASK_SWP_PERM, cmd1 & CMD1_MASK_SWP_REQUEST
  predicate Permanent(cmd1: byte) {
    cmd1 % 2 == 1
  }

  function MakePermanent(cmd1: byte): byte {
    if Permanent(cmd1) then cmd1 else cmd1 + CMD1_MASK_SWP_PERM
  }

  predicate Requested(cmd1: byte) {
    cmd1 / CMD1_MASK_SWP_REQUEST % 2 == 1
  }

  function ClearRequest(cmd1: byte): byte {
    if Requested(cmd1) then cmd1 - CMD1_MASK_SWP_REQUEST else cmd1
  }

  // A swap that is going on: zb_img_swap starts zb_img_cmd_proc for it.
  predicate Going(cmd2: byte) {
    CMD2_SWP_START <= Phase(cmd2) < CMD2_SWP_END
  }

  // zb_img_swp_info: `to` is moved up and out of the way, `fr` takes its place.
  datatype SwpInfo = SwpInfo(to: ImgInfo, fr: ImgInfo)
  {
    function EndFr(): int { fr.end - fr.hdr_start }
    function EndTo(): int { if to.is_valid then to.end - to.hdr_start else 0 }
  }

  // Images that run from RAM are not decrypted when they are swapped.
  function KeepForRam(area: Area, i: ImgInfo): ImgInfo {
    if InRam(area, i.load_address) then i.(enc_start := i.end) else i
  }

  // Which slots zb_get_img_swp_info reads as `to` and `fr`, and how far into the slot it looks for the header.
  function HeaderPlaces(sector: nat, cmd: Cmd): (nat, nat, nat) {
    var swapping := Phase(cmd.cmd2) == CMD2_SWP_P1 || Phase(cmd.cmd2) == CMD2_SWP_P2;
    if Inplace(cmd.cmd2) then (1, 1, 0)
    else if swapping && cmd.cmd3 == 0 then (0, 1, sector)
    else if swapping then (1, 0, 0)
    else (0, 1, 0)
  }

  // zb_get_img_swp_info
  function SwapInfoOf(cr: Crypto, area: Area, mem: seq<byte>, cmd: Cmd): SwpInfo {
    var (slt0, slt1, eoff) := HeaderPlaces(area.sector, cmd);
    SwpInfo(KeepForRam(area, ReadInfo(cr, mem, area, slt0, eoff)), KeepForRam(area, ReadInfo(cr, mem, area, slt1,
        eoff)))
  }

  // ----- the next command -----

  function NextCmd(sector: nat, info: SwpInfo, cmd: Cmd): Cmd
    requires sector > 0
  {
    var inplace := Inplace(cmd.cmd2);
    var off := cmd.cmd3 * sector;
    var up := (cmd.cmd3 + 1) % 256;
    var (phase, sec) :=
      match Phase(cmd.cmd2)
      case 0x10 =>
        if inplace && info.fr.enc_start == info.fr.end then (CMD2_SWP_P3, 0)
        else if info.EndTo() <= 0 then (CMD2_SWP_P1, 0)
        else (CMD2_MOVE_UP, (info.EndTo() - 1) / sector % 256)
      case 0x12 =>
        if cmd.cmd3 == 0 then (if inplace then CMD2_SWP_P2 else CMD2_SWP_P1, 0) else (CMD2_MOVE_UP, cmd.cmd3 - 1)
      case 0x14 =>
        (if off < info.EndFr() || off < info.EndTo() then CMD2_SWP_P2 else CMD2_SWP_P3, cmd.cmd3)
      case 0x16 =>
        if off < info.EndTo() then (if inplace then CMD2_SWP_P2 else CMD2_SWP_P1, up)
        else if off < info.EndFr() then (CMD2_SWP_P1, up)
        else (CMD2_SWP_P3, cmd.cmd3)
      case 0x18 => (CMD2_SWP_P4, cmd.cmd3)
      case 0x19 => (CMD2_SWP_END, cmd.cmd3)
      case other => (other, cmd.cmd3);
    Cmd(cmd.cmd1, WithInplace(phase, inplace), sec)
  }

  // ----- what a step does to flash -----

  // Erase a sector and move `len` octets into it.
  function SectorMove(aes: Aes, mem: seq<byte>, sector: nat, mc: MoveCmd, len: nat): (r: seq<byte>)
    ensures |r| == |mem|
  {
    var e := Erased(mem, mc.to_off, sector);
    Put(e, mc.to_off, MoveData(aes, e, mc, len))
  }

  // set_mcmd_moveup; its key is never used, because the whole sector is clear.
  function MoveUpCmd(sector: nat, info: SwpInfo, secoff: nat): MoveCmd {
    var fr_off := info.to.hdr_start + secoff;
    MoveCmd(fr_off, fr_off + sector, fr_off + sector, [])
  }

  // set_mcmd_swp_p1
  function P1Cmd(info: SwpInfo, secoff: nat): MoveCmd {
    MoveCmd(info.fr.hdr_start + secoff, info.fr.enc_start, info.to.hdr_start + secoff, info.fr.enc_key)
  }

  // set_mcmd_swp_p2
  function P2Cmd(sector: nat, info: SwpInfo, secoff: nat): MoveCmd {
    MoveCmd(info.to.hdr_start + secoff + sector, info.to.enc_start + sector, info.fr.hdr_start + secoff,
        info.to.enc_key)
  }

  // The parameters phase 3 computes from the two headers and images.
  function P3Prm(cr: Crypto, area: Area, inplace: bool, mem: seq<byte>): Prm {
    var i0 := ReadInfo(cr, mem, area, 0, 0);
    var i1 := ReadInfo(cr, mem, area, 1, 0);
    var crc0 := FlashCrc(cr, mem, i0.start, Max(0, i0.end - i0.start));
    if i1.is_valid then
      Prm(if inplace then i1.load_address else i0.load_address, i0.load_address, crc0,
          FlashCrc(cr, mem, i1.start, Max(0, i1.end - i1.start)), VersionU32(i0.version), VersionU32(i1.version))
    else
      Prm(i0.load_address, i0.load_address, crc0, EMPTY_U32, VersionU32(i0.version), 0)
  }

  // The command phase 3 records: no restore when slot 1 holds no image.
  function P3Record(cr: Crypto, area: Area, mem: seq<byte>, cmd: Cmd): Cmd {
    if ReadInfo(cr, mem, area, 1, 0).is_valid then cmd else cmd.(cmd1 := MakePermanent(cmd.cmd1))
  }

  function P3Mem(cr: Crypto, area: Area, mem: seq<byte>, cmd: Cmd): (r: seq<byte>)
    ensures |r| == |mem|
  {
    var e := Erased(mem, area.Slt0End(), area.sector);
    var p := Put(e, area.Slt0End(), PrmBytes(P3Prm(cr, area, Inplace(cmd.cmd2), e)));
    Append(p, Slt0Log(area), P3Record(cr, area, e, cmd))
  }

  function StepMem(cr: Crypto, area: Area, info: SwpInfo, cmd: Cmd, mem: seq<byte>): (r: seq<byte>)
    ensures |r| == |mem|
  {
    var s := area.sector;
    var off := cmd.cmd3 * s;
    match Phase(cmd.cmd2)
    case 0x12 => SectorMove(cr.aes, mem, s, MoveUpCmd(s, info, off), s)
    case 0x14 =>
      if off < info.EndFr() then SectorMove(cr.aes, mem, s, P1Cmd(info, off), Min(info.EndFr() - off, s)) else mem
    case 0x16 =>
      if off < info.EndTo() then SectorMove(cr.aes, mem, s, P2Cmd(s, info, off), Min(info.EndTo() - off, s)) else mem
    case 0x18 => P3Mem(cr, area, mem, cmd)
    case 0x19 => Erased(mem, area.Slt1End(), s)
    case _ => mem
  }

  // The range a step writes, apart from its log record; empty when it writes nothing.
  function Target(area: Area, info: SwpInfo, cmd: Cmd): (int, int) {
    var s := area.sector;
    var off := cmd.cmd3 * s;
    match Phase(cmd.cmd2)
    case 0x12 => (info.to.hdr_start + off + s, info.to.hdr_start + off + 2 * s)
    case 0x14 => if off < info.EndFr() then (info.to.hdr_start + off, info.to.hdr_start + off + s) else (0, 0)
    case 0x16 => if off < info.EndTo() then (info.fr.hdr_start + off, info.fr.hdr_start + off + s) else (0, 0)
    case 0x18 => (area.Slt0End(), area.Slt0End() + s)
    case 0x19 => (area.Slt1End(), area.Slt1End() + s)
    case _ => (0, 0)
  }

  // ----- the logs -----

  function SwapLog(area: Area): Log
  {
    Log(area.swpstat_offset, area.swpstat_offset + area.swpstat_size, Stride(area.block))
  }

  // The parameters take a whole number of write blocks, so the records of slot 0 start right after them.
  function Slt0Log(area: Area): Log {
    Log(Max(0, area.Slt0End()) + PRM_BYTES, area.slt0_offset + area.slt0_size, Stride(area.block))
  }

  function Slt1Log(area: Area): Log {
    Log(Max(0, area.Slt1End()), area.slt1_offset + area.slt1_size, Stride(area.block))
  }

  // Records are four octets, aligned to the write block.
  function Stride(block: nat): nat {
    if block == 8 then 8 else 4
  }

  // One whole turn of the loop: the step, then the record of the next command.
  function Iter(cr: Crypto, area: Area, info: SwpInfo, mem: seq<byte>): (r: seq<byte>)
    requires area.sector > 0
    ensures |r| == |mem|
  {
    match LastCmd(mem, SwapLog(area))
    case None => mem
    case Some(cmd) =>
      if cmd.cmd1 == CMD1_ERROR || !Going(cmd.cmd2) then mem
      else Append(StepMem(cr, area, info, cmd, mem), SwapLog(area), NextCmd(area.sector, info, cmd))
  }

  function IterN(cr: Crypto, area: Area, info: SwpInfo, mem: seq<byte>, n: nat): seq<byte>
    requires area.sector > 0
    decreases n
  {
    if n == 0 then mem else IterN(cr, area, info, Iter(cr, area, info, mem), n - 1)
  }

  // The same turns, counted from the other end.
  lemma {:induction false} IterNLast(cr: Crypto, area: Area, info: SwpInfo, mem: seq<byte>, n: nat)
    requires area.sector > 0
    ensures IterN(cr, area, info, mem, n + 1) == Iter(cr, area, info, IterN(cr, area, info, mem, n))
    decreases n
  {
    hide Iter;
    if n > 0 {
      IterNLast(cr, area, info, Iter(cr, area, info, mem), n - 1);
    }
  }
}
