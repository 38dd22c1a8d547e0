// zb_img_cmd_proc and its helpers, step by step over the flash device.
module Engine {
  import opened AfterSwap
  import opened AsWritten
  import opened Bytes
  import opened CmdLog
  import Ctr
  import opened Digest
  import opened Flash
  import opened Header
  import opened Images
  import opened Move
  import opened Params
  import opened Recovery
  import opened Requests
  import opened Runs
  import opened Swap

  // zb_img_swp_info as the caller hands it over: filled on first use.
  class SwpState {
    var info: SwpInfo
    var loaded: bool

    constructor ()
      ensures !loaded
    {
      info := SwpInfo(NoInfo(0), NoInfo(0));
      loaded := false;
    }
  }

  // zb_get_img_swp_info
  method GetImgSwpInfo(cr: Crypto, flash: FlashDevice, area: Area, st: SwpState, cmd: Cmd)
    requires flash.Valid()
    requires var (slt0, slt1, eoff) := HeaderPlaces(area.sector, cmd);
             && Readable(flash.mem, SlotOffset(area, slt0) + eoff, area.sector)
             && Readable(flash.mem, SlotOffset(area, slt1) + eoff, area.sector)
    modifies st
    ensures st.loaded && st.info == SwapInfoOf(cr, area, flash.mem, cmd)
  {
    hide WellFormed, ReadInfo, Magic, TlvArea, TlvAreaSize;
    var slt0, slt1, eoff := 0, 1, 0;
    if Phase(cmd.cmd2) == CMD2_SWP_P1 || Phase(cmd.cmd2) == CMD2_SWP_P2 {
      if cmd.cmd3 == 0 {
        eoff := area.sector;
      } else {
        slt0, slt1 := 1, 0;
      }
    }
    if Inplace(cmd.cmd2) {
      slt0, slt1, eoff := 1, 1, 0;
    }
    var to := ImgGetInfo(cr, flash, area, slt0, eoff, false, false);
    var fr := ImgGetInfo(cr, flash, area, slt1, eoff, false, false);
    if InRam(area, fr.load_address) {
      fr := fr.(enc_start := fr.end);
    }
    if InRam(area, to.load_address) {
      to := to.(enc_start := to.end);
    }
    st.info := SwpInfo(to, fr);
    st.loaded := true;
  }

  // Erase the target sector, then zb_img_move into it: the work of MOVE_UP, P1 and P2.
  method EraseAndMove(cr: Crypto, flash: FlashDevice, area: Area, mc: MoveCmd, len: nat)
    requires flash.Fits(area) && mc.to_off % area.sector == 0
    requires len <= area.sector && mc.to_off + area.sector <= |flash.mem| && mc.fr_off + len <= |flash.mem|
    requires Apart(mc.fr_off, len, mc.to_off, area.sector)
    requires mc.ClearLength() % 16 == 0 || len <= mc.ClearLength()
    modifies flash
    ensures flash.Fits(area)
    ensures flash.mem == SectorMove(cr.aes, old(flash.mem), area.sector, mc, len)
    ensures old(flash.ops) <= flash.ops
    ensures ErasedThenWritten(flash.ops[|old(flash.ops)|..], mc.to_off, mc.to_off + area.sector,
                              AlignSize(area.block, len))
    ensures Burst(flash.ops[|old(flash.ops)|..], mc.to_off, mc.to_off + area.sector)
  {
    hide Area.Ok, LowBits, Replay, MoveData, AlignSize, Chain, Within, Burst, MoveCmd.ClearLength, BlockOk;
    MoveReady(area, mc, len);
    flash.FlashErase(mc.to_off, area.sector);
    ghost var erased := flash.ops;
    ImgMove(cr.aes, flash, mc, len);
    EraseFirst(old(flash.ops), erased, flash.ops, mc.to_off, area.sector, AlignSize(area.block, len));
    IsBurst(flash.ops[|old(flash.ops)|..], mc.to_off, area.sector, AlignSize(area.block, len));
  }

  lemma MoveReady(area: Area, mc: MoveCmd, len: nat)
    requires area.Ok() && mc.to_off % area.sector == 0 && len <= area.sector
    requires mc.ClearLength() % 16 == 0 || len <= mc.ClearLength()
    ensures BlockOk(area.block) && area.sector > 0 && area.sector % area.sector == 0
    ensures Aligned(area.block, mc.to_off) && len <= AlignSize(area.block, len) <= area.sector
    ensures mc.ClearLength() < len ==> Aligned(area.block, mc.ClearLength())
  {
    var s := area.sector;
    assert s % 16 == 0 && s > 0;
    SectorMultiple16(mc.to_off, s);
    Aligned16(area.block, mc.to_off);
    Aligned16(area.block, s);
    AlignSizeFacts(area.block, len);
    AlignSizeBound(area.block, len, s);
    if len > mc.ClearLength() {
      Aligned16(area.block, mc.ClearLength());
    }
    Ctr.ModUnique(s, s, 1, 0);
    hide Area.Ok, LowBits, MoveCmd.ClearLength;
  }

  // One turn: the requests of its step, then its record.
  lemma TurnErased(su: Setup, cmd: Cmd, before: seq<Op>, stepped: seq<Op>, after: seq<Op>, start: nat, d: seq<byte>,
                   ok: bool)
    requires su.Ok() && su.area.sector > 0 && CmdOk(su, cmd) && start <= |before| && AllErased(su.area, before[start..])
    requires before <= stepped <= after
    requires var (lo, hi) := Target(su.area, su.info, cmd); Burst(stepped[|before|..], lo, hi)
    requires var log := SwapLog(su.area);
             var f := FirstFree(d, log.start, log);
             && (ok <==> Room(d, log) > 0)
             && if ok then Chain(after[|stepped|..], f, f + log.stride) else after == stepped
    ensures before <= after && AllErased(su.area, after[start..])
  {
    hide Setup.Ok, CmdOk, Target, Burst, AllErased, Chain, FirstFree, Room, Log.Ok, SwapLog, Area.Ok;
    OkArea(su);
    TargetInSlot(su, cmd);
    var (lo, hi) := Target(su.area, su.info, cmd);
    BurstErased(su.area, before[start..], stepped[|before|..], lo, hi);
    assert stepped[start..] == before[start..] + stepped[|before|..];
    RecordPlace(su.area, d);
    var log := SwapLog(su.area);
    if ok {
      ChainBounds(after[|stepped|..], FirstFree(d, log.start, log), FirstFree(d, log.start, log) + log.stride);
      WithinMore(after[|stepped|..], FirstFree(d, log.start, log), FirstFree(d, log.start, log) + log.stride,
                 su.area.swpstat_offset, su.area.swpstat_offset + su.area.swpstat_size);
      RecordErased(su.area, stepped[start..], after[|stepped|..]);
      assert after[start..] == stepped[start..] + after[|stepped|..];
    }
  }

  lemma RecordPlace(area: Area, d: seq<byte>)
    requires area.Ok()
    ensures var log := SwapLog(area);
            var f := FirstFree(d, log.start, log);
            Room(d, log) > 0 ==> area.swpstat_offset <= f && f + log.stride <= area.swpstat_offset + area.swpstat_size
  {
    SwapLogOk(area);
    FreeFits(d, SwapLog(area), area.block);
    hide FirstFree, Area.Ok, Log.Ok;
  }

  // Phase 3 can read both headers and the images they describe.
  ghost predicate P3Ready(cr: Crypto, area: Area, mem: seq<byte>) {
    && Readable(mem, area.slt0_offset, area.sector) && Readable(mem, area.slt1_offset, area.sector)
    && ReadInfo(cr, mem, area, 0, 0).end <= |mem| && ReadInfo(cr, mem, area, 1, 0).end <= |mem|
  }

  lemma ErasedBlank(mem: seq<byte>, lo: int, n: nat)
    ensures Blank(Erased(mem, lo, n), lo, lo + n)
  {}

  // zb_img_cmd_proc_p3_wrt
  method ImgCmdProcP3Wrt(cr: Crypto, flash: FlashDevice, area: Area, cmd: Cmd)
    requires flash.Fits(area) && Blank(flash.mem, area.Slt0End(), area.Slt0End() + area.sector)
    requires P3Ready(cr, area, flash.mem)
    modifies flash
    ensures flash.Fits(area)
    ensures flash.mem == Append(Put(old(flash.mem), area.Slt0End(),
                                    PrmBytes(P3Prm(cr, area, Inplace(cmd.cmd2), old(flash.mem)))),
                                Slt0Log(area), P3Record(cr, area, old(flash.mem), cmd))
    ensures old(flash.ops) <= flash.ops
    ensures Chain(flash.ops[|old(flash.ops)|..], area.Slt0End(), area.Slt0End() + PrmAndCmd(area))
  {
    hide WellFormed, ReadInfo, Magic, TlvArea, TlvAreaSize, FlashCrc, VersionU32, LowBits, Replay;
    var cmd' := cmd;
    var info := ImgGetInfo(cr, flash, area, 0, 0, false, false);
    ReadInfoAt(cr, area, flash.mem, 0, 0);
    StartsBeforeEnd(cr, area, flash.mem, 0);
    var crc32 := Crc32Flash(cr, flash, info.start, info.end - info.start);
    var prm := Prm(info.load_address, info.load_address, crc32, EMPTY_U32, VersionU32(info.version), 0);
    info := ImgGetInfo(cr, flash, area, 1, 0, false, false);
    if info.is_valid {
      StartsBeforeEnd(cr, area, flash.mem, 1);
      crc32 := Crc32Flash(cr, flash, info.start, info.end - info.start);
      prm := prm.(slt1_crc32 := crc32, slt1_ver := VersionU32(info.version));
      if Inplace(cmd.cmd2) {
        prm := prm.(pri_ld_address := info.load_address);
      }
    } else if !Permanent(cmd'.cmd1) {
      cmd' := cmd'.(cmd1 := MakePermanent(cmd'.cmd1));
    }
    assert prm == P3Prm(cr, area, Inplace(cmd.cmd2), flash.mem);
    assert cmd' == P3Record(cr, area, flash.mem, cmd);
    WritePrmAndCmd(flash, area, prm, cmd');
  }

  lemma StartsBeforeEnd(cr: Crypto, area: Area, mem: seq<byte>, slt: nat)
    ensures var i := ReadInfo(cr, mem, area, slt, 0); i.start <= i.end
  {
    InfoBounds(cr, TlvArea(mem, SlotOffset(area, slt)), SlotOffset(area, slt), None);
    hide ParseInfo, TlvArea, Magic;
  }

  // What phase 3 writes: the parameters and one record.
  function PrmAndCmd(area: Area): nat {
    PRM_BYTES + Stride(area.block)
  }

  // zb_prm_write and zb_cmd_write_slt0end on an erased last sector.
  method WritePrmAndCmd(flash: FlashDevice, area: Area, prm: Prm, cmd: Cmd)
    requires flash.Fits(area) && Blank(flash.mem, area.Slt0End(), area.Slt0End() + area.sector)
    modifies flash
    ensures flash.Fits(area)
    ensures flash.mem == Append(Put(old(flash.mem), area.Slt0End(), PrmBytes(prm)), Slt0Log(area), cmd)
    ensures old(flash.ops) <= flash.ops
    ensures Chain(flash.ops[|old(flash.ops)|..], area.Slt0End(), area.Slt0End() + PrmAndCmd(area))
  {
    hide Area.Ok, LowBits, Replay, PrmBytes, Commands, FirstFree, Records, Crc8, Log.Ok, TailBlank, Blank, Slt0Log,
         Chain, Area.Slt0End, Within;
    PrmPlace(area);
    AfterPrm(area, flash.mem, PrmBytes(prm));
    BlankPart(flash.mem, area.Slt0End(), area.Slt0End() + area.sector, area.Slt0End() + PRM_BYTES);
    flash.FlashWrite(area.Slt0End(), PrmBytes(prm));
    ghost var first := flash.ops;
    var ok := CmdWrite(flash, Slt0Log(area), cmd);
    ChainOn(old(flash.ops), first, flash.ops, area.Slt0End(), area.Slt0End() + PRM_BYTES,
            area.Slt0End() + PrmAndCmd(area));
  }

  lemma PrmPlace(area: Area)
    requires area.Ok()
    ensures Aligned(area.block, area.Slt0End()) && AlignSize(area.block, PRM_BYTES) == PRM_BYTES < area.sector
    ensures 0 <= area.Slt0End() && area.Slt0End() + area.sector <= area.flash_size
    ensures var log := Slt0Log(area);
            && log.Ok(area.block) && log.end <= area.flash_size && log.start == area.Slt0End() + PRM_BYTES
            && log.end == area.Slt0End() + area.sector && log.start + log.stride <= log.end
            && PRM_BYTES + log.stride == PrmAndCmd(area) <= area.sector
  {
    EndAligned(area.slt0_offset, area.slt0_size, area.sector, area.block);
    PrmFitsSector(area);
    Slt0LogOk(area);
    StrideInside(Slt0Log(area), area.block);
    hide Area.Ok, LowBits, Log.Ok;
  }

  lemma BlankPart(mem: seq<byte>, lo: int, hi: int, mid: int)
    requires Blank(mem, lo, hi) && mid <= hi
    ensures Blank(mem, lo, mid)
  {}

  // After the parameters the records of slot 0 are unused.
  lemma AfterPrm(area: Area, mem: seq<byte>, prm: seq<byte>)
    requires area.Ok() && |mem| == area.flash_size && |prm| == PRM_BYTES
    requires Blank(mem, area.Slt0End(), area.Slt0End() + area.sector)
    ensures var m, log := Put(mem, area.Slt0End(), prm), Slt0Log(area);
            TailBlank(m, log) && FirstFree(m, log.start, log) == log.start && Room(m, log) > 0
  {
    Slt0LogOk(area);
    hide Area.Ok, Commands, FirstFree, Records, Log.Ok;
    var m, log := Put(mem, area.Slt0End(), prm), Slt0Log(area);
    assert Blank(m, log.start, log.end);
    ErasedLog(m, log, area.block);
    ErasedFree(m, log, area.block);
  }

  lemma PrmFitsSector(area: Area)
    requires area.Ok()
    ensures AlignSize(area.block, PRM_BYTES) == PRM_BYTES && PRM_BYTES < area.sector
    ensures 0 <= area.Slt0End() && area.Slt0End() + area.sector <= area.flash_size
  {}

  lemma StrideInside(log: Log, block: nat)
    requires log.Ok(block)
    ensures log.start + log.stride <= log.end
  {}

  // ----- the switch of zb_img_cmd_proc -----

  // START counts the sectors above the first one; the count is kept in one octet.
  method CountSectors(sector: nat, start: nat, end: nat) returns (n: byte)
    requires sector > 0 && start < end
    ensures n == (end - start - 1) / sector % 256
  {
    n := 0;
    var addr := start;
    ghost var k := 0;
    while addr + sector < end
      invariant addr == start + k * sector && addr < end && n == k % 256
      decreases end - addr
    {
      n := (n as int + 1) % 256;
      addr := addr + sector;
      k := k + 1;
    }
    Ctr.ModUnique(end - start - 1, sector, k, end - start - 1 - k * sector);
  }

  lemma OffsetAligned(base: nat, k: nat, sector: nat)
    requires sector > 0 && base % sector == 0
    ensures (base + k * sector) % sector == 0
  {
    ProductOf(base, sector);
    assert base + k * sector == (base / sector + k) * sector;
    Ctr.ModUnique(base + k * sector, sector, base / sector + k, 0);
  }

  // The clear part of a piece is a whole number of blocks, or the whole piece.
  lemma ClearBlocks(mc: MoveCmd, len: nat)
    requires (mc.fr_eoff - mc.fr_off) % 16 == 0 || mc.fr_off + len <= mc.fr_eoff
    ensures mc.ClearLength() % 16 == 0 || len <= mc.ClearLength()
  {}

  // What EraseAndMove needs to know about the piece of MOVE_UP.
  lemma MoveUpMoves(su: Setup, cmd: Cmd, mem: seq<byte>, off: nat, mc: MoveCmd, len: nat)
    requires su.Ok() && CmdOk(su, cmd) && Phase(cmd.cmd2) == CMD2_MOVE_UP && |mem| == su.area.flash_size
    requires off == cmd.cmd3 * su.area.sector
    requires mc == MoveUpCmd(su.area.sector, su.info, off) && len == su.area.sector
    ensures var s := su.area.sector;
            && mc.to_off % s == 0 && len <= s && mc.to_off + s <= |mem| && mc.fr_off + len <= |mem|
            && Apart(mc.fr_off, len, mc.to_off, s) && (mc.ClearLength() % 16 == 0 || len <= mc.ClearLength())
            && StepMem(su.cr, su.area, su.info, cmd, mem) == SectorMove(su.cr.aes, mem, s, mc, len)
            && Target(su.area, su.info, cmd) == (mc.to_off, mc.to_off + s)
  {
    var s := su.area.sector;
    MoveUpNumbers(su, cmd, mem, off);
    NextSector(cmd.cmd3, s);
    assert su.To() % s == 0;
    OffsetAligned(su.info.to.hdr_start, cmd.cmd3 + 1, s);
    hide Setup.Ok, CmdOk, Sectors, NextCmd, StepMem, Target, SectorMove;
  }

  // What EraseAndMove needs to know about the piece of phase 1.
  lemma Phase1Moves(su: Setup, cmd: Cmd, mem: seq<byte>, off: nat, mc: MoveCmd, len: nat)
    requires su.Ok() && CmdOk(su, cmd) && Phase(cmd.cmd2) == CMD2_SWP_P1 && |mem| == su.area.flash_size
    requires off == cmd.cmd3 * su.area.sector
    requires off < su.info.EndFr() && mc == P1Cmd(su.info, off) && len == Min(su.info.EndFr() - off, su.area.sector)
    ensures var s := su.area.sector;
            && mc.to_off % s == 0 && len <= s && mc.to_off + s <= |mem| && mc.fr_off + len <= |mem|
            && Apart(mc.fr_off, len, mc.to_off, s) && (mc.ClearLength() % 16 == 0 || len <= mc.ClearLength())
            && StepMem(su.cr, su.area, su.info, cmd, mem) == SectorMove(su.cr.aes, mem, s, mc, len)
            && Target(su.area, su.info, cmd) == (mc.to_off, mc.to_off + s)
  {
    var s := su.area.sector;
    P1Numbers(su, cmd, mem, off);
    assert off < su.NewLen() && su.To() % s == 0;
    P1Ready(su, off);
    SizesFit(su);
    OffsetAligned(su.info.to.hdr_start, cmd.cmd3, s);
    ClearBlocks(mc, len);
    assert su.Fr() + su.NewLen() <= |mem|;
    hide Setup.Ok, CmdOk, Sectors, NextCmd, StepMem, Target, SectorMove;
  }

  // What EraseAndMove needs to know about the piece of phase 2.
  lemma Phase2Moves(su: Setup, cmd: Cmd, mem: seq<byte>, off: nat, mc: MoveCmd, len: nat)
    requires su.Ok() && CmdOk(su, cmd) && Phase(cmd.cmd2) == CMD2_SWP_P2 && |mem| == su.area.flash_size
    requires off == cmd.cmd3 * su.area.sector
    requires off < su.info.EndTo() && mc == P2Cmd(su.area.sector, su.info, off)
    requires len == Min(su.info.EndTo() - off, su.area.sector)
    ensures var s := su.area.sector;
            && mc.to_off % s == 0 && len <= s && mc.to_off + s <= |mem| && mc.fr_off + len <= |mem|
            && Apart(mc.fr_off, len, mc.to_off, s) && (mc.ClearLength() % 16 == 0 || len <= mc.ClearLength())
            && StepMem(su.cr, su.area, su.info, cmd, mem) == SectorMove(su.cr.aes, mem, s, mc, len)
            && Target(su.area, su.info, cmd) == (mc.to_off, mc.to_off + s)
  {
    var s := su.area.sector;
    P2Numbers(su, cmd, mem, off);
    assert off < su.OldLen() && su.Fr() % s == 0;
    P2Ready(su, off);
    SlotsApart(su);
    OffsetAligned(su.info.fr.hdr_start, cmd.cmd3, s);
    ClearBlocks(mc, len);
    assert su.To() + s + su.OldLen() <= |mem|;
    hide Setup.Ok, CmdOk, Sectors, NextCmd, StepMem, Target, SectorMove;
  }

  // case CMD2_MOVE_UP
  method MoveUp(cr: Crypto, flash: FlashDevice, area: Area, info: SwpInfo, cmd: Cmd, ghost su: Setup)
    requires su.Ok() && CmdOk(su, cmd) && Phase(cmd.cmd2) == CMD2_MOVE_UP && flash.Fits(area)
    requires su.cr == cr && su.area == area && su.info == info
    modifies flash
    ensures flash.Fits(area) && flash.mem == StepMem(cr, area, info, cmd, old(flash.mem))
    ensures old(flash.ops) <= flash.ops
    ensures var (lo, hi) := Target(area, info, cmd); Burst(flash.ops[|old(flash.ops)|..], lo, hi)
  {
    hide Setup.Ok, CmdOk, Sectors, NextCmd, StepMem, Target, SectorMove, Area.Ok, Replay;
    var cmd_off := cmd.cmd3 * area.sector;
    var mcmd := MoveUpCmd(area.sector, info, cmd_off);
    MoveUpMoves(su, cmd, flash.mem, cmd_off, mcmd, area.sector);
    EraseAndMove(cr, flash, area, mcmd, area.sector);
  }

  // case CMD2_SWP_P1, when there is something left to move
  method Phase1(cr: Crypto, flash: FlashDevice, area: Area, info: SwpInfo, cmd: Cmd, ghost su: Setup)
    requires su.Ok() && CmdOk(su, cmd) && Phase(cmd.cmd2) == CMD2_SWP_P1 && flash.Fits(area)
    requires su.cr == cr && su.area == area && su.info == info
    requires cmd.cmd3 * area.sector < info.EndFr()
    modifies flash
    ensures flash.Fits(area) && flash.mem == StepMem(cr, area, info, cmd, old(flash.mem))
    ensures old(flash.ops) <= flash.ops
    ensures var (lo, hi) := Target(area, info, cmd); Burst(flash.ops[|old(flash.ops)|..], lo, hi)
  {
    hide Setup.Ok, CmdOk, Sectors, NextCmd, StepMem, Target, SectorMove, Area.Ok, Replay;
    var cmd_off := cmd.cmd3 * area.sector;
    var mcmd := P1Cmd(info, cmd_off);
    var len := Min(info.EndFr() - cmd_off, area.sector);
    Phase1Moves(su, cmd, flash.mem, cmd_off, mcmd, len);
    EraseAndMove(cr, flash, area, mcmd, len);
  }

  // Phase 2 uses of `fr` only where it starts.
  lemma P2Alike(su: Setup, info: SwpInfo, cmd: Cmd, mem: seq<byte>, off: nat)
    requires Phase(cmd.cmd2) == CMD2_SWP_P2 && off == cmd.cmd3 * su.area.sector && off < info.EndTo()
    requires su.info.to == info.to && su.Fr() == info.fr.hdr_start
    ensures StepMem(su.cr, su.area, info, cmd, mem) == StepMem(su.cr, su.area, su.info, cmd, mem)
    ensures Target(su.area, info, cmd) == Target(su.area, su.info, cmd)
    ensures P2Cmd(su.area.sector, info, off) == P2Cmd(su.area.sector, su.info, off)
  {
    hide Phase, SectorMove;
  }

  // case CMD2_SWP_P2, when there is something left to move
  method Phase2(cr: Crypto, flash: FlashDevice, area: Area, info: SwpInfo, cmd: Cmd, ghost su: Setup)
    requires su.Ok() && CmdOk(su, cmd) && Phase(cmd.cmd2) == CMD2_SWP_P2 && flash.Fits(area)
    requires su.cr == cr && su.area == area && su.info.to == info.to && su.Fr() == info.fr.hdr_start
    requires cmd.cmd3 * area.sector < info.EndTo()
    modifies flash
    ensures flash.Fits(area) && flash.mem == StepMem(cr, area, info, cmd, old(flash.mem))
    ensures old(flash.ops) <= flash.ops
    ensures var (lo, hi) := Target(area, info, cmd); Burst(flash.ops[|old(flash.ops)|..], lo, hi)
  {
    hide Setup.Ok, CmdOk, Sectors, NextCmd, StepMem, Target, SectorMove, Area.Ok, Replay;
    var cmd_off := cmd.cmd3 * area.sector;
    var mcmd := P2Cmd(area.sector, info, cmd_off);
    var len := Min(info.EndTo() - cmd_off, area.sector);
    P2Alike(su, info, cmd, flash.mem, cmd_off);
    Phase2Moves(su, cmd, flash.mem, cmd_off, mcmd, len);
    EraseAndMove(cr, flash, area, mcmd, len);
  }

  // case CMD2_SWP_P3: erase the last sector of slot 0 and write parameters and command there.
  method Phase3(cr: Crypto, flash: FlashDevice, area: Area, cmd: Cmd)
    requires flash.Fits(area)
    requires P3Ready(cr, area, Erased(flash.mem, area.Slt0End(), area.sector))
    modifies flash
    ensures flash.Fits(area) && flash.mem == P3Mem(cr, area, old(flash.mem), cmd)
    ensures old(flash.ops) <= flash.ops
    ensures Burst(flash.ops[|old(flash.ops)|..], area.Slt0End(), area.Slt0End() + area.sector)
  {
    hide Area.Ok, Replay, P3Ready, P3Prm, P3Record, Append, PrmBytes, Blank, Area.Slt0End, Chain, Within, Burst, Log.Ok,
         LowBits, Slt0Log, AlignSize;
    ErasedBlank(flash.mem, area.Slt0End(), area.sector);
    PrmPlace(area);
    EraseSlt0End(flash, area);
    ghost var erased := flash.ops;
    ImgCmdProcP3Wrt(cr, flash, area, cmd);
    EraseFirst(old(flash.ops), erased, flash.ops, area.Slt0End(), area.sector, PrmAndCmd(area));
    IsBurst(flash.ops[|old(flash.ops)|..], area.Slt0End(), area.sector, PrmAndCmd(area));
  }

  lemma Phase3Result(su: Setup, info: SwpInfo, cmd: Cmd, mem: seq<byte>, lo: int)
    requires su.Ok() && HeadersOk(su) && CmdOk(su, cmd) && Phase(cmd.cmd2) == CMD2_SWP_P3
    requires Intact(su, PosOf(su.area.sector, cmd), mem) && lo == su.area.Slt0End()
    ensures var cr, area, e := su.cr, su.area, Erased(mem, lo, su.area.sector);
            && P3Ready(cr, area, e)
            && StepMem(cr, area, info, cmd, mem) == P3Mem(cr, area, mem, cmd)
            && Target(area, info, cmd) == (lo, lo + area.sector)
  {
    var p := PosOf(su.area.sector, cmd);
    var e := Erased(mem, lo, su.area.sector);
    hide Setup.Ok, CmdOk, HeadersOk, Intact, Readable, P3Mem, ReadInfo, Inplace;
    LastSectorErased(su, p, p, mem, e, lo);
    FinalReadable(su, p, e);
  }

  // case CMD2_SWP_P4: erase the last sector of slot 1, and with it the request.
  method Phase4(cr: Crypto, flash: FlashDevice, area: Area, info: SwpInfo, cmd: Cmd)
    requires Phase(cmd.cmd2) == CMD2_SWP_P4 && flash.Fits(area)
    modifies flash
    ensures flash.Fits(area) && flash.mem == StepMem(cr, area, info, cmd, old(flash.mem))
    ensures old(flash.ops) <= flash.ops
    ensures var (lo, hi) := Target(area, info, cmd); Burst(flash.ops[|old(flash.ops)|..], lo, hi)
  {
    hide Area.Ok, Replay, Burst, Phase;
    EraseSlt1End(flash, area);
    EraseOnly(old(flash.ops), flash.ops, area.Slt1End(), area.sector);
  }

  // zb_erase_slt0end
  method EraseSlt0End(flash: FlashDevice, area: Area)
    requires flash.Fits(area)
    modifies flash
    ensures flash.Fits(area) && flash.mem == Erased(old(flash.mem), area.Slt0End(), area.sector)
    ensures flash.ops == old(flash.ops) + [Erase(area.Slt0End(), area.sector)]
  {
    LastSectorOfSlot(area, area.slt0_offset, area.slt0_size);
    hide Area.Ok, Replay;
    flash.FlashErase(area.slt0_offset + area.slt0_size - area.sector, area.sector);
  }

  // zb_erase_slt1end
  method EraseSlt1End(flash: FlashDevice, area: Area)
    requires flash.Fits(area)
    modifies flash
    ensures flash.Fits(area) && flash.mem == Erased(old(flash.mem), area.Slt1End(), area.sector)
    ensures flash.ops == old(flash.ops) + [Erase(area.Slt1End(), area.sector)]
  {
    LastSectorOfSlot(area, area.slt1_offset, area.slt1_size);
    hide Area.Ok, Replay;
    flash.FlashErase(area.slt1_offset + area.slt1_size - area.sector, area.sector);
  }

  // zb_erase_swpstat
  method EraseSwpstat(flash: FlashDevice, area: Area)
    requires flash.Fits(area)
    modifies flash
    ensures flash.Fits(area) && flash.mem == Erased(old(flash.mem), area.swpstat_offset, area.swpstat_size)
    ensures old(flash.ops) <= flash.ops
    ensures Within(flash.ops[|old(flash.ops)|..], area.swpstat_offset, area.swpstat_offset + area.swpstat_size)
  {
    hide Replay;
    flash.FlashErase(area.swpstat_offset, area.swpstat_size);
  }

  lemma LastSectorOfSlot(area: Area, off: nat, size: nat)
    requires area.Ok()
    requires (off == area.slt0_offset && size == area.slt0_size) || (off == area.slt1_offset && size == area.slt1_size)
    ensures var lo := off + size - area.sector;
            0 <= lo && lo + area.sector <= area.flash_size && lo % area.sector == 0 && area.sector % area.sector == 0
  {
    var s := area.sector;
    Ctr.ModUnique(s, s, 1, 0);
    ProductOf(size, s);
    ProductOf(off, s);
    assert off + size - s == (off / s + size / s - 1) * s;
    Ctr.ModUnique(off + size - s, s, off / s + size / s - 1, 0);
  }

  method CaseStart(area: Area, info: SwpInfo, cmd: Cmd) returns (next: Cmd)
    requires Phase(cmd.cmd2) == CMD2_SWP_START && area.sector > 0
    ensures next == NextCmd(area.sector, info, cmd)
  {
    hide Inplace, WithInplace;
    var inplace := Inplace(cmd.cmd2);
    next := cmd.(cmd3 := 0);
    if inplace && info.fr.enc_start == info.fr.end {
      next := next.(cmd2 := CMD2_SWP_P3);
    } else if info.EndTo() <= 0 {
      next := next.(cmd2 := CMD2_SWP_P1);
    } else {
      var n := CountSectors(area.sector, info.to.hdr_start, info.to.end);
      next := next.(cmd2 := CMD2_MOVE_UP, cmd3 := n);
    }
    next := next.(cmd2 := WithInplace(next.cmd2, inplace));
  }

  method CaseMoveUp(cr: Crypto, flash: FlashDevice, area: Area, info: SwpInfo, cmd: Cmd,
                    ghost su: Setup) returns (next: Cmd)
    requires su.Ok() && CmdOk(su, cmd) && Phase(cmd.cmd2) == CMD2_MOVE_UP && flash.Fits(area)
    requires su.cr == cr && su.area == area && su.info == info
    modifies flash
    ensures flash.Fits(area) && flash.mem == StepMem(cr, area, info, cmd, old(flash.mem))
    ensures next == NextCmd(area.sector, info, cmd)
    ensures old(flash.ops) <= flash.ops
    ensures var (lo, hi) := Target(area, info, cmd); Burst(flash.ops[|old(flash.ops)|..], lo, hi)
  {
    hide Setup.Ok, CmdOk, Intact, Area.Ok, Replay, Inplace, SectorMove, P3Mem, WithInplace, HeadersOk;
    var inplace := Inplace(cmd.cmd2);
    MoveUp(cr, flash, area, info, cmd, su);
    next := cmd.(cmd2 := CMD2_MOVE_UP);
    if cmd.cmd3 == 0 {
      next := next.(cmd2 := if inplace then CMD2_SWP_P2 else CMD2_SWP_P1);
    } else {
      next := next.(cmd3 := cmd.cmd3 - 1);
    }
    next := next.(cmd2 := WithInplace(next.cmd2, inplace));
  }

  method CaseP1(cr: Crypto, flash: FlashDevice, area: Area, info: SwpInfo, cmd: Cmd,
                ghost su: Setup) returns (next: Cmd)
    requires su.Ok() && CmdOk(su, cmd) && Phase(cmd.cmd2) == CMD2_SWP_P1 && flash.Fits(area)
    requires su.cr == cr && su.area == area && (su.info == info || info.EndFr() <= cmd.cmd3 * area.sector)
    modifies flash
    ensures flash.Fits(area) && flash.mem == StepMem(cr, area, info, cmd, old(flash.mem))
    ensures next == NextCmd(area.sector, info, cmd)
    ensures old(flash.ops) <= flash.ops
    ensures var (lo, hi) := Target(area, info, cmd); Burst(flash.ops[|old(flash.ops)|..], lo, hi)
  {
    hide Setup.Ok, CmdOk, Intact, Area.Ok, Replay, Inplace, SectorMove, P3Mem, WithInplace, HeadersOk;
    var inplace, cmd_off := Inplace(cmd.cmd2), cmd.cmd3 * area.sector;
    if cmd_off >= info.EndFr() {
      next := cmd.(cmd2 := if cmd_off >= info.EndTo() then CMD2_SWP_P3 else CMD2_SWP_P2);
    } else {
      Phase1(cr, flash, area, info, cmd, su);
      next := cmd.(cmd2 := CMD2_SWP_P2);
    }
    next := next.(cmd2 := WithInplace(next.cmd2, inplace));
  }

  method CaseP2(cr: Crypto, flash: FlashDevice, area: Area, info: SwpInfo, cmd: Cmd,
                ghost su: Setup) returns (next: Cmd)
    requires su.Ok() && CmdOk(su, cmd) && Phase(cmd.cmd2) == CMD2_SWP_P2 && flash.Fits(area)
    requires su.cr == cr && su.area == area
    requires info.EndTo() <= cmd.cmd3 * area.sector || (su.info.to == info.to && su.Fr() == info.fr.hdr_start)
    modifies flash
    ensures flash.Fits(area) && flash.mem == StepMem(cr, area, info, cmd, old(flash.mem))
    ensures next == NextCmd(area.sector, info, cmd)
    ensures old(flash.ops) <= flash.ops
    ensures var (lo, hi) := Target(area, info, cmd); Burst(flash.ops[|old(flash.ops)|..], lo, hi)
  {
    hide Setup.Ok, CmdOk, Intact, Area.Ok, Replay, Inplace, SectorMove, P3Mem, WithInplace, HeadersOk;
    var inplace, cmd_off := Inplace(cmd.cmd2), cmd.cmd3 * area.sector;
    if cmd_off >= info.EndTo() {
      if cmd_off >= info.EndFr() {
        next := cmd.(cmd2 := CMD2_SWP_P3);
      } else {
        next := cmd.(cmd2 := CMD2_SWP_P1, cmd3 := (cmd.cmd3 as int + 1) % 256);
      }
    } else {
      Phase2(cr, flash, area, info, cmd, su);
      next := cmd.(cmd2 := if inplace then CMD2_SWP_P2 else CMD2_SWP_P1, cmd3 := (cmd.cmd3 as int + 1) % 256);
    }
    next := next.(cmd2 := WithInplace(next.cmd2, inplace));
  }

  method CaseP3(cr: Crypto, flash: FlashDevice, area: Area, info: SwpInfo, cmd: Cmd,
                ghost su: Setup) returns (next: Cmd)
    requires su.Ok() && HeadersOk(su) && CmdOk(su, cmd) && Phase(cmd.cmd2) == CMD2_SWP_P3 && flash.Fits(area)
    requires su.cr == cr && su.area == area && Intact(su, PosOf(area.sector, cmd), flash.mem)
    modifies flash
    ensures flash.Fits(area) && flash.mem == StepMem(cr, area, info, cmd, old(flash.mem))
    ensures next == NextCmd(area.sector, info, cmd)
    ensures old(flash.ops) <= flash.ops
    ensures var (lo, hi) := Target(area, info, cmd); Burst(flash.ops[|old(flash.ops)|..], lo, hi)
  {
    hide Setup.Ok, CmdOk, Intact, Area.Ok, Replay, Inplace, SectorMove, P3Mem, WithInplace, HeadersOk;
    Phase3Result(su, info, cmd, flash.mem, area.Slt0End());
    Phase3(cr, flash, area, cmd);
    next := cmd.(cmd2 := WithInplace(CMD2_SWP_P4, Inplace(cmd.cmd2)));
  }

  method CaseP4(cr: Crypto, flash: FlashDevice, area: Area, info: SwpInfo, cmd: Cmd) returns (next: Cmd)
    requires Phase(cmd.cmd2) == CMD2_SWP_P4 && flash.Fits(area)
    modifies flash
    ensures flash.Fits(area) && flash.mem == StepMem(cr, area, info, cmd, old(flash.mem))
    ensures next == NextCmd(area.sector, info, cmd)
    ensures old(flash.ops) <= flash.ops
    ensures var (lo, hi) := Target(area, info, cmd); Burst(flash.ops[|old(flash.ops)|..], lo, hi)
  {
    hide Setup.Ok, CmdOk, Intact, Area.Ok, Replay, Inplace, SectorMove, P3Mem, WithInplace, HeadersOk;
    Phase4(cr, flash, area, info, cmd);
    next := cmd.(cmd2 := WithInplace(CMD2_SWP_END, Inplace(cmd.cmd2)));
  }

  lemma StartStays(cr: Crypto, area: Area, info: SwpInfo, cmd: Cmd, mem: seq<byte>)
    requires Phase(cmd.cmd2) == CMD2_SWP_START
    ensures StepMem(cr, area, info, cmd, mem) == mem
  {
    hide Phase;
  }

  lemma NoBurst(area: Area, info: SwpInfo, cmd: Cmd)
    ensures var (lo, hi) := Target(area, info, cmd); Burst([], lo, hi)
  {
    hide Target;
  }

  // The switch itself: do the step, return the command to log next.
  method CmdStep(cr: Crypto, flash: FlashDevice, area: Area, info: SwpInfo, cmd: Cmd,
                 ghost su: Setup) returns (next: Cmd)
    requires flash.Fits(area) && su.cr == cr && su.area == area && su.Ok() && HeadersOk(su)
    requires CmdOk(su, cmd) && Going(cmd.cmd2) && Intact(su, PosOf(area.sector, cmd), flash.mem)
    requires Serves(su, info, cmd)
    modifies flash
    ensures flash.Fits(area) && flash.mem == StepMem(cr, area, info, cmd, old(flash.mem))
    ensures next == NextCmd(area.sector, info, cmd)
    ensures old(flash.ops) <= flash.ops
    ensures var (lo, hi) := Target(area, info, cmd); Burst(flash.ops[|old(flash.ops)|..], lo, hi)
  {
    hide Setup.Ok, HeadersOk, CmdOk, Intact, Area.Ok, Replay, Inplace, Going, Phase, NextCmd, StepMem, Target, Serves,
         Burst, BlockOk;
    OkArea(su);
    PhaseCases(su, cmd);
    ServesPhases(su, info, cmd);
    var phase := Phase(cmd.cmd2);
    if phase == CMD2_SWP_START {
      StartStays(cr, area, info, cmd, flash.mem);
      assert flash.ops[|flash.ops|..] == [];
      NoBurst(su.area, info, cmd);
      next := CaseStart(area, info, cmd);
    } else if phase == CMD2_MOVE_UP {
      next := CaseMoveUp(cr, flash, area, info, cmd, su);
    } else if phase == CMD2_SWP_P1 {
      next := CaseP1(cr, flash, area, info, cmd, su);
    } else if phase == CMD2_SWP_P2 {
      next := CaseP2(cr, flash, area, info, cmd, su);
    } else if phase == CMD2_SWP_P3 {
      next := CaseP3(cr, flash, area, info, cmd, su);
    } else {
      next := CaseP4(cr, flash, area, info, cmd);
    }
  }

  // ----- the loop of zb_img_cmd_proc -----

  // Where a run is taken up with the image info still to be read, the headers can be read.
  lemma ResumeReadable(su: Setup, mem: seq<byte>, cmd: Cmd)
    requires su.Ok() && HeadersOk(su) && RunState(su, mem) && LastCmd(mem, SwapLog(su.area)) == Some(cmd)
    requires Recovers(su, mem)
    ensures var (slt0, slt1, eoff) := HeaderPlaces(su.area.sector, cmd);
            && Readable(mem, SlotOffset(su.area, slt0) + eoff, su.area.sector)
            && Readable(mem, SlotOffset(su.area, slt1) + eoff, su.area.sector)
  {
    hide Setup.Ok, HeadersOk, RunState, Readable, SafePhase, NoInfoUsed, HeaderPlaces, Inplace, AtHeader, HeaderThere,
         LastCmd, SwapLog, HeaderIn, KeepForRam, ReadInfo, Harmless;
    HeadersLoad(su);
    LoadedFrom(su);
    InplaceSame(su, mem);
    if SafePhase(cmd) {
      PlacesOf(su.area.sector, cmd);
      SafeReadable(su, mem, cmd);
    } else if NoInfoUsed(cmd) {
      PlacesOf(su.area.sector, cmd);
      EndReadable(su, mem, cmd);
    } else if AtHeader(cmd) && HeaderThere(su, mem) {
      HeaderPlacesAt(su, mem);
      FirstReadable(su, mem);
    } else {
      HarmlessReadable(su, mem, cmd);
    }
  }

  lemma HarmlessReadable(su: Setup, mem: seq<byte>, cmd: Cmd)
    requires su.Ok() && HeadersOk(su) && RunState(su, mem) && LastCmd(mem, SwapLog(su.area)) == Some(cmd)
    requires su.area.sector > 0 && Harmless(su, mem)
    ensures var (slt0, slt1, eoff) := HeaderPlaces(su.area.sector, cmd);
            && Readable(mem, SlotOffset(su.area, slt0) + eoff, su.area.sector)
            && Readable(mem, SlotOffset(su.area, slt1) + eoff, su.area.sector)
  {
    hide Setup.Ok, HeadersOk, RunState, Readable, HeaderPlaces, Inplace, LastCmd, SwapLog, HeaderIn, KeepForRam,
         ReadInfo, Harmless, NoHeaderUp, Loaded;
    HeadersLoad(su);
    LoadedFrom(su);
    HarmlessClassic(su, mem);
    LoadedKinds(su);
    HarmlessLengths(su, mem);
    InplaceSame(su, mem);
    SwapPlaces(su.area.sector, cmd);
    if cmd.cmd3 == 0 {
      UpReadable(su, mem);
    } else {
      MixedReadable(su, mem, cmd);
    }
  }

  lemma SwapPlaces(sector: nat, cmd: Cmd)
    requires !Inplace(cmd.cmd2) && (Phase(cmd.cmd2) == CMD2_SWP_P1 || Phase(cmd.cmd2) == CMD2_SWP_P2)
    ensures HeaderPlaces(sector, cmd) == if cmd.cmd3 == 0 then (0, 1, sector) else (1, 0, 0)
  {
    hide Inplace, Phase;
  }

  lemma UpReadable(su: Setup, mem: seq<byte>)
    requires su.Ok() && HeadersOk(su) && RunState(su, mem) && LastCmd(mem, SwapLog(su.area)).Some? && !su.inplace
    requires AtHeader(Current(su, mem)) && NoHeaderUp(su, mem) && su.OldLen() > 0
    ensures Readable(mem, su.To() + su.area.sector, su.area.sector)
    ensures Readable(mem, su.Fr() + su.area.sector, su.area.sector)
  {
    hide Setup.Ok, HeadersOk, RunState, HeaderFrom, AtHeader, Loaded, Magic, TlvArea, TlvAreaSize, LastCmd, SwapLog,
         WellFormed, Setup.OldLen;
    HeadersLoad(su);
    LoadedSizes(su);
    TwoSectors(su, mem);
    OldHeaderUp(su, mem);
    ToHeaderSize(su);
    ReadableFrom(mem, su.To() + su.area.sector, su.mem0, su.To(), su.area.sector);
  }

  lemma MixedReadable(su: Setup, mem: seq<byte>, cmd: Cmd)
    requires su.Ok() && HeadersOk(su) && RunState(su, mem) && !su.inplace && cmd == Current(su, mem) && cmd.cmd3 > 0
    requires Phase(cmd.cmd2) == CMD2_SWP_P1 || Phase(cmd.cmd2) == CMD2_SWP_P2
    ensures Readable(mem, su.Fr(), su.area.sector) && Readable(mem, su.To(), su.area.sector)
  {
    hide Setup.Ok, HeadersOk, RunState, Readable, HeaderFrom, Loaded, LastCmd, SwapLog, Holds, HeaderIn, KeepForRam,
         Phase, ReadInfo, Setup.Old, Setup.New, Setup.OldOut, Setup.NewOut, Transform, EncOk, SameHeaderOctets;
    HeadersLoad(su);
    LoadedFrom(su);
    LoadedKinds(su);
    LoadedSizes(su);
    TwoSectors(su, mem);
    PlacesInSwap(su, mem);
    var off, s := cmd.cmd3 * su.area.sector, su.area.sector;
    var hi := if Phase(cmd.cmd2) == CMD2_SWP_P1 then off else off + s;
    MovedHeader(su.cr, su.area, su.mem0, mem, su.info.fr, su.To(), hi, su.New());
    ReadableFrom(mem, su.To(), su.mem0, su.Fr(), s);
    if su.OldLen() > 0 {
      MovedHeader(su.cr, su.area, su.mem0, mem, su.info.to, su.Fr(), off, su.Old());
      ToHeaderSize(su);
      ReadableFrom(mem, su.Fr(), su.mem0, su.To(), s);
    } else {
      HeaderHeld(su.area, su.mem0, mem, su.info.fr, su.NewLen(), su.New());
      SameSize(su, mem);
      ReadableSame(su.mem0, mem, su.Fr(), s);
    }
  }

  lemma SameSize(su: Setup, mem: seq<byte>)
    requires su.Ok() && RunState(su, mem)
    ensures |mem| == |su.mem0|
  {
    hide Intact, LastCmd, SwapLog, CmdOk, Sectors, EncOk, Area.Ok;
  }

  lemma HeadersLoad(su: Setup)
    requires HeadersOk(su)
    ensures Loaded(su) && Readable(su.mem0, su.Fr(), su.area.sector) && Readable(su.mem0, su.To(), su.area.sector)
  {
    hide Loaded, Readable, ReadInfo;
  }

  lemma PlacesOf(sector: nat, cmd: Cmd)
    requires SafePhase(cmd) || NoInfoUsed(cmd)
    ensures HeaderPlaces(sector, cmd) == (if Inplace(cmd.cmd2) then 1 else 0, 1, 0)
  {
    hide Inplace;
  }

  lemma FirstReadable(su: Setup, mem: seq<byte>)
    requires su.Ok() && HeadersOk(su) && RunState(su, mem) && LastCmd(mem, SwapLog(su.area)).Some?
    requires AtHeader(Current(su, mem)) && HeaderThere(su, mem)
    ensures Readable(mem, HeaderPlace(su), su.area.sector)
    ensures !su.inplace ==> Readable(mem, su.To() + su.area.sector, su.area.sector)
  {
    hide Setup.Ok, HeadersOk, RunState, Readable, HeaderFrom, AtHeader, Loaded, Magic, TlvArea, TlvAreaSize, LastCmd,
         SwapLog;
    HeadersLoad(su);
    LoadedSizes(su);
    TwoSectors(su, mem);
    assert TlvAreaSize(su.mem0, su.Fr()) <= su.area.sector;
    ReadableFrom(mem, HeaderPlace(su), su.mem0, su.Fr(), su.area.sector);
    if !su.inplace {
      OldHeaderUp(su, mem);
      ToHeaderSize(su);
      ReadableFrom(mem, su.To() + su.area.sector, su.mem0, su.To(), su.area.sector);
    }
  }

  lemma ToHeaderSize(su: Setup)
    requires su.Ok() && Loaded(su) && su.OldLen() > 0
    ensures TlvAreaSize(su.mem0, su.To()) <= su.area.sector
  {
    hide Setup.Ok, Magic, TlvAreaSize, TlvArea;
    LoadedFrom(su);
  }

  lemma TwoSectors(su: Setup, mem: seq<byte>)
    requires su.Ok() && RunState(su, mem)
    ensures |mem| == su.area.flash_size
    ensures 0 <= su.Fr() && su.Fr() + 2 * su.area.sector <= |mem| && 0 <= su.To()
    ensures su.To() + 2 * su.area.sector <= |mem|
  {
    hide Intact, LastCmd, Sectors, EncOk, CmdOk;
    SlotsApart(su);
  }

  lemma SafeReadable(su: Setup, mem: seq<byte>, cmd: Cmd)
    requires su.Ok() && HeadersOk(su) && RunState(su, mem) && cmd == Current(su, mem) && SafePhase(cmd)
    ensures Readable(mem, su.Fr(), su.area.sector) && (!su.inplace ==> Readable(mem, su.To(), su.area.sector))
  {
    assert |mem| == su.area.flash_size == |su.mem0| && Loaded(su) && Inplace(cmd.cmd2) == su.inplace;
    assert Readable(su.mem0, su.Fr(), su.area.sector) && Readable(su.mem0, su.To(), su.area.sector);
    hide Setup.Ok, HeadersOk, RunState, Readable, SameHeaderOctets, Loaded, Phase, Inplace;
    if Phase(cmd.cmd2) == CMD2_SWP_START {
      StartHeaders(su, mem);
    } else if Phase(cmd.cmd2) == CMD2_MOVE_UP {
      MoveUpHeaders(su, mem);
    } else {
      InplaceHeaders(su, mem);
    }
    ReadableSame(su.mem0, mem, su.Fr(), su.area.sector);
    if !su.inplace {
      ReadableSame(su.mem0, mem, su.To(), su.area.sector);
    }
  }

  lemma EndReadable(su: Setup, mem: seq<byte>, cmd: Cmd)
    requires su.Ok() && HeadersOk(su) && RunState(su, mem) && cmd == Current(su, mem) && NoInfoUsed(cmd)
    ensures Readable(mem, su.area.slt0_offset, su.area.sector) && Readable(mem, su.area.slt1_offset, su.area.sector)
  {
    assert Intact(su, PosOf(su.area.sector, cmd), mem);
    hide Setup.Ok, HeadersOk, RunState, Readable, Intact;
    FinalReadable(su, PosOf(su.area.sector, cmd), mem);
  }

  // A turn does the same with every info that serves.
  lemma TurnIs(su: Setup, mem: seq<byte>, cmd: Cmd, info: SwpInfo)
    requires su.Ok() && RunState(su, mem) && cmd == Current(su, mem) && Going(cmd.cmd2) && Serves(su, info, cmd)
    ensures Append(StepMem(su.cr, su.area, info, cmd, mem), SwapLog(su.area), NextCmd(su.area.sector, info, cmd))
         == Iter(su.cr, su.area, su.info, mem)
    ensures Serves(su, info, NextCmd(su.area.sector, su.info, cmd))
  {
    assert CmdOk(su, cmd);
    hide Append, StepMem, NextCmd, Setup.Ok, RunState, Iter, LastCmd, SwapLog, Serves, Going, CmdOk, Target;
    OkArea(su);
    IterIs(su, mem, cmd);
    ServesStep(su, info, cmd, mem);
  }

  // The log is untouched by a step, so the record of the next command goes where it should.
  lemma LogAfterStep(su: Setup, mem: seq<byte>, cmd: Cmd, d: seq<byte>)
    requires su.Ok() && RunState(su, mem) && cmd == Current(su, mem) && Going(cmd.cmd2)
    requires d == StepMem(su.cr, su.area, su.info, cmd, mem)
    ensures TailBlank(d, SwapLog(su.area)) && |d| == su.area.flash_size
    ensures SwapLog(su.area).Ok(su.area.block) && SwapLog(su.area).end <= |d|
  {
    StepKeeps(su, cmd, mem);
    SwapLogOk(su.area);
    assert |mem| == su.area.flash_size;
    hide Setup.Ok, Intact, StepMem, Target, NextCmd, Commands, FirstFree, Records;
    SameLogAfterStep(su, cmd, mem, d);
  }

  // The image info at hand serves as well as the right one, or will once it is read.
  ghost predicate InfoOk(su: Setup, info: SwpInfo, loaded: bool, mem: seq<byte>)
    requires LastCmd(mem, SwapLog(su.area)).Some?
  {
    if loaded then Serves(su, info, Current(su, mem)) else Recovers(su, mem)
  }

  lemma LoadedOk(su: Setup, info: SwpInfo, mem: seq<byte>)
    requires LastCmd(mem, SwapLog(su.area)).Some? && Serves(su, info, Current(su, mem))
    ensures InfoOk(su, info, true, mem)
  {
    hide Serves, LastCmd, SwapLog;
  }

  // What one turn starts from.
  ghost predicate TurnReady(su: Setup, mem: seq<byte>, cmd: Cmd) {
    && su.Ok() && HeadersOk(su) && RunState(su, mem) && LastCmd(mem, SwapLog(su.area)) == Some(cmd) && Going(cmd.cmd2)
  }

  // One turn of the loop: load the info if need be, do the step, log the next command. The run has started at request
  // number `start`.
  method OneTurn(cr: Crypto, flash: FlashDevice, area: Area, st: SwpState, cmd: Cmd, ghost su: Setup, ghost start: nat)
    requires flash.Fits(area) && su.cr == cr && su.area == area && TurnReady(su, flash.mem, cmd)
    requires InfoOk(su, st.info, st.loaded, flash.mem) && Left(su, flash.mem) <= LogRoom(su, flash.mem)
    requires start <= |flash.ops| && AllErased(area, flash.ops[start..])
    modifies flash, st
    ensures flash.Fits(area) && flash.mem == Iter(cr, area, su.info, old(flash.mem))
    ensures st.loaded && Serves(su, st.info, NextCmd(area.sector, su.info, cmd))
    ensures old(flash.ops) <= flash.ops && AllErased(area, flash.ops[start..])
  {
    hide Setup.Ok, HeadersOk, RunState, Iter, Left, LogRoom, Serves, Recovers, Area.Ok, Replay, StepMem, Target,
         NextCmd, Intact, CmdOk, TailBlank, Readable, LastCmd, Log.Ok, SwapInfoOf, Burst, AllErased, Chain, FirstFree,
         SwapLog;
    if !st.loaded {
      LoadFacts(su, flash.mem, cmd);
      GetImgSwpInfo(cr, flash, area, st, cmd);
    }
    TurnFacts(su, flash.mem, cmd, st.info);
    ghost var before := flash.ops;
    var next := CmdStep(cr, flash, area, st.info, cmd, su);
    ghost var stepped, d := flash.ops, flash.mem;
    var ok := CmdWrite(flash, SwapLog(area), next);
    TurnErased(su, cmd, before, stepped, flash.ops, start, d, ok);
  }

  lemma LoadFacts(su: Setup, mem: seq<byte>, cmd: Cmd)
    requires TurnReady(su, mem, cmd) && Recovers(su, mem)
    ensures var (slt0, slt1, eoff) := HeaderPlaces(su.area.sector, cmd);
            && Readable(mem, SlotOffset(su.area, slt0) + eoff, su.area.sector)
            && Readable(mem, SlotOffset(su.area, slt1) + eoff, su.area.sector)
    ensures Serves(su, SwapInfoOf(su.cr, su.area, mem, cmd), cmd)
  {
    hide Setup.Ok, HeadersOk, RunState, Serves, Recovers, SwapInfoOf, Readable, HeaderPlaces, SlotOffset, LastCmd,
         SwapLog, Intact;
    CurrentFacts(su, mem, cmd);
    ResumeReadable(su, mem, cmd);
    HeadersLoad(su);
    RecoversInfo(su, mem);
  }

  lemma TurnFacts(su: Setup, mem: seq<byte>, cmd: Cmd, info: SwpInfo)
    requires TurnReady(su, mem, cmd) && Serves(su, info, cmd)
    ensures su.Ok() && HeadersOk(su) && CmdOk(su, cmd) && Going(cmd.cmd2) && Intact(su, PosOf(su.area.sector, cmd), mem)
    ensures su.area.sector > 0 && SwapLog(su.area).Ok(su.area.block)
    ensures var d := StepMem(su.cr, su.area, info, cmd, mem);
            && TailBlank(d, SwapLog(su.area)) && SwapLog(su.area).end <= |d|
            && Append(d, SwapLog(su.area), NextCmd(su.area.sector, info, cmd)) == Iter(su.cr, su.area, su.info, mem)
    ensures Target(su.area, info, cmd) == Target(su.area, su.info, cmd)
    ensures Serves(su, info, NextCmd(su.area.sector, su.info, cmd))
  {
    hide Setup.Ok, HeadersOk, RunState, Iter, Serves, StepMem, NextCmd, Intact, CmdOk, TailBlank, Log.Ok, Append, Going,
         Target, LastCmd, SwapLog;
    CurrentFacts(su, mem, cmd);
    LogAfterStep(su, mem, cmd, StepMem(su.cr, su.area, su.info, cmd, mem));
    ServesStep(su, info, cmd, mem);
    TurnIs(su, mem, cmd, info);
    RunFacts(su, mem);
  }

  // zb_img_cmd_proc: run until the log says the swap has ended. `su` describes how the swap was started, by this
  // call or before an earlier power loss.
  method ImgCmdProc(cr: Crypto, flash: FlashDevice, area: Area, st: SwpState, ghost su: Setup)
    requires flash.Fits(area) && su.cr == cr && su.area == area && su.Ok() && HeadersOk(su)
    requires RunState(su, flash.mem) && Left(su, flash.mem) <= LogRoom(su, flash.mem)
    requires InfoOk(su, st.info, st.loaded, flash.mem)
    modifies flash, st
    ensures flash.Fits(area)
    ensures 0 <= old(Left(su, flash.mem))
    ensures flash.mem == IterN(cr, area, su.info, old(flash.mem), old(Left(su, flash.mem)))
    ensures RunState(su, flash.mem) && Ended(su, flash.mem) && Swapped(su, flash.mem)
    ensures LogRoom(su, flash.mem) == old(LogRoom(su, flash.mem)) - old(Left(su, flash.mem))
    ensures old(flash.ops) <= flash.ops && AllErased(area, flash.ops[|old(flash.ops)|..])
  {
    ghost var mem0 := flash.mem;
    ghost var n, start := 0, |flash.ops|;
    assert AllErased(area, flash.ops[start..]);
    LoopStarts(su, mem0);
    hide LoopInv, RunState, HeadersOk, Setup.Ok, IterN, Left, LogRoom, InfoOk, Area.Ok, Replay, Ended, Swapped, NextCmd,
         Going, Iter, Log.Ok, LastCmd, AllErased, Serves;
    while true
      invariant flash.Fits(area) && LoopInv(su, mem0, flash.mem, n)
      invariant LastCmd(flash.mem, SwapLog(area)).Some? && InfoOk(su, st.info, st.loaded, flash.mem)
      invariant old(flash.ops) <= flash.ops && AllErased(area, flash.ops[start..])
      decreases LogRoom(su, flash.mem)
    {
      LoopFacts(su, mem0, flash.mem, n);
      var found, cmd := CmdRead(flash, SwapLog(area), Cmd(0, 0, 0));
      CurrentFacts(su, flash.mem, cmd);
      if !found || cmd.cmd1 == CMD1_ERROR || !Going(cmd.cmd2) {
        break;
      }
      LoopTurn(su, mem0, flash.mem, n, cmd);
      OneTurn(cr, flash, area, st, cmd, su, start);
      LoadedOk(su, st.info, flash.mem);
      n := n + 1;
    }
    LoopEnds(su, mem0, flash.mem, n);
  }

  // After n turns.
  ghost predicate LoopInv(su: Setup, mem0: seq<byte>, mem: seq<byte>, n: nat) {
    && su.area.sector > 0 && RunState(su, mem0) && RunState(su, mem)
    && 0 <= Left(su, mem) <= LogRoom(su, mem)
    && n + Left(su, mem) == Left(su, mem0) && LogRoom(su, mem0) - n == LogRoom(su, mem)
    && mem == IterN(su.cr, su.area, su.info, mem0, n)
  }

  lemma LoopStarts(su: Setup, mem: seq<byte>)
    requires su.Ok() && RunState(su, mem) && Left(su, mem) <= LogRoom(su, mem)
    ensures LoopInv(su, mem, mem, 0) && Left(su, mem) >= 0
  {
    RunFacts(su, mem);
    hide Setup.Ok, RunState, Left, LogRoom;
  }

  lemma LoopFacts(su: Setup, mem0: seq<byte>, mem: seq<byte>, n: nat)
    requires su.Ok() && LoopInv(su, mem0, mem, n)
    ensures RunState(su, mem) && LastCmd(mem, SwapLog(su.area)).Some? && su.area.sector > 0
    ensures Left(su, mem) <= LogRoom(su, mem)
    ensures SwapLog(su.area).Ok(su.area.block) && SwapLog(su.area).end <= |mem|
  {
    RunFacts(su, mem);
    hide Setup.Ok, RunState, Left, LogRoom, Log.Ok;
  }

  lemma LoopTurn(su: Setup, mem0: seq<byte>, mem: seq<byte>, n: nat, cmd: Cmd)
    requires su.Ok() && LoopInv(su, mem0, mem, n) && LastCmd(mem, SwapLog(su.area)) == Some(cmd) && Going(cmd.cmd2)
    ensures var r := Iter(su.cr, su.area, su.info, mem);
            && LoopInv(su, mem0, r, n + 1) && LastCmd(r, SwapLog(su.area)).Some? && LogRoom(su, r) < LogRoom(su, mem)
            && Current(su, r) == NextCmd(su.area.sector, su.info, cmd)
  {
    hide Setup.Ok, RunState, Left, LogRoom, Iter, IterN, NextCmd, Going;
    RunFacts(su, mem);
    IterKeepsLeft(su, mem, cmd);
    IterNLast(su.cr, su.area, su.info, mem0, n);
  }

  lemma LoopEnds(su: Setup, mem0: seq<byte>, mem: seq<byte>, n: nat)
    requires su.Ok() && LoopInv(su, mem0, mem, n) && Ended(su, mem)
    ensures Left(su, mem0) >= 0 && mem == IterN(su.cr, su.area, su.info, mem0, Left(su, mem0))
    ensures RunState(su, mem) && Swapped(su, mem) && LogRoom(su, mem) == LogRoom(su, mem0) - Left(su, mem0)
  {
    hide Setup.Ok, RunState, Left, LogRoom, IterN, Swapped, Ended;
    AtEnd(su, mem);
  }

  lemma RunFacts(su: Setup, mem: seq<byte>)
    requires su.Ok() && RunState(su, mem)
    ensures su.area.sector > 0 && |mem| == su.area.flash_size && LastCmd(mem, SwapLog(su.area)).Some?
    ensures 0 <= Left(su, mem)
    ensures SwapLog(su.area).Ok(su.area.block) && SwapLog(su.area).end <= |mem|
  {
    LeftPositive(su, Current(su, mem));
    SwapLogOk(su.area);
  }

  lemma CurrentFacts(su: Setup, mem: seq<byte>, cmd: Cmd)
    requires su.Ok() && RunState(su, mem) && LastCmd(mem, SwapLog(su.area)) == Some(cmd)
    ensures cmd == Current(su, mem) && CmdOk(su, cmd) && cmd.cmd1 != CMD1_ERROR
    ensures Intact(su, PosOf(su.area.sector, cmd), mem)
    ensures Going(cmd.cmd2) <==> Left(su, mem) > 0
    ensures !Going(cmd.cmd2) ==> Ended(su, mem)
    ensures SwapLog(su.area).Ok(su.area.block) && SwapLog(su.area).end <= |mem|
  {
    LeftPositive(su, cmd);
    PhaseCases(su, cmd);
    SwapLogOk(su.area);
    hide Setup.Ok, Intact, Going, CmdOk, Inplace, Remaining, Phase;
  }

  lemma IterKeepsLeft(su: Setup, mem: seq<byte>, cmd: Cmd)
    requires su.Ok() && RunState(su, mem) && cmd == Current(su, mem) && Going(cmd.cmd2)
    requires Left(su, mem) <= LogRoom(su, mem)
    ensures Left(su, mem) > 0
    ensures var r := Iter(su.cr, su.area, su.info, mem);
            && RunState(su, r) && |r| == su.area.flash_size && LastCmd(r, SwapLog(su.area)).Some?
            && Left(su, r) == Left(su, mem) - 1 && LogRoom(su, r) == LogRoom(su, mem) - 1
            && Current(su, r) == NextCmd(su.area.sector, su.info, cmd)
  {
    LeftPositive(su, cmd);
    hide Setup.Ok, Intact, CmdOk, Remaining, Iter, NextCmd, StepMem, Append;
    IterKeeps(su, mem);
  }

  lemma AtEnd(su: Setup, mem: seq<byte>)
    requires su.Ok() && RunState(su, mem) && Ended(su, mem)
    ensures Swapped(su, mem) && Left(su, mem) == 0
  {
    LeftPositive(su, Current(su, mem));
    hide Setup.Ok, Swapped;
    EndImages(su, mem);
  }
}
