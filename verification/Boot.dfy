// One boot: zb_img_check, zb_img_swap (zepboot/src/zb_image.c, zepboot/src/zb_move.c) and main (bootloader/src/main.c).
module Boot {
  import opened AfterSwap
  import opened AsWritten
  import opened Bytes
  import opened CmdLog
  import opened Digest
  import opened Engine
  import opened Finish
  import opened Flash
  import opened Header
  import opened Images
  import opened Params
  import opened Runs
  import opened Swap

  // ----- what a boot decides -----

  // zb_img_check: the slot the image in slot 1 is meant to run from; None stands for -EFAULT.
  function Acceptance(cr: Crypto, area: Area, mem: seq<byte>): Option<nat> {
    var i := CheckedInfo(cr, mem, area, 1);
    var slt := if InSlot(area, 1, i.load_address) then 1 else 0;
    var size := i.end - i.hdr_start;
    if !i.is_valid then None
    else if size + area.sector > (if slt == 1 then area.slt1_size else area.slt0_size) then None
    else match PrmRead(mem, area)
      case None => Some(slt)
      case Some(prm) =>
        if VersionU32(i.version) < (if slt == 1 then prm.slt1_ver else prm.slt0_ver) then None else Some(slt)
  }

  // A swap was going on.
  predicate SwapGoing(area: Area, mem: seq<byte>) {
    var c := LastCmd(mem, SwapLog(area));
    c.Some? && Going(c.value.cmd2)
  }

  // The start command of a requested swap; in-place images are always permanent.
  function StartCmd(cmd1: byte, inplace: bool): Cmd {
    var c := ClearRequest(cmd1);
    Cmd(if inplace then MakePermanent(c) else c, WithInplace(CMD2_SWP_START, inplace), 0)
  }

  // The swap that the command at the end of slot 1 asks for, when there is one and the image is accepted.
  function Request(cr: Crypto, area: Area, mem: seq<byte>): Option<Cmd> {
    match LastCmd(mem, Slt1Log(area))
    case None => None
    case Some(c) =>
      if !Requested(c.cmd1) then None else
      match Acceptance(cr, area, mem)
      case None => None
      case Some(slt) => Some(StartCmd(c.cmd1, slt == 1))
  }

  // What is recorded to make a swap permanent; without a command to copy it is the empty word, stamped.
  function PermanentCmd(c: Option<Cmd>): Cmd {
    if c.Some? then c.value.(cmd1 := MakePermanent(c.value.cmd1)) else Cmd(0xff, 0xff, 0xff)
  }

  predicate WantsPermanent(area: Area, mem: seq<byte>) {
    var c := LastCmd(mem, Slt1Log(area));
    c.Some? && Permanent(c.value.cmd1)
  }

  function AfterMakePermanent(area: Area, mem: seq<byte>): (r: seq<byte>)
    ensures |r| == |mem|
  {
    if WantsPermanent(area, mem) then Append(mem, Slt0Log(area), PermanentCmd(LastCmd(mem, Slt0Log(area)))) else mem
  }

  // The swap that undoes a temporary swap.
  function Restore(area: Area, mem: seq<byte>): Option<Cmd> {
    match LastCmd(mem, Slt0Log(area))
    case None => None
    case Some(c) => if Permanent(c.cmd1) then None else Some(Cmd(MakePermanent(c.cmd1), CMD2_SWP_START, 0))
  }

  function WithStart(area: Area, mem: seq<byte>, c: Cmd): (r: seq<byte>)
    ensures |r| == |mem|
  {
    Append(Erased(mem, area.swpstat_offset, area.swpstat_size), SwapLog(area), c)
  }

  // Whether to run the swap machine, on which flash, and whether zb_img_swap returns 0.
  datatype Decision = Decision(swap: bool, ok: bool, mem: seq<byte>)

  function Prepare(cr: Crypto, area: Area, mem: seq<byte>): Decision {
    if SwapGoing(area, mem) then Decision(true, true, mem)
    else match Request(cr, area, mem)
      case Some(c) => Decision(true, true, WithStart(area, mem, c))
      case None =>
        var m := AfterMakePermanent(area, mem);
        match Restore(area, m)
        case Some(c) => Decision(true, true, WithStart(area, m, c))
        case None => Decision(false, LastCmd(m, Slt0Log(area)).Some?, m)
  }

  // The crc of the image that a slot's header describes.
  function SlotCrc(cr: Crypto, area: Area, mem: seq<byte>, slt: nat): nat {
    var i := ReadInfo(cr, mem, area, slt, 0);
    FlashCrc(cr, mem, i.start, Max(0, i.end - i.start))
  }

  // What zb_cmd_read_slt1end leaves in a variable that held `stale`.
  function Slt1Cmd(area: Area, mem: seq<byte>, stale: Cmd): Cmd {
    match LastCmd(mem, Slt1Log(area))
    case Some(c) => c
    case None => if Room(mem, Slt1Log(area)) > 0 then Cmd(0xff, 0xff, 0xff) else stale
  }

  // The address main boots; None when nothing valid is found.
  function BootAddress(cr: Crypto, area: Area, mem: seq<byte>, stale: Cmd): Option<nat> {
    match PrmRead(mem, area)
    case None => None
    case Some(prm) =>
      var a := if Slt1Cmd(area, mem, stale).cmd1 == CMD1_MASK_BT0_REQUEST then prm.sec_ld_address
          else prm.pri_ld_address;
      var b := if InSlot(area, 1, a) && SlotCrc(cr, area, mem, 1) != prm.slt1_crc32 then prm.sec_ld_address else a;
      if (InSlot(area, 0, b) || InRam(area, b)) && SlotCrc(cr, area, mem, 0) != prm.slt0_crc32 then None else Some(b)
  }

  // ----- the code -----

  // zb_prm_read
  method ReadPrm(flash: FlashDevice, area: Area) returns (prm: Option<Prm>)
    requires flash.Fits(area)
    ensures prm == PrmRead(flash.mem, area)
  {
    PrmFitsSector(area);
    hide Area.Ok, Replay, U32;
    var buf := new byte[PRM_BYTES];
    flash.FlashRead(area.slt0_offset + area.slt0_size - area.sector, buf, PRM_BYTES);
    ghost var s := Slice(flash.mem, area.Slt0End(), PRM_BYTES);
    assert buf[..] == s;
    assert forall k :: 0 <= k < PRM_BYTES ==> buf[k] == s[k] == At(flash.mem, area.Slt0End() + k);
    var p := Prm(U32(buf[0], buf[1], buf[2], buf[3]), U32(buf[4], buf[5], buf[6], buf[7]),
                 U32(buf[8], buf[9], buf[10], buf[11]), U32(buf[12], buf[13], buf[14], buf[15]),
                 U32(buf[16], buf[17], buf[18], buf[19]), U32(buf[20], buf[21], buf[22], buf[23]));
    prm := if p.pri_ld_address == EMPTY_U32 then None else Some(p);
  }

  // The header of slot 1 can be read, and describes an image inside the device.
  ghost predicate SlotReadable(cr: Crypto, area: Area, mem: seq<byte>, slt: nat) {
    HeaderOk(mem, SlotOffset(area, slt)) && ReadInfo(cr, mem, area, slt, 0).end <= |mem|
  }

  // zb_img_check
  method ImgCheck(cr: Crypto, flash: FlashDevice, area: Area) returns (slt: Option<nat>)
    requires flash.Fits(area) && SlotReadable(cr, area, flash.mem, 1)
    ensures slt == Acceptance(cr, area, flash.mem)
  {
    hide Area.Ok, Replay, CheckedInfo, PrmRead, ReadInfo, HeaderOk, VersionU32;
    var info := ImgGetInfo(cr, flash, area, 1, 0, true, true);
    if !info.is_valid {
      return None;
    }
    slt := Some(if InSlot(area, 1, info.load_address) then 1 else 0);
    var img_size := info.end - info.hdr_start;
    if slt == Some(0) && img_size + area.sector > area.slt0_size {
      return None;
    }
    if slt == Some(1) && img_size + area.sector > area.slt1_size {
      return None;
    }
    var prm := ReadPrm(flash, area);
    if prm.None? {
      return;
    }
    var img_version := VersionU32(info.version);
    if slt == Some(0) && img_version < prm.value.slt0_ver {
      return None;
    }
    if slt == Some(1) && img_version < prm.value.slt1_ver {
      return None;
    }
  }

  lemma ErasedSwapLog(area: Area, mem: seq<byte>)
    requires area.Ok() && |mem| == area.flash_size
    ensures var e, log := Erased(mem, area.swpstat_offset, area.swpstat_size), SwapLog(area);
            && log.Ok(area.block) && log.end <= |e| && TailBlank(e, log) && LogCommands(e, log) == []
            && Room(e, log) == area.swpstat_size / log.stride > 0 && FirstFree(e, log.start, log) == log.start
  {
    SwapLogOk(area);
    hide Area.Ok, Commands, FirstFree, Records;
    var e, log := Erased(mem, area.swpstat_offset, area.swpstat_size), SwapLog(area);
    ErasedLog(e, log, area.block);
    ErasedFree(e, log, area.block);
  }

  // zb_erase_swpstat and zb_cmd_write_swpstat
  method StartSwap(flash: FlashDevice, area: Area, cmd: Cmd) returns (ok: bool)
    requires flash.Fits(area)
    modifies flash
    ensures flash.Fits(area) && flash.mem == WithStart(area, old(flash.mem), cmd) && ok
  {
    ErasedSwapLog(area, flash.mem);
    hide Area.Ok, Replay, Commands, FirstFree, Records, Log.Ok, Append, Record, TailBlank, LogCommands, Room;
    EraseSwpstat(flash, area);
    ok := CmdWrite(flash, SwapLog(area), cmd);
  }

  // A request for which the machine may be started: `su` describes the swap.
  ghost predicate Startable(su: Setup, cr: Crypto, area: Area, mem: seq<byte>) {
    && su.cr == cr && su.area == area && su.Ok() && HeadersOk(su) && RunState(su, mem)
    && Left(su, mem) <= LogRoom(su, mem) && Recovers(su, mem)
  }

  // What zb_img_swap leaves: the swap run to its end, if there is one.
  ghost predicate SwapDone(su: Setup, d: Decision, mem: seq<byte>) {
    if d.swap then
      && su.area.sector > 0 && LastCmd(d.mem, SwapLog(su.area)).Some? && 0 <= Left(su, d.mem)
      && mem == IterN(su.cr, su.area, su.info, d.mem, Left(su, d.mem))
      && Ended(su, mem) && Swapped(su, mem)
    else mem == d.mem
  }

  // The part of zb_img_swap that decides; `flash` is left ready for zb_img_cmd_proc.
  method PrepareSwap(cr: Crypto, flash: FlashDevice, area: Area) returns (swap: bool, ok: bool)
    requires flash.Fits(area) && SlotReadable(cr, area, flash.mem, 1) && TailBlank(flash.mem, Slt0Log(area))
    modifies flash
    ensures flash.Fits(area) && Prepare(cr, area, old(flash.mem)) == Decision(swap, ok, flash.mem)
  {
    assert SwapLog(area).Ok(flash.block) && SwapLog(area).end <= |flash.mem| by { SwapLogOk(area); }
    assert Slt1Log(area).Ok(flash.block) && Slt1Log(area).end <= |flash.mem| by { Slt1LogOk(area); }
    hide Area.Ok, Replay, Log.Ok, LastCmd, SlotReadable, Acceptance, WithStart, AfterMakePermanent, Restore, Going,
         TailBlank, SwapLog, Slt0Log, Slt1Log, StartCmd;
    swap, ok := false, false;
    var found, cmd := CmdRead(flash, SwapLog(area), Cmd(0, 0, 0));
    if found && Going(cmd.cmd2) {
      swap, ok := true, true;
    }
    if !swap {
      found, cmd := CmdRead(flash, Slt1Log(area), cmd);
      if found && Requested(cmd.cmd1) {
        var slt := ImgCheck(cr, flash, area);
        if slt.Some? {
          swap := StartSwap(flash, area, StartCmd(cmd.cmd1, slt.value == 1));
          ok := swap;
        }
      }
    }
    if !swap {
      swap, ok := PermanentOrRestore(flash, area, cmd);
    }
  }

  // The last two branches of zb_img_swap: make a swap permanent, or undo a temporary one.
  method PermanentOrRestore(flash: FlashDevice, area: Area, stale: Cmd) returns (swap: bool, ok: bool)
    requires flash.Fits(area) && TailBlank(flash.mem, Slt0Log(area))
    modifies flash
    ensures flash.Fits(area)
    ensures var m := AfterMakePermanent(area, old(flash.mem));
            Decision(swap, ok, flash.mem)
            == match Restore(area, m)
               case Some(c) => Decision(true, true, WithStart(area, m, c))
               case None => Decision(false, LastCmd(m, Slt0Log(area)).Some?, m)
  {
    assert Slt0Log(area).Ok(flash.block) && Slt0Log(area).end <= |flash.mem| by { Slt0LogOk(area); }
    hide Area.Ok, Replay, Log.Ok, LastCmd, WithStart, TailBlank, Slt0Log, AfterMakePermanent;
    RequestPermanent(flash, area, stale);
    var found, cmd := CmdRead(flash, Slt0Log(area), stale);
    swap, ok := false, found;
    if found && !Permanent(cmd.cmd1) {
      swap := StartSwap(flash, area, Cmd(MakePermanent(cmd.cmd1), CMD2_SWP_START, 0));
      ok := swap;
    }
  }

  method RequestPermanent(flash: FlashDevice, area: Area, stale: Cmd)
    requires flash.Fits(area) && TailBlank(flash.mem, Slt0Log(area))
    modifies flash
    ensures flash.Fits(area) && flash.mem == AfterMakePermanent(area, old(flash.mem))
  {
    assert Slt0Log(area).Ok(flash.block) && Slt0Log(area).end <= |flash.mem| by { Slt0LogOk(area); }
    assert Slt1Log(area).Ok(flash.block) && Slt1Log(area).end <= |flash.mem| by { Slt1LogOk(area); }
    hide Area.Ok, Replay, Log.Ok, LastCmd, TailBlank, Slt0Log, Slt1Log, Records, FirstFree;
    var found, cmd := CmdRead(flash, Slt1Log(area), stale);
    if found && Permanent(cmd.cmd1) {
      found, cmd := CmdRead(flash, Slt0Log(area), cmd);
      if found && !Permanent(cmd.cmd1) {
        cmd := cmd.(cmd1 := MakePermanent(cmd.cmd1));
      }
      assert Slt0Log(area).stride > 0 by { Slt0LogOk(area); }
      FullLogStays(flash.mem, Slt0Log(area), cmd, PermanentCmd(LastCmd(flash.mem, Slt0Log(area))));
      var written := CmdWrite(flash, Slt0Log(area), cmd);
    }
  }

  lemma FullLogStays(mem: seq<byte>, log: Log, a: Cmd, b: Cmd)
    requires log.stride > 0
    ensures Room(mem, log) == 0 ==> Append(mem, log, a) == Append(mem, log, b) == mem
  {}

  // zb_img_swap
  method ImgSwap(cr: Crypto, flash: FlashDevice, area: Area, ghost su: Setup) returns (ok: bool)
    requires flash.Fits(area) && SlotReadable(cr, area, flash.mem, 1) && TailBlank(flash.mem, Slt0Log(area))
    requires var d := Prepare(cr, area, flash.mem); d.swap ==> Startable(su, cr, area, d.mem)
    modifies flash
    ensures flash.Fits(area) && ok == Prepare(cr, area, old(flash.mem)).ok
    ensures SwapDone(su, Prepare(cr, area, old(flash.mem)), flash.mem)
  {
    hide Area.Ok, Replay, Prepare, Setup.Ok, HeadersOk, RunState, Left, LogRoom, Recovers, Ended, Swapped, IterN,
         TailBlank, SlotReadable, LastCmd;
    var swap;
    swap, ok := PrepareSwap(cr, flash, area);
    if swap {
      RunBasics(su, flash.mem);
      var st := new SwpState();
      ImgCmdProc(cr, flash, area, st, su);
    }
  }

  // main, for the slot area that is booted: swap if need be, then choose the address. `stale` is what the stack
  // holds where main keeps the command it reads.
  method BootMain(cr: Crypto, flash: FlashDevice, area: Area, stale: Cmd, ghost su: Setup) returns (addr: Option<nat>)
    requires flash.Fits(area) && SlotReadable(cr, area, flash.mem, 1) && TailBlank(flash.mem, Slt0Log(area))
    requires var d := Prepare(cr, area, flash.mem);
             && (d.swap ==> Startable(su, cr, area, d.mem))
             && (!d.swap ==> SlotReadable(cr, area, d.mem, 0) && SlotReadable(cr, area, d.mem, 1))
    modifies flash
    ensures SwapDone(su, Prepare(cr, area, old(flash.mem)), flash.mem)
    ensures addr == if Prepare(cr, area, old(flash.mem)).ok then BootAddress(cr, area, flash.mem, stale) else None
  {
    hide Area.Ok, Replay, Prepare, SlotReadable, SwapDone, Startable, BootAddress, TailBlank;
    var ok := ImgSwap(cr, flash, area, su);
    if !ok {
      return None;
    }
    DoneReadable(su, cr, area, Prepare(cr, area, old(flash.mem)), flash.mem);
    addr := ChooseAddress(cr, flash, area, stale);
  }

  lemma DoneReadable(su: Setup, cr: Crypto, area: Area, d: Decision, mem: seq<byte>)
    requires SwapDone(su, d, mem)
    requires if d.swap then Startable(su, cr, area, d.mem)
             else SlotReadable(cr, area, d.mem, 0) && SlotReadable(cr, area, d.mem, 1)
    ensures SlotReadable(cr, area, mem, 0) && SlotReadable(cr, area, mem, 1)
  {
    hide Setup.Ok, HeadersOk, RunState, Left, LogRoom, Recovers, Ended, Swapped, IterN, LastCmd, Readable, HeaderOk;
    if d.swap {
      RunToEnd(su, d.mem);
      RunReadable(su, mem);
    }
  }

  lemma RunReadable(su: Setup, mem: seq<byte>)
    requires su.Ok() && HeadersOk(su) && RunState(su, mem) && Ended(su, mem)
    ensures SlotReadable(su.cr, su.area, mem, 0) && SlotReadable(su.cr, su.area, mem, 1)
  {
    hide Setup.Ok, HeadersOk, RunState, Intact, LastCmd, ReadInfo, Phase, WellFormed, Magic, TlvArea, TlvAreaSize;
    StateIs(su, mem);
    FinalReadable(su, PosOf(su.area.sector, Current(su, mem)), mem);
  }

  method ChooseAddress(cr: Crypto, flash: FlashDevice, area: Area, stale: Cmd) returns (addr: Option<nat>)
    requires flash.Fits(area) && SlotReadable(cr, area, flash.mem, 0) && SlotReadable(cr, area, flash.mem, 1)
    ensures addr == BootAddress(cr, area, flash.mem, stale)
  {
    assert Slt1Log(area).Ok(flash.block) && Slt1Log(area).end <= |flash.mem| by { Slt1LogOk(area); }
    hide Area.Ok, Replay, Log.Ok, LastCmd, SlotCrc, Slt1Log, PrmRead, SlotReadable;
    var prm := ReadPrm(flash, area);
    if prm.None? {
      return None;
    }
    var pri := prm.value.pri_ld_address;
    var found, cmd := CmdRead(flash, Slt1Log(area), stale);
    if cmd.cmd1 == CMD1_MASK_BT0_REQUEST {
      pri := prm.value.sec_ld_address;
    }
    if InSlot(area, 1, pri) {
      var crc32 := CrcOfSlot(cr, flash, area, 1);
      if prm.value.slt1_crc32 != crc32 {
        pri := prm.value.sec_ld_address;
      }
    }
    if InSlot(area, 0, pri) || InRam(area, pri) {
      var crc32 := CrcOfSlot(cr, flash, area, 0);
      if prm.value.slt0_crc32 != crc32 {
        return None;
      }
    }
    addr := Some(pri);
  }

  method CrcOfSlot(cr: Crypto, flash: FlashDevice, area: Area, slt: nat) returns (crc32: nat)
    requires flash.Valid() && SlotReadable(cr, area, flash.mem, slt)
    ensures crc32 == SlotCrc(cr, area, flash.mem, slt)
  {
    hide ReadInfo, HeaderOk, Replay, FlashCrc;
    StartsBeforeEnd(cr, area, flash.mem, slt);
    var info := ImgGetInfo(cr, flash, area, slt, 0, false, false);
    crc32 := Crc32Flash(cr, flash, info.start, info.end - info.start);
  }
}
