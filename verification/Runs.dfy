// Whole runs of the swap machine over flash: what every turn keeps, how a run ends, and how many records it takes.
module Runs {
  import opened Bytes
  import opened CmdLog
  import Ctr
  import opened Digest
  import opened Flash
  import opened Images
  import opened Move
  import opened Swap

  lemma PhaseCases(su: Setup, cmd: Cmd)
    requires su.area.sector > 0 && CmdOk(su, cmd)
    ensures Phase(cmd.cmd2) in {CMD2_SWP_START, CMD2_MOVE_UP, CMD2_SWP_P1, CMD2_SWP_P2, CMD2_SWP_P3, CMD2_SWP_P4,
                                CMD2_SWP_END}
    ensures Going(cmd.cmd2) <==> Phase(cmd.cmd2) != CMD2_SWP_END
  {}

  lemma StartStep(su: Setup, cmd: Cmd, mem: seq<byte>)
    requires su.Ok() && CmdOk(su, cmd) && Phase(cmd.cmd2) == CMD2_SWP_START
    requires Intact(su, PosOf(su.area.sector, cmd), mem)
    ensures Intact(su, PosOf(su.area.sector, NextCmd(su.area.sector, su.info, cmd)), mem)
  {
    var s := su.area.sector;
    NextFromStart(su, cmd);
    PhaseBits(CMD2_SWP_P3, true);
    PhaseBits(CMD2_SWP_P1, su.inplace);
    PhaseBits(CMD2_MOVE_UP, su.inplace);
    SectorsFacts(su.OldLen(), s, 0);
    if su.OldSectors() > 0 {
      var m := su.OldSectors();
      SectorsFacts(su.OldLen(), s, m);
      NextSector(m - 1, s);
    }
    if su.inplace && su.info.fr.enc_start != su.info.fr.end {
      InplaceNotEmpty(su);
    }
    StartPlaces(su, PosOf(s, cmd), PosOf(s, NextCmd(s, su.info, cmd)), mem);
  }

  // The first move up starts at the last sector; without an old image there is none; a clear in-place image is
  // already what it should be.
  lemma StartPlaces(su: Setup, p: Pos, q: Pos, mem: seq<byte>)
    requires su.Ok() && p.phase == CMD2_SWP_START && Intact(su, p, mem)
    requires || (q == Pos(CMD2_SWP_P3, 0) && su.inplace && su.info.fr.enc_start == su.info.fr.end)
             || (q == Pos(CMD2_SWP_P1, 0) && !su.inplace && su.OldLen() <= 0)
             || (q.phase == CMD2_MOVE_UP && su.OldLen() <= q.off + su.area.sector)
    ensures Intact(su, q, mem)
  {
    hide Setup.Ok, Transform, Slice, Sectors, OldPlaces, NewPlaces, Untouched, Setup.OldOut, Setup.NewOut, Setup.Old,
         Setup.New;
    SlotsApart(su);
    if q.phase == CMD2_SWP_P3 {
      ClearImage(su);
      InplaceHasNoNew(su);
    }
    StartData(mem, p, q, su.To(), su.Fr(), su.area.sector, su.Old(), su.OldOut(), su.New(), su.NewOut());
    StartUntouched(su, p, q, mem);
  }

  lemma InplaceHasNoNew(su: Setup)
    requires su.inplace
    ensures |su.New()| == 0
  {}

  lemma StartData(mem: seq<byte>, p: Pos, q: Pos, t: int, f: int, s: int, o: seq<byte>, oo: seq<byte>, n: seq<byte>,
                  no: seq<byte>)
    requires p.phase == CMD2_SWP_START && |o| == |oo| && |n| == |no|
    requires OldPlaces(mem, p, t, f, s, o, oo) && NewPlaces(mem, p, t, f, s, n, no)
    requires || (q == Pos(CMD2_SWP_P3, 0) && oo == o && t == f && |n| == 0)
             || (q == Pos(CMD2_SWP_P1, 0) && |o| == 0)
             || (q.phase == CMD2_MOVE_UP && |o| <= q.off + s)
    ensures OldPlaces(mem, q, t, f, s, o, oo) && NewPlaces(mem, q, t, f, s, n, no)
  {}

  lemma StartUntouched(su: Setup, p: Pos, q: Pos, mem: seq<byte>)
    requires Untouched(su, p, mem) && q.phase != CMD2_SWP_START
    ensures Untouched(su, q, mem)
  {}

  lemma ClearImage(su: Setup)
    requires su.Ok() && su.inplace && su.info.fr.enc_start == su.info.fr.end
    ensures su.OldOut() == su.Old() && su.To() == su.Fr()
  {
    hide Xor, Ctr.Keystream, Slice;
  }
  // One turn: both images stay intact, at the places the next command gives.
  lemma StepKeeps(su: Setup, cmd: Cmd, mem: seq<byte>)
    requires su.Ok() && CmdOk(su, cmd) && Going(cmd.cmd2)
    requires Intact(su, PosOf(su.area.sector, cmd), mem)
    ensures var r := StepMem(su.cr, su.area, su.info, cmd, mem);
            Intact(su, PosOf(su.area.sector, NextCmd(su.area.sector, su.info, cmd)), r)
    ensures var (lo, hi) := Target(su.area, su.info, cmd);
            SameOutside(mem, StepMem(su.cr, su.area, su.info, cmd, mem), lo, hi)
  {
    PhaseCases(su, cmd);
    hide Intact, Setup.Ok, CmdOk, Inplace, Going;
    match Phase(cmd.cmd2)
    case 0x10 => StartStep(su, cmd, mem);
    case 0x12 => MoveUpStep(su, cmd, mem);
    case 0x14 => P1Step(su, cmd, mem);
    case 0x16 => P2Step(su, cmd, mem);
    case _ => EndStep(su, cmd, mem);
  }

  lemma LateStep(cr: Crypto, area: Area, info: SwpInfo, cmd: Cmd, mem: seq<byte>)
    ensures Phase(cmd.cmd2) == CMD2_SWP_P3 ==> StepMem(cr, area, info, cmd, mem) == P3Mem(cr, area, mem, cmd)
    ensures Phase(cmd.cmd2) == CMD2_SWP_P4
        ==> StepMem(cr, area, info, cmd, mem) == Erased(mem, area.Slt1End(), area.sector)
  {
    hide Phase, P3Mem, Erased, SectorMove;
  }

  lemma ErasedOutside(mem: seq<byte>, off: int, n: nat)
    ensures SameOutside(mem, Erased(mem, off, n), off, off + n)
  {}

  lemma EndStep(su: Setup, cmd: Cmd, mem: seq<byte>)
    requires su.Ok() && CmdOk(su, cmd) && (Phase(cmd.cmd2) == CMD2_SWP_P3 || Phase(cmd.cmd2) == CMD2_SWP_P4)
    requires Intact(su, PosOf(su.area.sector, cmd), mem)
    ensures var r := StepMem(su.cr, su.area, su.info, cmd, mem);
            Intact(su, PosOf(su.area.sector, NextCmd(su.area.sector, su.info, cmd)), r)
    ensures var (lo, hi) := Target(su.area, su.info, cmd);
            SameOutside(mem, StepMem(su.cr, su.area, su.info, cmd, mem), lo, hi)
  {
    hide Intact, Setup.Ok, Phase, NextCmd, StepMem, Target, CmdOk, SameOutside, PosOf, Area.Slt0End, Area.Slt1End;
    OkArea(su);
    var s, area := su.area.sector, su.area;
    var p, q := PosOf(s, cmd), PosOf(s, NextCmd(s, su.info, cmd));
    IntactLength(su, p, mem);
    EndNext(area, su.info, cmd);
    EndTarget(su, cmd);
    EndOutside(su.cr, area, su.info, cmd, mem);
    PosPhase(s, cmd);
    PosPhase(s, NextCmd(s, su.info, cmd));
    var lo := if Phase(cmd.cmd2) == CMD2_SWP_P3 then area.Slt0End() else area.Slt1End();
    LastSectorErased(su, p, q, mem, StepMem(su.cr, area, su.info, cmd, mem), lo);
  }

  lemma PosPhase(sector: nat, cmd: Cmd)
    ensures PosOf(sector, cmd).phase == Phase(cmd.cmd2)
  {
    hide Phase;
  }

  lemma EndOutside(cr: Crypto, area: Area, info: SwpInfo, cmd: Cmd, mem: seq<byte>)
    requires area.Ok() && |mem| == area.flash_size
    requires Phase(cmd.cmd2) == CMD2_SWP_P3 || Phase(cmd.cmd2) == CMD2_SWP_P4
    ensures var lo := if Phase(cmd.cmd2) == CMD2_SWP_P3 then area.Slt0End() else area.Slt1End();
            SameOutside(mem, StepMem(cr, area, info, cmd, mem), lo, lo + area.sector)
  {
    hide Phase, StepMem, P3Mem, SameOutside, Area.Ok, Area.Slt0End, Area.Slt1End, Erased, Put, P3Prm, P3Record, Record,
         Inplace, LogCommands, TailBlank, Slt0Log;
    LateStep(cr, area, info, cmd, mem);
    if Phase(cmd.cmd2) == CMD2_SWP_P3 {
      P3Inside(cr, area, mem, cmd);
    } else {
      ErasedOutside(mem, area.Slt1End(), area.sector);
    }
  }

  lemma EndNext(area: Area, info: SwpInfo, cmd: Cmd)
    requires area.sector > 0 && (Phase(cmd.cmd2) == CMD2_SWP_P3 || Phase(cmd.cmd2) == CMD2_SWP_P4)
    ensures Phase(NextCmd(area.sector, info, cmd).cmd2)
         == if Phase(cmd.cmd2) == CMD2_SWP_P3 then CMD2_SWP_P4 else CMD2_SWP_END
  {
    PhaseBits(CMD2_SWP_P4, Inplace(cmd.cmd2));
    PhaseBits(CMD2_SWP_END, Inplace(cmd.cmd2));
    hide Inplace, WithInplace;
  }

  // ----- nothing is lost inside a step -----

  lemma MoveUpFree(mem: seq<byte>, r: seq<byte>, p: Pos, t: int, f: int, s: int, size: int, fsize: int,
                   o: seq<byte>, oo: seq<byte>, n: seq<byte>, no: seq<byte>)
    requires p.phase == CMD2_MOVE_UP && s > 0 && p.off + 2 * s <= size && |n| <= fsize
    requires |n| > 0 ==> Slots(t, size, f, fsize, false)
    requires OldPlaces(mem, p, t, f, s, o, oo) && NewPlaces(mem, p, t, f, s, n, no)
    requires SameOutside(mem, r, t + p.off + s, t + p.off + 2 * s)
    ensures OldPlaces(r, p, t, f, s, o, oo) && NewPlaces(r, p, t, f, s, n, no)
  {}

  lemma P1Free(mem: seq<byte>, r: seq<byte>, p: Pos, t: int, f: int, s: int, size: int, fsize: int,
               o: seq<byte>, oo: seq<byte>, n: seq<byte>, no: seq<byte>)
    requires p.phase == CMD2_SWP_P1 && s > 0 && p.off + s <= size && |n| <= fsize && |o| <= fsize
    requires Slots(t, size, f, fsize, false) && |oo| == |o|
    requires OldPlaces(mem, p, t, f, s, o, oo) && NewPlaces(mem, p, t, f, s, n, no)
    requires SameOutside(mem, r, t + p.off, t + p.off + s)
    ensures OldPlaces(r, p, t, f, s, o, oo) && NewPlaces(r, p, t, f, s, n, no)
  {}

  lemma P2Free(mem: seq<byte>, r: seq<byte>, p: Pos, t: int, f: int, s: int, size: int, fsize: int, same: bool,
               o: seq<byte>, oo: seq<byte>, n: seq<byte>, no: seq<byte>)
    requires p.phase == CMD2_SWP_P2 && s > 0 && p.off + s <= fsize && |n| <= size && |o| + s <= size
    requires Slots(t, size, f, fsize, same) && (|n| > 0 ==> !same) && |no| == |n|
    requires OldPlaces(mem, p, t, f, s, o, oo) && NewPlaces(mem, p, t, f, s, n, no)
    requires SameOutside(mem, r, f + p.off, f + p.off + s)
    ensures OldPlaces(r, p, t, f, s, o, oo) && NewPlaces(r, p, t, f, s, n, no)
  {}

  // Sizes that the position of a command respects.
  lemma TargetFits(su: Setup, cmd: Cmd)
    requires su.Ok() && CmdOk(su, cmd)
    ensures var s, off, (lo, hi) := su.area.sector, cmd.cmd3 * su.area.sector, Target(su.area, su.info, cmd);
            && s > 0 && lo <= hi
            && (Phase(cmd.cmd2) == CMD2_MOVE_UP ==>
                  lo == su.To() + off + s && hi == lo + s && off + 2 * s <= su.ToSize() && su.OldLen() > 0)
            && (Phase(cmd.cmd2) == CMD2_SWP_P1 ==>
                  !su.inplace && (lo == hi == 0 || (lo == su.To() + off && hi == lo + s
                      && off + s <= su.area.slt0_size)))
            && (Phase(cmd.cmd2) == CMD2_SWP_P2 ==>
                  lo == hi == 0
                  || (lo == su.Fr() + off && hi == lo + s && off + s <= su.area.slt1_size && su.OldLen() > 0))
            && (Phase(cmd.cmd2) == CMD2_SWP_P3 ==> lo == su.area.Slt0End() && hi == lo + s)
            && (Phase(cmd.cmd2) == CMD2_SWP_P4 ==> lo == su.area.Slt1End() && hi == lo + s)
            && (Phase(cmd.cmd2) == CMD2_SWP_START || Phase(cmd.cmd2) == CMD2_SWP_END ==> lo == hi == 0)
  {
    hide Setup.Ok, CmdOk, NextCmd, StepMem, Phase, Going, PosOf, Target, Setup.OldLen, Setup.NewLen, Setup.ToSize;
    var off := cmd.cmd3 * su.area.sector;
    PlaceFacts(su);
    PhaseCases(su, cmd);
    InplaceCmd(su, cmd);
    if Phase(cmd.cmd2) == CMD2_MOVE_UP {
      MoveUpNumbers(su, cmd, su.mem0, off);
    } else if Phase(cmd.cmd2) == CMD2_SWP_P1 {
      P1Numbers(su, cmd, su.mem0, off);
    } else if Phase(cmd.cmd2) == CMD2_SWP_P2 {
      P2Numbers(su, cmd, su.mem0, off);
    } else {
      EndTarget(su, cmd);
    }
  }

  lemma InplaceCmd(su: Setup, cmd: Cmd)
    requires su.area.sector > 0 && CmdOk(su, cmd)
    ensures Phase(cmd.cmd2) == CMD2_SWP_P1 ==> !su.inplace
  {
    hide Sectors, Inplace;
  }

  lemma EndTarget(su: Setup, cmd: Cmd)
    requires Phase(cmd.cmd2) in {CMD2_SWP_START, CMD2_SWP_P3, CMD2_SWP_P4, CMD2_SWP_END}
    ensures Target(su.area, su.info, cmd)
         == if Phase(cmd.cmd2) == CMD2_SWP_P3 then (su.area.Slt0End(), su.area.Slt0End() + su.area.sector)
            else if Phase(cmd.cmd2) == CMD2_SWP_P4 then (su.area.Slt1End(), su.area.Slt1End() + su.area.sector)
            else (0, 0)
  {
    hide Phase;
  }

  // Whatever a step has done to the range it works on, finished or not, every octet of both images is still at
  // the place given by the logged phase and sector.
  lemma NothingLost(su: Setup, cmd: Cmd, mem: seq<byte>, r: seq<byte>)
    requires su.Ok() && CmdOk(su, cmd)
    requires Intact(su, PosOf(su.area.sector, cmd), mem)
    requires var (lo, hi) := Target(su.area, su.info, cmd); SameOutside(mem, r, lo, hi)
    ensures Intact(su, PosOf(su.area.sector, cmd), r)
  {
    var p := PosOf(su.area.sector, cmd);
    var (lo, hi) := Target(su.area, su.info, cmd);
    PhaseCases(su, cmd);
    TargetFits(su, cmd);
    if lo == hi {
      SameEverywhere(mem, r);
    } else if Phase(cmd.cmd2) == CMD2_SWP_P3 || Phase(cmd.cmd2) == CMD2_SWP_P4 {
      LastSectorErased(su, p, p, mem, r, lo);
    } else {
      MidStep(su, p, mem, r, lo, hi);
    }
  }

  lemma MidStep(su: Setup, p: Pos, mem: seq<byte>, r: seq<byte>, lo: int, hi: int)
    requires su.Ok() && Intact(su, p, mem) && SameOutside(mem, r, lo, hi)
    requires var s := su.area.sector;
             || (p.phase == CMD2_MOVE_UP && lo == su.To() + p.off + s && hi == lo + s
                 && p.off + 2 * s <= su.ToSize() && su.OldLen() > 0)
             || (p.phase == CMD2_SWP_P1 && !su.inplace && lo == su.To() + p.off && hi == lo + s
                 && p.off + s <= su.area.slt0_size)
             || (p.phase == CMD2_SWP_P2 && lo == su.Fr() + p.off && hi == lo + s
                 && p.off + s <= su.area.slt1_size && su.OldLen() > 0)
    ensures Intact(su, p, r)
  {
    hide Setup.Ok, Transform, Slice, Sectors, OldPlaces, NewPlaces, Area.Ok, Untouched, SameOutside, Setup.OldLen,
         Setup.NewLen, Setup.ToSize, Setup.To, Setup.Fr;
    var t, f, s := su.To(), su.Fr(), su.area.sector;
    SlotsApart(su);
    PlaceFacts(su);
    UntouchedKept(su, p, p, mem, r, lo, hi);
    if p.phase == CMD2_MOVE_UP {
      MoveUpFree(mem, r, p, t, f, s, su.ToSize(), su.area.slt1_size, su.Old(), su.OldOut(), su.New(), su.NewOut());
    } else if p.phase == CMD2_SWP_P1 {
      P1Free(mem, r, p, t, f, s, su.ToSize(), su.area.slt1_size, su.Old(), su.OldOut(), su.New(), su.NewOut());
    } else {
      P2Free(mem, r, p, t, f, s, su.ToSize(), su.area.slt1_size, su.inplace, su.Old(), su.OldOut(), su.New(),
             su.NewOut());
    }
  }

  // ----- the state of a run in flash -----

  function Current(su: Setup, mem: seq<byte>): Cmd
    requires LastCmd(mem, SwapLog(su.area)).Some?
  {
    LastCmd(mem, SwapLog(su.area)).value
  }

  // The last valid command of the swap log tells where both images are.
  ghost predicate RunState(su: Setup, mem: seq<byte>) {
    && su.area.sector > 0 && |mem| == su.area.flash_size
    && TailBlank(mem, SwapLog(su.area))
    && LastCmd(mem, SwapLog(su.area)).Some?
    && CmdOk(su, Current(su, mem))
    && Intact(su, PosOf(su.area.sector, Current(su, mem)), mem)
  }

  function LogRoom(su: Setup, mem: seq<byte>): nat {
    Room(mem, SwapLog(su.area))
  }

  function Left(su: Setup, mem: seq<byte>): int
    requires su.area.sector > 0 && LastCmd(mem, SwapLog(su.area)).Some?
  {
    Remaining(su, Current(su, mem))
  }

  // Every step works inside one of the slots.
  lemma TargetInSlot(su: Setup, cmd: Cmd)
    requires su.Ok() && CmdOk(su, cmd)
    ensures var (lo, hi), area := Target(su.area, su.info, cmd), su.area;
            && lo <= hi
            && (lo == hi || (area.slt0_offset <= lo && hi <= area.slt0_offset + area.slt0_size)
                || (area.slt1_offset <= lo && hi <= area.slt1_offset + area.slt1_size))
  {
    hide Setup.Ok, CmdOk, Target, Area.Ok, Phase, Going, Setup.OldLen, Setup.NewLen, Setup.ToSize, Setup.To, Setup.Fr;
    PlaceFacts(su);
    PhaseCases(su, cmd);
    TargetFits(su, cmd);
    MulMonotone(0, cmd.cmd3, su.area.sector);
  }

  // Steps never touch the swap status area, and its records are outside both slots.
  lemma TargetOutsideLog(su: Setup, cmd: Cmd)
    requires su.Ok() && CmdOk(su, cmd)
    ensures var (lo, hi), log := Target(su.area, su.info, cmd), SwapLog(su.area);
            lo <= hi && (lo == hi || Apart(lo, hi - lo, log.start, log.end - log.start))
  {
    hide Setup.Ok, CmdOk, Target, Area.Ok, SwapLog;
    TargetInSlot(su, cmd);
    PlaceFacts(su);
    SwapApart(su.area);
  }

  lemma SwapApart(area: Area)
    requires area.Ok()
    ensures var log := SwapLog(area);
            && Apart(log.start, log.end - log.start, area.slt0_offset, area.slt0_size)
            && Apart(log.start, log.end - log.start, area.slt1_offset, area.slt1_size)
            && log.start < log.end
  {}

  lemma RecordOutsideSlots(area: Area, lo: int, hi: int)
    requires area.Ok() && SwapLog(area).start <= lo <= hi <= SwapLog(area).end
    ensures Apart(lo, hi - lo, area.slt0_offset, area.slt0_size) && Apart(lo, hi - lo, area.slt1_offset, area.slt1_size)
  {}

  lemma SameLogAfterStep(su: Setup, cmd: Cmd, mem: seq<byte>, r: seq<byte>)
    requires su.Ok() && CmdOk(su, cmd)
    requires var (lo, hi) := Target(su.area, su.info, cmd); SameOutside(mem, r, lo, hi)
    ensures var log := SwapLog(su.area);
            && LogCommands(r, log) == LogCommands(mem, log) && Room(r, log) == Room(mem, log)
            && FirstFree(r, log.start, log) == FirstFree(mem, log.start, log)
            && (TailBlank(mem, log) ==> TailBlank(r, log))
  {
    TargetOutsideLog(su, cmd);
    SwapLogOk(su.area);
    hide Target, CmdOk, Setup.Ok, Log.Ok;
    SameLog(mem, r, SwapLog(su.area), su.area.block);
  }

  // Appending to the swap log changes only its record.
  lemma AppendKeeps(su: Setup, p: Pos, mem: seq<byte>, c: Cmd)
    requires su.Ok() && TailBlank(mem, SwapLog(su.area)) && Intact(su, p, mem)
    ensures Intact(su, p, Append(mem, SwapLog(su.area), c))
    ensures var log, r := SwapLog(su.area), Append(mem, SwapLog(su.area), c);
            if Room(mem, log) > 0 then
              LogCommands(r, log) == LogCommands(mem, log) + [c] && Room(r, log) == Room(mem, log) - 1
                  && TailBlank(r, log)
            else r == mem
  {
    var log := SwapLog(su.area);
    var f := FirstFree(mem, log.start, log);
    SwapLogOk(su.area);
    assert |mem| == su.area.flash_size;
    AppendAddsLast(mem, log, c, su.area.block);
    var r := Append(mem, log, c);
    if f < log.end {
      FreeFits(mem, log, su.area.block);
      RecordOutsideSlots(su.area, f, f + 4);
      hide Record, Intact, Setup.Ok, Commands, FirstFree, Records;
      assert SameOutside(mem, r, f, f + 4);
      IntactOutside(su, p, mem, r, f, f + 4);
    }
  }

  lemma FreeFits(mem: seq<byte>, log: Log, block: nat)
    requires log.Ok(block)
    ensures var f := FirstFree(mem, log.start, log);
            log.start <= f <= log.end && (f < log.end ==> f + log.stride <= log.end)
  {
    FreeFitsFrom(mem, log.start, log);
  }

  lemma AppendInside(mem: seq<byte>, log: Log, c: Cmd, block: nat)
    requires log.Ok(block)
    ensures SameOutside(mem, Append(mem, log, c), log.start, log.end)
  {
    FreeFits(mem, log, block);
    hide Record, FirstFree;
  }

  lemma {:induction false} FreeFitsFrom(mem: seq<byte>, off: int, log: Log)
    requires log.Whole(log.end - off) && off <= log.end
    ensures var f := FirstFree(mem, off, log); off <= f <= log.end && (f < log.end ==> f + log.stride <= log.end)
    decreases log.end - off
  {
    hide IsEmpty;
    if off < log.end {
      FreeFitsFrom(mem, off + log.stride, log);
    }
  }

  lemma IterIs(su: Setup, mem: seq<byte>, cmd: Cmd)
    requires su.Ok() && RunState(su, mem) && cmd == Current(su, mem) && Going(cmd.cmd2)
    ensures Iter(su.cr, su.area, su.info, mem)
         == Append(StepMem(su.cr, su.area, su.info, cmd, mem), SwapLog(su.area), NextCmd(su.area.sector, su.info, cmd))
  {
    assert cmd.cmd1 != CMD1_ERROR;
    hide Append, StepMem, NextCmd, Setup.Ok, Intact, CmdOk, Going;
  }

  // One turn of the loop with room in the log.
  lemma IterKeeps(su: Setup, mem: seq<byte>)
    requires su.Ok() && RunState(su, mem) && Going(Current(su, mem).cmd2) && LogRoom(su, mem) > 0
    ensures var r := Iter(su.cr, su.area, su.info, mem);
            && RunState(su, r) && Current(su, r) == NextCmd(su.area.sector, su.info, Current(su, mem))
            && Left(su, r) == Left(su, mem) - 1 && LogRoom(su, r) == LogRoom(su, mem) - 1
  {
    var cmd, log := Current(su, mem), SwapLog(su.area);
    var next := NextCmd(su.area.sector, su.info, cmd);
    var d := StepMem(su.cr, su.area, su.info, cmd, mem);
    StepKeeps(su, cmd, mem);
    NextCmdOk(su, cmd);
    SameLogAfterStep(su, cmd, mem, d);
    hide Intact, Setup.Ok, NextCmd, StepMem, Target, Remaining, Commands, FirstFree, Records, Append;
    AppendKeeps(su, PosOf(su.area.sector, next), d, next);
    assert (LogCommands(mem, log) + [next])[|LogCommands(mem, log) + [next]| - 1] == next;
  }

  // One turn with a full log: the command cannot be recorded, so the same step will be done again.
  lemma IterStuck(su: Setup, mem: seq<byte>)
    requires su.Ok() && RunState(su, mem) && LogRoom(su, mem) == 0
    ensures var r := Iter(su.cr, su.area, su.info, mem);
            RunState(su, r) && Current(su, r) == Current(su, mem) && LogRoom(su, r) == 0
  {
    var cmd, log := Current(su, mem), SwapLog(su.area);
    if Going(cmd.cmd2) {
      var d := StepMem(su.cr, su.area, su.info, cmd, mem);
      StepKeeps(su, cmd, mem);
      NothingLost(su, cmd, mem, d);
      SameLogAfterStep(su, cmd, mem, d);
      hide Intact, NextCmd, StepMem, Target, Commands, FirstFree, Records, Append;
      AppendKeeps(su, PosOf(su.area.sector, cmd), d, NextCmd(su.area.sector, su.info, cmd));
    }
  }

  // ----- how a run ends -----

  ghost predicate Ended(su: Setup, mem: seq<byte>) {
    LastCmd(mem, SwapLog(su.area)).Some? && Phase(Current(su, mem).cmd2) == CMD2_SWP_END
  }

  lemma LeftPositive(su: Setup, cmd: Cmd)
    requires su.Ok() && CmdOk(su, cmd)
    ensures Remaining(su, cmd) >= 0 && (Going(cmd.cmd2) <==> Remaining(su, cmd) > 0)
  {
    PhaseCases(su, cmd);
    hide Sectors, Setup.Ok, Inplace, Area.Ok;
    if su.inplace {
      SectorsFacts(0, su.area.sector, 0);
    }
  }

  // With a record for every turn that is left, the run ends after exactly that many turns.
  lemma {:induction false} RunToEnd(su: Setup, mem: seq<byte>)
    requires su.Ok() && RunState(su, mem) && Left(su, mem) <= LogRoom(su, mem)
    ensures 0 <= Left(su, mem)
    ensures var r := IterN(su.cr, su.area, su.info, mem, Left(su, mem));
            RunState(su, r) && Ended(su, r) && LogRoom(su, r) == LogRoom(su, mem) - Left(su, mem)
            && Current(su, r).cmd1 == Current(su, mem).cmd1
    decreases LogRoom(su, mem)
  {
    hide Setup.Ok, CmdOk, Intact, NextCmd, Remaining, Iter, Phase;
    LeftPositive(su, Current(su, mem));
    PhaseCases(su, Current(su, mem));
    if Left(su, mem) > 0 {
      IterKeeps(su, mem);
      NextCmdOk(su, Current(su, mem));
      RunToEnd(su, Iter(su.cr, su.area, su.info, mem));
    }
  }

  // With fewer records it never ends, however long it runs: a full log makes the same step repeat for ever.
  lemma {:induction false} NeverEnds(su: Setup, mem: seq<byte>, n: nat)
    requires su.Ok() && RunState(su, mem) && LogRoom(su, mem) < Left(su, mem)
    ensures var r := IterN(su.cr, su.area, su.info, mem, n); RunState(su, r) && !Ended(su, r)
    decreases n
  {
    hide Setup.Ok, CmdOk, Intact, NextCmd, Remaining, Iter, Phase;
    LeftPositive(su, Current(su, mem));
    PhaseCases(su, Current(su, mem));
    if n > 0 {
      if LogRoom(su, mem) > 0 {
        IterKeeps(su, mem);
      } else {
        IterStuck(su, mem);
      }
      NeverEnds(su, Iter(su.cr, su.area, su.info, mem), n - 1);
    }
  }

  // The exact budget: a run ends if and only if the swap log has room for the turns that are left.
  lemma BudgetExact(su: Setup, mem: seq<byte>)
    requires su.Ok() && RunState(su, mem)
    ensures (exists n: nat :: Ended(su, IterN(su.cr, su.area, su.info, mem, n))) <==> Left(su, mem) <= LogRoom(su, mem)
  {
    assert su.area.sector > 0 && LastCmd(mem, SwapLog(su.area)).Some?;
    hide Setup.Ok, RunState, Ended, Left, IterN;
    if Left(su, mem) <= LogRoom(su, mem) {
      RunToEnd(su, mem);
    } else {
      forall n: nat
        ensures !Ended(su, IterN(su.cr, su.area, su.info, mem, n))
      {
        NeverEnds(su, mem, n);
      }
    }
  }

  // What the budget is when a swap has just been started.
  lemma BudgetAtStart(su: Setup, cmd: Cmd)
    requires su.Ok() && CmdOk(su, cmd) && Phase(cmd.cmd2) == CMD2_SWP_START
    ensures !su.inplace ==> Remaining(su, cmd) == su.OldSectors() + 2 * Max(su.OldSectors(), su.NewSectors()) + 4
    ensures su.inplace && su.info.fr.enc_start != su.info.fr.end ==> Remaining(su, cmd) == 2 * su.OldSectors() + 4
    ensures su.inplace && su.info.fr.enc_start == su.info.fr.end ==> Remaining(su, cmd) == 3
  {}

  // docs/design.md counts three records per sector and one to start. A swap log of that size, with the start
  // command in it, is enough exactly when the old image is at least four sectors shorter than the new one.
  lemma DocumentedBudget(su: Setup, mem: seq<byte>)
    requires su.Ok() && RunState(su, mem) && !su.inplace && Phase(Current(su, mem).cmd2) == CMD2_SWP_START
    requires LogRoom(su, mem) + 1 == 3 * su.AllSectors() + 1
    ensures (exists n: nat :: Ended(su, IterN(su.cr, su.area, su.info, mem, n)))
        <==> su.OldSectors() + 4 <= su.NewSectors()
  {
    hide Setup.Ok, CmdOk, Intact, IterN, Ended, Sectors;
    BudgetAtStart(su, Current(su, mem));
    BudgetExact(su, mem);
  }

  // Octet i of either image after the move: clear before the encryption start, one counter mode pass after it.
  function NewAfter(su: Setup, i: int): byte {
    Crypt(su.cr.aes, su.info.fr.enc_key, su.info.fr.enc_start, su.Fr() + i, At(su.mem0, su.Fr() + i))
  }

  function OldAfter(su: Setup, i: int): byte {
    Crypt(su.cr.aes, su.info.to.enc_key, su.info.to.enc_start, su.To() + i, At(su.mem0, su.To() + i))
  }

  // What a completed swap has achieved: the whole new image in slot 0 and the whole old one in slot 1. Without an
  // old image slot 1 still holds the new one; an in-place swap leaves slot 0 alone.
  ghost predicate Swapped(su: Setup, mem: seq<byte>) {
    && (!su.inplace ==> forall i {:trigger NewAfter(su, i)} :: 0 <= i < su.info.EndFr() ==>
          At(mem, su.area.slt0_offset + i) == NewAfter(su, i))
    && (forall i {:trigger OldAfter(su, i)} :: 0 <= i < su.info.EndTo() ==>
          At(mem, su.area.slt1_offset + i) == OldAfter(su, i))
    && (!su.inplace && su.info.EndTo() <= 0 ==>
          SameOn(mem, su.mem0, su.area.slt1_offset, su.area.slt1_offset + su.info.EndFr()))
    && (su.inplace ==> SameOn(mem, su.mem0, su.area.slt0_offset, su.area.Slt0End()))
  }

  lemma EndImages(su: Setup, mem: seq<byte>)
    requires su.Ok() && RunState(su, mem) && Ended(su, mem)
    ensures Swapped(su, mem)
  {
    hide Setup.Ok, RunState, Ended, Area.Ok, Holds, SameOn, Setup.OldLen, Setup.NewLen, Setup.ToSize, Setup.To,
         Setup.Fr, NewAfter, OldAfter, Setup.Old, Setup.New, Setup.OldOut, Setup.NewOut;
    PlaceFacts(su);
    EndPlaces(su, mem);
    EndNew(su, mem);
    EndOld(su, mem);
  }

  lemma EndPlaces(su: Setup, mem: seq<byte>)
    requires su.Ok() && RunState(su, mem) && Ended(su, mem)
    ensures Holds(mem, su.To(), 0, su.NewLen(), su.NewOut()) && Holds(mem, su.Fr(), 0, su.OldLen(), su.OldOut())
    ensures su.OldLen() <= 0 ==> SameOn(mem, su.mem0, su.Fr(), su.Fr() + su.NewLen())
    ensures su.inplace ==> SameOn(mem, su.mem0, su.area.slt0_offset, su.area.Slt0End())
  {
    hide Setup.Ok, Transform, LastCmd, CmdOk, Phase;
    SlotsApart(su);
    assert su.OldLen() <= 0 ==> Holds(mem, su.Fr(), 0, su.NewLen(), su.New());
  }

  lemma EndNew(su: Setup, mem: seq<byte>)
    requires Holds(mem, su.To(), 0, su.NewLen(), su.NewOut())
    ensures forall i {:trigger NewAfter(su, i)} :: 0 <= i < su.NewLen() ==> At(mem, su.To() + i) == NewAfter(su, i)
  {
    hide Crypt;
    forall i {:trigger NewAfter(su, i)} | 0 <= i < su.NewLen()
      ensures At(mem, su.To() + i) == NewAfter(su, i)
    {
      assert At(mem, su.To() + i) == su.NewOut()[i];
      assert su.New()[i] == At(su.mem0, su.Fr() + i);
    }
  }

  lemma EndOld(su: Setup, mem: seq<byte>)
    requires Holds(mem, su.Fr(), 0, su.OldLen(), su.OldOut())
    ensures forall i {:trigger OldAfter(su, i)} :: 0 <= i < su.OldLen() ==> At(mem, su.Fr() + i) == OldAfter(su, i)
  {
    hide Crypt;
    forall i {:trigger OldAfter(su, i)} | 0 <= i < su.OldLen()
      ensures At(mem, su.Fr() + i) == OldAfter(su, i)
    {
      assert At(mem, su.Fr() + i) == su.OldOut()[i];
      assert su.Old()[i] == At(su.mem0, su.To() + i);
    }
  }

  // The flash with which a swap starts is a state of the run.
  ghost predicate Started(su: Setup) {
    && su.area.sector > 0 && TailBlank(su.mem0, SwapLog(su.area)) && LastCmd(su.mem0, SwapLog(su.area)).Some?
    && CmdOk(su, Current(su, su.mem0)) && Phase(Current(su, su.mem0).cmd2) == CMD2_SWP_START
  }

  lemma StartState(su: Setup)
    requires su.Ok() && Started(su)
    ensures RunState(su, su.mem0)
  {
    hide Sectors, Transform;
  }

  // The full swap: from the start command to the end command in exactly the budgeted number of turns, with both
  // images where they belong.
  lemma FullSwap(su: Setup)
    requires su.Ok() && Started(su) && Left(su, su.mem0) <= LogRoom(su, su.mem0)
    ensures 0 <= Left(su, su.mem0)
    ensures var r := IterN(su.cr, su.area, su.info, su.mem0, Left(su, su.mem0));
            Ended(su, r) && Swapped(su, r) && LogRoom(su, r) == LogRoom(su, su.mem0) - Left(su, su.mem0)
  {
    hide Setup.Ok, CmdOk, Intact, IterN, Iter, Swapped, Ended, Left;
    StartState(su);
    RunToEnd(su, su.mem0);
    EndImages(su, IterN(su.cr, su.area, su.info, su.mem0, Left(su, su.mem0)));
  }

  // ----- the record a run ends with -----

  // How many sectors a run works on; an in-place image without an encrypted part is left alone.
  function SectorsDone(su: Setup): nat
    requires su.area.sector > 0
  {
    if su.inplace && su.info.fr.enc_start == su.info.fr.end then 0 else su.AllSectors()
  }

  // Once the images are where they belong the records name that number.
  ghost predicate Counted(su: Setup, cmd: Cmd)
    requires su.area.sector > 0
  {
    match Phase(cmd.cmd2)
    case 0x10 => true
    case 0x12 => SectorsDone(su) == su.AllSectors()
    case 0x14 => SectorsDone(su) == su.AllSectors()
    case 0x16 => SectorsDone(su) == su.AllSectors()
    case _ => cmd.cmd3 == SectorsDone(su)
  }

  lemma CountedNext(su: Setup, cmd: Cmd)
    requires su.Ok() && CmdOk(su, cmd) && Going(cmd.cmd2) && Counted(su, cmd)
    ensures Counted(su, NextCmd(su.area.sector, su.info, cmd))
  {
    forall phase: byte, inplace | 0x10 <= phase < 0x20
      ensures Phase(WithInplace(phase, inplace)) == phase && Inplace(WithInplace(phase, inplace)) == inplace
    {
      PhaseBits(phase, inplace);
    }
    hide Inplace, WithInplace, Setup.Ok, Sectors;
    match Phase(cmd.cmd2)
    case 0x10 => NextFromStart(su, cmd);
    case 0x14 => NextFromP1(su, cmd);
    case 0x16 => NextFromP2(su, cmd);
    case _ =>
  }

  lemma {:induction false} CountedRun(su: Setup, mem: seq<byte>, n: nat)
    requires su.Ok() && RunState(su, mem) && n <= Left(su, mem) <= LogRoom(su, mem) && Counted(su, Current(su, mem))
    ensures var r := IterN(su.cr, su.area, su.info, mem, n); RunState(su, r) && Counted(su, Current(su, r))
    decreases n
  {
    hide Setup.Ok, CmdOk, Intact, NextCmd, Remaining, Iter, Phase, Counted;
    LeftPositive(su, Current(su, mem));
    if n > 0 {
      IterKeeps(su, mem);
      CountedNext(su, Current(su, mem));
      CountedRun(su, Iter(su.cr, su.area, su.info, mem), n - 1);
    }
  }

  // The last record of a run that was started afresh, in full.
  lemma EndRecord(su: Setup)
    requires su.Ok() && Started(su) && 0 <= Left(su, su.mem0) <= LogRoom(su, su.mem0)
    ensures LastCmd(IterN(su.cr, su.area, su.info, su.mem0, Left(su, su.mem0)), SwapLog(su.area))
         == Some(Cmd(Current(su, su.mem0).cmd1, if su.inplace then 0x3f else 0x1f, SectorsDone(su)))
  {
    hide Setup.Ok, CmdOk, Intact, NextCmd, Remaining, Iter, Left, LogRoom;
    StartState(su);
    RunToEnd(su, su.mem0);
    CountedRun(su, su.mem0, Left(su, su.mem0));
    EndPhase(su, Current(su, IterN(su.cr, su.area, su.info, su.mem0, Left(su, su.mem0))));
  }

  lemma EndPhase(su: Setup, cmd: Cmd)
    requires su.area.sector > 0 && CmdOk(su, cmd) && Phase(cmd.cmd2) == CMD2_SWP_END
    ensures cmd.cmd2 == if su.inplace then 0x3f else 0x1f
  {}
}
