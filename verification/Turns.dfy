// Turns of the swap loop with whatever image info is in use: what they log and what they leave alone.
module Turns {
  import opened Bytes
  import opened CmdLog
  import Ctr
  import opened Digest
  import opened Flash
  import opened Images
  import opened Move
  import opened Runs
  import opened Swap

  // ----- one turn -----

  lemma MoveInside(aes: Ctr.Aes, mem: seq<byte>, sector: nat, mc: MoveCmd, len: nat)
    requires len <= sector
    ensures SameOutside(mem, SectorMove(aes, mem, sector, mc, len), mc.to_off, mc.to_off + sector)
  {
    hide MoveData;
  }

  predicate SwapPhase(cmd: Cmd) {
    Phase(cmd.cmd2) in {CMD2_SWP_START, CMD2_MOVE_UP, CMD2_SWP_P1, CMD2_SWP_P2, CMD2_SWP_P3, CMD2_SWP_P4, CMD2_SWP_END}
  }

  // Right or wrong, the image info only says where a step writes: it writes nowhere else.
  lemma StepInside(cr: Crypto, area: Area, info: SwpInfo, cmd: Cmd, mem: seq<byte>)
    requires area.Ok() && |mem| == area.flash_size && SwapPhase(cmd)
    ensures var (lo, hi) := Target(area, info, cmd); SameOutside(mem, StepMem(cr, area, info, cmd, mem), lo, hi)
  {
    hide Area.Ok, Phase;
    if Phase(cmd.cmd2) == CMD2_SWP_P3 || Phase(cmd.cmd2) == CMD2_SWP_P4 {
      hide StepMem, Area.Slt0End, Area.Slt1End;
      EndOutside(cr, area, info, cmd, mem);
    } else {
      MovesInside(cr, area, info, cmd, mem);
    }
  }

  lemma MovesInside(cr: Crypto, area: Area, info: SwpInfo, cmd: Cmd, mem: seq<byte>)
    requires Phase(cmd.cmd2) in {CMD2_SWP_START, CMD2_MOVE_UP, CMD2_SWP_P1, CMD2_SWP_P2, CMD2_SWP_END}
    ensures var (lo, hi) := Target(area, info, cmd); SameOutside(mem, StepMem(cr, area, info, cmd, mem), lo, hi)
  {
    var s, off := area.sector, cmd.cmd3 * area.sector;
    MulMonotone(0, cmd.cmd3, s);
    hide SectorMove, Phase;
    if Phase(cmd.cmd2) == CMD2_MOVE_UP {
      MoveInside(cr.aes, mem, s, MoveUpCmd(s, info, off), s);
    } else if Phase(cmd.cmd2) == CMD2_SWP_P1 && off < info.EndFr() {
      MoveInside(cr.aes, mem, s, P1Cmd(info, off), Min(info.EndFr() - off, s));
    } else if Phase(cmd.cmd2) == CMD2_SWP_P2 && off < info.EndTo() {
      MoveInside(cr.aes, mem, s, P2Cmd(s, info, off), Min(info.EndTo() - off, s));
    }
  }

  // The state in which a turn finds the log.
  ghost predicate Logged(area: Area, mem: seq<byte>, cmd: Cmd) {
    && area.Ok() && |mem| == area.flash_size && TailBlank(mem, SwapLog(area))
    && LastCmd(mem, SwapLog(area)) == Some(cmd) && cmd.cmd1 != CMD1_ERROR && SwapPhase(cmd)
  }

  // The step works outside the log.
  ghost predicate OutsideLog(area: Area, info: SwpInfo, cmd: Cmd) {
    var (lo, hi) := Target(area, info, cmd);
    lo == hi || Apart(lo, hi - lo, SwapLog(area).start, SwapLog(area).end - SwapLog(area).start)
  }

  // A turn does its step and logs the next command; with a full log the same command stays.
  lemma TurnLogs(cr: Crypto, area: Area, info: SwpInfo, mem: seq<byte>, cmd: Cmd)
    requires Logged(area, mem, cmd) && Going(cmd.cmd2) && OutsideLog(area, info, cmd) && area.sector > 0
    ensures var r, log := Iter(cr, area, info, mem), SwapLog(area);
            if Room(mem, log) > 0 then
              && TailBlank(r, log) && LastCmd(r, log) == Some(NextCmd(area.sector, info, cmd))
              && Room(r, log) == Room(mem, log) - 1
            else TailBlank(r, log) && LastCmd(r, log) == Some(cmd) && Room(r, log) == 0
    ensures SameOutside(StepMem(cr, area, info, cmd, mem), Iter(cr, area, info, mem), SwapLog(area).start,
                        SwapLog(area).end)
    ensures var (lo, hi) := Target(area, info, cmd); SameOutside(mem, StepMem(cr, area, info, cmd, mem), lo, hi)
  {
    hide *;
    var d, next, log := StepMem(cr, area, info, cmd, mem), NextCmd(area.sector, info, cmd), SwapLog(area);
    LoggedParts(area, mem, cmd);
    SwapLogOk(area);
    StepInside(cr, area, info, cmd, mem);
    StepKeepsLog(cr, area, info, mem, cmd);
    TurnIsAppend(cr, area, info, mem, cmd);
    LastOf(mem, log);
    LastOf(d, log);
    LastOf(Append(d, log, next), log);
    AppendAddsLast(d, log, next, area.block);
    AppendInside(d, log, next, area.block);
    assert (LogCommands(d, log) + [next])[|LogCommands(d, log)|] == next;
  }

  lemma LastOf(mem: seq<byte>, log: Log)
    ensures LastCmd(mem, log) == var cs := LogCommands(mem, log); if cs == [] then None else Some(cs[|cs| - 1])
  {
    hide LogCommands;
  }

  lemma LoggedParts(area: Area, mem: seq<byte>, cmd: Cmd)
    requires Logged(area, mem, cmd)
    ensures area.Ok() && |mem| == area.flash_size && TailBlank(mem, SwapLog(area)) && SwapPhase(cmd)
    ensures LastCmd(mem, SwapLog(area)) == Some(cmd)
  {
    hide Area.Ok, TailBlank, LastCmd, SwapLog, SwapPhase;
  }

  lemma TurnIsAppend(cr: Crypto, area: Area, info: SwpInfo, mem: seq<byte>, cmd: Cmd)
    requires Logged(area, mem, cmd) && Going(cmd.cmd2) && area.sector > 0
    ensures Iter(cr, area, info, mem)
         == Append(StepMem(cr, area, info, cmd, mem), SwapLog(area), NextCmd(area.sector, info, cmd))
  {
    hide Area.Ok, TailBlank, LastCmd, SwapLog, SwapPhase, StepMem, NextCmd, Going, Append;
  }

  lemma StepKeepsLog(cr: Crypto, area: Area, info: SwpInfo, mem: seq<byte>, cmd: Cmd)
    requires Logged(area, mem, cmd) && OutsideLog(area, info, cmd)
    ensures var d, log := StepMem(cr, area, info, cmd, mem), SwapLog(area);
            LogCommands(d, log) == LogCommands(mem, log) && Room(d, log) == Room(mem, log) && TailBlank(d, log)
  {
    hide Area.Ok, StepMem, Target, TailBlank, Commands, FirstFree, Records, Log.Ok, SwapLog, SwapPhase, LastCmd;
    SwapLogOk(area);
    StepInside(cr, area, info, cmd, mem);
    SameLog(mem, StepMem(cr, area, info, cmd, mem), SwapLog(area), area.block);
  }

  // What lies outside the target and outside the log is the same after a turn.
  lemma TurnSpares(cr: Crypto, area: Area, info: SwpInfo, mem: seq<byte>, cmd: Cmd, lo: int, hi: int)
    requires Logged(area, mem, cmd) && Going(cmd.cmd2) && OutsideLog(area, info, cmd) && area.sector > 0
    requires Apart(lo, hi - lo, SwapLog(area).start, SwapLog(area).end - SwapLog(area).start)
    requires var (a, b) := Target(area, info, cmd); a == b || Apart(lo, hi - lo, a, b - a)
    ensures SameOn(mem, Iter(cr, area, info, mem), lo, hi)
  {
    hide Logged, OutsideLog, StepMem, Iter, Target, Going, SwapLog;
    TurnLogs(cr, area, info, mem, cmd);
  }
}
