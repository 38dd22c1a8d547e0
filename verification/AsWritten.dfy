// Restarts of the code as written, which reads the image info again after every reset: where that ends as it should.
module AsWritten {
  import opened AfterSwap
  import opened Bytes
  import opened CmdLog
  import opened Finish
  import opened Images
  import opened Recovery
  import opened Runs
  import opened Swap

  // ----- infos that serve as well as the right one -----

  // P3, P4 and the end use no image info.
  predicate NoInfoUsed(cmd: Cmd) {
    Phase(cmd.cmd2) == CMD2_SWP_P3 || Phase(cmd.cmd2) == CMD2_SWP_P4 || Phase(cmd.cmd2) == CMD2_SWP_END
  }

  // Both images are through, or will be once this sector of P2 is counted.
  predicate AllDone(su: Setup, info: SwpInfo, cmd: Cmd) {
    var off, s := cmd.cmd3 * su.area.sector, su.area.sector;
    && !su.inplace && info.EndFr() == su.info.EndFr() && info.EndTo() <= off && su.info.EndTo() <= off
    && ((Phase(cmd.cmd2) == CMD2_SWP_P1 && info.EndFr() <= off)
        || (Phase(cmd.cmd2) == CMD2_SWP_P2 && info.EndFr() <= off + s))
  }

  // The new image has one sector, which is through; the old image is known.
  predicate OneSector(su: Setup, info: SwpInfo, cmd: Cmd) {
    && !su.inplace && info.to == su.info.to && su.info.EndTo() > 0 && info.fr.hdr_start == su.Fr()
    && info.EndFr() <= su.area.sector && su.info.EndFr() <= su.area.sector
    && (Phase(cmd.cmd2) == CMD2_SWP_P2 || (Phase(cmd.cmd2) == CMD2_SWP_P1 && cmd.cmd3 > 0))
  }

  predicate Serves(su: Setup, info: SwpInfo, cmd: Cmd) {
    info == su.info || NoInfoUsed(cmd) || AllDone(su, info, cmd) || OneSector(su, info, cmd)
  }

  // With such an info a step does what it does with the right one, and so do all that follow.
  lemma ServesStep(su: Setup, info: SwpInfo, cmd: Cmd, mem: seq<byte>)
    requires su.Ok() && CmdOk(su, cmd) && Serves(su, info, cmd)
    ensures su.area.sector > 0
    ensures StepMem(su.cr, su.area, info, cmd, mem) == StepMem(su.cr, su.area, su.info, cmd, mem)
    ensures NextCmd(su.area.sector, info, cmd) == NextCmd(su.area.sector, su.info, cmd)
    ensures Target(su.area, info, cmd) == Target(su.area, su.info, cmd)
    ensures Serves(su, info, NextCmd(su.area.sector, su.info, cmd))
  {
    OkCounts(su);
    OkArea(su);
    if info == su.info {
    } else if NoInfoUsed(cmd) {
      NoInfoStep(su, info, cmd, mem);
    } else if AllDone(su, info, cmd) {
      DoneStep(su, info, cmd, mem);
      DoneNext(su, info, cmd);
    } else {
      OneStep(su, info, cmd, mem);
      OneNext(su, info, cmd);
    }
  }

  // What the cases of the switch rely on.
  lemma ServesPhases(su: Setup, info: SwpInfo, cmd: Cmd)
    requires Serves(su, info, cmd)
    ensures var off := cmd.cmd3 * su.area.sector;
            && (Phase(cmd.cmd2) == CMD2_SWP_START || Phase(cmd.cmd2) == CMD2_MOVE_UP ==> info == su.info)
            && (Phase(cmd.cmd2) == CMD2_SWP_P1 ==> info == su.info || info.EndFr() <= off)
            && (Phase(cmd.cmd2) == CMD2_SWP_P2 ==>
                  info.EndTo() <= off || (info.to == su.info.to && info.fr.hdr_start == su.Fr()))
  {
    MulMonotone(Min(1, cmd.cmd3), cmd.cmd3, su.area.sector);
    hide Phase, SwpInfo.EndTo, SwpInfo.EndFr;
  }

  lemma NoInfoStep(su: Setup, info: SwpInfo, cmd: Cmd, mem: seq<byte>)
    requires su.area.sector > 0 && NoInfoUsed(cmd)
    ensures StepMem(su.cr, su.area, info, cmd, mem) == StepMem(su.cr, su.area, su.info, cmd, mem)
    ensures NextCmd(su.area.sector, info, cmd) == NextCmd(su.area.sector, su.info, cmd)
    ensures Target(su.area, info, cmd) == Target(su.area, su.info, cmd)
    ensures NoInfoUsed(NextCmd(su.area.sector, su.info, cmd))
  {
    PhaseBits(CMD2_SWP_P4, Inplace(cmd.cmd2));
    PhaseBits(CMD2_SWP_END, Inplace(cmd.cmd2));
    hide P3Mem, SectorMove, Erased, WithInplace;
    if Phase(cmd.cmd2) == CMD2_SWP_END {
      EndStays(su, cmd);
    }
  }

  lemma EndStays(su: Setup, cmd: Cmd)
    requires su.area.sector > 0 && Phase(cmd.cmd2) == CMD2_SWP_END
    ensures Phase(NextCmd(su.area.sector, su.info, cmd).cmd2) == CMD2_SWP_END
  {}

  lemma DoneStep(su: Setup, info: SwpInfo, cmd: Cmd, mem: seq<byte>)
    requires su.area.sector > 0 && CmdOk(su, cmd) && su.Countable() && AllDone(su, info, cmd)
    ensures StepMem(su.cr, su.area, info, cmd, mem) == StepMem(su.cr, su.area, su.info, cmd, mem)
    ensures NextCmd(su.area.sector, info, cmd) == NextCmd(su.area.sector, su.info, cmd)
    ensures Target(su.area, info, cmd) == Target(su.area, su.info, cmd)
  {
    hide Inplace, WithInplace, Sectors;
  }

  lemma DoneNext(su: Setup, info: SwpInfo, cmd: Cmd)
    requires su.area.sector > 0 && CmdOk(su, cmd) && su.Countable() && AllDone(su, info, cmd)
    ensures Serves(su, info, NextCmd(su.area.sector, su.info, cmd))
  {
    hide Sectors, WithInplace, Inplace;
    NextPhases(su, cmd);
  }

  // What follows a sector of P1 and P2 in a classic swap.
  lemma NextPhases(su: Setup, cmd: Cmd)
    requires su.area.sector > 0 && CmdOk(su, cmd) && su.Countable() && !su.inplace
    requires Phase(cmd.cmd2) == CMD2_SWP_P1 || Phase(cmd.cmd2) == CMD2_SWP_P2
    ensures var next, off := NextCmd(su.area.sector, su.info, cmd), cmd.cmd3 * su.area.sector;
            if su.info.EndFr() <= off && su.info.EndTo() <= off then Phase(next.cmd2) == CMD2_SWP_P3
            else if Phase(cmd.cmd2) == CMD2_SWP_P1 then Phase(next.cmd2) == CMD2_SWP_P2 && next.cmd3 == cmd.cmd3
            else Phase(next.cmd2) == CMD2_SWP_P1 && next.cmd3 == cmd.cmd3 + 1
                 && next.cmd3 * su.area.sector == off + su.area.sector
  {
    SectorsFacts(su.info.EndTo(), su.area.sector, cmd.cmd3);
    SectorsFacts(su.info.EndFr(), su.area.sector, cmd.cmd3);
    NextSector(cmd.cmd3, su.area.sector);
    PhaseBits(CMD2_SWP_P1, false);
    PhaseBits(CMD2_SWP_P2, false);
    PhaseBits(CMD2_SWP_P3, false);
    hide Sectors, WithInplace, Inplace;
  }

  lemma OneStep(su: Setup, info: SwpInfo, cmd: Cmd, mem: seq<byte>)
    requires su.area.sector > 0 && OneSector(su, info, cmd)
    ensures StepMem(su.cr, su.area, info, cmd, mem) == StepMem(su.cr, su.area, su.info, cmd, mem)
    ensures NextCmd(su.area.sector, info, cmd) == NextCmd(su.area.sector, su.info, cmd)
    ensures Target(su.area, info, cmd) == Target(su.area, su.info, cmd)
  {
    var off := cmd.cmd3 * su.area.sector;
    MulMonotone(Min(1, cmd.cmd3), cmd.cmd3, su.area.sector);
    assert info.EndTo() == su.info.EndTo() && (cmd.cmd3 == 0 ==> off == 0);
    assert P2Cmd(su.area.sector, info, off) == P2Cmd(su.area.sector, su.info, off);
    hide Phase, SectorMove, P1Cmd, P2Cmd, MoveUpCmd, WithInplace, Inplace, SwpInfo.EndTo, SwpInfo.EndFr, Setup.Fr;
    if Phase(cmd.cmd2) == CMD2_SWP_P1 {
      assert su.area.sector <= off;
    }
  }

  lemma OneNext(su: Setup, info: SwpInfo, cmd: Cmd)
    requires su.area.sector > 0 && CmdOk(su, cmd) && su.Countable() && OneSector(su, info, cmd)
    ensures Serves(su, info, NextCmd(su.area.sector, su.info, cmd))
  {
    hide Sectors, WithInplace, Inplace;
    NextPhases(su, cmd);
  }

  // ----- restarts that recover -----

  // In classic P1 and P2 a restart finds the wrong info, but sector numbers m, n, k show that there is nothing left
  // that it could get wrong.
  ghost predicate Harmless(su: Setup, mem: seq<byte>)
    requires su.area.sector > 0 && LastCmd(mem, SwapLog(su.area)).Some?
  {
    var cmd, m, n := Current(su, mem), su.OldSectors(), su.NewSectors();
    var k := cmd.cmd3;
    !su.inplace &&
    if Phase(cmd.cmd2) == CMD2_SWP_P1 then m <= k && n <= k
    else Phase(cmd.cmd2) == CMD2_SWP_P2 && n <= k + 1
         && if k == 0 then m > 0 && NoHeaderUp(su, mem) else m <= k && (m > 0 || n <= k)
  }

  lemma HarmlessServes(su: Setup, mem: seq<byte>)
    requires su.Ok() && Loaded(su) && RunState(su, mem) && su.area.sector > 0 && LastCmd(mem, SwapLog(su.area)).Some?
    requires Harmless(su, mem)
    ensures Serves(su, SwapInfoOf(su.cr, su.area, mem, Current(su, mem)), Current(su, mem))
  {
    var cmd := Current(su, mem);
    var r := SwapInfoOf(su.cr, su.area, mem, cmd);
    hide *;
    HarmlessClassic(su, mem);
    LoadedKinds(su);
    HarmlessLengths(su, mem);
    if cmd.cmd3 > 0 {
      MixedUp(su, mem, cmd, r);
      DoneIf(su, r, cmd);
    } else {
      HeaderMissed(su, mem, cmd, r);
      OneIf(su, r, cmd);
    }
  }

  lemma HarmlessClassic(su: Setup, mem: seq<byte>)
    requires su.area.sector > 0 && LastCmd(mem, SwapLog(su.area)).Some? && Harmless(su, mem)
    ensures !su.inplace
  {
    hide LastCmd, SwapLog, Phase, NoHeaderUp, Sectors;
  }

  lemma HarmlessLengths(su: Setup, mem: seq<byte>)
    requires su.area.sector > 0 && LastCmd(mem, SwapLog(su.area)).Some? && Harmless(su, mem) && su.NewLen() > 0
    ensures !su.inplace
    ensures var cmd, s := Current(su, mem), su.area.sector;
            var off := cmd.cmd3 * s;
            && (Phase(cmd.cmd2) == CMD2_SWP_P1 || Phase(cmd.cmd2) == CMD2_SWP_P2)
            && (Phase(cmd.cmd2) == CMD2_SWP_P1 ==> su.NewLen() <= off)
            && (Phase(cmd.cmd2) == CMD2_SWP_P2 ==> su.NewLen() <= off + s)
            && if cmd.cmd3 == 0 then
                 && Phase(cmd.cmd2) == CMD2_SWP_P2 && AtHeader(cmd) && NoHeaderUp(su, mem)
                 && su.OldLen() > 0 && su.NewLen() <= s
               else su.OldLen() <= off && (su.OldLen() > 0 || su.NewLen() <= off)
  {
    Reached(su, Current(su, mem).cmd3);
    hide LastCmd, SwapLog, Phase, NoHeaderUp, Setup.OldSectors, Setup.NewSectors, Setup.OldLen, Setup.NewLen;
  }

  // Sector numbers and lengths.
  lemma Reached(su: Setup, k: nat)
    requires su.area.sector > 0
    ensures su.OldSectors() <= k <==> su.OldLen() <= k * su.area.sector
    ensures su.NewSectors() <= k <==> su.NewLen() <= k * su.area.sector
    ensures su.NewSectors() <= k + 1 <==> su.NewLen() <= k * su.area.sector + su.area.sector
    ensures su.OldSectors() > 0 <==> su.OldLen() > 0
    ensures su.NewSectors() > 0 <==> su.NewLen() > 0
  {
    var s := su.area.sector;
    SectorsFacts(su.OldLen(), s, k);
    SectorsFacts(su.NewLen(), s, k);
    SectorsFacts(su.NewLen(), s, k + 1);
    SectorsFacts(su.OldLen(), s, 0);
    SectorsFacts(su.NewLen(), s, 0);
    NextSector(k, s);
    hide Sectors;
  }

  lemma DoneIf(su: Setup, r: SwpInfo, cmd: Cmd)
    requires !su.inplace && r.EndFr() == su.NewLen() && su.OldLen() == su.info.EndTo()
    requires r.EndTo() == if su.OldLen() > 0 then su.OldLen() else su.NewLen()
    requires var off, s := cmd.cmd3 * su.area.sector, su.area.sector;
             && su.OldLen() <= off && (su.OldLen() > 0 || su.NewLen() <= off)
             && ((Phase(cmd.cmd2) == CMD2_SWP_P1 && su.NewLen() <= off)
                 || (Phase(cmd.cmd2) == CMD2_SWP_P2 && su.NewLen() <= off + s))
    ensures Serves(su, r, cmd)
  {
    hide Phase;
  }

  lemma OneIf(su: Setup, r: SwpInfo, cmd: Cmd)
    requires !su.inplace && su.OldLen() > 0 && su.NewLen() <= su.area.sector && r.to == su.info.to
    requires r.fr.hdr_start == r.fr.end == su.Fr() && Phase(cmd.cmd2) == CMD2_SWP_P2
    ensures Serves(su, r, cmd)
  {
    hide Phase;
  }

  // Where a restart gets on with the right info, with one that serves as well, or needs none.
  ghost predicate Recovers(su: Setup, mem: seq<byte>)
    requires LastCmd(mem, SwapLog(su.area)).Some?
  {
    var cmd := Current(su, mem);
    SafePhase(cmd) || (AtHeader(cmd) && HeaderThere(su, mem)) || NoInfoUsed(cmd)
    || (su.area.sector > 0 && Harmless(su, mem))
  }

  lemma RecoversInfo(su: Setup, mem: seq<byte>)
    requires su.Ok() && Loaded(su) && RunState(su, mem) && LastCmd(mem, SwapLog(su.area)).Some? && Recovers(su, mem)
    ensures Serves(su, SwapInfoOf(su.cr, su.area, mem, Current(su, mem)), Current(su, mem))
  {
    hide Setup.Ok, Loaded, RunState, SwapInfoOf, SafePhase, AtHeader, HeaderThere, NoInfoUsed, LastCmd, SwapLog,
         Harmless, AllDone, OneSector;
    if SafePhase(Current(su, mem)) {
      ReloadStable(su, mem);
    } else if AtHeader(Current(su, mem)) && HeaderThere(su, mem) {
      HeaderThereReloads(su, mem);
    } else if !NoInfoUsed(Current(su, mem)) {
      HarmlessServes(su, mem);
    }
  }

  // An event with such an info is an event with the right one.
  lemma ServesMoves(su: Setup, info: SwpInfo, a: seq<byte>, e: Event, b: seq<byte>)
    requires su.Ok() && RunState(su, a) && Moves(su, info, a, e, b) && Serves(su, info, Current(su, a))
    ensures Moves(su, su.info, a, e, b)
    ensures Serves(su, info, NextCmd(su.area.sector, su.info, Current(su, a)))
  {
    ServesStep(su, info, Current(su, a), a);
    hide Setup.Ok, Intact, CmdOk, Serves, StepMem, NextCmd, Target, Torn, Append, Going, LastCmd, SwapLog;
  }

  // ----- the one restart that ends early -----

  // A new image of one sector, moved to an empty slot 0: nothing is left but to count that sector.
  predicate Tiny(su: Setup) {
    !su.inplace && su.OldLen() <= 0 && su.NewLen() <= su.area.sector
  }

  // A restart then finds no image at all, and goes on to P3 at once, two turns early.
  predicate ShortInfo(su: Setup, info: SwpInfo, cmd: Cmd) {
    Tiny(su) && Phase(cmd.cmd2) == CMD2_SWP_P2 && cmd.cmd3 == 0 && info.EndTo() <= 0 && info.EndFr() <= 0
  }

  ghost predicate ShortRestart(su: Setup, mem: seq<byte>)
    requires LastCmd(mem, SwapLog(su.area)).Some?
  {
    Tiny(su) && Phase(Current(su, mem).cmd2) == CMD2_SWP_P2 && Current(su, mem).cmd3 == 0 && NoHeaderUp(su, mem)
  }

  // The turn that leaves out the two.
  ghost predicate ShortTurn(su: Setup, a: seq<byte>, e: Event, b: seq<byte>) {
    && IsTurn(e) && Tiny(su) && LastCmd(a, SwapLog(su.area)).Some?
    && Phase(Current(su, a).cmd2) == CMD2_SWP_P2 && Current(su, a).cmd3 == 0
    && b == Append(a, SwapLog(su.area), Cmd(Current(su, a).cmd1, CMD2_SWP_P3, 0))
  }

  lemma ShortServes(su: Setup, mem: seq<byte>)
    requires su.Ok() && Loaded(su) && RunState(su, mem) && LastCmd(mem, SwapLog(su.area)).Some?
    requires ShortRestart(su, mem)
    ensures ShortInfo(su, SwapInfoOf(su.cr, su.area, mem, Current(su, mem)), Current(su, mem))
  {
    hide Setup.Ok, Loaded, RunState, SwapInfoOf, LastCmd, SwapLog, Phase, NoHeaderUp;
    LoadedKinds(su);
    HeaderMissed(su, mem, Current(su, mem), SwapInfoOf(su.cr, su.area, mem, Current(su, mem)));
  }

  lemma ShortEvent(su: Setup, info: SwpInfo, a: seq<byte>, e: Event, b: seq<byte>)
    requires su.Ok() && RunState(su, a) && Moves(su, info, a, e, b) && ShortInfo(su, info, Current(su, a))
    ensures if IsTurn(e) then ShortTurn(su, a, e, b) else Moves(su, su.info, a, e, b)
  {
    ShortStep(su, info, Current(su, a), a);
    hide Setup.Ok, Intact, CmdOk, StepMem, NextCmd, Target, Torn, Append, Going, LastCmd, SwapLog, Phase;
  }

  lemma ShortStep(su: Setup, info: SwpInfo, cmd: Cmd, mem: seq<byte>)
    requires su.Ok() && CmdOk(su, cmd) && ShortInfo(su, info, cmd)
    ensures su.area.sector > 0
    ensures StepMem(su.cr, su.area, info, cmd, mem) == mem == StepMem(su.cr, su.area, su.info, cmd, mem)
    ensures Target(su.area, info, cmd) == Target(su.area, su.info, cmd)
    ensures NextCmd(su.area.sector, info, cmd) == Cmd(cmd.cmd1, CMD2_SWP_P3, 0)
  {
    OkArea(su);
    hide Sectors, Inplace, Setup.Ok;
  }

  // With the one sector in slot 0 the images are where P3 expects them.
  lemma ShortTurnKeeps(su: Setup, a: seq<byte>, e: Event, b: seq<byte>)
    requires su.Ok() && RunState(su, a) && ShortTurn(su, a, e, b) && LogRoom(su, a) > 0 && su.NewLen() > 0
    ensures RunState(su, b) && Left(su, b) == Left(su, a) - 2 && LogRoom(su, b) == LogRoom(su, a) - 1
    ensures Phase(Current(su, b).cmd2) == CMD2_SWP_P3 && Current(su, b).cmd1 == Current(su, a).cmd1
  {
    var cmd := Current(su, a);
    var next := Cmd(cmd.cmd1, CMD2_SWP_P3, 0);
    assert CmdOk(su, cmd) && cmd.cmd1 != CMD1_ERROR;
    hide Setup.Ok, Intact, Phase, Append, Room, TailBlank, SwapLog, LastCmd, Inplace, CmdOk, Tiny, Remaining;
    OkArea(su);
    TinyPlaces(su, PosOf(su.area.sector, cmd), PosOf(su.area.sector, next), a);
    TinyLeft(su, cmd, next);
    AppendedLast(su, PosOf(su.area.sector, next), a, next);
  }

  lemma AppendedLast(su: Setup, p: Pos, a: seq<byte>, next: Cmd)
    requires su.Ok() && Intact(su, p, a) && TailBlank(a, SwapLog(su.area)) && LogRoom(su, a) > 0
    ensures var b := Append(a, SwapLog(su.area), next);
            && Intact(su, p, b) && TailBlank(b, SwapLog(su.area)) && LastCmd(b, SwapLog(su.area)) == Some(next)
            && LogRoom(su, b) == LogRoom(su, a) - 1
  {
    var log := SwapLog(su.area);
    hide Setup.Ok, Intact, Append, Commands, FirstFree, Records, SwapLog, TailBlank;
    AppendKeeps(su, p, a, next);
    assert (LogCommands(a, log) + [next])[|LogCommands(a, log)|] == next;
  }

  lemma TinyLeft(su: Setup, cmd: Cmd, next: Cmd)
    requires su.Ok() && su.area.sector > 0 && Tiny(su) && CmdOk(su, cmd) && Phase(cmd.cmd2) == CMD2_SWP_P2
    requires cmd.cmd3 == 0 && next == Cmd(cmd.cmd1, CMD2_SWP_P3, 0) && su.NewLen() > 0
    ensures CmdOk(su, next) && Phase(next.cmd2) == CMD2_SWP_P3
    ensures Remaining(su, next) == Remaining(su, cmd) - 2
  {
    hide Setup.Ok;
    SectorsFacts(su.NewLen(), su.area.sector, 1);
    SectorsFacts(su.NewLen(), su.area.sector, 0);
    SectorsFacts(su.OldLen(), su.area.sector, 0);
    PhaseBits(CMD2_SWP_P3, false);
  }

  lemma TinyPlaces(su: Setup, p: Pos, q: Pos, mem: seq<byte>)
    requires su.Ok() && Tiny(su) && Intact(su, p, mem) && p == Pos(CMD2_SWP_P2, 0) && q.phase == CMD2_SWP_P3
    ensures Intact(su, q, mem)
  {
    hide Setup.Ok, Transform, Slice;
    SlotsApart(su);
  }

  // ----- runs of the code as written -----

  // After a reset the info is read again; otherwise it is kept.
  ghost predicate StepAsWritten(su: Setup, a: seq<byte>, e: Event, b: seq<byte>, info: SwpInfo, info': SwpInfo) {
    && Moves(su, info, a, e, b)
    && LastCmd(b, SwapLog(su.area)).Some?
    && info' == if e.Turn? then info else SwapInfoOf(su.cr, su.area, b, Current(su, b))
  }

  ghost predicate IsRunAsWritten(su: Setup, ms: seq<seq<byte>>, es: seq<Event>, infos: seq<SwpInfo>) {
    && |ms| == |infos| == |es| + 1
    && infos[0] == su.info
    && forall j :: 0 <= j < |es| ==> StepAsWritten(su, ms[j], es[j], ms[j + 1], infos[j], infos[j + 1])
  }

  // A reset from which the code recovers correctly.
  ghost predicate ResetOk(su: Setup, e: Event, b: seq<byte>) {
    !e.Turn? ==> LastCmd(b, SwapLog(su.area)).Some? && (Recovers(su, b) || ShortRestart(su, b))
  }

  predicate InfoServes(su: Setup, info: SwpInfo, cmd: Cmd) {
    Serves(su, info, cmd) || ShortInfo(su, info, cmd)
  }

  // An event of a run with the right info, or the turn that leaves out two.
  ghost predicate Follows(su: Setup, a: seq<byte>, e: Event, b: seq<byte>) {
    Moves(su, su.info, a, e, b) || ShortTurn(su, a, e, b)
  }

  lemma AsWrittenFollows(su: Setup, info: SwpInfo, a: seq<byte>, e: Event, b: seq<byte>)
    requires su.Ok() && RunState(su, a) && Moves(su, info, a, e, b) && InfoServes(su, info, Current(su, a))
    ensures Follows(su, a, e, b)
    ensures if Serves(su, info, Current(su, a)) then
              Moves(su, su.info, a, e, b) && Serves(su, info, NextCmd(su.area.sector, su.info, Current(su, a)))
            else IsTurn(e) ==> ShortTurn(su, a, e, b)
  {
    hide Setup.Ok, RunState, Moves, Serves, ShortInfo, ShortTurn, NextCmd, LastCmd, SwapLog;
    RunBasics(su, a);
    if Serves(su, info, Current(su, a)) {
      ServesMoves(su, info, a, e, b);
    } else {
      ShortEvent(su, info, a, e, b);
    }
  }

  // Such an event keeps the run state, whatever it is. Only turns advance, by one, or once by two.
  lemma FollowsKeeps(su: Setup, a: seq<byte>, e: Event, b: seq<byte>)
    requires su.Ok() && RunState(su, a) && Follows(su, a, e, b) && (Tiny(su) ==> su.NewLen() > 0)
    requires IsTurn(e) ==> LogRoom(su, a) > 0
    ensures RunState(su, b) && Left(su, a) > 0 && LogRoom(su, a) - 1 <= LogRoom(su, b)
    ensures e.CutStep? ==> LogRoom(su, b) == LogRoom(su, a)
    ensures Current(su, b).cmd1 == Current(su, a).cmd1
    ensures NoInfoUsed(Current(su, a)) ==> NoInfoUsed(Current(su, b))
    ensures || Left(su, b) == Left(su, a) - (if IsTurn(e) then 1 else 0)
            || (IsTurn(e) && Tiny(su) && NoInfoUsed(Current(su, b)) && !NoInfoUsed(Current(su, a))
                && Left(su, b) == Left(su, a) - 2)
    ensures if Moves(su, su.info, a, e, b) then
              Current(su, b) == if IsTurn(e) then NextCmd(su.area.sector, su.info, Current(su, a)) else Current(su, a)
            else NoInfoUsed(Current(su, b))
  {
    hide *;
    RunBasics(su, a);
    if Moves(su, su.info, a, e, b) {
      StillRoom(su, a, su.info, e, b);
      EventKeeps(su, a, e, b);
      EventCommand(su, a, e, b);
    } else {
      assert ShortTurn(su, a, e, b) by { IsShort(su, a, e, b); }
      ShortParts(su, a, e, b);
      ShortTurnKeeps(su, a, e, b);
      RunBasics(su, b);
      ShortPhase(su, a, e, b);
    }
  }

  lemma IsShort(su: Setup, a: seq<byte>, e: Event, b: seq<byte>)
    requires Follows(su, a, e, b) && !Moves(su, su.info, a, e, b)
    ensures ShortTurn(su, a, e, b)
  {
    hide Moves, ShortTurn;
  }

  lemma EventCommand(su: Setup, a: seq<byte>, e: Event, b: seq<byte>)
    requires su.Ok() && RunState(su, a) && Moves(su, su.info, a, e, b) && (IsTurn(e) ==> LogRoom(su, a) > 0)
    ensures su.area.sector > 0 && LastCmd(a, SwapLog(su.area)).Some? && LastCmd(b, SwapLog(su.area)).Some?
    ensures Current(su, b) == if IsTurn(e) then NextCmd(su.area.sector, su.info, Current(su, a)) else Current(su, a)
    ensures Current(su, b).cmd1 == Current(su, a).cmd1
    ensures NoInfoUsed(Current(su, a)) ==> NoInfoUsed(Current(su, b))
  {
    hide Setup.Ok, Intact, NextCmd, Iter, StepMem, Target, CmdOk, Torn, NoInfoUsed, LastCmd, SwapLog, Room, TailBlank;
    OkArea(su);
    EventKeeps(su, a, e, b);
    if IsTurn(e) {
      IterKeeps(su, a);
      NextKeepsCmd1(su.area.sector, su.info, Current(su, a));
      if NoInfoUsed(Current(su, a)) {
        NoInfoStep(su, su.info, Current(su, a), a);
      }
    }
  }

  lemma NextKeepsCmd1(sector: nat, info: SwpInfo, cmd: Cmd)
    requires sector > 0
    ensures NextCmd(sector, info, cmd).cmd1 == cmd.cmd1
  {
    hide Inplace, WithInplace;
  }

  lemma ShortParts(su: Setup, a: seq<byte>, e: Event, b: seq<byte>)
    requires su.Ok() && RunState(su, a) && ShortTurn(su, a, e, b)
    ensures su.area.sector > 0 && LastCmd(a, SwapLog(su.area)).Some? && !NoInfoUsed(Current(su, a)) && IsTurn(e)
    ensures Left(su, a) > 0 && Tiny(su) && !e.CutStep?
  {
    LeftPositive(su, Current(su, a));
    hide Setup.Ok, Intact, LastCmd, SwapLog, Append, Remaining;
  }

  lemma ShortPhase(su: Setup, a: seq<byte>, e: Event, b: seq<byte>)
    requires LastCmd(b, SwapLog(su.area)).Some? && Phase(Current(su, b).cmd2) == CMD2_SWP_P3
    ensures NoInfoUsed(Current(su, b))
  {
    hide LastCmd, SwapLog, Phase;
  }

  lemma LoadedStarted(su: Setup)
    requires Loaded(su)
    ensures Started(su)
  {}

  lemma TinyHasLength(su: Setup)
    requires su.Ok() && Loaded(su)
    ensures Tiny(su) ==> su.NewLen() > 0
  {
    hide Setup.Ok, Loaded;
    if !su.inplace {
      LoadedKinds(su);
    }
  }

  lemma WrittenParts(su: Setup, a: seq<byte>, e: Event, b: seq<byte>, info: SwpInfo, info': SwpInfo)
    requires StepAsWritten(su, a, e, b, info, info') && ResetOk(su, e, b)
    ensures Moves(su, info, a, e, b) && LastCmd(b, SwapLog(su.area)).Some?
    ensures if e.Turn? then info' == info
            else info' == SwapInfoOf(su.cr, su.area, b, Current(su, b)) && (Recovers(su, b) || ShortRestart(su, b))
  {
    hide Moves, LastCmd, SwapInfoOf, Recovers, ShortRestart, SwapLog;
  }

  // One event of the run as written.
  lemma AsWrittenEvent(su: Setup, info: SwpInfo, a: seq<byte>, e: Event, b: seq<byte>, info': SwpInfo)
    requires su.Ok() && Loaded(su) && RunState(su, a) && StepAsWritten(su, a, e, b, info, info') && ResetOk(su, e, b)
    requires InfoServes(su, info, Current(su, a)) && (Left(su, a) > 0 && IsTurn(e) ==> LogRoom(su, a) > 0)
    ensures Follows(su, a, e, b) && RunState(su, b) && LogRoom(su, a) - 1 <= LogRoom(su, b)
    ensures e.CutStep? ==> LogRoom(su, b) == LogRoom(su, a)
    ensures InfoServes(su, info', Current(su, b))
    ensures NoInfoUsed(Current(su, a)) ==> NoInfoUsed(Current(su, b))
    ensures || Left(su, b) == Left(su, a) - (if IsTurn(e) then 1 else 0)
            || (IsTurn(e) && Tiny(su) && NoInfoUsed(Current(su, b)) && !NoInfoUsed(Current(su, a))
                && Left(su, b) == Left(su, a) - 2)
  {
    hide *;
    RunBasics(su, a);
    WrittenParts(su, a, e, b, info, info');
    StillRoom(su, a, info, e, b);
    TinyHasLength(su);
    AsWrittenFollows(su, info, a, e, b);
    FollowsKeeps(su, a, e, b);
    assert InfoServes(su, info', Current(su, b)) by {
      if e.Turn? {
        TurnIsTurn(e);
        TurnServes(su, info, a, e, b);
      } else if Recovers(su, b) {
        RecoversInfo(su, b);
        EitherServes(su, info', Current(su, b));
      } else {
        ShortServes(su, b);
        EitherServes(su, info', Current(su, b));
      }
    }
  }

  lemma EitherServes(su: Setup, info: SwpInfo, cmd: Cmd)
    ensures InfoServes(su, info, cmd) <==> Serves(su, info, cmd) || ShortInfo(su, info, cmd)
    ensures NoInfoUsed(cmd) ==> Serves(su, info, cmd)
  {
    hide NoInfoUsed, ShortInfo, AllDone, OneSector;
  }

  lemma TurnServes(su: Setup, info: SwpInfo, a: seq<byte>, e: Event, b: seq<byte>)
    requires su.Ok() && RunState(su, a) && Moves(su, info, a, e, b) && InfoServes(su, info, Current(su, a)) && e.Turn?
    requires LogRoom(su, a) > 0 && (Tiny(su) ==> su.NewLen() > 0)
    ensures LastCmd(b, SwapLog(su.area)).Some? && InfoServes(su, info, Current(su, b))
  {
    hide *;
    RunBasics(su, a);
    assert IsTurn(e) by { TurnIsTurn(e); }
    AsWrittenFollows(su, info, a, e, b);
    EitherServes(su, info, Current(su, a));
    if Serves(su, info, Current(su, a)) {
      EventCommand(su, a, e, b);
    } else {
      ShortParts(su, a, e, b);
      ShortTurnKeeps(su, a, e, b);
      RunBasics(su, b);
      ShortPhase(su, a, e, b);
    }
    EitherServes(su, info, Current(su, b));
  }

  lemma TurnIsTurn(e: Event)
    ensures e.Turn? ==> IsTurn(e)
    ensures IsTurn(e) || e.CutRecord? || e.CutStep?
  {}

  lemma RunAtStart(su: Setup, ms: seq<seq<byte>>, es: seq<Event>, infos: seq<SwpInfo>, cmd: Cmd)
    requires IsRunAsWritten(su, ms, es, infos)
    ensures |ms| == |infos| == |es| + 1
    ensures es == [] ==> Turns(es) == TornRecords(es) == 0 && InfoServes(su, infos[0], cmd)
  {
    hide StepAsWritten;
  }

  lemma RunPrefix(su: Setup, ms: seq<seq<byte>>, es: seq<Event>, infos: seq<SwpInfo>, n: nat)
    requires IsRunAsWritten(su, ms, es, infos) && |es| == n + 1
    ensures |ms| == |infos| == n + 2
    ensures IsRunAsWritten(su, ms[..n + 1], es[..n], infos[..n + 1])
    ensures StepAsWritten(su, ms[n], es[n], ms[n + 1], infos[n], infos[n + 1])
    ensures Turns(es) == Turns(es[..n]) + if IsTurn(es[n]) then 1 else 0
    ensures TornRecords(es) == TornRecords(es[..n]) + if es[n].CutRecord? then 1 else 0
  {
    hide StepAsWritten;
  }

  // The run as written, event by event: each is an event of a run with the right info, but for the one turn that may
  // leave out two.
  lemma {:induction false} AsWrittenKeeps(su: Setup, ms: seq<seq<byte>>, es: seq<Event>, infos: seq<SwpInfo>)
    requires su.Ok() && Loaded(su) && IsRunAsWritten(su, ms, es, infos) && ms[0] == su.mem0
    requires forall j :: 0 <= j < |es| ==> ResetOk(su, es[j], ms[j + 1])
    requires Left(su, su.mem0) + TornRecords(es) <= LogRoom(su, su.mem0)
    ensures forall j :: 0 <= j < |es| ==> Follows(su, ms[j], es[j], ms[j + 1])
    ensures RunState(su, ms[|es|])
    ensures || Left(su, ms[|es|]) == Left(su, su.mem0) - Turns(es)
            || (Tiny(su) && NoInfoUsed(Current(su, ms[|es|]))
                && Left(su, ms[|es|]) == Left(su, su.mem0) - Turns(es) - 1)
    ensures LogRoom(su, ms[|es|]) >= LogRoom(su, su.mem0) - Turns(es) - TornRecords(es)
    ensures InfoServes(su, infos[|es|], Current(su, ms[|es|]))
    decreases |es|
  {
    hide *;
    LoadedStarted(su);
    StartState(su);
    RunBasics(su, su.mem0);
    RunAtStart(su, ms, es, infos, Current(su, su.mem0));
    if es != [] {
      var n := |es| - 1;
      RunPrefix(su, ms, es, infos, n);
      AsWrittenKeeps(su, ms[..n + 1], es[..n], infos[..n + 1]);
      RunBasics(su, ms[n]);
      TurnIsTurn(es[n]);
      AsWrittenEvent(su, infos[n], ms[n], es[n], ms[n + 1], infos[n + 1]);
      RunBasics(su, ms[n + 1]);
      forall j | 0 <= j < |es|
        ensures Follows(su, ms[j], es[j], ms[j + 1])
      {
        assert j < n ==> Follows(su, ms[..n + 1][j], es[..n][j], ms[..n + 1][j + 1]);
      }
    }
  }

  // Restart safety of the code as written, with any number of resets wherever it recovers: in START, MOVE_UP, P3, P4,
  // in-place P2 past sector 0 or with the header still whole, and in classic P1 and P2 where sector numbers show that
  // nothing is left to get wrong. The run ends with both images where an undisturbed run puts them, after as many
  // turns, or one less when a restart finds the one sector of the new image moved to an empty slot 0.
  lemma AsWrittenResult(su: Setup, ms: seq<seq<byte>>, es: seq<Event>, infos: seq<SwpInfo>)
    requires su.Ok() && Loaded(su) && IsRunAsWritten(su, ms, es, infos) && ms[0] == su.mem0
    requires forall j :: 0 <= j < |es| ==> ResetOk(su, es[j], ms[j + 1])
    requires Left(su, su.mem0) + TornRecords(es) <= LogRoom(su, su.mem0)
    ensures Turns(es) <= Left(su, su.mem0)
    ensures Turns(es) == Left(su, su.mem0) ==> Ended(su, ms[|es|])
    ensures Ended(su, ms[|es|]) ==> Swapped(su, ms[|es|])
    ensures Ended(su, ms[|es|])
        ==> Turns(es) == Left(su, su.mem0) || (Tiny(su) && Turns(es) == Left(su, su.mem0) - 1)
  {
    hide *;
    LoadedStarted(su);
    StartState(su);
    RunBasics(su, su.mem0);
    RunAtStart(su, ms, es, infos, Current(su, su.mem0));
    AsWrittenKeeps(su, ms, es, infos);
    RunBasics(su, ms[|es|]);
    EndsExactly(su, ms[|es|]);
  }

  // Without that restart it is, event for event, a run with the image info held fixed, so everything proved of those
  // holds of it.
  lemma AsWrittenIsRun(su: Setup, ms: seq<seq<byte>>, es: seq<Event>, infos: seq<SwpInfo>)
    requires su.Ok() && Loaded(su) && IsRunAsWritten(su, ms, es, infos) && ms[0] == su.mem0
    requires forall j :: 0 <= j < |es| ==> ResetOk(su, es[j], ms[j + 1])
    requires forall j :: 0 <= j < |es| ==> !ShortTurn(su, ms[j], es[j], ms[j + 1])
    requires Left(su, su.mem0) + TornRecords(es) <= LogRoom(su, su.mem0)
    ensures IsRun(su, ms, es, seq(|es| + 1, i => su.info))
  {
    AsWrittenKeeps(su, ms, es, infos);
    var fixed := seq(|es| + 1, i => su.info);
    hide RunState, Moves, StepAsWritten, ResetOk, Left, LogRoom, Loaded, Setup.Ok, ShortTurn;
    forall j | 0 <= j < |es|
      ensures Moves(su, fixed[j], ms[j], es[j], ms[j + 1])
    {
      assert Follows(su, ms[j], es[j], ms[j + 1]);
    }
  }

  // ----- its records -----

  lemma {:induction false} AsWrittenLate(su: Setup, ms: seq<seq<byte>>, es: seq<Event>, infos: seq<SwpInfo>)
    requires su.Ok() && HeadersOk(su) && Slot0Fits(su) && IsRunAsWritten(su, ms, es, infos) && ms[0] == su.mem0
    requires forall j :: 0 <= j < |es| ==> ResetOk(su, es[j], ms[j + 1])
    requires Left(su, su.mem0) + TornRecords(es) <= LogRoom(su, su.mem0)
    ensures RunState(su, ms[|es|]) && LastCmd(ms[|es|], SwapLog(su.area)).Some? && Late(su, ms[|es|])
    ensures Current(su, ms[|es|]).cmd1 == Current(su, su.mem0).cmd1
    decreases |es|
  {
    hide *;
    HeadersLoaded(su);
    LoadedStarted(su);
    StartState(su);
    StartLate(su);
    RunBasics(su, su.mem0);
    RunAtStart(su, ms, es, infos, Current(su, su.mem0));
    if es != [] {
      var n := |es| - 1;
      RunPrefix(su, ms, es, infos, n);
      AsWrittenLate(su, ms[..n + 1], es[..n], infos[..n + 1]);
      AsWrittenKeeps(su, ms[..n + 1], es[..n], infos[..n + 1]);
      AsWrittenKeeps(su, ms, es, infos);
      assert Follows(su, ms[n], es[n], ms[n + 1]);
      TurnIsTurn(es[n]);
      FollowsLate(su, ms[n], es[n], ms[n + 1]);
    }
  }

  lemma FollowsLate(su: Setup, a: seq<byte>, e: Event, b: seq<byte>)
    requires su.Ok() && HeadersOk(su) && Slot0Fits(su) && RunState(su, a) && LastCmd(a, SwapLog(su.area)).Some?
    requires Late(su, a) && Follows(su, a, e, b) && (su.area.sector > 0 && Left(su, a) > 0 ==> LogRoom(su, a) > 0)
    ensures RunState(su, b) && LastCmd(b, SwapLog(su.area)).Some? && Late(su, b)
    ensures Current(su, b).cmd1 == Current(su, a).cmd1
  {
    hide *;
    HeadersLoaded(su);
    TinyHasLength(su);
    RunBasics(su, a);
    if Moves(su, su.info, a, e, b) {
      StillRoom(su, a, su.info, e, b);
      EventLate(su, a, e, b);
    } else {
      IsShort(su, a, e, b);
      ShortParts(su, a, e, b);
      ShortTurnKeeps(su, a, e, b);
      RunBasics(su, b);
      NotLateYet(su, b);
    }
  }

  lemma NotLateYet(su: Setup, mem: seq<byte>)
    requires LastCmd(mem, SwapLog(su.area)).Some? && Phase(Current(su, mem).cmd2) == CMD2_SWP_P3
    ensures Late(su, mem)
  {
    hide LastCmd, SwapLog, Phase, Slot0Written, Blank;
  }

  // A finished run of the code as written leaves the records of an undisturbed one.
  lemma AsWrittenRecords(su: Setup, ms: seq<seq<byte>>, es: seq<Event>, infos: seq<SwpInfo>)
    requires su.Ok() && HeadersOk(su) && Slot0Fits(su) && IsRunAsWritten(su, ms, es, infos) && ms[0] == su.mem0
    requires forall j :: 0 <= j < |es| ==> ResetOk(su, es[j], ms[j + 1])
    requires Left(su, su.mem0) + TornRecords(es) <= LogRoom(su, su.mem0)
    requires Ended(su, ms[|es|])
    ensures RunState(su, ms[|es|]) && Recorded(su, ms[|es|], Current(su, su.mem0).cmd1)
  {
    assert |ms| == |es| + 1;
    hide *;
    AsWrittenLate(su, ms, es, infos);
    LateIsRecorded(su, ms[|es|]);
  }
}
