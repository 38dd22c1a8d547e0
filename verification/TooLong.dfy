// Images with more sectors than one octet counts: a swap that has to move them goes round for ever.
module TooLong {
  import opened Bytes
  import opened CmdLog
  import opened Flash
  import opened Images
  import opened Runs
  import opened Swap
  import opened Turns

  // An in-place image without an encrypted part: nothing has to be moved.
  predicate Clear(su: Setup) {
    su.inplace && su.info.fr.enc_start == su.info.fr.end
  }

  // An image of more than 255 sectors, at its place, that has to be moved.
  ghost predicate Long(su: Setup) {
    su.Placed() && su.AllSectors() > 255 && !Clear(su)
  }

  // The swap is still in one of the phases that move sectors, and MOVE_UP at a sector of the old image.
  ghost predicate LongCmd(su: Setup, cmd: Cmd)
    requires su.area.sector > 0
  {
    && cmd.cmd1 != CMD1_ERROR && Inplace(cmd.cmd2) == su.inplace
    && Phase(cmd.cmd2) in {CMD2_SWP_START, CMD2_MOVE_UP, CMD2_SWP_P1, CMD2_SWP_P2}
    && (Phase(cmd.cmd2) == CMD2_MOVE_UP ==> cmd.cmd3 < su.OldSectors())
    && (Phase(cmd.cmd2) == CMD2_SWP_P1 ==> !su.inplace)
  }

  lemma LongLength(su: Setup)
    requires Long(su)
    ensures su.area.sector > 0 && (su.info.EndFr() > 255 * su.area.sector || su.info.EndTo() > 255 * su.area.sector)
    ensures su.inplace ==> su.info.EndTo() > 255 * su.area.sector
  {
    SectorsFacts(su.info.EndFr(), su.area.sector, 255);
    SectorsFacts(su.info.EndTo(), su.area.sector, 255);
    SectorsFacts(0, su.area.sector, 0);
    hide Sectors, EncOk;
  }

  // The sector number wraps around before both images are through.
  lemma NextMoves(su: Setup, cmd: Cmd)
    requires Long(su) && LongCmd(su, cmd)
    ensures LongCmd(su, NextCmd(su.area.sector, su.info, cmd))
  {
    LongLength(su);
    CountBelow(su);
    PhaseBits(CMD2_SWP_P1, su.inplace);
    PhaseBits(CMD2_SWP_P2, su.inplace);
    PhaseBits(CMD2_MOVE_UP, su.inplace);
    MulMonotone(cmd.cmd3, 255, su.area.sector);
    hide Setup.Placed, Inplace, WithInplace, Sectors;
  }

  // START counts no more sectors than there are, even when the count wraps.
  lemma CountBelow(su: Setup)
    requires su.area.sector > 0
    ensures su.info.EndTo() > 0 ==> (su.info.EndTo() - 1) / su.area.sector % 256 < su.OldSectors()
  {}

  // No step touches the log.
  lemma LongTarget(su: Setup, cmd: Cmd)
    requires Long(su) && LongCmd(su, cmd)
    ensures OutsideLog(su.area, su.info, cmd)
  {
    var s := su.area.sector;
    SwapApart(su.area);
    MulMonotone(0, cmd.cmd3, s);
    if Phase(cmd.cmd2) == CMD2_MOVE_UP {
      SectorsFacts(su.OldLen(), s, cmd.cmd3);
      SectorRoom(cmd.cmd3, s, su.OldLen(), su.ToSize());
    }
    hide Area.Ok, Sectors, EncOk, Inplace;
  }

  ghost predicate LongState(su: Setup, mem: seq<byte>)
    requires su.area.sector > 0
  {
    && |mem| == su.area.flash_size && TailBlank(mem, SwapLog(su.area))
    && LastCmd(mem, SwapLog(su.area)).Some? && LongCmd(su, Current(su, mem))
  }

  lemma LongTurn(su: Setup, mem: seq<byte>)
    requires Long(su) && su.area.sector > 0 && LongState(su, mem)
    ensures LongState(su, Iter(su.cr, su.area, su.info, mem))
  {
    var cmd := Current(su, mem);
    assert su.area.Ok() && Going(cmd.cmd2);
    NextMoves(su, cmd);
    LongTarget(su, cmd);
    hide Long, NextCmd, Target, Area.Ok, LastCmd, TailBlank, Iter, StepMem, Going, Phase, SwapLog, OutsideLog;
    TurnLogs(su.cr, su.area, su.info, mem, cmd);
  }

  // However long it runs, and whatever room the log has, such a swap never ends.
  lemma {:induction false} TooLongNeverEnds(su: Setup, mem: seq<byte>, n: nat)
    requires Long(su) && su.area.sector > 0 && LongState(su, mem)
    ensures !Ended(su, IterN(su.cr, su.area, su.info, mem, n))
    decreases n
  {
    hide Long, LongState, Iter;
    if n > 0 {
      LongTurn(su, mem);
      TooLongNeverEnds(su, Iter(su.cr, su.area, su.info, mem), n - 1);
    } else {
      StillMoving(su, mem);
    }
  }

  lemma StillMoving(su: Setup, mem: seq<byte>)
    requires su.area.sector > 0 && LongState(su, mem)
    ensures !Ended(su, mem)
  {
    hide LastCmd;
  }

  // ----- round and round -----

  // START counts the sectors to move up modulo 256, so an old image of more is moved up only in part.
  lemma StartWraps(su: Setup, cmd: Cmd)
    requires su.area.sector > 0 && Phase(cmd.cmd2) == CMD2_SWP_START && su.info.EndTo() > 0 && !Clear(su)
    requires Inplace(cmd.cmd2) == su.inplace
    ensures var next := NextCmd(su.area.sector, su.info, cmd);
            && Phase(next.cmd2) == CMD2_MOVE_UP && next.cmd3 == (Sectors(su.info.EndTo(), su.area.sector) - 1) % 256
            && (Sectors(su.info.EndTo(), su.area.sector) > 256 ==>
                  next.cmd3 + 1 < Sectors(su.info.EndTo(), su.area.sector))
  {
    PhaseBits(CMD2_MOVE_UP, su.inplace);
    hide Inplace, WithInplace;
  }

  // The command n turns after P1 (after P2, in place) at sector k: two turns a sector, one in place, and after sector
  // 255 comes sector 0 again.
  function After(cmd: Cmd, n: nat): Cmd {
    if Inplace(cmd.cmd2) then cmd.(cmd3 := (cmd.cmd3 + n) % 256)
    else Cmd(cmd.cmd1, if n % 2 == 0 then CMD2_SWP_P1 else CMD2_SWP_P2, (cmd.cmd3 + n / 2) % 256)
  }

  ghost predicate RoundStart(cmd: Cmd) {
    cmd.cmd2 == CMD2_SWP_P1 || (Inplace(cmd.cmd2) && Phase(cmd.cmd2) == CMD2_SWP_P2)
  }

  lemma AfterNext(su: Setup, cmd: Cmd, n: nat)
    requires Long(su) && su.area.sector > 0 && LongCmd(su, cmd) && RoundStart(cmd)
    ensures After(cmd, 0) == cmd
    ensures NextCmd(su.area.sector, su.info, After(cmd, n)) == After(cmd, n + 1)
  {
    var c, s := After(cmd, n), su.area.sector;
    LongLength(su);
    MulMonotone(c.cmd3, 255, s);
    AfterNumbers(cmd.cmd3, n);
    AfterPhase(cmd, n);
    hide Long, After, Inplace, WithInplace, Phase;
  }

  lemma AfterNumbers(k: byte, n: nat)
    ensures ((k + n) % 256 + 1) % 256 == (k + (n + 1)) % 256
    ensures n % 2 == 0 ==> (n + 1) / 2 == n / 2 && (n + 1) % 2 == 1
    ensures n % 2 != 0 ==> ((k + n / 2) % 256 + 1) % 256 == (k + (n + 1) / 2) % 256 && (n + 1) % 2 == 0
  {
    Wraps(k + n);
    Wraps(k + n / 2);
    HalfNext(n);
  }

  lemma Wraps(x: nat)
    ensures (x % 256 + 1) % 256 == (x + 1) % 256
  {
    var q, r := x / 256, x % 256;
    assert x == 256 * q + r;
  }

  lemma HalfNext(n: nat)
    ensures n % 2 == 0 ==> (n + 1) / 2 == n / 2 && (n + 1) % 2 == 1
    ensures n % 2 != 0 ==> (n + 1) / 2 == n / 2 + 1 && (n + 1) % 2 == 0
  {}

  // What phase and flag of that command are.
  lemma AfterPhase(cmd: Cmd, n: nat)
    requires RoundStart(cmd)
    ensures After(cmd, 0) == cmd
    ensures var c := After(cmd, n);
            && c.cmd1 == cmd.cmd1 && Inplace(c.cmd2) == Inplace(cmd.cmd2)
            && Phase(c.cmd2) == (if Inplace(cmd.cmd2) || n % 2 != 0 then CMD2_SWP_P2 else CMD2_SWP_P1)
            && (if Inplace(cmd.cmd2) then c == cmd.(cmd3 := (cmd.cmd3 + n) % 256)
                else c.cmd2 == Phase(c.cmd2) && c.cmd3 == (cmd.cmd3 + n / 2) % 256)
    ensures WithInplace(CMD2_SWP_P2, true) == 0x36 && (Inplace(cmd.cmd2) ==> cmd.cmd2 == 0x36)
    ensures WithInplace(CMD2_SWP_P1, false) == CMD2_SWP_P1 && WithInplace(CMD2_SWP_P2, false) == CMD2_SWP_P2
    ensures var d := After(cmd, n + 1);
            if Inplace(cmd.cmd2) then d == cmd.(cmd3 := (cmd.cmd3 + (n + 1)) % 256)
            else d == Cmd(cmd.cmd1, if (n + 1) % 2 == 0 then CMD2_SWP_P1 else CMD2_SWP_P2,
                          (cmd.cmd3 + (n + 1) / 2) % 256)
  {}

  // As long as the log has room the swap goes round: after 512 turns, or 256 in place, it is where it was.
  lemma {:induction false} GoesRound(su: Setup, mem: seq<byte>, n: nat)
    requires Long(su) && su.area.sector > 0 && LongState(su, mem) && RoundStart(Current(su, mem))
    requires n <= LogRoom(su, mem)
    ensures var r := IterN(su.cr, su.area, su.info, mem, n);
            && LongState(su, r) && LogRoom(su, r) == LogRoom(su, mem) - n
            && LastCmd(r, SwapLog(su.area)) == Some(After(Current(su, mem), n))
            && (n == (if Inplace(Current(su, mem).cmd2) then 256 else 512) ==> Current(su, r) == Current(su, mem))
    decreases n
  {
    hide Long, Iter, NextCmd, After, LastCmd, SwapLog, RoundStart, LongState, LogRoom;
    StateParts(su, mem);
    AfterRound(Current(su, mem));
    AfterNext(su, Current(su, mem), if n > 0 then n - 1 else 0);
    if n > 0 {
      GoesRound(su, mem, n - 1);
      var p := IterN(su.cr, su.area, su.info, mem, n - 1);
      IterNLast(su.cr, su.area, su.info, mem, n - 1);
      RoundTurn(su, p);
    }
  }

  lemma AfterRound(cmd: Cmd)
    requires RoundStart(cmd)
    ensures After(cmd, if Inplace(cmd.cmd2) then 256 else 512) == cmd
  {
    hide Inplace;
  }

  lemma StateParts(su: Setup, mem: seq<byte>)
    requires su.area.sector > 0 && LongState(su, mem)
    ensures LastCmd(mem, SwapLog(su.area)) == Some(Current(su, mem)) && LongCmd(su, Current(su, mem))
  {
    hide LongCmd, LastCmd, SwapLog;
  }

  lemma RoundTurn(su: Setup, mem: seq<byte>)
    requires Long(su) && su.area.sector > 0 && LongState(su, mem) && LogRoom(su, mem) > 0
    ensures var r := Iter(su.cr, su.area, su.info, mem);
            && LongState(su, r) && LogRoom(su, r) == LogRoom(su, mem) - 1
            && LastCmd(r, SwapLog(su.area)) == Some(NextCmd(su.area.sector, su.info, Current(su, mem)))
  {
    var cmd := Current(su, mem);
    RoomOf(su, mem);
    RoomOf(su, Iter(su.cr, su.area, su.info, mem));
    assert su.area.Ok() && Going(cmd.cmd2);
    LongTurn(su, mem);
    LongTarget(su, cmd);
    hide Long, NextCmd, Target, Area.Ok, LastCmd, TailBlank, Iter, StepMem, Going, Phase, SwapLog, OutsideLog, LogRoom;
    TurnLogs(su.cr, su.area, su.info, mem, cmd);
  }

  // A clear in-place image of any length needs no sector numbers: three turns and its swap has ended.
  lemma ClearEnds(su: Setup)
    requires su.Placed() && Clear(su) && su.area.sector > 0 && Started(su) && LogRoom(su, su.mem0) >= 3
    ensures Ended(su, IterN(su.cr, su.area, su.info, su.mem0, 3))
  {
    var c0 := Current(su, su.mem0);
    RoomOf(su, su.mem0);
    hide *;
    var a := Iter(su.cr, su.area, su.info, su.mem0);
    var b := Iter(su.cr, su.area, su.info, a);
    var c1 := NextCmd(su.area.sector, su.info, c0);
    ClearStart(su, c0);
    LateTurn(su, su.mem0, c0);
    LateTurn(su, a, c1);
    LateTurn(su, b, NextCmd(su.area.sector, su.info, c1));
    ThreeTurns(su);
    AtEnd(su, Iter(su.cr, su.area, su.info, b), NextCmd(su.area.sector, su.info, NextCmd(su.area.sector, su.info, c1)));
  }

  lemma RoomOf(su: Setup, mem: seq<byte>)
    ensures LogRoom(su, mem) == Room(mem, SwapLog(su.area))
  {
    hide Room;
  }

  lemma AtEnd(su: Setup, mem: seq<byte>, cmd: Cmd)
    requires Logged(su.area, mem, cmd) && Phase(cmd.cmd2) == CMD2_SWP_END
    ensures Ended(su, mem)
  {
    hide Area.Ok, TailBlank, LastCmd, SwapLog, Phase;
  }

  lemma ThreeTurns(su: Setup)
    requires su.area.sector > 0
    ensures IterN(su.cr, su.area, su.info, su.mem0, 3)
         == Iter(su.cr, su.area, su.info, Iter(su.cr, su.area, su.info, Iter(su.cr, su.area, su.info, su.mem0)))
  {
    hide Iter;
    var a := Iter(su.cr, su.area, su.info, su.mem0);
    var b := Iter(su.cr, su.area, su.info, a);
    assert IterN(su.cr, su.area, su.info, b, 1) == Iter(su.cr, su.area, su.info, b);
    assert IterN(su.cr, su.area, su.info, a, 2) == IterN(su.cr, su.area, su.info, b, 1);
  }

  lemma ClearStart(su: Setup, cmd: Cmd)
    requires su.Placed() && Clear(su) && su.area.sector > 0 && Started(su) && cmd == Current(su, su.mem0)
    ensures Logged(su.area, su.mem0, cmd) && ClearCmd(su, cmd) && Phase(cmd.cmd2) == CMD2_SWP_START
  {
    hide TailBlank, LastCmd, SwapLog, Sectors, EncOk, Area.Ok, Phase;
  }

  // The commands such a swap passes through.
  predicate ClearCmd(su: Setup, cmd: Cmd) {
    Inplace(cmd.cmd2) && Clear(su) && Phase(cmd.cmd2) in {CMD2_SWP_START, CMD2_SWP_P3, CMD2_SWP_P4}
  }

  lemma LateTurn(su: Setup, mem: seq<byte>, cmd: Cmd)
    requires su.area.sector > 0 && Logged(su.area, mem, cmd) && ClearCmd(su, cmd) && Room(mem, SwapLog(su.area)) > 0
    ensures var r, next := Iter(su.cr, su.area, su.info, mem), NextCmd(su.area.sector, su.info, cmd);
            && Logged(su.area, r, next) && Room(r, SwapLog(su.area)) == Room(mem, SwapLog(su.area)) - 1
            && match Phase(cmd.cmd2)
               case 0x10 => Phase(next.cmd2) == CMD2_SWP_P3 && ClearCmd(su, next)
               case 0x18 => Phase(next.cmd2) == CMD2_SWP_P4 && ClearCmd(su, next)
               case _ => Phase(next.cmd2) == CMD2_SWP_END
  {
    LateNext(su, cmd);
    hide NextCmd, Target, Area.Ok, LastCmd, TailBlank, Iter, StepMem, Going, Phase, SwapLog, Room, OutsideLog, Inplace,
         Clear;
    TurnLogs(su.cr, su.area, su.info, mem, cmd);
  }

  lemma LateNext(su: Setup, cmd: Cmd)
    requires su.area.Ok() && su.area.sector > 0 && ClearCmd(su, cmd)
    ensures Going(cmd.cmd2) && OutsideLog(su.area, su.info, cmd)
    ensures var next := NextCmd(su.area.sector, su.info, cmd);
            && next.cmd1 == cmd.cmd1
            && match Phase(cmd.cmd2)
               case 0x10 => Phase(next.cmd2) == CMD2_SWP_P3 && ClearCmd(su, next)
               case 0x18 => Phase(next.cmd2) == CMD2_SWP_P4 && ClearCmd(su, next)
               case _ => Phase(next.cmd2) == CMD2_SWP_END
  {
    SwapApart(su.area);
    PhaseBits(CMD2_SWP_P3, true);
    PhaseBits(CMD2_SWP_P4, true);
    PhaseBits(CMD2_SWP_END, true);
    hide Inplace, WithInplace, Area.Ok;
  }

  // Exactly which lengths can be swapped: with the images at their places and room in the log for the turns counted,
  // a swap just started ends if and only if neither image has more than 255 sectors, or nothing has to be moved.
  lemma LengthExact(su: Setup)
    requires su.Placed() && su.area.sector > 0 && Started(su)
    requires Left(su, su.mem0) <= LogRoom(su, su.mem0)
    ensures (exists n: nat :: Ended(su, IterN(su.cr, su.area, su.info, su.mem0, n)))
        <==> su.AllSectors() <= 255 || Clear(su)
  {
    hide IterN, Ended, LogRoom, Sectors, LastCmd, SwapLog, Room;
    if su.AllSectors() <= 255 {
      assert su.Ok();
      hide Setup.Ok, Setup.Placed, Started, Left;
      FullSwap(su);
    } else if Clear(su) {
      ClearLeft(su);
      hide Setup.Placed, Started, Left, Clear;
      ClearEnds(su);
    } else {
      StartIsLong(su);
      hide Setup.Placed, Started, LongState, Left;
      forall n: nat
        ensures !Ended(su, IterN(su.cr, su.area, su.info, su.mem0, n))
      {
        TooLongNeverEnds(su, su.mem0, n);
      }
    }
  }

  lemma ClearLeft(su: Setup)
    requires su.area.sector > 0 && Started(su) && Clear(su)
    ensures Left(su, su.mem0) == 3
  {
    hide LastCmd, Sectors, TailBlank;
  }

  lemma StartIsLong(su: Setup)
    requires su.Placed() && su.area.sector > 0 && Started(su)
    ensures LongState(su, su.mem0)
  {
    hide LastCmd, Sectors, Area.Ok, EncOk, TailBlank;
  }
}
