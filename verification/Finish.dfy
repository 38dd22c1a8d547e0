// What phases 3 and 4 leave behind: the parameters and the command in slot 0, an empty log in slot 1; and that this
// holds of every run, power losses included.
module Finish {
  import opened AfterSwap
  import opened Bytes
  import opened CmdLog
  import opened Digest
  import opened Flash
  import opened Header
  import opened Images
  import opened Params
  import opened Recovery
  import opened Runs
  import opened Swap

  lemma RunBasics(su: Setup, mem: seq<byte>)
    requires RunState(su, mem)
    ensures su.area.sector > 0 && LastCmd(mem, SwapLog(su.area)).Some? && |mem| == su.area.flash_size
  {
    hide Intact, CmdOk, Setup.Ok, LastCmd;
  }

  lemma StateIs(su: Setup, mem: seq<byte>)
    requires su.Ok() && RunState(su, mem)
    ensures su.area.sector > 0 && LastCmd(mem, SwapLog(su.area)).Some?
    ensures Intact(su, PosOf(su.area.sector, Current(su, mem)), mem) && Inplace(Current(su, mem).cmd2) == su.inplace
    ensures |mem| == su.area.flash_size && su.area.Ok() && SwapLog(su.area).start < SwapLog(su.area).end
    ensures 0 <= su.area.Slt0End() && su.area.Slt0End() + PRM_BYTES <= su.area.flash_size
  {
    hide Intact, LastCmd, Inplace, Sectors, EncOk;
  }

  lemma LastSectorsApart(area: Area)
    requires area.Ok()
    ensures Apart(area.Slt0End(), area.sector, area.Slt1End(), area.sector)
    ensures Apart(area.Slt0End(), area.sector, SwapLog(area).start, SwapLog(area).end - SwapLog(area).start)
    ensures Apart(area.Slt1End(), area.sector, SwapLog(area).start, SwapLog(area).end - SwapLog(area).start)
    ensures area.sector >= PRM_BYTES && SwapLog(area).start <= SwapLog(area).end
    ensures 0 <= area.Slt0End() && area.Slt0End() + area.sector <= area.flash_size
    ensures 0 <= area.Slt1End() && area.Slt1End() + area.sector <= area.flash_size
  {}

  // ----- what is read back later is what phase 3 stored -----

  predicate FinalPhase(phase: byte) {
    phase == CMD2_SWP_P3 || phase == CMD2_SWP_P4 || phase == CMD2_SWP_END
  }

  // How much of slot 1 is image once the images are in their places.
  function Slt1Len(su: Setup): int {
    if su.OldLen() > 0 then su.OldLen() else su.NewLen()
  }

  lemma FinalSame(su: Setup, p: Pos, a: seq<byte>, q: Pos, b: seq<byte>)
    requires su.Ok() && Loaded(su) && Intact(su, p, a) && Intact(su, q, b) && FinalPhase(p.phase) && FinalPhase(q.phase)
    ensures !su.inplace ==> SameOn(a, b, su.area.slt0_offset, su.area.slt0_offset + su.NewLen())
    ensures su.inplace ==> SameOn(a, b, su.area.slt0_offset, su.area.Slt0End())
    ensures SameOn(a, b, su.area.slt1_offset, su.area.slt1_offset + Slt1Len(su))
  {
    hide Setup.Ok, Loaded, Intact, Transform, HeaderIn, KeepForRam, ReadInfo;
    FinalPlaces(su, p, a);
    FinalPlaces(su, q, b);
    LoadedFrom(su);
    InplaceHasLength(su);
  }

  // Where the two images lie, as the headers say it.
  lemma FinalSlots(su: Setup, p: Pos, mem: seq<byte>)
    requires su.Ok() && HeadersOk(su) && Intact(su, p, mem) && FinalPhase(p.phase)
    ensures var i := ReadInfo(su.cr, mem, su.area, 1, 0);
            i.is_valid && su.area.slt1_offset <= i.start <= i.end == su.area.slt1_offset + Slt1Len(su)
    ensures var i := ReadInfo(su.cr, mem, su.area, 0, 0);
            !su.inplace ==> i.is_valid && su.area.slt0_offset <= i.start <= i.end == su.area.slt0_offset + su.NewLen()
  {
    hide Setup.Ok, HeadersOk, Intact, HeaderIn, KeepForRam, ReadInfo, HeaderFrom, SameHeaderOctets;
    if su.inplace {
      FinalHeaders(su, p, mem);
      AtStart(su);
      InfoFrom(su.cr, su.area, mem, 1, su.mem0, 1);
    } else {
      FinalInfos(su, p, mem);
      AtStart(su);
    }
  }

  lemma AtStart(su: Setup)
    requires su.Ok() && HeadersOk(su)
    ensures su.Fr() == su.area.slt1_offset && ReadInfo(su.cr, su.mem0, su.area, 1, 0).hdr_start == su.Fr()
    ensures ReadInfo(su.cr, su.mem0, su.area, 1, 0).is_valid
    ensures ReadInfo(su.cr, su.mem0, su.area, 1, 0).end - su.Fr() == su.info.EndFr()
    ensures !su.inplace ==> su.To() == su.area.slt0_offset && su.NewLen() == su.info.EndFr()
    ensures ReadInfo(su.cr, su.mem0, su.area, 0, 0).hdr_start == su.area.slt0_offset
    ensures su.inplace ==> su.OldLen() == su.info.EndFr() > 0 && su.To() == su.area.slt1_offset
  {
    assert Loaded(su) && su.info.fr.is_valid && su.Fr() == su.area.slt1_offset;
    hide HeadersOk, Loaded, ReadInfo, HeaderIn, Area.Ok;
    LoadedFrom(su);
    InplaceHasLength(su);
    InfoStarts(su.cr, su.area, su.mem0, 0);
    InfoStarts(su.cr, su.area, su.mem0, 1);
  }

  lemma InfoStarts(cr: Crypto, area: Area, mem: seq<byte>, slt: nat)
    ensures var i := ReadInfo(cr, mem, area, slt, 0); i.hdr_start == SlotOffset(area, slt) <= i.start <= i.end
  {
    var h := SlotOffset(area, slt);
    hide ParseInfo, TlvArea, Magic;
    InfoBounds(cr, TlvArea(mem, h), h, None);
  }

  lemma SameInfos(su: Setup, p: Pos, a: seq<byte>, q: Pos, b: seq<byte>)
    requires su.Ok() && HeadersOk(su) && Intact(su, p, a) && Intact(su, q, b) && FinalPhase(p.phase)
    requires FinalPhase(q.phase)
    ensures ReadInfo(su.cr, a, su.area, 0, 0) == ReadInfo(su.cr, b, su.area, 0, 0)
    ensures ReadInfo(su.cr, a, su.area, 1, 0) == ReadInfo(su.cr, b, su.area, 1, 0)
  {
    hide Setup.Ok, HeadersOk, Intact, HeaderIn, KeepForRam, ReadInfo, HeaderFrom, SameHeaderOctets;
    if su.inplace {
      FinalHeaders(su, p, a);
      FinalHeaders(su, q, b);
      AtStart(su);
      InfoFrom(su.cr, su.area, a, 1, su.mem0, 1);
      InfoFrom(su.cr, su.area, b, 1, su.mem0, 1);
      SameHeader(su.cr, su.area, su.mem0, a, 0);
      SameHeader(su.cr, su.area, su.mem0, b, 0);
    } else {
      FinalInfos(su, p, a);
      FinalInfos(su, q, b);
    }
  }

  lemma SameCrc(cr: Crypto, a: seq<byte>, b: seq<byte>, lo: int, hi: int, off: int, len: nat)
    requires SameOn(a, b, lo, hi) && lo <= off && off + len <= hi
    ensures FlashCrc(cr, a, off, len) == FlashCrc(cr, b, off, len)
  {
    assert Slice(a, off, len) == Slice(b, off, len);
  }

  // An in-place swap keeps the crc of whatever image slot 0 holds, if that image leaves the last sector free.
  ghost predicate Slot0Fits(su: Setup) {
    su.inplace ==> ReadInfo(su.cr, su.mem0, su.area, 0, 0).end <= su.area.Slt0End()
  }

  lemma SamePrm(su: Setup, p: Pos, a: seq<byte>, q: Pos, b: seq<byte>)
    requires su.Ok() && HeadersOk(su) && Intact(su, p, a) && Intact(su, q, b) && FinalPhase(p.phase)
    requires FinalPhase(q.phase)
    requires Slot0Fits(su)
    ensures P3Prm(su.cr, su.area, su.inplace, a) == P3Prm(su.cr, su.area, su.inplace, b)
  {
    hide Setup.Ok, Intact, ReadInfo, FlashCrc, VersionU32, SameOn, HeadersOk, SameHeaderOctets, Slot0Fits, Slt1Len,
         P3Prm, Setup.OldLen, Setup.NewLen;
    SameInfos(su, p, a, q, b);
    FinalSlots(su, q, b);
    HeadersLoaded(su);
    FinalSame(su, p, a, q, b);
    var i1 := ReadInfo(su.cr, b, su.area, 1, 0);
    SameCrc(su.cr, a, b, su.area.slt1_offset, su.area.slt1_offset + Slt1Len(su), i1.start, i1.end - i1.start);
    SameCrc0(su, q, a, b);
    PrmFrom(su, a, b);
  }

  lemma SameCrc0(su: Setup, q: Pos, a: seq<byte>, b: seq<byte>)
    requires su.Ok() && HeadersOk(su) && Intact(su, q, b) && FinalPhase(q.phase) && Slot0Fits(su)
    requires !su.inplace ==> SameOn(a, b, su.area.slt0_offset, su.area.slt0_offset + su.NewLen())
    requires su.inplace ==> SameOn(a, b, su.area.slt0_offset, su.area.Slt0End())
    ensures var i := ReadInfo(su.cr, b, su.area, 0, 0);
            i.start <= i.end && FlashCrc(su.cr, a, i.start, i.end - i.start)
                == FlashCrc(su.cr, b, i.start, i.end - i.start)
  {
    hide Setup.Ok, Intact, ReadInfo, FlashCrc, SameOn, HeadersOk, SameHeaderOctets, Setup.OldLen, Setup.NewLen,
         HeaderFrom;
    var i := ReadInfo(su.cr, b, su.area, 0, 0);
    InfoStarts(su.cr, su.area, b, 0);
    if su.inplace {
      FinalHeaders(su, q, b);
      SameHeader(su.cr, su.area, su.mem0, b, 0);
      SameCrc(su.cr, a, b, su.area.slt0_offset, su.area.Slt0End(), i.start, i.end - i.start);
    } else {
      FinalSlots(su, q, b);
      SameCrc(su.cr, a, b, su.area.slt0_offset, su.area.slt0_offset + su.NewLen(), i.start, i.end - i.start);
    }
  }

  lemma PrmFrom(su: Setup, a: seq<byte>, b: seq<byte>)
    requires ReadInfo(su.cr, a, su.area, 0, 0) == ReadInfo(su.cr, b, su.area, 0, 0)
    requires ReadInfo(su.cr, a, su.area, 1, 0) == ReadInfo(su.cr, b, su.area, 1, 0)
    requires forall slt {:trigger ReadInfo(su.cr, b, su.area, slt, 0)} :: 0 <= slt <= 1 ==>
               var i := ReadInfo(su.cr, b, su.area, slt, 0);
               i.start <= i.end && FlashCrc(su.cr, a, i.start, i.end - i.start)
                   == FlashCrc(su.cr, b, i.start, i.end - i.start)
    ensures P3Prm(su.cr, su.area, su.inplace, a) == P3Prm(su.cr, su.area, su.inplace, b)
  {
    hide ReadInfo, FlashCrc, VersionU32;
    var i0, i1 := ReadInfo(su.cr, b, su.area, 0, 0), ReadInfo(su.cr, b, su.area, 1, 0);
    assert i0.start <= i0.end && i1.start <= i1.end;
  }

  // ----- what a run leaves beside the images -----

  // In the last sector of slot 0: the parameters, which are those of the images as they are now, and the command.
  ghost predicate Slot0Written(su: Setup, mem: seq<byte>, cmd1: byte) {
    && SameOn(mem, Put(mem, su.area.Slt0End(), PrmBytes(P3Prm(su.cr, su.area, su.inplace, mem))),
              su.area.Slt0End(), su.area.Slt0End() + PRM_BYTES)
    && (exists c: Cmd :: c.cmd1 == cmd1 && LogCommands(mem, Slt0Log(su.area)) == [c])
    && TailBlank(mem, Slt0Log(su.area))
  }

  // The same, and nothing in the last sector of slot 1.
  ghost predicate Recorded(su: Setup, r: seq<byte>, cmd1: byte) {
    && |r| == su.area.flash_size && Slot0Written(su, r, cmd1)
    && Blank(r, su.area.Slt1End(), su.area.Slt1End() + su.area.sector)
  }

  // How far a run has got with that.
  ghost predicate Late(su: Setup, mem: seq<byte>)
    requires LastCmd(mem, SwapLog(su.area)).Some?
  {
    var cmd := Current(su, mem);
    && (Phase(cmd.cmd2) == CMD2_SWP_P4 || Phase(cmd.cmd2) == CMD2_SWP_END ==> Slot0Written(su, mem, cmd.cmd1))
    && (Phase(cmd.cmd2) == CMD2_SWP_END ==> Blank(mem, su.area.Slt1End(), su.area.Slt1End() + su.area.sector))
  }

  // What is written in the last sector of slot 0 stays true while that sector and the images stay.
  lemma Slot0Kept(su: Setup, p: Pos, a: seq<byte>, q: Pos, b: seq<byte>, cmd1: byte)
    requires su.Ok() && HeadersOk(su) && Slot0Fits(su) && Slot0Written(su, a, cmd1)
    requires Intact(su, p, a) && Intact(su, q, b) && FinalPhase(p.phase) && FinalPhase(q.phase)
    requires SameOn(a, b, su.area.Slt0End(), su.area.Slt0End() + su.area.sector)
    ensures Slot0Written(su, b, cmd1)
  {
    hide Setup.Ok, HeadersOk, Slot0Fits, Intact, P3Prm, PrmBytes, Commands, FirstFree, Records, Slt0Log, Log.Ok;
    OkArea(su);
    SamePrm(su, p, a, q, b);
    Slt0LogOk(su.area);
    LastSectorsApart(su.area);
    SameLog(a, b, Slt0Log(su.area), su.area.block);
    IntactLength(su, p, a);
    IntactLength(su, q, b);
    KeptPut(a, b, su.area.Slt0End(), PrmBytes(P3Prm(su.cr, su.area, su.inplace, b)));
  }

  lemma KeptPut(a: seq<byte>, b: seq<byte>, off: int, data: seq<byte>)
    requires |a| == |b| && 0 <= off && off + |data| <= |a| && SameOn(a, b, off, off + |data|)
    requires SameOn(a, Put(a, off, data), off, off + |data|)
    ensures SameOn(b, Put(b, off, data), off, off + |data|)
  {}

  // Phase 3 writes it, and with the command of the run: the branch that would disable the restore is not taken.
  lemma P3Writes(su: Setup, mem: seq<byte>, cmd: Cmd)
    requires su.Ok() && HeadersOk(su) && Slot0Fits(su) && RunState(su, mem) && cmd == Current(su, mem)
    requires Phase(cmd.cmd2) == CMD2_SWP_P3
    ensures Slot0Written(su, P3Mem(su.cr, su.area, mem, cmd), cmd.cmd1)
    ensures P3Record(su.cr, su.area, Erased(mem, su.area.Slt0End(), su.area.sector), cmd) == cmd
    ensures Intact(su, PosOf(su.area.sector, cmd), P3Mem(su.cr, su.area, mem, cmd))
  {
    hide Setup.Ok, HeadersOk, Slot0Fits, RunState, Intact, P3Prm, PrmBytes, Erased, ReadInfo, LastCmd, Commands,
         Inplace, Phase, SameOn, SameOutside, Slt0Log, Slt1Len, P3Mem, Record, TailBlank;
    var area, lo := su.area, su.area.Slt0End();
    var p, e, d := PosOf(area.sector, cmd), Erased(mem, area.Slt0End(), area.sector), P3Mem(su.cr, area, mem, cmd);
    StateIs(su, mem);
    ErasedOutside(mem, lo, area.sector);
    P3Inside(su.cr, area, mem, cmd);
    LastSectorErased(su, p, p, mem, e, lo);
    LastSectorErased(su, p, p, mem, d, lo);
    SamePrm(su, p, e, p, d);
    FinalSlots(su, p, e);
    PutTwice(e, d, lo, PrmBytes(P3Prm(su.cr, area, su.inplace, d)), Record(cmd));
  }

  lemma PutTwice(e: seq<byte>, d: seq<byte>, lo: int, prm: seq<byte>, rec: seq<byte>)
    requires d == Put(Put(e, lo, prm), lo + |prm|, rec) && 0 <= lo && lo + |prm| <= |e|
    ensures SameOn(d, Put(d, lo, prm), lo, lo + |prm|)
  {}

  // Every event of a run, a full turn or a power loss, keeps it.
  lemma EventLate(su: Setup, a: seq<byte>, e: Event, b: seq<byte>)
    requires su.Ok() && HeadersOk(su) && Slot0Fits(su) && RunState(su, a) && LastCmd(a, SwapLog(su.area)).Some?
    requires Late(su, a)
    requires Moves(su, su.info, a, e, b) && (IsTurn(e) ==> LogRoom(su, a) > 0)
    ensures RunState(su, b) && LastCmd(b, SwapLog(su.area)).Some? && Late(su, b)
    ensures Current(su, b).cmd1 == Current(su, a).cmd1
  {
    hide Setup.Ok, HeadersOk, Slot0Fits, RunState, Moves, Slot0Written, Left, LogRoom, LastCmd, Phase, NextCmd, Blank,
         SwapLog;
    EventKeeps(su, a, e, b);
    StateIs(su, b);
    EventNext(su, a, e, b);
    if Phase(Current(su, a).cmd2) == CMD2_SWP_P3 && IsTurn(e) {
      P3Turn(su, a, b);
    } else if Phase(Current(su, a).cmd2) == CMD2_SWP_P4 {
      P4Event(su, a, e, b);
    }
  }

  // Only phase 3 leads to phase 4, and only phase 4 to the end.
  lemma EventNext(su: Setup, a: seq<byte>, e: Event, b: seq<byte>)
    requires su.Ok() && RunState(su, a) && Moves(su, su.info, a, e, b) && (IsTurn(e) ==> LogRoom(su, a) > 0)
    requires RunState(su, b)
    ensures LastCmd(a, SwapLog(su.area)).Some? && LastCmd(b, SwapLog(su.area)).Some?
    ensures Current(su, b).cmd1 == Current(su, a).cmd1
    ensures var x, y := Phase(Current(su, a).cmd2), Phase(Current(su, b).cmd2);
            && x != CMD2_SWP_END
            && (!IsTurn(e) ==> x == y)
            && (IsTurn(e) ==> if x == CMD2_SWP_P3 then y == CMD2_SWP_P4 else if x == CMD2_SWP_P4 then y == CMD2_SWP_END
                              else y != CMD2_SWP_P4 && y != CMD2_SWP_END)
    ensures IsTurn(e) ==> b == Iter(su.cr, su.area, su.info, a)
  {
    hide Setup.Ok, Intact, Phase, NextCmd, Iter, Commands, StepMem, Target, Room, CmdOk, Torn;
    EventKeeps(su, a, e, b);
    if IsTurn(e) {
      IterKeeps(su, a);
      NextPhase(su, Current(su, a));
    }
  }

  lemma NextPhase(su: Setup, cmd: Cmd)
    requires su.Ok() && CmdOk(su, cmd) && Going(cmd.cmd2)
    ensures var x, next := Phase(cmd.cmd2), NextCmd(su.area.sector, su.info, cmd);
            var y := Phase(next.cmd2);
            && next.cmd1 == cmd.cmd1 && x != CMD2_SWP_END
            && if x == CMD2_SWP_P3 then y == CMD2_SWP_P4 else if x == CMD2_SWP_P4 then y == CMD2_SWP_END
               else y != CMD2_SWP_P4 && y != CMD2_SWP_END
  {
    var inplace := Inplace(cmd.cmd2);
    PhaseBits(CMD2_SWP_P1, inplace);
    PhaseBits(CMD2_SWP_P2, inplace);
    PhaseBits(CMD2_SWP_P3, inplace);
    PhaseBits(CMD2_SWP_P4, inplace);
    PhaseBits(CMD2_SWP_END, inplace);
    PhaseBits(CMD2_MOVE_UP, inplace);
    hide Setup.Ok, Inplace, WithInplace;
  }

  lemma P3Turn(su: Setup, a: seq<byte>, b: seq<byte>)
    requires su.Ok() && HeadersOk(su) && Slot0Fits(su) && RunState(su, a) && RunState(su, b)
    requires LastCmd(a, SwapLog(su.area)).Some? && Phase(Current(su, a).cmd2) == CMD2_SWP_P3
    requires b == Iter(su.cr, su.area, su.info, a)
    requires LastCmd(b, SwapLog(su.area)).Some? && Phase(Current(su, b).cmd2) == CMD2_SWP_P4
    ensures Slot0Written(su, b, Current(su, a).cmd1)
  {
    hide Setup.Ok, HeadersOk, Slot0Fits, RunState, Intact, Slot0Written, LastCmd, P3Mem, NextCmd, SameOutside, SwapLog,
         Iter, Phase, SameOn;
    var cmd, d := Current(su, a), P3Mem(su.cr, su.area, a, Current(su, a));
    StateIs(su, a);
    StateIs(su, b);
    P3Writes(su, a, cmd);
    IterOutside(su, a, cmd, d);
    LogOutside(su.area, d, b);
    Slot0Kept(su, PosOf(su.area.sector, cmd), d, PosOf(su.area.sector, Current(su, b)), b, cmd.cmd1);
  }

  // A turn writes what its step writes, and a record in the swap log.
  lemma IterOutside(su: Setup, mem: seq<byte>, cmd: Cmd, d: seq<byte>)
    requires su.Ok() && RunState(su, mem) && cmd == Current(su, mem)
    requires || (Phase(cmd.cmd2) == CMD2_SWP_P3 && d == P3Mem(su.cr, su.area, mem, cmd))
             || (Phase(cmd.cmd2) == CMD2_SWP_P4 && d == Erased(mem, su.area.Slt1End(), su.area.sector))
    ensures SameOutside(d, Iter(su.cr, su.area, su.info, mem), SwapLog(su.area).start, SwapLog(su.area).end)
    ensures d == StepMem(su.cr, su.area, su.info, cmd, mem)
  {
    hide P3Mem, Append, NextCmd, Setup.Ok, RunState, SameOutside, Iter, SwapLog, Erased, Phase, Going, Log.Ok, Area.Ok,
         StepMem, LastCmd;
    LateGoing(cmd);
    LateStep(su.cr, su.area, su.info, cmd, mem);
    IterIs(su, mem, cmd);
    OkArea(su);
    SwapLogOk(su.area);
    AppendInside(d, SwapLog(su.area), NextCmd(su.area.sector, su.info, cmd), su.area.block);
  }

  lemma LateGoing(cmd: Cmd)
    ensures Phase(cmd.cmd2) == CMD2_SWP_P3 || Phase(cmd.cmd2) == CMD2_SWP_P4 ==> Going(cmd.cmd2)
  {
    hide Phase;
  }

  lemma LogOutside(area: Area, a: seq<byte>, b: seq<byte>)
    requires area.Ok() && SameOutside(a, b, SwapLog(area).start, SwapLog(area).end)
    ensures SameOn(a, b, area.Slt0End(), area.Slt0End() + area.sector)
    ensures SameOn(a, b, area.Slt1End(), area.Slt1End() + area.sector)
  {
    LastSectorsApart(area);
    hide Area.Ok;
  }

  lemma P4Event(su: Setup, a: seq<byte>, e: Event, b: seq<byte>)
    requires su.Ok() && HeadersOk(su) && Slot0Fits(su) && RunState(su, a) && RunState(su, b)
    requires LastCmd(a, SwapLog(su.area)).Some? && Phase(Current(su, a).cmd2) == CMD2_SWP_P4
    requires Moves(su, su.info, a, e, b) && LastCmd(b, SwapLog(su.area)).Some?
    requires FinalPhase(Phase(Current(su, b).cmd2)) && Slot0Written(su, a, Current(su, a).cmd1)
    ensures Slot0Written(su, b, Current(su, a).cmd1)
    ensures IsTurn(e) ==> Blank(b, su.area.Slt1End(), su.area.Slt1End() + su.area.sector)
  {
    hide Setup.Ok, HeadersOk, Slot0Fits, RunState, Intact, Slot0Written, LastCmd, Moves, SwapLog, Phase, SameOn;
    StateIs(su, a);
    StateIs(su, b);
    P4Outside(su, a, e, b);
    Slot0Kept(su, PosOf(su.area.sector, Current(su, a)), a, PosOf(su.area.sector, Current(su, b)), b, Current(su,
              a).cmd1);
  }

  lemma P4Outside(su: Setup, a: seq<byte>, e: Event, b: seq<byte>)
    requires su.Ok() && RunState(su, a) && LastCmd(a, SwapLog(su.area)).Some?
    requires Phase(Current(su, a).cmd2) == CMD2_SWP_P4 && Moves(su, su.info, a, e, b)
    ensures SameOn(a, b, su.area.Slt0End(), su.area.Slt0End() + su.area.sector)
    ensures IsTurn(e) ==> Blank(b, su.area.Slt1End(), su.area.Slt1End() + su.area.sector)
  {
    hide Setup.Ok, RunState, LastCmd, SwapLog, Phase, Iter, StepMem, Torn, Target, Erased, SameOutside, SameOn, Blank;
    var cmd, d := Current(su, a), Erased(a, su.area.Slt1End(), su.area.sector);
    StateIs(su, a);
    IterOutside(su, a, cmd, d);
    ErasedOutside(a, su.area.Slt1End(), su.area.sector);
    if IsTurn(e) {
      LogOutside(su.area, d, b);
      ErasedEnd(su.area, a, d);
      SameChain(su.area, a, d, b);
    } else if e.CutStep? {
      P4Target(su, cmd);
      ErasedEnd(su.area, a, b);
    } else {
      TornOutside(su, d, b);
      LogOutside(su.area, d, b);
      ErasedEnd(su.area, a, d);
      SameChain(su.area, a, d, b);
    }
  }

  lemma P4Target(su: Setup, cmd: Cmd)
    requires Phase(cmd.cmd2) == CMD2_SWP_P4
    ensures Target(su.area, su.info, cmd) == (su.area.Slt1End(), su.area.Slt1End() + su.area.sector)
  {
    hide Phase;
  }

  lemma TornOutside(su: Setup, d: seq<byte>, b: seq<byte>)
    requires su.Ok() && Torn(d, b, SwapLog(su.area))
    ensures SameOutside(d, b, SwapLog(su.area).start, SwapLog(su.area).end)
  {
    OkArea(su);
    SwapLogOk(su.area);
    FreeFits(d, SwapLog(su.area), su.area.block);
    hide Setup.Ok, FirstFree, Crc8, Area.Ok;
  }

  // Erasing the end of slot 1, or part of that, leaves the end of slot 0 alone.
  lemma ErasedEnd(area: Area, a: seq<byte>, d: seq<byte>)
    requires area.Ok() && SameOutside(a, d, area.Slt1End(), area.Slt1End() + area.sector)
    ensures SameOn(a, d, area.Slt0End(), area.Slt0End() + area.sector)
    ensures d == Erased(a, area.Slt1End(), area.sector) ==> Blank(d, area.Slt1End(), area.Slt1End() + area.sector)
  {
    LastSectorsApart(area);
    hide Area.Ok;
  }

  lemma SameChain(area: Area, a: seq<byte>, d: seq<byte>, b: seq<byte>)
    requires SameOn(a, d, area.Slt0End(), area.Slt0End() + area.sector)
    requires SameOn(d, b, area.Slt0End(), area.Slt0End() + area.sector)
    requires SameOn(d, b, area.Slt1End(), area.Slt1End() + area.sector)
    ensures SameOn(a, b, area.Slt0End(), area.Slt0End() + area.sector)
    ensures Blank(d, area.Slt1End(), area.Slt1End() + area.sector)
        ==> Blank(b, area.Slt1End(), area.Slt1End() + area.sector)
  {}

  lemma LateIsRecorded(su: Setup, r: seq<byte>)
    requires RunState(su, r) && Ended(su, r) && LastCmd(r, SwapLog(su.area)).Some? && Late(su, r)
    ensures Recorded(su, r, Current(su, r).cmd1)
  {
    hide RunState, Slot0Written, LastCmd, Phase;
    RunBasics(su, r);
  }

  // A finished run leaves its records, from wherever it is taken up.
  lemma {:induction false} RunRecords(su: Setup, mem: seq<byte>)
    requires su.Ok() && HeadersOk(su) && Slot0Fits(su) && RunState(su, mem) && Left(su, mem) <= LogRoom(su, mem)
    requires LastCmd(mem, SwapLog(su.area)).Some? && Late(su, mem)
    ensures 0 <= Left(su, mem)
    ensures Recorded(su, IterN(su.cr, su.area, su.info, mem, Left(su, mem)), Current(su, mem).cmd1)
    decreases LogRoom(su, mem)
  {
    hide Setup.Ok, HeadersOk, Slot0Fits, RunState, Left, LogRoom, LastCmd, SwapLog, Current, Iter, Recorded, Ended,
         Phase, Late, Moves;
    RunBasics(su, mem);
    EndsExactly(su, mem);
    if Left(su, mem) == 0 {
      LateIsRecorded(su, mem);
    } else {
      var r := Iter(su.cr, su.area, su.info, mem);
      TurnEvent(su, mem);
      EventLate(su, mem, Turn, r);
      RunRecords(su, r);
    }
  }

  lemma TurnEvent(su: Setup, mem: seq<byte>)
    requires su.Ok() && RunState(su, mem) && 0 < Left(su, mem) <= LogRoom(su, mem)
    ensures var r := Iter(su.cr, su.area, su.info, mem);
            && Moves(su, su.info, mem, Turn, r) && RunState(su, r) && LastCmd(r, SwapLog(su.area)).Some?
            && Left(su, r) == Left(su, mem) - 1 && LogRoom(su, r) == LogRoom(su, mem) - 1
  {
    hide Setup.Ok, Intact, NextCmd, Iter, CmdOk, Remaining, Going;
    StateIs(su, mem);
    LeftPositive(su, Current(su, mem));
    CmdNoError(su, mem);
    IterKeeps(su, mem);
  }

  lemma CmdNoError(su: Setup, mem: seq<byte>)
    requires RunState(su, mem)
    ensures Current(su, mem).cmd1 != CMD1_ERROR
  {
    hide Intact, Inplace, LastCmd;
  }

  // Any number of power losses leads to the same records.
  lemma {:induction false} CrashLate(su: Setup, ms: seq<seq<byte>>, es: seq<Event>, infos: seq<SwpInfo>)
    requires su.Ok() && HeadersOk(su) && Slot0Fits(su) && IsRun(su, ms, es, infos) && ms[0] == su.mem0
    requires forall j :: 0 <= j < |infos| ==> infos[j] == su.info
    requires Started(su) && Left(su, su.mem0) + TornRecords(es) <= LogRoom(su, su.mem0)
    ensures RunState(su, ms[|es|]) && LastCmd(ms[|es|], SwapLog(su.area)).Some? && Late(su, ms[|es|])
    ensures Current(su, ms[|es|]).cmd1 == Current(su, su.mem0).cmd1
  {
    hide Setup.Ok, HeadersOk, Slot0Fits, RunState, Left, LogRoom, LastCmd, SwapLog, Current, Moves, Started, Late;
    StartState(su);
    StartLate(su);
    if es != [] {
      var n := |es| - 1;
      CrashLate(su, ms[..n + 1], es[..n], infos[..n + 1]);
      CrashSafe(su, ms[..n + 1], es[..n], infos[..n + 1]);
      assert Moves(su, infos[n], ms[n], es[n], ms[n + 1]);
      StillRoom(su, ms[n], infos[n], es[n], ms[n + 1]);
      EventLate(su, ms[n], es[n], ms[n + 1]);
    }
  }

  lemma StartLate(su: Setup)
    requires su.Ok() && Started(su)
    ensures LastCmd(su.mem0, SwapLog(su.area)).Some? && Late(su, su.mem0)
  {
    hide Setup.Ok, Slot0Written, LastCmd;
  }

  lemma CrashRecords(su: Setup, ms: seq<seq<byte>>, es: seq<Event>, infos: seq<SwpInfo>)
    requires su.Ok() && HeadersOk(su) && Slot0Fits(su) && IsRun(su, ms, es, infos) && ms[0] == su.mem0
    requires forall j :: 0 <= j < |infos| ==> infos[j] == su.info
    requires Started(su) && Left(su, su.mem0) + TornRecords(es) <= LogRoom(su, su.mem0)
    requires Ended(su, ms[|es|])
    ensures Recorded(su, ms[|es|], Current(su, su.mem0).cmd1)
  {
    hide Setup.Ok, HeadersOk, Slot0Fits, RunState, Left, LogRoom, LastCmd, SwapLog, Current, Moves, Started, Late,
         IsRun, Ended, Recorded;
    assert |ms| == |es| + 1 by { RunLength(su, ms, es, infos); }
    CrashLate(su, ms, es, infos);
    LateIsRecorded(su, ms[|es|]);
  }

  lemma RunLength(su: Setup, ms: seq<seq<byte>>, es: seq<Event>, infos: seq<SwpInfo>)
    requires IsRun(su, ms, es, infos)
    ensures |ms| == |es| + 1
  {
    hide Moves;
  }
}
