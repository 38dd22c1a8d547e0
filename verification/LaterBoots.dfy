// What boots later on: after commands written by the application, after a restore, after any number of boots, and
// after a run with power losses.
module LaterBoots {
  import opened AfterSwap
  import opened AsWritten
  import opened Boot
  import opened BootLaws
  import opened BootRuns
  import opened Booted
  import opened Bytes
  import opened CmdLog
  import opened Decisions
  import opened Digest
  import opened Finish
  import opened Flash
  import opened Header
  import opened Images
  import opened Params
  import opened Recovery
  import opened Runs
  import opened Swap

  // ----- the images and parameters of a finished run, whatever has been written beside them -----

  // A finished run with its records.
  ghost predicate Finished(su: Setup, r: seq<byte>, cmd1: byte) {
    && su.Ok() && HeadersOk(su) && Slot0Fits(su) && RunState(su, r) && Ended(su, r) && Recorded(su, r, cmd1)
    && CrcFits(su.cr) && su.area.flash_size <= 0x1_0000_0000
  }

  // What it left is still there: slot 0 up to the end of the parameters, slot 1 below its last sector.
  ghost predicate StillThere(area: Area, r: seq<byte>, b: seq<byte>) {
    && |b| == |r| && SameOn(r, b, area.slt0_offset, area.Slt0End() + PRM_BYTES)
    && SameOn(r, b, area.slt1_offset, area.Slt1End())
  }

  // Where the image that ends up in slot 0 says it is to be loaded: the new one, in place the one that stays there.
  function Slt0Load(su: Setup): nat {
    ReadInfo(su.cr, su.mem0, su.area, if su.inplace then 0 else 1, 0).load_address
  }

  lemma FinishedParts(su: Setup, r: seq<byte>, cmd1: byte)
    requires Finished(su, r, cmd1)
    ensures su.Ok() && HeadersOk(su) && Slot0Fits(su) && RunState(su, r) && Ended(su, r) && Recorded(su, r, cmd1)
    ensures CrcFits(su.cr) && su.area.flash_size <= 0x1_0000_0000 && su.area.Ok() && |r| == su.area.flash_size
    ensures su.area.sector > 0 && LastCmd(r, SwapLog(su.area)).Some?
    ensures Intact(su, PosOf(su.area.sector, Current(su, r)), r)
    ensures FinalPhase(PosOf(su.area.sector, Current(su, r)).phase)
  {
    hide Setup.Ok, HeadersOk, Slot0Fits, RunState, Ended, Recorded, CrcFits, Intact, LastCmd, SwapLog, Area.Ok, PosOf;
    EndPos(su, r);
  }

  // The header of slot `slt` lies in the part that is still there.
  lemma HeaderStays(area: Area, a: seq<byte>, b: seq<byte>, slt: nat)
    requires area.Ok() && StillThere(area, a, b) && slt <= 1 && Readable(a, SlotOffset(area, slt), area.sector)
    requires TLV_HDR_SIZE <= area.sector
    ensures SameHeaderOctets(a, b, SlotOffset(area, slt))
  {
    hide *;
    StillParts(area, a, b);
    FirstSectorFits(area);
    SlotIs(area);
    if slt == 0 {
      SamePart(a, b, area.slt0_offset, area.Slt0End() + PRM_BYTES, area.slt0_offset,
               area.slt0_offset + area.sector);
    } else {
      SamePart(a, b, area.slt1_offset, area.Slt1End(), area.slt1_offset, area.slt1_offset + area.sector);
    }
    ReadableSize(a, SlotOffset(area, slt), area.sector);
    WithinSector(a, b, SlotOffset(area, slt), area.sector);
  }

  lemma FirstSectorFits(area: Area)
    requires area.Ok()
    ensures area.slt1_offset + area.sector <= area.Slt1End()
    ensures area.slt0_offset + area.sector <= area.Slt0End() <= area.Slt0End() + PRM_BYTES
  {}

  lemma ReadableSize(mem: seq<byte>, h: int, sector: nat)
    requires Readable(mem, h, sector)
    ensures Magic(mem, h) == TLV_AREA_MAGIC ==> TlvAreaSize(mem, h) <= sector
  {
    hide Magic, TlvAreaSize, WellFormed, TlvArea;
  }

  // Both slots read as the run left them, and so do their contents.
  lemma SlotStays(su: Setup, r: seq<byte>, cmd1: byte, b: seq<byte>, slt: nat)
    requires Finished(su, r, cmd1) && StillThere(su.area, r, b) && slt <= 1
    ensures ReadInfo(su.cr, b, su.area, slt, 0) == ReadInfo(su.cr, r, su.area, slt, 0)
    ensures SlotCrc(su.cr, su.area, b, slt) == SlotCrc(su.cr, su.area, r, slt)
  {
    hide *;
    FinishedParts(su, r, cmd1);
    var p := PosOf(su.area.sector, Current(su, r));
    FinalIs(p.phase);
    FinalReadable(su, p, r);
    HeadersLoaded(su);
    LoadedSizes(su);
    SlotIs(su.area);
    HeaderStays(su.area, r, b, slt);
    SameHeader(su.cr, su.area, r, b, slt);
    ImageStays(su, r, cmd1, b, slt);
    CrcIs(su.cr, su.area, r, b, slt);
  }

  lemma FinalIs(phase: byte)
    ensures FinalPhase(phase) <==> phase == CMD2_SWP_P3 || phase == CMD2_SWP_P4 || phase == CMD2_SWP_END
  {}

  lemma SlotIs(area: Area)
    ensures SlotOffset(area, 0) == area.slt0_offset && SlotOffset(area, 1) == area.slt1_offset
  {}

  lemma CrcIs(cr: Crypto, area: Area, a: seq<byte>, b: seq<byte>, slt: nat)
    requires ReadInfo(cr, b, area, slt, 0) == ReadInfo(cr, a, area, slt, 0)
    requires var i := ReadInfo(cr, a, area, slt, 0);
             i.start <= i.end && FlashCrc(cr, a, i.start, i.end - i.start) == FlashCrc(cr, b, i.start, i.end - i.start)
    ensures SlotCrc(cr, area, b, slt) == SlotCrc(cr, area, a, slt)
  {
    hide ReadInfo, FlashCrc;
  }

  // The image that a header describes lies in the part that is still there.
  lemma ImageStays(su: Setup, r: seq<byte>, cmd1: byte, b: seq<byte>, slt: nat)
    requires Finished(su, r, cmd1) && StillThere(su.area, r, b) && slt <= 1
    ensures var i := ReadInfo(su.cr, r, su.area, slt, 0);
            i.start <= i.end
            && FlashCrc(su.cr, r, i.start, i.end - i.start) == FlashCrc(su.cr, b, i.start, i.end - i.start)
  {
    hide *;
    FinishedParts(su, r, cmd1);
    StillParts(su.area, r, b);
    var p, i := PosOf(su.area.sector, Current(su, r)), ReadInfo(su.cr, r, su.area, slt, 0);
    FinalIs(p.phase);
    FinalSlots(su, p, r);
    PlaceFacts(su);
    EndsFit(su);
    InfoStarts(su.cr, su.area, r, slt);
    SlotIs(su.area);
    if slt == 1 {
      SameCrc(su.cr, r, b, su.area.slt1_offset, su.area.Slt1End(), i.start, i.end - i.start);
    } else {
      if su.inplace {
        OldSlotZero(su, p, r);
      }
      SameCrc(su.cr, r, b, su.area.slt0_offset, su.area.Slt0End() + PRM_BYTES, i.start, i.end - i.start);
    }
  }

  lemma StillParts(area: Area, r: seq<byte>, b: seq<byte>)
    requires StillThere(area, r, b)
    ensures |b| == |r| && SameOn(r, b, area.slt0_offset, area.Slt0End() + PRM_BYTES)
    ensures SameOn(r, b, area.slt1_offset, area.Slt1End())
  {}

  lemma EndsFit(su: Setup)
    requires su.Ok()
    ensures su.area.slt1_offset + Slt1Len(su) <= su.area.Slt1End() && PRM_BYTES > 0
    ensures !su.inplace ==> su.area.slt0_offset + su.NewLen() <= su.area.Slt0End()
  {
    PlaceFacts(su);
    hide Setup.Ok, Area.Ok, Setup.OldLen, Setup.NewLen;
  }

  lemma OldSlotZero(su: Setup, p: Pos, r: seq<byte>)
    requires su.Ok() && HeadersOk(su) && Slot0Fits(su) && su.inplace && Intact(su, p, r) && FinalPhase(p.phase)
    ensures ReadInfo(su.cr, r, su.area, 0, 0).end <= su.area.Slt0End()
  {
    hide Setup.Ok, HeadersOk, Intact, ReadInfo, SameHeaderOctets, HeaderFrom;
    FinalHeaders(su, p, r);
    SameHeader(su.cr, su.area, su.mem0, r, 0);
  }

  // ----- the address booted -----

  // As long as what a run left is still there, main boots the new image, whatever else has been written since, unless
  // the command in slot 1 asks for slot 0: then it boots the image that is there. (The address 0xffffffff reads as
  // "no parameters", and nothing boots.)
  lemma StillBoots(su: Setup, r: seq<byte>, cmd1: byte, b: seq<byte>, stale: Cmd)
    requires Finished(su, r, cmd1) && StillThere(su.area, r, b)
    ensures BootAddress(su.cr, su.area, b, stale)
         == if NewLoad(su) == EMPTY_U32 then None
            else if Slt1Cmd(su.area, b, stale).cmd1 == CMD1_MASK_BT0_REQUEST then Some(Slt0Load(su))
            else Some(NewLoad(su))
  {
    hide *;
    FinishedParts(su, r, cmd1);
    StillParts(su.area, r, b);
    LastSectorFits(su.area);
    EndsAtSlot(su.area);
    PrmStays(su.area, r, b);
    PrmReadBack(su, r, cmd1);
    RunInfos(su, r);
    LoadIs(su);
    SlotStays(su, r, cmd1, b, 0);
    SlotStays(su, r, cmd1, b, 1);
    AddressIs(su, r, b, stale);
  }

  lemma LoadIs(su: Setup)
    ensures Slt0Load(su) == if su.inplace then ReadInfo(su.cr, su.mem0, su.area, 0, 0).load_address else NewLoad(su)
  {
    hide ReadInfo;
  }

  lemma EndsAtSlot(area: Area)
    requires area.Ok()
    ensures area.slt0_offset <= area.Slt0End()
  {}

  lemma PrmStays(area: Area, r: seq<byte>, b: seq<byte>)
    requires StillThere(area, r, b) && area.slt0_offset <= area.Slt0End()
    ensures PrmAt(b, area.Slt0End()) == PrmAt(r, area.Slt0End())
  {
    hide PrmAt;
    SamePrmAt(r, b, area.Slt0End());
  }

  lemma AddressIs(su: Setup, r: seq<byte>, b: seq<byte>, stale: Cmd)
    requires PrmAt(b, su.area.Slt0End()) == P3Prm(su.cr, su.area, su.inplace, r)
    requires ReadInfo(su.cr, r, su.area, 1, 0).is_valid
    requires SlotCrc(su.cr, su.area, b, 0) == SlotCrc(su.cr, su.area, r, 0)
    requires SlotCrc(su.cr, su.area, b, 1) == SlotCrc(su.cr, su.area, r, 1)
    requires ReadInfo(su.cr, r, su.area, 0, 0).load_address == Slt0Load(su)
    requires (if su.inplace then ReadInfo(su.cr, r, su.area, 1, 0) else ReadInfo(su.cr, r, su.area, 0, 0)).load_address
          == NewLoad(su)
    ensures BootAddress(su.cr, su.area, b, stale)
         == if NewLoad(su) == EMPTY_U32 then None
            else if Slt1Cmd(su.area, b, stale).cmd1 == CMD1_MASK_BT0_REQUEST then Some(Slt0Load(su))
            else Some(NewLoad(su))
  {
    hide ReadInfo, FlashCrc, VersionU32, InSlot, InRam, Slt1Cmd, NewLoad, Slt0Load, PrmAt, Area.Slt0End;
  }

  // ----- any number of later boots -----

  // Settled, or to be settled by the next boot.
  ghost predicate WillSettle(area: Area, mem: seq<byte>, n: nat) {
    || Settled(area, mem)
    || (n >= 1 && |mem| == area.flash_size && TailBlank(mem, Slt0Log(area)) && !SwapGoing(area, mem)
        && NothingAsked(area, mem) && WantsPermanent(area, mem) && Room(mem, Slt0Log(area)) > 0)
  }

  // Then no number of boots changes what boots.
  lemma KeepsBooting(su: Setup, r: seq<byte>, cmd1: byte, mem: seq<byte>, n: nat, stale: Cmd)
    requires Finished(su, r, cmd1) && StillThere(su.area, r, mem) && WillSettle(su.area, mem, n)
    ensures su.area.sector > 0
    ensures BootAddress(su.cr, su.area, BootN(su.cr, su.area, mem, n), stale)
         == if NewLoad(su) == EMPTY_U32 then None
            else if Slt1Cmd(su.area, mem, stale).cmd1 == CMD1_MASK_BT0_REQUEST then Some(Slt0Load(su))
            else Some(NewLoad(su))
  {
    hide *;
    FinishedParts(su, r, cmd1);
    var b := BootN(su.cr, su.area, mem, n);
    StaysSettled(su.cr, su.area, mem, n);
    StillThereAfter(su.area, r, mem, b);
    SameSlt1Cmd(su.area, mem, b, stale);
    StillBoots(su, r, cmd1, b, stale);
  }

  lemma StaysSettled(cr: Crypto, area: Area, mem: seq<byte>, n: nat)
    requires area.Ok() && area.sector > 0 && WillSettle(area, mem, n)
    ensures Settled(area, BootN(cr, area, mem, n)) && SameButRecords(area, mem, BootN(cr, area, mem, n))
  {
    hide Area.Ok, Settled, BootN, SameButRecords, SwapGoing, NothingAsked, WantsPermanent, TailBlank, Room, Slt0Log;
    if Settled(area, mem) {
      SettledForever(cr, area, mem, n);
    } else {
      MadePermanent(cr, area, mem, n);
    }
  }

  lemma StillThereAfter(area: Area, r: seq<byte>, mem: seq<byte>, b: seq<byte>)
    requires area.Ok() && StillThere(area, r, mem) && SameButRecords(area, mem, b)
    ensures StillThere(area, r, b)
  {}

  // Records of slot 0 are no records of slot 1.
  lemma SameSlt1Cmd(area: Area, a: seq<byte>, b: seq<byte>, stale: Cmd)
    requires area.Ok() && SameButRecords(area, a, b)
    ensures Slt1Cmd(area, b, stale) == Slt1Cmd(area, a, stale)
  {
    Slt1LogOk(area);
    RecordsApart(area);
    hide Area.Ok, Commands, FirstFree, Records, Log.Ok, Slt0Log, Slt1Log;
    SameLog(a, b, Slt1Log(area), area.block);
  }

  // The documented flow: after a finished run the application writes a command that asks for no swap to slot 1. If the
  // run was permanent, or the command makes it so and slot 0 has a record left, the new image boots from then on; with
  // the command for slot 0 the image there does.
  lemma CommandBoots(su: Setup, r: seq<byte>, cmd1: byte, q: Cmd, n: nat, stale: Cmd)
    requires Finished(su, r, cmd1) && !Requested(q.cmd1)
    requires Permanent(cmd1) || (Permanent(q.cmd1) && Room(r, Slt0Log(su.area)) > 0 && n >= 1)
    ensures su.area.sector > 0
    ensures var mem := Append(r, Slt1Log(su.area), q);
            && LastCmd(mem, Slt1Log(su.area)) == Some(q)
            && BootAddress(su.cr, su.area, BootN(su.cr, su.area, mem, n), stale)
               == if NewLoad(su) == EMPTY_U32 then None
                  else if q.cmd1 == CMD1_MASK_BT0_REQUEST then Some(Slt0Load(su)) else Some(NewLoad(su))
  {
    hide *;
    FinishedParts(su, r, cmd1);
    var mem := Append(r, Slt1Log(su.area), q);
    Asked(su, r, cmd1, q);
    AskedStays(su.area, r, mem);
    AskedSettles(su, r, cmd1, q, n);
    AskedCommand(su.area, mem, q, stale);
    KeepsBooting(su, r, cmd1, mem, n, stale);
  }

  // The command is the one found in slot 1, and everything else is as it was.
  lemma Asked(su: Setup, r: seq<byte>, cmd1: byte, q: Cmd)
    requires su.Ok() && Recorded(su, r, cmd1) && |r| == su.area.flash_size
    ensures var mem, log := Append(r, Slt1Log(su.area), q), Slt1Log(su.area);
            LastCmd(mem, log) == Some(q) && SameOutside(r, mem, log.start, log.end)
  {
    OkArea(su);
    Slt1Empty(su, r, cmd1);
    Slt1LogOk(su.area);
    hide Setup.Ok, Area.Ok, Commands, FirstFree, Records, Log.Ok, Append, Slt1Log, P3Prm, PrmBytes, Slot0Written;
    var log := Slt1Log(su.area);
    Slt1Blank(su, r, cmd1);
    ErasedLog(r, log, su.area.block);
    AppendAddsLast(r, log, q, su.area.block);
    AppendInside(r, log, q, su.area.block);
    assert [] + [q] == [q];
  }

  lemma Slt1Blank(su: Setup, r: seq<byte>, cmd1: byte)
    requires su.Ok() && Recorded(su, r, cmd1)
    ensures Blank(r, Slt1Log(su.area).start, Slt1Log(su.area).end)
  {
    PlaceFacts(su);
    LastSectorsApart(su.area);
    hide Setup.Ok, Area.Ok, Slot0Written;
  }

  lemma AskedStays(area: Area, r: seq<byte>, mem: seq<byte>)
    requires area.Ok() && SameOutside(r, mem, Slt1Log(area).start, Slt1Log(area).end)
    ensures StillThere(area, r, mem) && |mem| == |r|
    ensures LastCmd(mem, Slt0Log(area)) == LastCmd(r, Slt0Log(area))
    ensures Room(mem, Slt0Log(area)) == Room(r, Slt0Log(area))
    ensures LastCmd(mem, SwapLog(area)) == LastCmd(r, SwapLog(area))
    ensures TailBlank(r, Slt0Log(area)) ==> TailBlank(mem, Slt0Log(area))
  {
    Slt0LogOk(area);
    SwapLogOk(area);
    RecordsApart(area);
    Slt1Apart(area);
    hide Area.Ok, Commands, FirstFree, Records, Log.Ok, Slt0Log, Slt1Log, SwapLog, TailBlank;
    SameLog(r, mem, Slt0Log(area), area.block);
    SameLog(r, mem, SwapLog(area), area.block);
  }

  lemma Slt1Apart(area: Area)
    requires area.Ok()
    ensures var log, s := Slt1Log(area), SwapLog(area);
            && Apart(log.start, log.end - log.start, s.start, s.end - s.start)
            && Apart(log.start, log.end - log.start, area.slt0_offset, area.slt0_size)
            && log.start == area.Slt1End() && area.Slt0End() + PRM_BYTES <= area.slt0_offset + area.slt0_size
  {}

  lemma AskedSettles(su: Setup, r: seq<byte>, cmd1: byte, q: Cmd, n: nat)
    requires Finished(su, r, cmd1) && !Requested(q.cmd1)
    requires Permanent(cmd1) || (Permanent(q.cmd1) && Room(r, Slt0Log(su.area)) > 0 && n >= 1)
    requires var mem := Append(r, Slt1Log(su.area), q);
             && LastCmd(mem, Slt1Log(su.area)) == Some(q) && |mem| == |r|
             && LastCmd(mem, Slt0Log(su.area)) == LastCmd(r, Slt0Log(su.area))
             && Room(mem, Slt0Log(su.area)) == Room(r, Slt0Log(su.area))
             && LastCmd(mem, SwapLog(su.area)) == LastCmd(r, SwapLog(su.area))
             && (TailBlank(r, Slt0Log(su.area)) ==> TailBlank(mem, Slt0Log(su.area)))
    ensures WillSettle(su.area, Append(r, Slt1Log(su.area), q), n)
  {
    FinishedParts(su, r, cmd1);
    AfterRun(su, r, cmd1);
    RecordedParts(su, r, cmd1);
    hide Finished, Setup.Ok, HeadersOk, Recorded, RunState, Ended, LastCmd, Room, TailBlank, Slt0Log, Slt1Log, SwapLog,
         Append, Requested, Permanent, Going, CrcFits;
  }

  lemma AskedCommand(area: Area, mem: seq<byte>, q: Cmd, stale: Cmd)
    requires LastCmd(mem, Slt1Log(area)) == Some(q)
    ensures Slt1Cmd(area, mem, stale) == q
  {
    hide LastCmd, Slt1Log;
  }

  // ----- after a restore -----

  // Where the image that slot 1 holds after a run says it is to be loaded.
  function HeldLoad(su: Setup): nat {
    ReadInfo(su.cr, su.mem0, su.area, if su.OldLen() > 0 then 0 else 1, 0).load_address
  }

  // After a temporary swap and any number of boots the old image boots again; without one, the new image.
  lemma RestoreBoots(su: Setup, r: seq<byte>, cmd1: byte, n: nat, stale: Cmd)
    requires su.Ok() && HeadersOk(su) && !su.inplace
    requires RunState(su, r) && Ended(su, r) && Swapped(su, r) && Recorded(su, r, cmd1) && !Permanent(cmd1)
    requires su.NewSectors() + 2 * su.AllSectors() + 5 <= LogSize(su.area)
    requires CrcFits(su.cr) && su.area.flash_size <= 0x1_0000_0000 && n >= 1
    ensures su.area.sector > 0
    ensures BootAddress(su.cr, su.area, BootN(su.cr, su.area, r, n), stale)
         == if HeldLoad(su) == EMPTY_U32 then None else Some(HeldLoad(su))
  {
    hide *;
    RestoreRuns(su, r, cmd1);
    var back := BackSetup(su, r, cmd1);
    BackParts(su, back, r, RestoreCmd(cmd1));
    ExactlyOneRestore(su, r, cmd1, n);
    BootsNew(back, BootFlash(su.cr, su.area, r), RestoreCmd(cmd1).cmd1, stale);
    BackLoad(su, back);
  }

  lemma BackLoad(su: Setup, back: Setup)
    requires su.Ok() && HeadersOk(su) && !su.inplace && back.Ok() && HeadersOk(back) && !back.inplace
    requires BothValid(su) && back.info == BackInfo(su)
    ensures NewLoad(back) == HeldLoad(su)
  {
    hide Setup.Ok, HeadersOk, ReadInfo, Loaded, HeaderIn;
    HeadersLoaded(su);
    HeadersLoaded(back);
    LoadedFrom(su);
    LoadedFrom(back);
  }

  // ----- after power losses -----

  // However often the power was lost, as long as the code as written recovers: a finished run boots the new image.
  lemma AsWrittenBoots(su: Setup, ms: seq<seq<byte>>, es: seq<Event>, infos: seq<SwpInfo>, stale: Cmd)
    requires su.Ok() && HeadersOk(su) && Slot0Fits(su) && IsRunAsWritten(su, ms, es, infos) && ms[0] == su.mem0
    requires forall j :: 0 <= j < |es| ==> ResetOk(su, es[j], ms[j + 1])
    requires Left(su, su.mem0) + TornRecords(es) <= LogRoom(su, su.mem0)
    requires Ended(su, ms[|es|]) && CrcFits(su.cr) && su.area.flash_size <= 0x1_0000_0000
    ensures BootAddress(su.cr, su.area, ms[|es|], stale)
         == if NewLoad(su) == EMPTY_U32 then None else Some(NewLoad(su))
  {
    assert |ms| == |es| + 1;
    hide *;
    AsWrittenRecords(su, ms, es, infos);
    BootsNew(su, ms[|es|], Current(su, su.mem0).cmd1, stale);
  }

  // ----- a damaged image -----

  // After a finished run a new image that has been damaged since is not booted. In slot 0 or RAM there is nothing else
  // to boot; in slot 1 main falls back to the image in slot 0, unless that one is damaged too.
  lemma DamagedNotBooted(su: Setup, r: seq<byte>, cmd1: byte, b: seq<byte>, stale: Cmd)
    requires Finished(su, r, cmd1) && SameOn(r, b, su.area.Slt0End(), su.area.Slt0End() + PRM_BYTES)
    ensures !su.inplace && (InSlot(su.area, 0, NewLoad(su)) || InRam(su.area, NewLoad(su)))
            && ImageCrc(su.cr, su.area, b, 0) != ImageCrc(su.cr, su.area, r, 0)
        ==> BootAddress(su.cr, su.area, b, stale) == None
    ensures su.inplace && InSlot(su.area, 1, NewLoad(su)) && NewLoad(su) != EMPTY_U32
            && ImageCrc(su.cr, su.area, b, 1) != ImageCrc(su.cr, su.area, r, 1)
        ==> BootAddress(su.cr, su.area, b, stale)
            == if (InSlot(su.area, 0, Slt0Load(su)) || InRam(su.area, Slt0Load(su)))
                  && ImageCrc(su.cr, su.area, b, 0) != ImageCrc(su.cr, su.area, r, 0) then None
               else Some(Slt0Load(su))
  {
    hide *;
    FinishedParts(su, r, cmd1);
    RunRecorded(su, r, cmd1);
    SamePrmAt(r, b, su.area.Slt0End());
    BootedExact(su.cr, su.area, b, stale);
    PrmIs(su.area, b);
    LoadIs(su);
    LoadNew(su);
  }

  lemma PrmIs(area: Area, mem: seq<byte>)
    ensures var p := PrmAt(mem, area.Slt0End());
            PrmRead(mem, area) == if p.pri_ld_address == EMPTY_U32 then None else Some(p)
  {
    hide PrmAt;
  }
}
