// Sequences of boots, each run to its end: restores, permanence, the address booted, and image versions.
module BootRuns {
  import opened AfterSwap
  import opened Boot
  import opened BootLaws
  import opened Bytes
  import opened CmdLog
  import opened Digest
  import opened Finish
  import opened Flash
  import opened Header
  import opened Images
  import opened Params
  import opened Recovery
  import opened Runs
  import opened Swap

  // What a boot leaves in flash when it is not disturbed and no swap was going on: ImgSwap, with the swap that the
  // start command describes.
  function BootFlash(cr: Crypto, area: Area, mem: seq<byte>): (r: seq<byte>)
    requires area.sector > 0
  {
    var d := Prepare(cr, area, mem);
    var c := LastCmd(d.mem, SwapLog(area));
    if !d.swap || c.None? then d.mem
    else var su := FreshSetup(cr, area, d.mem, c.value);
         IterN(cr, area, su.info, d.mem, Max(0, Remaining(su, c.value)))
  }

  function BootN(cr: Crypto, area: Area, mem: seq<byte>, n: nat): seq<byte>
    requires area.sector > 0
    decreases n
  {
    if n == 0 then mem else BootN(cr, area, BootFlash(cr, area, mem), n - 1)
  }

  // BootFlash is what ImgSwap does when it starts a swap afresh.
  lemma BootIsImgSwap(cr: Crypto, area: Area, mem: seq<byte>, su: Setup, r: seq<byte>)
    requires area.sector > 0
    requires var d := Prepare(cr, area, mem);
             && SwapDone(su, d, r)
             && (d.swap ==> su.cr == cr && su.area == area && LastCmd(d.mem, SwapLog(area)).Some?
                            && su == FreshSetup(cr, area, d.mem, LastCmd(d.mem, SwapLog(area)).value))
    ensures BootFlash(cr, area, mem) == r
  {
    hide Prepare, IterN, Ended, Swapped, LastCmd, FreshSetup, Remaining, SwapInfoOf;
  }

  // ----- a swap started afresh -----

  lemma FreshRun(cr: Crypto, area: Area, mem: seq<byte>, m: seq<byte>, c: Cmd, su: Setup)
    requires area.sector > 0 && Prepare(cr, area, mem) == Decision(true, true, m)
    requires LastCmd(m, SwapLog(area)) == Some(c)
    requires su == FreshSetup(cr, area, m, c) && su.Ok() && HeadersOk(su) && Slot0Fits(su) && IsStart(c)
    requires Remaining(su, c) <= Room(m, SwapLog(area))
    ensures var r := BootFlash(cr, area, mem);
            RunState(su, r) && Ended(su, r) && Swapped(su, r) && Recorded(su, r, c.cmd1)
  {
    hide Setup.Ok, HeadersOk, Slot0Fits, Prepare, IterN, Ended, Swapped, Recorded, RunState, LastCmd, FreshSetup,
         SwapInfoOf, Remaining, Room, IsStart, Started;
    FreshIs(cr, area, m, c);
    HeadersStarted(su);
    StartState(su);
    StartLeft(su, c);
    FullSwap(su);
    RunToEnd(su, m);
    StartLate(su);
    RunRecords(su, m);
  }

  lemma FreshIs(cr: Crypto, area: Area, m: seq<byte>, c: Cmd)
    ensures var su := FreshSetup(cr, area, m, c); su.cr == cr && su.area == area && su.mem0 == m
  {}

  lemma HeadersStarted(su: Setup)
    requires HeadersOk(su)
    ensures Started(su)
  {}

  lemma StartLeft(su: Setup, c: Cmd)
    requires su.Ok() && RunState(su, su.mem0) && LastCmd(su.mem0, SwapLog(su.area)) == Some(c) && IsStart(c)
    ensures Remaining(su, c) >= 2 && su.area.sector > 0
  {
    hide Intact, LastCmd, EncOk, Sectors, Area.Ok;
    SectorsNotNegative(su);
  }

  lemma SectorsNotNegative(su: Setup)
    requires su.area.sector > 0
    ensures su.OldSectors() >= 0 && su.AllSectors() >= 0
  {}

  // ----- restore -----

  // How many records the swap log holds after its erase.
  function LogSize(area: Area): nat {
    area.swpstat_size / (if area.block == 8 then 8 else 4)
  }

  // What the swap back starts from.
  ghost predicate BackReady(su: Setup, back: Setup, r: seq<byte>, c: Cmd) {
    && back.cr == su.cr && back.area == su.area && !back.inplace
    && back.mem0 == WithStart(su.area, r, c) && back == FreshSetup(su.cr, su.area, back.mem0, c)
    && back.Ok() && HeadersOk(back) && Slot0Fits(back) && BothValid(su) && back.info == BackInfo(su)
    && back.info.EndTo() == su.NewLen() && back.info.EndFr() == Slt1Len(su)
    && LastCmd(back.mem0, SwapLog(su.area)) == Some(c)
    && Room(back.mem0, SwapLog(su.area)) == su.area.swpstat_size / SwapLog(su.area).stride - 1
    && Swapped(su, back.mem0)
    && SameOutside(r, back.mem0, su.area.swpstat_offset, su.area.swpstat_offset + su.area.swpstat_size)
  }

  lemma BackStarts(su: Setup, back: Setup, r: seq<byte>, c: Cmd)
    requires su.Ok() && HeadersOk(su) && !su.inplace
    requires RunState(su, r) && Ended(su, r) && Swapped(su, r) && IsStart(c) && !Inplace(c.cmd2)
    requires back == FreshSetup(su.cr, su.area, WithStart(su.area, r, c), c)
    ensures BackReady(su, back, r, c)
  {
    hide Setup.Ok, HeadersOk, Slot0Fits, RunState, Ended, Swapped, LastCmd, WithStart, Intact, SwapInfoOf, BackInfo,
         BothValid, Started, Phase, TailBlank, Room, IsStart, Inplace, SameOutside;
    EndPos(su, r);
    StartLogged(su.area, r, c);
    StartKeeps(su, PosOf(su.area.sector, Current(su, r)), r, c);
    BackHeaders(su, back, PosOf(su.area.sector, Current(su, r)), c);
    SwappedElsewhere(su, r, back.mem0);
  }

  // What was in slot 0 is back: the images are as before, and slot 0 reads as before.
  ghost predicate Undone(su: Setup, mem: seq<byte>) {
    ImagesAsBefore(su, mem) && ReadInfo(su.cr, mem, su.area, 0, 0) == ReadInfo(su.cr, su.mem0, su.area, 0, 0)
  }

  // The swap that the boot after a temporary swap does.
  function BackSetup(su: Setup, r: seq<byte>, cmd1: byte): Setup {
    FreshSetup(su.cr, su.area, WithStart(su.area, r, RestoreCmd(cmd1)), RestoreCmd(cmd1))
  }

  // It runs to its end, and leaves its own records.
  lemma RestoreRuns(su: Setup, r: seq<byte>, cmd1: byte)
    requires su.Ok() && HeadersOk(su) && !su.inplace
    requires RunState(su, r) && Ended(su, r) && Swapped(su, r) && Recorded(su, r, cmd1) && !Permanent(cmd1)
    requires su.NewSectors() + 2 * su.AllSectors() + 5 <= LogSize(su.area)
    ensures su.area.sector > 0
    ensures var back, r2 := BackSetup(su, r, cmd1), BootFlash(su.cr, su.area, r);
            && BackReady(su, back, r, RestoreCmd(cmd1)) && RunState(back, r2) && Ended(back, r2) && Swapped(back, r2)
            && Recorded(back, r2, RestoreCmd(cmd1).cmd1)
  {
    hide *;
    var c := RestoreCmd(cmd1);
    var back := BackSetup(su, r, cmd1);
    BackSetupIs(su, r, cmd1);
    RestoreIsStart(cmd1);
    BackStarts(su, back, r, c);
    BackParts(su, back, r, c);
    OkArea(su);
    NextBoot(su, r, cmd1);
    BackBudget(su, back, c, back.mem0);
    FreshRun(su.cr, su.area, r, back.mem0, c, back);
  }

  lemma BackSetupIs(su: Setup, r: seq<byte>, cmd1: byte)
    ensures BackSetup(su, r, cmd1)
         == FreshSetup(su.cr, su.area, WithStart(su.area, r, RestoreCmd(cmd1)), RestoreCmd(cmd1))
  {
    hide FreshSetup, WithStart, RestoreCmd;
  }

  lemma BackParts(su: Setup, back: Setup, r: seq<byte>, c: Cmd)
    requires BackReady(su, back, r, c)
    ensures back.cr == su.cr && back.area == su.area && !back.inplace
    ensures back.mem0 == WithStart(su.area, r, c) && back == FreshSetup(su.cr, su.area, back.mem0, c)
    ensures back.Ok() && HeadersOk(back) && Slot0Fits(back) && BothValid(su) && back.info == BackInfo(su)
    ensures back.info.EndTo() == su.NewLen() && back.info.EndFr() == Slt1Len(su)
    ensures LastCmd(back.mem0, SwapLog(su.area)) == Some(c) && Swapped(su, back.mem0)
    ensures SwapLog(su.area).stride > 0
    ensures Room(back.mem0, SwapLog(su.area)) == su.area.swpstat_size / SwapLog(su.area).stride - 1
    ensures SameOutside(r, back.mem0, su.area.swpstat_offset, su.area.swpstat_offset + su.area.swpstat_size)
  {
    hide Setup.Ok, HeadersOk, Slot0Fits, Swapped, LastCmd, Room, WithStart, FreshSetup, SameOutside, BackInfo,
         BothValid, SwpInfo.EndTo, SwpInfo.EndFr, Setup.NewLen, Slt1Len;
  }

  // The boot after a temporary swap leaves a final state. It undoes the swap, octet for octet, if and only if there
  // was an image in slot 0; a temporary swap into an empty slot 0 stays, with both slots as the swap left them.
  lemma RestoreUndoes(su: Setup, r: seq<byte>, cmd1: byte)
    requires su.Ok() && HeadersOk(su) && !su.inplace
    requires RunState(su, r) && Ended(su, r) && Swapped(su, r) && Recorded(su, r, cmd1) && !Permanent(cmd1)
    requires su.NewSectors() + 2 * su.AllSectors() + 5 <= LogSize(su.area)
    ensures su.area.sector > 0
    ensures var r2 := BootFlash(su.cr, su.area, r);
            && BootFlash(su.cr, su.area, r2) == r2 && ImagesAsBefore(su, r2)
            && (Undone(su, r2) <==> su.OldLen() > 0)
            && (su.OldLen() <= 0 ==>
                  && SameOn(r2, r, su.area.slt0_offset, su.area.slt0_offset + su.NewLen())
                  && SameOn(r2, r, su.area.slt1_offset, su.area.slt1_offset + su.NewLen()))
  {
    hide *;
    RestoreRuns(su, r, cmd1);
    var c, back := RestoreCmd(cmd1), BackSetup(su, r, cmd1);
    var r2 := BootFlash(su.cr, su.area, r);
    BackParts(su, back, r, c);
    RestoreIsStart(cmd1);
    ThereAndBack(su, back, r2);
    RestoredIsFinal(back, r2, c.cmd1);
    if su.OldLen() > 0 {
      OldReadsBack(su, r2);
    } else {
      NewStaysRead(su, back, r2);
      SlotsThrough(su, r, back.mem0, r2);
    }
  }

  // The header of the old image came back with it.
  lemma OldReadsBack(su: Setup, mem: seq<byte>)
    requires su.Ok() && HeadersOk(su) && !su.inplace && su.OldLen() > 0 && ImagesAsBefore(su, mem)
    ensures Undone(su, mem)
  {
    hide Setup.Ok, HeadersOk, ReadInfo, Magic, TlvAreaSize, TlvArea;
    HeadersLoaded(su);
    LoadedFrom(su);
    hide Loaded, KeepForRam;
    SameHeader(su.cr, su.area, su.mem0, mem, 0);
  }

  // Slot 0 reads as an image, where there was none before.
  lemma NewStaysRead(su: Setup, back: Setup, r2: seq<byte>)
    requires su.Ok() && HeadersOk(su) && !su.inplace && su.OldLen() <= 0
    requires back.cr == su.cr && back.area == su.area && !back.inplace && back.Ok() && HeadersOk(back)
    requires back.info.EndFr() == Slt1Len(su) && RunState(back, r2) && Ended(back, r2)
    ensures !Undone(su, r2)
  {
    hide Setup.Ok, HeadersOk, RunState, Ended, ReadInfo, Intact, ImagesAsBefore, Phase, Setup.OldLen, Setup.NewLen;
    EndPos(back, r2);
    FinalSlots(back, PosOf(back.area.sector, Current(back, r2)), r2);
    AtStart(su);
    AtStart(back);
    NewHasLength(su);
    NoOldInfo(su);
  }

  lemma NewHasLength(su: Setup)
    requires su.Ok() && HeadersOk(su) && !su.inplace
    ensures su.NewLen() > 0
  {
    hide Setup.Ok, HeadersOk, Magic;
    HeadersLoaded(su);
    LoadedFrom(su);
    hide Loaded, KeepForRam, ReadInfo;
  }

  lemma NoOldInfo(su: Setup)
    requires su.Ok() && HeadersOk(su) && !su.inplace && su.OldLen() <= 0
    ensures var j := ReadInfo(su.cr, su.mem0, su.area, 0, 0); !j.is_valid || j.end <= su.area.slt0_offset
  {
    hide Setup.Ok, HeadersOk, ReadInfo, HeaderIn;
    HeadersLoaded(su);
    LoadedFrom(su);
    AtStart(su);
    hide Loaded;
  }

  lemma SlotsThrough(su: Setup, r: seq<byte>, m: seq<byte>, r2: seq<byte>)
    requires su.Ok() && !su.inplace
    requires SameOutside(r, m, su.area.swpstat_offset, su.area.swpstat_offset + su.area.swpstat_size)
    requires SameOn(r2, m, su.area.slt0_offset, su.area.slt0_offset + su.NewLen())
    requires SameOn(r2, m, su.area.slt1_offset, su.area.slt1_offset + su.NewLen())
    ensures SameOn(r2, r, su.area.slt0_offset, su.area.slt0_offset + su.NewLen())
    ensures SameOn(r2, r, su.area.slt1_offset, su.area.slt1_offset + su.NewLen())
  {
    OkArea(su);
    SwapApart(su.area);
    NewFits(su);
    hide Setup.Ok, Area.Ok, Setup.NewLen;
  }

  lemma NewFits(su: Setup)
    requires su.Ok() && !su.inplace
    ensures su.NewLen() <= su.area.slt0_size && su.NewLen() <= su.area.slt1_size
  {
    hide Sectors, EncOk;
  }

  lemma RestoreIsStart(cmd1: byte)
    requires !Permanent(cmd1)
    ensures IsStart(RestoreCmd(cmd1)) && !Inplace(RestoreCmd(cmd1).cmd2) && Permanent(RestoreCmd(cmd1).cmd1)
  {}

  lemma BackBudget(su: Setup, back: Setup, c: Cmd, m: seq<byte>)
    requires su.area.Ok() && back.area == su.area && !su.inplace && !back.inplace && IsStart(c)
    requires back.info.EndTo() == su.NewLen() && back.info.EndFr() == Slt1Len(su)
    requires Room(m, SwapLog(su.area)) == su.area.swpstat_size / SwapLog(su.area).stride - 1
    requires su.NewSectors() + 2 * su.AllSectors() + 5 <= LogSize(su.area)
    ensures Remaining(back, c) <= Room(m, SwapLog(su.area))
  {
    hide Sectors, Room, Area.Ok;
  }

  // A swap's result depends on the slots only.
  lemma SwappedElsewhere(su: Setup, a: seq<byte>, b: seq<byte>)
    requires su.Ok() && Swapped(su, a)
    requires SameOutside(a, b, su.area.swpstat_offset, su.area.swpstat_offset + su.area.swpstat_size)
    requires HeadersOk(su) && !su.inplace
    ensures Swapped(su, b)
  {
    hide Setup.Ok, HeadersOk, NewAfter, OldAfter, ReadInfo, Area.Ok, Setup.OldLen, Setup.NewLen, SwpInfo.EndFr,
         SwpInfo.EndTo, SwapLog, Swapped;
    PlaceFacts(su);
    AtStart(su);
    ImagesFit(su);
    ApartSlots(su.area, a, b);
    SwappedSame(su, a, b);
  }

  lemma ApartSlots(area: Area, a: seq<byte>, b: seq<byte>)
    requires area.Ok() && SameOutside(a, b, area.swpstat_offset, area.swpstat_offset + area.swpstat_size)
    ensures SameOn(a, b, area.slt0_offset, area.slt0_offset + area.slt0_size)
    ensures SameOn(a, b, area.slt1_offset, area.slt1_offset + area.slt1_size)
  {
    SwapApart(area);
    assert SwapLog(area).start == area.swpstat_offset && SwapLog(area).end == area.swpstat_offset + area.swpstat_size;
    hide Area.Ok;
  }

  lemma SwappedSame(su: Setup, a: seq<byte>, b: seq<byte>)
    requires Swapped(su, a) && !su.inplace
    requires su.info.EndFr() <= su.area.slt0_size && su.info.EndFr() <= su.area.slt1_size
    requires su.info.EndTo() <= su.area.slt1_size
    requires SameOn(a, b, su.area.slt0_offset, su.area.slt0_offset + su.area.slt0_size)
    requires SameOn(a, b, su.area.slt1_offset, su.area.slt1_offset + su.area.slt1_size)
    ensures Swapped(su, b)
  {
    hide NewAfter, OldAfter, SwpInfo.EndFr, SwpInfo.EndTo;
    forall i {:trigger NewAfter(su, i)} | 0 <= i < su.info.EndFr()
      ensures At(b, su.area.slt0_offset + i) == NewAfter(su, i)
    {
      assert At(a, su.area.slt0_offset + i) == NewAfter(su, i);
    }
    forall i {:trigger OldAfter(su, i)} | 0 <= i < su.info.EndTo()
      ensures At(b, su.area.slt1_offset + i) == OldAfter(su, i)
    {
      assert At(a, su.area.slt1_offset + i) == OldAfter(su, i);
    }
  }

  lemma ImagesFit(su: Setup)
    requires su.Ok() && !su.inplace
    ensures su.info.EndFr() <= su.area.slt0_size && su.info.EndTo() <= su.area.slt1_size
    ensures SwapLog(su.area).start == su.area.swpstat_offset
    ensures SwapLog(su.area).end == su.area.swpstat_offset + su.area.swpstat_size
  {
    hide Sectors, EncOk;
  }

  // ----- power lost while a swap is being started -----

  // The check of the image in slot 1 depends on that image and the parameters only.
  lemma SameAcceptance(cr: Crypto, area: Area, a: seq<byte>, b: seq<byte>)
    requires SameOn(a, b, area.slt1_offset, area.slt1_offset + area.slt1_size)
    requires SameOn(a, b, area.Slt0End(), area.Slt0End() + PRM_BYTES)
    requires 72 <= area.slt1_size && TlvAreaSize(a, area.slt1_offset) <= area.slt1_size
    requires ReadInfo(cr, a, area, 1, 0).end <= area.slt1_offset + area.slt1_size
    ensures Acceptance(cr, area, a) == Acceptance(cr, area, b)
  {
    SamePrmAt(a, b, area.Slt0End());
    SameChecked(cr, area, a, b);
    hide CheckedInfo, PrmAt, VersionU32;
  }

  lemma SameChecked(cr: Crypto, area: Area, a: seq<byte>, b: seq<byte>)
    requires SameOn(a, b, area.slt1_offset, area.slt1_offset + area.slt1_size)
    requires 72 <= area.slt1_size && TlvAreaSize(a, area.slt1_offset) <= area.slt1_size
    requires ReadInfo(cr, a, area, 1, 0).end <= area.slt1_offset + area.slt1_size
    ensures CheckedInfo(cr, a, area, 1) == CheckedInfo(cr, b, area, 1)
  {
    var h := area.slt1_offset;
    SameArea(a, b, h);
    if Magic(a, h) == TLV_AREA_MAGIC {
      var i := ParseInfo(cr, TlvArea(a, h), h, None);
      InfoBounds(cr, TlvArea(a, h), h, None);
      SameSlice(a, b, h, h + area.slt1_size, i.start, i.end - i.start);
    }
    hide ParseInfo, Magic, TlvArea, TlvAreaSize, Signature, Slice, SameOn;
  }

  // Whatever power lost while a swap was being started has left in the swap status area: the next boot starts the same
  // swap on the same flash if and only if that does not look like a swap going on, or is the start completed.
  lemma CutStart(cr: Crypto, area: Area, mem: seq<byte>, cut: seq<byte>)
    requires area.Ok() && |mem| == area.flash_size && TailBlank(mem, Slt0Log(area)) && !SwapGoing(area, mem)
    requires Prepare(cr, area, mem).swap
    requires SameOutside(mem, cut, area.swpstat_offset, area.swpstat_offset + area.swpstat_size)
    requires 72 <= area.slt1_size && TlvAreaSize(mem, area.slt1_offset) <= area.slt1_size
    requires ReadInfo(cr, mem, area, 1, 0).end <= area.slt1_offset + area.slt1_size
    ensures Prepare(cr, area, cut) == Prepare(cr, area, mem)
        <==> !SwapGoing(area, cut) || cut == Prepare(cr, area, mem).mem
  {
    hide *;
    if SwapGoing(area, cut) {
      GoingOn(cr, area, cut);
      StartsAnew(cr, area, mem);
    } else {
      CutNotGoing(cr, area, mem, cut);
    }
  }

  lemma GoingOn(cr: Crypto, area: Area, mem: seq<byte>)
    requires SwapGoing(area, mem)
    ensures Prepare(cr, area, mem) == Decision(true, true, mem)
  {
    hide SwapGoing;
  }

  lemma StartsAnew(cr: Crypto, area: Area, mem: seq<byte>)
    requires !SwapGoing(area, mem) && Prepare(cr, area, mem).swap
    ensures Prepare(cr, area, mem) == Decision(true, true, Prepare(cr, area, mem).mem)
  {
    hide SwapGoing, Request, Restore, AfterMakePermanent, WithStart, LastCmd, Slt0Log;
  }

  lemma CutNotGoing(cr: Crypto, area: Area, mem: seq<byte>, cut: seq<byte>)
    requires area.Ok() && |mem| == area.flash_size && TailBlank(mem, Slt0Log(area)) && !SwapGoing(area, mem)
    requires Prepare(cr, area, mem).swap && !SwapGoing(area, cut)
    requires SameOutside(mem, cut, area.swpstat_offset, area.swpstat_offset + area.swpstat_size)
    requires 72 <= area.slt1_size && TlvAreaSize(mem, area.slt1_offset) <= area.slt1_size
    requires ReadInfo(cr, mem, area, 1, 0).end <= area.slt1_offset + area.slt1_size
    ensures Prepare(cr, area, cut) == Prepare(cr, area, mem)
  {
    hide Area.Ok, SwapGoing, Acceptance, LastCmd, ReadInfo, WithStart, AfterMakePermanent, Slt0Log, Slt1Log,
         SameOutside, TlvAreaSize, Room, TailBlank, PermanentCmd, Requested, Permanent;
    CutRegions(area, mem, cut);
    SameAcceptance(cr, area, mem, cut);
    MarkRecords(area, mem);
    MarkRecords(area, cut);
    PermanentIs(LastCmd(mem, Slt0Log(area)));
    CutWith(area, mem, cut);
    assert Request(cr, area, cut) == Request(cr, area, mem);
  }

  lemma CutRegions(area: Area, a: seq<byte>, b: seq<byte>)
    requires area.Ok() && SameOutside(a, b, area.swpstat_offset, area.swpstat_offset + area.swpstat_size)
    ensures |a| == |b| && SameOn(a, b, area.slt1_offset, area.slt1_offset + area.slt1_size)
    ensures SameOn(a, b, area.Slt0End(), area.Slt0End() + PRM_BYTES)
    ensures LastCmd(a, Slt1Log(area)) == LastCmd(b, Slt1Log(area))
    ensures LastCmd(a, Slt0Log(area)) == LastCmd(b, Slt0Log(area))
    ensures Room(a, Slt0Log(area)) == Room(b, Slt0Log(area))
    ensures TailBlank(a, Slt0Log(area)) ==> TailBlank(b, Slt0Log(area))
  {
    Slt0LogOk(area);
    Slt1LogOk(area);
    SwapApart(area);
    assert SwapLog(area).start == area.swpstat_offset && SwapLog(area).end == area.swpstat_offset + area.swpstat_size;
    assert PRM_BYTES < area.sector <= area.slt0_size && area.sector <= area.slt1_size;
    hide Area.Ok, Commands, FirstFree, Records, Log.Ok, TailBlank;
    SameLog(a, b, Slt0Log(area), area.block);
    SameLog(a, b, Slt1Log(area), area.block);
  }

  lemma CutWith(area: Area, a: seq<byte>, b: seq<byte>)
    requires SameOutside(a, b, area.swpstat_offset, area.swpstat_offset + area.swpstat_size)
    ensures forall c :: WithStart(area, a, c) == WithStart(area, b, c)
  {
    SameEverywhere(Erased(a, area.swpstat_offset, area.swpstat_size), Erased(b, area.swpstat_offset,
                   area.swpstat_size));
  }

  // In particular after the erase, and with the start record cut short.
  lemma CutStartRecord(cr: Crypto, area: Area, mem: seq<byte>, cut: seq<byte>)
    requires area.Ok() && |mem| == area.flash_size && TailBlank(mem, Slt0Log(area)) && !SwapGoing(area, mem)
    requires Prepare(cr, area, mem).swap
    requires var e := Erased(mem, area.swpstat_offset, area.swpstat_size); cut == e || Torn(e, cut, SwapLog(area))
    requires 72 <= area.slt1_size && TlvAreaSize(mem, area.slt1_offset) <= area.slt1_size
    requires ReadInfo(cr, mem, area, 1, 0).end <= area.slt1_offset + area.slt1_size
    ensures Prepare(cr, area, cut) == Prepare(cr, area, mem)
  {
    var e, log := Erased(mem, area.swpstat_offset, area.swpstat_size), SwapLog(area);
    hide Area.Ok, Prepare, ReadInfo, TlvAreaSize, Torn, Erased, TailBlank, Log.Ok, Commands, FirstFree, Records;
    ErasedSwapLog(area, mem);
    ErasedOutside(mem, area.swpstat_offset, area.swpstat_size);
    if cut != e {
      TornKeepsCommands(e, cut, log, area.block);
      TornInside(area, mem, e, cut);
    }
    CutStart(cr, area, mem, cut);
  }

  lemma TornInside(area: Area, mem: seq<byte>, e: seq<byte>, cut: seq<byte>)
    requires area.Ok() && Torn(e, cut, SwapLog(area))
    requires FirstFree(e, SwapLog(area).start, SwapLog(area)) == SwapLog(area).start
    requires SameOutside(mem, e, area.swpstat_offset, area.swpstat_offset + area.swpstat_size)
    ensures SameOutside(mem, cut, area.swpstat_offset, area.swpstat_offset + area.swpstat_size)
  {
    hide FirstFree, Crc8;
  }

  lemma RestoredIsFinal(su: Setup, r: seq<byte>, cmd1: byte)
    requires su.Ok() && RunState(su, r) && Ended(su, r) && Recorded(su, r, cmd1) && Permanent(cmd1)
    ensures su.area.sector > 0 && BootFlash(su.cr, su.area, r) == r
  {
    hide Setup.Ok, RunState, Ended, Recorded, Prepare, LastCmd, IterN;
    StateIs(su, r);
    NextBoot(su, r, cmd1);
  }

  // Exactly one restore: after a temporary swap, however many boots follow, the first one puts both images back and
  // the others change nothing at all, if and only if there was an image in slot 0. If there was none, no number of
  // boots undoes the swap: the new image stays in slot 0, and slot 1 keeps its own.
  lemma {:induction false} ExactlyOneRestore(su: Setup, r: seq<byte>, cmd1: byte, n: nat)
    requires su.Ok() && HeadersOk(su) && !su.inplace
    requires RunState(su, r) && Ended(su, r) && Swapped(su, r) && Recorded(su, r, cmd1) && !Permanent(cmd1)
    requires su.NewSectors() + 2 * su.AllSectors() + 5 <= LogSize(su.area)
    requires n >= 1
    ensures su.area.sector > 0
    ensures var b := BootN(su.cr, su.area, r, n);
            && b == BootFlash(su.cr, su.area, r) && ImagesAsBefore(su, b)
            && (Undone(su, b) <==> su.OldLen() > 0)
            && (su.OldLen() <= 0 ==>
                  && SameOn(b, r, su.area.slt0_offset, su.area.slt0_offset + su.NewLen())
                  && SameOn(b, r, su.area.slt1_offset, su.area.slt1_offset + su.NewLen()))
  {
    hide Setup.Ok, HeadersOk, RunState, Ended, Swapped, Recorded, BootFlash, ImagesAsBefore, Undone, SameOn;
    RestoreUndoes(su, r, cmd1);
    Fixed(su.cr, su.area, BootFlash(su.cr, su.area, r), n - 1);
  }

  lemma {:induction false} Fixed(cr: Crypto, area: Area, mem: seq<byte>, n: nat)
    requires area.sector > 0 && BootFlash(cr, area, mem) == mem
    ensures BootN(cr, area, mem, n) == mem
    decreases n
  {
    hide BootFlash;
    if n > 0 {
      Fixed(cr, area, mem, n - 1);
    }
  }

  // ----- settled states -----

  // No swap is going on or asked for, and the command in slot 0 is permanent.
  ghost predicate Settled(area: Area, mem: seq<byte>) {
    && |mem| == area.flash_size && !SwapGoing(area, mem)
    && NothingAsked(area, mem)
    && LastCmd(mem, Slt0Log(area)).Some? && Permanent(LastCmd(mem, Slt0Log(area)).value.cmd1)
    && TailBlank(mem, Slt0Log(area))
  }

  ghost predicate NothingAsked(area: Area, mem: seq<byte>) {
    LastCmd(mem, Slt1Log(area)).Some? ==> !Requested(LastCmd(mem, Slt1Log(area)).value.cmd1)
  }

  // Only records of slot 0's last sector differ.
  ghost predicate SameButRecords(area: Area, a: seq<byte>, b: seq<byte>) {
    SameOutside(a, b, Slt0Log(area).start, Slt0Log(area).end)
  }

  lemma MarkRecords(area: Area, mem: seq<byte>)
    requires area.Ok() && |mem| == area.flash_size && TailBlank(mem, Slt0Log(area))
    ensures var m := AfterMakePermanent(area, mem);
            && (WantsPermanent(area, mem) && Room(mem, Slt0Log(area)) > 0 ==>
                  LastCmd(m, Slt0Log(area)) == Some(PermanentCmd(LastCmd(mem, Slt0Log(area)))))
            && (!WantsPermanent(area, mem) || Room(mem, Slt0Log(area)) == 0 ==> m == mem)
            && TailBlank(m, Slt0Log(area))
  {
    var log := Slt0Log(area);
    Slt0LogOk(area);
    AppendAddsLast(mem, log, PermanentCmd(LastCmd(mem, log)), area.block);
    hide Area.Ok, Commands, FirstFree, Records, WantsPermanent, PermanentCmd, Append;
  }

  // The make-permanent branch: one record in slot 0 at most, which the next boots find.
  lemma MarkPermanent(area: Area, mem: seq<byte>)
    requires area.Ok() && |mem| == area.flash_size && TailBlank(mem, Slt0Log(area))
    ensures var m := AfterMakePermanent(area, mem);
            && SameButRecords(area, mem, m) && TailBlank(m, Slt0Log(area))
            && SwapGoing(area, m) == SwapGoing(area, mem) && LastCmd(m, Slt1Log(area)) == LastCmd(mem, Slt1Log(area))
            && (WantsPermanent(area, mem) && Room(mem, Slt0Log(area)) > 0 ==>
                  LastCmd(m, Slt0Log(area)) == Some(PermanentCmd(LastCmd(mem, Slt0Log(area)))))
            && (!WantsPermanent(area, mem) || Room(mem, Slt0Log(area)) == 0 ==> m == mem)
  {
    hide Area.Ok, Commands, FirstFree, Records, Record, PermanentCmd, Going, Log.Ok, Slt0Log, Slt1Log, SwapLog,
         TailBlank;
    MarkRecords(area, mem);
    MarkOutside(area, mem);
    Slt1LogOk(area);
    SwapLogOk(area);
    RecordsApart(area);
    SameLog(mem, AfterMakePermanent(area, mem), Slt1Log(area), area.block);
    SameLog(mem, AfterMakePermanent(area, mem), SwapLog(area), area.block);
  }

  lemma MarkOutside(area: Area, mem: seq<byte>)
    requires area.Ok()
    ensures SameButRecords(area, mem, AfterMakePermanent(area, mem))
  {
    Slt0LogOk(area);
    AppendInside(mem, Slt0Log(area), PermanentCmd(LastCmd(mem, Slt0Log(area))), area.block);
    hide Area.Ok, Append, LastCmd, PermanentCmd, WantsPermanent;
  }

  lemma RecordsApart(area: Area)
    requires area.Ok()
    ensures var a, b, c := Slt0Log(area), Slt1Log(area), SwapLog(area);
            && Apart(a.start, a.end - a.start, b.start, b.end - b.start)
            && Apart(a.start, a.end - a.start, c.start, c.end - c.start)
  {}

  // One boot of a settled flash changes no image and nothing else but slot 0's records, and those only when a
  // make-permanent command is still lying in slot 1.
  lemma SettledBoot(cr: Crypto, area: Area, mem: seq<byte>)
    requires area.Ok() && Settled(area, mem)
    ensures Prepare(cr, area, mem).ok && !Prepare(cr, area, mem).swap
    ensures Settled(area, BootFlash(cr, area, mem)) && SameButRecords(area, mem, BootFlash(cr, area, mem))
    ensures !WantsPermanent(area, mem) ==> BootFlash(cr, area, mem) == mem
  {
    var m := AfterMakePermanent(area, mem);
    MarkPermanent(area, mem);
    PermanentIs(LastCmd(mem, Slt0Log(area)));
    hide Area.Ok, AfterMakePermanent, SwapGoing, PermanentCmd, LastCmd, Slt0Log, Slt1Log, SwapLog, WantsPermanent,
         TailBlank, Room, Acceptance, SameOutside, IterN, Requested, Permanent;
    assert Request(cr, area, mem) == None;
    assert Restore(area, m) == None;
  }

  lemma PermanentIs(c: Option<Cmd>)
    ensures Permanent(PermanentCmd(c).cmd1)
  {}

  // From a settled state on, no number of boots changes an image.
  lemma {:induction false} SettledForever(cr: Crypto, area: Area, mem: seq<byte>, n: nat)
    requires area.Ok() && Settled(area, mem)
    ensures Settled(area, BootN(cr, area, mem, n)) && SameButRecords(area, mem, BootN(cr, area, mem, n))
    decreases n
  {
    hide Area.Ok, Settled, BootFlash, SameButRecords, BootN, Prepare, WantsPermanent;
    SectorPositive(area);
    BootNIs(cr, area, mem, n);
    if n > 0 {
      var b := BootFlash(cr, area, mem);
      SettledBoot(cr, area, mem);
      SettledForever(cr, area, b, n - 1);
      RecordsChain(area, mem, b, BootN(cr, area, b, n - 1));
    } else {
      RecordsNone(area, mem);
    }
  }

  lemma BootNIs(cr: Crypto, area: Area, mem: seq<byte>, n: nat)
    requires area.sector > 0
    ensures BootN(cr, area, mem, n) == if n == 0 then mem else BootN(cr, area, BootFlash(cr, area, mem), n - 1)
  {
    hide BootFlash;
  }

  lemma RecordsNone(area: Area, a: seq<byte>)
    ensures SameButRecords(area, a, a)
  {}

  lemma RecordsChain(area: Area, a: seq<byte>, b: seq<byte>, c: seq<byte>)
    requires SameButRecords(area, a, b) && SameButRecords(area, b, c)
    ensures SameButRecords(area, a, c)
  {}

  lemma SectorPositive(area: Area)
    requires area.Ok()
    ensures area.sector > 0
  {}

  // A completed permanent swap (every in-place swap and every restore is one) is settled.
  lemma PermanentSettles(su: Setup, r: seq<byte>, cmd1: byte)
    requires su.Ok() && RunState(su, r) && Ended(su, r) && Recorded(su, r, cmd1) && Permanent(cmd1)
    ensures Settled(su.area, r)
  {
    hide Setup.Ok, RunState, Ended, SwapGoing, LastCmd, Slt0Log, Slt1Log, SwapLog;
    AfterRun(su, r, cmd1);
    RecordedParts(su, r, cmd1);
  }

  lemma RecordedParts(su: Setup, r: seq<byte>, cmd1: byte)
    requires Recorded(su, r, cmd1)
    ensures |r| == su.area.flash_size && TailBlank(r, Slt0Log(su.area))
  {}

  // A make-permanent command written to slot 1 before the boot that would restore: the temporary swap stays, for
  // any number of boots.
  lemma MadePermanent(cr: Crypto, area: Area, mem: seq<byte>, n: nat)
    requires area.Ok() && |mem| == area.flash_size && TailBlank(mem, Slt0Log(area)) && !SwapGoing(area, mem)
    requires NothingAsked(area, mem) && WantsPermanent(area, mem) && Room(mem, Slt0Log(area)) > 0
    requires n >= 1
    ensures area.sector > 0
    ensures Settled(area, BootN(cr, area, mem, n)) && SameButRecords(area, mem, BootN(cr, area, mem, n))
  {
    hide Area.Ok, Settled, BootFlash, SameButRecords, SwapGoing, NothingAsked, WantsPermanent, TailBlank, Room, Slt0Log;
    SectorPositive(area);
    var b := BootFlash(cr, area, mem);
    FirstMakesPermanent(cr, area, mem);
    SettledForever(cr, area, b, n - 1);
    RecordsChain(area, mem, b, BootN(cr, area, b, n - 1));
  }

  lemma FirstMakesPermanent(cr: Crypto, area: Area, mem: seq<byte>)
    requires area.Ok() && |mem| == area.flash_size && TailBlank(mem, Slt0Log(area)) && !SwapGoing(area, mem)
    requires NothingAsked(area, mem) && WantsPermanent(area, mem) && Room(mem, Slt0Log(area)) > 0
    ensures area.sector > 0
    ensures Settled(area, BootFlash(cr, area, mem)) && SameButRecords(area, mem, BootFlash(cr, area, mem))
  {
    var m := AfterMakePermanent(area, mem);
    SectorPositive(area);
    MarkPermanent(area, mem);
    PermanentIs(LastCmd(mem, Slt0Log(area)));
    hide Area.Ok, AfterMakePermanent, SwapGoing, PermanentCmd, LastCmd, Slt0Log, Slt1Log, SwapLog, WantsPermanent,
         TailBlank, Room, Acceptance, SameOutside, IterN, Requested, Permanent, SameButRecords;
    assert Request(cr, area, mem) == None;
    assert Restore(area, m) == None;
  }

  // Exactly when a boot without an accepted request swaps: there is a command in slot 0 that is not permanent, and
  // slot 1 does not ask to make it so, or does in vain because slot 0's records are used up. A request that was
  // refused because of its image still makes permanent when it carries that flag.
  lemma RestoreExact(cr: Crypto, area: Area, mem: seq<byte>)
    requires area.Ok() && |mem| == area.flash_size && TailBlank(mem, Slt0Log(area)) && !SwapGoing(area, mem)
    requires Request(cr, area, mem).None?
    ensures Prepare(cr, area, mem).swap <==>
              && LastCmd(mem, Slt0Log(area)).Some? && !Permanent(LastCmd(mem, Slt0Log(area)).value.cmd1)
              && (WantsPermanent(area, mem) ==> Room(mem, Slt0Log(area)) == 0)
  {
    MarkRecords(area, mem);
    PermanentIs(LastCmd(mem, Slt0Log(area)));
    hide Area.Ok, SwapGoing, LastCmd, Request, WantsPermanent, PermanentCmd, Permanent, AfterMakePermanent, Slt0Log,
         Room, TailBlank, WithStart;
  }

  // ----- the error mark -----

  // A swap command that carries the error mark is never done and never replaced: a boot finds a swap going on, turns
  // away from it, and looks at no request.
  lemma {:induction false} ErrorCommandSticks(cr: Crypto, area: Area, info: SwpInfo, mem: seq<byte>, n: nat)
    requires area.sector > 0 && SwapGoing(area, mem) && LastCmd(mem, SwapLog(area)).value.cmd1 == CMD1_ERROR
    ensures Prepare(cr, area, mem) == Decision(true, true, mem) && IterN(cr, area, info, mem, n) == mem
    decreases n
  {
    hide LastCmd, Request, AfterMakePermanent;
    if n > 0 {
      ErrorCommandSticks(cr, area, info, mem, n - 1);
    }
  }

  lemma {:induction false} StuckForever(cr: Crypto, area: Area, mem: seq<byte>, n: nat)
    requires area.sector > 0 && SwapGoing(area, mem) && LastCmd(mem, SwapLog(area)).value.cmd1 == CMD1_ERROR
    ensures BootN(cr, area, mem, n) == mem
    decreases n
  {
    hide LastCmd, Prepare, IterN, SwapInfoOf, Going, SwapLog;
    var c := LastCmd(mem, SwapLog(area)).value;
    var su := FreshSetup(cr, area, mem, c);
    ErrorCommandSticks(cr, area, su.info, mem, Max(0, Remaining(su, c)));
    Fixed(cr, area, mem, n);
  }

  // Which requests lead to the error mark: cmd1 0x90 and no other, and only for an image that is to run from slot 0.
  lemma ErrorStart(cmd1: byte)
    requires Requested(cmd1)
    ensures StartCmd(cmd1, false).cmd1 == CMD1_ERROR <==> cmd1 == 0x90
    ensures StartCmd(cmd1, true).cmd1 != CMD1_ERROR
    ensures Phase(StartCmd(cmd1, false).cmd2) == CMD2_SWP_START
  {}

  // An accepted request starts its swap with the error mark if and only if it is 0x90 for slot 0. Then the boot only
  // logs the start command, and no number of later boots does anything, whatever is asked for.
  lemma ErrorRequestExact(cr: Crypto, area: Area, mem: seq<byte>, q: Cmd, slt: nat, n: nat)
    requires area.Ok() && |mem| == area.flash_size && !SwapGoing(area, mem) && n >= 1
    requires LastCmd(mem, Slt1Log(area)) == Some(q) && Requested(q.cmd1) && Acceptance(cr, area, mem) == Some(slt)
    ensures area.sector > 0
    ensures var c := StartCmd(q.cmd1, slt == 1);
            && Prepare(cr, area, mem) == Decision(true, true, WithStart(area, mem, c))
            && (c.cmd1 == CMD1_ERROR <==> q.cmd1 == 0x90 && slt != 1)
            && (c.cmd1 == CMD1_ERROR ==> BootN(cr, area, mem, n) == WithStart(area, mem, c))
  {
    hide Area.Ok, SwapGoing, LastCmd, Requested, Acceptance, WithStart, StartCmd, BootFlash;
    var c := StartCmd(q.cmd1, slt == 1);
    SectorPositive(area);
    ErrorStart(q.cmd1);
    if c.cmd1 == CMD1_ERROR {
      ErrorBoot(cr, area, mem, c);
      StuckForever(cr, area, WithStart(area, mem, c), n - 1);
    }
  }

  lemma ErrorBoot(cr: Crypto, area: Area, mem: seq<byte>, c: Cmd)
    requires area.Ok() && |mem| == area.flash_size && c.cmd1 == CMD1_ERROR && Phase(c.cmd2) == CMD2_SWP_START
    requires area.sector > 0
    requires Prepare(cr, area, mem) == Decision(true, true, WithStart(area, mem, c))
    ensures BootFlash(cr, area, mem) == WithStart(area, mem, c)
    ensures SwapGoing(area, WithStart(area, mem, c))
    ensures LastCmd(WithStart(area, mem, c), SwapLog(area)).value.cmd1 == CMD1_ERROR
  {
    hide Area.Ok, LastCmd, Prepare, IterN, SwapInfoOf, WithStart, SwapLog, Room, TailBlank;
    var m := WithStart(area, mem, c);
    var su := FreshSetup(cr, area, m, c);
    StartLogged(area, mem, c);
    ErrorCommandSticks(cr, area, su.info, m, Max(0, Remaining(su, c)));
  }
}
