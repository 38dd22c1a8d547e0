// What boots after a swap, and the versions on record over histories of boots.
module Booted {
  import opened AfterSwap
  import opened Boot
  import opened BootLaws
  import opened BootRuns
  import opened Bytes
  import opened CmdLog
  import opened Digest
  import opened Finish
  import opened Flash
  import opened Header
  import opened Images
  import opened Params
  import opened Recovery
  import opened Runs
  import opened Swap

  // ----- the image that is booted -----

  // Results of crc32_ieee are 32 bits wide.
  ghost predicate CrcFits(cr: Crypto) {
    forall crc: nat, b: byte :: cr.crcStep(crc, b) < 0x1_0000_0000
  }

  lemma FoldFits(cr: Crypto, s: seq<byte>)
    requires CrcFits(cr)
    ensures CrcFold(cr.crcStep, 0, s) < 0x1_0000_0000
  {}

  // The fields of a header are as wide as the words the parameters store them in.
  lemma InfoFits(cr: Crypto, tlv: seq<byte>, h: nat)
    requires h < 0x1_0000_0000
    ensures var i := ParseInfo(cr, tlv, h, None);
            i.load_address < 0x1_0000_0000 && VersionU32(i.version) < 0x1_0000_0000
  {
    hide Find;
  }

  lemma ReadFits(cr: Crypto, area: Area, mem: seq<byte>, slt: nat)
    requires SlotOffset(area, slt) < 0x1_0000_0000
    ensures var i := ReadInfo(cr, mem, area, slt, 0);
            i.load_address < 0x1_0000_0000 && VersionU32(i.version) < 0x1_0000_0000
  {
    hide ParseInfo, VersionU32, Magic, TlvArea;
    InfoFits(cr, TlvArea(mem, SlotOffset(area, slt)), SlotOffset(area, slt));
    assert VersionU32(ImgVer(0, 0, 0, 0)) == 0 by { NoVersion(); }
  }

  lemma NoVersion()
    ensures VersionU32(ImgVer(0, 0, 0, 0)) == 0
  {}

  lemma PrmOfRunFits(cr: Crypto, area: Area, inplace: bool, mem: seq<byte>)
    requires CrcFits(cr) && area.Ok() && area.flash_size <= 0x1_0000_0000
    ensures PrmFits(P3Prm(cr, area, inplace, mem))
  {
    ReadFits(cr, area, mem, 0);
    ReadFits(cr, area, mem, 1);
    var i0, i1 := ReadInfo(cr, mem, area, 0, 0), ReadInfo(cr, mem, area, 1, 0);
    FoldFits(cr, Slice(mem, i0.start, Max(0, i0.end - i0.start)));
    FoldFits(cr, Slice(mem, i1.start, Max(0, i1.end - i1.start)));
    hide ReadInfo, CrcFold, VersionU32, Area.Ok, CrcFits, Slice;
  }

  // The parameters main reads after a run are those of the images as main finds them.
  lemma PrmReadBack(su: Setup, r: seq<byte>, cmd1: byte)
    requires su.Ok() && Recorded(su, r, cmd1) && CrcFits(su.cr) && su.area.flash_size <= 0x1_0000_0000
    ensures PrmAt(r, su.area.Slt0End()) == P3Prm(su.cr, su.area, su.inplace, r)
  {
    hide Setup.Ok, P3Prm, PrmBytes, LastCmd, Commands, U32, TailBlank, Blank, Area.Ok, PrmFits, CrcFits;
    var off, p := su.area.Slt0End(), P3Prm(su.cr, su.area, su.inplace, r);
    OkArea(su);
    LastSectorFits(su.area);
    PrmOfRunFits(su.cr, su.area, su.inplace, r);
    PrmRoundTrip(r, off, p);
    SamePrmAt(r, Put(r, off, PrmBytes(p)), off);
  }

  lemma LastSectorFits(area: Area)
    requires area.Ok()
    ensures 0 <= area.Slt0End() && area.Slt0End() + PRM_BYTES <= area.flash_size
  {}

  // Where the image that was swapped in says it is to be loaded.
  function NewLoad(su: Setup): nat {
    ReadInfo(su.cr, su.mem0, su.area, 1, 0).load_address
  }

  lemma RunInfos(su: Setup, r: seq<byte>)
    requires su.Ok() && HeadersOk(su) && RunState(su, r) && Ended(su, r)
    ensures ReadInfo(su.cr, r, su.area, 1, 0).is_valid
    ensures !su.inplace ==> ReadInfo(su.cr, r, su.area, 0, 0).load_address == NewLoad(su)
                            && ReadInfo(su.cr, r, su.area, 0, 0).version
                                == ReadInfo(su.cr, su.mem0, su.area, 1, 0).version
    ensures su.inplace ==> ReadInfo(su.cr, r, su.area, 1, 0).load_address == NewLoad(su)
                           && ReadInfo(su.cr, r, su.area, 0, 0) == ReadInfo(su.cr, su.mem0, su.area, 0, 0)
  {
    hide Setup.Ok, HeadersOk, Intact, ReadInfo, HeaderFrom, RunState, Ended, SameHeaderOctets;
    EndPos(su, r);
    var p := PosOf(su.area.sector, Current(su, r));
    FinalSlots(su, p, r);
    if su.inplace {
      FinalHeaders(su, p, r);
      AtStart(su);
      InfoFrom(su.cr, su.area, r, 1, su.mem0, 1);
      SameHeader(su.cr, su.area, su.mem0, r, 0);
    } else {
      FinalInfos(su, p, r);
    }
  }

  // After a completed swap main boots the new image: the crc of what is in flash is the stored one, so the address
  // is the one its header asks for. (The address 0xffffffff reads as "no parameters", and nothing boots.)
  lemma BootsNew(su: Setup, r: seq<byte>, cmd1: byte, stale: Cmd)
    requires su.Ok() && HeadersOk(su) && RunState(su, r) && Ended(su, r) && Recorded(su, r, cmd1)
    requires CrcFits(su.cr) && su.area.flash_size <= 0x1_0000_0000
    ensures BootAddress(su.cr, su.area, r, stale) == if NewLoad(su) == EMPTY_U32 then None else Some(NewLoad(su))
  {
    hide Setup.Ok, HeadersOk, RunState, Ended, Recorded, ReadInfo, NewLoad, PrmAt, LastCmd, CrcFits, FlashCrc,
         VersionU32, Slt1Log, Slt0Log, SwapGoing, InSlot, InRam, Room;
    RunInfos(su, r);
    AfterRun(su, r, cmd1);
    PrmReadBack(su, r, cmd1);
    Slt1Empty(su, r, cmd1);
  }

  lemma Slt1Empty(su: Setup, r: seq<byte>, cmd1: byte)
    requires su.Ok() && Recorded(su, r, cmd1)
    ensures Room(r, Slt1Log(su.area)) > 0
  {
    OkArea(su);
    hide Setup.Ok, P3Prm, PrmBytes, LastCmd, Commands, FirstFree, Records, Log.Ok, Area.Ok;
    Slt1LogOk(su.area);
    ErasedFree(r, Slt1Log(su.area), su.area.block);
  }

  // ----- versions -----

  // The version on record for slot 0; none is on record as long as there are no parameters.
  function OnRecord(area: Area, mem: seq<byte>): nat {
    match PrmRead(mem, area) case None => 0 case Some(p) => p.slt0_ver
  }

  // The version of the image that will be in slot 0 after the swap.
  function Slt0Will(su: Setup): nat {
    VersionU32(ReadInfo(su.cr, su.mem0, su.area, if su.inplace then 0 else 1, 0).version)
  }

  lemma CheckedIsRead(cr: Crypto, area: Area, mem: seq<byte>, slt: nat)
    ensures var i := CheckedInfo(cr, mem, area, slt); i.is_valid ==> i == ReadInfo(cr, mem, area, slt, 0)
  {
    hide Find, InfoStart, InfoSize, InfoLoad, InfoVersion, Magic, TlvArea, Signature, Slice;
  }

  // A swap that was requested, accepted, and can be carried out.
  ghost predicate RequestBoot(cr: Crypto, area: Area, a: seq<byte>, su: Setup) {
    && !SwapGoing(area, a) && Request(cr, area, a).Some?
    && var c := Request(cr, area, a).value;
       && IsStart(c) && su == FreshSetup(cr, area, WithStart(area, a, c), c)
       && su.Ok() && HeadersOk(su) && Slot0Fits(su) && Remaining(su, c) <= Room(su.mem0, SwapLog(area))
  }

  // One boot that restores nothing: it swaps nothing, whether it refuses a request, makes a swap permanent or finds
  // nothing to do; or it carries out a request.
  ghost predicate UpdateBoot(cr: Crypto, area: Area, a: seq<byte>, b: seq<byte>, su: Setup) {
    && area.Ok() && |a| == area.flash_size && b == BootFlash(cr, area, a)
    && (!Prepare(cr, area, a).swap || RequestBoot(cr, area, a, su))
  }

  // What a request must not break: in-place, slot 0 holds the image on record or a newer one; and the image does not
  // ask for the address that reads as "no parameters".
  ghost predicate KeepsRecord(area: Area, a: seq<byte>, su: Setup) {
    (su.inplace ==> OnRecord(area, a) <= Slt0Will(su)) && NewLoad(su) != EMPTY_U32
  }

  lemma UpdateKeepsVersion(cr: Crypto, area: Area, a: seq<byte>, b: seq<byte>, su: Setup)
    requires UpdateBoot(cr, area, a, b, su) && CrcFits(cr) && area.flash_size <= 0x1_0000_0000
    requires Prepare(cr, area, a).swap ==> KeepsRecord(area, a, su)
    ensures OnRecord(area, a) <= OnRecord(area, b)
  {
    hide Area.Ok, Prepare, RequestBoot, BootFlash, OnRecord, CrcFits, NewLoad, Slt0Will;
    SectorPositive(area);
    if !Prepare(cr, area, a).swap {
      NoSwapKeepsVersion(cr, area, a);
    } else {
      RequestKeepsVersion(cr, area, a, b, su);
    }
  }

  // A boot without a swap leaves the record alone, a boot that refuses a request among them.
  lemma NoSwapKeepsVersion(cr: Crypto, area: Area, a: seq<byte>)
    requires area.Ok() && area.sector > 0 && !Prepare(cr, area, a).swap
    ensures OnRecord(area, BootFlash(cr, area, a)) == OnRecord(area, a)
    ensures SameButRecords(area, a, BootFlash(cr, area, a))
  {
    hide Area.Ok, PrmAt, LastCmd, SwapGoing, Request, Restore, WithStart, AfterMakePermanent, SameButRecords, IterN;
    MarkOutside(area, a);
    RecordsKeepPrm(area, a, AfterMakePermanent(area, a));
  }

  lemma RecordsKeepPrm(area: Area, a: seq<byte>, b: seq<byte>)
    requires area.Ok() && SameButRecords(area, a, b)
    ensures PrmAt(a, area.Slt0End()) == PrmAt(b, area.Slt0End())
  {
    hide U32;
    SamePrmAt(a, b, area.Slt0End());
  }

  lemma AcceptedMode(cr: Crypto, area: Area, a: seq<byte>, c: Cmd)
    requires Request(cr, area, a) == Some(c)
    ensures Acceptance(cr, area, a) == if Inplace(c.cmd2) then Some(1) else Some(0)
    ensures Phase(c.cmd2) == CMD2_SWP_START
  {
    hide LastCmd, Requested, ClearRequest, CheckedInfo, PrmRead, VersionU32;
  }

  lemma RequestRuns(cr: Crypto, area: Area, a: seq<byte>, b: seq<byte>, su: Setup, c: Cmd)
    requires area.Ok() && |a| == area.flash_size && area.sector > 0 && b == BootFlash(cr, area, a)
    requires RequestBoot(cr, area, a, su) && Request(cr, area, a) == Some(c)
    ensures su.cr == cr && su.area == area && su.inplace == Inplace(c.cmd2) && su.mem0 == WithStart(area, a, c)
    ensures su.Ok() && HeadersOk(su)
    ensures RunState(su, b) && Ended(su, b) && Recorded(su, b, c.cmd1)
  {
    hide Area.Ok, IsStart, Setup.Ok, HeadersOk, Remaining, Room, WithStart, BootFlash, PrmAt, LastCmd, SwapLog,
         Slot0Fits, Acceptance, SwapInfoOf, Request, SwapGoing, RunState, Ended, Recorded, Swapped, TailBlank, Inplace;
    StartLogged(area, a, c);
    FreshIs(cr, area, WithStart(area, a, c), c);
    FreshRun(cr, area, a, WithStart(area, a, c), c, su);
  }

  lemma AcceptedVersion(cr: Crypto, area: Area, mem: seq<byte>)
    requires Acceptance(cr, area, mem) == Some(0)
    ensures OnRecord(area, mem) <= VersionU32(ReadInfo(cr, mem, area, 1, 0).version)
  {
    CheckedIsRead(cr, area, mem, 1);
    hide CheckedInfo, ReadInfo, VersionU32, PrmRead;
  }

  // What a run puts on record.
  lemma RunPutsOnRecord(su: Setup, r: seq<byte>, cmd1: byte)
    requires su.Ok() && HeadersOk(su) && RunState(su, r) && Ended(su, r) && Recorded(su, r, cmd1)
    requires CrcFits(su.cr) && su.area.flash_size <= 0x1_0000_0000
    ensures OnRecord(su.area, r) == if NewLoad(su) == EMPTY_U32 then 0 else Slt0Will(su)
  {
    hide Setup.Ok, HeadersOk, RunState, Ended, Recorded, ReadInfo, NewLoad, PrmAt, CrcFits, FlashCrc, VersionU32;
    RunInfos(su, r);
    PrmReadBack(su, r, cmd1);
  }

  // Starting the swap has not touched the headers.
  lemma SameSlotInfo(su: Setup, a: seq<byte>, slt: nat)
    requires su.Ok() && HeadersOk(su) && (slt == 1 || (slt == 0 && su.inplace))
    requires SameOutside(a, su.mem0, su.area.swpstat_offset, su.area.swpstat_offset + su.area.swpstat_size)
    ensures ReadInfo(su.cr, su.mem0, su.area, slt, 0) == ReadInfo(su.cr, a, su.area, slt, 0)
  {
    HeadersLoaded(su);
    LoadedSizes(su);
    OkArea(su);
    FirstSectorApart(su.area);
    assert su.inplace ==> Readable(su.mem0, su.area.slt0_offset, su.area.sector);
    hide Setup.Ok, HeadersOk, Loaded, ReadInfo, Area.Ok, Magic, TlvAreaSize, WellFormed;
    WithinSector(su.mem0, a, SlotOffset(su.area, slt), su.area.sector);
    SameHeader(su.cr, su.area, su.mem0, a, slt);
  }

  lemma FirstSectorApart(area: Area)
    requires area.Ok()
    ensures Apart(area.slt1_offset, area.sector, area.swpstat_offset, area.swpstat_size)
    ensures Apart(area.slt0_offset, area.sector, area.swpstat_offset, area.swpstat_size)
  {}

  // What zb_img_check contributes to a swap that can be carried out: a valid new image that fits slot 0. The rest
  // is up to whoever puts images into the slots.
  lemma AcceptedOk(cr: Crypto, area: Area, a: seq<byte>, su: Setup, c: Cmd)
    requires area.Ok() && |a| == area.flash_size && Acceptance(cr, area, a) == Some(0)
    requires IsStart(c) && !Inplace(c.cmd2) && su == FreshSetup(cr, area, WithStart(area, a, c), c)
    requires TLV_HDR_SIZE <= area.sector && TlvAreaSize(a, area.slt1_offset) <= area.sector
    requires EncOk(su.info.to) && EncOk(su.info.fr) && su.AllSectors() <= 255
    requires su.OldLen() + area.sector <= area.slt0_size
    requires Max(su.OldLen(), su.NewLen()) + area.sector <= area.slt1_size
    ensures su.Ok() && su.info.fr.is_valid
  {
    hide Area.Ok, WithStart, Acceptance, ReadInfo, IsStart, TlvAreaSize, Magic, EncOk, Sectors, LastCmd, TailBlank,
         Room, SwapInfoOf, KeepForRam, Inplace, Phase;
    var m := WithStart(area, a, c);
    StartLogged(area, a, c);
    FirstSectorApart(area);
    WithinSector(a, m, area.slt1_offset, area.sector);
    SameHeader(cr, area, a, m, 1);
    AcceptedSize(cr, area, a);
    StartInfo(cr, area, m, c);
    InfoStarts(cr, area, m, 0);
    KeepEnd(area, ReadInfo(cr, m, area, 0, 0));
    KeepEnd(area, ReadInfo(cr, m, area, 1, 0));
    InfoStarts(cr, area, m, 1);
  }

  lemma AcceptedSize(cr: Crypto, area: Area, a: seq<byte>)
    requires Acceptance(cr, area, a) == Some(0)
    ensures var i := ReadInfo(cr, a, area, 1, 0); i.is_valid && i.end - i.hdr_start + area.sector <= area.slt0_size
  {
    CheckedIsRead(cr, area, a, 1);
    hide CheckedInfo, ReadInfo, VersionU32, PrmRead;
  }

  lemma StartInfo(cr: Crypto, area: Area, mem: seq<byte>, c: Cmd)
    requires IsStart(c) && !Inplace(c.cmd2)
    ensures SwapInfoOf(cr, area, mem, c)
         == SwpInfo(KeepForRam(area, ReadInfo(cr, mem, area, 0, 0)), KeepForRam(area, ReadInfo(cr, mem, area, 1, 0)))
  {
    hide ReadInfo, KeepForRam, Inplace;
    SafeInfo(cr, area, mem, c);
  }

  lemma KeepEnd(area: Area, i: ImgInfo)
    ensures var k := KeepForRam(area, i); k.hdr_start == i.hdr_start && k.end == i.end && k.is_valid == i.is_valid
  {}

  // Exactly when an accepted request for slot 0 keeps the record: always, except when the image asks for the address
  // that reads as "no parameters" and so wipes out the record there was. The record then is the new image's version.
  lemma RequestKeepsExact(cr: Crypto, area: Area, a: seq<byte>, b: seq<byte>, su: Setup)
    requires area.Ok() && |a| == area.flash_size && area.sector > 0 && b == BootFlash(cr, area, a)
    requires RequestBoot(cr, area, a, su) && CrcFits(cr) && area.flash_size <= 0x1_0000_0000 && !su.inplace
    ensures OnRecord(area, a) <= OnRecord(area, b) <==> NewLoad(su) != EMPTY_U32 || OnRecord(area, a) == 0
    ensures NewLoad(su) != EMPTY_U32 ==> OnRecord(area, b) == VersionU32(ReadInfo(cr, a, area, 1, 0).version)
  {
    hide Area.Ok, IsStart, Setup.Ok, HeadersOk, Remaining, Room, WithStart, BootFlash, OnRecord, CrcFits, LastCmd,
         RequestBoot, Acceptance, SwapInfoOf, StartCmd, CheckedInfo, ReadInfo, VersionU32, RunState, Ended, Recorded,
         Swapped, Request, SwapLog, SameOutside, TailBlank, NewLoad, Slot0Fits;
    HasRequest(cr, area, a, su);
    var c := Request(cr, area, a).value;
    AcceptedMode(cr, area, a, c);
    RequestRuns(cr, area, a, b, su, c);
    AcceptedVersion(cr, area, a);
    StartLogged(area, a, c);
    SameSlotInfo(su, a, 1);
    RunPutsOnRecord(su, b, c.cmd1);
  }

  lemma HasRequest(cr: Crypto, area: Area, a: seq<byte>, su: Setup)
    requires RequestBoot(cr, area, a, su)
    ensures Request(cr, area, a).Some?
  {
    hide Request, Setup.Ok, HeadersOk;
  }

  lemma RequestKeepsVersion(cr: Crypto, area: Area, a: seq<byte>, b: seq<byte>, su: Setup)
    requires area.Ok() && |a| == area.flash_size && area.sector > 0 && b == BootFlash(cr, area, a)
    requires RequestBoot(cr, area, a, su) && CrcFits(cr) && area.flash_size <= 0x1_0000_0000 && KeepsRecord(area, a, su)
    ensures OnRecord(area, a) <= OnRecord(area, b)
  {
    hide Area.Ok, Setup.Ok, HeadersOk, BootFlash, OnRecord, CrcFits, RequestBoot, RunState, Ended, Recorded, Request,
         NewLoad, Slt0Will;
    if su.inplace {
      HasRequest(cr, area, a, su);
      var c := Request(cr, area, a).value;
      RequestRuns(cr, area, a, b, su, c);
      RunPutsOnRecord(su, b, c.cmd1);
    } else {
      RequestKeepsExact(cr, area, a, b, su);
    }
  }

  // A history of boots without a restore, in between which applications run that leave the parameters alone: the
  // version on record for slot 0 never goes back.
  lemma {:induction false} VersionsNeverGoBack(cr: Crypto, area: Area, starts: seq<seq<byte>>, ends: seq<seq<byte>>,
                                               sus: seq<Setup>, i: nat, j: nat)
    requires |starts| == |ends| == |sus| && CrcFits(cr) && area.flash_size <= 0x1_0000_0000
    requires forall k :: 0 <= k < |starts| ==> UpdateBoot(cr, area, starts[k], ends[k], sus[k])
    requires forall k :: 0 <= k < |starts| && Prepare(cr, area, starts[k]).swap ==> KeepsRecord(area, starts[k], sus[k])
    requires forall k :: 0 < k < |starts| ==>
               SameOn(ends[k - 1], starts[k], area.Slt0End(), area.Slt0End() + PRM_BYTES)
    requires i <= j < |starts|
    ensures OnRecord(area, starts[i]) <= OnRecord(area, ends[j])
    decreases j
  {
    hide UpdateBoot, PrmAt, CrcFits, SameOn, Prepare, KeepsRecord;
    UpdateKeepsVersion(cr, area, starts[j], ends[j], sus[j]);
    if i < j {
      VersionsNeverGoBack(cr, area, starts, ends, sus, i, j - 1);
      assert SameOn(ends[j - 1], starts[j], area.Slt0End(), area.Slt0End() + PRM_BYTES);
      SamePrmAt(ends[j - 1], starts[j], area.Slt0End());
    }
  }
}
