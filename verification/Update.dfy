// A whole update: an image made by the tool, placed in slot 1 and requested, is what runs after one boot.
module Update {
  import opened AfterSwap
  import opened Boot
  import opened BootLaws
  import opened BootRuns
  import opened Booted
  import opened Bytes
  import opened CmdLog
  import opened Digest
  import opened Finish
  import opened Flash
  import opened Header
  import opened Images
  import opened LaterBoots
  import opened Params
  import opened Recovery
  import opened Runs
  import opened Swap
  import opened Tool

  // An image that can be swapped: it leaves the last sector of either slot free, its header fits the first sector,
  // its body starts on a 16-octet boundary, and its sectors can be counted in one octet.
  ghost predicate Fits(cr: Crypto, area: Area, job: Job, sign: seq<byte> -> seq<byte>) {
    && job.Ok(cr, sign) && job.image_offset % 16 == 0 && |job.Header(cr, sign)| <= area.sector
    && job.image_offset + |job.plain| + area.sector <= area.slt0_size
    && job.image_offset + |job.plain| + area.sector <= area.slt1_size
    && job.image_offset + |job.plain| <= 255 * area.sector
  }

  // Slot 0 holds no image, or starts with the header of one.
  ghost predicate InSlot0(cr: Crypto, area: Area, mem: seq<byte>, was: Option<Job>, sign: seq<byte> -> seq<byte>) {
    match was
    case None => Magic(mem, area.slt0_offset) != TLV_AREA_MAGIC
    case Some(job) =>
      Fits(cr, area, job, sign)
      && Slice(mem, area.slt0_offset, |job.Header(cr, sign)|) == job.Header(cr, sign)
  }

  lemma HeaderAt(cr: Crypto, mem: seq<byte>, off: int, job: Job, sign: seq<byte> -> seq<byte>)
    requires job.Ok(cr, sign) && Slice(mem, off, |job.Header(cr, sign)|) == job.Header(cr, sign)
    ensures Magic(mem, off) == TLV_AREA_MAGIC && TlvArea(mem, off) == job.Tlv(cr)
    ensures TlvAreaSize(mem, off) == |job.Header(cr, sign)| && WellFormed(TlvArea(mem, off))
    ensures TLV_HDR_SIZE <= |job.Header(cr, sign)| <= TLV_HDR_SIZE + 125
    ensures Signature(mem, off) == sign(cr.hash(job.Tlv(cr)))
  {
    var info := InfoValue(job.image_offset, |job.plain|, job.Load(), job.version);
    ProductLength(cr, sign, job);
    NoPadding(job.align);
    TlvLength(info, cr.hash(job.Content(cr)), Epubk(job.e));
    PrintedEntries(info, cr.hash(job.Content(cr)), Epubk(job.e), TLVE_IMAGE_TYPE);
    hide Job.Content, HeaderBytes, PadLength, Magic, TlvArea, TlvAreaSize, Signature, TlvBytes, InfoValue, WellFormed,
         FieldsFit;
    HeaderReads(mem, off, job.Tlv(cr), sign(cr.hash(job.Tlv(cr))), job.align);
    assert Fill(0) + job.Tlv(cr) == job.Tlv(cr);
  }

  // The info of such an image, as the swap uses it.
  lemma ImageAt(cr: Crypto, area: Area, mem: seq<byte>, slt: nat, job: Job, sign: seq<byte> -> seq<byte>)
    requires slt <= 1 && Fits(cr, area, job, sign) && area.Ok() && |mem| == area.flash_size
    requires var h := SlotOffset(area, slt); Slice(mem, h, |job.Header(cr, sign)|) == job.Header(cr, sign)
    ensures var h, k := SlotOffset(area, slt), KeepForRam(area, ReadInfo(cr, mem, area, slt, 0));
            && k.hdr_start == h && k.end == h + job.image_offset + |job.plain| && k.is_valid && EncOk(k)
            && HeaderIn(area, mem, k) && Readable(mem, h, area.sector)
            && ReadInfo(cr, mem, area, slt, 0) == job.Info(cr, h)
  {
    hide Fits, Job.Ok, Job.Header, Job.Tlv, Job.Info, KeepForRam, ReadInfo, Magic, TlvArea, TlvAreaSize, Signature,
         Slice, WellFormed, Area.Ok, SlotOffset, EncOk;
    FitsFacts(cr, area, job, sign);
    HeaderAt(cr, mem, SlotOffset(area, slt), job, sign);
    SlotInside(area, slt);
    ImageParsed(cr, area, mem, slt, job, sign);
    InfoKept(cr, area, job, sign, SlotOffset(area, slt));
  }

  lemma FitsFacts(cr: Crypto, area: Area, job: Job, sign: seq<byte> -> seq<byte>)
    requires Fits(cr, area, job, sign)
    ensures job.Ok(cr, sign) && |job.Header(cr, sign)| <= area.sector && |job.Header(cr, sign)| <= job.image_offset
  {
    hide Job.Header, Job.Tlv;
  }

  lemma ImageParsed(cr: Crypto, area: Area, mem: seq<byte>, slt: nat, job: Job, sign: seq<byte> -> seq<byte>)
    requires job.Ok(cr, sign)
    requires var h := SlotOffset(area, slt); Slice(mem, h, |job.Header(cr, sign)|) == job.Header(cr, sign)
    ensures ReadInfo(cr, mem, area, slt, 0) == job.Info(cr, SlotOffset(area, slt))
  {
    HeaderAt(cr, mem, SlotOffset(area, slt), job, sign);
    hide Job.Content, TlvBytes, ParseInfo, InfoValue, Magic, TlvArea, Slice, Job.Header, WellFormed, SlotOffset;
    ParsePrinted(cr, SlotOffset(area, slt), job.image_offset, |job.plain|, job.Load(), job.version,
        cr.hash(job.Content(cr)),
                 Epubk(job.e), None);
  }

  lemma InfoKept(cr: Crypto, area: Area, job: Job, sign: seq<byte> -> seq<byte>, h: nat)
    requires Fits(cr, area, job, sign)
    ensures var k := KeepForRam(area, job.Info(cr, h));
            && k.hdr_start == h && k.end == h + job.image_offset + |job.plain| && k.is_valid && EncOk(k)
            && h + job.image_offset <= k.enc_start
  {
    hide Job.Header, Job.Tlv, Job.Content, FieldsFit, InRam;
  }

  lemma SlotInside(area: Area, slt: nat)
    requires area.Ok()
    ensures SlotOffset(area, slt) + area.sector <= area.flash_size
  {}

  lemma NoImageAt(cr: Crypto, area: Area, mem: seq<byte>)
    requires Magic(mem, area.slt0_offset) != TLV_AREA_MAGIC && area.Ok() && |mem| == area.flash_size
    requires area.sector >= TLV_HDR_SIZE
    ensures var h, k := area.slt0_offset, KeepForRam(area, ReadInfo(cr, mem, area, 0, 0));
            && k.hdr_start == h == k.end && !k.is_valid && EncOk(k) && Readable(mem, h, area.sector)
  {
    SlotInside(area, 0);
    hide Area.Ok, Magic;
  }

  // Starting the swap leaves the slots as they are.
  lemma SlotsKept(cr: Crypto, area: Area, mem: seq<byte>, c: Cmd)
    requires area.Ok() && |mem| == area.flash_size
    ensures 4 <= area.slt0_size
    ensures var m := WithStart(area, mem, c);
            && SameOn(mem, m, area.slt0_offset, area.slt0_offset + area.slt0_size)
            && SameOn(mem, m, area.slt1_offset, area.slt1_offset + area.slt1_size)
  {
    StartLogged(area, mem, c);
    SwapApart(area);
    hide WithStart, Commands, FirstFree, Records;
  }

  function Length(was: Option<Job>): nat {
    match was case None => 0 case Some(job) => job.image_offset + |job.plain|
  }

  // Records a classic swap of the two takes, with its start record.
  function RecordsNeeded(area: Area, was: Option<Job>, job: Job): nat
    requires area.sector > 0
  {
    var m, n := Sectors(Length(was), area.sector), Sectors(Length(Some(job)), area.sector);
    m + 2 * Max(m, n) + 5
  }

  // With such images in the slots everything the swap relies on holds.
  lemma UpdateReady(cr: Crypto, area: Area, m: seq<byte>, was: Option<Job>, job: Job, sign: seq<byte> -> seq<byte>,
                    c: Cmd,
                    su: Setup)
    requires area.Ok() && |m| == area.flash_size && IsStart(c) && !Inplace(c.cmd2)
    requires LastCmd(m, SwapLog(area)) == Some(c) && TailBlank(m, SwapLog(area))
    requires Fits(cr, area, job, sign) && InSlot1(cr, area, m, job, sign) && InSlot0(cr, area, m, was, sign)
    requires su == FreshSetup(cr, area, m, c)
    ensures su.Ok() && HeadersOk(su) && Started(su) && !su.inplace
    ensures su.OldLen() == Length(was) && su.NewLen() == Length(Some(job))
  {
    hide Area.Ok, IsStart, LastCmd, TailBlank, InSlot1, SwapInfoOf, KeepForRam, ReadInfo, HeaderIn, Readable, Inplace,
         Job.Info, Magic, Fits, Job.Header;
    StartInfo(cr, area, m, c);
    HeaderInFile(cr, area, m, job, sign);
    ImageAt(cr, area, m, 1, job, sign);
    HeaderLengths(cr, area, m, job, sign);
    if was.Some? {
      ImageAt(cr, area, m, 0, was.value, sign);
    } else {
      NoImageAt(cr, area, m);
    }
    UpdateOk(cr, area, su, was, job, sign);
    BackStarted(su, c);
    UpdateHeaders(su, c);
  }

  lemma HeaderInFile(cr: Crypto, area: Area, mem: seq<byte>, job: Job, sign: seq<byte> -> seq<byte>)
    requires InSlot1(cr, area, mem, job, sign)
    ensures job.Ok(cr, sign) && Slice(mem, area.slt1_offset, |job.Header(cr, sign)|) == job.Header(cr, sign)
  {
    ProductParts(cr, job, sign);
    SliceHead(mem, area.slt1_offset, |job.Product(cr, sign)|, |job.Header(cr, sign)|);
    hide Job.Content, Job.Tlv, HeaderBytes, Installed, Slice;
  }

  lemma HeaderLengths(cr: Crypto, area: Area, mem: seq<byte>, job: Job, sign: seq<byte> -> seq<byte>)
    requires Fits(cr, area, job, sign) && Slice(mem, area.slt1_offset, |job.Header(cr, sign)|) == job.Header(cr, sign)
    ensures area.sector >= TLV_HDR_SIZE
  {
    HeaderAt(cr, mem, area.slt1_offset, job, sign);
    hide Job.Header, Job.Tlv, Slice;
  }

  lemma UpdateOk(cr: Crypto, area: Area, su: Setup, was: Option<Job>, job: Job, sign: seq<byte> -> seq<byte>)
    requires su.area == area && !su.inplace && area.Ok() && |su.mem0| == area.flash_size && Fits(cr, area, job, sign)
    requires su.info.fr.hdr_start == area.slt1_offset && su.info.fr.end == area.slt1_offset + Length(Some(job))
    requires EncOk(su.info.fr)
    requires su.info.to.hdr_start == area.slt0_offset && su.info.to.end == area.slt0_offset + Length(was)
    requires EncOk(su.info.to)
    requires su.info.to.is_valid == was.Some? && (was.Some? ==> Fits(cr, area, was.value, sign))
    ensures su.Ok() && su.OldLen() == Length(was) && su.NewLen() == Length(Some(job))
  {
    hide Area.Ok, Job.Ok, Job.Header, EncOk, Sectors;
    SectorPositive(area);
    CountFits(Length(Some(job)), area.sector);
    CountFits(Length(was), area.sector);
  }

  lemma CountFits(n: nat, sector: nat)
    requires sector > 0 && n <= 255 * sector
    ensures Sectors(n, sector) <= 255
  {
    SectorsFacts(n, sector, 255);
  }

  lemma UpdateHeaders(su: Setup, c: Cmd)
    requires Started(su) && !su.inplace && LastCmd(su.mem0, SwapLog(su.area)) == Some(c)
    requires su.info == SwapInfoOf(su.cr, su.area, su.mem0, c)
    requires su.info.fr.is_valid && HeaderIn(su.area, su.mem0, su.info.fr)
    requires su.info.EndTo() > 0 ==> HeaderIn(su.area, su.mem0, su.info.to)
    requires Readable(su.mem0, su.Fr(), su.area.sector) && Readable(su.mem0, su.To(), su.area.sector)
    ensures HeadersOk(su)
  {
    hide Started, SwapInfoOf, LastCmd, Magic, TlvArea, WellFormed;
  }

  // ----- the request -----

  // What lies in flash when the update is asked for: no swap going on, the two images, the request, and no newer
  // version on record.
  ghost predicate Asked(cr: Crypto, area: Area, mem: seq<byte>, was: Option<Job>, job: Job,
                        sign: seq<byte> -> seq<byte>,
                        cmd1: byte) {
    && area.Ok() && |mem| == area.flash_size && !SwapGoing(area, mem)
    && Fits(cr, area, job, sign) && InSlot1(cr, area, mem, job, sign) && InSlot0(cr, area, mem, was, sign)
    && LastCmd(mem, Slt1Log(area)).Some? && LastCmd(mem, Slt1Log(area)).value.cmd1 == cmd1
    && Requested(cmd1) && ClearRequest(cmd1) != CMD1_ERROR
    && cr.verify(cr.hash(job.Tlv(cr)), sign(cr.hash(job.Tlv(cr))))
    && !InSlot(area, 1, job.Load())
    && (PrmRead(mem, area).Some? ==> PrmRead(mem, area).value.slt0_ver <= VersionU32(job.version))
  }

  lemma AskedIsAccepted(cr: Crypto, area: Area, mem: seq<byte>, was: Option<Job>, job: Job,
                        sign: seq<byte> -> seq<byte>,
                        cmd1: byte)
    requires Asked(cr, area, mem, was, job, sign, cmd1)
    ensures Acceptance(cr, area, mem) == Some(0)
    ensures Prepare(cr, area, mem)
        == Decision(true, true, WithStart(area, mem, Cmd(ClearRequest(cmd1), CMD2_SWP_START, 0)))
  {
    hide Area.Ok, SwapGoing, InSlot0, InSlot1, LastCmd, Job.Tlv, CheckedInfo, PrmRead, VersionU32, WithStart,
         Job.Header, ClearRequest, Requested, InSlot, Job.Content, FieldsFit;
    DeviceChecks(cr, area, mem, job, sign);
    InfoIs(cr, job, sign, area.slt1_offset);
    StartPhase(cmd1);
  }

  lemma StartPhase(cmd1: byte)
    ensures StartCmd(cmd1, false) == Cmd(ClearRequest(cmd1), CMD2_SWP_START, 0)
    ensures !Inplace(CMD2_SWP_START) && Phase(CMD2_SWP_START) == CMD2_SWP_START
  {
    hide ClearRequest;
  }

  lemma InfoIs(cr: Crypto, job: Job, sign: seq<byte> -> seq<byte>, h: nat)
    requires job.Ok(cr, sign)
    ensures var i := job.Info(cr, h);
            && i.is_valid && i.hdr_start == h && i.end == h + job.image_offset + |job.plain|
            && i.load_address == job.Load() && i.version == job.version
  {
    hide Job.Header, Job.Tlv, Job.Content, FieldsFit;
  }

  // After one boot slot 0 holds the new image with its body in the clear, slot 1 the old one, and main boots the new
  // image at the address the tool was given.
  lemma WholeUpdate(cr: Crypto, area: Area, mem: seq<byte>, was: Option<Job>, job: Job, sign: seq<byte> -> seq<byte>,
                    cmd1: byte, su: Setup, r: seq<byte>, stale: Cmd)
    requires Asked(cr, area, mem, was, job, sign, cmd1) && area.sector > 0
    requires var c := Cmd(ClearRequest(cmd1), CMD2_SWP_START, 0); su == FreshSetup(cr, area, WithStart(area, mem, c), c)
    requires RecordsNeeded(area, was, job) <= LogSize(area)
    requires r == BootFlash(cr, area, mem) && CrcFits(cr) && area.flash_size <= 0x1_0000_0000
    ensures forall i {:trigger Arrived(cr, area, job, sign, i)} :: 0 <= i < Length(Some(job)) ==>
              job.Ok(cr, sign) && At(r, area.slt0_offset + i) == Arrived(cr, area, job, sign, i)
    ensures forall i {:trigger OldAfter(su, i)} :: 0 <= i < Length(was) ==>
              At(r, area.slt1_offset + i) == OldAfter(su, i)
    ensures BootAddress(cr, area, r, stale) == if job.Load() == EMPTY_U32 then None else Some(job.Load())
  {
    hide *;
    var c := Cmd(ClearRequest(cmd1), CMD2_SWP_START, 0);
    UpdateFinishes(cr, area, mem, was, job, sign, cmd1, c, su, r);
    BootsNew(su, r, c.cmd1, stale);
    NewLoadIs(su, job, sign);
    HeadersLoaded(su);
    NewArrives(su, job, sign, r);
    OldArrives(su, r);
  }

  // An image made for slot 0 then runs as it was given to the tool: from the address main boots on lie its octets.
  lemma PlainImageRuns(cr: Crypto, area: Area, mem: seq<byte>, was: Option<Job>, job: Job,
                       sign: seq<byte> -> seq<byte>, cmd1: byte, su: Setup, r: seq<byte>, stale: Cmd, i: nat)
    requires Asked(cr, area, mem, was, job, sign, cmd1) && area.sector > 0
    requires var c := Cmd(ClearRequest(cmd1), CMD2_SWP_START, 0); su == FreshSetup(cr, area, WithStart(area, mem, c), c)
    requires RecordsNeeded(area, was, job) <= LogSize(area)
    requires r == BootFlash(cr, area, mem) && CrcFits(cr) && area.flash_size <= 0x1_0000_0000
    requires job.slot_address == area.slt0_offset && !InRam(area, job.Load()) && i < |job.plain|
    ensures var b := BootAddress(cr, area, r, stale);
            b.Some? && At(r, b.value + i) == job.plain[i]
  {
    hide *;
    WholeUpdate(cr, area, mem, was, job, sign, cmd1, su, r, stale);
    AskedFits(cr, area, mem, was, job, sign, cmd1);
    PlainOctet(cr, area, job, sign, i);
    LoadsInSlot0(cr, area, job, sign);
  }

  lemma AskedFits(cr: Crypto, area: Area, mem: seq<byte>, was: Option<Job>, job: Job, sign: seq<byte> -> seq<byte>,
                  cmd1: byte)
    requires Asked(cr, area, mem, was, job, sign, cmd1)
    ensures area.Ok() && Fits(cr, area, job, sign) && job.Ok(cr, sign)
  {
    hide Area.Ok, Job.Ok;
  }

  lemma LoadsInSlot0(cr: Crypto, area: Area, job: Job, sign: seq<byte> -> seq<byte>)
    requires area.Ok() && Fits(cr, area, job, sign) && job.slot_address == area.slt0_offset
    requires area.flash_size <= 0x1_0000_0000 && |job.plain| > 0
    ensures job.Load() == area.slt0_offset + job.image_offset && job.Load() != EMPTY_U32
  {
    hide Job.Ok, Job.Header;
  }

  lemma PlainOctet(cr: Crypto, area: Area, job: Job, sign: seq<byte> -> seq<byte>, i: nat)
    requires job.Ok(cr, sign) && !InRam(area, job.Load()) && i < |job.plain|
    ensures Arrived(cr, area, job, sign, job.image_offset + i) == job.plain[i]
    ensures job.image_offset + i < Length(Some(job))
  {
    hide Job.Ok, Job.Product, Job.Load, InRam;
  }

  // The swap of such an update runs to its end, and leaves its records.
  lemma UpdateFinishes(cr: Crypto, area: Area, mem: seq<byte>, was: Option<Job>, job: Job, sign: seq<byte> -> seq<byte>,
                       cmd1: byte, c: Cmd, su: Setup, r: seq<byte>)
    requires Asked(cr, area, mem, was, job, sign, cmd1) && area.sector > 0
    requires c == Cmd(ClearRequest(cmd1), CMD2_SWP_START, 0)
    requires su == FreshSetup(cr, area, WithStart(area, mem, c), c)
    requires RecordsNeeded(area, was, job) <= LogSize(area)
    requires r == BootFlash(cr, area, mem) && CrcFits(cr) && area.flash_size <= 0x1_0000_0000
    ensures su.cr == cr && su.area == area && !su.inplace && su.OldLen() == Length(was)
    ensures InSlot1(cr, area, su.mem0, job, sign) && job.Ok(cr, sign)
    ensures su.Ok() && HeadersOk(su) && RunState(su, r) && Ended(su, r) && Swapped(su, r) && Recorded(su, r, c.cmd1)
    ensures Finished(su, r, c.cmd1)
  {
    hide *;
    AskedIsAccepted(cr, area, mem, was, job, sign, cmd1);
    AskedIsReady(cr, area, mem, was, job, sign, cmd1, c, su);
    FreshRun(cr, area, mem, WithStart(area, mem, c), c, su);
    NewLoadIs(su, job, sign);
    IsFinished(su, r, c.cmd1);
  }

  lemma IsFinished(su: Setup, r: seq<byte>, cmd1: byte)
    requires su.Ok() && HeadersOk(su) && Slot0Fits(su) && RunState(su, r) && Ended(su, r) && Recorded(su, r, cmd1)
    requires CrcFits(su.cr) && su.area.flash_size <= 0x1_0000_0000
    ensures Finished(su, r, cmd1)
  {
    hide Setup.Ok, HeadersOk, Slot0Fits, RunState, Ended, Recorded, CrcFits;
  }

  // After an update that was requested as permanent, or is made so by the command the application then writes, no
  // number of boots boots anything else; the command for slot 0 changes nothing, for the new image is in slot 0.
  lemma UpdateStays(cr: Crypto, area: Area, mem: seq<byte>, was: Option<Job>, job: Job, sign: seq<byte> -> seq<byte>,
                    cmd1: byte, su: Setup, r: seq<byte>, q: Cmd, n: nat, stale: Cmd)
    requires Asked(cr, area, mem, was, job, sign, cmd1) && area.sector > 0
    requires var c := Cmd(ClearRequest(cmd1), CMD2_SWP_START, 0); su == FreshSetup(cr, area, WithStart(area, mem, c), c)
    requires RecordsNeeded(area, was, job) <= LogSize(area)
    requires r == BootFlash(cr, area, mem) && CrcFits(cr) && area.flash_size <= 0x1_0000_0000
    requires !Requested(q.cmd1)
    requires Permanent(cmd1) || (Permanent(q.cmd1) && Room(r, Slt0Log(area)) > 0 && n >= 1)
    ensures BootAddress(cr, area, BootN(cr, area, Append(r, Slt1Log(area), q), n), stale)
         == if job.Load() == EMPTY_U32 then None else Some(job.Load())
  {
    hide *;
    var c := Cmd(ClearRequest(cmd1), CMD2_SWP_START, 0);
    UpdateFinishes(cr, area, mem, was, job, sign, cmd1, c, su, r);
    ClearKeepsPermanent(cmd1);
    CommandBoots(su, r, c.cmd1, q, n, stale);
    NewLoadIs(su, job, sign);
    LoadIs(su);
  }

  lemma ClearKeepsPermanent(cmd1: byte)
    ensures Permanent(ClearRequest(cmd1)) == Permanent(cmd1)
  {}

  lemma NewArrives(su: Setup, job: Job, sign: seq<byte> -> seq<byte>, r: seq<byte>)
    requires su.Ok() && Loaded(su) && InSlot1(su.cr, su.area, su.mem0, job, sign) && Swapped(su, r) && !su.inplace
    requires job.Ok(su.cr, sign)
    ensures forall i {:trigger Arrived(su.cr, su.area, job, sign, i)} :: 0 <= i < Length(Some(job)) ==>
              At(r, su.area.slt0_offset + i) == Arrived(su.cr, su.area, job, sign, i)
  {
    hide Setup.Ok, Loaded, InSlot1, Swapped, Job.Ok, Arrived;
    forall i {:trigger Arrived(su.cr, su.area, job, sign, i)} | 0 <= i < Length(Some(job))
      ensures At(r, su.area.slt0_offset + i) == Arrived(su.cr, su.area, job, sign, i)
    {
      ToolToDevice(su, job, sign, r, i);
    }
  }

  lemma OldArrives(su: Setup, r: seq<byte>)
    requires Swapped(su, r)
    ensures forall i {:trigger OldAfter(su, i)} :: 0 <= i < su.OldLen() ==>
              At(r, su.area.slt1_offset + i) == OldAfter(su, i)
  {}

  lemma NewLoadIs(su: Setup, job: Job, sign: seq<byte> -> seq<byte>)
    requires InSlot1(su.cr, su.area, su.mem0, job, sign)
    ensures NewLoad(su) == job.Load() && job.Ok(su.cr, sign)
  {
    hide Job.Load, ReadInfo, Job.Header, Job.Tlv, Job.Content, FieldsFit;
    DeviceReads(su.cr, su.area, su.mem0, job, sign);
    InfoIs(su.cr, job, sign, su.area.slt1_offset);
  }

  lemma AskedIsReady(cr: Crypto, area: Area, mem: seq<byte>, was: Option<Job>, job: Job, sign: seq<byte> -> seq<byte>,
                     cmd1: byte, c: Cmd, su: Setup)
    requires Asked(cr, area, mem, was, job, sign, cmd1) && c == Cmd(ClearRequest(cmd1), CMD2_SWP_START, 0)
    requires su == FreshSetup(cr, area, WithStart(area, mem, c), c) && area.sector > 0
    requires RecordsNeeded(area, was, job) <= LogSize(area)
    ensures su.cr == cr && su.area == area && !su.inplace && su.mem0 == WithStart(area, mem, c)
    ensures su.Ok() && HeadersOk(su) && Slot0Fits(su) && IsStart(c) && LastCmd(su.mem0, SwapLog(area)) == Some(c)
    ensures Remaining(su, c) <= Room(su.mem0, SwapLog(area))
    ensures InSlot1(cr, area, su.mem0, job, sign) && su.OldLen() == Length(was)
  {
    hide Area.Ok, SwapGoing, LastCmd, TailBlank, WithStart, Fits, Room, SameOn, SwapInfoOf, ClearRequest, Requested,
         Setup.Ok, HeadersOk, Started, InSlot1, InSlot0, PrmRead, Job.Tlv, Slot0Fits, Remaining, LogSize, Sectors,
         SwapLog;
    var m := WithStart(area, mem, c);
    StartPhase(cmd1);
    StartLogged(area, mem, c);
    SlotsKept(cr, area, mem, c);
    FilesKept(cr, area, mem, m, was, job, sign);
    UpdateReady(cr, area, m, was, job, sign, c, su);
    ClassicFits(su);
    UpdateBudget(su, c, Length(was), Length(Some(job)), m);
  }

  lemma ClassicFits(su: Setup)
    ensures !su.inplace ==> Slot0Fits(su)
  {}

  lemma UpdateBudget(su: Setup, c: Cmd, m: nat, n: nat, mem: seq<byte>)
    requires su.area.sector > 0 && !su.inplace && Phase(c.cmd2) == CMD2_SWP_START && su.OldLen() == m
    requires su.NewLen() == n
    requires Room(mem, SwapLog(su.area)) == su.area.swpstat_size / SwapLog(su.area).stride - 1
    requires Sectors(m, su.area.sector) + 2 * Max(Sectors(m, su.area.sector), Sectors(n, su.area.sector)) + 5
          <= LogSize(su.area)
    ensures Remaining(su, c) <= Room(mem, SwapLog(su.area))
  {
    hide Sectors, Room;
  }

  lemma FilesKept(cr: Crypto, area: Area, mem: seq<byte>, m: seq<byte>, was: Option<Job>, job: Job,
                  sign: seq<byte> -> seq<byte>)
    requires Fits(cr, area, job, sign) && InSlot1(cr, area, mem, job, sign) && InSlot0(cr, area, mem, was, sign)
    requires SameOn(mem, m, area.slt0_offset, area.slt0_offset + area.slt0_size) && 4 <= area.slt0_size
    requires SameOn(mem, m, area.slt1_offset, area.slt1_offset + area.slt1_size)
    ensures InSlot1(cr, area, m, job, sign) && InSlot0(cr, area, m, was, sign)
  {
    ProductParts(cr, job, sign);
    hide Job.Product, Job.Header, Job.Tlv, Job.Content, SameOn, Slice, FieldsFit, U32;
    SameSlice(mem, m, area.slt1_offset, area.slt1_offset + area.slt1_size, area.slt1_offset, |job.Product(cr, sign)|);
    match was
    case None => SameMagic(mem, m, area.slt0_offset);
    case Some(j) =>
      SameSlice(mem, m, area.slt0_offset, area.slt0_offset + area.slt0_size, area.slt0_offset, |j.Header(cr, sign)|);
  }
}
