// Power loss and restart of a swap: what holds with the image info kept, and where reading it again goes wrong.
module Recovery {
  import opened Bytes
  import opened CmdLog
  import Ctr
  import opened Digest
  import opened Flash
  import opened Header
  import opened Images
  import opened Runs
  import opened Swap

  // ----- runs with power losses -----

  // A full turn; a full turn with a reset right after it; a step cut short anywhere in its erase or copy; a step
  // done completely whose log record is cut short.
  datatype Event = Turn | TurnThenReset | CutStep | CutRecord

  ghost predicate Moves(su: Setup, info: SwpInfo, a: seq<byte>, e: Event, b: seq<byte>) {
    && su.area.sector > 0
    && LastCmd(a, SwapLog(su.area)).Some?
    && var cmd := Current(su, a);
       && Going(cmd.cmd2) && cmd.cmd1 != CMD1_ERROR
       && match e
          case Turn => b == Iter(su.cr, su.area, info, a)
          case TurnThenReset => b == Iter(su.cr, su.area, info, a)
          case CutStep => var (lo, hi) := Target(su.area, info, cmd); SameOutside(a, b, lo, hi)
          case CutRecord => Torn(StepMem(su.cr, su.area, info, cmd, a), b, SwapLog(su.area))
  }

  predicate IsTurn(e: Event) {
    e.Turn? || e.TurnThenReset?
  }

  function Turns(es: seq<Event>): nat {
    if es == [] then 0 else Turns(es[..|es| - 1]) + if IsTurn(es[|es| - 1]) then 1 else 0
  }

  function TornRecords(es: seq<Event>): nat {
    if es == [] then 0 else TornRecords(es[..|es| - 1]) + if es[|es| - 1].CutRecord? then 1 else 0
  }

  // A run, events and flash contents alternating, in which info[j] is the image info in use at event j.
  ghost predicate IsRun(su: Setup, ms: seq<seq<byte>>, es: seq<Event>, infos: seq<SwpInfo>) {
    && |ms| == |infos| == |es| + 1
    && forall j :: 0 <= j < |es| ==> Moves(su, infos[j], ms[j], es[j], ms[j + 1])
  }

  // One event, whatever it is, keeps both images; only full turns advance, and only they and torn records use the log.
  lemma EventKeeps(su: Setup, a: seq<byte>, e: Event, b: seq<byte>)
    requires su.Ok() && RunState(su, a) && Moves(su, su.info, a, e, b)
    requires IsTurn(e) ==> LogRoom(su, a) > 0
    ensures RunState(su, b)
    ensures Left(su, b) == Left(su, a) - if IsTurn(e) then 1 else 0
    ensures LogRoom(su, a) - 1 <= LogRoom(su, b) <= LogRoom(su, a)
    ensures e.CutStep? ==> LogRoom(su, b) == LogRoom(su, a)
    ensures !IsTurn(e) ==> Current(su, b) == Current(su, a)
  {
    var cmd := Current(su, a);
    match e
    case Turn => IterKeeps(su, a);
    case TurnThenReset => IterKeeps(su, a);
    case CutStep =>
      hide Intact, Setup.Ok, CmdOk, Commands, FirstFree, Records, Target;
      NothingLost(su, cmd, a, b);
      SameLogAfterStep(su, cmd, a, b);
    case CutRecord =>
      CutRecordKeeps(su, a, b);
  }

  lemma CutRecordKeeps(su: Setup, a: seq<byte>, b: seq<byte>)
    requires su.Ok() && RunState(su, a) && Moves(su, su.info, a, CutRecord, b)
    ensures RunState(su, b) && Current(su, b) == Current(su, a)
    ensures LogRoom(su, a) - 1 <= LogRoom(su, b) <= LogRoom(su, a)
  {
    var cmd, log := Current(su, a), SwapLog(su.area);
    var d := StepMem(su.cr, su.area, su.info, cmd, a);
    StepKeeps(su, cmd, a);
    NothingLost(su, cmd, a, d);
    SameLogAfterStep(su, cmd, a, d);
    SwapLogOk(su.area);
    var f := FirstFree(d, log.start, log);
    FreeFits(d, log, su.area.block);
    RecordOutsideSlots(su.area, f, f + 4);
    hide Intact, Setup.Ok, CmdOk, Commands, FirstFree, Records, Target, StepMem, Crc8;
    TornKeepsCommands(d, b, log, su.area.block);
    IntactOutside(su, PosOf(su.area.sector, cmd), d, b, f, f + 4);
  }

  // The requests a step sends to the flash driver stay in its target (see CmdStep), so power lost during any of them,
  // with any effect on the range of that request, is a cut step.
  lemma StepCutShort(su: Setup, mem: seq<byte>, ops: seq<Op>, j: nat, torn: seq<byte>)
    requires su.Ok() && RunState(su, mem) && Going(Current(su, mem).cmd2)
    requires var (lo, hi) := Target(su.area, su.info, Current(su, mem)); Within(ops, lo, hi)
    requires j < |ops| && CutShort(mem, ops, j, torn)
    ensures Moves(su, su.info, mem, CutStep, torn)
  {
    hide Setup.Ok, Intact, Target, CutShort, Within, Going;
    var (lo, hi) := Target(su.area, su.info, Current(su, mem));
    CutShortStaysInside(mem, ops, j, torn, lo, hi);
  }

  // Restart safety with the image info held fixed: any number of power losses anywhere, as long as the log has
  // room for the turns that are left and the records torn on the way.
  lemma {:induction false} CrashSafe(su: Setup, ms: seq<seq<byte>>, es: seq<Event>, infos: seq<SwpInfo>)
    requires su.Ok() && IsRun(su, ms, es, infos) && RunState(su, ms[0])
    requires forall j :: 0 <= j < |infos| ==> infos[j] == su.info
    requires Left(su, ms[0]) + TornRecords(es) <= LogRoom(su, ms[0])
    ensures RunState(su, ms[|es|])
    ensures Left(su, ms[|es|]) == Left(su, ms[0]) - Turns(es)
    ensures LogRoom(su, ms[|es|]) >= LogRoom(su, ms[0]) - Turns(es) - TornRecords(es)
  {
    hide Setup.Ok, RunState, Moves, Left;
    if es != [] {
      var n := |es| - 1;
      CrashSafe(su, ms[..n + 1], es[..n], infos[..n + 1]);
      assert Moves(su, infos[n], ms[n], es[n], ms[n + 1]);
      StillRoom(su, ms[n], infos[n], es[n], ms[n + 1]);
      EventKeeps(su, ms[n], es[n], ms[n + 1]);
    }
  }

  lemma StillRoom(su: Setup, a: seq<byte>, info: SwpInfo, e: Event, b: seq<byte>)
    requires su.Ok() && RunState(su, a) && Moves(su, info, a, e, b)
    ensures Left(su, a) > 0
  {
    LeftPositive(su, Current(su, a));
  }

  // Once as many turns were completed as an undisturbed run takes, both images are where it would have put them.
  lemma CrashSafeResult(su: Setup, ms: seq<seq<byte>>, es: seq<Event>, infos: seq<SwpInfo>)
    requires su.Ok() && Started(su) && IsRun(su, ms, es, infos) && ms[0] == su.mem0
    requires forall j :: 0 <= j < |infos| ==> infos[j] == su.info
    requires Left(su, su.mem0) + TornRecords(es) <= LogRoom(su, su.mem0)
    ensures Turns(es) <= Left(su, su.mem0)
    ensures Turns(es) == Left(su, su.mem0) <==> Ended(su, ms[|es|])
    ensures Ended(su, ms[|es|]) ==> Swapped(su, ms[|es|])
  {
    assert |ms| == |es| + 1;
    hide Setup.Ok, IsRun, Swapped, RunState, Left, Ended, Started;
    StartState(su);
    CrashSafe(su, ms, es, infos);
    EndsExactly(su, ms[|es|]);
  }

  lemma EndsExactly(su: Setup, r: seq<byte>)
    requires su.Ok() && RunState(su, r)
    ensures Left(su, r) >= 0 && (Left(su, r) == 0 <==> Ended(su, r))
    ensures Ended(su, r) ==> Swapped(su, r)
  {
    LeftPositive(su, Current(su, r));
    PhaseCases(su, Current(su, r));
    hide Setup.Ok, Swapped, Intact, Remaining, CmdOk, Phase;
    if Ended(su, r) {
      EndImages(su, r);
    }
  }

  // ----- reading the image info again -----

  // The headers the swap reads lie in the first sector and before the encrypted part of their images.
  ghost predicate HeaderIn(area: Area, mem: seq<byte>, i: ImgInfo) {
    && Magic(mem, i.hdr_start) == TLV_AREA_MAGIC
    && TLV_HDR_SIZE <= TlvAreaSize(mem, i.hdr_start) <= area.sector
    && i.hdr_start + TlvAreaSize(mem, i.hdr_start) <= i.enc_start
    && i.hdr_start + TlvAreaSize(mem, i.hdr_start) <= i.end
  }

  // The info in use is the one read from the headers when the swap started.
  ghost predicate Loaded(su: Setup) {
    && Started(su)
    && su.info == SwapInfoOf(su.cr, su.area, su.mem0, Current(su, su.mem0))
    && su.info.fr.is_valid && HeaderIn(su.area, su.mem0, su.info.fr)
    && (su.info.EndTo() > 0 ==> HeaderIn(su.area, su.mem0, su.info.to))
    && (Magic(su.mem0, su.To()) == TLV_AREA_MAGIC ==> TlvAreaSize(su.mem0, su.To()) <= su.area.sector)
  }

  // Two flash contents that agree on the header at h.
  ghost predicate SameHeaderOctets(a: seq<byte>, b: seq<byte>, h: int) {
    && SameOn(a, b, h, h + 4)
    && (Magic(a, h) == TLV_AREA_MAGIC ==> SameOn(a, b, h, h + Max(TLV_HDR_SIZE, TlvAreaSize(a, h))))
  }

  // What a header says depends on its own octets only.
  lemma SameHeader(cr: Crypto, area: Area, a: seq<byte>, b: seq<byte>, slt: nat)
    requires SameHeaderOctets(a, b, SlotOffset(area, slt))
    ensures ReadInfo(cr, b, area, slt, 0) == ReadInfo(cr, a, area, slt, 0)
  {
    hide ParseInfo, Magic, TlvArea, TlvAreaSize, SlotOffset;
    var h := SlotOffset(area, slt);
    SameMagic(a, b, h);
    if Magic(a, h) == TLV_AREA_MAGIC {
      SameArea(a, b, h);
    }
  }

  // The header found at `at` is, octet for octet, the one that was at `from` when the swap started.
  ghost predicate HeaderFrom(mem: seq<byte>, at: int, mem0: seq<byte>, from: int) {
    && Magic(mem, at) == TLV_AREA_MAGIC == Magic(mem0, from)
    && TlvAreaSize(mem, at) == TlvAreaSize(mem0, from) && TlvArea(mem, at) == TlvArea(mem0, from)
  }

  // The phases in which the code reads the right headers at the right places again.
  predicate SafePhase(cmd: Cmd) {
    || Phase(cmd.cmd2) == CMD2_SWP_START
    || Phase(cmd.cmd2) == CMD2_MOVE_UP
    || (Phase(cmd.cmd2) == CMD2_SWP_P2 && Inplace(cmd.cmd2) && cmd.cmd3 > 0)
  }

  lemma LoadedSizes(su: Setup)
    requires su.Ok() && Loaded(su)
    ensures var s := su.area.sector;
            && TLV_HDR_SIZE <= s && TlvAreaSize(su.mem0, su.Fr()) <= s
            && (Magic(su.mem0, su.To()) == TLV_AREA_MAGIC ==> TlvAreaSize(su.mem0, su.To()) <= s)
            && su.Fr() == su.area.slt1_offset && su.To() == if su.inplace then su.Fr() else su.area.slt0_offset
  {
    hide U32, U16, SwapInfoOf, Started, Area.Ok, Sectors;
  }

  lemma WithinSector(a: seq<byte>, b: seq<byte>, h: int, s: nat)
    requires TLV_HDR_SIZE <= s && SameOn(a, b, h, h + s)
    requires Magic(a, h) == TLV_AREA_MAGIC ==> TlvAreaSize(a, h) <= s
    ensures SameHeaderOctets(a, b, h)
  {
    hide U32, U16;
  }

  lemma StartHeaders(su: Setup, mem: seq<byte>)
    requires su.Ok() && Loaded(su) && RunState(su, mem) && Phase(Current(su, mem).cmd2) == CMD2_SWP_START
    ensures SameHeaderOctets(su.mem0, mem, su.To()) && SameHeaderOctets(su.mem0, mem, su.Fr())
  {
    hide Magic, TlvAreaSize, Loaded, RunState, Setup.Ok, SameHeaderOctets, SameOn;
    LoadedSizes(su);
    StartSlots(su, mem);
    WithinSector(su.mem0, mem, su.To(), su.area.sector);
    WithinSector(su.mem0, mem, su.Fr(), su.area.sector);
  }

  lemma StartSlots(su: Setup, mem: seq<byte>)
    requires su.Ok() && RunState(su, mem) && Phase(Current(su, mem).cmd2) == CMD2_SWP_START
    ensures SameOn(su.mem0, mem, su.area.slt0_offset, su.area.slt0_offset + su.area.sector)
    ensures SameOn(su.mem0, mem, su.area.slt1_offset, su.area.slt1_offset + su.area.sector)
  {
    hide Transform, Sectors, Slice;
  }

  lemma MoveUpHeaders(su: Setup, mem: seq<byte>)
    requires su.Ok() && Loaded(su) && RunState(su, mem) && Phase(Current(su, mem).cmd2) == CMD2_MOVE_UP
    ensures SameHeaderOctets(su.mem0, mem, su.To()) && SameHeaderOctets(su.mem0, mem, su.Fr())
  {
    hide U32, U16, Sectors, RunState, Setup.Ok, Loaded, Holds, HeaderIn, SameHeaderOctets, LastCmd, SwapLog, KeepForRam,
         ReadInfo, Setup.OldLen, Setup.NewLen, Phase;
    MoveUpPlaces(su, mem);
    PlaceFacts(su);
    LoadedFrom(su);
    var hi := Current(su, mem).cmd3 * su.area.sector + su.area.sector;
    HeaderHeld(su.area, su.mem0, mem, su.info.to, hi, su.Old());
    if !su.inplace {
      HeaderHeld(su.area, su.mem0, mem, su.info.fr, su.NewLen(), su.New());
    }
  }

  lemma MoveUpPlaces(su: Setup, mem: seq<byte>)
    requires su.Ok() && RunState(su, mem) && Phase(Current(su, mem).cmd2) == CMD2_MOVE_UP
    ensures LastCmd(mem, SwapLog(su.area)).Some? && su.info.EndTo() > 0
    ensures var hi := Current(su, mem).cmd3 * su.area.sector + su.area.sector;
            su.area.sector <= hi && Holds(mem, su.To(), 0, hi, su.Old())
    ensures !su.inplace ==> Holds(mem, su.Fr(), 0, su.NewLen(), su.New())
    ensures |su.Old()| == su.info.to.end - su.info.to.hdr_start
    ensures !su.inplace ==> |su.New()| == su.NewLen() == su.info.fr.end - su.info.fr.hdr_start
    ensures su.inplace ==> su.info.to == su.info.fr
  {
    SlotsApart(su);
    SectorsFacts(su.OldLen(), su.area.sector, Current(su, mem).cmd3);
    MulMonotone(0, Current(su, mem).cmd3, su.area.sector);
    hide Area.Ok, EncOk, Sectors, Untouched, Holds, LastCmd;
  }

  // A header that is part of an image is where the image is.
  lemma HeaderHeld(area: Area, mem0: seq<byte>, mem: seq<byte>, i: ImgInfo, hi: int, img: seq<byte>)
    requires HeaderIn(area, mem0, i) && Holds(mem, i.hdr_start, 0, hi, img)
    requires area.sector <= hi || |img| <= hi
    requires |img| == i.end - i.hdr_start && img == Slice(mem0, i.hdr_start, |img|)
    ensures SameHeaderOctets(mem0, mem, i.hdr_start)
  {
    hide U32, U16;
    var n := Min(hi, |img|);
    forall a {:trigger At(mem, a)} | i.hdr_start <= a < i.hdr_start + n
      ensures At(mem, a) == At(mem0, a)
    {
      assert At(mem, a) == img[a - i.hdr_start];
    }
  }

  lemma InplaceHeaders(su: Setup, mem: seq<byte>)
    requires su.Ok() && Loaded(su) && RunState(su, mem) && su.inplace
    requires Phase(Current(su, mem).cmd2) == CMD2_SWP_P2 && Current(su, mem).cmd3 > 0
    ensures SameHeaderOctets(su.mem0, mem, su.Fr())
  {
    var cmd, s := Current(su, mem), su.area.sector;
    var off := cmd.cmd3 * s;
    MulMonotone(1, cmd.cmd3, s);
    SlotsApart(su);
    assert su.info.EndTo() == |su.Old()| && HeaderIn(su.area, su.mem0, su.info.to);
    assert Holds(mem, su.Fr(), 0, off, su.OldOut()) && su.To() == su.Fr() && s <= off;
    hide RunState, Setup.Ok, Loaded;
    HeaderAfterMove(su.cr.aes, su.area, su.mem0, mem, su.info.to, off, su.Old());
  }

  // The header part of an image comes through a move unchanged.
  lemma HeaderAfterMove(aes: Ctr.Aes, area: Area, mem0: seq<byte>, mem: seq<byte>, i: ImgInfo, hi: int, img: seq<byte>)
    requires HeaderIn(area, mem0, i) && Holds(mem, i.hdr_start, 0, hi, Transform(aes, i, img)) && area.sector <= hi
    requires |img| == i.end - i.hdr_start && img == Slice(mem0, i.hdr_start, |img|)
    ensures SameHeaderOctets(mem0, mem, i.hdr_start)
  {
    hide U32, U16, Xor, Ctr.Keystream;
    var n := TlvAreaSize(mem0, i.hdr_start);
    forall a {:trigger At(mem, a)} | i.hdr_start <= a < i.hdr_start + n
      ensures At(mem, a) == At(mem0, a)
    {
      assert At(mem, a) == Transform(aes, i, img)[a - i.hdr_start] == img[a - i.hdr_start];
    }
  }

  // Where the code gets it right: the info read again after a restart is the info the run started with.
  lemma ReloadStable(su: Setup, mem: seq<byte>)
    requires su.Ok() && Loaded(su) && RunState(su, mem) && SafePhase(Current(su, mem))
    ensures SwapInfoOf(su.cr, su.area, mem, Current(su, mem)) == su.info
  {
    if Phase(Current(su, mem).cmd2) == CMD2_SWP_START {
      StartHeaders(su, mem);
    } else if Phase(Current(su, mem).cmd2) == CMD2_MOVE_UP {
      MoveUpHeaders(su, mem);
    } else {
      InplaceHeaders(su, mem);
    }
    SameInfo(su, mem, Current(su, mem));
  }

  lemma SameInfo(su: Setup, mem: seq<byte>, cmd: Cmd)
    requires su.Ok() && Loaded(su) && SafePhase(cmd) && Inplace(cmd.cmd2) == su.inplace
    requires SameHeaderOctets(su.mem0, mem, su.Fr()) && (!su.inplace ==> SameHeaderOctets(su.mem0, mem, su.To()))
    ensures SwapInfoOf(su.cr, su.area, mem, cmd) == su.info
  {
    LoadedFrom(su);
    assert su.inplace ==> su.info.to == su.info.fr;
    SafeInfo(su.cr, su.area, mem, cmd);
    hide Loaded, Setup.Ok, ReadInfo, SwapInfoOf, SafePhase, KeepForRam, HeaderIn, SameHeaderOctets;
    SameHeader(su.cr, su.area, su.mem0, mem, 1);
    if !su.inplace {
      SameHeader(su.cr, su.area, su.mem0, mem, 0);
    }
    assert SwapInfoOf(su.cr, su.area, mem, cmd).fr == su.info.fr;
  }

  lemma SafeInfo(cr: Crypto, area: Area, mem: seq<byte>, cmd: Cmd)
    requires SafePhase(cmd)
    ensures var slt0 := if Inplace(cmd.cmd2) then 1 else 0;
            SwapInfoOf(cr, area, mem, cmd)
            == SwpInfo(KeepForRam(area, ReadInfo(cr, mem, area, slt0, 0)),
                       KeepForRam(area, ReadInfo(cr, mem, area, 1, 0)))
  {
    hide ReadInfo, KeepForRam, Inplace;
  }

  // ----- where reading it again goes wrong -----

  lemma ReadInfoAt(cr: Crypto, area: Area, mem: seq<byte>, slt: nat, eoff: nat)
    ensures var h, i := SlotOffset(area, slt), KeepForRam(area, ReadInfo(cr, mem, area, slt, eoff));
            && i.hdr_start == h <= i.end
            && (Magic(mem, h + eoff) != TLV_AREA_MAGIC ==> !i.is_valid && i.end == h && i.enc_start == h)
  {
    var h := SlotOffset(area, slt);
    InfoBounds(cr, TlvArea(mem, h + eoff), h, None);
    hide ParseInfo, TlvArea, U32;
  }

  // In classic P1 and P2 the info read again is wrong. After the first sector the two slots are mixed up; at the
  // first sector the new image's header is looked for one sector too high, where there is none (unless the second
  // sector of the new image happens to begin like a header).
  lemma ReloadWrong(su: Setup, mem: seq<byte>, cmd: Cmd, r: SwpInfo)
    requires su.Ok() && Loaded(su) && RunState(su, mem) && !su.inplace && cmd == Current(su, mem)
    requires Phase(cmd.cmd2) == CMD2_SWP_P1 || Phase(cmd.cmd2) == CMD2_SWP_P2
    requires cmd.cmd3 == 0 ==> Magic(mem, su.Fr() + su.area.sector) != TLV_AREA_MAGIC
    requires r == SwapInfoOf(su.cr, su.area, mem, cmd)
    ensures r != su.info
    ensures if cmd.cmd3 > 0 then r.to.hdr_start == su.Fr() && r.fr.hdr_start == su.To()
            else r.EndFr() == 0 && r.fr.hdr_start == su.Fr() && r.to.hdr_start == su.To()
  {
    LoadedFrom(su);
    assert !Inplace(cmd.cmd2) && su.info.fr.is_valid;
    SlotsDiffer(su);
    hide Setup.Ok, Loaded, RunState, Inplace, Phase, Magic, SwapInfoOf, HeaderIn, KeepForRam, ReadInfo;
    WrongInfo(su, mem, cmd, r);
  }

  lemma SlotsDiffer(su: Setup)
    requires su.Ok() && !su.inplace
    ensures su.To() != su.Fr()
  {}

  lemma WrongInfo(su: Setup, mem: seq<byte>, cmd: Cmd, r: SwpInfo)
    requires !Inplace(cmd.cmd2) && (Phase(cmd.cmd2) == CMD2_SWP_P1 || Phase(cmd.cmd2) == CMD2_SWP_P2)
    requires cmd.cmd3 == 0 ==> Magic(mem, su.Fr() + su.area.sector) != TLV_AREA_MAGIC
    requires r == SwapInfoOf(su.cr, su.area, mem, cmd)
    requires su.info.fr.is_valid && su.To() == su.area.slt0_offset && su.Fr() == su.area.slt1_offset
    requires su.To() != su.Fr()
    ensures r != su.info
    ensures if cmd.cmd3 > 0 then r.to.hdr_start == su.Fr() && r.fr.hdr_start == su.To()
            else r.EndFr() == 0 && r.fr.hdr_start == su.Fr() && r.to.hdr_start == su.To()
  {
    hide SwapInfoOf, Magic, Inplace, Phase;
    Misread(su.cr, su.area, mem, cmd);
  }

  lemma Misread(cr: Crypto, area: Area, mem: seq<byte>, cmd: Cmd)
    requires !Inplace(cmd.cmd2) && (Phase(cmd.cmd2) == CMD2_SWP_P1 || Phase(cmd.cmd2) == CMD2_SWP_P2)
    requires cmd.cmd3 == 0 ==> Magic(mem, area.slt1_offset + area.sector) != TLV_AREA_MAGIC
    ensures var r := SwapInfoOf(cr, area, mem, cmd);
            if cmd.cmd3 > 0 then r.to.hdr_start == area.slt1_offset && r.fr.hdr_start == area.slt0_offset
            else
              && r.EndFr() == 0 && !r.fr.is_valid
              && r.fr.hdr_start == area.slt1_offset && r.to.hdr_start == area.slt0_offset
  {
    hide ReadInfo, Magic, Inplace, KeepForRam;
    if cmd.cmd3 > 0 {
      ReadInfoAt(cr, area, mem, 1, 0);
      ReadInfoAt(cr, area, mem, 0, 0);
    } else {
      ReadInfoAt(cr, area, mem, 0, area.sector);
      ReadInfoAt(cr, area, mem, 1, area.sector);
    }
  }

  // The commands at which the header of the image in slot 1 may be on its way, and where the code then looks for it.
  predicate AtHeader(cmd: Cmd) {
    (Phase(cmd.cmd2) == CMD2_SWP_P1 || Phase(cmd.cmd2) == CMD2_SWP_P2) && cmd.cmd3 == 0
  }

  function HeaderPlace(su: Setup): int {
    if su.inplace then su.Fr() else su.Fr() + su.area.sector
  }

  // The header is found there, as it was: in place, because the interrupted step has not reached it yet; in a classic
  // swap only if the second sector of the new image begins with a copy of it, and an old image gives the other info.
  ghost predicate HeaderThere(su: Setup, mem: seq<byte>) {
    HeaderFrom(mem, HeaderPlace(su), su.mem0, su.Fr()) && (su.inplace || su.OldLen() > 0)
  }

  // A header found one sector up says the same as the one it was copied from.
  lemma InfoAt(cr: Crypto, area: Area, mem: seq<byte>, slt: nat, eoff: nat, mem0: seq<byte>)
    requires HeaderFrom(mem, SlotOffset(area, slt) + eoff, mem0, SlotOffset(area, slt))
    ensures ReadInfo(cr, mem, area, slt, eoff) == ReadInfo(cr, mem0, area, slt, 0)
  {
    hide ParseInfo, Magic, TlvArea, TlvAreaSize, SlotOffset;
  }

  // The old image starts one sector up while the header is on its way.
  lemma OldHeaderUp(su: Setup, mem: seq<byte>)
    requires su.Ok() && Loaded(su) && RunState(su, mem) && !su.inplace && su.OldLen() > 0 && AtHeader(Current(su, mem))
    ensures HeaderFrom(mem, su.To() + su.area.sector, su.mem0, su.To())
  {
    hide Setup.Ok, Loaded, RunState, Magic, TlvArea, TlvAreaSize, Holds, LastCmd, SwapLog, HeaderIn, AtHeader;
    OldUp(su, mem);
    LoadedFrom(su);
    HeldUp(su.area, su.mem0, mem, su.info.to, su.To() + su.area.sector, su.Old());
  }

  lemma OldUp(su: Setup, mem: seq<byte>)
    requires su.Ok() && RunState(su, mem) && !su.inplace && su.OldLen() > 0 && AtHeader(Current(su, mem))
    ensures Holds(mem, su.To() + su.area.sector, 0, su.OldLen(), su.Old()) && |su.Old()| == su.OldLen()
    ensures su.OldLen() == su.info.to.end - su.info.to.hdr_start
  {
    SlotsApart(su);
    hide Setup.Ok, Untouched, NewPlaces, CmdOk, Holds;
  }

  lemma HeldUp(area: Area, mem0: seq<byte>, mem: seq<byte>, i: ImgInfo, at: int, img: seq<byte>)
    requires HeaderIn(area, mem0, i) && Holds(mem, at, 0, |img|, img)
    requires |img| == i.end - i.hdr_start && img == Slice(mem0, i.hdr_start, |img|)
    ensures HeaderFrom(mem, at, mem0, i.hdr_start)
  {
    hide U32, U16, TlvArea;
    var n := TlvAreaSize(mem0, i.hdr_start);
    var a, b := Slice(mem, at, n), Slice(mem0, i.hdr_start, n);
    forall k | 0 <= k < n
      ensures a[k] == b[k]
    {
      assert a[k] == At(mem, at + k) == img[k];
    }
    SameSliceHeader(mem, at, mem0, i.hdr_start, n);
  }

  // With the header there a restart at sector 0 recovers the right info.
  lemma HeaderThereReloads(su: Setup, mem: seq<byte>)
    requires su.Ok() && Loaded(su) && RunState(su, mem) && AtHeader(Current(su, mem)) && HeaderThere(su, mem)
    ensures SwapInfoOf(su.cr, su.area, mem, Current(su, mem)) == su.info
  {
    hide Setup.Ok, Loaded, RunState, SwapInfoOf, HeaderFrom, ReadInfo, LastCmd, SwapLog, KeepForRam, HeaderIn, AtHeader;
    LoadedFrom(su);
    InplaceSame(su, mem);
    HeaderPlacesAt(su, mem);
    if su.inplace {
      InfoAt(su.cr, su.area, mem, 1, 0, su.mem0);
    } else {
      OldHeaderUp(su, mem);
      InfoAt(su.cr, su.area, mem, 1, su.area.sector, su.mem0);
      InfoAt(su.cr, su.area, mem, 0, su.area.sector, su.mem0);
    }
  }

  lemma InplaceSame(su: Setup, mem: seq<byte>)
    requires su.Ok() && RunState(su, mem)
    ensures LastCmd(mem, SwapLog(su.area)).Some? && Inplace(Current(su, mem).cmd2) == su.inplace
    ensures su.inplace ==> su.info.to == su.info.fr
  {
    hide Intact, LastCmd, Inplace, Sectors, EncOk, Area.Ok;
  }

  lemma HeaderPlacesAt(su: Setup, mem: seq<byte>)
    requires LastCmd(mem, SwapLog(su.area)).Some? && AtHeader(Current(su, mem))
    requires Inplace(Current(su, mem).cmd2) == su.inplace
    ensures HeaderPlaces(su.area.sector, Current(su, mem)) == if su.inplace then (1, 1, 0) else (0, 1, su.area.sector)
    ensures var slt0, eoff := if su.inplace then 1 else 0, if su.inplace then 0 else su.area.sector;
            SwapInfoOf(su.cr, su.area, mem, Current(su, mem))
            == SwpInfo(KeepForRam(su.area, ReadInfo(su.cr, mem, su.area, slt0, eoff)),
                       KeepForRam(su.area, ReadInfo(su.cr, mem, su.area, 1, eoff)))
  {
    hide LastCmd, SwapLog, Inplace, ReadInfo, KeepForRam;
  }

  // Exactly when the info read again after a restart is right, in the phases that use it: in the safe phases, and at
  // sector 0 of P1 and P2 when the header is found where the code looks for it. What lies there must be that header
  // or no header at all; other contents with the magic word are left out.
  lemma ReloadExact(su: Setup, mem: seq<byte>)
    requires su.Ok() && Loaded(su) && RunState(su, mem)
    requires var cmd := Current(su, mem);
             && Phase(cmd.cmd2) in {CMD2_SWP_START, CMD2_MOVE_UP, CMD2_SWP_P1, CMD2_SWP_P2}
             && (AtHeader(cmd) ==> HeaderThere(su, mem) || Magic(mem, HeaderPlace(su)) != TLV_AREA_MAGIC)
    ensures SwapInfoOf(su.cr, su.area, mem, Current(su, mem)) == su.info
            <==> SafePhase(Current(su, mem)) || (AtHeader(Current(su, mem)) && HeaderThere(su, mem))
  {
    hide Setup.Ok, Loaded, RunState, SwapInfoOf, Magic, Inplace, Phase, HeaderThere, LastCmd, SwapLog, Current;
    InplaceSame(su, mem);
    var cmd := Current(su, mem);
    if su.inplace {
      InplaceNotP1(su, mem);
    }
    if SafePhase(cmd) {
      ReloadStable(su, mem);
    } else if AtHeader(cmd) && HeaderThere(su, mem) {
      HeaderThereReloads(su, mem);
    } else if su.inplace {
      InplaceHeaderGone(su, mem);
    } else {
      ReloadWrong(su, mem, cmd, SwapInfoOf(su.cr, su.area, mem, cmd));
    }
  }

  lemma InplaceNotP1(su: Setup, mem: seq<byte>)
    requires su.Ok() && RunState(su, mem) && su.inplace
    ensures Phase(Current(su, mem).cmd2) != CMD2_SWP_P1
  {
    hide Intact, LastCmd, Inplace, Sectors, EncOk, Area.Ok;
  }

  // In-place P2 at sector 0, interrupted after its erase has reached the header: the restart finds no image, and
  // the run goes on to P3 without moving anything, one sector after the other left where it is.
  lemma InplaceHeaderGone(su: Setup, mem: seq<byte>)
    requires su.Ok() && RunState(su, mem) && su.inplace
    requires Phase(Current(su, mem).cmd2) == CMD2_SWP_P2 && Current(su, mem).cmd3 == 0
    requires Magic(mem, su.Fr()) != TLV_AREA_MAGIC
    ensures var cmd := Current(su, mem);
            var r := SwapInfoOf(su.cr, su.area, mem, cmd);
            r != su.info
            && StepMem(su.cr, su.area, r, cmd, mem) == mem
            && Phase(NextCmd(su.area.sector, r, cmd).cmd2) == CMD2_SWP_P3
  {
    var cmd := Current(su, mem);
    assert Inplace(cmd.cmd2) && su.info.fr.is_valid && su.Fr() == su.area.slt1_offset;
    PhaseBits(CMD2_SWP_P3, true);
    hide Setup.Ok, RunState, ReadInfo, Magic, Inplace, WithInplace;
    ReadInfoAt(su.cr, su.area, mem, 1, 0);
  }

  lemma LoadedFrom(su: Setup)
    requires su.Ok() && Loaded(su)
    ensures su.info.fr == KeepForRam(su.area, ReadInfo(su.cr, su.mem0, su.area, 1, 0))
    ensures !su.inplace ==> su.info.to == KeepForRam(su.area, ReadInfo(su.cr, su.mem0, su.area, 0, 0))
    ensures HeaderIn(su.area, su.mem0, su.info.fr) && su.Fr() == su.area.slt1_offset
    ensures su.info.EndTo() > 0 ==> HeaderIn(su.area, su.mem0, su.info.to)
    ensures !su.inplace ==> su.To() == su.area.slt0_offset
  {
    hide ReadInfo, HeaderIn, Sectors, Area.Ok;
  }

  lemma MagicOf(area: Area, mem: seq<byte>, i: ImgInfo)
    requires HeaderIn(area, mem, i)
    ensures Magic(mem, i.hdr_start) == TLV_AREA_MAGIC
  {}

  // The info of an image at another place is the same, moved along.
  lemma ParseRelative(cr: Crypto, tlv: seq<byte>, h: nat, h': nat)
    ensures var i, j := ParseInfo(cr, tlv, h, None), ParseInfo(cr, tlv, h', None);
            && i.hdr_start == h && j.hdr_start == h' && i.end - h == j.end - h'
            && i.enc_start - h == j.enc_start - h' && i.start - h == j.start - h'
            && i.enc_key == j.enc_key && i.is_valid == j.is_valid && i.version == j.version
            && (i.is_valid ==> i.load_address == j.load_address)
  {
    hide Find, InfoStart, InfoSize, InfoLoad, InfoVersion;
  }

  // A header that has been moved with its image says the same about it, relative to its new place.
  lemma MovedHeader(cr: Crypto, area: Area, mem0: seq<byte>, mem: seq<byte>, i: ImgInfo, to: int, hi: int,
                    img: seq<byte>)
    requires HeaderIn(area, mem0, i) && Holds(mem, to, 0, hi, Transform(cr.aes, i, img)) && area.sector <= hi
    requires |img| == i.end - i.hdr_start && img == Slice(mem0, i.hdr_start, |img|)
    ensures HeaderFrom(mem, to, mem0, i.hdr_start)
  {
    var n := TlvAreaSize(mem0, i.hdr_start);
    ImageHead(cr, mem0, mem, i, to, hi, img, n);
    SameSliceHeader(mem, to, mem0, i.hdr_start, n);
  }

  lemma ImageHead(cr: Crypto, mem0: seq<byte>, mem: seq<byte>, i: ImgInfo, to: int, hi: int, img: seq<byte>, n: nat)
    requires Holds(mem, to, 0, hi, Transform(cr.aes, i, img)) && n <= hi && n <= |img| && i.hdr_start + n <= i.enc_start
    requires img == Slice(mem0, i.hdr_start, |img|)
    ensures Slice(mem, to, n) == Slice(mem0, i.hdr_start, n)
  {
    hide Xor, Ctr.Keystream;
    var a, b, t := Slice(mem, to, n), Slice(mem0, i.hdr_start, n), Transform(cr.aes, i, img);
    forall k | 0 <= k < n
      ensures a[k] == b[k]
    {
      assert a[k] == At(mem, to + k) == t[k] == img[k];
    }
  }

  lemma SameSliceHeader(a: seq<byte>, x: int, b: seq<byte>, y: int, n: nat)
    requires Slice(a, x, n) == Slice(b, y, n) && TLV_HDR_SIZE <= n == TlvAreaSize(b, y)
    ensures Magic(a, x) == Magic(b, y) && TlvAreaSize(a, x) == n && TlvArea(a, x) == TlvArea(b, y)
  {
    hide U32, U16;
    var s, t := Slice(a, x, n), Slice(b, y, n);
    assert s[0] == t[0] && s[1] == t[1] && s[2] == t[2] && s[3] == t[3] && s[4] == t[4] && s[5] == t[5];
    SliceTail(a, x, TLV_HDR_SIZE, n);
    SliceTail(b, y, TLV_HDR_SIZE, n);
  }

  // ----- what it says then -----

  lemma InfoPastFirst(su: Setup, mem: seq<byte>)
    requires su.Ok() && RunState(su, mem) && !su.inplace && Current(su, mem).cmd3 > 0
    requires Phase(Current(su, mem).cmd2) == CMD2_SWP_P1 || Phase(Current(su, mem).cmd2) == CMD2_SWP_P2
    ensures SwapInfoOf(su.cr, su.area, mem, Current(su, mem))
         == SwpInfo(KeepForRam(su.area, ReadInfo(su.cr, mem, su.area, 1, 0)),
                    KeepForRam(su.area, ReadInfo(su.cr, mem, su.area, 0, 0)))
  {
    hide ReadInfo, Setup.Ok, Intact, KeepForRam;
  }

  // Where the images are in P1 and P2.
  lemma PlacesInSwap(su: Setup, mem: seq<byte>)
    requires su.Ok() && RunState(su, mem) && !su.inplace
    requires Phase(Current(su, mem).cmd2) == CMD2_SWP_P1 || Phase(Current(su, mem).cmd2) == CMD2_SWP_P2
    ensures LastCmd(mem, SwapLog(su.area)).Some? && su.area.sector > 0
    ensures |su.Old()| == Max(0, su.OldLen()) == |su.OldOut()| && |su.New()| == Max(0, su.NewLen()) == |su.NewOut()|
    ensures var off, s := Current(su, mem).cmd3 * su.area.sector, su.area.sector;
            && 0 <= off && (Current(su, mem).cmd3 > 0 ==> s <= off)
            && (Phase(Current(su, mem).cmd2) == CMD2_SWP_P1 ==> Holds(mem, su.To(), 0, off, su.NewOut()))
            && Holds(mem, su.Fr(), 0, off, su.OldOut())
            && (Phase(Current(su, mem).cmd2) == CMD2_SWP_P1 ==> Holds(mem, su.Fr(), off, |su.New()|, su.New()))
            && (Phase(Current(su, mem).cmd2) == CMD2_SWP_P2 ==> Holds(mem, su.To(), 0, off + s, su.NewOut()))
            && (su.OldLen() <= 0 ==> Holds(mem, su.Fr(), 0, su.NewLen(), su.New()))
  {
    hide Setup.Ok, LastCmd, SwapLog, Phase, Inplace, Intact, Holds, Setup.Old, Setup.New, Setup.OldOut, Setup.NewOut,
         Setup.OldLen, Setup.NewLen, Sectors;
    MulMonotone(Min(1, Current(su, mem).cmd3), Current(su, mem).cmd3, su.area.sector);
    SlotsApart(su);
    IntactInSwap(su, PosOf(su.area.sector, Current(su, mem)), mem);
  }

  lemma IntactInSwap(su: Setup, p: Pos, mem: seq<byte>)
    requires Intact(su, p, mem) && (p.phase == CMD2_SWP_P1 || p.phase == CMD2_SWP_P2)
    ensures Holds(mem, su.Fr(), 0, p.off, su.OldOut())
    ensures p.phase == CMD2_SWP_P1
        ==> Holds(mem, su.To(), 0, p.off, su.NewOut()) && Holds(mem, su.Fr(), p.off, |su.New()|, su.New())
    ensures p.phase == CMD2_SWP_P2 ==> Holds(mem, su.To(), 0, p.off + su.area.sector, su.NewOut())
    ensures su.OldLen() <= 0 ==> Holds(mem, su.Fr(), 0, su.NewLen(), su.New())
  {
    hide Holds, Setup.Old, Setup.New, Setup.OldOut, Setup.NewOut, Setup.OldLen, Setup.NewLen;
  }

  // An image of which the header has been moved is described as before, relative to its new place.
  lemma MovedInfo(su: Setup, mem: seq<byte>, slt: nat, i: ImgInfo, slt0: nat, img: seq<byte>, hi: int)
    requires i == KeepForRam(su.area, ReadInfo(su.cr, su.mem0, su.area, slt0, 0))
    requires i.hdr_start == SlotOffset(su.area, slt0) && EncOk(i)
    requires HeaderIn(su.area, su.mem0, i) && |img| == i.end - i.hdr_start && img == Slice(su.mem0, i.hdr_start, |img|)
    requires Holds(mem, SlotOffset(su.area, slt), 0, hi, Transform(su.cr.aes, i, img)) && su.area.sector <= hi
    ensures var j := KeepForRam(su.area, ReadInfo(su.cr, mem, su.area, slt, 0));
            && j.hdr_start == SlotOffset(su.area, slt) && j.end - j.hdr_start == i.end - i.hdr_start
            && j.is_valid == i.is_valid && (i.is_valid ==> EncOk(j))
  {
    hide Magic, TlvArea, TlvAreaSize, Holds, ParseInfo, HeaderIn, Transform, U32, U16, Slice;
    var h0, h := SlotOffset(su.area, slt0), SlotOffset(su.area, slt);
    MovedHeader(su.cr, su.area, su.mem0, mem, i, h, hi, img);
    MagicOf(su.area, su.mem0, i);
    ParseRelative(su.cr, TlvArea(mem, h), h0, h);
  }

  // Past the first sector the slots are mixed up: the new image, in slot 0, is taken for the one to be moved there,
  // and what slot 1 holds, the old image or without one still the new image, for the one to be moved away.
  lemma MixedUp(su: Setup, mem: seq<byte>, cmd: Cmd, r: SwpInfo)
    requires su.Ok() && Loaded(su) && RunState(su, mem) && !su.inplace && cmd == Current(su, mem) && cmd.cmd3 > 0
    requires Phase(cmd.cmd2) == CMD2_SWP_P1 || Phase(cmd.cmd2) == CMD2_SWP_P2
    requires r == SwapInfoOf(su.cr, su.area, mem, cmd)
    ensures r.to.hdr_start == su.Fr() && r.fr.hdr_start == su.To()
    ensures r.EndFr() == su.NewLen() && r.EndTo() == if su.OldLen() > 0 then su.OldLen() else su.NewLen()
    ensures r.to.is_valid && EncOk(r.to)
  {
    hide Setup.Ok, Loaded, RunState, Phase, Holds, SwapInfoOf, ReadInfo, HeaderIn, Transform, LastCmd, SwapLog,
         KeepForRam, EncOk, Setup.Old, Setup.New;
    PlacesInSwap(su, mem);
    LoadedFrom(su);
    LoadedKinds(su);
    InfoPastFirst(su, mem);
    var off, s := cmd.cmd3 * su.area.sector, su.area.sector;
    MovedInfo(su, mem, 0, su.info.fr, 1, su.New(), if Phase(cmd.cmd2) == CMD2_SWP_P1 then off else off + s);
    if su.OldLen() > 0 {
      MovedInfo(su, mem, 1, su.info.to, 0, su.Old(), off);
    } else {
      HeaderHeld(su.area, su.mem0, mem, su.info.fr, su.NewLen(), su.New());
      hide SameHeaderOctets;
      SameHeader(su.cr, su.area, su.mem0, mem, 1);
    }
  }

  lemma LoadedKinds(su: Setup)
    requires su.Ok() && Loaded(su) && !su.inplace
    ensures su.info.fr.is_valid && EncOk(su.info.fr) && EncOk(su.info.to)
    ensures su.NewLen() == su.info.fr.end - su.info.fr.hdr_start == |su.New()|
    ensures su.New() == Slice(su.mem0, su.Fr(), |su.New()|) && su.Old() == Slice(su.mem0, su.To(), |su.Old()|)
    ensures su.OldLen() > 0 ==> su.info.to.is_valid
    ensures su.OldLen() > 0 ==> su.OldLen() == su.info.to.end - su.info.to.hdr_start == |su.Old()|
    ensures su.NewOut() == Transform(su.cr.aes, su.info.fr, su.New())
    ensures su.OldOut() == Transform(su.cr.aes, su.info.to, su.Old())
    ensures SlotOffset(su.area, 0) == su.To() && SlotOffset(su.area, 1) == su.Fr() && su.NewLen() > 0
    ensures su.OldLen() == su.info.EndTo() && su.NewLen() == su.info.EndFr()
  {
    hide SwapInfoOf, Started, Sectors, Area.Ok, EncOk, Transform, Magic, TlvAreaSize;
  }

  // Where the header of the new image is looked for at the first sector there is none; nor, when slot 0 was empty,
  // where that of the old image would be.
  ghost predicate NoHeaderUp(su: Setup, mem: seq<byte>) {
    && Magic(mem, su.Fr() + su.area.sector) != TLV_AREA_MAGIC
    && (su.OldLen() <= 0 ==> Magic(mem, su.To() + su.area.sector) != TLV_AREA_MAGIC)
  }

  // At the first sector the new image is not found, the old one is.
  lemma HeaderMissed(su: Setup, mem: seq<byte>, cmd: Cmd, r: SwpInfo)
    requires su.Ok() && Loaded(su) && RunState(su, mem) && !su.inplace && cmd == Current(su, mem) && AtHeader(cmd)
    requires NoHeaderUp(su, mem) && r == SwapInfoOf(su.cr, su.area, mem, cmd)
    ensures r.fr.hdr_start == r.fr.end == r.fr.enc_start == su.Fr() && r.to.hdr_start == su.To()
    ensures if su.OldLen() > 0 then r.to == su.info.to else r.EndTo() == 0 && r.to.end == r.to.enc_start == su.To()
  {
    hide Setup.Ok, Loaded, RunState, SwapInfoOf, HeaderFrom, ReadInfo, LastCmd, SwapLog, KeepForRam, HeaderIn, AtHeader,
         Magic;
    LoadedFrom(su);
    LoadedKinds(su);
    InplaceSame(su, mem);
    HeaderPlacesAt(su, mem);
    ReadInfoAt(su.cr, su.area, mem, 1, su.area.sector);
    if su.OldLen() > 0 {
      OldHeaderUp(su, mem);
      InfoAt(su.cr, su.area, mem, 0, su.area.sector, su.mem0);
    } else {
      ReadInfoAt(su.cr, su.area, mem, 0, su.area.sector);
    }
  }
}
