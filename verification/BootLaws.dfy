// What sequences of boots do: a temporary swap is undone by exactly one restore, a permanent one stays.
module BootLaws {
  import opened AfterSwap
  import opened Boot
  import opened Bytes
  import opened CmdLog
  import Ctr
  import opened Digest
  import opened Finish
  import opened Flash
  import opened Header
  import opened Images
  import opened Move
  import opened Params
  import opened Recovery
  import opened Runs
  import opened Swap

  // ----- starting a swap -----

  // The swap a start command describes, with the info read from the headers as they are.
  function FreshSetup(cr: Crypto, area: Area, mem: seq<byte>, c: Cmd): Setup {
    Setup(cr, area, SwapInfoOf(cr, area, mem, c), Inplace(c.cmd2), mem)
  }

  predicate IsStart(c: Cmd) {
    Phase(c.cmd2) == CMD2_SWP_START && c.cmd1 != CMD1_ERROR
  }

  lemma StartLogged(area: Area, mem: seq<byte>, c: Cmd)
    requires area.Ok() && |mem| == area.flash_size
    ensures var m, log := WithStart(area, mem, c), SwapLog(area);
            && LastCmd(m, log) == Some(c) && TailBlank(m, log) && Room(m, log) == area.swpstat_size / log.stride - 1
            && SameOutside(mem, m, area.swpstat_offset, area.swpstat_offset + area.swpstat_size)
  {
    var e, log := Erased(mem, area.swpstat_offset, area.swpstat_size), SwapLog(area);
    ErasedSwapLog(area, mem);
    AppendAddsLast(e, log, c, area.block);
    FreeFits(e, log, area.block);
    assert [] + [c] == [c];
    hide Area.Ok, Commands, FirstFree, Records, Record;
  }

  // Starting a swap touches the swap status area only, so the images stay where they are.
  lemma StartKeeps(su: Setup, p: Pos, mem: seq<byte>, c: Cmd)
    requires su.Ok() && Intact(su, p, mem)
    ensures Intact(su, p, WithStart(su.area, mem, c))
  {
    var area := su.area;
    assert area.Ok() && |mem| == area.flash_size;
    hide Setup.Ok, Intact, WithStart, Area.Ok;
    StartLogged(area, mem, c);
    SwapApart(area);
    IntactOutside(su, p, mem, WithStart(area, mem, c), area.swpstat_offset, area.swpstat_offset + area.swpstat_size);
  }

  // ----- after a run -----

  // A finished run with its records: no swap is going on, nothing is asked for, and the command in slot 0 is its own.
  lemma AfterRun(su: Setup, r: seq<byte>, cmd1: byte)
    requires su.Ok() && RunState(su, r) && Ended(su, r) && Recorded(su, r, cmd1)
    ensures !SwapGoing(su.area, r) && LastCmd(r, Slt1Log(su.area)) == None
    ensures LastCmd(r, Slt0Log(su.area)).Some? && LastCmd(r, Slt0Log(su.area)).value.cmd1 == cmd1
  {
    hide Setup.Ok, Intact, CmdOk, Going, Phase, P3Prm, PrmBytes, Commands, Records, FirstFree, Area.Ok;
    StateIs(su, r);
    PhaseCases(su, Current(su, r));
    Slt1LogOk(su.area);
    ErasedLog(r, Slt1Log(su.area), su.area.block);
    var c: Cmd :| c.cmd1 == cmd1 && LogCommands(r, Slt0Log(su.area)) == [c];
  }

  function RestoreCmd(cmd1: byte): Cmd {
    Cmd(MakePermanent(cmd1), CMD2_SWP_START, 0)
  }

  // The next boot restores if and only if the run was not marked permanent; otherwise it changes nothing at all.
  lemma NextBoot(su: Setup, r: seq<byte>, cmd1: byte)
    requires su.Ok() && RunState(su, r) && Ended(su, r) && Recorded(su, r, cmd1)
    ensures Prepare(su.cr, su.area, r)
         == if Permanent(cmd1) then Decision(false, true, r)
             else Decision(true, true, WithStart(su.area, r, RestoreCmd(cmd1)))
  {
    hide Setup.Ok, RunState, Ended, Recorded, WithStart, LastCmd, SwapGoing, Slt0Log, Slt1Log, SwapLog, Acceptance;
    AfterRun(su, r, cmd1);
  }

  // ----- swapping back -----

  lemma KeepMoved(area: Area, i: ImgInfo, h: nat)
    requires i.hdr_start <= i.start <= i.end && i.hdr_start <= i.enc_start
    ensures KeepForRam(area, MovedTo(i, h)) == MovedTo(KeepForRam(area, i), h)
  {}

  lemma EndPos(su: Setup, r: seq<byte>)
    requires su.Ok() && RunState(su, r) && Ended(su, r)
    ensures su.area.sector > 0 && LastCmd(r, SwapLog(su.area)).Some?
    ensures Intact(su, PosOf(su.area.sector, Current(su, r)), r)
    ensures PosOf(su.area.sector, Current(su, r)).phase == CMD2_SWP_END
    ensures su.area.Ok() && |r| == su.area.flash_size
  {
    hide Setup.Ok, Intact, CmdOk, LastCmd, Phase;
    StateIs(su, r);
  }

  // The image slot 1 holds after the swap: the old one, or, when there was none, the new one that never left.
  function Held(su: Setup): ImgInfo {
    if su.OldLen() > 0 then su.info.to else su.info.fr
  }

  // There is an image in either slot.
  predicate BothValid(su: Setup) {
    var i, j := su.info.fr, Held(su);
    && i.hdr_start <= i.start && i.hdr_start <= i.enc_start && i.hdr_start <= i.end && i.is_valid
    && j.hdr_start <= j.start && j.hdr_start <= j.enc_start && j.hdr_start <= j.end && j.is_valid
  }

  // The info of the images in their new places.
  function BackInfo(su: Setup): SwpInfo
    requires BothValid(su)
  {
    SwpInfo(MovedTo(su.info.fr, su.area.slt0_offset), MovedTo(Held(su), su.area.slt1_offset))
  }

  lemma BackInfoRead(su: Setup, p: Pos, m: seq<byte>, c: Cmd)
    requires su.Ok() && HeadersOk(su) && !su.inplace && Intact(su, p, m) && p.phase == CMD2_SWP_END
    requires IsStart(c) && !Inplace(c.cmd2)
    ensures BothValid(su) && SwapInfoOf(su.cr, su.area, m, c) == BackInfo(su)
  {
    hide Setup.Ok, HeadersOk, Intact, ReadInfo, HeaderIn, SwapInfoOf, Inplace, Phase, KeepForRam, MovedTo, Loaded,
         Setup.OldLen;
    HeadersLoaded(su);
    LoadedFrom(su);
    FinalInfos(su, p, m);
    SafeInfo(su.cr, su.area, m, c);
    var i := ReadInfo(su.cr, su.mem0, su.area, 1, 0);
    KeepMoved(su.area, i, su.area.slt0_offset);
    KeepOrder(su.area, i);
    if su.OldLen() > 0 {
      var j := ReadInfo(su.cr, su.mem0, su.area, 0, 0);
      KeepMoved(su.area, j, su.area.slt1_offset);
      KeepOrder(su.area, j);
    } else {
      MovedNowhere(su.info.fr);
    }
  }

  lemma MovedNowhere(i: ImgInfo)
    requires i.hdr_start <= i.start && i.hdr_start <= i.enc_start && i.hdr_start <= i.end
    ensures MovedTo(i, i.hdr_start) == i
  {}

  lemma KeepOrder(area: Area, i: ImgInfo)
    requires i.hdr_start <= i.start <= i.end && i.hdr_start <= i.enc_start
    ensures var k := KeepForRam(area, i);
            k.hdr_start <= k.start && k.hdr_start <= k.enc_start && k.hdr_start <= k.end && k.is_valid == i.is_valid
  {}

  // The way back is as good a swap as the way out.
  lemma BackOk(su: Setup, back: Setup)
    requires su.Ok() && !su.inplace && BothValid(su)
    requires back.area == su.area && !back.inplace && |back.mem0| == su.area.flash_size && back.info == BackInfo(su)
    ensures back.Fr() == su.area.slt1_offset && back.To() == su.area.slt0_offset && back.info.fr.is_valid
    ensures back.info.to == MovedTo(su.info.fr, su.area.slt0_offset)
    ensures back.info.fr == MovedTo(Held(su), su.area.slt1_offset)
    ensures back.Ok() && back.OldLen() == su.NewLen() && back.NewLen() == Slt1Len(su)
    ensures back.info.EndTo() == su.NewLen() && back.info.EndFr() == Slt1Len(su)
  {
    hide Area.Ok, Sectors;
  }

  lemma HeaderInMoved(area: Area, mem: seq<byte>, h: nat, mem0: seq<byte>, i: ImgInfo)
    requires HeaderIn(area, mem0, i) && HeaderFrom(mem, h, mem0, i.hdr_start)
    requires i.hdr_start <= i.start && i.hdr_start <= i.enc_start && i.hdr_start <= i.end
    ensures HeaderIn(area, mem, MovedTo(i, h))
  {
    hide Magic, TlvAreaSize, TlvArea;
  }

  // A header that has stayed where it was is a header found where it was.
  lemma StayedIsFrom(a: seq<byte>, b: seq<byte>, h: int)
    requires SameHeaderOctets(a, b, h) && Magic(a, h) == TLV_AREA_MAGIC
    ensures HeaderFrom(b, h, a, h)
  {
    hide Magic, TlvArea, TlvAreaSize;
    SameArea(a, b, h);
  }

  lemma HeldHeader(su: Setup, p: Pos, m: seq<byte>)
    requires su.Ok() && HeadersOk(su) && !su.inplace && Intact(su, p, m) && p.phase == CMD2_SWP_END
    ensures HeaderIn(su.area, su.mem0, Held(su)) && HeaderFrom(m, su.area.slt1_offset, su.mem0, Held(su).hdr_start)
  {
    hide Setup.Ok, HeadersOk, Intact, ReadInfo, HeaderIn, KeepForRam, HeaderFrom, Loaded, SameHeaderOctets;
    HeadersLoaded(su);
    LoadedFrom(su);
    ToLength(su);
    FinalHeaders(su, p, m);
    if su.OldLen() <= 0 {
      MagicOf(su.area, su.mem0, su.info.fr);
      StayedIsFrom(su.mem0, m, su.area.slt1_offset);
    }
  }

  lemma BackHeaders(su: Setup, back: Setup, p: Pos, c: Cmd)
    requires su.Ok() && HeadersOk(su) && !su.inplace && Intact(su, p, back.mem0) && p.phase == CMD2_SWP_END
    requires IsStart(c) && !Inplace(c.cmd2) && back == FreshSetup(su.cr, su.area, back.mem0, c)
    requires TailBlank(back.mem0, SwapLog(su.area)) && LastCmd(back.mem0, SwapLog(su.area)) == Some(c)
    ensures back.Ok() && HeadersOk(back) && Started(back) && Slot0Fits(back)
    ensures BothValid(su) && back.info == BackInfo(su)
    ensures back.info.EndTo() == su.NewLen() && back.info.EndFr() == Slt1Len(su)
  {
    hide Setup.Ok, HeadersOk, Intact, ReadInfo, HeaderIn, SwapInfoOf, Inplace, Phase, MovedTo, TailBlank, LastCmd,
         HeaderFrom, Readable, Loaded, Started, Held;
    BackInfoRead(su, p, back.mem0, c);
    IntactLength(su, p, back.mem0);
    BackOk(su, back);
    BackStarted(back, c);
    HeadersLoaded(su);
    LoadedFrom(su);
    FinalHeaders(su, p, back.mem0);
    FinalReadable(su, p, back.mem0);
    HeldHeader(su, p, back.mem0);
    HeaderInMoved(su.area, back.mem0, su.area.slt0_offset, su.mem0, su.info.fr);
    HeaderInMoved(su.area, back.mem0, su.area.slt1_offset, su.mem0, Held(su));
    BackLoaded(su, back, c);
  }

  lemma BackStarted(back: Setup, c: Cmd)
    requires back.Ok() && IsStart(c) && Inplace(c.cmd2) == back.inplace
    requires TailBlank(back.mem0, SwapLog(back.area)) && LastCmd(back.mem0, SwapLog(back.area)) == Some(c)
    ensures Started(back)
  {
    hide Inplace, TailBlank, LastCmd, Sectors, EncOk;
  }

  lemma BackLoaded(su: Setup, back: Setup, c: Cmd)
    requires back == FreshSetup(su.cr, su.area, back.mem0, c) && Started(back) && !back.inplace
    requires LastCmd(back.mem0, SwapLog(su.area)) == Some(c)
    requires HeaderIn(su.area, back.mem0, back.info.fr) && HeaderIn(su.area, back.mem0, back.info.to)
    requires back.info.fr.is_valid
    requires back.Fr() == su.area.slt1_offset && back.To() == su.area.slt0_offset
    requires Readable(back.mem0, su.area.slt0_offset, su.area.sector)
    requires Readable(back.mem0, su.area.slt1_offset, su.area.sector)
    ensures HeadersOk(back) && Slot0Fits(back)
  {
    hide Started, SwapInfoOf, Readable, LastCmd, Magic, TlvArea, TlvAreaSize, ReadInfo;
  }

  // ----- there and back -----

  // The same key stream, from the same place relative to the image: twice is nothing.
  lemma CryptTwice(aes: Ctr.Aes, i: ImgInfo, h: nat, k: nat, b: byte)
    requires i.hdr_start <= i.start && i.hdr_start <= i.enc_start && i.hdr_start <= i.end
    ensures var m := MovedTo(i, h);
            Crypt(aes, m.enc_key, m.enc_start, h + k, Crypt(aes, i.enc_key, i.enc_start, i.hdr_start + k, b)) == b
  {
    hide Ctr.Keystream, Xor;
    var d := h - i.hdr_start;
    var c := Crypt(aes, i.enc_key, i.enc_start, i.hdr_start + k, b);
    CryptShift(aes, i.enc_key, i.enc_start, i.hdr_start + k, c, d);
    if i.enc_start <= i.hdr_start + k {
      XorTwice(b, Ctr.Keystream(aes, i.enc_key, 0, i.hdr_start + k - i.enc_start));
    }
  }

  // Both images are, octet for octet, what they were before the swap.
  ghost predicate ImagesAsBefore(su: Setup, mem: seq<byte>) {
    && SameOn(mem, su.mem0, su.area.slt0_offset, su.area.slt0_offset + su.OldLen())
    && SameOn(mem, su.mem0, su.area.slt1_offset, su.area.slt1_offset + su.NewLen())
  }

  // Swapping back returns the image of slot 1, and that of slot 0 if there was one. When slot 0 was empty there is
  // nothing to return to it: the way back puts the new image there once more.
  lemma ThereAndBack(su: Setup, back: Setup, mem: seq<byte>)
    requires su.Ok() && HeadersOk(su) && !su.inplace && Swapped(su, back.mem0)
    requires BothValid(su) && back.cr == su.cr && back.area == su.area && back.info == BackInfo(su)
    requires !back.inplace && Swapped(back, mem)
    requires back.info.EndTo() == su.NewLen() && back.info.EndFr() == Slt1Len(su)
    ensures ImagesAsBefore(su, mem)
    ensures su.OldLen() <= 0 ==>
              && SameOn(mem, back.mem0, su.area.slt0_offset, su.area.slt0_offset + su.NewLen())
              && SameOn(mem, back.mem0, su.area.slt1_offset, su.area.slt1_offset + su.NewLen())
  {
    hide Setup.Ok, HeadersOk, Crypt, ReadInfo, MovedTo, Swapped, NewAfter, OldAfter, Held, BothValid, BackInfo;
    AtStart(su);
    ToLength(su);
    forall a {:trigger At(mem, a)} | su.area.slt0_offset <= a < su.area.slt0_offset + su.OldLen()
      ensures At(mem, a) == At(su.mem0, a)
    {
      OldBack(su, back, mem, a - su.area.slt0_offset);
    }
    forall a {:trigger At(mem, a)} | su.area.slt1_offset <= a < su.area.slt1_offset + su.NewLen()
      ensures At(mem, a) == At(su.mem0, a)
    {
      NewBack(su, back, mem, a - su.area.slt1_offset);
    }
    if su.OldLen() <= 0 {
      NothingBack(su, back, mem);
    }
  }

  lemma ToLength(su: Setup)
    ensures su.OldLen() == su.info.EndTo() && su.To() == su.info.to.hdr_start && su.Fr() == su.info.fr.hdr_start
    ensures !su.inplace ==> su.NewLen() == su.info.EndFr()
  {}

  lemma OldBack(su: Setup, back: Setup, mem: seq<byte>, k: nat)
    requires BothValid(su) && !back.inplace && Swapped(su, back.mem0) && Swapped(back, mem) && su.OldLen() > 0
    requires back.cr == su.cr && back.area == su.area && back.info == BackInfo(su)
    requires back.info.EndFr() == su.info.EndTo()
    requires k < su.info.EndTo() && su.To() == su.area.slt0_offset
    ensures At(mem, su.area.slt0_offset + k) == At(su.mem0, su.area.slt0_offset + k)
  {
    hide Crypt, Setup.Ok;
    assert At(back.mem0, su.area.slt1_offset + k) == OldAfter(su, k)
        && At(mem, su.area.slt0_offset + k) == NewAfter(back, k);
    CryptTwice(su.cr.aes, su.info.to, su.area.slt1_offset, k, At(su.mem0, su.area.slt0_offset + k));
  }

  lemma NewBack(su: Setup, back: Setup, mem: seq<byte>, k: nat)
    requires BothValid(su) && !su.inplace && Swapped(su, back.mem0) && Swapped(back, mem)
    requires back.cr == su.cr && back.area == su.area && back.info == BackInfo(su)
    requires back.info.EndTo() == su.info.EndFr()
    requires k < su.info.EndFr() && su.Fr() == su.area.slt1_offset
    ensures At(mem, su.area.slt1_offset + k) == At(su.mem0, su.area.slt1_offset + k)
  {
    hide Crypt, Setup.Ok;
    assert At(back.mem0, su.area.slt0_offset + k) == NewAfter(su, k)
        && At(mem, su.area.slt1_offset + k) == OldAfter(back, k);
    CryptTwice(su.cr.aes, su.info.fr, su.area.slt0_offset, k, At(su.mem0, su.area.slt1_offset + k));
  }

  lemma NothingBack(su: Setup, back: Setup, mem: seq<byte>)
    requires su.Ok() && BothValid(su) && !su.inplace && !back.inplace && Swapped(su, back.mem0) && Swapped(back, mem)
    requires back.cr == su.cr && back.area == su.area && back.info == BackInfo(su) && su.OldLen() <= 0
    requires su.Fr() == su.area.slt1_offset && back.info.EndTo() == su.info.EndFr() == back.info.EndFr()
    ensures SameOn(mem, back.mem0, su.area.slt0_offset, su.area.slt0_offset + su.info.EndFr())
    ensures SameOn(mem, back.mem0, su.area.slt1_offset, su.area.slt1_offset + su.info.EndFr())
  {
    assert su.info.EndTo() <= 0;
    assert SameOn(back.mem0, su.mem0, su.area.slt1_offset, su.area.slt1_offset + su.info.EndFr());
    hide Crypt, Setup.Ok, Swapped, BackInfo, BothValid;
    forall a {:trigger At(mem, a)} | su.area.slt0_offset <= a < su.area.slt0_offset + su.info.EndFr()
      ensures At(mem, a) == At(back.mem0, a)
    {
      Again(su, back, mem, a - su.area.slt0_offset);
    }
    forall a {:trigger At(mem, a)} | su.area.slt1_offset <= a < su.area.slt1_offset + su.info.EndFr()
      ensures At(mem, a) == At(back.mem0, a)
    {
      NewBack(su, back, mem, a - su.area.slt1_offset);
    }
  }

  lemma Again(su: Setup, back: Setup, mem: seq<byte>, k: nat)
    requires BothValid(su) && !su.inplace && !back.inplace && Swapped(su, back.mem0) && Swapped(back, mem)
    requires back.cr == su.cr && back.area == su.area && back.info == BackInfo(su) && su.OldLen() <= 0
    requires su.Fr() == su.area.slt1_offset && k < back.info.EndFr() == su.info.EndFr()
    requires At(back.mem0, su.area.slt1_offset + k) == At(su.mem0, su.area.slt1_offset + k)
    ensures At(mem, su.area.slt0_offset + k) == At(back.mem0, su.area.slt0_offset + k)
  {
    hide Crypt, Setup.Ok;
    MovedNowhere(su.info.fr);
    assert At(back.mem0, su.area.slt0_offset + k) == NewAfter(su, k)
        && At(mem, su.area.slt0_offset + k) == NewAfter(back, k);
  }
}
