// What the decisions of a boot mean: which requests are carried out, what is recorded about the images, and which
// address is booted.
module Decisions {
  import opened AfterSwap
  import opened Boot
  import opened BootLaws
  import opened BootRuns
  import opened Booted
  import opened Bytes
  import opened CmdLog
  import opened Digest
  import opened Finish
  import opened Flash
  import opened Header
  import opened Images
  import opened Params
  import opened Recovery
  import opened Runs
  import opened Swap

  // ----- the bits of a command -----

  // The flags of cmd1: bit 0 is permanent, bit 4 asks for a swap; setting or clearing one leaves the others alone.
  lemma FlagBits(cmd1: byte, k: nat)
    requires k < 8
    ensures Permanent(cmd1) <==> Bit(cmd1, 0) == 1
    ensures Requested(cmd1) <==> Bit(cmd1, 4) == 1
    ensures Bit(MakePermanent(cmd1), k) == if k == 0 then 1 else Bit(cmd1, k)
    ensures Bit(ClearRequest(cmd1), k) == if k == 4 then 0 else Bit(cmd1, k)
  {
    LowBitsAre(cmd1);
    if Permanent(cmd1) {} else { SetBit(cmd1, 0, k); }
    if Requested(cmd1) { ClearBit(cmd1, 4, k); }
  }

  lemma LowBitsAre(n: byte)
    ensures Bit(n, 0) == n % 2 && Bit(n, 4) == n / 16 % 2 && Bit(n, 5) == n / 32 % 2
    ensures Pow2(0) == 1 && Pow2(4) == 16 && Pow2(5) == 32 && Pow2(8) == 256
  {
    BitDown(n, 4);
    BitDown(n, 3);
    BitDown(n / 2, 3);
    BitDown(n / 2, 2);
    BitDown(n / 4, 2);
    BitDown(n / 4, 1);
    BitDown(n / 8, 1);
    BitDown(n / 8, 0);
    BitDown(n / 16, 0);
    Halves(n);
    Powers();
    hide Bit, Pow2;
    assert Bit(n / 16, 0) == n / 16 % 2 && Bit(n / 32, 0) == n / 32 % 2 && Bit(n, 0) == n % 2 by { BitZero(); }
  }

  lemma BitZero()
    ensures forall n: nat :: Bit(n, 0) == n % 2
  {}

  lemma BitDown(n: nat, k: nat)
    ensures Bit(n, k + 1) == Bit(n / 2, k)
  {}

  lemma Halves(n: nat)
    ensures n / 2 / 2 == n / 4 && n / 4 / 2 == n / 8 && n / 8 / 2 == n / 16 && n / 16 / 2 == n / 32
  {}

  lemma Powers()
    ensures Pow2(0) == 1 && Pow2(4) == 16 && Pow2(5) == 32 && Pow2(8) == 256
  {
    assert Pow2(4) == 2 * Pow2(3) && Pow2(3) == 2 * Pow2(2) && Pow2(5) == 2 * Pow2(4);
    assert Pow2(8) == 2 * Pow2(7) && Pow2(7) == 2 * Pow2(6) && Pow2(6) == 2 * Pow2(5);
  }

  // The flag of cmd2: bit 5 is in place, the rest is the phase.
  lemma PhaseFlag(cmd2: byte, k: nat)
    requires k < 8
    ensures Inplace(cmd2) <==> Bit(cmd2, 5) == 1
    ensures Bit(Phase(cmd2), k) == if k == 5 then 0 else Bit(cmd2, k)
    ensures Bit(WithInplace(cmd2, true), k) == if k == 5 then 1 else Bit(cmd2, k)
    ensures WithInplace(cmd2, false) == cmd2
  {
    LowBitsAre(cmd2);
    if Inplace(cmd2) { ClearBit(cmd2, 5, k); } else { SetBit(cmd2, 5, k); }
  }

  // ----- where the commands lie -----

  // A single command is found where the application or the bootloader writes it: at the start of the last sector of
  // slot 1, behind the 24 octets of parameters in the last sector of slot 0, or at the start of the swap status area.
  lemma CommandsFound(area: Area, mem: seq<byte>, c: Cmd)
    requires area.Ok() && |mem| == area.flash_size
    ensures var off, end := area.slt1_offset + area.slt1_size - area.sector, area.slt1_offset + area.slt1_size;
            Slice(mem, off, 4) == Record(c) && Blank(mem, off + 4, end) ==> LastCmd(mem, Slt1Log(area)) == Some(c)
    ensures var off, end := area.slt0_offset + area.slt0_size - area.sector + 24, area.slt0_offset + area.slt0_size;
            Slice(mem, off, 4) == Record(c) && Blank(mem, off + 4, end) ==> LastCmd(mem, Slt0Log(area)) == Some(c)
    ensures var off, end := area.swpstat_offset, area.swpstat_offset + area.swpstat_size;
            Slice(mem, off, 4) == Record(c) && Blank(mem, off + 4, end) ==> LastCmd(mem, SwapLog(area)) == Some(c)
  {
    hide *;
    LogsAt(area);
    FirstFound(mem, Slt0Log(area), c, area.block);
    FirstFound(mem, Slt1Log(area), c, area.block);
    FirstFound(mem, SwapLog(area), c, area.block);
  }

  lemma LogsAt(area: Area)
    requires area.Ok()
    ensures var log := Slt1Log(area);
            && log.start == area.slt1_offset + area.slt1_size - area.sector && log.Ok(area.block)
            && log.end == area.slt1_offset + area.slt1_size <= area.flash_size
    ensures var log := Slt0Log(area);
            && log.start == area.slt0_offset + area.slt0_size - area.sector + 24 && log.Ok(area.block)
            && log.end == area.slt0_offset + area.slt0_size <= area.flash_size
    ensures var log := SwapLog(area);
            && log.start == area.swpstat_offset && log.Ok(area.block)
            && log.end == area.swpstat_offset + area.swpstat_size <= area.flash_size
  {
    Slt0LogOk(area);
    Slt1LogOk(area);
    SwapLogOk(area);
    hide Area.Ok, Log.Ok;
  }

  lemma FirstFound(mem: seq<byte>, log: Log, c: Cmd, block: nat)
    requires log.Ok(block) && log.end <= |mem|
    ensures Slice(mem, log.start, 4) == Record(c) && Blank(mem, log.start + 4, log.end) ==> LastCmd(mem, log) == Some(c)
  {
    hide Log.Ok, Commands, FirstFree, IsEmpty, CrcMatches, CmdAt;
    if Slice(mem, log.start, 4) == Record(c) && Blank(mem, log.start + 4, log.end) {
      RecordFound(mem, log.start, c);
      LogWhole(log, block);
      ScanStep(mem, log.start, log);
      if log.start + log.stride < log.end {
        BlankEmpty(mem, log.start + log.stride);
        ScanStep(mem, log.start + log.stride, log);
      } else {
        ScanEnd(mem, log);
      }
    }
  }

  lemma RecordFound(mem: seq<byte>, off: nat, c: Cmd)
    requires Slice(mem, off, 4) == Record(c)
    ensures !IsEmpty(mem, off) && CrcMatches(mem, off) && CmdAt(mem, off) == c
  {
    hide Crc8;
    RecordIsNotEmpty(c);
    var s := Slice(mem, off, 4);
    assert At(mem, off) == s[0] && At(mem, off + 1) == s[1] && At(mem, off + 2) == s[2] && At(mem, off + 3) == s[3];
  }

  lemma LogWhole(log: Log, block: nat)
    requires log.Ok(block)
    ensures log.Whole(log.end - log.start) && log.start < log.end && (log.stride == 4 || log.stride == 8)
    ensures log.start + log.stride <= log.end && log.Whole(log.end - (log.start + log.stride))
  {}

  lemma BlankEmpty(mem: seq<byte>, off: nat)
    requires Blank(mem, off, off + 4)
    ensures IsEmpty(mem, off)
  {}

  // ----- which requests are carried out -----

  // The image in slot 1 is what its maker signed: the signature of its header area verifies, and the hash in that area
  // is the hash of the octets of its body.
  ghost predicate Genuine(cr: Crypto, area: Area, mem: seq<byte>) {
    var h, i := area.slt1_offset, ReadInfo(cr, mem, area, 1, 0);
    && Magic(mem, h) == TLV_AREA_MAGIC && i.is_valid
    && cr.verify(cr.hash(TlvArea(mem, h)), Signature(mem, h))
    && Find(TlvArea(mem, h), TLVE_IMAGE_HASH) == Some(cr.hash(Slice(mem, i.start, i.end - i.start)))
  }

  // Exactly which images are accepted, and for which slot: genuine ones, for slot 1 if and only if they are to be
  // loaded there, that leave the last sector of that slot free and are not older than the version on record for it.
  lemma AcceptedExact(cr: Crypto, area: Area, mem: seq<byte>, slt: nat)
    ensures var i := ReadInfo(cr, mem, area, 1, 0);
            Acceptance(cr, area, mem) == Some(slt) <==>
              && Genuine(cr, area, mem) && slt == (if InSlot(area, 1, i.load_address) then 1 else 0)
              && i.end - area.slt1_offset + area.sector <= (if slt == 1 then area.slt1_size else area.slt0_size)
              && (PrmRead(mem, area).Some? ==>
                    var p := PrmRead(mem, area).value;
                    (if slt == 1 then p.slt1_ver else p.slt0_ver) <= VersionU32(i.version))
  {
    CheckedExact(cr, mem, area, 1);
    CheckedIsRead(cr, area, mem, 1);
    InfoStarts(cr, area, mem, 1);
    hide CheckedInfo, ReadInfo, VersionU32, PrmRead, InSlot, Magic, TlvArea, Signature, Find, Slice;
  }

  // Exactly which start command a request leads to: for a genuine, accepted image that is asked for, in place if it is
  // to run from slot 1; permanent if that was asked for, and always in place; no other flag is lost or added.
  lemma RequestExact(cr: Crypto, area: Area, mem: seq<byte>, c: Cmd)
    ensures Request(cr, area, mem) == Some(c) <==>
              && LastCmd(mem, Slt1Log(area)).Some? && Acceptance(cr, area, mem).Some?
              && IsRequestFor(LastCmd(mem, Slt1Log(area)).value.cmd1, Acceptance(cr, area, mem).value == 1, c)
  {
    hide LastCmd, Slt1Log, Acceptance, IsRequestFor, StartCmd, Requested;
    if LastCmd(mem, Slt1Log(area)).Some? && Acceptance(cr, area, mem).Some? {
      StartExact(LastCmd(mem, Slt1Log(area)).value.cmd1, Acceptance(cr, area, mem).value == 1, c);
    }
  }

  ghost predicate IsRequestFor(cmd1: byte, inplace: bool, c: Cmd) {
    && Bit(cmd1, 4) == 1 && c.cmd3 == 0
    && c.cmd2 == (if inplace then 0x30 else 0x10)
    && (forall k :: 0 <= k < 8 ==>
          Bit(c.cmd1, k) == if k == 4 then 0 else if k == 0 && inplace then 1 else Bit(cmd1, k))
  }

  lemma StartExact(cmd1: byte, inplace: bool, c: Cmd)
    ensures Requested(cmd1) && c == StartCmd(cmd1, inplace) <==> IsRequestFor(cmd1, inplace, c)
  {
    var s := StartCmd(cmd1, inplace);
    forall k | 0 <= k < 8
      ensures Bit(s.cmd1, k) == if k == 4 then 0 else if k == 0 && inplace then 1 else Bit(cmd1, k)
    {
      FlagBits(cmd1, k);
      FlagBits(ClearRequest(cmd1), k);
    }
    FlagBits(cmd1, 0);
    if IsRequestFor(cmd1, inplace, c) {
      LowBitsAre(cmd1);
      SameBits(c.cmd1, s.cmd1, 8);
    }
  }

  // In particular: in-place images are always permanent, and a classic swap is as permanent as it was asked for.
  lemma RequestPermanence(cr: Crypto, area: Area, mem: seq<byte>, c: Cmd)
    requires Request(cr, area, mem) == Some(c)
    ensures Inplace(c.cmd2) ==> Permanent(c.cmd1)
    ensures !Inplace(c.cmd2) ==> (Permanent(c.cmd1) <==> Permanent(LastCmd(mem, Slt1Log(area)).value.cmd1))
    ensures !Requested(c.cmd1) && Genuine(cr, area, mem)
  {
    hide LastCmd, Slt1Log, Acceptance, Genuine, Request;
    RequestExact(cr, area, mem, c);
    AcceptedExact(cr, area, mem, Acceptance(cr, area, mem).value);
    FlagBits(c.cmd1, 0);
    FlagBits(LastCmd(mem, Slt1Log(area)).value.cmd1, 0);
    assert Bit(c.cmd1, 0) == 1 || Bit(c.cmd1, 0) == 0 by { BitZero(); }
    assert Bit(c.cmd1, 4) == 0;
    InplaceStarts();
  }

  lemma InplaceStarts()
    ensures Inplace(0x30) && !Inplace(0x10)
  {}

  // Every swap a boot starts: one that goes on, one that was requested for a genuine image, or the undoing of a
  // temporary one. An image that is not genuine is swapped in by no request.
  lemma SwapsStarted(cr: Crypto, area: Area, mem: seq<byte>)
    requires Prepare(cr, area, mem).swap
    ensures || (SwapGoing(area, mem) && Prepare(cr, area, mem).mem == mem)
            || (Request(cr, area, mem).Some? && Genuine(cr, area, mem)
                && Prepare(cr, area, mem).mem == WithStart(area, mem, Request(cr, area, mem).value))
            || (Request(cr, area, mem).None? && Restore(area, AfterMakePermanent(area, mem)).Some?
                && Prepare(cr, area, mem).mem == WithStart(area, AfterMakePermanent(area, mem),
                                                           Restore(area, AfterMakePermanent(area, mem)).value))
  {
    hide SwapGoing, Request, Restore, AfterMakePermanent, WithStart, Genuine, LastCmd, Slt0Log;
    if Request(cr, area, mem).Some? {
      RequestPermanence(cr, area, mem, Request(cr, area, mem).value);
    }
  }

  // The swap that undoes: of a recorded command without the permanent flag, which it sets and nothing else.
  lemma RestoreMeans(area: Area, mem: seq<byte>, k: nat)
    requires k < 8
    ensures Restore(area, mem).Some? <==>
              LastCmd(mem, Slt0Log(area)).Some? && Bit(LastCmd(mem, Slt0Log(area)).value.cmd1, 0) == 0
    ensures Restore(area, mem).Some? ==>
              var c, q := Restore(area, mem).value, LastCmd(mem, Slt0Log(area)).value;
              c.cmd2 == 0x10 && c.cmd3 == 0 && Bit(c.cmd1, k) == if k == 0 then 1 else Bit(q.cmd1, k)
  {
    hide LastCmd, Slt0Log, Permanent, MakePermanent;
    if LastCmd(mem, Slt0Log(area)).Some? {
      FlagBits(LastCmd(mem, Slt0Log(area)).value.cmd1, k);
      assert Bit(LastCmd(mem, Slt0Log(area)).value.cmd1, 0) <= 1 by { BitZero(); }
    }
  }

  // What makes a swap permanent: the command on record with that flag set and nothing else changed.
  lemma PermanentMeans(q: Cmd, k: nat)
    requires k < 8
    ensures var c := PermanentCmd(Some(q));
            c.cmd2 == q.cmd2 && c.cmd3 == q.cmd3 && Bit(c.cmd1, k) == if k == 0 then 1 else Bit(q.cmd1, k)
  {
    FlagBits(q.cmd1, k);
    hide MakePermanent, Bit;
  }

  // With nothing on record to copy, the empty word is recorded, which counts as permanent.
  lemma PermanentFromNothing(area: Area, mem: seq<byte>)
    requires area.Ok() && |mem| == area.flash_size && TailBlank(mem, Slt0Log(area)) && Room(mem, Slt0Log(area)) > 0
    requires LastCmd(mem, Slt0Log(area)).None? && LastCmd(mem, Slt1Log(area)).Some?
    requires Bit(LastCmd(mem, Slt1Log(area)).value.cmd1, 0) == 1
    ensures var m := AfterMakePermanent(area, mem);
            LastCmd(m, Slt0Log(area)) == Some(Cmd(0xff, 0xff, 0xff)) && Restore(area, m).None?
  {
    Slt0LogOk(area);
    FlagBits(LastCmd(mem, Slt1Log(area)).value.cmd1, 0);
    hide Area.Ok, TailBlank, Log.Ok, Slt0Log, Slt1Log, Commands, Records, FirstFree, Append, Bit, Permanent;
    AppendAddsLast(mem, Slt0Log(area), Cmd(0xff, 0xff, 0xff), area.block);
    assert Permanent(0xff) by { IsOdd(); }
  }

  lemma IsOdd()
    ensures Permanent(0xff)
  {}

  // Exactly when main goes on to boot without a swap: when a command is on record in slot 0.
  lemma ReportsExact(cr: Crypto, area: Area, mem: seq<byte>)
    ensures var d := Prepare(cr, area, mem); d.ok <==> d.swap || LastCmd(d.mem, Slt0Log(area)).Some?
  {
    hide SwapGoing, Request, Restore, AfterMakePermanent, WithStart, LastCmd, Slt0Log;
  }

  // When nothing was ever recorded and nothing is asked for, nothing is swapped, nothing changes, and zb_img_swap
  // reports that it found nothing.
  lemma NothingRecorded(cr: Crypto, area: Area, mem: seq<byte>)
    requires !SwapGoing(area, mem) && LastCmd(mem, Slt1Log(area)).None? && LastCmd(mem, Slt0Log(area)).None?
    ensures Prepare(cr, area, mem) == Decision(false, false, mem)
  {
    hide SwapGoing, LastCmd, Slt1Log, Slt0Log;
  }

  // ----- which address is booted -----

  // The crc32 of the octets that the header of slot `slt` describes.
  function ImageCrc(cr: Crypto, area: Area, mem: seq<byte>, slt: nat): nat {
    var i := ReadInfo(cr, mem, area, slt, 0);
    CrcFold(cr.crcStep, 0, Slice(mem, i.start, Max(0, i.end - i.start)))
  }

  // The second address is asked for by the last command at the end of slot 1 and by nothing else; a log that is full
  // and holds no valid command leaves what the variable held.
  lemma SecondAsked(area: Area, mem: seq<byte>, stale: Cmd)
    ensures Slt1Cmd(area, mem, stale).cmd1 == 0x20 <==>
              match LastCmd(mem, Slt1Log(area))
              case Some(c) => c.cmd1 == 0x20
              case None => Room(mem, Slt1Log(area)) == 0 && stale.cmd1 == 0x20
  {
    hide LastCmd, Slt1Log, Room;
  }

  // Main boots an address in slot 0 or in RAM only if the image in slot 0 is the one of which the crc32 was stored, and
  // one in slot 1 only if that image is, or if it is the second address, which is the fallback.
  lemma BootedIsChecked(cr: Crypto, area: Area, mem: seq<byte>, stale: Cmd, b: nat)
    requires BootAddress(cr, area, mem, stale) == Some(b)
    ensures PrmRead(mem, area).Some?
    ensures var p := PrmRead(mem, area).value;
            && (b == p.pri_ld_address || b == p.sec_ld_address)
            && (InSlot(area, 0, b) || InRam(area, b) ==> p.slt0_crc32 == ImageCrc(cr, area, mem, 0))
            && (InSlot(area, 1, b) ==> p.slt1_crc32 == ImageCrc(cr, area, mem, 1) || b == p.sec_ld_address)
  {
    hide ReadInfo, CrcFold, PrmRead, InSlot, InRam, Slt1Cmd, Slice;
  }

  // Exactly when it boots nothing, and what it boots otherwise: the second address when that is asked for, or when the
  // first one is in slot 1 and the image there is damaged.
  lemma BootedExact(cr: Crypto, area: Area, mem: seq<byte>, stale: Cmd)
    ensures PrmRead(mem, area).None? ==> BootAddress(cr, area, mem, stale) == None
    ensures PrmRead(mem, area).Some? ==>
              var p := PrmRead(mem, area).value;
              var second := Slt1Cmd(area, mem, stale).cmd1 == 0x20
                            || (InSlot(area, 1, p.pri_ld_address) && p.slt1_crc32 != ImageCrc(cr, area, mem, 1));
              var b := if second then p.sec_ld_address else p.pri_ld_address;
              BootAddress(cr, area, mem, stale)
              == if (InSlot(area, 0, b) || InRam(area, b)) && p.slt0_crc32 != ImageCrc(cr, area, mem, 0) then None
                 else Some(b)
  {
    hide ReadInfo, CrcFold, PrmRead, InSlot, InRam, Slt1Cmd, Slice;
  }

  // ----- what phase 3 records -----

  // Both crcs and versions are those of the images as they are; without an image in slot 1 the place of its crc and
  // version stays empty. The second address is always slot 0's.
  lemma RecordedExact(cr: Crypto, area: Area, inplace: bool, mem: seq<byte>)
    ensures var i0, i1 := ReadInfo(cr, mem, area, 0, 0), ReadInfo(cr, mem, area, 1, 0);
            var p := P3Prm(cr, area, inplace, mem);
            && p.pri_ld_address == (if inplace && i1.is_valid then i1 else i0).load_address
            && p.sec_ld_address == i0.load_address
            && p.slt0_crc32 == ImageCrc(cr, area, mem, 0) && p.slt0_ver == VersionU32(i0.version)
            && p.slt1_crc32 == (if i1.is_valid then ImageCrc(cr, area, mem, 1) else 0xffff_ffff)
            && p.slt1_ver == (if i1.is_valid then VersionU32(i1.version) else 0)
  {
    hide ReadInfo, CrcFold, Slice, VersionU32;
  }

  // With an image in slot 1 the run's own command is recorded. Without one there is nothing to restore: the command is
  // made permanent, and nothing else about it changes.
  lemma RecordedCommand(cr: Crypto, area: Area, mem: seq<byte>, cmd: Cmd, k: nat)
    requires k < 8
    ensures var i1, c := ReadInfo(cr, mem, area, 1, 0), P3Record(cr, area, mem, cmd);
            && c.cmd2 == cmd.cmd2 && c.cmd3 == cmd.cmd3 && (i1.is_valid ==> c == cmd)
            && (!i1.is_valid ==> Bit(c.cmd1, k) == if k == 0 then 1 else Bit(cmd.cmd1, k))
  {
    FlagBits(cmd.cmd1, k);
    hide ReadInfo, MakePermanent, Bit;
  }

  // The version of the image that will be in slot 1 after the swap.
  function Slt1Will(su: Setup): nat {
    VersionU32(ReadInfo(su.cr, su.mem0, su.area, if !su.inplace && su.OldLen() > 0 then 0 else 1, 0).version)
  }

  // What is on record after a finished run, word by word: the addresses and versions its headers gave, and the crcs of
  // the images as they are.
  lemma RunRecorded(su: Setup, r: seq<byte>, cmd1: byte)
    requires su.Ok() && HeadersOk(su) && RunState(su, r) && Ended(su, r) && Recorded(su, r, cmd1)
    requires CrcFits(su.cr) && su.area.flash_size <= 0x1_0000_0000
    ensures var p, slt0 := PrmAt(r, su.area.Slt0End()), if su.inplace then 0 else 1;
            && p.pri_ld_address == ReadInfo(su.cr, su.mem0, su.area, 1, 0).load_address
            && p.sec_ld_address == ReadInfo(su.cr, su.mem0, su.area, slt0, 0).load_address
            && p.slt0_crc32 == ImageCrc(su.cr, su.area, r, 0) && p.slt1_crc32 == ImageCrc(su.cr, su.area, r, 1)
            && p.slt0_ver == VersionU32(ReadInfo(su.cr, su.mem0, su.area, slt0, 0).version)
            && p.slt1_ver == Slt1Will(su)
  {
    hide *;
    PrmReadBack(su, r, cmd1);
    RunInfos(su, r);
    RecordedExact(su.cr, su.area, su.inplace, r);
    VersionArrives(su, r);
    LoadNew(su);
  }

  lemma LoadNew(su: Setup)
    ensures NewLoad(su) == ReadInfo(su.cr, su.mem0, su.area, 1, 0).load_address
  {
    hide ReadInfo;
  }

  lemma VersionArrives(su: Setup, r: seq<byte>)
    requires su.Ok() && HeadersOk(su) && RunState(su, r) && Ended(su, r)
    ensures VersionU32(ReadInfo(su.cr, r, su.area, 1, 0).version) == Slt1Will(su)
  {
    hide Setup.Ok, HeadersOk, RunState, Ended, ReadInfo, VersionU32, Intact, HeaderFrom, SameHeaderOctets, Setup.OldLen;
    EndPos(su, r);
    var p := PosOf(su.area.sector, Current(su, r));
    if su.inplace {
      FinalHeaders(su, p, r);
      InplaceHas(su);
      AtStart(su);
      InfoFrom(su.cr, su.area, r, 1, su.mem0, 1);
    } else {
      FinalInfos(su, p, r);
    }
  }

  lemma InplaceHas(su: Setup)
    requires su.Ok() && HeadersOk(su)
    ensures su.inplace ==> su.OldLen() > 0 && su.To() == su.area.slt1_offset
  {
    HeadersLoaded(su);
    hide Setup.Ok, HeadersOk, Loaded;
    InplaceHasLength(su);
  }

  // ----- versions on record for slot 1 -----

  function OnRecord1(area: Area, mem: seq<byte>): nat {
    match PrmRead(mem, area) case None => 0 case Some(p) => p.slt1_ver
  }

  // An image accepted for slot 1 is not older than the version on record for slot 1.
  lemma AcceptedInplace(cr: Crypto, area: Area, mem: seq<byte>)
    requires Acceptance(cr, area, mem) == Some(1)
    ensures OnRecord1(area, mem) <= VersionU32(ReadInfo(cr, mem, area, 1, 0).version)
    ensures InSlot(area, 1, ReadInfo(cr, mem, area, 1, 0).load_address)
  {
    AcceptedExact(cr, area, mem, 1);
    hide Acceptance, ReadInfo, VersionU32, PrmRead, InSlot, Genuine;
  }

  // Exactly when an in-place request keeps the record of slot 1 from going back: always, except when the image asks for
  // the address that reads as "no parameters" and so wipes out the record there was. It then is the new version.
  lemma InplaceKeepsExact(cr: Crypto, area: Area, a: seq<byte>, b: seq<byte>, su: Setup)
    requires area.Ok() && |a| == area.flash_size && area.sector > 0 && b == BootFlash(cr, area, a)
    requires RequestBoot(cr, area, a, su) && CrcFits(cr) && area.flash_size <= 0x1_0000_0000 && su.inplace
    ensures OnRecord1(area, a) <= OnRecord1(area, b) <==> NewLoad(su) != EMPTY_U32 || OnRecord1(area, a) == 0
    ensures NewLoad(su) != EMPTY_U32 ==> OnRecord1(area, b) == VersionU32(ReadInfo(cr, a, area, 1, 0).version)
  {
    hide *;
    HasRequest(cr, area, a, su);
    var c := Request(cr, area, a).value;
    OneOf(cr, area, a, c);
    AcceptedMode(cr, area, a, c);
    RequestRuns(cr, area, a, b, su, c);
    AcceptedInplace(cr, area, a);
    StartLogged(area, a, c);
    SameSlotInfo(su, a, 1);
    RunRecorded(su, b, c.cmd1);
    LoadNew(su);
    InplaceWill(su);
    Record1Is(area, b);
  }

  lemma OneOf(cr: Crypto, area: Area, a: seq<byte>, c: Cmd)
    requires Request(cr, area, a).Some? && c == Request(cr, area, a).value
    ensures Request(cr, area, a) == Some(c)
  {
    hide Request;
  }

  lemma InplaceWill(su: Setup)
    requires su.inplace
    ensures Slt1Will(su) == VersionU32(ReadInfo(su.cr, su.mem0, su.area, 1, 0).version)
  {
    hide ReadInfo, VersionU32;
  }

  lemma Record1Is(area: Area, mem: seq<byte>)
    ensures var p := PrmAt(mem, area.Slt0End());
            OnRecord1(area, mem) == if p.pri_ld_address == EMPTY_U32 then 0 else p.slt1_ver
  {
    hide PrmAt;
  }

  // One boot of a device that runs its images from slot 1: nothing is swapped, or an in-place request is carried out,
  // of an image that does not ask for the address that reads as "no parameters".
  ghost predicate InplaceBoot(cr: Crypto, area: Area, a: seq<byte>, b: seq<byte>, su: Setup) {
    && area.Ok() && |a| == area.flash_size && b == BootFlash(cr, area, a)
    && (!Prepare(cr, area, a).swap || (RequestBoot(cr, area, a, su) && su.inplace && NewLoad(su) != EMPTY_U32))
  }

  lemma InplaceBootKeeps(cr: Crypto, area: Area, a: seq<byte>, b: seq<byte>, su: Setup)
    requires InplaceBoot(cr, area, a, b, su) && CrcFits(cr) && area.flash_size <= 0x1_0000_0000
    ensures OnRecord1(area, a) <= OnRecord1(area, b)
  {
    hide Area.Ok, Prepare, RequestBoot, BootFlash, CrcFits, NewLoad, PrmAt;
    SectorPositive(area);
    if !Prepare(cr, area, a).swap {
      NoSwapKeepsVersion(cr, area, a);
      RecordsKeepPrm(area, a, b);
    } else {
      InplaceKeepsExact(cr, area, a, b, su);
    }
  }

  // Over any history of such boots the version on record for slot 1 never goes back.
  lemma {:induction false} InplaceVersionsNeverGoBack(cr: Crypto, area: Area, starts: seq<seq<byte>>,
                                                      ends: seq<seq<byte>>, sus: seq<Setup>, i: nat, j: nat)
    requires |starts| == |ends| == |sus| && CrcFits(cr) && area.flash_size <= 0x1_0000_0000
    requires forall k :: 0 <= k < |starts| ==> InplaceBoot(cr, area, starts[k], ends[k], sus[k])
    requires forall k :: 0 < k < |starts| ==>
               SameOn(ends[k - 1], starts[k], area.Slt0End(), area.Slt0End() + PRM_BYTES)
    requires i <= j < |starts|
    ensures OnRecord1(area, starts[i]) <= OnRecord1(area, ends[j])
    decreases j
  {
    hide InplaceBoot, PrmAt, CrcFits, SameOn;
    InplaceBootKeeps(cr, area, starts[j], ends[j], sus[j]);
    if i < j {
      InplaceVersionsNeverGoBack(cr, area, starts, ends, sus, i, j - 1);
      assert SameOn(ends[j - 1], starts[j], area.Slt0End(), area.Slt0End() + PRM_BYTES);
      SamePrmAt(ends[j - 1], starts[j], area.Slt0End());
    }
  }

  // ----- in-place images stay -----

  // One boot after an in-place request the flash is settled, and no number of further boots moves either image.
  lemma InplaceSettles(cr: Crypto, area: Area, a: seq<byte>, su: Setup, n: nat)
    requires area.Ok() && |a| == area.flash_size && area.sector > 0 && RequestBoot(cr, area, a, su) && su.inplace
    ensures var b := BootFlash(cr, area, a);
            && Settled(area, b) && Settled(area, BootN(cr, area, b, n))
            && SameButRecords(area, b, BootN(cr, area, b, n))
  {
    hide *;
    HasRequest(cr, area, a, su);
    var c := Request(cr, area, a).value;
    OneOf(cr, area, a, c);
    RequestRuns(cr, area, a, BootFlash(cr, area, a), su, c);
    RequestPermanence(cr, area, a, c);
    PermanentSettles(su, BootFlash(cr, area, a), c.cmd1);
    SettledForever(cr, area, BootFlash(cr, area, a), n);
  }
}
