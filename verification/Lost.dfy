// What becomes of a swap of which a restart in P1 or P2 has read the wrong image info.
module Lost {
  import opened AsWritten
  import opened Bytes
  import opened CmdLog
  import Ctr
  import opened Digest
  import opened Finish
  import opened Flash
  import opened Header
  import opened Images
  import opened Move
  import opened Recovery
  import opened Runs
  import opened Swap
  import opened Turns

  // ----- the turn that loses a sector -----

  // A restart in P1 past the first sector, with the info read again, first of all erases the only copy of the
  // sector of the new image it should have moved: what it leaves in flash does not depend on that sector any more.
  lemma RestartInP1Loses(su: Setup, mem: seq<byte>, other: seq<byte>, cmd: Cmd, off: nat, r: SwpInfo)
    requires su.Ok() && Loaded(su) && RunState(su, mem) && !su.inplace && cmd == Current(su, mem)
    requires Phase(cmd.cmd2) == CMD2_SWP_P1 && cmd.cmd3 > 0 && off == cmd.cmd3 * su.area.sector && off < su.NewLen()
    requires r == SwapInfoOf(su.cr, su.area, mem, cmd)
    requires SameOutside(mem, other, su.Fr() + off, su.Fr() + off + su.area.sector)
    ensures Holds(mem, su.Fr(), off, |su.New()|, su.New())
    ensures Target(su.area, r, cmd) == (su.Fr() + off, su.Fr() + off + su.area.sector)
    ensures StepMem(su.cr, su.area, r, cmd, mem) == StepMem(su.cr, su.area, r, cmd, other)
  {
    ReloadWrong(su, mem, cmd, r);
    PlacesInSwap(su, mem);
    MixedUp(su, mem, cmd, r);
    hide SwapInfoOf, Loaded, RunState, Sectors, NextCmd, Setup.Ok, SectorMove, Holds;
    MisreadP1(su, cmd, r, mem, other, off);
  }

  lemma MisreadP1(su: Setup, cmd: Cmd, r: SwpInfo, mem: seq<byte>, other: seq<byte>, off: nat)
    requires Phase(cmd.cmd2) == CMD2_SWP_P1 && off == cmd.cmd3 * su.area.sector && off < r.EndFr()
    requires r.to.hdr_start == su.Fr() && SameOutside(mem, other, su.Fr() + off, su.Fr() + off + su.area.sector)
    ensures Target(su.area, r, cmd) == (su.Fr() + off, su.Fr() + off + su.area.sector)
    ensures StepMem(su.cr, su.area, r, cmd, mem) == StepMem(su.cr, su.area, r, cmd, other)
  {
    hide SectorMove;
    SectorMoveForgets(su.cr.aes, mem, other, su.area.sector, P1Cmd(r, off), Min(r.EndFr() - off, su.area.sector));
  }

  // A move that erases its target first does not depend on what was there.
  lemma SectorMoveForgets(aes: Ctr.Aes, a: seq<byte>, b: seq<byte>, s: nat, mc: MoveCmd, len: nat)
    requires SameOutside(a, b, mc.to_off, mc.to_off + s)
    ensures SectorMove(aes, a, s, mc, len) == SectorMove(aes, b, s, mc, len)
  {
    SameEverywhere(Erased(a, mc.to_off, s), Erased(b, mc.to_off, s));
  }

  // A restart in P2 past the first sector erases the sector of the new image in slot 0 that P1 has just put there,
  // of which the interrupted step may have erased the other copy.
  lemma RestartInP2Loses(su: Setup, mem: seq<byte>, other: seq<byte>, cmd: Cmd, off: nat, r: SwpInfo)
    requires su.Ok() && Loaded(su) && RunState(su, mem) && !su.inplace && cmd == Current(su, mem)
    requires Phase(cmd.cmd2) == CMD2_SWP_P2 && cmd.cmd3 > 0 && off == cmd.cmd3 * su.area.sector && off < su.OldLen()
    requires r == SwapInfoOf(su.cr, su.area, mem, cmd)
    requires SameOutside(mem, other, su.To() + off, su.To() + off + su.area.sector)
    ensures Holds(mem, su.To(), 0, off + su.area.sector, su.NewOut())
    ensures Target(su.area, r, cmd) == (su.To() + off, su.To() + off + su.area.sector)
    ensures StepMem(su.cr, su.area, r, cmd, mem) == StepMem(su.cr, su.area, r, cmd, other)
  {
    ReloadWrong(su, mem, cmd, r);
    PlacesInSwap(su, mem);
    MixedUp(su, mem, cmd, r);
    hide SwapInfoOf, Loaded, RunState, Sectors, NextCmd, Setup.Ok, SectorMove, Holds;
    MisreadP2(su, cmd, r, mem, other, off);
  }

  lemma MisreadP2(su: Setup, cmd: Cmd, r: SwpInfo, mem: seq<byte>, other: seq<byte>, off: nat)
    requires Phase(cmd.cmd2) == CMD2_SWP_P2 && off == cmd.cmd3 * su.area.sector && off < r.EndTo()
    requires r.fr.hdr_start == su.To() && SameOutside(mem, other, su.To() + off, su.To() + off + su.area.sector)
    ensures Target(su.area, r, cmd) == (su.To() + off, su.To() + off + su.area.sector)
    ensures StepMem(su.cr, su.area, r, cmd, mem) == StepMem(su.cr, su.area, r, cmd, other)
  {
    hide SectorMove;
    var s := su.area.sector;
    SectorMoveForgets(su.cr.aes, mem, other, s, P2Cmd(s, r, off), Min(r.EndTo() - off, s));
  }

  // A restart in P1 at the first sector, with an old image: no new image is found, so the first sector is not
  // moved, and the next turn erases the only copy of it.
  lemma RestartAtHeaderLoses(su: Setup, mem: seq<byte>, other: seq<byte>, cmd: Cmd, r: SwpInfo)
    requires su.Ok() && Loaded(su) && RunState(su, mem) && !su.inplace && su.OldLen() > 0 && cmd == Current(su, mem)
    requires Phase(cmd.cmd2) == CMD2_SWP_P1 && cmd.cmd3 == 0 && NoHeaderUp(su, mem)
    requires r == SwapInfoOf(su.cr, su.area, mem, cmd)
    requires SameOutside(mem, other, su.Fr(), su.Fr() + su.area.sector)
    ensures Holds(mem, su.Fr(), 0, |su.New()|, su.New())
    ensures StepMem(su.cr, su.area, r, cmd, mem) == mem
    ensures var next := NextCmd(su.area.sector, r, cmd);
            && Phase(next.cmd2) == CMD2_SWP_P2
            && Target(su.area, r, next) == (su.Fr(), su.Fr() + su.area.sector)
            && StepMem(su.cr, su.area, r, next, mem) == StepMem(su.cr, su.area, r, next, other)
  {
    PlacesInSwap(su, mem);
    assert !Inplace(cmd.cmd2) && su.area.sector > 0 && AtHeader(cmd) && cmd.cmd3 * su.area.sector == 0;
    LoadedKinds(su);
    HeaderMissed(su, mem, cmd, r);
    hide SwapInfoOf, Loaded, RunState, Setup.Ok, SectorMove, Holds, Magic, Inplace, Phase, StepMem, Target, NextCmd;
    MisreadHeader(su, cmd, r, mem, other);
  }

  lemma MisreadHeader(su: Setup, cmd: Cmd, r: SwpInfo, mem: seq<byte>, other: seq<byte>)
    requires !Inplace(cmd.cmd2) && Phase(cmd.cmd2) == CMD2_SWP_P1 && cmd.cmd3 == 0 && su.area.sector > 0
    requires r.EndFr() == 0 && r.fr.hdr_start == su.Fr() && r.EndTo() > 0
    requires SameOutside(mem, other, su.Fr(), su.Fr() + su.area.sector)
    ensures StepMem(su.cr, su.area, r, cmd, mem) == mem
    ensures var next := NextCmd(su.area.sector, r, cmd);
            && Phase(next.cmd2) == CMD2_SWP_P2
            && Target(su.area, r, next) == (su.Fr(), su.Fr() + su.area.sector)
            && StepMem(su.cr, su.area, r, next, mem) == StepMem(su.cr, su.area, r, next, other)
  {
    PhaseBits(CMD2_SWP_P2, false);
    hide SectorMove, Inplace, WithInplace;
    var s := su.area.sector;
    SectorMoveForgets(su.cr.aes, mem, other, s, P2Cmd(s, r, 0), Min(r.EndTo(), s));
  }

  // A restart in P1 or P2 at the first sector, without an old image: no image is found at all, nothing is left to do,
  // and the run goes on to P3 with no more than the first sector of the new image in slot 0.
  lemma RestartSkipsRest(su: Setup, mem: seq<byte>, cmd: Cmd, r: SwpInfo)
    requires su.Ok() && Loaded(su) && RunState(su, mem) && !su.inplace && su.OldLen() <= 0 && cmd == Current(su, mem)
    requires AtHeader(cmd) && NoHeaderUp(su, mem) && r == SwapInfoOf(su.cr, su.area, mem, cmd)
    ensures r != su.info
    ensures StepMem(su.cr, su.area, r, cmd, mem) == mem && Phase(NextCmd(su.area.sector, r, cmd).cmd2) == CMD2_SWP_P3
    ensures Phase(cmd.cmd2) == CMD2_SWP_P2 ==> Holds(mem, su.To(), 0, su.area.sector, su.NewOut())
    ensures Holds(mem, su.Fr(), 0, su.NewLen(), su.New())
  {
    PlacesInSwap(su, mem);
    assert !Inplace(cmd.cmd2) && cmd.cmd3 * su.area.sector == 0;
    LoadedKinds(su);
    HeaderMissed(su, mem, cmd, r);
    NothingFound(su, mem, cmd, r);
    hide Setup.Ok, Loaded, RunState, SwapInfoOf, Holds, StepMem, NextCmd;
  }

  lemma NothingFound(su: Setup, mem: seq<byte>, cmd: Cmd, r: SwpInfo)
    requires !Inplace(cmd.cmd2) && AtHeader(cmd) && r.EndFr() <= 0 && r.EndTo() <= 0 && su.area.sector > 0
    ensures StepMem(su.cr, su.area, r, cmd, mem) == mem && Phase(NextCmd(su.area.sector, r, cmd).cmd2) == CMD2_SWP_P3
  {
    PhaseBits(CMD2_SWP_P3, false);
    hide Inplace, WithInplace;
  }

  // ----- a run with the wrong info, to its end -----

  // The swap as the wrong info describes it: good enough to count its turns and to see where they write.
  ghost predicate InSlots(w: Setup) {
    var a, s := w.area, w.area.sector;
    && (w.To() == a.slt0_offset || w.To() == a.slt1_offset) && (w.Fr() == a.slt0_offset || w.Fr() == a.slt1_offset)
    && w.info.EndFr() + s <= a.slt0_size && w.info.EndFr() + s <= a.slt1_size
    && w.info.EndTo() + s <= a.slt0_size && w.info.EndTo() + s <= a.slt1_size
  }

  predicate Swapping(cmd: Cmd) {
    Phase(cmd.cmd2) == CMD2_SWP_P1 || Phase(cmd.cmd2) == CMD2_SWP_P2
  }

  // It has come to sector k of P1 and P2, or past them.
  ghost predicate ComeTo(w: Setup, k: nat, cmd: Cmd) {
    && w.Countable() && InSlots(w) && w.area.Ok() && CmdOk(w, cmd)
    && Phase(cmd.cmd2) != CMD2_SWP_START && Phase(cmd.cmd2) != CMD2_MOVE_UP
    && (Swapping(cmd) ==> k <= cmd.cmd3)
  }

  // No step from sector k on writes in [lo, hi).
  ghost predicate Spared(w: Setup, k: nat, lo: int, hi: int) {
    var s, off, log := w.area.sector, k * w.area.sector, SwapLog(w.area);
    && (w.info.EndFr() <= off || hi <= w.To() + off || w.To() + w.info.EndFr() + s <= lo)
    && (w.info.EndTo() <= off || hi <= w.Fr() + off || w.Fr() + w.info.EndTo() + s <= lo)
    && Apart(lo, hi - lo, w.area.Slt0End(), s) && Apart(lo, hi - lo, w.area.Slt1End(), s)
    && Apart(lo, hi - lo, log.start, log.end - log.start)
  }

  lemma TargetSpares(w: Setup, k: nat, cmd: Cmd, lo: int, hi: int)
    requires ComeTo(w, k, cmd) && Spared(w, k, lo, hi)
    ensures var (a, b) := Target(w.area, w.info, cmd); a == b || Apart(lo, hi - lo, a, b - a)
  {
    MulMonotone(k, Max(k, cmd.cmd3), w.area.sector);
    hide Area.Ok, Sectors, Inplace, SwapLog;
  }

  lemma TargetApart(w: Setup, k: nat, cmd: Cmd)
    requires ComeTo(w, k, cmd)
    ensures OutsideLog(w.area, w.info, cmd)
  {
    MulMonotone(0, cmd.cmd3, w.area.sector);
    SwapApart(w.area);
    hide Area.Ok, Sectors, Inplace, SwapLog;
    assert w.area.sector <= w.area.slt0_size && w.area.sector <= w.area.slt1_size by { SlotSizes(w.area); }
  }

  lemma SlotSizes(area: Area)
    requires area.Ok()
    ensures area.sector <= area.slt0_size && area.sector <= area.slt1_size && area.sector > 0
  {}

  ghost predicate OnItsWay(w: Setup, k: nat, mem: seq<byte>) {
    && |mem| == w.area.flash_size && TailBlank(mem, SwapLog(w.area)) && LastCmd(mem, SwapLog(w.area)).Some?
    && ComeTo(w, k, Current(w, mem))
  }

  lemma WayFacts(w: Setup, k: nat, mem: seq<byte>)
    requires OnItsWay(w, k, mem)
    ensures w.area.sector > 0 && LastCmd(mem, SwapLog(w.area)).Some? && |mem| == w.area.flash_size
    ensures var cmd := Current(w, mem);
            && ComeTo(w, k, cmd) && Logged(w.area, mem, cmd) && Remaining(w, cmd) >= 0
            && (Going(cmd.cmd2) <==> Remaining(w, cmd) > 0) && (!Going(cmd.cmd2) ==> Ended(w, mem))
  {
    SectorsFacts(0, w.area.sector, 0);
    hide Area.Ok, LastCmd, SwapLog, TailBlank, Sectors;
  }

  lemma WayNext(w: Setup, k: nat, cmd: Cmd)
    requires ComeTo(w, k, cmd) && Going(cmd.cmd2)
    ensures w.area.sector > 0
    ensures var next := NextCmd(w.area.sector, w.info, cmd);
            ComeTo(w, k, next) && Remaining(w, next) == Remaining(w, cmd) - 1
    ensures var next := NextCmd(w.area.sector, w.info, cmd);
            Phase(cmd.cmd2) == CMD2_SWP_P2 && Swapping(next) ==> next.cmd3 == cmd.cmd3 + 1
  {
    NextCounts(w, cmd);
    hide Area.Ok, NextCmd, Remaining, CmdOk, Phase, Inplace, Sectors;
  }

  // One turn on that way.
  lemma WayTurn(w: Setup, k: nat, mem: seq<byte>)
    requires OnItsWay(w, k, mem) && w.area.sector > 0 && Going(Current(w, mem).cmd2) && LogRoom(w, mem) > 0
    ensures var x := Iter(w.cr, w.area, w.info, mem);
            && OnItsWay(w, k, x) && LogRoom(w, x) == LogRoom(w, mem) - 1
            && Current(w, x) == NextCmd(w.area.sector, w.info, Current(w, mem))
            && Remaining(w, Current(w, x)) == Remaining(w, Current(w, mem)) - 1
  {
    hide *;
    WayFacts(w, k, mem);
    var cmd := Current(w, mem);
    TargetApart(w, k, cmd);
    WayNext(w, k, cmd);
    CurrentIs(w, mem);
    TurnLogs(w.cr, w.area, w.info, mem, cmd);
    RoomIs(w, mem);
    RoomIs(w, Iter(w.cr, w.area, w.info, mem));
    CurrentIs(w, Iter(w.cr, w.area, w.info, mem));
    IsOnItsWay(w, k, Iter(w.cr, w.area, w.info, mem));
  }

  lemma RoomIs(w: Setup, mem: seq<byte>)
    ensures LogRoom(w, mem) == Room(mem, SwapLog(w.area))
  {
    hide Room;
  }

  lemma CurrentIs(w: Setup, mem: seq<byte>)
    ensures LastCmd(mem, SwapLog(w.area)).Some? ==> LastCmd(mem, SwapLog(w.area)) == Some(Current(w, mem))
  {
    hide LastCmd, SwapLog;
  }

  lemma IsOnItsWay(w: Setup, k: nat, mem: seq<byte>)
    requires |mem| == w.area.flash_size && TailBlank(mem, SwapLog(w.area)) && LastCmd(mem, SwapLog(w.area)).Some?
    requires ComeTo(w, k, Current(w, mem))
    ensures OnItsWay(w, k, mem)
  {
    hide LastCmd, SwapLog, TailBlank, ComeTo;
  }

  // With room in the log such a run ends after the turns counted, and what its steps spare is as it was.
  lemma {:induction false} RunSpares(w: Setup, k: nat, mem: seq<byte>, lo: int, hi: int)
    requires OnItsWay(w, k, mem) && w.area.sector > 0 && Spared(w, k, lo, hi)
    requires Remaining(w, Current(w, mem)) <= LogRoom(w, mem)
    ensures 0 <= Remaining(w, Current(w, mem))
    ensures var b := IterN(w.cr, w.area, w.info, mem, Remaining(w, Current(w, mem)));
            Ended(w, b) && SameOn(mem, b, lo, hi) && |b| == |mem|
    decreases LogRoom(w, mem)
  {
    hide *;
    WayFacts(w, k, mem);
    var cmd, n := Current(w, mem), Remaining(w, Current(w, mem));
    IterNIs(w, mem, n);
    if n > 0 {
      var x := Iter(w.cr, w.area, w.info, mem);
      WayTurn(w, k, mem);
      WayFacts(w, k, x);
      RunSpares(w, k, x, lo, hi);
      TargetSpares(w, k, cmd, lo, hi);
      TargetApart(w, k, cmd);
      SparesLog(w, k, lo, hi);
      TurnSpares(w.cr, w.area, w.info, mem, cmd, lo, hi);
      SameTrans(mem, x, IterN(w.cr, w.area, w.info, x, n - 1), lo, hi);
    } else {
      SameSelf(mem, lo, hi);
    }
  }

  lemma SparesLog(w: Setup, k: nat, lo: int, hi: int)
    requires Spared(w, k, lo, hi)
    ensures Apart(lo, hi - lo, SwapLog(w.area).start, SwapLog(w.area).end - SwapLog(w.area).start)
  {
    hide SwapLog;
  }

  lemma IterNIs(w: Setup, mem: seq<byte>, n: nat)
    requires w.area.sector > 0
    ensures IterN(w.cr, w.area, w.info, mem, n)
         == if n == 0 then mem else IterN(w.cr, w.area, w.info, Iter(w.cr, w.area, w.info, mem), n - 1)
    ensures |Iter(w.cr, w.area, w.info, mem)| == |mem|
  {
    hide Iter;
  }

  lemma SameSelf(a: seq<byte>, lo: int, hi: int)
    ensures SameOn(a, a, lo, hi)
  {}

  lemma SameTrans(a: seq<byte>, b: seq<byte>, c: seq<byte>, lo: int, hi: int)
    requires SameOn(a, b, lo, hi) && SameOn(b, c, lo, hi)
    ensures SameOn(a, c, lo, hi)
  {}

  // ----- what it comes to -----

  // Slot 0 holds the whole new image, slot 1 the whole old one.
  ghost predicate HasNew(su: Setup, mem: seq<byte>) {
    Holds(mem, su.To(), 0, su.NewLen(), su.NewOut())
  }

  ghost predicate HasOld(su: Setup, mem: seq<byte>) {
    Holds(mem, su.Fr(), 0, su.OldLen(), su.OldOut())
  }

  // That is what a swap is for.
  lemma SwappedIs(su: Setup, b: seq<byte>)
    requires su.Ok() && (!su.inplace ==> Loaded(su))
    ensures Swapped(su, b) <==>
              && (!su.inplace ==> HasNew(su, b)) && HasOld(su, b)
              && (!su.inplace && su.OldLen() <= 0 ==> SameOn(b, su.mem0, su.Fr(), su.Fr() + su.NewLen()))
              && (su.inplace ==> SameOn(b, su.mem0, su.area.slt0_offset, su.area.Slt0End()))
  {
    hide *;
    PlaceFacts(su);
    ToSizes(su);
    if !su.inplace {
      NewIs(su, b);
    }
    OldIs(su, b);
    SwappedMeans(su, b);
  }

  lemma ToSizes(su: Setup)
    requires su.Ok()
    ensures |su.Old()| == |su.OldOut()| == Max(0, su.OldLen()) && |su.New()| == |su.NewOut()| == Max(0, su.NewLen())
    ensures !su.inplace ==> su.NewLen() == su.info.EndFr()
    ensures su.OldLen() == su.info.EndTo()
  {
    SlotsApart(su);
    hide Setup.Ok, Transform;
  }

  lemma NewIs(su: Setup, b: seq<byte>)
    requires |su.New()| == |su.NewOut()| == Max(0, su.NewLen())
    ensures HasNew(su, b) <==>
              forall i {:trigger NewAfter(su, i)} :: 0 <= i < su.NewLen() ==> At(b, su.To() + i) == NewAfter(su, i)
  {
    hide Crypt, Setup.NewLen;
    var base, out := su.To(), su.NewOut();
    assert forall i {:trigger NewAfter(su, i)} :: 0 <= i < su.NewLen() ==>
        out[i] == NewAfter(su, i) && su.New()[i] == At(su.mem0, su.Fr() + i);
    if !HasNew(su, b) {
      var a :| 0 <= a - base < su.NewLen() && base <= a && At(b, a) != out[a - base];
      assert At(b, base + (a - base)) != NewAfter(su, a - base);
    }
  }

  lemma OldIs(su: Setup, b: seq<byte>)
    requires |su.Old()| == |su.OldOut()| == Max(0, su.OldLen())
    ensures HasOld(su, b) <==>
              forall i {:trigger OldAfter(su, i)} :: 0 <= i < su.OldLen() ==> At(b, su.Fr() + i) == OldAfter(su, i)
  {
    hide Crypt, Setup.OldLen;
    var base, out := su.Fr(), su.OldOut();
    assert forall i {:trigger OldAfter(su, i)} :: 0 <= i < su.OldLen() ==>
        out[i] == OldAfter(su, i) && su.Old()[i] == At(su.mem0, su.To() + i);
    if !HasOld(su, b) {
      var a :| 0 <= a - base < su.OldLen() && base <= a && At(b, a) != out[a - base];
      assert At(b, base + (a - base)) != OldAfter(su, a - base);
    }
  }

  lemma SwappedMeans(su: Setup, b: seq<byte>)
    requires su.OldLen() == su.info.EndTo() && (!su.inplace ==> su.NewLen() == su.info.EndFr())
    requires su.Fr() == su.area.slt1_offset && (!su.inplace ==> su.To() == su.area.slt0_offset)
    ensures Swapped(su, b) <==>
              && (!su.inplace ==> forall i {:trigger NewAfter(su, i)} :: 0 <= i < su.NewLen() ==>
                    At(b, su.To() + i) == NewAfter(su, i))
              && (forall i {:trigger OldAfter(su, i)} :: 0 <= i < su.OldLen() ==> At(b, su.Fr() + i) == OldAfter(su, i))
              && (!su.inplace && su.OldLen() <= 0 ==> SameOn(b, su.mem0, su.Fr(), su.Fr() + su.NewLen()))
              && (su.inplace ==> SameOn(b, su.mem0, su.area.slt0_offset, su.area.Slt0End()))
  {
    hide NewAfter, OldAfter, SameOn, SwpInfo.EndTo, SwpInfo.EndFr, Setup.OldLen, Setup.NewLen;
  }

  // A restart in P1 or P2 that finds no header where there is none, and the info it reads.
  ghost predicate Misreads(su: Setup, mem: seq<byte>, cmd: Cmd, r: SwpInfo) {
    && su.Ok() && Loaded(su) && RunState(su, mem) && !su.inplace && cmd == Current(su, mem) && Swapping(cmd)
    && (cmd.cmd3 == 0 ==> NoHeaderUp(su, mem)) && r == SwapInfoOf(su.cr, su.area, mem, cmd)
  }

  // The swap with that info in use.
  function With(su: Setup, r: SwpInfo): Setup {
    su.(info := r)
  }

  // What the wrong info says: past the first sector the slots are mixed up, at the first sector there is no new image.
  lemma MisreadInfo(su: Setup, mem: seq<byte>, cmd: Cmd, r: SwpInfo)
    requires Misreads(su, mem, cmd, r)
    ensures su.NewLen() > 0
    ensures cmd.cmd3 > 0 ==>
              && r.to.hdr_start == su.Fr() && r.fr.hdr_start == su.To() && r.EndFr() == su.NewLen() && EncOk(r.to)
              && r.EndTo() == if su.OldLen() > 0 then su.OldLen() else su.NewLen()
    ensures cmd.cmd3 == 0 ==>
              && r.to.hdr_start == su.To() && r.fr.hdr_start == r.fr.end == r.fr.enc_start == su.Fr() && r.EndFr() == 0
              && r.EndTo() == (if su.OldLen() > 0 then su.OldLen() else 0) && (su.OldLen() > 0 ==> r.to == su.info.to)
  {
    hide Setup.Ok, Loaded, RunState, SwapInfoOf, NoHeaderUp, LastCmd, SwapLog, Phase;
    LoadedKinds(su);
    if cmd.cmd3 > 0 {
      MixedUp(su, mem, cmd, r);
    } else {
      HeaderMissed(su, mem, cmd, r);
    }
  }

  lemma CmdIs(su: Setup, mem: seq<byte>)
    requires RunState(su, mem)
    ensures su.area.sector > 0 && |mem| == su.area.flash_size && TailBlank(mem, SwapLog(su.area))
    ensures LastCmd(mem, SwapLog(su.area)).Some? && CmdOk(su, Current(su, mem))
  {
    hide Intact, TailBlank, LastCmd, SwapLog, CmdOk;
  }

  lemma WrongWay(su: Setup, mem: seq<byte>, cmd: Cmd, r: SwpInfo)
    requires Misreads(su, mem, cmd, r)
    ensures OnItsWay(With(su, r), cmd.cmd3, mem) && Current(With(su, r), mem) == cmd && su.area.sector > 0
  {
    hide *;
    MisreadInfo(su, mem, cmd, r);
    MisreadsRun(su, mem, cmd, r);
    CmdIs(su, mem);
    PlaceFacts(su);
    ToSizes(su);
    OkCounts(su);
    WithSectors(su, r, cmd);
    WithSlots(su, r, cmd);
    CurrentSame(su, r, mem);
    IsOnItsWay(With(su, r), cmd.cmd3, mem);
  }

  lemma WithSlots(su: Setup, r: SwpInfo, cmd: Cmd)
    requires su.area.Ok() && With(su, r).Countable() && CmdOk(With(su, r), cmd) && Swapping(cmd)
    requires r.to.hdr_start == su.area.slt0_offset || r.to.hdr_start == su.area.slt1_offset
    requires r.fr.hdr_start == su.area.slt0_offset || r.fr.hdr_start == su.area.slt1_offset
    requires r.EndFr() + su.area.sector <= su.area.slt0_size && r.EndFr() + su.area.sector <= su.area.slt1_size
    requires r.EndTo() + su.area.sector <= su.area.slt0_size && r.EndTo() + su.area.sector <= su.area.slt1_size
    ensures ComeTo(With(su, r), cmd.cmd3, cmd)
  {
    hide Area.Ok, Setup.Countable, CmdOk, SwpInfo.EndTo, SwpInfo.EndFr;
  }

  lemma CurrentSame(su: Setup, r: SwpInfo, mem: seq<byte>)
    requires LastCmd(mem, SwapLog(su.area)).Some?
    ensures Current(With(su, r), mem) == Current(su, mem) && With(su, r).area == su.area
  {
    hide LastCmd, SwapLog;
  }

  lemma MisreadsRun(su: Setup, mem: seq<byte>, cmd: Cmd, r: SwpInfo)
    requires Misreads(su, mem, cmd, r)
    ensures su.Ok() && Loaded(su) && RunState(su, mem) && !su.inplace && LastCmd(mem, SwapLog(su.area)).Some?
    ensures cmd == Current(su, mem) && Swapping(cmd)
    ensures Phase(cmd.cmd2) == CMD2_SWP_P1 || Phase(cmd.cmd2) == CMD2_SWP_P2
    ensures cmd.cmd3 == 0 ==> cmd.cmd3 * su.area.sector == 0
  {
    hide Setup.Ok, Loaded, SwapInfoOf, NoHeaderUp, LastCmd, SwapLog, Intact, CmdOk, Phase;
  }

  lemma WithSectors(su: Setup, r: SwpInfo, cmd: Cmd)
    requires su.Countable() && !su.inplace && CmdOk(su, cmd) && Swapping(cmd)
    requires cmd.cmd3 > 0 ==>
               r.EndFr() == su.NewLen() && r.EndTo() == if su.OldLen() > 0 then su.OldLen() else su.NewLen()
    requires cmd.cmd3 == 0 ==> r.EndFr() == 0 && r.EndTo() == if su.OldLen() > 0 then su.OldLen() else 0
    ensures With(su, r).Countable() && CmdOk(With(su, r), cmd)
  {
    SectorsFacts(0, su.area.sector, 0);
    hide Inplace;
  }

  // What lies in one slot below its last sector, where no step from sector k on writes, is spared.
  lemma SlotSpared(w: Setup, k: nat, off: nat, lo: int, hi: int, base: int, size: int)
    requires w.area.Ok() && off == k * w.area.sector && base <= lo && hi <= base + size - w.area.sector
    requires (base == w.area.slt0_offset && size == w.area.slt0_size)
        || (base == w.area.slt1_offset && size == w.area.slt1_size)
    requires InSlots(w)
    requires w.info.EndFr() <= off || (w.To() == base && hi <= base + off) || w.To() != base
    requires w.info.EndTo() <= off || (w.Fr() == base && hi <= base + off) || w.Fr() != base
    ensures Spared(w, k, lo, hi)
  {
    LastSectorsApart(w.area);
    SwapApart(w.area);
    var a, s := w.area, w.area.sector;
    assert a.slt0_offset + a.slt0_size <= a.slt1_offset || a.slt1_offset + a.slt1_size <= a.slt0_offset;
    hide Area.Ok, SwapLog, SwpInfo.EndTo, SwpInfo.EndFr;
  }

  // Past the first sector with the old image through, or none and nothing left: no step writes in slot 0, nor in
  // slot 1 where it holds its image.
  lemma DoneSpares(su: Setup, w: Setup, k: nat, off: nat)
    requires su.Ok() && !su.inplace && w.area == su.area && off == k * su.area.sector && InSlots(w)
    requires w.To() == su.area.slt1_offset && w.Fr() == su.area.slt0_offset
    requires w.info.EndTo() <= off && (su.OldLen() <= off && (su.OldLen() > 0 || w.info.EndFr() <= off))
    ensures Spared(w, k, su.area.slt0_offset, su.area.Slt0End())
    ensures Spared(w, k, su.Fr(), su.Fr() + if su.OldLen() > 0 then su.OldLen() else su.NewLen())
  {
    PlaceFacts(su);
    Distinct(su.area);
    hide Setup.Ok, Area.Ok, SwpInfo.EndTo, SwpInfo.EndFr, InSlots, Setup.OldLen, Setup.NewLen, Spared;
    SlotSpared(w, k, off, su.area.slt0_offset, su.area.Slt0End(), su.area.slt0_offset, su.area.slt0_size);
    SlotSpared(w, k, off, su.Fr(), su.Fr() + if su.OldLen() > 0 then su.OldLen() else su.NewLen(), su.area.slt1_offset,
               su.area.slt1_size);
  }

  lemma Distinct(area: Area)
    requires area.Ok()
    ensures area.slt0_offset != area.slt1_offset
  {}

  // Past the end of the new image: no step writes in slot 1, nor in slot 0 where it holds the new image.
  lemma OldSpares(su: Setup, w: Setup, k: nat, off: nat)
    requires su.Ok() && !su.inplace && w.area == su.area && off == k * su.area.sector && InSlots(w)
    requires w.To() == su.area.slt1_offset && w.Fr() == su.area.slt0_offset
    requires w.info.EndFr() <= off && su.NewLen() <= off
    ensures Spared(w, k, su.area.slt1_offset, su.area.Slt1End())
    ensures Spared(w, k, su.To(), su.To() + su.NewLen())
  {
    PlaceFacts(su);
    Distinct(su.area);
    hide Setup.Ok, Area.Ok, SwpInfo.EndTo, SwpInfo.EndFr, InSlots, Setup.OldLen, Setup.NewLen, Spared;
    SlotSpared(w, k, off, su.area.slt1_offset, su.area.Slt1End(), su.area.slt1_offset, su.area.slt1_size);
    SlotSpared(w, k, off, su.To(), su.To() + su.NewLen(), su.area.slt0_offset, su.area.slt0_size);
  }

  // At the first sector: no step writes in slot 0, nor, without an old image, in slot 1.
  lemma FirstSpares(su: Setup, w: Setup)
    requires su.Ok() && w.area == su.area && InSlots(w) && w.info.EndFr() <= 0
    requires w.Fr() == su.area.slt1_offset
    ensures Spared(w, 0, su.area.slt0_offset, su.area.Slt0End())
    ensures w.info.EndTo() <= 0 ==> Spared(w, 0, su.area.slt1_offset, su.area.Slt1End())
  {
    PlaceFacts(su);
    Distinct(su.area);
    hide Setup.Ok, Area.Ok, SwpInfo.EndTo, SwpInfo.EndFr, InSlots, Setup.OldLen, Setup.NewLen, Spared;
    SlotSpared(w, 0, 0, su.area.slt0_offset, su.area.Slt0End(), su.area.slt0_offset, su.area.slt0_size);
    if w.info.EndTo() <= 0 {
      SlotSpared(w, 0, 0, su.area.slt1_offset, su.area.Slt1End(), su.area.slt1_offset, su.area.slt1_size);
    }
  }

  lemma HoldsThrough(a: seq<byte>, b: seq<byte>, base: int, len: int, img: seq<byte>)
    requires SameOn(a, b, base, base + len)
    ensures Holds(a, base, 0, len, img) <==> Holds(b, base, 0, len, img)
  {
    if !Holds(a, base, 0, len, img) {
      var x :| 0 <= x - base < len && x - base < |img| && base <= x && At(a, x) != img[x - base];
      assert At(b, x) != img[x - base];
    }
  }

  lemma HoldsLess(a: seq<byte>, base: int, hi: int, len: int, img: seq<byte>)
    requires Holds(a, base, 0, hi, img) && len <= hi
    ensures Holds(a, base, 0, len, img)
  {}

  lemma HeldAsBefore(mem: seq<byte>, b: seq<byte>, mem0: seq<byte>, base: int, img: seq<byte>)
    requires Holds(mem, base, 0, |img|, img) && img == Slice(mem0, base, |img|)
    requires SameOn(mem, b, base, base + |img|)
    ensures SameOn(b, mem0, base, base + |img|)
  {
    forall a {:trigger At(b, a)} | base <= a < base + |img|
      ensures At(b, a) == At(mem0, a)
    {
      assert At(mem, a) == img[a - base];
    }
  }

  // The turns that run takes, and what it leaves.
  function TurnsLeft(su: Setup, r: SwpInfo, cmd: Cmd): int
    requires su.area.sector > 0
  {
    Remaining(With(su, r), cmd)
  }

  lemma WrongRun(su: Setup, mem: seq<byte>, cmd: Cmd, r: SwpInfo, lo: int, hi: int)
    requires OnItsWay(With(su, r), cmd.cmd3, mem) && Current(With(su, r), mem) == cmd && su.area.sector > 0
    requires Spared(With(su, r), cmd.cmd3, lo, hi) && TurnsLeft(su, r, cmd) <= LogRoom(su, mem)
    ensures 0 <= TurnsLeft(su, r, cmd)
    ensures var b := IterN(su.cr, su.area, r, mem, TurnsLeft(su, r, cmd)); Ended(su, b) && SameOn(mem, b, lo, hi)
  {
    var w := With(su, r);
    assert LogRoom(w, mem) == LogRoom(su, mem) && w.area == su.area && w.cr == su.cr && w.info == r;
    hide OnItsWay, Spared, Remaining, IterN, SameOn, LastCmd, SwapLog, Room;
    RunSpares(w, cmd.cmd3, mem, lo, hi);
  }

  // Slot 0 is never written again below its last sector, and slot 1 has its image: the swap ends right if and only if
  // slot 0 already holds the whole new image.
  lemma DoneExact(su: Setup, mem: seq<byte>, cmd: Cmd, r: SwpInfo)
    requires Misreads(su, mem, cmd, r) && su.area.sector > 0 && TurnsLeft(su, r, cmd) <= LogRoom(su, mem)
    requires var off := cmd.cmd3 * su.area.sector;
             cmd.cmd3 > 0 && su.OldLen() <= off && (su.OldLen() > 0 || su.NewLen() <= off)
    ensures 0 <= TurnsLeft(su, r, cmd)
    ensures var b := IterN(su.cr, su.area, r, mem, TurnsLeft(su, r, cmd));
            Ended(su, b) && (Swapped(su, b) <==> HasNew(su, mem))
  {
    hide *;
    MisreadInfo(su, mem, cmd, r);
    MisreadsRun(su, mem, cmd, r);
    PlacesInSwap(su, mem);
    LoadedKinds(su);
    PlaceFacts(su);
    WrongWay(su, mem, cmd, r);
    var w, len := With(su, r), if su.OldLen() > 0 then su.OldLen() else su.NewLen();
    WithIs(su, r);
    WaySlots(w, cmd.cmd3, mem);
    DoneSpares(su, w, cmd.cmd3, cmd.cmd3 * su.area.sector);
    WrongRun(su, mem, cmd, r, su.area.slt0_offset, su.area.Slt0End());
    WrongRun(su, mem, cmd, r, su.Fr(), su.Fr() + len);
    var b := IterN(su.cr, su.area, r, mem, TurnsLeft(su, r, cmd));
    NewThrough(su, mem, b);
    HoldsLess(mem, su.Fr(), cmd.cmd3 * su.area.sector, su.OldLen(), su.OldOut());
    OldThrough(su, mem, b);
    SwappedIs(su, b);
    assert HasOld(su, b);
  }

  lemma WithIs(su: Setup, r: SwpInfo)
    ensures var w := With(su, r);
            && w.cr == su.cr && w.area == su.area && w.inplace == su.inplace && w.mem0 == su.mem0 && w.info == r
            && w.To() == r.to.hdr_start && w.Fr() == r.fr.hdr_start
  {}

  lemma WaySlots(w: Setup, k: nat, mem: seq<byte>)
    requires OnItsWay(w, k, mem)
    ensures InSlots(w) && w.area.Ok()
  {
    hide InSlots, Area.Ok, TailBlank, LastCmd, SwapLog, CmdOk;
  }

  lemma NewThrough(su: Setup, mem: seq<byte>, b: seq<byte>)
    requires su.Ok() && !su.inplace && SameOn(mem, b, su.area.slt0_offset, su.area.Slt0End())
    ensures HasNew(su, mem) <==> HasNew(su, b)
  {
    PlaceFacts(su);
    hide Setup.Ok, Area.Ok, Holds, SameOn, Setup.NewLen, Setup.NewOut;
    SamePart(mem, b, su.area.slt0_offset, su.area.Slt0End(), su.To(), su.To() + su.NewLen());
    HoldsThrough(mem, b, su.To(), su.NewLen(), su.NewOut());
  }

  lemma OldThrough(su: Setup, mem: seq<byte>, b: seq<byte>)
    requires Holds(mem, su.Fr(), 0, su.OldLen(), su.OldOut()) && |su.New()| == su.NewLen()
    requires su.OldLen() <= 0 ==> Holds(mem, su.Fr(), 0, su.NewLen(), su.New())
    requires su.New() == Slice(su.mem0, su.Fr(), |su.New()|)
    requires SameOn(mem, b, su.Fr(), su.Fr() + if su.OldLen() > 0 then su.OldLen() else su.NewLen())
    ensures HasOld(su, b)
    ensures su.OldLen() <= 0 ==> SameOn(b, su.mem0, su.Fr(), su.Fr() + su.NewLen())
  {
    hide Holds, SameOn, Setup.NewLen, Setup.OldLen, Setup.OldOut, Setup.New;
    if su.OldLen() > 0 {
      HoldsThrough(mem, b, su.Fr(), su.OldLen(), su.OldOut());
    } else {
      HeldAsBefore(mem, b, su.mem0, su.Fr(), su.New());
      HoldsNothing(b, su.Fr(), su.OldLen(), su.OldOut());
    }
  }

  lemma HoldsNothing(b: seq<byte>, base: int, len: int, img: seq<byte>)
    requires len <= 0
    ensures Holds(b, base, 0, len, img)
  {}

  // Slot 1 is never written again below its last sector, and slot 0 has its image: the swap ends right if and only if
  // slot 1 already holds the whole old image.
  lemma OldExact(su: Setup, mem: seq<byte>, cmd: Cmd, r: SwpInfo)
    requires Misreads(su, mem, cmd, r) && su.area.sector > 0 && TurnsLeft(su, r, cmd) <= LogRoom(su, mem)
    requires cmd.cmd3 > 0 && su.NewLen() <= cmd.cmd3 * su.area.sector < su.OldLen()
    ensures 0 <= TurnsLeft(su, r, cmd)
    ensures var b := IterN(su.cr, su.area, r, mem, TurnsLeft(su, r, cmd));
            Ended(su, b) && (Swapped(su, b) <==> HasOld(su, mem))
  {
    hide *;
    MisreadInfo(su, mem, cmd, r);
    MisreadsRun(su, mem, cmd, r);
    PlaceFacts(su);
    WrongWay(su, mem, cmd, r);
    var w := With(su, r);
    WithIs(su, r);
    WaySlots(w, cmd.cmd3, mem);
    OldSpares(su, w, cmd.cmd3, cmd.cmd3 * su.area.sector);
    WrongRun(su, mem, cmd, r, su.area.slt1_offset, su.area.Slt1End());
    WrongRun(su, mem, cmd, r, su.To(), su.To() + su.NewLen());
    var b := IterN(su.cr, su.area, r, mem, TurnsLeft(su, r, cmd));
    NewIsThere(su, mem, cmd);
    HasNewThrough(su, mem, b);
    OldThere(su, mem, b);
    SwappedIs(su, b);
  }

  // Once its sectors are counted, slot 0 holds the new image.
  lemma NewIsThere(su: Setup, mem: seq<byte>, cmd: Cmd)
    requires su.Ok() && RunState(su, mem) && !su.inplace && cmd == Current(su, mem) && Swapping(cmd)
    requires || su.NewLen() <= cmd.cmd3 * su.area.sector
             || (Phase(cmd.cmd2) == CMD2_SWP_P2 && su.NewLen() <= cmd.cmd3 * su.area.sector + su.area.sector)
    ensures HasNew(su, mem)
  {
    hide Setup.Ok, RunState, Holds, LastCmd, SwapLog, Setup.NewLen, Setup.OldLen, Phase, Setup.NewOut, Setup.OldOut;
    PlacesInSwap(su, mem);
    var hi := cmd.cmd3 * su.area.sector + if Phase(cmd.cmd2) == CMD2_SWP_P1 then 0 else su.area.sector;
    HoldsLess(mem, su.To(), hi, su.NewLen(), su.NewOut());
  }

  lemma HasNewThrough(su: Setup, mem: seq<byte>, b: seq<byte>)
    requires SameOn(mem, b, su.To(), su.To() + su.NewLen())
    ensures HasNew(su, mem) <==> HasNew(su, b)
  {
    hide Holds, SameOn, Setup.NewLen, Setup.NewOut;
    HoldsThrough(mem, b, su.To(), su.NewLen(), su.NewOut());
  }

  lemma OldThere(su: Setup, mem: seq<byte>, b: seq<byte>)
    requires su.Ok() && SameOn(mem, b, su.area.slt1_offset, su.area.Slt1End())
    ensures HasOld(su, mem) <==> HasOld(su, b)
  {
    PlaceFacts(su);
    hide Setup.Ok, Area.Ok, Holds, SameOn, Setup.OldLen, Setup.OldOut;
    SamePart(mem, b, su.area.slt1_offset, su.area.Slt1End(), su.Fr(), su.Fr() + su.OldLen());
    HoldsThrough(mem, b, su.Fr(), su.OldLen(), su.OldOut());
  }

  // Without a new image the swap is one of the old image alone, which arrives.
  lemma OldArrives(su: Setup, mem: seq<byte>, cmd: Cmd, r: SwpInfo)
    requires Misreads(su, mem, cmd, r) && su.area.sector > 0 && TurnsLeft(su, r, cmd) <= LogRoom(su, mem)
    requires cmd.cmd3 == 0 && su.OldLen() > 0
    ensures 0 <= TurnsLeft(su, r, cmd)
    ensures HasOld(su, IterN(su.cr, su.area, r, mem, TurnsLeft(su, r, cmd)))
  {
    hide *;
    var w := With(su, r);
    MisreadInfo(su, mem, cmd, r);
    MisreadsRun(su, mem, cmd, r);
    WithIs(su, r);
    FirstSetup(su, w);
    WrongWay(su, mem, cmd, r);
    FirstState(su, w, mem, cmd);
    LeftIs(su, r, mem, cmd);
    RunToEnd(w, mem);
    var b := IterN(su.cr, su.area, r, mem, TurnsLeft(su, r, cmd));
    EndPlaces(w, b);
    SameOldOut(su, w, b);
  }

  lemma FirstSetup(su: Setup, w: Setup)
    requires su.Ok() && !su.inplace && !w.inplace && w.area == su.area && w.mem0 == su.mem0
    requires w.info.to == su.info.to
    requires w.info.fr.hdr_start == w.info.fr.end == w.info.fr.enc_start == su.Fr()
    ensures w.Ok() && w.OldLen() == su.OldLen() && w.NewLen() == 0
  {
    hide Area.Ok;
  }

  lemma FirstState(su: Setup, w: Setup, mem: seq<byte>, cmd: Cmd)
    requires su.Ok() && w.Ok() && RunState(su, mem) && cmd == Current(su, mem) && Swapping(cmd) && cmd.cmd3 == 0
    requires !su.inplace && w.cr == su.cr && w.area == su.area && !w.inplace && w.mem0 == su.mem0
    requires w.info.to == su.info.to && w.Fr() == su.Fr() && w.NewLen() == 0 && su.OldLen() > 0
    ensures RunState(w, mem)
  {
    FirstIntact(su, w, PosOf(su.area.sector, cmd), mem);
    hide Setup.Ok, Intact, LastCmd, SwapLog, TailBlank, Sectors;
  }

  lemma FirstIntact(su: Setup, w: Setup, p: Pos, mem: seq<byte>)
    requires Intact(su, p, mem) && p.phase != CMD2_SWP_START && w.NewLen() == 0 && su.OldLen() > 0
    requires w.cr == su.cr && w.area == su.area && !w.inplace && w.mem0 == su.mem0
    requires w.info.to == su.info.to && w.Fr() == su.Fr()
    ensures Intact(w, p, mem)
  {
    assert w.Old() == su.Old() && w.OldOut() == su.OldOut() && |w.New()| == |w.NewOut()| == 0;
    hide Setup.Old, Setup.New, Setup.OldOut, Setup.NewOut, SameOn, Transform;
  }

  lemma LeftIs(su: Setup, r: SwpInfo, mem: seq<byte>, cmd: Cmd)
    requires su.area.sector > 0 && LastCmd(mem, SwapLog(su.area)).Some? && cmd == Current(su, mem)
    ensures Left(With(su, r), mem) == TurnsLeft(su, r, cmd) == Remaining(With(su, r), cmd)
    ensures LogRoom(With(su, r), mem) == LogRoom(su, mem)
  {
    hide Remaining, LastCmd, SwapLog, Room;
  }

  lemma SameOldOut(su: Setup, w: Setup, b: seq<byte>)
    requires w.cr == su.cr && w.area == su.area && w.mem0 == su.mem0 && w.info.to == su.info.to && w.Fr() == su.Fr()
    requires Holds(b, w.Fr(), 0, w.OldLen(), w.OldOut())
    ensures HasOld(su, b)
  {
    assert w.OldOut() == su.OldOut() && w.OldLen() == su.OldLen();
    hide Holds, Setup.OldOut, Setup.OldLen;
  }

  // At the first sector slot 0 is never written again below its last sector, and slot 1 gets the old image if there is
  // one: the swap ends right if and only if slot 0 already holds the whole new image.
  lemma FirstExact(su: Setup, mem: seq<byte>, cmd: Cmd, r: SwpInfo)
    requires Misreads(su, mem, cmd, r) && su.area.sector > 0 && TurnsLeft(su, r, cmd) <= LogRoom(su, mem)
    requires cmd.cmd3 == 0
    ensures 0 <= TurnsLeft(su, r, cmd)
    ensures var b := IterN(su.cr, su.area, r, mem, TurnsLeft(su, r, cmd));
            Ended(su, b) && (Swapped(su, b) <==> HasNew(su, mem)) && HasOld(su, b)
  {
    hide *;
    MisreadInfo(su, mem, cmd, r);
    MisreadsRun(su, mem, cmd, r);
    PlacesInSwap(su, mem);
    LoadedKinds(su);
    PlaceFacts(su);
    WrongWay(su, mem, cmd, r);
    var w := With(su, r);
    WithIs(su, r);
    WaySlots(w, cmd.cmd3, mem);
    FirstSpares(su, w);
    WrongRun(su, mem, cmd, r, su.area.slt0_offset, su.area.Slt0End());
    var b := IterN(su.cr, su.area, r, mem, TurnsLeft(su, r, cmd));
    NewThrough(su, mem, b);
    SwappedIs(su, b);
    if su.OldLen() > 0 {
      OldArrives(su, mem, cmd, r);
    } else {
      WrongRun(su, mem, cmd, r, su.area.slt1_offset, su.area.Slt1End());
      EndsAt(su.area);
      SamePart(mem, b, su.area.slt1_offset, su.area.Slt1End(), su.Fr(), su.Fr() + su.NewLen());
      HoldsNothing(mem, su.Fr(), su.OldLen(), su.OldOut());
      OldThrough(su, mem, b);
    }
  }

  lemma EndsAt(area: Area)
    ensures area.Slt0End() == area.slt0_offset + area.slt0_size - area.sector
    ensures area.Slt1End() == area.slt1_offset + area.slt1_size - area.sector
  {}

  // ----- the sector that is moved the wrong way -----

  // Octet i of what a P2 step with the mixed up info puts into slot 0: octet i of the next sector of slot 1, with the
  // key stream of the image slot 1 starts with.
  function Mismoved(su: Setup, r: SwpInfo, mem: seq<byte>, off: int, i: int): byte {
    var at := su.Fr() + off + su.area.sector + i;
    Crypt(su.cr.aes, r.to.enc_key, r.to.enc_start + su.area.sector, at, At(mem, at))
  }

  // That step.
  lemma MismoveTurn(su: Setup, w: Setup, mem: seq<byte>, cmd: Cmd, off: nat)
    requires OnItsWay(w, cmd.cmd3, mem) && w.area.sector > 0 && cmd == Current(w, mem) && LogRoom(w, mem) > 0
    requires w.cr == su.cr && w.area == su.area && w.To() == su.Fr() && w.Fr() == su.To() && !w.inplace
    requires Phase(cmd.cmd2) == CMD2_SWP_P2 && off == cmd.cmd3 * su.area.sector && off < w.info.EndTo()
    requires EncOk(w.info.to) && w.To() != w.Fr()
    ensures var x := Iter(w.cr, w.area, w.info, mem);
            && OnItsWay(w, cmd.cmd3 + 1, x) && LogRoom(w, x) == LogRoom(w, mem) - 1
            && Remaining(w, Current(w, x)) == Remaining(w, cmd) - 1
            && forall i {:trigger Mismoved(su, w.info, mem, off, i)} ::
                 0 <= i < Min(w.info.EndTo() - off, su.area.sector) ==>
                   At(x, su.To() + off + i) == Mismoved(su, w.info, mem, off, i)
  {
    hide *;
    WayFacts(w, cmd.cmd3, mem);
    SwappingGoes(cmd);
    WayTurn(w, cmd.cmd3, mem);
    WayFacts(w, cmd.cmd3, Iter(w.cr, w.area, w.info, mem));
    WayNext(w, cmd.cmd3, cmd);
    IsFurther(w, cmd.cmd3, mem, Iter(w.cr, w.area, w.info, mem));
    TargetApart(w, cmd.cmd3, cmd);
    CurrentIs(w, mem);
    TurnLogs(w.cr, w.area, w.info, mem, cmd);
    MismoveStep(su, w, mem, cmd, off);
    MismoveKept(su, w, mem, cmd, off, StepMem(w.cr, w.area, w.info, cmd, mem), Iter(w.cr, w.area, w.info, mem));
  }

  lemma IsFurther(w: Setup, k: nat, mem: seq<byte>, x: seq<byte>)
    requires OnItsWay(w, k, x)
    requires Swapping(Current(w, x)) ==> Current(w, x).cmd3 == k + 1
    ensures OnItsWay(w, k + 1, x)
  {
    hide LastCmd, SwapLog, TailBlank, CmdOk, InSlots, Area.Ok, Swapping, Phase;
  }

  lemma MismoveStep(su: Setup, w: Setup, mem: seq<byte>, cmd: Cmd, off: nat)
    requires ComeTo(w, cmd.cmd3, cmd) && w.area.sector > 0 && |mem| == w.area.flash_size
    requires w.cr == su.cr && w.area == su.area && w.To() == su.Fr() && w.Fr() == su.To() && w.To() != w.Fr()
    requires Phase(cmd.cmd2) == CMD2_SWP_P2 && off == cmd.cmd3 * su.area.sector && off < w.info.EndTo()
    requires EncOk(w.info.to)
    ensures var d := StepMem(w.cr, w.area, w.info, cmd, mem);
            forall i {:trigger Mismoved(su, w.info, mem, off, i)} ::
              0 <= i < Min(w.info.EndTo() - off, su.area.sector) ==>
                At(d, su.To() + off + i) == Mismoved(su, w.info, mem, off, i)
  {
    var s := su.area.sector;
    var mc, len := P2Cmd(s, w.info, off), Min(w.info.EndTo() - off, s);
    MismoveFits(w, cmd, off, len);
    P2StepMem(w, cmd, mem, off, len);
    hide *;
    SectorMoveAt(w.cr.aes, mem, s, mc, len);
    MismoveOctets(su, w, mem, off, len, SectorMove(w.cr.aes, mem, s, mc, len));
  }

  lemma P2StepMem(w: Setup, cmd: Cmd, mem: seq<byte>, off: nat, len: nat)
    requires Phase(cmd.cmd2) == CMD2_SWP_P2 && off == cmd.cmd3 * w.area.sector && off < w.info.EndTo()
    requires len == Min(w.info.EndTo() - off, w.area.sector)
    ensures StepMem(w.cr, w.area, w.info, cmd, mem)
         == SectorMove(w.cr.aes, mem, w.area.sector, P2Cmd(w.area.sector, w.info, off), len)
  {
    hide SectorMove, P2Cmd, Phase;
  }

  lemma MismoveFits(w: Setup, cmd: Cmd, off: nat, len: nat)
    requires ComeTo(w, cmd.cmd3, cmd) && w.area.sector > 0 && w.To() != w.Fr() && EncOk(w.info.to)
    requires off == cmd.cmd3 * w.area.sector && off < w.info.EndTo() && len == Min(w.info.EndTo() - off, w.area.sector)
    ensures var mc, s := P2Cmd(w.area.sector, w.info, off), w.area.sector;
            && mc.to_off + s <= w.area.flash_size && Apart(mc.fr_off, len, mc.to_off, s) && len <= s
            && ((mc.fr_eoff - mc.fr_off) % 16 == 0 || mc.fr_off + len <= mc.fr_eoff)
  {
    SectorAligned(cmd.cmd3, w.area.sector);
    if (w.info.to.enc_start - w.info.to.hdr_start) % 16 == 0 {
      DifferenceOf16(w.info.to.enc_start - w.info.to.hdr_start, off);
    }
    hide Sectors, CmdOk;
  }

  lemma MismoveOctets(su: Setup, w: Setup, mem: seq<byte>, off: nat, len: nat, d: seq<byte>)
    requires w.cr == su.cr && w.area == su.area && w.To() == su.Fr() && w.Fr() == su.To()
    requires var mc, aes := P2Cmd(su.area.sector, w.info, off), w.cr.aes;
             forall a {:trigger At(d, a)} :: mc.to_off <= a < mc.to_off + len ==>
               At(d, a)
               == Crypt(aes, mc.key, mc.fr_eoff, mc.fr_off + (a - mc.to_off), At(mem, mc.fr_off + (a - mc.to_off)))
    ensures forall i {:trigger Mismoved(su, w.info, mem, off, i)} :: 0 <= i < len ==>
              At(d, su.To() + off + i) == Mismoved(su, w.info, mem, off, i)
  {
    hide Crypt;
    forall i {:trigger Mismoved(su, w.info, mem, off, i)} | 0 <= i < len
      ensures At(d, su.To() + off + i) == Mismoved(su, w.info, mem, off, i)
    {
      assert At(d, su.To() + off + i) == At(d, P2Cmd(su.area.sector, w.info, off).to_off + i);
    }
  }

  lemma MismoveKept(su: Setup, w: Setup, mem: seq<byte>, cmd: Cmd, off: nat, d: seq<byte>, x: seq<byte>)
    requires ComeTo(w, cmd.cmd3, cmd) && off < w.info.EndTo() && w.area == su.area && w.Fr() == su.To()
    requires SameOutside(d, x, SwapLog(w.area).start, SwapLog(w.area).end)
    requires forall i {:trigger Mismoved(su, w.info, mem, off, i)} ::
               0 <= i < Min(w.info.EndTo() - off, su.area.sector) ==>
                 At(d, su.To() + off + i) == Mismoved(su, w.info, mem, off, i)
    ensures forall i {:trigger Mismoved(su, w.info, mem, off, i)} ::
              0 <= i < Min(w.info.EndTo() - off, su.area.sector) ==>
                At(x, su.To() + off + i) == Mismoved(su, w.info, mem, off, i)
  {
    SwapApart(w.area);
    hide Area.Ok, Mismoved, Sectors, CmdOk, SwapLog;
  }

  lemma SwappingGoes(cmd: Cmd)
    ensures Phase(cmd.cmd2) == CMD2_SWP_P1 || Phase(cmd.cmd2) == CMD2_SWP_P2 <==> Swapping(cmd)
    ensures Swapping(cmd) ==> Going(cmd.cmd2)
  {
    hide Phase;
  }

  // From that step on the sector stays as it is.
  lemma MismovedStays(su: Setup, w: Setup, mem: seq<byte>, cmd: Cmd, off: nat)
    requires OnItsWay(w, cmd.cmd3, mem) && w.area.sector > 0 && cmd == Current(w, mem)
    requires Remaining(w, cmd) <= LogRoom(w, mem) && su.Ok() && !su.inplace && off < su.NewLen()
    requires w.cr == su.cr && w.area == su.area && w.To() == su.Fr() && w.Fr() == su.To() && !w.inplace
    requires Phase(cmd.cmd2) == CMD2_SWP_P2 && off == cmd.cmd3 * su.area.sector && off < w.info.EndTo()
    requires EncOk(w.info.to)
    ensures 0 <= Remaining(w, cmd)
    ensures var b := IterN(w.cr, w.area, w.info, mem, Remaining(w, cmd));
            && Ended(w, b)
            && forall i {:trigger Mismoved(su, w.info, mem, off, i)} ::
                 0 <= i < Min(w.info.EndTo() - off, su.area.sector) ==>
                   At(b, su.To() + off + i) == Mismoved(su, w.info, mem, off, i)
  {
    hide *;
    PlaceFacts(su);
    Distinct(su.area);
    WayFacts(w, cmd.cmd3, mem);
    WaySlots(w, cmd.cmd3, mem);
    SwappingGoes(cmd);
    MismoveTurn(su, w, mem, cmd, off);
    var x, s := Iter(w.cr, w.area, w.info, mem), su.area.sector;
    WayFacts(w, cmd.cmd3 + 1, x);
    IterNIs(w, mem, Remaining(w, cmd));
    NewRoom(su, cmd.cmd3, off);
    NextSector(cmd.cmd3, s);
    EndsAt(su.area);
    SlotSpared(w, cmd.cmd3 + 1, off + s, su.To() + off, su.To() + off + s, su.area.slt0_offset, su.area.slt0_size);
    RunSpares(w, cmd.cmd3 + 1, x, su.To() + off, su.To() + off + s);
    var b := IterN(w.cr, w.area, w.info, x, Remaining(w, Current(w, x)));
    SectorStays(su, w, mem, off, x, b);
  }

  lemma NewRoom(su: Setup, k: nat, off: nat)
    requires su.Ok() && !su.inplace && off == k * su.area.sector && off < su.NewLen()
    ensures off + 2 * su.area.sector <= su.area.slt0_size && off + 2 * su.area.sector <= su.area.slt1_size
  {
    PlaceFacts(su);
    hide Setup.Ok, Setup.NewLen;
    SectorRoom(k, su.area.sector, su.NewLen(), su.area.slt0_size);
    SectorRoom(k, su.area.sector, su.NewLen(), su.area.slt1_size);
  }

  lemma SectorStays(su: Setup, w: Setup, mem: seq<byte>, off: nat, x: seq<byte>, b: seq<byte>)
    requires SameOn(x, b, su.To() + off, su.To() + off + su.area.sector)
    requires forall i {:trigger Mismoved(su, w.info, mem, off, i)} ::
               0 <= i < Min(w.info.EndTo() - off, su.area.sector) ==>
                 At(x, su.To() + off + i) == Mismoved(su, w.info, mem, off, i)
    ensures forall i {:trigger Mismoved(su, w.info, mem, off, i)} ::
              0 <= i < Min(w.info.EndTo() - off, su.area.sector) ==>
                At(b, su.To() + off + i) == Mismoved(su, w.info, mem, off, i)
  {
    hide Mismoved;
  }

  // Past the first sector, in the middle of both images or of a new one moved to an empty slot 0: the sector of slot 0
  // that was to hold the new image's ends up as a copy of slot 1's next one, with the wrong key stream.
  lemma MixedExact(su: Setup, mem: seq<byte>, cmd: Cmd, r: SwpInfo, off: nat)
    requires Misreads(su, mem, cmd, r) && su.area.sector > 0 && TurnsLeft(su, r, cmd) <= LogRoom(su, mem)
    requires cmd.cmd3 > 0 && off == cmd.cmd3 * su.area.sector && off < su.NewLen()
    requires off < su.OldLen() || su.OldLen() <= 0
    ensures 0 <= TurnsLeft(su, r, cmd)
    ensures var b := IterN(su.cr, su.area, r, mem, TurnsLeft(su, r, cmd));
            && Ended(su, b)
            && forall i {:trigger Mismoved(su, r, mem, off, i)} :: 0 <= i < Min(r.EndTo() - off, su.area.sector) ==>
                 At(b, su.To() + off + i) == Mismoved(su, r, mem, off, i)
  {
    hide *;
    MisreadInfo(su, mem, cmd, r);
    MisreadsRun(su, mem, cmd, r);
    PlaceFacts(su);
    WrongWay(su, mem, cmd, r);
    var w := With(su, r);
    WithIs(su, r);
    LeftIs(su, r, mem, cmd);
    EndedIs(su, r, IterN(su.cr, su.area, r, mem, if TurnsLeft(su, r, cmd) < 0 then 0 else TurnsLeft(su, r, cmd)));
    if Phase(cmd.cmd2) == CMD2_SWP_P2 {
      MismovedStays(su, w, mem, cmd, off);
    } else {
      var x := Iter(w.cr, w.area, w.info, mem);
      MixedTurn(su, w, mem, cmd, off);
      WayFacts(w, cmd.cmd3, x);
      MismovedStays(su, w, x, Current(w, x), off);
      IterNIs(w, mem, Remaining(w, cmd));
      SameSource(su, w.info, mem, x, off);
    }
  }

  lemma EndedIs(su: Setup, r: SwpInfo, b: seq<byte>)
    ensures Ended(With(su, r), b) == Ended(su, b)
  {
    hide LastCmd, SwapLog;
  }

  // The P1 step before it leaves the source of that copy alone.
  lemma MixedTurn(su: Setup, w: Setup, mem: seq<byte>, cmd: Cmd, off: nat)
    requires OnItsWay(w, cmd.cmd3, mem) && w.area.sector > 0 && cmd == Current(w, mem)
    requires Remaining(w, cmd) <= LogRoom(w, mem) && su.Ok() && !su.inplace && off < su.NewLen()
    requires w.cr == su.cr && w.area == su.area && w.To() == su.Fr() && w.Fr() == su.To() && !w.inplace
    requires Phase(cmd.cmd2) == CMD2_SWP_P1 && off == cmd.cmd3 * su.area.sector && off < w.info.EndFr()
    ensures var x, s := Iter(w.cr, w.area, w.info, mem), su.area.sector;
            && OnItsWay(w, cmd.cmd3, x) && Phase(Current(w, x).cmd2) == CMD2_SWP_P2 && Current(w, x).cmd3 == cmd.cmd3
            && 0 <= Remaining(w, Current(w, x)) == Remaining(w, cmd) - 1 && LogRoom(w, x) == LogRoom(w, mem) - 1
            && SameOn(mem, x, su.Fr() + off + s, su.Fr() + off + 2 * s)
  {
    hide *;
    var x, s := Iter(w.cr, w.area, w.info, mem), su.area.sector;
    WayFacts(w, cmd.cmd3, mem);
    SwappingGoes(cmd);
    WayTurn(w, cmd.cmd3, mem);
    WayFacts(w, cmd.cmd3, x);
    MixedNext(w, cmd, off);
    TargetApart(w, cmd.cmd3, cmd);
    CurrentIs(w, mem);
    NewRoom(su, cmd.cmd3, off);
    PlaceFacts(su);
    InsideApart(su.area, su.Fr() + off + s, su.Fr() + off + 2 * s);
    MixedTarget(w, cmd, off, su.Fr() + off + s, su.Fr() + off + 2 * s);
    TurnSpares(w.cr, w.area, w.info, mem, cmd, su.Fr() + off + s, su.Fr() + off + 2 * s);
  }

  lemma MixedNext(w: Setup, cmd: Cmd, off: nat)
    requires ComeTo(w, cmd.cmd3, cmd) && Phase(cmd.cmd2) == CMD2_SWP_P1 && !w.inplace
    requires off == cmd.cmd3 * w.area.sector && off < w.info.EndFr()
    ensures w.area.sector > 0
    ensures var next := NextCmd(w.area.sector, w.info, cmd); Phase(next.cmd2) == CMD2_SWP_P2 && next.cmd3 == cmd.cmd3
  {
    NextPhases(w, cmd);
    hide NextCmd, Area.Ok, Sectors, Inplace;
  }

  lemma InsideApart(area: Area, lo: int, hi: int)
    requires area.Ok() && area.slt1_offset <= lo <= hi <= area.slt1_offset + area.slt1_size
    ensures Apart(lo, hi - lo, SwapLog(area).start, SwapLog(area).end - SwapLog(area).start)
  {
    SwapApart(area);
    hide Area.Ok, SwapLog;
  }

  lemma MixedTarget(w: Setup, cmd: Cmd, off: nat, lo: int, hi: int)
    requires Phase(cmd.cmd2) == CMD2_SWP_P1 && off == cmd.cmd3 * w.area.sector && lo == w.To() + off + w.area.sector
    requires lo <= hi
    ensures var (a, b) := Target(w.area, w.info, cmd); a == b || Apart(lo, hi - lo, a, b - a)
  {
    hide Phase;
  }

  lemma SameSource(su: Setup, r: SwpInfo, mem: seq<byte>, x: seq<byte>, off: nat)
    requires SameOn(mem, x, su.Fr() + off + su.area.sector, su.Fr() + off + 2 * su.area.sector)
    ensures forall i {:trigger Mismoved(su, r, mem, off, i)} :: 0 <= i < Min(r.EndTo() - off, su.area.sector) ==>
              Mismoved(su, r, mem, off, i) == Mismoved(su, r, x, off, i)
  {
    hide Crypt;
  }

  // ----- exactly when a restart in P1 or P2 still ends right -----

  // With m, n sectors of the old and the new image, a restart at sector k finishes the swap
  // - at the first sector, with the old image through (0 < m <= k), or past both images: if and only if slot 0
  //   already holds the whole new image;
  // - past the end of a shorter new image: if and only if slot 1 already holds the whole old one;
  // - in all other places it puts into slot 0's sector k a copy of slot 1's next sector, with the wrong key stream.
  lemma RestartExact(su: Setup, mem: seq<byte>, cmd: Cmd, r: SwpInfo)
    requires Misreads(su, mem, cmd, r) && su.area.sector > 0 && TurnsLeft(su, r, cmd) <= LogRoom(su, mem)
    ensures 0 <= TurnsLeft(su, r, cmd)
    ensures var m, n, k, off := su.OldSectors(), su.NewSectors(), cmd.cmd3, cmd.cmd3 * su.area.sector;
            var b := IterN(su.cr, su.area, r, mem, TurnsLeft(su, r, cmd));
            && Ended(su, b) && (k == 0 ==> HasOld(su, b))
            && (k == 0 || (m <= k && (m > 0 || n <= k)) ==> (Swapped(su, b) <==> HasNew(su, mem)))
            && (k > 0 && n <= k < m ==> (Swapped(su, b) <==> HasOld(su, mem)))
            && (k > 0 && k < n && (k < m || m == 0) ==>
                  forall i {:trigger Mismoved(su, r, mem, off, i)} :: 0 <= i < Min(r.EndTo() - off, su.area.sector) ==>
                    At(b, su.To() + off + i) == Mismoved(su, r, mem, off, i))
  {
    hide *;
    Reached(su, cmd.cmd3);
    if cmd.cmd3 == 0 {
      FirstExact(su, mem, cmd, r);
    } else if su.OldSectors() <= cmd.cmd3 && (su.OldSectors() > 0 || su.NewSectors() <= cmd.cmd3) {
      DoneExact(su, mem, cmd, r);
    } else if su.NewSectors() <= cmd.cmd3 {
      OldExact(su, mem, cmd, r);
    } else {
      MixedExact(su, mem, cmd, r, cmd.cmd3 * su.area.sector);
    }
  }

  // Where sector numbers alone show that a restart recovers, it does: slot 0 holds the new image already.
  lemma PositionShows(su: Setup, mem: seq<byte>, cmd: Cmd, r: SwpInfo)
    requires Misreads(su, mem, cmd, r) && su.area.sector > 0 && TurnsLeft(su, r, cmd) <= LogRoom(su, mem)
    requires LastCmd(mem, SwapLog(su.area)).Some? && (Harmless(su, mem) || ShortRestart(su, mem))
    ensures HasNew(su, mem) && 0 <= TurnsLeft(su, r, cmd)
    ensures Swapped(su, IterN(su.cr, su.area, r, mem, TurnsLeft(su, r, cmd)))
  {
    hide *;
    MisreadsRun(su, mem, cmd, r);
    MisreadInfo(su, mem, cmd, r);
    Reached(su, cmd.cmd3);
    if Harmless(su, mem) {
      HarmlessLengths(su, mem);
      HarmlessSectors(su, mem);
    } else {
      ShortLengths(su, mem);
    }
    NewIsThere(su, mem, cmd);
    RestartExact(su, mem, cmd, r);
  }

  lemma HarmlessSectors(su: Setup, mem: seq<byte>)
    requires su.area.sector > 0 && LastCmd(mem, SwapLog(su.area)).Some? && Harmless(su, mem)
    ensures var m, n, k := su.OldSectors(), su.NewSectors(), Current(su, mem).cmd3;
            k == 0 || (m <= k && (m > 0 || n <= k))
  {
    hide LastCmd, SwapLog, NoHeaderUp, Phase, Sectors;
  }

  lemma ShortLengths(su: Setup, mem: seq<byte>)
    requires su.area.sector > 0 && LastCmd(mem, SwapLog(su.area)).Some? && ShortRestart(su, mem)
    ensures Phase(Current(su, mem).cmd2) == CMD2_SWP_P2 && Current(su, mem).cmd3 == 0
    ensures su.NewLen() <= Current(su, mem).cmd3 * su.area.sector + su.area.sector
  {
    hide LastCmd, SwapLog, NoHeaderUp, Phase;
  }

  // In place, at sector 0 of P2 with the header gone: neither slot is written again below its last sector, so the swap
  // ends right if and only if slot 1 already holds the whole image as it is to be.
  lemma InplaceGoneExact(su: Setup, mem: seq<byte>, cmd: Cmd, r: SwpInfo)
    requires su.Ok() && RunState(su, mem) && su.inplace && cmd == Current(su, mem) && su.area.sector > 0
    requires Phase(cmd.cmd2) == CMD2_SWP_P2 && cmd.cmd3 == 0 && Magic(mem, su.Fr()) != TLV_AREA_MAGIC
    requires r == SwapInfoOf(su.cr, su.area, mem, cmd) && TurnsLeft(su, r, cmd) <= LogRoom(su, mem)
    ensures 0 <= TurnsLeft(su, r, cmd)
    ensures var b := IterN(su.cr, su.area, r, mem, TurnsLeft(su, r, cmd));
            Ended(su, b) && (Swapped(su, b) <==> HasOld(su, mem))
  {
    hide *;
    var w := With(su, r);
    PlaceFacts(su);
    WithIs(su, r);
    GoneInfo(su, mem, cmd, r);
    GoneWay(su, mem, cmd, r);
    WaySlots(w, 0, mem);
    FirstSpares(su, w);
    WrongRun(su, mem, cmd, r, su.area.slt0_offset, su.area.Slt0End());
    WrongRun(su, mem, cmd, r, su.area.slt1_offset, su.area.Slt1End());
    var b := IterN(su.cr, su.area, r, mem, TurnsLeft(su, r, cmd));
    OldThere(su, mem, b);
    SlotZeroStays(su, mem, b);
    SwappedIs(su, b);
  }

  lemma GoneInfo(su: Setup, mem: seq<byte>, cmd: Cmd, r: SwpInfo)
    requires su.Ok() && RunState(su, mem) && su.inplace && cmd == Current(su, mem)
    requires r == SwapInfoOf(su.cr, su.area, mem, cmd)
    requires Phase(cmd.cmd2) == CMD2_SWP_P2 && cmd.cmd3 == 0 && Magic(mem, su.Fr()) != TLV_AREA_MAGIC
    ensures r.to.hdr_start == r.fr.hdr_start == su.area.slt1_offset && r.EndFr() == r.EndTo() == 0
  {
    hide *;
    InplaceSame(su, mem);
    PlaceFacts(su);
    InplaceInfo(su.cr, su.area, mem, cmd);
    NoImageAt(su.cr, su.area, mem);
  }

  lemma InplaceInfo(cr: Crypto, area: Area, mem: seq<byte>, cmd: Cmd)
    requires Inplace(cmd.cmd2)
    ensures SwapInfoOf(cr, area, mem, cmd)
         == SwpInfo(KeepForRam(area, ReadInfo(cr, mem, area, 1, 0)), KeepForRam(area, ReadInfo(cr, mem, area, 1, 0)))
  {
    hide Inplace, ReadInfo, KeepForRam, Phase;
  }

  lemma NoImageAt(cr: Crypto, area: Area, mem: seq<byte>)
    requires Magic(mem, area.slt1_offset) != TLV_AREA_MAGIC
    ensures var i := KeepForRam(area, ReadInfo(cr, mem, area, 1, 0));
            i.hdr_start == area.slt1_offset && SwpInfo(i, i).EndTo() == SwpInfo(i, i).EndFr() == 0
  {
    hide Magic, ReadInfo, KeepForRam;
    ReadInfoAt(cr, area, mem, 1, 0);
  }

  lemma GoneWay(su: Setup, mem: seq<byte>, cmd: Cmd, r: SwpInfo)
    requires su.Ok() && RunState(su, mem) && su.inplace && cmd == Current(su, mem) && su.area.sector > 0
    requires Phase(cmd.cmd2) == CMD2_SWP_P2 && cmd.cmd3 == 0
    requires r.to.hdr_start == r.fr.hdr_start == su.area.slt1_offset && r.EndFr() == r.EndTo() == 0
    ensures OnItsWay(With(su, r), 0, mem) && Current(With(su, r), mem) == cmd
  {
    CmdIs(su, mem);
    PlaceFacts(su);
    SectorsFacts(0, su.area.sector, 0);
    assert With(su, r).Countable() && CmdOk(With(su, r), cmd) by {
      hide Setup.Ok, Area.Ok, RunState, Inplace, LastCmd, SwapLog;
    }
    hide Setup.Ok, RunState, Area.Ok, Sectors, LastCmd, SwapLog, TailBlank, CmdOk, Phase;
  }

  lemma SlotZeroStays(su: Setup, mem: seq<byte>, b: seq<byte>)
    requires RunState(su, mem) && su.inplace && SameOn(mem, b, su.area.slt0_offset, su.area.Slt0End())
    ensures SameOn(b, su.mem0, su.area.slt0_offset, su.area.Slt0End())
  {
    hide OldPlaces, NewPlaces, CmdOk, LastCmd, SwapLog;
    assert SameOn(mem, su.mem0, su.area.slt0_offset, su.area.Slt0End());
  }
}
