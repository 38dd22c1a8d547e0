// The command records of zepboot/src/zb_flash.c: an append-only log in which the last valid record counts.
module CmdLog {
  import opened Bytes
  import opened Flash

  // struct zb_cmd without its check octet, which is a function of the other three.
  datatype Cmd = Cmd(cmd1: byte, cmd2: byte, cmd3: byte)

  // ----- the check octet -----

  // crc8_ccitt, one bit at a time (polynomial 0x07).
  function CrcBit(v: bv8): bv8 {
    if v & 0x80 != 0 then (v << 1) ^ 0x07 else v << 1
  }

  function CrcOctet(v: bv8, p: bv8): bv8 {
    CrcBit(CrcBit(CrcBit(CrcBit(CrcBit(CrcBit(CrcBit(CrcBit(v ^ p))))))))
  }

  // crc8_ccitt(0xff, cmd, offsetof(struct zb_cmd, crc8))
  function Crc8(c: Cmd): byte {
    CrcOctet(CrcOctet(CrcOctet(0xff, c.cmd1 as bv8), c.cmd2 as bv8), c.cmd3 as bv8) as int
  }

  function Record(c: Cmd): (r: seq<byte>)
    ensures |r| == 4
  {
    [c.cmd1, c.cmd2, c.cmd3, Crc8(c)]
  }

  // The commands listed in docs/usage.md (temporary and permanent swap, make permanent, boot slot 0), as stored.
  lemma DocumentedTemporarySwap()
    ensures Record(Cmd(0x10, 0x00, 0x00)) == [0x10, 0x00, 0x00, 0x89]
  {
    hide Crc8;
    DocumentedTemporarySwapCrc();
  }

  lemma DocumentedTemporarySwapCrc()
    ensures Crc8(Cmd(0x10, 0x00, 0x00)) == 0x89
  {}

  lemma DocumentedPermanentSwap()
    ensures Record(Cmd(0x11, 0x00, 0x00)) == [0x11, 0x00, 0x00, 0xe2]
  {
    hide Crc8;
    DocumentedPermanentSwapCrc();
  }

  lemma DocumentedPermanentSwapCrc()
    ensures Crc8(Cmd(0x11, 0x00, 0x00)) == 0xe2
  {}

  lemma DocumentedMakePermanent()
    ensures Record(Cmd(0x01, 0x00, 0x00)) == [0x01, 0x00, 0x00, 0x40]
  {
    hide Crc8;
    DocumentedMakePermanentCrc();
  }

  lemma DocumentedMakePermanentCrc()
    ensures Crc8(Cmd(0x01, 0x00, 0x00)) == 0x40
  {}

  lemma DocumentedBootSlot0()
    ensures Record(Cmd(0x20, 0x00, 0x00)) == [0x20, 0x00, 0x00, 0x68]
  {
    hide Crc8;
    DocumentedBootSlot0Crc();
  }

  lemma DocumentedBootSlot0Crc()
    ensures Crc8(Cmd(0x20, 0x00, 0x00)) == 0x68
  {
    assert CrcOctet(0xff, 0x20) == 0x13;
    assert CrcOctet(0x13, 0x00) == 0x79;
    assert CrcOctet(0x79, 0x00) == 0x68;
  }

  // A record of the swap log: MOVE_UP at sector 5 of a temporary swap.
  lemma MoveUpRecord()
    ensures Record(Cmd(0x00, 0x12, 0x05)) == [0x00, 0x12, 0x05, 0x4d]
  {
    hide Crc8;
    MoveUpRecordCrc();
  }

  lemma MoveUpRecordCrc()
    ensures Crc8(Cmd(0x00, 0x12, 0x05)) == 0x4d
  {
    assert CrcOctet(0xff, 0x00) == 0xf3;
    assert CrcOctet(0xf3, 0x12) == 0xa9;
    assert CrcOctet(0xa9, 0x05) == 0x4d;
  }

  // The check octet finds every change of a single octet.
  lemma CrcFindsOctet(a: bv8, b: bv8, c: bv8, x: bv8)
    ensures var crc := CrcOctet(CrcOctet(CrcOctet(0xff, a), b), c);
            && (x != a ==> CrcOctet(CrcOctet(CrcOctet(0xff, x), b), c) != crc)
            && (x != b ==> CrcOctet(CrcOctet(CrcOctet(0xff, a), x), c) != crc)
            && (x != c ==> CrcOctet(CrcOctet(CrcOctet(0xff, a), b), x) != crc)
  {
    hide CrcOctet;
    CrcOctetInjective(0xff, x, 0xff, a);
    CrcOctetInjective(CrcOctet(0xff, x), b, CrcOctet(0xff, a), b);
    CrcOctetInjective(CrcOctet(CrcOctet(0xff, x), b), c, CrcOctet(CrcOctet(0xff, a), b), c);
    CrcOctetInjective(CrcOctet(0xff, a), x, CrcOctet(0xff, a), b);
    CrcOctetInjective(CrcOctet(CrcOctet(0xff, a), x), c, CrcOctet(CrcOctet(0xff, a), b), c);
    CrcOctetInjective(CrcOctet(CrcOctet(0xff, a), b), x, CrcOctet(CrcOctet(0xff, a), b), c);
  }

  lemma CrcBitInjective(v: bv8, w: bv8)
    ensures CrcBit(v) == CrcBit(w) ==> v == w
  {}

  lemma CrcOctetInjective(v: bv8, p: bv8, w: bv8, q: bv8)
    ensures v == w && p != q ==> CrcOctet(v, p) != CrcOctet(w, q)
    ensures v != w && p == q ==> CrcOctet(v, p) != CrcOctet(w, q)
  {
    MaskInjective(v, p, w, q);
    hide CrcBit;
    var a, b := v ^ p, w ^ q;
    CrcBitsInjective(CrcBits(a), CrcBits(b));
    CrcBitsInjective(a, b);
  }

  lemma MaskInjective(v: bv8, p: bv8, w: bv8, q: bv8)
    ensures v == w && p != q ==> v ^ p != w ^ q
    ensures v != w && p == q ==> v ^ p != w ^ q
  {}

  // Half an octet of steps.
  function CrcBits(v: bv8): bv8 {
    CrcBit(CrcBit(CrcBit(CrcBit(v))))
  }

  lemma CrcBitsInjective(v: bv8, w: bv8)
    ensures CrcBits(v) == CrcBits(w) ==> v == w
  {
    hide CrcBit;
    CrcBitInjective(v, w);
    CrcBitInjective(CrcBit(v), CrcBit(w));
    CrcBitInjective(CrcBit(CrcBit(v)), CrcBit(CrcBit(w)));
    CrcBitInjective(CrcBit(CrcBit(CrcBit(v))), CrcBit(CrcBit(CrcBit(w))));
  }

  // A stamped command never looks like an unused record.
  lemma RecordIsNotEmpty(c: Cmd)
    ensures exists i :: 0 <= i < 4 && Record(c)[i] != EMPTY_U8
  {
    if c.cmd1 != 0xff {
      assert Record(c)[0] != EMPTY_U8;
    } else if c.cmd2 != 0xff {
      assert Record(c)[1] != EMPTY_U8;
    } else if c.cmd3 != 0xff {
      assert Record(c)[2] != EMPTY_U8;
    } else {
      assert Crc8(Cmd(0xff, 0xff, 0xff)) == 0x24;
      assert Record(c)[3] != EMPTY_U8;
    }
  }

  // ----- records in flash -----

  // Where a log lives: records every `stride` octets from start up to end.
  datatype Log = Log(start: nat, end: nat, stride: nat)
  {
    // n octets hold a whole number of records.
    predicate Whole(n: int) {
      (stride == 4 && n % 4 == 0) || (stride == 8 && n % 8 == 0)
    }

    ghost predicate Ok(block: nat) {
      BlockOk(block) && stride == AlignSize(block, 4) && Aligned(block, start) && start < end && Whole(end - start)
    }
  }

  function CmdAt(mem: seq<byte>, off: int): Cmd {
    Cmd(At(mem, off), At(mem, off + 1), At(mem, off + 2))
  }

  predicate IsEmpty(mem: seq<byte>, off: int) {
    At(mem, off) == 0xff && At(mem, off + 1) == 0xff && At(mem, off + 2) == 0xff && At(mem, off + 3) == 0xff
  }

  predicate CrcMatches(mem: seq<byte>, off: int) {
    At(mem, off + 3) == Crc8(CmdAt(mem, off))
  }

  // The valid commands from off on, up to the first unused record.
  function Commands(mem: seq<byte>, off: int, log: Log): seq<Cmd>
    decreases log.end - off
  {
    if off >= log.end || log.stride == 0 || IsEmpty(mem, off) then []
    else (if CrcMatches(mem, off) then [CmdAt(mem, off)] else []) + Commands(mem, off + log.stride, log)
  }

  // The first unused record at or after off; log.end or more when there is none.
  function FirstFree(mem: seq<byte>, off: int, log: Log): (f: int)
    ensures off <= f
    decreases log.end - off
  {
    if off >= log.end || log.stride == 0 || IsEmpty(mem, off) then off else FirstFree(mem, off + log.stride, log)
  }

  // How many records fit from off on.
  function Records(off: int, log: Log): nat
    decreases log.end - off
  {
    if off >= log.end || log.stride == 0 then 0 else 1 + Records(off + log.stride, log)
  }

  // How many more commands the log takes.
  function Room(mem: seq<byte>, log: Log): nat {
    Records(FirstFree(mem, log.start, log), log)
  }

  function LogCommands(mem: seq<byte>, log: Log): seq<Cmd> {
    Commands(mem, log.start, log)
  }

  // "Last valid record wins".
  function LastCmd(mem: seq<byte>, log: Log): (r: Option<Cmd>) {
    var cs := LogCommands(mem, log);
    if cs == [] then None else Some(cs[|cs| - 1])
  }

  datatype Option<+T> = None | Some(value: T)

  // The part of the log from the first unused record on has not been written since it was erased.
  ghost predicate TailBlank(mem: seq<byte>, log: Log) {
    Blank(mem, FirstFree(mem, log.start, log), log.end)
  }

  // What a successful zb_cmd_write leaves in flash; a full log is not changed.
  function Append(mem: seq<byte>, log: Log, c: Cmd): (r: seq<byte>)
    ensures |r| == |mem|
  {
    var f := FirstFree(mem, log.start, log);
    if f < log.end then Put(mem, f, Record(c)) else mem
  }

  // A record whose write was cut short: still unused, or failing its check; the padding is as it was.
  ghost predicate Torn(mem: seq<byte>, torn: seq<byte>, log: Log) {
    var f := FirstFree(mem, log.start, log);
    && f < log.end
    && SameOutside(mem, torn, f, f + 4)
    && (IsEmpty(torn, f) || !CrcMatches(torn, f))
  }

  // ----- laws of the log -----

  lemma {:induction false} SameCommands(a: seq<byte>, b: seq<byte>, off: int, log: Log)
    requires log.Whole(log.end - off)
    requires SameOn(a, b, off, log.end)
    ensures Commands(a, off, log) == Commands(b, off, log)
    ensures FirstFree(a, off, log) == FirstFree(b, off, log)
    decreases log.end - off
  {
    hide Crc8;
    if off < log.end {
      SameCommands(a, b, off + log.stride, log);
    }
  }

  // Appending adds exactly one command and uses exactly one record.
  lemma {:induction false} AppendFrom(mem: seq<byte>, off: int, log: Log, c: Cmd)
    requires log.Whole(log.end - off) && 0 <= off && log.end <= |mem|
    requires Blank(mem, FirstFree(mem, off, log), log.end)
    requires FirstFree(mem, off, log) < log.end
    ensures var m := Put(mem, FirstFree(mem, off, log), Record(c));
            && Commands(m, off, log) == Commands(mem, off, log) + [c]
            && FirstFree(m, off, log) == FirstFree(mem, off, log) + log.stride
    decreases log.end - off
  {
    hide Crc8, Commands, FirstFree, IsEmpty, CrcMatches, CmdAt, Record, Blank;
    var m := Put(mem, FirstFree(mem, off, log), Record(c));
    FreeAt(mem, off, log);
    if IsEmpty(mem, off) {
      AppendHere(mem, off, log, c);
    } else {
      ScanStep(mem, off, log);
      FreeAt(mem, off + log.stride, log);
      AppendFrom(mem, off + log.stride, log, c);
      SameRecord(mem, m, off);
      ScanStep(m, off, log);
    }
  }

  lemma FreeAt(mem: seq<byte>, off: int, log: Log)
    ensures FirstFree(mem, off, log) >= off
    ensures off < log.end && FirstFree(mem, off, log) < log.end && log.stride > 0 ==> (IsEmpty(mem, off)
        <==> FirstFree(mem, off, log) == off)
  {
    hide IsEmpty;
  }

  lemma SameRecord(a: seq<byte>, b: seq<byte>, off: int)
    requires SameOn(a, b, off, off + 4)
    ensures IsEmpty(a, off) == IsEmpty(b, off) && CrcMatches(a, off) == CrcMatches(b, off)
    ensures CmdAt(a, off) == CmdAt(b, off)
  {
    hide Crc8;
    assert At(a, off) == At(b, off) && At(a, off + 1) == At(b, off + 1) && At(a, off + 2) == At(b, off + 2)
        && At(a, off + 3) == At(b, off + 3);
  }

  // The record goes to the first unused place, and what follows it is unused.
  lemma AppendHere(mem: seq<byte>, off: int, log: Log, c: Cmd)
    requires log.Whole(log.end - off) && 0 <= off < log.end <= |mem| && IsEmpty(mem, off)
    requires Blank(mem, off, log.end)
    ensures var m := Put(mem, off, Record(c));
            Commands(m, off, log) == [c] && FirstFree(m, off, log) == off + log.stride && Commands(mem, off, log) == []
  {
    hide Crc8, Commands, FirstFree, CrcMatches, CmdAt, Record;
    var m := Put(mem, off, Record(c));
    ScanStep(mem, off, log);
    RecordReadsBack(mem, off, c);
    ScanStep(m, off, log);
    if off + log.stride < log.end {
      assert IsEmpty(m, off + log.stride);
      ScanStep(m, off + log.stride, log);
    } else {
      ScanEnd(m, log);
    }
  }

  lemma RecordReadsBack(mem: seq<byte>, off: nat, c: Cmd)
    requires off + 4 <= |mem|
    ensures var m := Put(mem, off, Record(c)); !IsEmpty(m, off) && CmdAt(m, off) == c && CrcMatches(m, off)
  {
    RecordIsNotEmpty(c);
    var m := Put(mem, off, Record(c));
    assert At(m, off) == c.cmd1 && At(m, off + 1) == c.cmd2 && At(m, off + 2) == c.cmd3 && At(m, off + 3) == Crc8(c);
  }

  // A torn record adds no command and uses at most one record.
  lemma {:induction false} TornFrom(mem: seq<byte>, torn: seq<byte>, off: int, log: Log)
    requires log.Whole(log.end - off)
    requires Blank(mem, FirstFree(mem, off, log), log.end)
    requires var f := FirstFree(mem, off, log);
             f < log.end && SameOutside(mem, torn, f, f + 4) && (IsEmpty(torn, f) || !CrcMatches(torn, f))
    ensures Commands(torn, off, log) == Commands(mem, off, log)
    ensures var f := FirstFree(mem, off, log);
            FirstFree(torn, off, log) == if IsEmpty(torn, f) then f else f + log.stride
    decreases log.end - off
  {
    hide Crc8, Commands, FirstFree, IsEmpty, CrcMatches, CmdAt, Blank;
    FreeAt(mem, off, log);
    if IsEmpty(mem, off) {
      TornHere(mem, torn, off, log);
    } else {
      ScanStep(mem, off, log);
      FreeAt(mem, off + log.stride, log);
      TornFrom(mem, torn, off + log.stride, log);
      SameRecord(mem, torn, off);
      ScanStep(torn, off, log);
    }
  }

  lemma TornHere(mem: seq<byte>, torn: seq<byte>, off: int, log: Log)
    requires log.Whole(log.end - off) && off < log.end && IsEmpty(mem, off) && Blank(mem, off, log.end)
    requires SameOutside(mem, torn, off, off + 4) && (IsEmpty(torn, off) || !CrcMatches(torn, off))
    ensures Commands(torn, off, log) == [] == Commands(mem, off, log)
    ensures FirstFree(torn, off, log) == if IsEmpty(torn, off) then off else off + log.stride
  {
    hide Crc8, Commands, FirstFree, CrcMatches, CmdAt;
    ScanStep(mem, off, log);
    ScanStep(torn, off, log);
    if off + log.stride < log.end {
      assert IsEmpty(torn, off + log.stride);
      ScanStep(torn, off + log.stride, log);
    } else {
      ScanEnd(torn, log);
    }
  }

  lemma AppendAddsLast(mem: seq<byte>, log: Log, c: Cmd, block: nat)
    requires log.Ok(block) && log.end <= |mem| && TailBlank(mem, log)
    ensures var m := Append(mem, log, c);
            if Room(mem, log) > 0 then
              LogCommands(m, log) == LogCommands(mem, log) + [c] && Room(m, log) == Room(mem, log) - 1
                  && TailBlank(m, log)
            else m == mem
  {
    if FirstFree(mem, log.start, log) < log.end {
      AppendFrom(mem, log.start, log, c);
    }
  }

  lemma TornKeepsCommands(mem: seq<byte>, torn: seq<byte>, log: Log, block: nat)
    requires log.Ok(block) && TailBlank(mem, log) && Torn(mem, torn, log)
    ensures LogCommands(torn, log) == LogCommands(mem, log) && TailBlank(torn, log)
    ensures Room(torn, log) == Room(mem, log) || Room(torn, log) == Room(mem, log) - 1
  {
    hide Crc8, Commands, FirstFree;
    TornFrom(mem, torn, log.start, log);
  }

  // An erased log holds no command and has room for one record per stride.
  lemma ErasedLog(mem: seq<byte>, log: Log, block: nat)
    requires log.Ok(block) && Blank(mem, log.start, log.end)
    ensures LogCommands(mem, log) == [] && TailBlank(mem, log)
    ensures Room(mem, log) == (log.end - log.start) / log.stride
  {
    RecordsClosedForm(log.start, log);
  }

  lemma {:induction false} RecordsClosedForm(off: int, log: Log)
    requires log.Whole(log.end - off) && off <= log.end
    ensures Records(off, log) == (log.end - off) / log.stride
    decreases log.end - off
  {
    if off < log.end {
      RecordsClosedForm(off + log.stride, log);
    }
  }

  // Two flash contents with the same log region hold the same log.
  lemma SameLog(a: seq<byte>, b: seq<byte>, log: Log, block: nat)
    requires log.Ok(block) && SameOn(a, b, log.start, log.end)
    ensures LogCommands(a, log) == LogCommands(b, log) && Room(a, log) == Room(b, log)
    ensures FirstFree(a, log.start, log) == FirstFree(b, log.start, log)
    ensures TailBlank(a, log) ==> TailBlank(b, log)
  {
    SameCommands(a, b, log.start, log);
  }

  // ----- what "last valid record wins" means -----

  // The record that starts at `off` has been written: from `s` on no record up to it is unused.
  ghost predicate Written(mem: seq<byte>, s: int, log: Log, off: int) {
    && s <= off < log.end && log.Whole(off - s)
    && forall p {:trigger IsEmpty(mem, p)} :: s <= p <= off && log.Whole(p - s) ==> !IsEmpty(mem, p)
  }

  // It is the last one that passes its check.
  ghost predicate Newest(mem: seq<byte>, s: int, log: Log, off: int) {
    && Written(mem, s, log, off) && CrcMatches(mem, off)
    && forall p {:trigger Written(mem, s, log, p)} :: off < p && Written(mem, s, log, p) ==> !CrcMatches(mem, p)
  }

  // A record passes its check if and only if its four octets are those of a stamped command.
  lemma ChecksExact(mem: seq<byte>, off: int)
    ensures CrcMatches(mem, off) <==> exists c: Cmd :: Slice(mem, off, 4) == Record(c)
    ensures CrcMatches(mem, off) ==> Slice(mem, off, 4) == Record(CmdAt(mem, off))
  {
    hide Crc8;
    var s := Slice(mem, off, 4);
    if CrcMatches(mem, off) {
      assert s == Record(CmdAt(mem, off));
    }
    forall c: Cmd | s == Record(c)
      ensures CrcMatches(mem, off)
    {
      assert s[0] == Record(c)[0] && s[1] == Record(c)[1] && s[2] == Record(c)[2] && s[3] == Record(c)[3];
    }
  }

  // The command found is the newest one, and none is found exactly when no record that was written passes its check.
  lemma LastExact(mem: seq<byte>, log: Log, block: nat)
    requires log.Ok(block)
    ensures LastCmd(mem, log).None? <==> forall off {:trigger Written(mem, log.start, log, off)} ::
              Written(mem, log.start, log, off) ==> !CrcMatches(mem, off)
    ensures forall off {:trigger Newest(mem, log.start, log, off)} ::
              Newest(mem, log.start, log, off) ==> LastCmd(mem, log) == Some(CmdAt(mem, off))
  {
    hide Written, CrcMatches, CmdAt, Commands;
    LastFrom(mem, log.start, log);
  }

  lemma {:induction false} LastFrom(mem: seq<byte>, s: int, log: Log)
    requires log.Whole(log.end - s) && s <= log.end
    ensures var cs := Commands(mem, s, log);
            if cs == [] then forall off {:trigger Written(mem, s, log, off)} ::
                Written(mem, s, log, off) ==> !CrcMatches(mem, off)
            else exists off :: Newest(mem, s, log, off) && CmdAt(mem, off) == cs[|cs| - 1]
    decreases log.end - s
  {
    hide Crc8, Commands, CrcMatches, CmdAt, IsEmpty;
    if s < log.end {
      ScanStep(mem, s, log);
      if !IsEmpty(mem, s) {
        LastFrom(mem, s + log.stride, log);
        WrittenNext(mem, s, log);
        var rest := Commands(mem, s + log.stride, log);
        if rest != [] {
          var off :| Newest(mem, s + log.stride, log, off) && CmdAt(mem, off) == rest[|rest| - 1];
          assert Newest(mem, s, log, off);
        } else if CrcMatches(mem, s) {
          assert Newest(mem, s, log, s);
        }
      }
    } else {
      ScanEnd(mem, log);
    }
  }

  lemma WrittenNext(mem: seq<byte>, s: int, log: Log)
    requires log.Whole(log.end - s) && s < log.end && !IsEmpty(mem, s)
    ensures forall off {:trigger Written(mem, s, log, off)} {:trigger Written(mem, s + log.stride, log, off)} ::
              Written(mem, s, log, off) <==> off == s || Written(mem, s + log.stride, log, off)
  {
    hide IsEmpty;
  }

  // ----- any history since the erase -----

  // A command written completely, or a write cut short.
  datatype LogEvent = Written(cmd: Cmd) | Tear

  ghost predicate LogMoves(a: seq<byte>, e: LogEvent, b: seq<byte>, log: Log) {
    match e
    case Written(c) => Room(a, log) > 0 && b == Append(a, log, c)
    case Tear => Torn(a, b, log)
  }

  function WrittenCommands(es: seq<LogEvent>): seq<Cmd> {
    if es == [] then []
    else WrittenCommands(es[..|es| - 1]) + if es[|es| - 1].Written? then [es[|es| - 1].cmd] else []
  }

  // After an erase and any mix of complete and torn writes the log holds exactly the commands written completely,
  // in their order; every write takes one record, a torn one at most one.
  lemma {:induction false} LogHistory(ms: seq<seq<byte>>, es: seq<LogEvent>, log: Log, block: nat)
    requires log.Ok(block) && |ms| == |es| + 1 && Blank(ms[0], log.start, log.end) && log.end <= |ms[0]|
    requires forall j :: 0 <= j < |es| ==> LogMoves(ms[j], es[j], ms[j + 1], log)
    ensures LogCommands(ms[|es|], log) == WrittenCommands(es) && TailBlank(ms[|es|], log) && |ms[|es|]| == |ms[0]|
    ensures (log.end - log.start) / log.stride - |es| <= Room(ms[|es|], log)
            <= (log.end - log.start) / log.stride - |WrittenCommands(es)|
  {
    hide Commands, FirstFree, Records, Record, Log.Ok;
    if es == [] {
      ErasedLog(ms[0], log, block);
    } else {
      var n := |es| - 1;
      LogHistory(ms[..n + 1], es[..n], log, block);
      assert LogMoves(ms[n], es[n], ms[n + 1], log);
      if es[n].Written? {
        AppendAddsLast(ms[n], log, es[n].cmd, block);
      } else {
        TornKeepsCommands(ms[n], ms[n + 1], log, block);
      }
    }
  }

  // ----- zb_cmd_read and zb_cmd_write -----

  // One turn of either scan.
  lemma ScanStep(mem: seq<byte>, off: int, log: Log)
    requires log.Whole(log.end - off) && off < log.end
    ensures off + log.stride <= log.end && log.Whole(log.end - (off + log.stride)) && log.stride > 0
    ensures IsEmpty(mem, off) ==> Commands(mem, off, log) == [] && FirstFree(mem, off, log) == off
    ensures !IsEmpty(mem, off) ==>
              && Commands(mem, off, log)
                 == (if CrcMatches(mem, off) then [CmdAt(mem, off)] else []) + Commands(mem, off + log.stride, log)
              && FirstFree(mem, off, log) == FirstFree(mem, off + log.stride, log)
  {
    hide Crc8;
  }

  lemma ScanEnd(mem: seq<byte>, log: Log)
    ensures Commands(mem, log.end, log) == [] && FirstFree(mem, log.end, log) == log.end
    ensures Records(log.end, log) == 0
    ensures forall off :: off < log.end && log.stride > 0 ==> Records(off, log) > 0
  {}

  // zb_cmd_read: scan up to the first unused record and remember the last valid one. `cmd0` is what the caller's
  // buffer holds before the call: it survives only if the log is full and holds no valid command.
  method CmdRead(flash: FlashDevice, log: Log, cmd0: Cmd) returns (found: bool, cmd: Cmd)
    requires log.Ok(flash.block) && log.end <= |flash.mem|
    ensures found <==> LastCmd(flash.mem, log).Some?
    ensures found ==> LastCmd(flash.mem, log) == Some(cmd)
    ensures !found ==> cmd == if Room(flash.mem, log) > 0 then Cmd(0xff, 0xff, 0xff) else cmd0
  {
    hide Crc8, Commands, FirstFree, Records;
    ScanEnd(flash.mem, log);
    found, cmd := false, cmd0;
    var off := log.start;
    ghost var seen: seq<Cmd> := [];
    while true
      invariant log.start <= off < log.end && log.Whole(log.end - off)
      invariant LogCommands(flash.mem, log) == seen + Commands(flash.mem, off, log)
      invariant FirstFree(flash.mem, log.start, log) == FirstFree(flash.mem, off, log)
      invariant found <==> seen != []
      invariant cmd == if found then seen[|seen| - 1] else cmd0
      decreases log.end - off
    {
      ScanStep(flash.mem, off, log);
      if IsEmpty(flash.mem, off) {
        if !found {
          cmd := CmdAt(flash.mem, off);
        }
        break;
      }
      if CrcMatches(flash.mem, off) {
        cmd, found := CmdAt(flash.mem, off), true;
        seen := seen + [cmd];
      }
      off := off + log.stride;
      if off >= log.end {
        break;
      }
    }
  }

  // zb_cmd_write: stamp the command and write it over the first unused record, if there is one.
  method CmdWrite(flash: FlashDevice, log: Log, cmd: Cmd) returns (ok: bool)
    requires flash.Valid() && log.Ok(flash.block) && log.end <= |flash.mem|
    requires TailBlank(flash.mem, log)
    modifies flash
    ensures flash.Valid()
    ensures ok <==> Room(old(flash.mem), log) > 0
    ensures flash.mem == Append(old(flash.mem), log, cmd)
    ensures old(flash.ops) <= flash.ops
    ensures var f := FirstFree(old(flash.mem), log.start, log);
            if ok then Chain(flash.ops[|old(flash.ops)|..], f, f + log.stride) else flash.ops == old(flash.ops)
  {
    hide Crc8, LowBits, Replay, Commands, FirstFree, Records, IsEmpty;
    ScanEnd(flash.mem, log);
    AlignSizeFacts(flash.block, 4);
    var off := log.start;
    ok := true;
    while !IsEmpty(flash.mem, off)
      invariant log.start <= off < log.end && log.Whole(log.end - off)
      invariant Aligned(flash.block, off)
      invariant FirstFree(flash.mem, log.start, log) == FirstFree(flash.mem, off, log)
      invariant ok && flash.mem == old(flash.mem) && flash.ops == old(flash.ops) && flash.Valid()
      decreases log.end - off
    {
      ScanStep(flash.mem, off, log);
      AlignedSum(flash.block, off, log.stride);
      off := off + log.stride;
      if off >= log.end {
        ok := false;
        break;
      }
    }
    if ok {
      ScanStep(flash.mem, off, log);
      flash.FlashWrite(off, Record(cmd));
    }
  }
}
