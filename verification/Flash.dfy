// The flash device and the aligned accesses of zepboot/src/zb_flash.c.
module Flash {
  import opened Bytes

  // A slot area (zepboot/include/zb_flash.h) on one flash device, with the device's geometry.
  datatype Area = Area(slt0_offset: nat, slt0_size: nat, slt1_offset: nat, slt1_size: nat,
                       swpstat_offset: nat, swpstat_size: nat, sector: nat, block: nat, flash_size: nat,
                       ram_base: nat, ram_size: nat)
  {
    // What the slot map and the device tree are trusted to provide.
    ghost predicate Ok() {
      && BlockOk(block)
      && sector > 0 && sector % 16 == 0
      && slt0_offset % sector == 0 && slt0_size % sector == 0
      && slt1_offset % sector == 0 && slt1_size % sector == 0
      && swpstat_offset % sector == 0 && swpstat_size % sector == 0
      && 2 * sector <= slt0_size && 2 * sector <= slt1_size && sector <= swpstat_size
      && 32 <= sector
      && slt0_offset + slt0_size <= flash_size
      && slt1_offset + slt1_size <= flash_size
      && swpstat_offset + swpstat_size <= flash_size
      && Apart(slt0_offset, slt0_size, slt1_offset, slt1_size)
      && Apart(slt0_offset, slt0_size, swpstat_offset, swpstat_size)
      && Apart(slt1_offset, slt1_size, swpstat_offset, swpstat_size)
    }

    // Start of the last sector of slot 0 and of slot 1.
    function Slt0End(): int { slt0_offset + slt0_size - sector }
    function Slt1End(): int { slt1_offset + slt1_size - sector }
  }

  // zb_in_ram, zb_in_slt_area
  predicate InRam(area: Area, address: nat) {
    area.ram_base <= address < area.ram_base + area.ram_size
  }

  predicate InSlot(area: Area, slt: nat, address: nat) {
    if slt == 1 then area.slt1_offset <= address < area.slt1_offset + area.slt1_size
    else area.slt0_offset <= address < area.slt0_offset + area.slt0_size
  }

  // Which addresses that are: those of the slot's own octets and no others, so none belongs to both slots.
  lemma SlotAddresses(area: Area, address: nat, k: nat)
    requires area.Ok()
    ensures InSlot(area, 1, area.slt1_offset + k) <==> k < area.slt1_size
    ensures InSlot(area, 0, area.slt0_offset + k) <==> k < area.slt0_size
    ensures InRam(area, area.ram_base + k) <==> k < area.ram_size
    ensures InSlot(area, 1, address) ==> area.slt1_offset <= address && !InSlot(area, 0, address)
    ensures InSlot(area, 0, address) ==> area.slt0_offset <= address
    ensures InRam(area, address) ==> area.ram_base <= address
  {
    hide BlockOk;
  }

  predicate Apart(a: int, alen: int, b: int, blen: int) {
    a + alen <= b || b + blen <= a
  }

  // A write block is a power of two below ALIGN_BUF_SIZE (16).
  predicate BlockOk(w: nat) {
    w == 1 || w == 2 || w == 4 || w == 8
  }

  // x & (w - 1), for a power of two w.
  function LowBits(w: nat, x: int): nat
    requires BlockOk(w)
  {
    if w == 1 then 0 else if w == 2 then x % 2 else if w == 4 then x % 4 else x % 8
  }

  predicate Aligned(w: nat, x: int)
    requires BlockOk(w)
  {
    LowBits(w, x) == 0
  }

  // x & ~(w - 1)
  function RoundDown(w: nat, x: int): int
    requires BlockOk(w)
  {
    x - LowBits(w, x)
  }

  // zb_flash_align_size
  function AlignSize(w: nat, len: nat): nat
    requires BlockOk(w)
  {
    if Aligned(w, len) then len else RoundDown(w, len) + w
  }

  // zb_flash_align_offset
  function AlignOffset(w: nat, off: nat): nat
    requires BlockOk(w)
  {
    RoundDown(w, off)
  }

  // The source computes the aligned size as (len + (w - 1)) & ~(w - 1).
  lemma AlignSizeMask(w: nat, len: nat)
    requires BlockOk(w)
    ensures AlignSize(w, len) == RoundDown(w, len + (w - 1))
  {
    if w == 1 {} else if w == 2 { Mask2(len); } else if w == 4 { Mask4(len); } else { Mask8(len); }
  }

  lemma Mask2(x: nat)
    ensures (x + 1) - (x + 1) % 2 == if x % 2 == 0 then x else x - x % 2 + 2
  {}

  lemma Mask4(x: nat)
    ensures (x + 3) - (x + 3) % 4 == if x % 4 == 0 then x else x - x % 4 + 4
  {}

  lemma Mask8(x: nat)
    ensures (x + 7) - (x + 7) % 8 == if x % 8 == 0 then x else x - x % 8 + 8
  {}

  lemma RoundDownFacts(w: nat, x: nat)
    requires BlockOk(w)
    ensures 0 <= RoundDown(w, x) <= x < RoundDown(w, x) + w
    ensures Aligned(w, RoundDown(w, x)) && Aligned(w, w)
  {}

  lemma AlignedSum(w: nat, a: int, b: int)
    requires BlockOk(w) && Aligned(w, a) && Aligned(w, b)
    ensures Aligned(w, a + b)
  {}

  lemma AlignedDifference(w: nat, a: int, b: int)
    requires BlockOk(w) && Aligned(w, a) && Aligned(w, b)
    ensures Aligned(w, a - b)
  {}

  lemma AlignSizeFacts(w: nat, len: nat)
    requires BlockOk(w)
    ensures len <= AlignSize(w, len) < len + w && Aligned(w, AlignSize(w, len))
  {
    RoundDownFacts(w, len);
    AlignedSum(w, RoundDown(w, len), w);
  }

  lemma AlignSizeAfter(w: nat, d: nat, b: nat)
    requires BlockOk(w) && Aligned(w, d)
    ensures AlignSize(w, d) == d && AlignSize(w, d + b) == d + AlignSize(w, b)
  {
    LowBitsAfter(w, d, b);
    hide LowBits;
  }

  lemma LowBitsAfter(w: nat, d: nat, b: nat)
    requires BlockOk(w) && Aligned(w, d)
    ensures LowBits(w, d + b) == LowBits(w, b)
  {
    if w == 1 {} else if w == 2 { After2(d, b); } else if w == 4 { After4(d, b); } else { After8(d, b); }
  }

  lemma After2(d: nat, b: nat)
    requires d % 2 == 0
    ensures (d + b) % 2 == b % 2
  {}

  lemma After4(d: nat, b: nat)
    requires d % 4 == 0
    ensures (d + b) % 4 == b % 4
  {}

  lemma After8(d: nat, b: nat)
    requires d % 8 == 0
    ensures (d + b) % 8 == b % 8
  {}

  lemma AlignSizeBound(w: nat, len: nat, bound: nat)
    requires BlockOk(w) && len <= bound && Aligned(w, bound)
    ensures AlignSize(w, len) <= bound
  {
    if w == 1 {} else if w == 2 { Bound2(len, bound); } else if w == 4 { Bound4(len, bound); }
        else { Bound8(len, bound); }
  }

  lemma Bound2(x: nat, y: nat)
    requires x <= y && y % 2 == 0
    ensures x % 2 == 0 || x - x % 2 + 2 <= y
  {}

  lemma Bound4(x: nat, y: nat)
    requires x <= y && y % 4 == 0
    ensures x % 4 == 0 || x - x % 4 + 4 <= y
  {}

  lemma Bound8(x: nat, y: nat)
    requires x <= y && y % 8 == 0
    ensures x % 8 == 0 || x - x % 8 + 8 <= y
  {}

  lemma Aligned16(w: nat, a: int)
    requires BlockOk(w) && a % 16 == 0
    ensures Aligned(w, a)
  {
    assert a == 8 * (2 * (a / 16)) && a == 4 * (4 * (a / 16)) && a == 2 * (8 * (a / 16));
  }

  // Writing the whole blocks and then the padded tail equals writing the data.
  lemma PutTail(mem: seq<byte>, off: int, data: seq<byte>, blen: nat, w: nat)
    requires blen <= |data| <= blen + w && Blank(mem, off, off + blen + w)
    ensures Put(Put(mem, off, data[..blen]), off + blen, data[blen..] + Fill(w - (|data| - blen)))
         == Put(mem, off, data)
  {
    var tail := data[blen..] + Fill(w - (|data| - blen));
    SameEverywhere(Put(Put(mem, off, data[..blen]), off + blen, tail), Put(mem, off, data));
  }

  // ----- what happened to the device -----

  // One request to the flash driver.
  datatype Op = Erase(off: int, len: nat) | Write(off: int, data: seq<byte>)
  {
    function End(): int {
      off + if Erase? then len else |data|
    }
  }

  function Apply(mem: seq<byte>, op: Op): (r: seq<byte>)
    ensures |r| == |mem|
  {
    match op
    case Erase(off, len) => Erased(mem, off, len)
    case Write(off, data) => Put(mem, off, data)
  }

  function Replay(mem: seq<byte>, ops: seq<Op>): (r: seq<byte>)
    ensures |r| == |mem|
  {
    if ops == [] then mem else Apply(Replay(mem, ops[..|ops| - 1]), ops[|ops| - 1])
  }

  ghost predicate Within(ops: seq<Op>, lo: int, hi: int) {
    forall k :: 0 <= k < |ops| ==> lo <= ops[k].off && ops[k].End() <= hi
  }

  // Writes only, one after the other, that cover [lo, hi) exactly once.
  ghost predicate Chain(ops: seq<Op>, lo: int, hi: int)
    decreases |ops|
  {
    if ops == [] then lo == hi
    else
      var w := ops[|ops| - 1];
      w.Write? && w.End() == hi && lo <= w.off <= hi && Chain(ops[..|ops| - 1], lo, w.off)
  }

  lemma {:induction false} ChainBounds(ops: seq<Op>, lo: int, hi: int)
    requires Chain(ops, lo, hi)
    ensures lo <= hi && Within(ops, lo, hi)
  {
    if ops != [] {
      var n := |ops| - 1;
      ChainBounds(ops[..n], lo, ops[n].off);
      forall k | 0 <= k < |ops|
        ensures lo <= ops[k].off && ops[k].End() <= hi
      {
        assert k < n ==> ops[k] == ops[..n][k];
      }
    }
  }

  lemma {:induction false} ChainConcat(a: seq<Op>, b: seq<Op>, lo: int, mid: int, hi: int)
    requires Chain(a, lo, mid) && Chain(b, mid, hi)
    ensures Chain(a + b, lo, hi)
    decreases |b|
  {
    if b == [] {
      assert a + b == a;
    } else {
      var n := |b| - 1;
      ChainConcat(a, b[..n], lo, mid, b[n].off);
      ChainBounds(a, lo, mid);
      ChainBounds(b[..n], mid, b[n].off);
      assert (a + b)[..|a + b| - 1] == a + b[..n];
    }
  }

  // No octet is written twice: of two writes of a chain the later one starts where the earlier one has ended.
  lemma {:induction false} ChainWritesOnce(ops: seq<Op>, lo: int, hi: int, i: nat, j: nat)
    requires Chain(ops, lo, hi) && i < j < |ops|
    ensures ops[i].Write? && ops[j].Write? && ops[i].End() <= ops[j].off
    decreases |ops|
  {
    var n := |ops| - 1;
    if j == n {
      ChainBounds(ops[..n], lo, ops[n].off);
      ChainIsWrites(ops[..n], lo, ops[n].off, i);
      assert ops[i] == ops[..n][i];
    } else {
      ChainWritesOnce(ops[..n], lo, ops[n].off, i, j);
    }
  }

  lemma {:induction false} ChainIsWrites(ops: seq<Op>, lo: int, hi: int, i: nat)
    requires Chain(ops, lo, hi) && i < |ops|
    ensures ops[i].Write?
    decreases |ops|
  {
    var n := |ops| - 1;
    if i < n {
      ChainIsWrites(ops[..n], lo, ops[n].off, i);
    }
  }

  lemma ChainOne(off: int, data: seq<byte>)
    ensures Chain([], off, off) && Chain([Write(off, data)], off, off + |data|)
  {}

  // Power was lost during request number j: the earlier ones are complete, request j has done anything at all
  // to its own range, the later ones did not happen.
  ghost predicate CutShort(mem: seq<byte>, ops: seq<Op>, j: nat, torn: seq<byte>)
    requires j < |ops|
  {
    SameOutside(torn, Replay(mem, ops[..j]), ops[j].off, ops[j].End())
  }

  lemma {:induction false} ReplayStaysInside(mem: seq<byte>, ops: seq<Op>, lo: int, hi: int)
    requires Within(ops, lo, hi)
    ensures SameOutside(mem, Replay(mem, ops), lo, hi)
  {
    if ops != [] {
      var n := |ops| - 1;
      ReplayStaysInside(mem, ops[..n], lo, hi);
      assert lo <= ops[n].off && ops[n].End() <= hi;
    }
  }

  // Wherever the power goes, nothing outside the range that all requests share has changed.
  lemma CutShortStaysInside(mem: seq<byte>, ops: seq<Op>, j: nat, torn: seq<byte>, lo: int, hi: int)
    requires Within(ops, lo, hi) && j < |ops| && CutShort(mem, ops, j, torn)
    ensures SameOutside(mem, torn, lo, hi)
  {
    ReplayStaysInside(mem, ops[..j], lo, hi);
    assert lo <= ops[j].off && ops[j].End() <= hi;
  }

  // ----- the device -----

  class FlashDevice {
    const sector: nat
    const block: nat
    var mem: seq<byte>
    ghost const initial: seq<byte>
    ghost var ops: seq<Op>

    ghost predicate Valid()
      reads this
    {
      BlockOk(block) && sector > 0 && mem == Replay(initial, ops)
    }

    ghost predicate Fits(area: Area)
      reads this
    {
      Valid() && area.Ok() && area.sector == sector && area.block == block && |mem| == area.flash_size
    }

    constructor (mem: seq<byte>, sector: nat, block: nat)
      requires BlockOk(block) && sector > 0
      ensures Valid() && this.mem == mem && this.sector == sector && this.block == block && ops == []
    {
      this.sector := sector;
      this.block := block;
      this.mem := mem;
      this.initial := mem;
      this.ops := [];
    }

    // flash_erase: whole sectors only.
    method FlashErase(off: nat, len: nat)
      requires Valid() && off + len <= |mem| && off % sector == 0 && len % sector == 0
      modifies this
      ensures Valid() && mem == Erased(old(mem), off, len)
      ensures ops == old(ops) + [Erase(off, len)]
    {
      mem := Erased(mem, off, len);
      ops := ops + [Erase(off, len)];
    }

    // flash_write: whole write blocks, erased since they were last written.
    method FlashProgram(off: nat, data: seq<byte>)
      requires Valid() && off + |data| <= |mem| && Aligned(block, off) && Aligned(block, |data|)
      requires Blank(mem, off, off + |data|)
      modifies this
      ensures Valid() && mem == Put(old(mem), off, data)
      ensures ops == old(ops) + [Write(off, data)]
    {
      mem := Put(mem, off, data);
      ops := ops + [Write(off, data)];
    }

    // zb_flash_write: the whole blocks first, then the tail padded with 0xff.
    method FlashWrite(off: nat, data: seq<byte>)
      requires Valid() && Aligned(block, off) && off + AlignSize(block, |data|) <= |mem|
      requires Blank(mem, off, off + AlignSize(block, |data|))
      modifies this
      ensures Valid() && mem == Put(old(mem), off, data)
      ensures old(ops) <= ops && Chain(ops[|old(ops)|..], off, off + AlignSize(block, |data|))
      ensures Within(ops[|old(ops)|..], off, off + AlignSize(block, |data|))
    {
      hide LowBits, Replay, Chain, Within;
      ChainOne(off, []);
      var blen := RoundDown(block, |data|);
      RoundDownFacts(block, |data|);
      AlignedSum(block, off, blen);
      ghost var was := mem;
      if blen > 0 {
        ChainOne(off, data[..blen]);
        FlashProgram(off, data[..blen]);
        assert ops[|old(ops)|..] == [Write(off, data[..blen])];
      } else {
        assert ops[|old(ops)|..] == [];
      }
      assert Chain(ops[|old(ops)|..], off, off + blen);
      assert mem == Put(was, off, data[..blen]) by { PutNothing(was, off); }
      if blen < |data| {
        PutTail(was, off, data, blen, block);
        ghost var tail := data[blen..] + Fill(block - (|data| - blen));
        ChainOne(off + blen, tail);
        ChainConcat(ops[|old(ops)|..], [Write(off + blen, tail)], off, off + blen, off + blen + block);
        ghost var first := ops;
        FlashProgram(off + blen, data[blen..] + Fill(block - (|data| - blen)));
        assert ops[|old(ops)|..] == first[|old(ops)|..] + [Write(off + blen, tail)];
      } else {
        assert data[..blen] == data;
      }
      ChainBounds(ops[|old(ops)|..], off, off + AlignSize(block, |data|));
    }

    method FlashRead(off: nat, buf: array<byte>, len: nat)
      requires off + len <= |mem| && len <= buf.Length
      modifies buf
      ensures buf[..] == Slice(mem, off, len) + old(buf[len..])
    {
      forall i | 0 <= i < len {
        buf[i] := mem[off + i];
      }
      assert forall i :: 0 <= i < len ==> buf[..][i] == At(mem, off + i);
    }
  }
}
