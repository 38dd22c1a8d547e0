// Sequences of requests to the flash driver: what a step sends, and what holds of all requests of a run.
module Requests {
  import opened Flash

  // ----- one step -----

  // One erase of [lo, hi), then writes that cover its first n octets exactly once.
  ghost predicate ErasedThenWritten(ops: seq<Op>, lo: int, hi: int, n: nat) {
    |ops| > 0 && ops[0].Erase? && ops[0].off == lo && ops[0].End() == hi && Chain(ops[1..], lo, lo + n)
  }

  // The requests of a step, all in its target: none, or an erase of the whole target and writes that cover a part of
  // it exactly once.
  ghost predicate Burst(ops: seq<Op>, lo: int, hi: int) {
    Within(ops, lo, hi) && (ops == [] || (lo < hi && exists n: nat :: ErasedThenWritten(ops, lo, hi, n)))
  }

  lemma IsBurst(ops: seq<Op>, lo: int, sector: nat, n: nat)
    requires Within(ops, lo, lo + sector) && ErasedThenWritten(ops, lo, lo + sector, n) && sector > 0
    ensures Burst(ops, lo, lo + sector)
  {
    hide ErasedThenWritten, Within;
  }

  lemma EraseFirst(ops0: seq<Op>, ops1: seq<Op>, ops2: seq<Op>, off: int, sector: nat, n: nat)
    requires ops1 == ops0 + [Erase(off, sector)] && ops1 <= ops2 && Chain(ops2[|ops1|..], off, off + n) && n <= sector
    ensures ops0 <= ops2 && Within(ops2[|ops0|..], off, off + sector)
    ensures ErasedThenWritten(ops2[|ops0|..], off, off + sector, n)
  {
    hide Chain;
    var r, w := ops2[|ops0|..], ops2[|ops1|..];
    assert r[0] == ops1[|ops0|] == Erase(off, sector);
    assert r[1..] == w;
    ChainBounds(w, off, off + n);
    forall k | 0 <= k < |r|
      ensures off <= r[k].off && r[k].End() <= off + sector
    {
      assert k > 0 ==> r[k] == w[k - 1];
    }
  }

  lemma EraseOnly(ops0: seq<Op>, ops1: seq<Op>, off: int, sector: nat)
    requires ops1 == ops0 + [Erase(off, sector)] && sector > 0
    ensures Burst(ops1[|ops0|..], off, off + sector)
  {
    assert ops1[|ops1|..] == [] && Chain([], off, off);
    assert off + 0 == off;
    EraseFirst(ops0, ops1, ops1, off, sector, 0);
    IsBurst(ops1[|ops0|..], off, sector, 0);
  }

  lemma ChainOn(ops0: seq<Op>, ops1: seq<Op>, ops2: seq<Op>, lo: int, mid: int, hi: int)
    requires ops0 <= ops1 <= ops2 && Chain(ops1[|ops0|..], lo, mid) && Chain(ops2[|ops1|..], mid, hi)
    ensures ops0 <= ops2 && Chain(ops2[|ops0|..], lo, hi)
  {
    hide Chain;
    ChainConcat(ops1[|ops0|..], ops2[|ops1|..], lo, mid, hi);
    assert ops2[|ops0|..] == ops1[|ops0|..] + ops2[|ops1|..];
  }

  // ----- what all requests of a run have in common -----

  // Request i writes where an earlier request has erased everything and none in between has written.
  ghost predicate OnErased(ops: seq<Op>, i: nat)
    requires i < |ops|
  {
    exists e: nat :: e < i && ErasedFor(ops, e, i)
  }

  ghost predicate ErasedFor(ops: seq<Op>, e: nat, i: nat)
    requires e < i < |ops|
  {
    && ops[e].Erase? && ops[e].off <= ops[i].off && ops[i].End() <= ops[e].End()
    && forall j :: e < j < i && ops[j].Write? ==> ops[j].End() <= ops[i].off || ops[i].End() <= ops[j].off
  }

  ghost predicate InArea(op: Op, lo: int, size: int) {
    lo <= op.off && op.End() <= lo + size
  }

  // Every write is a record of the swap log, or goes to blocks of a slot that the run has erased since their last
  // write.
  ghost predicate AllErased(area: Area, ops: seq<Op>) {
    forall i :: 0 <= i < |ops| && ops[i].Write? ==>
      || InArea(ops[i], area.swpstat_offset, area.swpstat_size)
      || (OnErased(ops, i) && (InArea(ops[i], area.slt0_offset, area.slt0_size)
                               || InArea(ops[i], area.slt1_offset, area.slt1_size)))
  }

  lemma OnErasedStill(a: seq<Op>, b: seq<Op>, i: nat)
    requires i < |a| && OnErased(a, i)
    ensures OnErased(a + b, i)
  {
    var e: nat :| e < i && ErasedFor(a, e, i);
    assert ErasedFor(a + b, e, i);
  }

  lemma BurstOnErased(a: seq<Op>, b: seq<Op>, lo: int, hi: int, k: nat)
    requires Burst(b, lo, hi) && k < |b| && b[k].Write?
    ensures OnErased(a + b, |a| + k)
  {
    var n: nat :| ErasedThenWritten(b, lo, hi, n);
    var ops, i := a + b, |a| + k;
    assert k > 0 && ops[|a|] == b[0] && ops[i] == b[k];
    forall j | |a| < j < i && ops[j].Write?
      ensures ops[j].End() <= ops[i].off
    {
      assert ops[j] == b[1..][j - |a| - 1] && ops[i] == b[1..][k - 1];
      ChainWritesOnce(b[1..], lo, lo + n, j - |a| - 1, k - 1);
    }
    assert ErasedFor(ops, |a|, i);
  }

  lemma BurstErased(area: Area, a: seq<Op>, b: seq<Op>, lo: int, hi: int)
    requires AllErased(area, a) && Burst(b, lo, hi)
    requires || lo == hi
             || (area.slt0_offset <= lo && hi <= area.slt0_offset + area.slt0_size)
             || (area.slt1_offset <= lo && hi <= area.slt1_offset + area.slt1_size)
    ensures AllErased(area, a + b)
  {
    hide OnErased, ErasedThenWritten;
    var ops := a + b;
    forall i | 0 <= i < |ops| && ops[i].Write?
      ensures || InArea(ops[i], area.swpstat_offset, area.swpstat_size)
              || (OnErased(ops, i) && (InArea(ops[i], area.slt0_offset, area.slt0_size)
                                       || InArea(ops[i], area.slt1_offset, area.slt1_size)))
    {
      if i < |a| {
        assert ops[i] == a[i];
        if OnErased(a, i) {
          OnErasedStill(a, b, i);
        }
      } else {
        assert ops[i] == b[i - |a|];
        BurstOnErased(a, b, lo, hi, i - |a|);
      }
    }
  }

  lemma RecordErased(area: Area, a: seq<Op>, b: seq<Op>)
    requires AllErased(area, a) && Within(b, area.swpstat_offset, area.swpstat_offset + area.swpstat_size)
    ensures AllErased(area, a + b)
  {
    hide OnErased;
    var ops := a + b;
    forall i | 0 <= i < |ops| && ops[i].Write?
      ensures || InArea(ops[i], area.swpstat_offset, area.swpstat_size)
              || (OnErased(ops, i) && (InArea(ops[i], area.slt0_offset, area.slt0_size)
                                       || InArea(ops[i], area.slt1_offset, area.slt1_size)))
    {
      if i < |a| {
        assert ops[i] == a[i];
        if OnErased(a, i) {
          OnErasedStill(a, b, i);
        }
      } else {
        assert ops[i] == b[i - |a|];
      }
    }
  }

  lemma WithinMore(ops: seq<Op>, lo: int, hi: int, lo': int, hi': int)
    requires Within(ops, lo, hi) && lo' <= lo && hi <= hi'
    ensures Within(ops, lo', hi')
  {}

  // Between two writes of a run to the same octet of a slot there is an erase of all that the later one writes.
  lemma ErasedBetween(area: Area, ops: seq<Op>, i: nat, j: nat)
    requires AllErased(area, ops) && i < j < |ops| && ops[i].Write? && ops[j].Write?
    requires ops[i].off < ops[j].End() && ops[j].off < ops[i].End()
    requires !InArea(ops[j], area.swpstat_offset, area.swpstat_size)
    ensures exists e: nat :: i < e < j && ops[e].Erase? && ops[e].off <= ops[j].off && ops[j].End() <= ops[e].End()
  {
    assert OnErased(ops, j);
    var e: nat :| e < j && ErasedFor(ops, e, j);
    assert i < e;
  }
}
