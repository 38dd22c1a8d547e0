// zb_img_move: copying part of an image from one place in flash to another, decrypting from fr_eoff on.
module Move {
  import opened Bytes
  import opened Ctr
  import opened Flash

  const MOVE_BLOCK_SIZE: nat := 512

  datatype MoveCmd = MoveCmd(fr_off: nat, fr_eoff: nat, to_off: nat, key: seq<byte>)
  {
    // ulen: how many octets are copied before the encrypted part starts.
    function ClearLength(): nat {
      if fr_off < fr_eoff then fr_eoff - fr_off else 0
    }

    // Value of the counter after the skip loop.
    function FirstCounter(): nat {
      if fr_eoff < fr_off then (fr_off - fr_eoff + 15) / 16 else 0
    }
  }

  // What zb_img_move writes when it is asked for `len` octets.
  function MoveData(aes: Aes, mem: seq<byte>, mc: MoveCmd, len: nat): (r: seq<byte>)
    ensures |r| == len
  {
    var src := Slice(mem, mc.fr_off, len);
    var u := Min(mc.ClearLength(), len);
    src[..u] + CtrPass(aes, mc.key, mc.FirstCounter(), src[u..])
  }

  // One octet of an image: clear up to position e, counter mode from counter zero after it.
  function Crypt(aes: Aes, key: seq<byte>, e: int, p: int, b: byte): byte {
    if p < e then b else Xor(b, Keystream(aes, key, 0, p - e))
  }

  // Sector independence: when the encrypted part starts on a 16-octet boundary relative to the moved piece,
  // or not before its end, every octet gets the key stream octet of one pass over the whole image body.
  lemma MoveDataIsCrypt(aes: Aes, mem: seq<byte>, mc: MoveCmd, len: nat, i: nat)
    requires i < len
    requires (mc.fr_eoff - mc.fr_off) % 16 == 0 || mc.fr_off + len <= mc.fr_eoff
    ensures MoveData(aes, mem, mc, len)[i] == Crypt(aes, mc.key, mc.fr_eoff, mc.fr_off + i, At(mem, mc.fr_off + i))
  {
    hide Xor, Keystream, MoveCmd.ClearLength, MoveCmd.FirstCounter;
    MoveDataOctet(aes, mem, mc, len, i);
    ClearIs(mc);
    if mc.ClearLength() <= i {
      SameBlock(mc, i);
      StreamAt(aes, mc.key, mc.FirstCounter(), i - mc.ClearLength(), 0, mc.fr_off + i - mc.fr_eoff);
    }
  }

  lemma ClearIs(mc: MoveCmd)
    ensures mc.ClearLength() == if mc.fr_off < mc.fr_eoff then mc.fr_eoff - mc.fr_off else 0
  {}

  lemma MoveDataOctet(aes: Aes, mem: seq<byte>, mc: MoveCmd, len: nat, i: nat)
    requires i < len
    ensures MoveData(aes, mem, mc, len)[i]
         == if i < mc.ClearLength() then At(mem, mc.fr_off + i)
            else Xor(At(mem, mc.fr_off + i), Keystream(aes, mc.key, mc.FirstCounter(), i - mc.ClearLength()))
  {
    hide Xor, Keystream, MoveCmd.ClearLength, MoveCmd.FirstCounter;
  }

  // The key stream is the same wherever block and offset are.
  lemma StreamAt(aes: Aes, key: seq<byte>, n: nat, i: nat, m: nat, j: nat)
    requires n + i / 16 == m + j / 16 && i % 16 == j % 16
    ensures Keystream(aes, key, n, i) == Keystream(aes, key, m, j)
  {}

  // Where the octet at fr_off + i falls in the key stream: block and offset, as zb_img_move counts them.
  function SectorBlock(mc: MoveCmd, i: nat): (nat, nat)
    requires mc.ClearLength() <= i
  {
    var k := i - mc.ClearLength();
    (mc.FirstCounter() + k / 16, k % 16)
  }

  // The same octet in one continuous pass that starts at fr_eoff.
  function BodyBlock(mc: MoveCmd, i: nat): (nat, nat)
    requires mc.ClearLength() <= i
  {
    var k := mc.fr_off + i - mc.fr_eoff;
    (k / 16, k % 16)
  }

  lemma SameBlock(mc: MoveCmd, i: nat)
    requires mc.ClearLength() <= i && (mc.fr_eoff - mc.fr_off) % 16 == 0
    ensures SectorBlock(mc, i) == BodyBlock(mc, i)
  {
    if mc.fr_eoff < mc.fr_off {
      var q := (mc.fr_off - mc.fr_eoff) / 16;
      assert mc.fr_off - mc.fr_eoff == 16 * q;
      assert (16 * q + i) / 16 == q + i / 16 && (16 * q + i) % 16 == i % 16;
    }
  }

  // The alignment is exactly what sector independence needs: for a piece that starts inside the encrypted part,
  // block and offset agree with the continuous pass at every octet if and only if it starts a multiple of 16 in.
  lemma SectorIndependenceExact(mc: MoveCmd)
    requires mc.fr_eoff <= mc.fr_off
    ensures (forall i: nat :: SectorBlock(mc, i) == BodyBlock(mc, i)) <==> (mc.fr_off - mc.fr_eoff) % 16 == 0
  {
    if (mc.fr_off - mc.fr_eoff) % 16 == 0 {
      forall i: nat
        ensures SectorBlock(mc, i) == BodyBlock(mc, i)
      {
        SameBlock(mc, i);
      }
    } else {
      assert SectorBlock(mc, 0) != BodyBlock(mc, 0);
    }
  }

  // The outputs for all sectors of a piece from offset off on, one after the other.
  function SectorBySector(aes: Aes, mem: seq<byte>, mc: MoveCmd, sector: nat, len: nat, off: nat): seq<byte>
    requires sector > 0
    decreases len - off
  {
    if len <= off then []
    else MoveData(aes, mem, mc.(fr_off := mc.fr_off + off), Min(sector, len - off))
         + SectorBySector(aes, mem, mc, sector, len, off + sector)
  }

  lemma {:induction false} SectorsAreCrypt(aes: Aes, mem: seq<byte>, mc: MoveCmd, sector: nat, len: nat, off: nat)
    requires sector > 0 && sector % 16 == 0 && off % 16 == 0
    requires (mc.fr_eoff - mc.fr_off) % 16 == 0 || mc.fr_off + len <= mc.fr_eoff
    ensures var r := SectorBySector(aes, mem, mc, sector, len, off);
            && |r| == Max(0, len - off)
            && forall i {:trigger r[i]} :: 0 <= i < |r| ==>
                 r[i] == Crypt(aes, mc.key, mc.fr_eoff, mc.fr_off + off + i, At(mem, mc.fr_off + off + i))
    decreases len - off
  {
    hide MoveData, Crypt;
    if off < len {
      var n := Min(sector, len - off);
      var part := mc.(fr_off := mc.fr_off + off);
      SectorsAreCrypt(aes, mem, mc, sector, len, off + sector);
      forall i | 0 <= i < n
        ensures MoveData(aes, mem, part, n)[i]
             == Crypt(aes, mc.key, mc.fr_eoff, mc.fr_off + off + i, At(mem, mc.fr_off + off + i))
      {
        MoveDataIsCrypt(aes, mem, part, n, i);
      }
    }
  }

  // Moving an image sector by sector, each sector with its own counter start, gives what one move of the whole
  // image gives: the clear part and one pass of counter mode over the rest.
  lemma SectorsAreOnePass(aes: Aes, mem: seq<byte>, mc: MoveCmd, sector: nat, len: nat)
    requires sector > 0 && sector % 16 == 0 && mc.fr_off <= mc.fr_eoff
    requires (mc.fr_eoff - mc.fr_off) % 16 == 0 || mc.fr_off + len <= mc.fr_eoff
    ensures var src, u := Slice(mem, mc.fr_off, len), Min(mc.fr_eoff - mc.fr_off, len);
            SectorBySector(aes, mem, mc, sector, len, 0) == src[..u] + CtrPass(aes, mc.key, 0, src[u..])
  {
    hide MoveData, Crypt, CtrPass, SectorBySector, MoveCmd.ClearLength, MoveCmd.FirstCounter, Slice;
    SectorsAreCrypt(aes, mem, mc, sector, len, 0);
    var r, w := SectorBySector(aes, mem, mc, sector, len, 0), MoveData(aes, mem, mc, len);
    WholeMove(aes, mem, mc, len);
    forall i | 0 <= i < len
      ensures r[i] == w[i]
    {
      MoveDataIsCrypt(aes, mem, mc, len, i);
      assert r[i] == Crypt(aes, mc.key, mc.fr_eoff, mc.fr_off + 0 + i, At(mem, mc.fr_off + 0 + i));
    }
    assert r == w;
  }

  lemma WholeMove(aes: Aes, mem: seq<byte>, mc: MoveCmd, len: nat)
    requires mc.fr_off <= mc.fr_eoff
    ensures var src, u := Slice(mem, mc.fr_off, len), Min(mc.fr_eoff - mc.fr_off, len);
            MoveData(aes, mem, mc, len) == src[..u] + CtrPass(aes, mc.key, 0, src[u..])
  {}

  // ----- the loops of zb_img_move -----

  // The counter when d octets are done.
  function CounterAt(mc: MoveCmd, d: nat): nat {
    mc.FirstCounter() + if mc.ClearLength() <= d then (d - mc.ClearLength() + 15) / 16 else 0
  }

  // The pieces the main loop works on: entirely clear, or encrypted and starting on a block boundary.
  predicate ChunkOk(mc: MoveCmd, d: nat, b: nat) {
    d + b <= mc.ClearLength() || (mc.ClearLength() <= d && (d - mc.ClearLength()) % 16 == 0)
  }

  function Chunk(aes: Aes, mem: seq<byte>, mc: MoveCmd, d: nat, b: nat): (r: seq<byte>)
    ensures |r| == b
  {
    var s := Slice(mem, mc.fr_off + d, b);
    if d < mc.ClearLength() then s else CtrPass(aes, mc.key, CounterAt(mc, d), s)
  }

  lemma MoveDataChunk(aes: Aes, mem: seq<byte>, mc: MoveCmd, len: nat, d: nat, b: nat)
    requires b > 0 && d + b <= len && ChunkOk(mc, d, b)
    ensures MoveData(aes, mem, mc, len)[..d] + Chunk(aes, mem, mc, d, b) == MoveData(aes, mem, mc, len)[..d + b]
  {
    hide Xor, CtrPass;
    var u := Min(mc.ClearLength(), len);
    var src := Slice(mem, mc.fr_off, len);
    assert src[d..d + b] == Slice(mem, mc.fr_off + d, b);
    if d < mc.ClearLength() {
      ClearPiece(src, CtrPass(aes, mc.key, mc.FirstCounter(), src[u..]), u, d, b);
    } else {
      EncryptedPiece(aes, mc.key, mc.FirstCounter(), src, u, d, b);
    }
  }

  lemma ClearPiece(src: seq<byte>, rest: seq<byte>, u: nat, d: nat, b: nat)
    requires d + b <= u <= |src|
    ensures (src[..u] + rest)[..d] + src[d..d + b] == (src[..u] + rest)[..d + b]
  {}

  lemma EncryptedPiece(aes: Aes, key: seq<byte>, n: nat, src: seq<byte>, u: nat, d: nat, b: nat)
    requires u <= d && d + b <= |src| && (d - u) % 16 == 0
    ensures var r := src[..u] + CtrPass(aes, key, n, src[u..]);
            r[..d] + CtrPass(aes, key, n + (d - u + 15) / 16, src[d..d + b]) == r[..d + b]
  {
    hide Xor, CtrPass;
    CtrPassChunk(aes, key, n, src[u..], d - u, d + b - u);
    assert src[u..][d - u..d + b - u] == src[d..d + b];
    BlocksExact(d - u);
    TakeSecond(src[..u], CtrPass(aes, key, n, src[u..]), d, b);
  }

  lemma TakeSecond<T>(s: seq<T>, t: seq<T>, d: nat, b: nat)
    requires |s| <= d && d + b <= |s| + |t|
    ensures (s + t)[..d] + t[d - |s|..d + b - |s|] == (s + t)[..d + b]
  {}

  lemma BlocksExact(k: nat)
    ensures k % 16 == 0 ==> (k + 15) / 16 == k / 16
  {}

  // The first while loop: the counter moves on by one for every block between fr_eoff and fr_off.
  method SkipCounter(mc: MoveCmd, ctr: array<byte>)
    requires ctr[..] == BigEndian(0, AES_BLOCK_SIZE)
    modifies ctr
    ensures ctr[..] == BigEndian(mc.FirstCounter(), AES_BLOCK_SIZE)
  {
    hide BigEndian, Bumped, MoveCmd.FirstCounter, MoveCmd.ClearLength;
    ClearIs(mc);
    var fr_off := mc.fr_eoff;
    ghost var n := 0;
    while fr_off < mc.fr_off && mc.ClearLength() == 0
      invariant fr_off == mc.fr_eoff + 16 * n
      invariant n > 0 ==> fr_off < mc.fr_off + 16
      invariant ctr[..] == BigEndian(n, AES_BLOCK_SIZE)
      decreases mc.fr_off - fr_off
    {
      BumpAddsOne(n, AES_BLOCK_SIZE);
      IncrementCounter(ctr);
      fr_off := fr_off + AES_BLOCK_SIZE;
      n := n + 1;
    }
    SkippedIs(mc, n);
  }

  lemma SkippedIs(mc: MoveCmd, n: nat)
    requires if mc.fr_eoff < mc.fr_off then mc.fr_off <= mc.fr_eoff + 16 * n < mc.fr_off + 16 else n == 0
    ensures mc.FirstCounter() == n
  {}

  // Read one piece and decrypt it if it is past the clear part.
  method ReadChunk(aes: Aes, flash: FlashDevice, mc: MoveCmd, d: nat, b: nat, buf: array<byte>, ctr: array<byte>)
    requires b <= buf.Length && buf != ctr && ChunkOk(mc, d, b)
    requires mc.fr_off + d + b <= |flash.mem|
    requires ctr[..] == BigEndian(CounterAt(mc, d), AES_BLOCK_SIZE)
    modifies buf, ctr
    ensures buf[..b] == Chunk(aes, flash.mem, mc, d, b)
    ensures ctr[..] == BigEndian(CounterAt(mc, d + b), AES_BLOCK_SIZE)
  {
    hide CtrPass, BigEndian;
    flash.FlashRead(mc.fr_off + d, buf, b);
    ghost var piece := Slice(flash.mem, mc.fr_off + d, b);
    assert buf[..b] == piece;
    if mc.ClearLength() <= d {
      AesCtrMode(aes, buf, b, ctr, mc.key, CounterAt(mc, d));
      assert buf[..b] == CtrPass(aes, mc.key, CounterAt(mc, d), piece);
      CounterMoves(mc, d, b);
    }
  }

  lemma CounterMoves(mc: MoveCmd, d: nat, b: nat)
    requires ChunkOk(mc, d, b) && mc.ClearLength() <= d
    ensures CounterAt(mc, d + b) == CounterAt(mc, d) + (b + 15) / 16
  {
    var k := d - mc.ClearLength();
    if k % 16 == 0 {
      assert k == 16 * (k / 16);
      assert (k + b + 15) / 16 == k / 16 + (b + 15) / 16;
    }
  }

  // One turn of the main loop: read a piece, decrypt it if need be, write it.
  method MoveChunk(aes: Aes, flash: FlashDevice, mc: MoveCmd, d: nat, b: nat, buf: array<byte>, ctr: array<byte>,
                   ghost mem0: seq<byte>, ghost len: nat)
    requires flash.Valid() && |flash.mem| == |mem0| && b <= buf.Length && buf != ctr
    requires 0 < b && d + b <= len && ChunkOk(mc, d, b) && mc.fr_off + len <= |mem0|
    requires ctr[..] == BigEndian(CounterAt(mc, d), AES_BLOCK_SIZE)
    requires Aligned(flash.block, mc.to_off) && Aligned(flash.block, d)
    requires d + AlignSize(flash.block, b) <= AlignSize(flash.block, len)
    requires mc.to_off + AlignSize(flash.block, len) <= |mem0|
    requires Blank(mem0, mc.to_off, mc.to_off + AlignSize(flash.block, len))
    requires Apart(mc.fr_off, len, mc.to_off, AlignSize(flash.block, len))
    requires flash.mem == Put(mem0, mc.to_off, MoveData(aes, mem0, mc, len)[..d])
    modifies flash, buf, ctr
    ensures flash.Valid() && flash.mem == Put(mem0, mc.to_off, MoveData(aes, mem0, mc, len)[..d + b])
    ensures ctr[..] == BigEndian(CounterAt(mc, d + b), AES_BLOCK_SIZE)
    ensures old(flash.ops) <= flash.ops
    ensures AlignSize(flash.block, d) == d
    ensures Chain(flash.ops[|old(flash.ops)|..], mc.to_off + d, mc.to_off + AlignSize(flash.block, d + b))
  {
    hide MoveData, Chunk, LowBits, BigEndian, Replay, Chain, Within, CounterAt, AlignSize, BlockOk, ChunkOk;
    AlignSizeFacts(flash.block, len);
    AlignSizeAfter(flash.block, d, b);
    AlignedSum(flash.block, mc.to_off, d);
    ReadChunk(aes, flash, mc, d, b, buf, ctr);
    ChunkOf(aes, mem0, flash.mem, mc, d, b);
    MoveDataChunk(aes, mem0, mc, len, d, b);
    PutAppend(mem0, mc.to_off, MoveData(aes, mem0, mc, len)[..d], buf[..b]);
    flash.FlashWrite(mc.to_off + d, buf[..b]);
  }

  lemma ChainMore(ops0: seq<Op>, ops1: seq<Op>, ops2: seq<Op>, lo: int, mid: int, hi: int)
    requires ops0 <= ops1 <= ops2 && Chain(ops1[|ops0|..], lo, mid) && Chain(ops2[|ops1|..], mid, hi)
    ensures Chain(ops2[|ops0|..], lo, hi)
  {
    hide Chain;
    ChainConcat(ops1[|ops0|..], ops2[|ops1|..], lo, mid, hi);
    assert ops2[|ops0|..] == ops1[|ops0|..] + ops2[|ops1|..];
  }

  // zb_img_move for a destination in flash.
  method ImgMove(aes: Aes, flash: FlashDevice, mc: MoveCmd, len: nat)
    requires flash.Valid() && mc.fr_off + len <= |flash.mem|
    requires Aligned(flash.block, mc.to_off) && mc.to_off + AlignSize(flash.block, len) <= |flash.mem|
    requires Blank(flash.mem, mc.to_off, mc.to_off + AlignSize(flash.block, len))
    requires Apart(mc.fr_off, len, mc.to_off, AlignSize(flash.block, len))
    requires mc.ClearLength() < len ==> Aligned(flash.block, mc.ClearLength())
    modifies flash
    ensures flash.Valid()
    ensures flash.mem == Put(old(flash.mem), mc.to_off, MoveData(aes, old(flash.mem), mc, len))
    ensures old(flash.ops) <= flash.ops
    ensures Chain(flash.ops[|old(flash.ops)|..], mc.to_off, mc.to_off + AlignSize(flash.block, len))
    ensures Within(flash.ops[|old(flash.ops)|..], mc.to_off, mc.to_off + AlignSize(flash.block, len))
  {
    hide MoveData, Chunk, LowBits, BigEndian, Replay, Chain, Within, MoveCmd.FirstCounter, CounterAt, AlignSize;
    ghost var mem0 := flash.mem;
    ghost var data := MoveData(aes, mem0, mc, len);
    var buf := new byte[MOVE_BLOCK_SIZE];
    var ctr := new byte[AES_BLOCK_SIZE](_ => 0);
    ZeroCounter(ctr[..]);
    SkipCounter(mc, ctr);
    var d, ulen := 0, mc.ClearLength();
    PutNothing(mem0, mc.to_off);
    AlignedZero(flash.block);
    AlignSizeAfter(flash.block, 0, 0);
    ChainOne(mc.to_off, []);
    CounterStarts(mc);
    assert flash.ops[|old(flash.ops)|..] == [];
    while d < len
      invariant d <= len && flash.Valid() && |flash.mem| == |mem0|
      invariant ulen == if d < mc.ClearLength() then mc.ClearLength() - d else 0
      invariant d < len ==> Aligned(flash.block, d)
      invariant d < len && mc.ClearLength() <= d ==> (d - mc.ClearLength()) % 16 == 0
      invariant ctr[..] == BigEndian(CounterAt(mc, d), AES_BLOCK_SIZE)
      invariant flash.mem == Put(mem0, mc.to_off, data[..d])
      invariant old(flash.ops) <= flash.ops
      invariant Chain(flash.ops[|old(flash.ops)|..], mc.to_off, mc.to_off + AlignSize(flash.block, d))
    {
      var buf_len := Min(len - d, MOVE_BLOCK_SIZE);
      if ulen > 0 {
        buf_len := Min(buf_len, ulen);
      }
      ChunkStaysAligned(flash.block, mc, d, buf_len, len);
      ghost var before := flash.ops;
      MoveChunk(aes, flash, mc, d, buf_len, buf, ctr, mem0, len);
      ChainMore(old(flash.ops), before, flash.ops, mc.to_off, mc.to_off + d,
                mc.to_off + AlignSize(flash.block, d + buf_len));
      if ulen > 0 {
        ulen := ulen - buf_len;
      }
      d := d + buf_len;
    }
    assert data[..d] == data;
    ChainBounds(flash.ops[|old(flash.ops)|..], mc.to_off, mc.to_off + AlignSize(flash.block, len));
  }

  lemma CounterStarts(mc: MoveCmd)
    ensures CounterAt(mc, 0) == mc.FirstCounter()
  {}

  lemma ZeroCounter(s: seq<byte>)
    requires |s| == 16 && forall i :: 0 <= i < 16 ==> s[i] == 0
    ensures s == BigEndian(0, 16)
  {
    ZeroBigEndian(16);
  }

  lemma ZeroBigEndian(n: nat)
    ensures forall i :: 0 <= i < n ==> BigEndian(0, n)[i] == 0
  {
    if n > 0 {
      ZeroBigEndian(n - 1);
    }
  }

  lemma AlignedZero(w: nat)
    requires BlockOk(w)
    ensures Aligned(w, 0)
  {}

  // Every piece but the last is a whole number of write blocks, and the padding of the last stays inside.
  lemma ChunkStaysAligned(w: nat, mc: MoveCmd, d: nat, b: nat, len: nat)
    requires BlockOk(w) && Aligned(w, d) && d < len && 0 < b && d + b <= len
    requires b == Min(len - d, MOVE_BLOCK_SIZE)
             || (d < mc.ClearLength() && b == mc.ClearLength() - d)
    requires d < mc.ClearLength() ==> d + b <= mc.ClearLength()
    requires mc.ClearLength() <= d ==> (d - mc.ClearLength()) % 16 == 0
    requires mc.ClearLength() < len ==> Aligned(w, mc.ClearLength())
    ensures ChunkOk(mc, d, b)
    ensures d + b < len ==> Aligned(w, d + b)
    ensures d + b < len && mc.ClearLength() <= d + b ==> (d + b - mc.ClearLength()) % 16 == 0
    ensures d + AlignSize(w, b) <= AlignSize(w, len)
  {
    AlignSizeFacts(w, len);
    AlignedDifference(w, AlignSize(w, len), d);
    AlignSizeBound(w, b, AlignSize(w, len) - d);
    if d + b < len {
      if b == MOVE_BLOCK_SIZE {
        Aligned16(w, b);
        AlignedSum(w, d, b);
      }
    }
  }

  lemma ChunkOf(aes: Aes, mem0: seq<byte>, mem: seq<byte>, mc: MoveCmd, d: nat, b: nat)
    requires SameOn(mem0, mem, mc.fr_off + d, mc.fr_off + d + b)
    ensures Chunk(aes, mem, mc, d, b) == Chunk(aes, mem0, mc, d, b)
  {
    assert Slice(mem, mc.fr_off + d, b) == Slice(mem0, mc.fr_off + d, b);
  }
}
