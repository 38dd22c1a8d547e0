// Chunked reads over flash: zb_hash_flash and zb_crc32_flash of zepboot/src/zb_ec256.c.
module Digest {
  import opened Bytes
  import opened Ctr
  import opened CmdLog
  import opened Flash

  // The library code that is not modelled, as function values about which nothing is assumed:
  // the AES block, SHA-256 of everything fed to it, the signature check, the key derived from an ephemeral
  // public key (None when the point is refused) and one octet of crc32_ieee.
  datatype Crypto = Crypto(
    aes: Aes,
    hash: seq<byte> -> seq<byte>,
    verify: (seq<byte>, seq<byte>) -> bool,
    keyOf: seq<byte> -> Option<seq<byte>>,
    crcStep: (nat, byte) -> nat)

  const HASH_FLASH_BUFFER_BYTES: nat := 256

  function CrcFold(step: (nat, byte) -> nat, crc: nat, s: seq<byte>): nat {
    if s == [] then crc else step(CrcFold(step, crc, s[..|s| - 1]), s[|s| - 1])
  }

  // Updating with two pieces is updating with their concatenation.
  lemma {:induction false} CrcFoldConcat(step: (nat, byte) -> nat, crc: nat, a: seq<byte>, b: seq<byte>)
    ensures CrcFold(step, crc, a + b) == CrcFold(step, CrcFold(step, crc, a), b)
  {
    if b == [] {
      assert a + b == a;
    } else {
      CrcFoldConcat(step, crc, a, b[..|b| - 1]);
      assert (a + b)[..|a + b| - 1] == a + b[..|b| - 1];
    }
  }

  // The crc32 of `len` octets of flash.
  function FlashCrc(cr: Crypto, mem: seq<byte>, off: int, len: nat): nat {
    CrcFold(cr.crcStep, 0, Slice(mem, off, len))
  }

  // The crc32 of nothing is 0, and one more octet is one more step.
  lemma FlashCrcSteps(cr: Crypto, mem: seq<byte>, off: int, len: nat)
    ensures FlashCrc(cr, mem, off, 0) == 0
    ensures FlashCrc(cr, mem, off, len + 1) == cr.crcStep(FlashCrc(cr, mem, off, len), At(mem, off + len))
  {
    assert Slice(mem, off, len + 1)[..len] == Slice(mem, off, len);
  }

  lemma SliceConcat(mem: seq<byte>, off: int, a: nat, b: nat)
    ensures Slice(mem, off, a) + Slice(mem, off + a, b) == Slice(mem, off, a + b)
  {}

  lemma SliceTail(mem: seq<byte>, off: int, j: nat, n: nat)
    requires j <= n
    ensures Slice(mem, off, n)[j..] == Slice(mem, off + j, n - j)
  {}

  lemma SameSlice(a: seq<byte>, b: seq<byte>, lo: int, hi: int, off: int, n: nat)
    requires SameOn(a, b, lo, hi) && lo <= off && off + n <= hi
    ensures Slice(a, off, n) == Slice(b, off, n)
  {}

  // zb_crc32_flash: reads start on a write block boundary; the octets before `off` are read but not fed.
  method Crc32Flash(cr: Crypto, flash: FlashDevice, off: nat, len0: nat) returns (crc: nat)
    requires flash.Valid() && off + len0 <= |flash.mem|
    ensures crc == FlashCrc(cr, flash.mem, off, len0)
  {
    hide LowBits, CrcFold, Slice;
    RoundDownFacts(flash.block, off);
    crc := 0;
    var start := AlignOffset(flash.block, off);
    var jump := off - start;
    var len := len0 + jump;
    var buf := new byte[HASH_FLASH_BUFFER_BYTES];
    ghost var fed: nat := 0;
    assert Slice(flash.mem, off, 0) == [] && CrcFold(cr.crcStep, 0, []) == 0 by { FoldNothing(cr); }
    while len > 0
      invariant 0 <= jump < flash.block && start + jump == off + fed && fed + len == len0 + jump
      invariant jump <= len
      invariant crc == CrcFold(cr.crcStep, 0, Slice(flash.mem, off, fed))
    {
      var buf_len := Min(HASH_FLASH_BUFFER_BYTES, len);
      flash.FlashRead(start, buf, buf_len);
      SliceTail(flash.mem, start, jump, buf_len);
      assert buf[jump..buf_len] == Slice(flash.mem, start, buf_len)[jump..];
      SliceConcat(flash.mem, off, fed, buf_len - jump);
      CrcFoldConcat(cr.crcStep, 0, Slice(flash.mem, off, fed), buf[jump..buf_len]);
      crc := CrcFold(cr.crcStep, crc, buf[jump..buf_len]);
      fed := fed + (buf_len - jump);
      start := start + buf_len;
      len := len - buf_len;
      jump := 0;
    }
  }

  lemma FoldNothing(cr: Crypto)
    ensures CrcFold(cr.crcStep, 0, []) == 0
    ensures forall mem, off :: Slice(mem, off, 0) == []
  {}

  // zb_hash_flash: the same walk, feeding SHA-256.
  method HashFlash(cr: Crypto, flash: FlashDevice, off: nat, len0: nat) returns (digest: seq<byte>)
    requires flash.Valid() && off + len0 <= |flash.mem|
    ensures digest == cr.hash(Slice(flash.mem, off, len0))
  {
    hide LowBits, Slice;
    RoundDownFacts(flash.block, off);
    var start := AlignOffset(flash.block, off);
    var jump := off - start;
    var len := len0 + jump;
    var buf := new byte[HASH_FLASH_BUFFER_BYTES];
    var fed: seq<byte> := [];
    FoldNothing(cr);
    while len > 0
      invariant 0 <= jump < flash.block && start + jump == off + |fed| && |fed| + len == len0 + jump
      invariant jump <= len
      invariant fed == Slice(flash.mem, off, |fed|)
    {
      var buf_len := Min(HASH_FLASH_BUFFER_BYTES, len);
      flash.FlashRead(start, buf, buf_len);
      SliceTail(flash.mem, start, jump, buf_len);
      assert buf[jump..buf_len] == Slice(flash.mem, start, buf_len)[jump..];
      SliceConcat(flash.mem, off, |fed|, buf_len - jump);
      fed := fed + buf[jump..buf_len];
      start := start + buf_len;
      len := len - buf_len;
      jump := 0;
    }
    digest := cr.hash(fed);
  }
}
